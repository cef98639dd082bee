/** The segmentation loop `JdkRsaUtil.doFinal`: it cuts an arbitrary-length
    byte array into chunks of at most `block` bytes, runs a single-block RSA
    operation on each chunk in order, and concatenates what the operation
    returns. The RSA operation itself is a parameter (`BlockCipher`); a
    `Failure` from it is the exception `Cipher.doFinal` throws. */
module Chunking {
  import opened Wrappers
  import opened JavaInt

  type byte = bv8

  /** A cipher already initialised with a mode and a key: one call of
      `Cipher.doFinal(input, offset, len)` on the `len` bytes it is given. */
  type BlockCipher<E> = seq<byte> -> Result<seq<byte>, E>

  function Min(a: int, b: int): int {
    if a <= b then a else b
  }

  /** Reference definition of the segmentation: a full block while more than
      `block` bytes remain, then everything that is left. */
  function Chunks(content: seq<byte>, block: nat): (cs: seq<seq<byte>>)
    requires block > 0
    ensures |content| == 0 <==> |cs| == 0
    decreases |content|
  {
    if |content| == 0 then []
    else if |content| > block then [content[..block]] + Chunks(content[block..], block)
    else [content]
  }

  /** The bytes of `parts`, one after the other. */
  function Concat(parts: seq<seq<byte>>): seq<byte> {
    if |parts| == 0 then [] else parts[0] + Concat(parts[1..])
  }

  /** Runs the cipher on each chunk in order and concatenates its outputs;
      the first failing chunk aborts and its error is the result. */
  function CipherAll<E>(cipher: BlockCipher<E>, chunks: seq<seq<byte>>): Result<seq<byte>, E>
  {
    if |chunks| == 0 then Success([])
    else match cipher(chunks[0])
      case Failure(e) => Failure(e)
      case Success(head) =>
        match CipherAll(cipher, chunks[1..])
        case Failure(e) => Failure(e)
        case Success(tail) => Success(head + tail)
  }

  /** What `doFinal(cipher, content, block)` returns, as a function. */
  function ChunkedFinal<E>(cipher: BlockCipher<E>, content: seq<byte>, block: nat): Result<seq<byte>, E>
    requires block > 0
  {
    CipherAll(cipher, Chunks(content, block))
  }

  /** All-or-nothing: the chunked operation succeeds exactly when every
      single-block call succeeds, and a failure reports the error of the
      first chunk that failed. */
  lemma {:induction false} CipherAllOutcome<E>(cipher: BlockCipher<E>, chunks: seq<seq<byte>>)
    ensures CipherAll(cipher, chunks).Success? <==> forall k | 0 <= k < |chunks| :: cipher(chunks[k]).Success?
    ensures CipherAll(cipher, chunks).Failure? ==>
              exists k | 0 <= k < |chunks| ::
                cipher(chunks[k]) == Failure(CipherAll(cipher, chunks).error)
                && forall j | 0 <= j < k :: cipher(chunks[j]).Success?
    decreases |chunks|
  {
    if |chunks| > 0 {
      CipherAllOutcome(cipher, chunks[1..]);
      var r := CipherAll(cipher, chunks);
      if cipher(chunks[0]).Failure? {
        assert cipher(chunks[0]) == Failure(r.error);
      } else if r.Failure? {
        var k :| 0 <= k < |chunks[1..]| && cipher(chunks[1..][k]) == Failure(r.error)
                 && forall j | 0 <= j < k :: cipher(chunks[1..][j]).Success?;
        assert cipher(chunks[k + 1]) == Failure(r.error);
        assert forall j | 0 <= j < k + 1 :: cipher(chunks[j]).Success? by {
          forall j | 0 <= j < k + 1
            ensures cipher(chunks[j]).Success?
          {
            if j > 0 {
              assert chunks[j] == chunks[1..][j - 1];
            }
          }
        }
      } else {
        forall k | 0 <= k < |chunks|
          ensures cipher(chunks[k]).Success?
        {
          if k > 0 {
            assert chunks[k] == chunks[1..][k - 1];
          }
        }
      }
    }
  }

  /** `out` written in front of whatever `rest` produced; a failure stays a
      failure and the bytes written so far are dropped. */
  function Prepend<E>(out: seq<byte>, rest: Result<seq<byte>, E>): Result<seq<byte>, E> {
    match rest
    case Success(tail) => Success(out + tail)
    case Failure(e) => Failure(e)
  }

  lemma PrependNil<E>(rest: Result<seq<byte>, E>)
    ensures Prepend([], rest) == rest
  {
    if rest.Success? {
      assert [] + rest.value == rest.value;
    }
  }

  lemma PrependTwice<E>(a: seq<byte>, b: seq<byte>, rest: Result<seq<byte>, E>)
    ensures Prepend(a, Prepend(b, rest)) == Prepend(a + b, rest)
  {
    if rest.Success? {
      assert a + (b + rest.value) == (a + b) + rest.value;
    }
  }

  lemma {:induction false} ConcatSnoc(parts: seq<seq<byte>>, last: seq<byte>)
    ensures Concat(parts + [last]) == Concat(parts) + last
    decreases |parts|
  {
    if |parts| == 0 {
      assert parts + [last] == [last];
      assert Concat([last]) == last + Concat([]);
    } else {
      assert (parts + [last])[1..] == parts[1..] + [last];
      ConcatSnoc(parts[1..], last);
    }
  }

  lemma MulStep(k: nat, b: nat)
    requires k > 0
    ensures k * b == (k - 1) * b + b
  {
  }

  lemma MulAtLeast(k: int, b: nat)
    requires k >= 1
    ensures k * b >= b
  {
    MulStep(k, b);
    assert (k - 1) * b >= 0;
  }

  lemma SliceOfSuffix(s: seq<byte>, d: nat, lo: nat, hi: nat)
    requires d <= |s| && lo <= hi <= |s| - d
    ensures s[d..][lo..hi] == s[d + lo .. d + hi]
  {
  }

  /** The k-th chunk starts at `k * block` and ends at the next block boundary
      or at the end of the input; chunk k exists exactly when its start lies
      inside the input. */
  lemma {:induction false} ChunkAt(content: seq<byte>, block: nat, k: nat)
    requires block > 0
    ensures k < |Chunks(content, block)| <==> k * block < |content|
    ensures k < |Chunks(content, block)| ==>
              Chunks(content, block)[k] == content[k * block .. Min(k * block + block, |content|)]
    decreases k
  {
    var cs := Chunks(content, block);
    if k == 0 {
      assert k * block == 0;
    } else if |content| == 0 {
    } else if |content| <= block {
      assert cs == [content];
      MulAtLeast(k, block);
    } else {
      var rest := content[block..];
      assert cs == [content[..block]] + Chunks(rest, block);
      ChunkAt(rest, block, k - 1);
      var start := k * block;
      var prev := (k - 1) * block;
      MulStep(k, block);
      assert start == prev + block;
      if k < |cs| {
        assert cs[k] == Chunks(rest, block)[k - 1];
        var hi := Min(prev + block, |rest|);
        assert hi + block == Min(start + block, |content|);
        SliceOfSuffix(content, block, prev, hi);
      }
    }
  }

  /** A non-empty input is its first chunk followed by the chunks of the rest. */
  lemma ChunksCons(p: seq<byte>, block: nat)
    requires block > 0 && |p| > 0
    ensures Chunks(p, block) == [p[..Min(block, |p|)]] + Chunks(p[Min(block, |p|)..], block)
  {
    if |p| <= block {
      assert p[..|p|] == p;
      assert p[|p|..] == [];
    }
  }

  lemma ConcatCons(x: seq<byte>, xs: seq<seq<byte>>)
    ensures Concat([x] + xs) == x + Concat(xs)
  {
    assert ([x] + xs)[1..] == xs;
  }

  /** The chunks, concatenated in order, are the input: no byte is skipped or
      repeated. */
  lemma {:induction false} ChunksPartition(content: seq<byte>, block: nat)
    requires block > 0
    ensures Concat(Chunks(content, block)) == content
    decreases |content|
  {
    if |content| > 0 {
      var n := Min(block, |content|);
      var head, rest := content[..n], content[n..];
      ChunksCons(content, block);
      ConcatCons(head, Chunks(rest, block));
      ChunksPartition(rest, block);
      assert head + rest == content;
    }
  }

  /** Every chunk holds between 1 and `block` bytes, and every chunk but the
      last holds exactly `block`. */
  lemma ChunkSizes(content: seq<byte>, block: nat, k: nat)
    requires block > 0
    requires k < |Chunks(content, block)|
    ensures 1 <= |Chunks(content, block)[k]| <= block
    ensures k + 1 < |Chunks(content, block)| ==> |Chunks(content, block)[k]| == block
  {
    ChunkAt(content, block, k);
    ChunkAt(content, block, k + 1);
    assert (k + 1) * block == k * block + block;
  }

  lemma DivUnique(x: nat, b: nat, m: nat)
    requires b > 0
    requires m * b <= x < m * b + b
    ensures x / b == m
  {
    var q := x / b;
    var d := q - m;
    assert x == q * b + x % b;
    assert d * b == q * b - m * b;
    if d >= 1 {
      MulAtLeast(d, b);
    }
  }

  /** The primitive is called ceil(n / block) times: the last chunk starts
      before the end of the input and a further one would start past it. */
  lemma ChunkCount(content: seq<byte>, block: nat)
    requires block > 0
    ensures |content| > 0 ==> (|Chunks(content, block)| - 1) * block < |content|
    ensures |content| <= |Chunks(content, block)| * block
    ensures |Chunks(content, block)| == (|content| + block - 1) / block
  {
    var m := |Chunks(content, block)|;
    ChunkAt(content, block, m);
    if m == 0 {
      DivUnique(|content| + block - 1, block, 0);
    } else {
      ChunkAt(content, block, m - 1);
      MulStep(m, block);
      DivUnique(|content| + block - 1, block, m);
    }
  }

  lemma ChunkExists(content: seq<byte>, block: nat, i: nat)
    requires block > 0
    ensures i < |Chunks(content, block)| <==> i * block < |content|
  {
    ChunkAt(content, block, i);
  }

  /** The chunk the loop cuts at offset `i * block`, while that offset is
      inside the input, is chunk `i`. */
  lemma NextChunk(content: seq<byte>, block: nat, i: nat)
    requires block > 0 && i * block < |content|
    ensures i < |Chunks(content, block)|
    ensures |content| - i * block > block ==>
              Chunks(content, block)[i] == content[i * block .. i * block + block]
    ensures |content| - i * block <= block ==>
              Chunks(content, block)[i] == content[i * block .. |content|]
  {
    ChunkAt(content, block, i);
  }

  /** One successful loop iteration moves the chunk's output into `out`. */
  lemma StepSuccess<E>(cipher: BlockCipher<E>, cs: seq<seq<byte>>, i: nat, out: seq<byte>, h: seq<byte>)
    requires i < |cs| && cipher(cs[i]) == Success(h)
    requires CipherAll(cipher, cs) == Prepend(out, CipherAll(cipher, cs[i..]))
    ensures CipherAll(cipher, cs) == Prepend(out + h, CipherAll(cipher, cs[i + 1..]))
  {
    assert cs[i..] == [cs[i]] + cs[i + 1..];
    CipherAllCons(cipher, cs[i], cs[i + 1..]);
    PrependTwice(out, h, CipherAll(cipher, cs[i + 1..]));
  }

  /** A failing chunk makes the whole operation fail with its error. */
  lemma StepFailure<E>(cipher: BlockCipher<E>, cs: seq<seq<byte>>, i: nat, out: seq<byte>)
    requires i < |cs| && cipher(cs[i]).Failure?
    requires CipherAll(cipher, cs) == Prepend(out, CipherAll(cipher, cs[i..]))
    ensures CipherAll(cipher, cs) == Failure(cipher(cs[i]).error)
  {
    assert cs[i..] == [cs[i]] + cs[i + 1..];
    CipherAllCons(cipher, cs[i], cs[i + 1..]);
  }

  /** The state of the `doFinal` loop after `i` calls: the offset is
      `i * block`, the calls so far were the first `i` chunks in order, each
      returned the matching output, `out` holds the outputs in call order, and
      what is still to come completes the reference result. */
  ghost predicate LoopInv<E>(cipher: BlockCipher<E>, content: seq<byte>, block: nat, i: nat, offSet: nat,
                             calls: seq<seq<byte>>, outputs: seq<seq<byte>>, out: seq<byte>)
  {
    && block > 0
    && offSet == i * block
    && i <= |Chunks(content, block)|
    && (i < |Chunks(content, block)| <==> offSet < |content|)
    && calls == Chunks(content, block)[..i]
    && |outputs| == i
    && (forall k | 0 <= k < i :: cipher(calls[k]) == Success(outputs[k]))
    && out == Concat(outputs)
    && CipherAll(cipher, Chunks(content, block)) == Prepend(out, CipherAll(cipher, Chunks(content, block)[i..]))
  }

  lemma LoopInit<E>(cipher: BlockCipher<E>, content: seq<byte>, block: nat)
    requires block > 0
    ensures LoopInv(cipher, content, block, 0, 0, [], [], [])
  {
    var cs := Chunks(content, block);
    ChunkExists(content, block, 0);
    assert cs[0..] == cs;
    PrependNil(CipherAll(cipher, cs));
  }

  /** A successful call moves the loop on by one chunk. */
  lemma LoopStep<E>(cipher: BlockCipher<E>, content: seq<byte>, block: nat, i: nat,
                    calls: seq<seq<byte>>, outputs: seq<seq<byte>>, out: seq<byte>, h: seq<byte>)
    requires LoopInv(cipher, content, block, i, i * block, calls, outputs, out)
    requires i * block < |content|
    requires cipher(Chunks(content, block)[i]) == Success(h)
    ensures LoopInv(cipher, content, block, i + 1, (i + 1) * block,
                    calls + [Chunks(content, block)[i]], outputs + [h], out + h)
  {
    var cs := Chunks(content, block);
    StepSuccess(cipher, cs, i, out, h);
    ConcatSnoc(outputs, h);
    ChunkExists(content, block, i + 1);
    assert cs[..i + 1] == cs[..i] + [cs[i]];
  }

  /** The loop stops when the offset passes the end: every chunk has been
      processed and `out` is the whole result. */
  lemma LoopExit<E>(cipher: BlockCipher<E>, content: seq<byte>, block: nat, i: nat, offSet: nat,
                    calls: seq<seq<byte>>, outputs: seq<seq<byte>>, out: seq<byte>)
    requires LoopInv(cipher, content, block, i, offSet, calls, outputs, out)
    requires offSet >= |content|
    ensures calls == Chunks(content, block)
    ensures CipherAll(cipher, Chunks(content, block)) == Success(out)
  {
    var cs := Chunks(content, block);
    assert cs[i..] == [];
    assert out + [] == out;
  }

  /** `doFinal` as written: the offset is recomputed as `i * block` after
      every call rather than advanced by the bytes consumed. Besides the
      result it returns, as a trace, the chunk handed to each primitive call
      (`calls`) and what each successful call returned (`outputs`). */
  method DoFinal<E>(cipher: BlockCipher<E>, content: seq<byte>, block: nat)
    returns (r: Result<seq<byte>, E>, calls: seq<seq<byte>>, outputs: seq<seq<byte>>)
    requires block > 0
    ensures r == ChunkedFinal(cipher, content, block)
    ensures |calls| <= |Chunks(content, block)| && calls == Chunks(content, block)[..|calls|]
    ensures r.Success? ==> calls == Chunks(content, block)
    ensures r.Success? ==> |outputs| == |calls| && r.value == Concat(outputs)
    ensures r.Failure? ==> |outputs| + 1 == |calls| && cipher(calls[|outputs|]) == Failure(r.error)
    ensures forall k | 0 <= k < |outputs| :: cipher(calls[k]) == Success(outputs[k])
    ensures |content| == 0 ==> calls == [] && r == Success([])
  {
    var inputLen := |content|;
    var out: seq<byte> := [];
    var offSet: nat := 0;
    var i: nat := 0;
    calls, outputs := [], [];
    LoopInit(cipher, content, block);
    while inputLen - offSet > 0
      invariant LoopInv(cipher, content, block, i, offSet, calls, outputs, out)
      decreases |Chunks(content, block)| - i
    {
      NextChunk(content, block, i);
      var chunk: seq<byte>;
      if inputLen - offSet > block {
        chunk := content[offSet..offSet + block];
      } else {
        chunk := content[offSet..inputLen];
      }
      var cache := cipher(chunk);
      if cache.Failure? {
        StepFailure(cipher, Chunks(content, block), i, out);
        calls := calls + [chunk];
        r := Failure(cache.error);
        return;
      }
      LoopStep(cipher, content, block, i, calls, outputs, out, cache.value);
      calls := calls + [chunk];
      outputs := outputs + [cache.value];
      out := out + cache.value;
      i := i + 1;
      offSet := i * block;
    }
    LoopExit(cipher, content, block, i, offSet, calls, outputs, out);
    r := Success(out);
  }

  /** `enc` turns every chunk of 1 to `plainBlock` bytes into exactly
      `cipherBlock` bytes, and `dec` turns those back. */
  ghost predicate InvertsBlocks<E>(enc: BlockCipher<E>, dec: BlockCipher<E>, plainBlock: nat, cipherBlock: nat) {
    forall x: seq<byte> {:trigger enc(x)} | 1 <= |x| <= plainBlock ::
      enc(x).Success? && |enc(x).value| == cipherBlock && dec(enc(x).value) == Success(x)
  }

  /** The encryption half of `InvertsBlocks`: `enc` turns every chunk of 1 to
      `plainBlock` bytes into exactly `cipherBlock` bytes. */
  ghost predicate EmitsBlocks<E>(enc: BlockCipher<E>, plainBlock: nat, cipherBlock: nat) {
    forall x: seq<byte> {:trigger enc(x)} | 1 <= |x| <= plainBlock ::
      enc(x).Success? && |enc(x).value| == cipherBlock
  }

  lemma CipherAllCons<E>(cipher: BlockCipher<E>, head: seq<byte>, tail: seq<seq<byte>>)
    ensures cipher(head).Failure? ==> CipherAll(cipher, [head] + tail) == Failure(cipher(head).error)
    ensures cipher(head).Success? ==>
              CipherAll(cipher, [head] + tail) == Prepend(cipher(head).value, CipherAll(cipher, tail))
  {
    assert ([head] + tail)[1..] == tail;
  }

  /** One step of the chunked operation: the first chunk, then the rest. */
  lemma ChunkedFinalCons<E>(cipher: BlockCipher<E>, p: seq<byte>, block: nat)
    requires block > 0 && |p| > 0
    ensures cipher(p[..Min(block, |p|)]).Failure? ==>
              ChunkedFinal(cipher, p, block) == Failure(cipher(p[..Min(block, |p|)]).error)
    ensures cipher(p[..Min(block, |p|)]).Success? ==>
              ChunkedFinal(cipher, p, block)
              == Prepend(cipher(p[..Min(block, |p|)]).value, ChunkedFinal(cipher, p[Min(block, |p|)..], block))
  {
    ChunksCons(p, block);
    CipherAllCons(cipher, p[..Min(block, |p|)], Chunks(p[Min(block, |p|)..], block));
  }

  /** Under `EmitsBlocks`, encrypt-chunking emits one full cipher block per
      plaintext chunk. */
  lemma {:induction false} EncryptedLength<E>(enc: BlockCipher<E>, plainBlock: nat, cipherBlock: nat, p: seq<byte>)
    requires plainBlock > 0 && cipherBlock > 0
    requires EmitsBlocks(enc, plainBlock, cipherBlock)
    ensures ChunkedFinal(enc, p, plainBlock).Success?
    ensures |ChunkedFinal(enc, p, plainBlock).value| == |Chunks(p, plainBlock)| * cipherBlock
    decreases |p|
  {
    if |p| > 0 {
      var n := Min(plainBlock, |p|);
      var head, rest := p[..n], p[n..];
      EncryptedLength(enc, plainBlock, cipherBlock, rest);
      ChunkedFinalCons(enc, p, plainBlock);
      ChunksCons(p, plainBlock);
      assert 1 <= |head| <= plainBlock;
      MulStep(|Chunks(p, plainBlock)|, cipherBlock);
    }
  }

  /** Decrypting a full cipher block followed by more ciphertext. */
  lemma DecryptFullBlockFirst<E>(dec: BlockCipher<E>, cipherBlock: nat, e: seq<byte>, tail: seq<byte>,
                                 head: seq<byte>, rest: seq<byte>)
    requires cipherBlock > 0 && |e| == cipherBlock
    requires dec(e) == Success(head) && ChunkedFinal(dec, tail, cipherBlock) == Success(rest)
    ensures ChunkedFinal(dec, e + tail, cipherBlock) == Success(head + rest)
  {
    var c := e + tail;
    ChunkedFinalCons(dec, c, cipherBlock);
    assert Min(cipherBlock, |c|) == cipherBlock;
    assert c[..cipherBlock] == e && c[cipherBlock..] == tail;
  }

  /** Encrypting the first chunk, then the rest. */
  lemma EncryptFirstChunk<E>(enc: BlockCipher<E>, plainBlock: nat, p: seq<byte>, e: seq<byte>, tail: seq<byte>)
    requires plainBlock > 0 && |p| > 0
    requires enc(p[..Min(plainBlock, |p|)]) == Success(e)
    requires ChunkedFinal(enc, p[Min(plainBlock, |p|)..], plainBlock) == Success(tail)
    ensures ChunkedFinal(enc, p, plainBlock) == Success(e + tail)
  {
    ChunkedFinalCons(enc, p, plainBlock);
  }

  /** Conditional round trip: when single-block encryption maps every chunk of
      at most `plainBlock` bytes to exactly `cipherBlock` bytes and
      single-block decryption undoes it, decrypt-chunking at `cipherBlock`
      returns exactly the bytes that encrypt-chunking at `plainBlock` was
      given, whatever their length. */
  lemma {:induction false} ChunkedRoundTrip<E>(enc: BlockCipher<E>, dec: BlockCipher<E>,
                                               plainBlock: nat, cipherBlock: nat, p: seq<byte>)
    requires plainBlock > 0 && cipherBlock > 0
    requires InvertsBlocks(enc, dec, plainBlock, cipherBlock)
    ensures ChunkedFinal(enc, p, plainBlock).Success?
    ensures ChunkedFinal(dec, ChunkedFinal(enc, p, plainBlock).value, cipherBlock) == Success(p)
    decreases |p|
  {
    if |p| > 0 {
      var n := Min(plainBlock, |p|);
      var head, rest := p[..n], p[n..];
      ChunkedRoundTrip(enc, dec, plainBlock, cipherBlock, rest);
      assert 1 <= |head| <= plainBlock;
      var e := enc(head).value;
      var tail := ChunkedFinal(enc, rest, plainBlock).value;
      EncryptFirstChunk(enc, plainBlock, p, e, tail);
      DecryptFullBlockFirst(dec, cipherBlock, e, tail, head, rest);
      assert head + rest == p;
      var c := ChunkedFinal(enc, p, plainBlock);
      assert c.value == e + tail;
      assert ChunkedFinal(dec, c.value, cipherBlock) == Success(p);
    }
  }

  /** Java computes the loop guard `inputLen - offSet > 0` with
      `offSet = i * block` in 32-bit arithmetic. For every `i` the loop can
      reach (the previous chunk started inside the input) that guard agrees
      with the mathematical one, even when `i * block` overflows: the
      wrapped difference is then negative and the loop still stops. */
  lemma JavaGuardAgrees(inputLen: int32, block: int32, i: int32)
    requires 0 <= inputLen && 0 < block && 0 <= i
    requires i == 0 || (i - 1) * block < inputLen
    ensures Sub(inputLen, Mul(i, block)) > 0 <==> i * block < inputLen
  {
    var off := i * block;
    if i > 0 {
      assert off == (i - 1) * block + block;
    }
    if off <= INT_MAX {
      assert Mul(i, block) == off;
    } else {
      assert off < TWO_32;
      assert off % TWO_32 == off;
      assert Mul(i, block) == off - TWO_32;
      var d := inputLen - (off - TWO_32);
      assert INT_MAX < d < TWO_32;
      assert d % TWO_32 == d;
      assert Sub(inputLen, Mul(i, block)) == d - TWO_32;
    }
  }
}
