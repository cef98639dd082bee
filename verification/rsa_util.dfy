/** The byte-level entry points of `JdkRsaUtil`: each initialises the JCE
    `RSA` cipher with a mode and a key and hands it to the chunking loop,
    with 117-byte chunks when encrypting and 128-byte chunks when
    decrypting. For a 1024-bit key, 128 bytes is the modulus length and
    117 = 128 - 11 is the longest message RSAES-PKCS1-v1_5 accepts
    (section 7.2.1 of RFC 8017). Keys are opaque handles. */
module RsaUtil {
  import opened Wrappers
  import opened Chunking
  import JavaInt

  /** Largest ciphertext chunk (`Constants.MAX_DECRYPT_BLOCK`). */
  const MAX_DECRYPT_BLOCK: nat := 128
  /** Largest plaintext chunk (`Constants.MAX_ENCRYPT_BLOCK`). */
  const MAX_ENCRYPT_BLOCK: nat := 117

  datatype CipherMode = EncryptMode | DecryptMode

  /** Opaque key handles; `material` stands for the key bytes that the JCE
      key factory parsed. */
  datatype PrivateKey = PrivateKey(material: seq<byte>)
  datatype PublicKey = PublicKey(material: seq<byte>)
  datatype Key = Private(privateKey: PrivateKey) | Public(publicKey: PublicKey)

  /** The JCE `RSA` cipher as a single-block operation: for a mode, a key and
      one chunk, either the bytes `Cipher.doFinal` returns or what it throws. */
  type Rsa<E> = (CipherMode, Key, seq<byte>) -> Result<seq<byte>, E>

  /** `Cipher.getInstance("RSA")` followed by `cipher.init(mode, key)`. */
  function Init<E>(rsa: Rsa<E>, mode: CipherMode, key: Key): BlockCipher<E> {
    chunk => rsa(mode, key, chunk)
  }

  /** What encrypting `content` under `key` returns. */
  function Encrypted<E>(rsa: Rsa<E>, key: Key, content: seq<byte>): Result<seq<byte>, E> {
    ChunkedFinal(Init(rsa, EncryptMode, key), content, MAX_ENCRYPT_BLOCK)
  }

  /** What decrypting `content` under `key` returns. */
  function Decrypted<E>(rsa: Rsa<E>, key: Key, content: seq<byte>): Result<seq<byte>, E> {
    ChunkedFinal(Init(rsa, DecryptMode, key), content, MAX_DECRYPT_BLOCK)
  }

  /** Every chunk handed to the cipher holds between 1 and `block` bytes. */
  ghost predicate ChunksWithin(calls: seq<seq<byte>>, block: nat) {
    forall k | 0 <= k < |calls| :: 1 <= |calls[k]| <= block
  }

  lemma AllChunksWithin(content: seq<byte>, block: nat)
    requires block > 0
    ensures ChunksWithin(Chunks(content, block), block)
  {
    forall k | 0 <= k < |Chunks(content, block)|
      ensures 1 <= |Chunks(content, block)[k]| <= block
    {
      ChunkSizes(content, block, k);
    }
  }

  /** Runs the chunking loop with `cipher` initialised for `mode` and `key`,
      chunking at `block`; shared by the four entry points below. */
  method Run<E>(rsa: Rsa<E>, mode: CipherMode, key: Key, content: seq<byte>, block: nat)
    returns (r: Result<seq<byte>, E>, calls: seq<seq<byte>>)
    requires block > 0
    ensures r == ChunkedFinal(Init(rsa, mode, key), content, block)
    ensures ChunksWithin(calls, block)
    ensures r.Success? ==> calls == Chunks(content, block)
  {
    var outputs;
    r, calls, outputs := DoFinal(Init(rsa, mode, key), content, block);
    AllChunksWithin(content, block);
  }

  /** `encryptByPrivateKey(byte[], PrivateKey)`: 117-byte chunks. */
  method EncryptByPrivateKey<E>(rsa: Rsa<E>, content: seq<byte>, privateKey: PrivateKey)
    returns (r: Result<seq<byte>, E>, calls: seq<seq<byte>>)
    ensures r == Encrypted(rsa, Private(privateKey), content)
    ensures ChunksWithin(calls, 117)
    ensures r.Success? ==> calls == Chunks(content, 117)
  {
    r, calls := Run(rsa, EncryptMode, Private(privateKey), content, MAX_ENCRYPT_BLOCK);
  }

  /** `decryptByPublicKey(byte[], PublicKey)`: 128-byte chunks. */
  method DecryptByPublicKey<E>(rsa: Rsa<E>, content: seq<byte>, publicKey: PublicKey)
    returns (r: Result<seq<byte>, E>, calls: seq<seq<byte>>)
    ensures r == Decrypted(rsa, Public(publicKey), content)
    ensures ChunksWithin(calls, 128)
    ensures r.Success? ==> calls == Chunks(content, 128)
  {
    r, calls := Run(rsa, DecryptMode, Public(publicKey), content, MAX_DECRYPT_BLOCK);
  }

  /** `encryptByPublicKey(byte[], PublicKey)`: 117-byte chunks. */
  method EncryptByPublicKey<E>(rsa: Rsa<E>, content: seq<byte>, publicKey: PublicKey)
    returns (r: Result<seq<byte>, E>, calls: seq<seq<byte>>)
    ensures r == Encrypted(rsa, Public(publicKey), content)
    ensures ChunksWithin(calls, 117)
    ensures r.Success? ==> calls == Chunks(content, 117)
  {
    r, calls := Run(rsa, EncryptMode, Public(publicKey), content, MAX_ENCRYPT_BLOCK);
  }

  /** `decryptByPrivateKey(byte[], PrivateKey)`: 128-byte chunks. */
  method DecryptByPrivateKey<E>(rsa: Rsa<E>, content: seq<byte>, privateKey: PrivateKey)
    returns (r: Result<seq<byte>, E>, calls: seq<seq<byte>>)
    ensures r == Decrypted(rsa, Private(privateKey), content)
    ensures ChunksWithin(calls, 128)
    ensures r.Success? ==> calls == Chunks(content, 128)
  {
    r, calls := Run(rsa, DecryptMode, Private(privateKey), content, MAX_DECRYPT_BLOCK);
  }

  /** The single-block assumption for private-key encryption: encrypting 1
      to 117 bytes with the private key yields exactly 128 bytes, which
      decrypting with the public key turns back. */
  ghost predicate PrivateToPublic<E>(rsa: Rsa<E>, privateKey: PrivateKey, publicKey: PublicKey) {
    InvertsBlocks(Init(rsa, EncryptMode, Private(privateKey)), Init(rsa, DecryptMode, Public(publicKey)),
                  MAX_ENCRYPT_BLOCK, MAX_DECRYPT_BLOCK)
  }

  /** The same assumption for public-key encryption and private-key
      decryption. */
  ghost predicate PublicToPrivate<E>(rsa: Rsa<E>, privateKey: PrivateKey, publicKey: PublicKey) {
    InvertsBlocks(Init(rsa, EncryptMode, Public(publicKey)), Init(rsa, DecryptMode, Private(privateKey)),
                  MAX_ENCRYPT_BLOCK, MAX_DECRYPT_BLOCK)
  }

  /** A matching 1024-bit key pair meets the assumption in both directions. */
  ghost predicate MatchingKeyPair<E>(rsa: Rsa<E>, privateKey: PrivateKey, publicKey: PublicKey) {
    PrivateToPublic(rsa, privateKey, publicKey) && PublicToPrivate(rsa, privateKey, publicKey)
  }

  /** Private-key encryption followed by public-key decryption returns the
      original bytes, for payloads of every length. */
  lemma PrivateEncryptPublicDecrypt<E>(rsa: Rsa<E>, privateKey: PrivateKey, publicKey: PublicKey, p: seq<byte>)
    requires PrivateToPublic(rsa, privateKey, publicKey)
    ensures Encrypted(rsa, Private(privateKey), p).Success?
    ensures Decrypted(rsa, Public(publicKey), Encrypted(rsa, Private(privateKey), p).value) == Success(p)
  {
    ChunkedRoundTrip(Init(rsa, EncryptMode, Private(privateKey)), Init(rsa, DecryptMode, Public(publicKey)),
                     MAX_ENCRYPT_BLOCK, MAX_DECRYPT_BLOCK, p);
  }

  /** Public-key encryption followed by private-key decryption returns the
      original bytes, for payloads of every length. */
  lemma PublicEncryptPrivateDecrypt<E>(rsa: Rsa<E>, privateKey: PrivateKey, publicKey: PublicKey, p: seq<byte>)
    requires PublicToPrivate(rsa, privateKey, publicKey)
    ensures Encrypted(rsa, Public(publicKey), p).Success?
    ensures Decrypted(rsa, Private(privateKey), Encrypted(rsa, Public(publicKey), p).value) == Success(p)
  {
    ChunkedRoundTrip(Init(rsa, EncryptMode, Public(publicKey)), Init(rsa, DecryptMode, Private(privateKey)),
                     MAX_ENCRYPT_BLOCK, MAX_DECRYPT_BLOCK, p);
  }

  /** Under the key-pair assumption the ciphertext is 128 bytes per 117-byte
      plaintext chunk, so it is always a whole number of decrypt blocks. */
  lemma CiphertextIsWholeBlocks<E>(rsa: Rsa<E>, privateKey: PrivateKey, publicKey: PublicKey, key: Key, p: seq<byte>)
    requires MatchingKeyPair(rsa, privateKey, publicKey)
    requires key == Private(privateKey) || key == Public(publicKey)
    ensures Encrypted(rsa, key, p).Success?
    ensures |Encrypted(rsa, key, p).value| == ((|p| + 116) / 117) * 128
  {
    ChunkCount(p, MAX_ENCRYPT_BLOCK);
    EncryptedLength(Init(rsa, EncryptMode, key), MAX_ENCRYPT_BLOCK, MAX_DECRYPT_BLOCK, p);
  }

  /** The longest payload whose ciphertext fits in a Java byte array:
      16777215 chunks of 117 bytes, since 16777216 blocks of 128 bytes are
      2^31 bytes. */
  const MAX_ENCRYPTABLE: nat := 16777215 * MAX_ENCRYPT_BLOCK

  /** `doFinal` collects the ciphertext in a `ByteArrayOutputStream`, whose
      buffer is a Java array and so holds at most `Integer.MAX_VALUE` bytes.
      The ciphertext fits exactly when the payload is at most
      `MAX_ENCRYPTABLE` bytes; past that Java fails where the model
      succeeds. */
  lemma CiphertextFitsJavaArray<E>(rsa: Rsa<E>, privateKey: PrivateKey, publicKey: PublicKey, key: Key, p: seq<byte>)
    requires MatchingKeyPair(rsa, privateKey, publicKey)
    requires key == Private(privateKey) || key == Public(publicKey)
    ensures Encrypted(rsa, key, p).Success?
    ensures |Encrypted(rsa, key, p).value| <= JavaInt.INT_MAX <==> |p| <= MAX_ENCRYPTABLE
  {
    CiphertextIsWholeBlocks(rsa, privateKey, publicKey, key, p);
    var m := (|p| + 116) / 117;
    assert |p| <= MAX_ENCRYPTABLE <==> m <= 16777215;
    assert m * 128 <= JavaInt.INT_MAX <==> m <= 16777215;
  }
}
