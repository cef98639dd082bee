# common-util: RSA block chunking and HTTP client helpers, in Dafny

This project models the logic of two small Java utility packages.

- `com.springboot.signature.JdkRsaUtil`: RSA encryption and decryption of
  payloads of any length. The package cuts a payload into chunks that one
  RSA operation can take, runs the cipher on each chunk, and concatenates
  the results. Plaintext chunks are 117 bytes and ciphertext chunks are
  128 bytes, which fits a 1024-bit key under RSAES-PKCS1-v1_5 (section
  7.2.1 of RFC 8017).
- `com.springboot.httpclient`: the helpers around Apache HttpClient.
  - the retry rule (`HttpClientRetryHandler.retryRequest`);
  - the query string appended to URLs (`HttpClientUtil.getQuery`);
  - the request each entry point hands to `execute`;
  - the header array (`HttpClientConfigHandler.createHeaders`);
  - the timeout configuration (`createConfig`).

Modules:

| file | module | models |
|---|---|---|
| `wrappers.dfy` | `Wrappers` | `Option` (Java `null`) and `Result` (return or throw) |
| `java_int.dfy` | `JavaInt` | 32-bit `int` arithmetic with wrap-around |
| `chunking.dfy` | `Chunking` | `JdkRsaUtil.doFinal`, its reference definition and its lemmas |
| `rsa_util.dfy` | `RsaUtil` | the four byte-level encrypt/decrypt methods, block constants, key-pair round trips |
| `retry_handler.dfy` | `RetryHandler` | `HttpClientRetryHandler` constructors and `retryRequest` |
| `client_config.dfy` | `ClientConfig` | `createHeaders`, `createConfig` overloads |
| `http_client_util.dfy` | `HttpClientUtil` | `getQuery`, `get`/`postForm`/`post` request formation, fixed form headers |

The single-block RSA operation (`Cipher.doFinal` on an initialised cipher)
is a function-typed parameter. A `Failure` result stands for the exception
it throws. Round trips are proved under a stated assumption about that
operation. The assumption is `InvertsBlocks`: encrypting 1 to 117 bytes
yields exactly 128 bytes, and decrypting them gives the original bytes
back. Keys are opaque values. A Java map is an `Option` of its entry
sequence in iteration order, with `None` standing for `null`.

`JdkRsaUtil` has no sign or verify method, only the `SIGNATURE_ALGORITHM`
constant. The byte-level methods take a `PrivateKey` or a `PublicKey`
parameter, so a key's role is fixed by its Java type.

`new HttpGet(uri)` and `new HttpPost(uri)` parse their argument with
`java.net.URI.create`, which throws on a malformed URI. That parser is a
parameter too (`UriParser`), and the request builders return a `Result`
whose `Failure` is that exception. `RejectsExcluded` states the one fact
about the parser the model relies on: it rejects every string holding a
control character, DEL, a space, `"`, `<`, `>`, `{`, `}`, `|`, `\`, `^` or
the backquote. That is the excluded list of section 2.4.3 of RFC 2396
without `#`, `%`, `[` and `]`, which `URI.create` accepts as the fragment
mark, the escape mark and the IPv6 host brackets.

## Model

| member | source | states |
|---|---|---|
| Chunking.DoFinal | src/main/java/com/springboot/signature/JdkRsaUtil.java:179-199 | The loop with `offSet = i * block` returns exactly the reference result. The chunks it hands to the cipher are the reference chunks, in order. On success it makes one call per chunk and the output is the concatenation of the call outputs in call order. On failure it stops at the first failing call and returns that error with no partial output. Empty input: no call and empty output. |
| Chunking.ChunkAt | src/main/java/com/springboot/signature/JdkRsaUtil.java:186-194 | Chunk k exists exactly when `k * block` is less than the input length. It is the bytes from `k * block` up to `min(k * block + block, n)`. |
| Chunking.ChunksPartition | src/main/java/com/springboot/signature/JdkRsaUtil.java:186-194 | The chunks, concatenated in order, equal the input, so no byte is skipped or repeated. |
| Chunking.ChunkSizes | src/main/java/com/springboot/signature/JdkRsaUtil.java:187-191 | Every chunk holds between 1 and `block` bytes. Every chunk except the last holds exactly `block` bytes. |
| Chunking.ChunkCount | src/main/java/com/springboot/signature/JdkRsaUtil.java:186-194 | The number of calls is ceil(n / block): the last chunk starts inside the input and `count * block >= n`. |
| Chunking.CipherAllOutcome | src/main/java/com/springboot/signature/JdkRsaUtil.java:186-196 | All or nothing: the operation succeeds exactly when every block call succeeds. A failure carries the error of the first failing chunk; every earlier chunk succeeded. |
| Chunking.EncryptedLength | src/main/java/com/springboot/signature/JdkRsaUtil.java:186-196 | When the single-block encryption turns every chunk of 1 to `plainBlock` bytes into exactly `cipherBlock` bytes (`EmitsBlocks`, the encryption half of `InvertsBlocks`), the chunked encryption succeeds and its output is `cipherBlock` bytes per plaintext chunk. |
| Chunking.ChunkedRoundTrip | src/main/java/com/springboot/signature/JdkRsaUtil.java:179-199 | Under the single-block assumption, decrypt-chunking the output of encrypt-chunking returns the original bytes, for every length. |
| Chunking.JavaGuardAgrees | src/main/java/com/springboot/signature/JdkRsaUtil.java:186-194 | The 32-bit guard `inputLen - i * block > 0` agrees with the mathematical guard at every offset the loop reaches, even when `i * block` overflows. So the loop exits after the last chunk. |
| RsaUtil.EncryptByPrivateKey | src/main/java/com/springboot/signature/JdkRsaUtil.java:123-127 | Encrypts with the private key in encrypt mode. Chunks hold at most 117 bytes, and on success they are exactly the 117-byte chunking of the content. |
| RsaUtil.DecryptByPublicKey | src/main/java/com/springboot/signature/JdkRsaUtil.java:137-141 | Decrypts with the public key. Chunks hold at most 128 bytes, and on success they are exactly the 128-byte chunking. |
| RsaUtil.EncryptByPublicKey | src/main/java/com/springboot/signature/JdkRsaUtil.java:151-155 | Encrypts with the public key in encrypt mode, in chunks of at most 117 bytes. |
| RsaUtil.DecryptByPrivateKey | src/main/java/com/springboot/signature/JdkRsaUtil.java:165-169 | Decrypts with the private key, in chunks of at most 128 bytes. |
| RsaUtil.Run | src/main/java/com/springboot/signature/JdkRsaUtil.java:124-126 | Initialising the cipher with a mode and a key and then chunking at `block` gives the chunked result of that cipher. Every call gets 1 to `block` bytes. |
| RsaUtil.AllChunksWithin | src/main/java/com/springboot/signature/JdkRsaUtil.java:187-191 | Every chunk of any content holds between 1 and `block` bytes. |
| RsaUtil.PrivateEncryptPublicDecrypt | src/main/java/com/springboot/signature/JdkRsaUtil.java:123-141 | When single-block private-key encryption is undone by public-key decryption (`PrivateToPublic`, one half of a matching key pair), `decryptByPublicKey(encryptByPrivateKey(p))` returns `p` for every payload. |
| RsaUtil.PublicEncryptPrivateDecrypt | src/main/java/com/springboot/signature/JdkRsaUtil.java:151-169 | When single-block public-key encryption is undone by private-key decryption (`PublicToPrivate`, the other half), `decryptByPrivateKey(encryptByPublicKey(p))` returns `p` for every payload. |
| RsaUtil.CiphertextFitsJavaArray | src/main/java/com/springboot/signature/JdkRsaUtil.java:181-198 | The ciphertext, collected in a `ByteArrayOutputStream`, fits in a Java array (at most 2^31 - 1 bytes) exactly when the payload is at most 16777215 * 117 bytes. |
| RsaUtil.CiphertextIsWholeBlocks | src/main/java/com/springboot/signature/JdkRsaUtil.java:26-31 | With 117-byte plaintext chunks and 128-byte cipher blocks, the ciphertext is `ceil(n / 117) * 128` bytes. That is a whole number of decrypt chunks. |
| RetryHandler.NewHandler | src/main/java/com/springboot/httpclient/HttpClientRetryHandler.java:28-32 | The no-argument constructor sets the limit to 3. |
| RetryHandler.NewHandlerWithMax | src/main/java/com/springboot/httpclient/HttpClientRetryHandler.java:34-36 | As written, the one-argument constructor ignores its argument. The limit stays 3 and the handler equals the no-argument one. |
| RetryHandler.NewHandlerWithMaxIntended | src/main/java/com/springboot/httpclient/HttpClientRetryHandler.java:34-36 | The constructor as intended: the limit is the argument. |
| RetryHandler.ConstructorIgnoresArgument | src/main/java/com/springboot/httpclient/HttpClientRetryHandler.java:28-36 | Asking for 5 gives 3 as written and 5 as intended. Any two arguments give the same handler. |
| RetryHandler.RetryRequest | src/main/java/com/springboot/httpclient/HttpClientRetryHandler.java:39-76 | A retry is only ever granted below the limit. |
| RetryHandler.RetryRule | src/main/java/com/springboot/httpclient/HttpClientRetryHandler.java:39-76 | A retry happens exactly when the count is below the limit and one of two things holds. Either the exception is a `NoHttpResponseException`, or it is of no never-retried class and the request encloses no entity. |
| RetryHandler.GiveUpAtLimit | src/main/java/com/springboot/httpclient/HttpClientRetryHandler.java:41-43 | At or past the limit there is no retry, whatever the exception or the request. |
| RetryHandler.CountIrrelevantBelowLimit | src/main/java/com/springboot/httpclient/HttpClientRetryHandler.java:41-75 | Below the limit the decision does not depend on the count. |
| RetryHandler.FirstMatchDecides | src/main/java/com/springboot/httpclient/HttpClientRetryHandler.java:45-75 | `NoHttpResponseException` wins over every later test. Any never-retried class then gives false whatever the request. Otherwise the result is "not entity-enclosing". |
| RetryHandler.DefaultLimit | src/main/java/com/springboot/httpclient/HttpClientRetryHandler.java:28-47 | With the default handler, a dropped connection is retried exactly while the count is below 3. |
| RetryHandler.SubclassTestsRedundant | src/main/java/com/springboot/httpclient/HttpClientRetryHandler.java:49-67 | Given the Java class hierarchy, the `SSLHandshakeException` and `ConnectTimeoutException` tests never change the outcome. |
| ClientConfig.WriteAllAt | src/main/java/com/springboot/httpclient/HttpClientConfigHandler.java:122-125 | The loop with a fixed index leaves the last entry in that slot. Every other slot is unchanged. |
| ClientConfig.CreateHeaders | src/main/java/com/springboot/httpclient/HttpClientConfigHandler.java:117-127 | A null or empty map gives `null`. Otherwise the array is as long as the map, slot 0 holds the last entry iterated, and slots 1 to n-1 stay `null`. |
| ClientConfig.CreateHeadersIntended | src/main/java/com/springboot/httpclient/HttpClientConfigHandler.java:117-127 | With the index advanced after each entry, slot j holds entry j. |
| ClientConfig.HeadersCorrectIffAtMostOne | src/main/java/com/springboot/httpclient/HttpClientConfigHandler.java:121-125 | The as-written array equals the intended one exactly when the map is null, empty or has one entry. |
| ClientConfig.TwoHeadersLoseTheFirst | src/main/java/com/springboot/httpclient/HttpClientConfigHandler.java:122-125 | The entries `A: 1, B: 2` become `[B: 2, null]`, where `[A: 1, B: 2]` was intended. |
| ClientConfig.ToMillis | src/main/java/com/springboot/httpclient/HttpClientConfigHandler.java:104-106 | Seconds times 1000 in 32-bit arithmetic: exact when the product fits, congruent modulo 2^32 otherwise. |
| ClientConfig.CreateConfig | src/main/java/com/springboot/httpclient/HttpClientConfigHandler.java:102-109 | Each of the three timeouts is its own argument converted to milliseconds. |
| ClientConfig.CreateConfigUniform | src/main/java/com/springboot/httpclient/HttpClientConfigHandler.java:90-92 | `createConfig(t)` is `createConfig(t, t, t)`, so all three timeouts are equal. |
| ClientConfig.CreateConfigDefault | src/main/java/com/springboot/httpclient/HttpClientConfigHandler.java:80-82 | The default configuration has all three timeouts at 3000 ms. |
| ClientConfig.TimeoutConversion | src/main/java/com/springboot/httpclient/HttpClientConfigHandler.java:104-106 | For -2147483 to 2147483 seconds the milliseconds are exact. 2147484 seconds wraps to -2147483296 ms. |
| ClientConfig.CreateConfigChecked | src/main/java/com/springboot/httpclient/HttpClientConfigHandler.java:102-109 | The conversion as intended: exact milliseconds, or no configuration when a product does not fit in an `int`. |
| ClientConfig.CheckedAgreesInRange | src/main/java/com/springboot/httpclient/HttpClientConfigHandler.java:102-109 | Where the checked conversion succeeds, it agrees with `createConfig`. |
| HttpClientUtil.GetQuery | src/main/java/com/springboot/httpclient/HttpClientUtil.java:155-170 | The `isFirst` loop produces the reference query. That is `""` for a null or empty map, else `?` followed by the `key=value` pairs joined by `&`, in iteration order. |
| HttpClientUtil.QueryShape | src/main/java/com/springboot/httpclient/HttpClientUtil.java:157-167 | A non-empty query starts with `?` and the first key and value, verbatim. Each later entry follows as `&key=value`. |
| HttpClientUtil.QueryRoundTrip | src/main/java/com/springboot/httpclient/HttpClientUtil.java:155-170 | When keys contain no `&` or `=` and values no `&`, parsing the query gives back exactly the map's entries, in order and unescaped. |
| HttpClientUtil.UnescapedValuesCollide | src/main/java/com/springboot/httpclient/HttpClientUtil.java:161-164 | With no escaping, `a` mapped to `1&b=2` yields the same query as the two entries `a=1`, `b=2`. |
| HttpClientUtil.WithQuery | src/main/java/com/springboot/httpclient/HttpClientUtil.java:46 | The URI string is `url` immediately followed by the query: its first `|url|` characters are `url` and the rest is exactly the query. |
| HttpClientUtil.Get | src/main/java/com/springboot/httpclient/HttpClientUtil.java:45-47 | `get` throws exactly when the URI parser rejects `url` plus the query. Otherwise it hands `execute` a GET, which encloses no entity, to `url` followed by exactly the query, with no entity and the caller's headers. |
| HttpClientUtil.PostForm | src/main/java/com/springboot/httpclient/HttpClientUtil.java:84-87 | `postForm` throws exactly when the URI parser rejects `url` plus the query. Otherwise it hands `execute` an entity-enclosing POST to `url` followed by exactly the query, with no entity set and the caller's headers. |
| HttpClientUtil.Post | src/main/java/com/springboot/httpclient/HttpClientUtil.java:109-113 | `post` throws exactly when the URI parser rejects `url`. Otherwise it hands `execute` an entity-enclosing POST to `url` unchanged, carrying the body as a `UTF-8` string entity, with the caller's headers. |
| HttpClientUtil.RequestUris | src/main/java/com/springboot/httpclient/HttpClientUtil.java:45-113 | When keys contain no `&` or `=` and values no `&`, and `get` or `postForm` builds a request, the parameters can be read back from the tail of its URI that follows `url`. Without that condition they cannot (`UnescapedValuesCollide`). `postJson` is `post`. |
| HttpClientUtil.ExcludedParamThrows | src/main/java/com/springboot/httpclient/HttpClientUtil.java:45-87 | Since `getQuery` escapes nothing, a key or value holding an excluded character makes `get` and `postForm` throw at `new HttpGet`/`new HttpPost`, before `execute` and its `catch`. |
| HttpClientUtil.SpaceInValueThrows | src/main/java/com/springboot/httpclient/HttpClientUtil.java:45-47 | `get("http://h/", {q: "a b"})` throws. |
| HttpClientUtil.GetWithoutHeadersDelegates | src/main/java/com/springboot/httpclient/HttpClientUtil.java:36-38 | `get(url, params)` is `get(url, null, params)`. |
| HttpClientUtil.FormPostHeaders | src/main/java/com/springboot/httpclient/HttpClientUtil.java:57-74 | Each form post sends a header map with one entry: `Content-Disposition` for form data, `Content-Type` for URL-encoded. The header array built from it holds exactly that header. |
| HttpClientUtil.RetriesByRequestKind | src/main/java/com/springboot/httpclient/HttpClientRetryHandler.java:69-75 | Below the limit, an `IOException` of no listed class is retried for a `get` but not for a `post` or form post, because `HttpPost` encloses an entity. |

## Left out

- Key parsing (PKCS#8 and X.509 SubjectPublicKeyInfo through `KeyFactory`) is library code. Keys are opaque values.
- The four `String` entry points of `JdkRsaUtil` are not modelled. They decode keys and data from Base64 and use the platform's default charset, which are an internal library and platform-dependent behaviour.
- The RSA single-block operation (PKCS#1 v1.5 padding, section 7.2 of RFC 8017) is a foreign call. It is a function parameter, and round trips assume `InvertsBlocks` about it.
- RsaUtil.EncryptByPrivateKey: `Cipher.getInstance` and `cipher.init` failures are not modelled. A bad key shows up only as a failing block call, so for empty content the model returns empty output where Java would throw at `init`.
- RsaUtil.DecryptByPublicKey: `init` failures are not modelled, as for `RsaUtil.EncryptByPrivateKey`; empty content gives empty output where Java would throw at `init`.
- RsaUtil.EncryptByPublicKey: `init` failures are not modelled, as for `RsaUtil.EncryptByPrivateKey`; empty content gives empty output where Java would throw at `init`.
- RsaUtil.DecryptByPrivateKey: `init` failures are not modelled, as for `RsaUtil.EncryptByPrivateKey`; empty content gives empty output where Java would throw at `init`.
- Chunking.DoFinal: the content length and offsets are unbounded integers. The overflow of `i * block` near 2^31 is shown harmless separately in `JavaGuardAgrees`. The cap on the output buffer is the next line.
- Chunking.EncryptedLength: promises `Success` for every length, but Java collects the output in a `ByteArrayOutputStream`, whose array holds at most 2^31 - 1 bytes. Encrypting more than 16777215 * 117 = 1962934155 bytes fails in Java with an error where the model succeeds. `RsaUtil.CiphertextFitsJavaArray` states this bound.
- Chunking.ChunkedRoundTrip: promises `Success` for every length, past the output-array cap stated for `Chunking.EncryptedLength`.
- RsaUtil.CiphertextIsWholeBlocks: promises `Success` for every length, past the output-array cap stated for `Chunking.EncryptedLength`.
- RsaUtil.PrivateEncryptPublicDecrypt: promises the round trip for every length, past the output-array cap stated for `Chunking.EncryptedLength`.
- RsaUtil.PublicEncryptPrivateDecrypt: promises the round trip for every length, past the output-array cap stated for `Chunking.EncryptedLength`.
- RsaUtil.EncryptByPublicKey: the single-block operation is a deterministic function. In Java, encrypting with a public key pads each block with fresh random bytes (PKCS#1 v1.5 block type 2, section 7.2.1 of RFC 8017), so two equal chunks give different ciphertext blocks, while in the model they give equal ones. Round trips are unaffected, since decryption removes the padding. Private-key encryption (block type 1) is deterministic.
- `main` (key generation) and its commented-out usage are not modelled.
- Signing and verification are not modelled, because the code has no such method.
- `execute` is HTTP I/O and is not modelled. The model stops at the request and headers it would receive.
- `createManager` (SSL context and connection pool sizes) and `createClient` (with its `synchronized`) are library configuration and are not modelled.
- `HttpClientContext.adapt` is not modelled: the request is reduced to whether it encloses an entity.
- HashMap iteration order is an input: maps are their entry sequences in iteration order.
- HttpClientUtil.GetQuery: parameter keys and values are appended with `String.valueOf` semantics. The model takes the strings as given, so a `null` key or value (printed as `null`) is not modelled separately.
- ClientConfig.CreateHeaders: map keys are strings, never `null`. A `HashMap` may hold one `null` key, and `new BasicHeader(null, value)` then throws `IllegalArgumentException` at line 124. That exception is caught by `execute`, which returns `null`; the model does not represent it.
- HttpClientUtil.RequestUris: reads the parameters back from the URI string. How `URI.create` splits that string is not modelled: a `#` in a key or value starts the fragment, so the rest of the query is not sent as query.
- HttpClientUtil.Get: the URI parser is a parameter, and only its rejection of excluded characters is stated. Other rejections, such as a `%` not followed by two hex digits, are left to the parameter.
- Strings are Dafny strings, sequences of Unicode scalar values, while a Java `String` is UTF-16. Unpaired surrogates cannot be represented, and the lengths in `HttpClientUtil.WithQuery` and `HttpClientUtil.Get` count code points, not `String.length()` units. Nothing in the modelled code depends on either.
- `String.format("%s%s", url, …)` with a `null` url would print `null`, and `new StringEntity(null, …)` would throw. Urls and bodies are strings here.

## Findings

| source | as written | input that shows it | evidently intended | confidence | as-written member | corrected member |
|---|---|---|---|---|---|---|
| src/main/java/com/springboot/httpclient/HttpClientConfigHandler.java:122-125 | `i` is never incremented, so every header is written to slot 0 | a map with entries `A: 1, B: 2` gives `[B: 2, null]` | `headers[i++]`: one header per entry | high, not executed | ClientConfig.CreateHeaders (shown by ClientConfig.TwoHeadersLoseTheFirst) | ClientConfig.CreateHeadersIntended (ClientConfig.HeadersCorrectIffAtMostOne) |
| src/main/java/com/springboot/httpclient/HttpClientRetryHandler.java:34-36 | `this.maxConunt = maxConunt` assigns the field to itself | `new HttpClientRetryHandler(5)` has limit 3 | `this.maxConunt = maxCount` | high, not executed | RetryHandler.NewHandlerWithMax (shown by RetryHandler.ConstructorIgnoresArgument) | RetryHandler.NewHandlerWithMaxIntended |
| src/main/java/com/springboot/httpclient/HttpClientConfigHandler.java:104-106 | `timeOut * 1000` wraps in `int` arithmetic | `createConfig(2147484)` gives -2147483296 ms | the timeout in milliseconds, or a refusal when it does not fit | medium, not executed | ClientConfig.CreateConfig (shown by ClientConfig.TimeoutConversion) | ClientConfig.CreateConfigChecked (ClientConfig.CheckedAgreesInRange) |
