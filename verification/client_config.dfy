/** `HttpClientConfigHandler`: the request-header array built from a header
    map, and the request configuration built from timeouts in seconds. */
module ClientConfig {
  import opened Wrappers
  import opened JavaInt

  /** A Java `Map<String, String>`: `None` is `null`, otherwise its entries
      in the map's iteration order. */
  type StringMap = Option<seq<(string, string)>>

  /** `Constants.TIME_OUT`, in seconds. */
  const TIME_OUT: int32 := 3

  /** `org.apache.http.message.BasicHeader`. */
  datatype Header = BasicHeader(name: string, value: string)

  function ToHeader(entry: (string, string)): Header {
    BasicHeader(entry.0, entry.1)
  }

  /** True when `createHeaders` has nothing to build from. */
  predicate IsNullOrEmpty(params: StringMap) {
    params.None? || |params.value| == 0
  }

  /** The loop of `createHeaders` as written: every entry is stored in slot
      `i`, and `i` is never advanced. */
  function WriteAllAt(headers: seq<Option<Header>>, i: nat, entries: seq<(string, string)>): (r: seq<Option<Header>>)
    requires i < |headers|
    ensures |r| == |headers|
    ensures |entries| > 0 ==> r[i] == Some(ToHeader(entries[|entries| - 1]))
    ensures |entries| == 0 ==> r[i] == headers[i]
    ensures forall j | 0 <= j < |r| && j != i :: r[j] == headers[j]
    decreases |entries|
  {
    if |entries| == 0 then headers
    else WriteAllAt(headers[i := Some(ToHeader(entries[0]))], i, entries[1..])
  }

  /** `createHeaders(params)` as written: `null` for a null or empty map,
      otherwise an array as long as the map whose slot 0 holds the last
      entry iterated and whose other slots stay `null`. */
  function CreateHeaders(params: StringMap): (r: Option<seq<Option<Header>>>)
    ensures r.None? <==> IsNullOrEmpty(params)
    ensures r.Some? ==> |r.value| == |params.value|
    ensures r.Some? ==> r.value[0] == Some(ToHeader(params.value[|params.value| - 1]))
    ensures r.Some? ==> forall j | 1 <= j < |r.value| :: r.value[j].None?
  {
    if IsNullOrEmpty(params) then None
    else
      var headers: seq<Option<Header>> := seq(|params.value|, _ => None);
      var i := 0;
      Some(WriteAllAt(headers, i, params.value))
  }

  /** The loop with the index advanced after each entry (`headers[i++]`). */
  function WriteEachFrom(headers: seq<Option<Header>>, i: nat, entries: seq<(string, string)>): (r: seq<Option<Header>>)
    requires i + |entries| <= |headers|
    ensures |r| == |headers|
    ensures forall j | 0 <= j < |entries| :: r[i + j] == Some(ToHeader(entries[j]))
    ensures forall j | 0 <= j < |r| && !(i <= j < i + |entries|) :: r[j] == headers[j]
    decreases |entries|
  {
    if |entries| == 0 then headers
    else WriteEachFrom(headers[i := Some(ToHeader(entries[0]))], i + 1, entries[1..])
  }

  /** `createHeaders` as evidently intended: one header per map entry, in
      iteration order, with no slot left `null`. */
  function CreateHeadersIntended(params: StringMap): (r: Option<seq<Option<Header>>>)
    ensures r.None? <==> IsNullOrEmpty(params)
    ensures r.Some? ==> |r.value| == |params.value|
    ensures r.Some? ==> forall j | 0 <= j < |r.value| :: r.value[j] == Some(ToHeader(params.value[j]))
  {
    if IsNullOrEmpty(params) then None
    else
      var headers: seq<Option<Header>> := seq(|params.value|, _ => None);
      Some(WriteEachFrom(headers, 0, params.value))
  }

  /** The header array as written equals the intended one exactly when the
      map has at most one entry: from two entries on, every header but the
      last is lost and `null` slots remain. */
  lemma HeadersCorrectIffAtMostOne(params: StringMap)
    ensures CreateHeaders(params) == CreateHeadersIntended(params) <==> IsNullOrEmpty(params) || |params.value| <= 1
  {
    if !IsNullOrEmpty(params) {
      var written, intended := CreateHeaders(params).value, CreateHeadersIntended(params).value;
      if |params.value| == 1 {
        assert written == intended;
      } else {
        assert written[1] != intended[1];
      }
    }
  }

  /** Two headers in, one header and a `null` out. */
  lemma TwoHeadersLoseTheFirst()
    ensures CreateHeaders(Some([("A", "1"), ("B", "2")])) == Some([Some(BasicHeader("B", "2")), None])
    ensures CreateHeadersIntended(Some([("A", "1"), ("B", "2")]))
            == Some([Some(BasicHeader("A", "1")), Some(BasicHeader("B", "2"))])
  {
    var written := CreateHeaders(Some([("A", "1"), ("B", "2")])).value;
    assert written == [Some(BasicHeader("B", "2")), None];
    var intended := CreateHeadersIntended(Some([("A", "1"), ("B", "2")])).value;
    assert intended == [Some(BasicHeader("A", "1")), Some(BasicHeader("B", "2"))];
  }

  /** `org.apache.http.client.config.RequestConfig`'s three timeouts, in
      milliseconds. */
  datatype RequestConfig = RequestConfig(connectionRequestTimeout: int32, connectTimeout: int32, socketTimeout: int32)

  /** Seconds to milliseconds as Java computes `seconds * 1000` on `int`. */
  function ToMillis(seconds: int32): (ms: int32)
    ensures InRange(seconds * 1000) ==> ms == seconds * 1000
    ensures ((ms as int) - seconds * 1000) % TWO_32 == 0
  {
    Mul(seconds, 1000)
  }

  /** `createConfig(requestTimeOut, connectionTimeOut, socketTimeOut)`. */
  function CreateConfig(requestTimeOut: int32, connectionTimeOut: int32, socketTimeOut: int32): (c: RequestConfig)
    ensures c.connectionRequestTimeout == ToMillis(requestTimeOut)
    ensures c.connectTimeout == ToMillis(connectionTimeOut)
    ensures c.socketTimeout == ToMillis(socketTimeOut)
  {
    RequestConfig(ToMillis(requestTimeOut), ToMillis(connectionTimeOut), ToMillis(socketTimeOut))
  }

  /** `createConfig(timeOut)`: the same timeout for all three. */
  function CreateConfigUniform(timeOut: int32): (c: RequestConfig)
    ensures c == CreateConfig(timeOut, timeOut, timeOut)
    ensures c.connectionRequestTimeout == c.connectTimeout == c.socketTimeout
  {
    CreateConfig(timeOut, timeOut, timeOut)
  }

  /** `createConfig()`: the 3-second default. */
  function CreateConfigDefault(): (c: RequestConfig)
    ensures c == RequestConfig(3000, 3000, 3000)
  {
    CreateConfigUniform(TIME_OUT)
  }

  /** The largest timeout in seconds whose milliseconds fit in an `int`. */
  const MAX_SECONDS: int := 2147483

  /** Within `MAX_SECONDS` either way the conversion is exact; one second
      more and the product wraps to a negative number of milliseconds. */
  lemma TimeoutConversion(t: int32)
    ensures -MAX_SECONDS <= t <= MAX_SECONDS ==> CreateConfigUniform(t).connectTimeout == t * 1000
    ensures t == MAX_SECONDS + 1 ==> CreateConfigUniform(t).connectTimeout == -2147483296
  {
    if t == MAX_SECONDS + 1 {
      assert t * 1000 == 2147484000;
      assert Wrap(2147484000) == 2147484000 - TWO_32;
    }
  }

  /** `createConfig` as evidently intended: the millisecond value of each
      timeout, or `None` when one of them does not fit in an `int`. */
  function CreateConfigChecked(requestTimeOut: int32, connectionTimeOut: int32, socketTimeOut: int32): (r: Option<RequestConfig>)
    ensures r.Some? <==> InRange(requestTimeOut * 1000) && InRange(connectionTimeOut * 1000) && InRange(socketTimeOut * 1000)
    ensures r.Some? ==> (&& r.value.connectionRequestTimeout == requestTimeOut * 1000
                         && r.value.connectTimeout == connectionTimeOut * 1000
                         && r.value.socketTimeout == socketTimeOut * 1000)
  {
    if InRange(requestTimeOut * 1000) && InRange(connectionTimeOut * 1000) && InRange(socketTimeOut * 1000) then
      Some(RequestConfig(requestTimeOut * 1000, connectionTimeOut * 1000, socketTimeOut * 1000))
    else
      None
  }

  /** Where the checked conversion succeeds it agrees with `createConfig`. */
  lemma CheckedAgreesInRange(a: int32, b: int32, c: int32)
    requires CreateConfigChecked(a, b, c).Some?
    ensures CreateConfigChecked(a, b, c).value == CreateConfig(a, b, c)
  {
  }
}
