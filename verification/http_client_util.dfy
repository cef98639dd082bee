/** `HttpClientUtil`: the query string appended to a URL, and the request
    each entry point hands to `execute`. Sending the request is not part of
    this model; a request is the value `execute` would receive. */
module HttpClientUtil {
  import opened Wrappers
  import opened ClientConfig
  import RetryHandler
  import opened JavaInt

  /** `Constants.CHAR_SET_UTF_8`. */
  const CHAR_SET_UTF_8: string := "UTF-8"

  /** One `key=value` pair of the query, written verbatim. */
  function PairText(entry: (string, string)): string {
    entry.0 + "=" + entry.1
  }

  function PairTexts(entries: seq<(string, string)>): (texts: seq<string>)
    ensures |texts| == |entries|
    ensures forall i | 0 <= i < |entries| :: texts[i] == PairText(entries[i])
  {
    seq(|entries|, i requires 0 <= i < |entries| => PairText(entries[i]))
  }

  /** `parts` with `sep` between consecutive elements. */
  function Join(sep: string, parts: seq<string>): string {
    if |parts| == 0 then ""
    else if |parts| == 1 then parts[0]
    else parts[0] + sep + Join(sep, parts[1..])
  }

  /** Reference definition of the query string: empty for a null or empty
      map, otherwise `?` followed by the `key=value` pairs joined by `&`. */
  function Query(params: StringMap): string {
    if IsNullOrEmpty(params) then "" else "?" + Join("&", PairTexts(params.value))
  }

  lemma {:induction false} JoinSnoc(sep: string, parts: seq<string>, last: string)
    requires |parts| > 0
    ensures Join(sep, parts + [last]) == Join(sep, parts) + sep + last
    decreases |parts|
  {
    if |parts| == 1 {
      assert (parts + [last])[1..] == [last];
    } else {
      assert (parts + [last])[1..] == parts[1..] + [last];
      JoinSnoc(sep, parts[1..], last);
    }
  }

  /** `getQuery(params)`: the `isFirst` loop over the map's entries. */
  method GetQuery(params: StringMap) returns (q: string)
    ensures q == Query(params)
    ensures !IsNullOrEmpty(params) ==> q[0] == '?'
  {
    if params.Some? && |params.value| > 0 {
      var entries := params.value;
      var isFirst := true;
      var buffer := "";
      var k := 0;
      while k < |entries|
        invariant 0 <= k <= |entries|
        invariant isFirst <==> k == 0
        invariant k == 0 ==> buffer == ""
        invariant k > 0 ==> buffer == "?" + Join("&", PairTexts(entries[..k]))
      {
        var (key, value) := entries[k];
        if isFirst {
          buffer := buffer + ("?" + key + "=" + value);
          isFirst := false;
          assert PairTexts(entries[..1]) == [PairText(entries[0])];
        } else {
          assert PairTexts(entries[..k + 1]) == PairTexts(entries[..k]) + [PairText(entries[k])];
          JoinSnoc("&", PairTexts(entries[..k]), PairText(entries[k]));
          buffer := buffer + ("&" + key + "=" + value);
        }
        k := k + 1;
      }
      assert entries[..k] == entries;
      return buffer;
    }
    return "";
  }

  /** A non-empty query opens with `?` and the first entry, verbatim; each
      later entry follows as `&key=value`. */
  lemma QueryShape(entries: seq<(string, string)>)
    requires |entries| > 0
    ensures Query(Some(entries)) == "?" + entries[0].0 + "=" + entries[0].1
                                    + (if |entries| == 1 then "" else "&" + Query(Some(entries[1..]))[1..])
  {
    assert PairTexts(entries[1..]) == PairTexts(entries)[1..];
  }

  // Parsing a query back, the inverse used to state that nothing is lost.

  /** `s` cut at every `sep`. */
  function Split(s: string, sep: char): (parts: seq<string>)
    ensures |parts| >= 1
    decreases |s|
  {
    if |s| == 0 then [""]
    else
      var rest := Split(s[1..], sep);
      if s[0] == sep then [""] + rest else [[s[0]] + rest[0]] + rest[1..]
  }

  /** `s` cut at its first `sep`, if it has one. */
  function SplitAtFirst(s: string, sep: char): Option<(string, string)>
    decreases |s|
  {
    if |s| == 0 then None
    else if s[0] == sep then Some(("", s[1..]))
    else match SplitAtFirst(s[1..], sep)
      case None => None
      case Some(kv) => Some(([s[0]] + kv.0, kv.1))
  }

  function ParsePairs(parts: seq<string>): Option<seq<(string, string)>>
    decreases |parts|
  {
    if |parts| == 0 then Some([])
    else match (SplitAtFirst(parts[0], '='), ParsePairs(parts[1..]))
      case (Some(kv), Some(rest)) => Some([kv] + rest)
      case _ => None
  }

  /** The entries a query string denotes: `""` is no entries. */
  function ParseQuery(q: string): Option<seq<(string, string)>> {
    if |q| == 0 then Some([])
    else if q[0] != '?' then None
    else ParsePairs(Split(q[1..], '&'))
  }

  lemma {:induction false} SplitWithoutSep(p: string, sep: char)
    requires sep !in p
    ensures Split(p, sep) == [p]
    decreases |p|
  {
    if |p| > 0 {
      SplitWithoutSep(p[1..], sep);
      assert [p[0]] + p[1..] == p;
    }
  }

  lemma {:induction false} SplitAfterPart(p: string, sep: char, t: string)
    requires sep !in p
    ensures Split(p + [sep] + t, sep) == [p] + Split(t, sep)
    decreases |p|
  {
    if |p| == 0 {
      assert p + [sep] + t == [sep] + t;
      assert ([sep] + t)[1..] == t;
    } else {
      var s := p + [sep] + t;
      assert s[1..] == p[1..] + [sep] + t;
      SplitAfterPart(p[1..], sep, t);
      assert [p[0]] + p[1..] == p;
    }
  }

  lemma {:induction false} SplitJoin(parts: seq<string>, sep: char)
    requires |parts| >= 1
    requires forall i | 0 <= i < |parts| :: sep !in parts[i]
    ensures Split(Join([sep], parts), sep) == parts
    decreases |parts|
  {
    if |parts| == 1 {
      SplitWithoutSep(parts[0], sep);
    } else {
      SplitJoin(parts[1..], sep);
      SplitAfterPart(parts[0], sep, Join([sep], parts[1..]));
      assert [parts[0]] + parts[1..] == parts;
    }
  }

  lemma {:induction false} SplitAtFirstPair(key: string, value: string, sep: char)
    requires sep !in key
    ensures SplitAtFirst(key + [sep] + value, sep) == Some((key, value))
    decreases |key|
  {
    if |key| == 0 {
      assert key + [sep] + value == [sep] + value;
      assert ([sep] + value)[1..] == value;
    } else {
      assert (key + [sep] + value)[1..] == key[1..] + [sep] + value;
      SplitAtFirstPair(key[1..], value, sep);
      assert [key[0]] + key[1..] == key;
    }
  }

  /** Keys free of `&` and `=`, values free of `&`: what the query needs for
      its pairs to be told apart, since nothing is escaped. */
  predicate Unambiguous(entries: seq<(string, string)>) {
    forall i | 0 <= i < |entries| :: '&' !in entries[i].0 && '=' !in entries[i].0 && '&' !in entries[i].1
  }

  lemma {:induction false} ParsePairTexts(entries: seq<(string, string)>)
    requires Unambiguous(entries)
    ensures ParsePairs(PairTexts(entries)) == Some(entries)
    decreases |entries|
  {
    if |entries| > 0 {
      SplitAtFirstPair(entries[0].0, entries[0].1, '=');
      assert PairText(entries[0]) == entries[0].0 + ['='] + entries[0].1;
      assert PairTexts(entries)[1..] == PairTexts(entries[1..]);
      ParsePairTexts(entries[1..]);
      assert [entries[0]] + entries[1..] == entries;
    }
  }

  /** Round trip: for entries whose keys and values carry no separator, the
      query names exactly the map's entries, in iteration order and
      verbatim. */
  lemma QueryRoundTrip(params: StringMap)
    requires params.Some? ==> Unambiguous(params.value)
    ensures ParseQuery(Query(params)) == Some(if IsNullOrEmpty(params) then [] else params.value)
  {
    if !IsNullOrEmpty(params) {
      var texts := PairTexts(params.value);
      forall i | 0 <= i < |texts|
        ensures '&' !in texts[i]
      {
        assert texts[i] == params.value[i].0 + "=" + params.value[i].1;
      }
      SplitJoin(texts, '&');
      assert "&" == ['&'];
      ParsePairTexts(params.value);
    }
  }

  /** Without escaping the query is not injective: a value holding `&b=2`
      reads the same as a second entry. */
  lemma UnescapedValuesCollide()
    ensures Query(Some([("a", "1&b=2")])) == Query(Some([("a", "1"), ("b", "2")]))
  {
    var one := PairTexts([("a", "1&b=2")]);
    assert one[0] == "a" + "=" + "1&b=2" == "a=1&b=2";
    var two := PairTexts([("a", "1"), ("b", "2")]);
    assert two[0] == "a" + "=" + "1" == "a=1";
    assert two[1] == "b" + "=" + "2" == "b=2";
    assert Join("&", two) == "a=1" + "&" + Join("&", two[1..]);
    assert Join("&", two[1..]) == "b=2";
  }

  // The requests handed to `execute`.

  datatype HttpMethod = GET | POST

  /** `org.apache.http.entity.StringEntity`. */
  datatype Entity = StringEntity(content: string, charset: string)

  /** An `HttpGet` or `HttpPost` with its URI and, for `post`, its entity. */
  datatype Request = Request(verb: HttpMethod, uri: string, entity: Option<Entity>)

  /** The arguments of `execute(request, headers)`. */
  datatype Execution = Execution(request: Request, headers: StringMap)

  /** The `IllegalArgumentException` that `new HttpGet(uri)` and
      `new HttpPost(uri)` throw when `java.net.URI.create` rejects `uri`. It
      is thrown before `execute`'s `try`, so it reaches the caller. */
  datatype IllegalArgument = IllegalArgument(uri: string)

  /** Whether `java.net.URI.create` accepts a string. The URI grammar is
      library code, so the parser is a parameter of the model, as the RSA
      cipher is. */
  type UriParser = string -> bool

  /** Characters that `java.net.URI` accepts nowhere: the controls, DEL,
      space, `"`, `<`, `>`, `{`, `}`, `|`, `\`, `^` and the backquote. That is
      the excluded list of section 2.4.3 of RFC 2396 without `#`, `%`, `[`
      and `]`, which Java gives a meaning (fragment, escape, IPv6 host). */
  predicate Excluded(c: char) {
    c < ' ' || c == '\U{7f}' || c == ' ' || c == '"' || c == '<' || c == '>' ||
    c == '{' || c == '}' || c == '|' || c == '\\' || c == '^' || c == '`'
  }

  predicate HasExcluded(s: string) {
    exists i | 0 <= i < |s| :: Excluded(s[i])
  }

  /** What `URI.create` does at least: it rejects every string holding an
      excluded character. */
  ghost predicate RejectsExcluded(parse: UriParser) {
    forall s :: HasExcluded(s) ==> !parse(s)
  }

  /** `IsEntityEnclosing`: `HttpPost` implements `HttpEntityEnclosingRequest`
      whether or not an entity was set; `HttpGet` does not. */
  predicate IsEntityEnclosing(request: Request) {
    request.verb == POST
  }

  /** `String.format("%s%s", url, getQuery(params))`. */
  function WithQuery(url: string, params: StringMap): (uri: string)
    ensures |uri| == |url| + |Query(params)|
    ensures uri[..|url|] == url
    ensures uri[|url|..] == Query(params)
  {
    url + Query(params)
  }

  /** `new HttpGet(uri)` or `new HttpPost(uri)`, with an entity set after. */
  function NewRequest(parse: UriParser, verb: HttpMethod, uri: string, entity: Option<Entity>)
    : Result<Request, IllegalArgument>
  {
    if parse(uri) then Success(Request(verb, uri, entity)) else Failure(IllegalArgument(uri))
  }

  /** `get(url, headers, params)`: a GET to `url` followed by the query, with
      no entity and the caller's headers, or the exception of `new HttpGet`. */
  function Get(parse: UriParser, url: string, headers: StringMap, params: StringMap)
    : (r: Result<Execution, IllegalArgument>)
    ensures r.Success? <==> parse(url + Query(params))
    ensures r.Failure? ==> r.error == IllegalArgument(url + Query(params))
    ensures r.Success? ==> r.value.request.verb == GET && !IsEntityEnclosing(r.value.request)
    ensures r.Success? ==> |r.value.request.uri| == |url| + |Query(params)|
                           && r.value.request.uri[..|url|] == url
                           && r.value.request.uri[|url|..] == Query(params)
    ensures r.Success? ==> r.value.request.entity.None? && r.value.headers == headers
  {
    var request := NewRequest(parse, GET, WithQuery(url, params), None);
    if request.Failure? then Failure(request.error) else Success(Execution(request.value, headers))
  }

  /** `get(url, params)`. */
  function GetWithoutHeaders(parse: UriParser, url: string, params: StringMap)
    : Result<Execution, IllegalArgument>
  {
    Get(parse, url, None, params)
  }

  /** `postForm(url, headers, params)`: a POST whose parameters travel in the
      URL, with no entity set, or the exception of `new HttpPost`. */
  function PostForm(parse: UriParser, url: string, headers: StringMap, params: StringMap)
    : (r: Result<Execution, IllegalArgument>)
    ensures r.Success? <==> parse(url + Query(params))
    ensures r.Failure? ==> r.error == IllegalArgument(url + Query(params))
    ensures r.Success? ==> r.value.request.verb == POST && IsEntityEnclosing(r.value.request)
    ensures r.Success? ==> |r.value.request.uri| == |url| + |Query(params)|
                           && r.value.request.uri[..|url|] == url
                           && r.value.request.uri[|url|..] == Query(params)
    ensures r.Success? ==> r.value.request.entity.None? && r.value.headers == headers
  {
    var request := NewRequest(parse, POST, WithQuery(url, params), None);
    if request.Failure? then Failure(request.error) else Success(Execution(request.value, headers))
  }

  /** The header map `postFormData` builds. */
  const FORM_DATA_HEADERS: StringMap := Some([("Content-Disposition", "multipart/form-data;")])
  /** The header map `postFormUrlencoded` builds. */
  const URLENCODED_HEADERS: StringMap := Some([("Content-Type", "application/x-www-form-urlencoded;")])

  /** `postFormData(url, params)`. */
  function PostFormData(parse: UriParser, url: string, params: StringMap): Result<Execution, IllegalArgument> {
    PostForm(parse, url, FORM_DATA_HEADERS, params)
  }

  /** `postFormUrlencoded(url, params)`. */
  function PostFormUrlencoded(parse: UriParser, url: string, params: StringMap): Result<Execution, IllegalArgument> {
    PostForm(parse, url, URLENCODED_HEADERS, params)
  }

  /** `post(url, headers, params)`: a POST to `url` unchanged, carrying the
      body as a UTF-8 string entity, or the exception of `new HttpPost`. */
  function Post(parse: UriParser, url: string, headers: StringMap, params: string)
    : (r: Result<Execution, IllegalArgument>)
    ensures r.Success? <==> parse(url)
    ensures r.Failure? ==> r.error == IllegalArgument(url)
    ensures r.Success? ==> r.value.request.verb == POST && IsEntityEnclosing(r.value.request)
    ensures r.Success? ==> r.value.request.uri == url
    ensures r.Success? ==> r.value.request.entity == Some(StringEntity(params, "UTF-8"))
                           && r.value.headers == headers
  {
    var request := NewRequest(parse, POST, url, Some(StringEntity(params, CHAR_SET_UTF_8)));
    if request.Failure? then Failure(request.error) else Success(Execution(request.value, headers))
  }

  /** `postJson(url, headers, params)`, with `params.toString()` given. */
  function PostJson(parse: UriParser, url: string, headers: StringMap, paramsText: string)
    : Result<Execution, IllegalArgument>
  {
    Post(parse, url, headers, paramsText)
  }

  /** When keys contain no `&` or `=` and values no `&`, and `get` or
      `postForm` builds a request, the parameters can be read back from the
      tail of its URI that follows `url`; `postJson` is `post`. Without that
      condition they cannot, as `UnescapedValuesCollide` shows. */
  lemma RequestUris(parse: UriParser, url: string, headers: StringMap, params: StringMap, body: string)
    requires params.Some? ==> Unambiguous(params.value)
    ensures ParseQuery(Query(params)) == Some(if IsNullOrEmpty(params) then [] else params.value)
    ensures Get(parse, url, headers, params).Success? ==>
              ParseQuery(Get(parse, url, headers, params).value.request.uri[|url|..])
              == ParseQuery(Query(params))
    ensures PostForm(parse, url, headers, params).Success? ==>
              ParseQuery(PostForm(parse, url, headers, params).value.request.uri[|url|..])
              == ParseQuery(Query(params))
    ensures PostJson(parse, url, headers, body) == Post(parse, url, headers, body)
  {
    QueryRoundTrip(params);
  }

  /** A parameter whose key or value holds an excluded character, such as a
      space, makes `get` and `postForm` throw instead of sending anything,
      because `getQuery` escapes nothing. */
  lemma ExcludedParamThrows(parse: UriParser, url: string, headers: StringMap, params: StringMap, k: nat)
    requires RejectsExcluded(parse)
    requires params.Some? && k < |params.value|
    requires HasExcluded(params.value[k].0) || HasExcluded(params.value[k].1)
    ensures Get(parse, url, headers, params).Failure?
    ensures PostForm(parse, url, headers, params).Failure?
  {
    var uri := url + Query(params);
    var texts := PairTexts(params.value);
    var pair := PairText(params.value[k]);
    assert HasExcluded(pair) by {
      var key := params.value[k].0;
      if HasExcluded(key) {
        var i :| 0 <= i < |key| && Excluded(key[i]);
        assert pair[i] == key[i];
      } else {
        var value := params.value[k].1;
        var i :| 0 <= i < |value| && Excluded(value[i]);
        assert pair[|key| + 1 + i] == value[i];
      }
    }
    var i :| 0 <= i < |pair| && Excluded(pair[i]);
    JoinAt("&", texts, k, i);
    assert uri[|url| + 1 + PartOffset("&", texts, k) + i] == pair[i];
  }

  /** Where part `k` starts inside `Join(sep, parts)`. */
  function PartOffset(sep: string, parts: seq<string>, k: nat): nat
    requires k < |parts|
  {
    if k == 0 then 0 else |parts[0]| + |sep| + PartOffset(sep, parts[1..], k - 1)
  }

  /** Every part appears, in full, at its offset inside the joined string. */
  lemma {:induction false} JoinAt(sep: string, parts: seq<string>, k: nat, i: nat)
    requires k < |parts| && i < |parts[k]|
    ensures PartOffset(sep, parts, k) + i < |Join(sep, parts)|
    ensures Join(sep, parts)[PartOffset(sep, parts, k) + i] == parts[k][i]
    decreases |parts|
  {
    if k > 0 {
      JoinAt(sep, parts[1..], k - 1, i);
      assert Join(sep, parts) == parts[0] + sep + Join(sep, parts[1..]);
    }
  }

  /** A space in a value: `get("http://h/", {q: "a b"})` throws. */
  lemma SpaceInValueThrows(parse: UriParser)
    requires RejectsExcluded(parse)
    ensures Get(parse, "http://h/", None, Some([("q", "a b")])).Failure?
  {
    assert Excluded("a b"[1]);
    ExcludedParamThrows(parse, "http://h/", None, Some([("q", "a b")]), 0);
  }

  /** `get(url, params)` is `get(url, null, params)`: no headers are sent. */
  lemma GetWithoutHeadersDelegates(parse: UriParser, url: string, params: StringMap)
    ensures GetWithoutHeaders(parse, url, params) == Get(parse, url, None, params)
    ensures GetWithoutHeaders(parse, url, params).Success? ==>
              GetWithoutHeaders(parse, url, params).value.headers.None?
  {
  }

  /** Each form post sends one fixed header, and the header array that
      `execute` builds from it holds exactly that header. */
  lemma FormPostHeaders(parse: UriParser, url: string, params: StringMap)
    ensures PostFormData(parse, url, params).Success? ==>
              PostFormData(parse, url, params).value.headers == Some([("Content-Disposition", "multipart/form-data;")])
    ensures PostFormUrlencoded(parse, url, params).Success? ==>
              PostFormUrlencoded(parse, url, params).value.headers
              == Some([("Content-Type", "application/x-www-form-urlencoded;")])
    ensures CreateHeaders(FORM_DATA_HEADERS) == Some([Some(BasicHeader("Content-Disposition", "multipart/form-data;"))])
    ensures CreateHeaders(URLENCODED_HEADERS)
            == Some([Some(BasicHeader("Content-Type", "application/x-www-form-urlencoded;"))])
  {
    var data := CreateHeaders(FORM_DATA_HEADERS).value;
    assert |data| == 1;
    assert data == [Some(BasicHeader("Content-Disposition", "multipart/form-data;"))];
    var encoded := CreateHeaders(URLENCODED_HEADERS).value;
    assert |encoded| == 1;
    assert encoded == [Some(BasicHeader("Content-Type", "application/x-www-form-urlencoded;"))];
  }

  /** What the retry rule makes of the requests built here: an `IOException`
      of no listed class is retried below the limit for a `get` but never
      for a `post` or form post, since `HttpPost` encloses an entity. */
  lemma RetriesByRequestKind(parse: UriParser, url: string, headers: StringMap, params: StringMap,
                             body: string, count: int32)
    requires count < RetryHandler.NewHandler().maxCount
    ensures var r := Get(parse, url, headers, params);
            r.Success? ==> RetryHandler.RetryRequest(RetryHandler.NewHandler(), {}, count, IsEntityEnclosing(r.value.request))
    ensures var r := PostForm(parse, url, headers, params);
            r.Success? ==> !RetryHandler.RetryRequest(RetryHandler.NewHandler(), {}, count, IsEntityEnclosing(r.value.request))
    ensures var r := Post(parse, url, headers, body);
            r.Success? ==> !RetryHandler.RetryRequest(RetryHandler.NewHandler(), {}, count, IsEntityEnclosing(r.value.request))
  {
  }
}
