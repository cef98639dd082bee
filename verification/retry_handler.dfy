/** `HttpClientRetryHandler`: the rule the HTTP client consults after a
    failed attempt to decide whether to send the request again. */
module RetryHandler {
  import opened JavaInt

  /** The exception classes `retryRequest` tests with `instanceof`. */
  datatype ExceptionClass =
    | NoHttpResponse    // org.apache.http.NoHttpResponseException
    | SslHandshake      // javax.net.ssl.SSLHandshakeException
    | InterruptedIo     // java.io.InterruptedIOException
    | UnknownHost       // java.net.UnknownHostException
    | ConnectTimeout    // org.apache.http.conn.ConnectTimeoutException
    | Ssl               // javax.net.ssl.SSLException

  /** A thrown `IOException`, seen through the tests it passes: the set of the
      classes above that it is an instance of. The empty set is any other
      `IOException`. */
  type IoException = set<ExceptionClass>

  /** The classes whose instances are never retried. */
  const NeverRetried: set<ExceptionClass> := {SslHandshake, InterruptedIo, UnknownHost, ConnectTimeout, Ssl}

  /** The handler's one field, `maxConunt`. */
  datatype Handler = Handler(maxCount: int32)

  /** The field initialiser `maxConunt = 3`, which runs before either
      constructor body. */
  const DEFAULT_MAX_COUNT: int32 := 3

  /** `HttpClientRetryHandler()`. */
  function NewHandler(): (h: Handler)
    ensures h.maxCount == 3
  {
    var initial := Handler(DEFAULT_MAX_COUNT);
    initial.(maxCount := 3)
  }

  /** `HttpClientRetryHandler(int maxCount)` as written: the body assigns the
      field to itself, so the argument is never read and the limit stays at
      the initialiser's 3. */
  function NewHandlerWithMax(maxCount: int32): (h: Handler)
    ensures h.maxCount == 3
    ensures h == NewHandler()
  {
    var initial := Handler(DEFAULT_MAX_COUNT);
    initial.(maxCount := initial.maxCount)
  }

  /** The constructor as evidently intended: the limit is the argument. */
  function NewHandlerWithMaxIntended(maxCount: int32): (h: Handler)
    ensures h.maxCount == maxCount
  {
    var initial := Handler(DEFAULT_MAX_COUNT);
    initial.(maxCount := maxCount)
  }

  /** The as-written constructor drops its argument: asking for 5 retries
      still gives 3, where the intended constructor gives 5. */
  lemma ConstructorIgnoresArgument()
    ensures NewHandlerWithMax(5).maxCount == 3
    ensures NewHandlerWithMaxIntended(5).maxCount == 5
    ensures forall a: int32, b: int32 :: NewHandlerWithMax(a) == NewHandlerWithMax(b)
  {
  }

  /** `retryRequest(exception, count, context)`, with the context reduced to
      whether its request is an `HttpEntityEnclosingRequest`. The tests run
      in source order and the first that matches decides. */
  function RetryRequest(h: Handler, exception: IoException, count: int32, entityEnclosing: bool): (retry: bool)
    ensures retry ==> count < h.maxCount
  {
    if count >= h.maxCount then false
    else if NoHttpResponse in exception then true
    else if SslHandshake in exception then false
    else if InterruptedIo in exception then false
    else if UnknownHost in exception then false
    else if ConnectTimeout in exception then false
    else if Ssl in exception then false
    else if !entityEnclosing then true
    else false
  }

  /** The rule as one formula: retry exactly when below the limit and either
      the server dropped the connection, or the exception is of no
      never-retried class and the request carries no entity. */
  lemma RetryRule(h: Handler, exception: IoException, count: int32, entityEnclosing: bool)
    ensures RetryRequest(h, exception, count, entityEnclosing)
            <==> (count < h.maxCount
                  && (NoHttpResponse in exception || (exception * NeverRetried == {} && !entityEnclosing)))
  {
    var hit := exception * NeverRetried;
    if SslHandshake in exception {
      assert SslHandshake in hit;
    } else if InterruptedIo in exception {
      assert InterruptedIo in hit;
    } else if UnknownHost in exception {
      assert UnknownHost in hit;
    } else if ConnectTimeout in exception {
      assert ConnectTimeout in hit;
    } else if Ssl in exception {
      assert Ssl in hit;
    } else {
      assert hit == {} by {
        forall c | c in hit
          ensures false
        {
        }
      }
    }
  }

  /** Once `count` reaches the limit nothing is retried, whatever the
      exception or the request. */
  lemma GiveUpAtLimit(h: Handler, exception: IoException, count: int32, entityEnclosing: bool)
    requires count >= h.maxCount
    ensures !RetryRequest(h, exception, count, entityEnclosing)
  {
  }

  /** Below the limit the decision does not depend on the count. */
  lemma CountIrrelevantBelowLimit(h: Handler, exception: IoException, c1: int32, c2: int32, entityEnclosing: bool)
    requires c1 < h.maxCount && c2 < h.maxCount
    ensures RetryRequest(h, exception, c1, entityEnclosing) == RetryRequest(h, exception, c2, entityEnclosing)
  {
  }

  /** First match decides: below the limit a `NoHttpResponseException` is
      retried even if the exception also passes a later test, and an
      exception of a never-retried class is given up on whatever the request. */
  lemma FirstMatchDecides(h: Handler, exception: IoException, count: int32, entityEnclosing: bool)
    requires count < h.maxCount
    ensures NoHttpResponse in exception ==> RetryRequest(h, exception, count, entityEnclosing)
    ensures NoHttpResponse !in exception && exception * NeverRetried != {} ==>
              !RetryRequest(h, exception, count, entityEnclosing)
    ensures exception * (NeverRetried + {NoHttpResponse}) == {} ==>
              (RetryRequest(h, exception, count, entityEnclosing) <==> !entityEnclosing)
  {
    RetryRule(h, exception, count, entityEnclosing);
  }

  /** With the limit every handler actually has, the first two attempts may
      be retried and the third may not. */
  lemma DefaultLimit(exception: IoException, count: int32, entityEnclosing: bool)
    requires NoHttpResponse in exception
    ensures RetryRequest(NewHandler(), exception, count, entityEnclosing) <==> count < 3
  {
  }

  /** The Java class hierarchy among the tested classes:
      `SSLHandshakeException` extends `SSLException` and
      `ConnectTimeoutException` extends `InterruptedIOException`. */
  predicate RespectsHierarchy(exception: IoException) {
    && (SslHandshake in exception ==> Ssl in exception)
    && (ConnectTimeout in exception ==> InterruptedIo in exception)
  }

  /** For exceptions that respect the class hierarchy, the
      `SSLHandshakeException` and `ConnectTimeoutException` tests never
      change the outcome: their superclass tests give the same answer. */
  lemma SubclassTestsRedundant(h: Handler, exception: IoException, count: int32, entityEnclosing: bool)
    requires RespectsHierarchy(exception)
    ensures RetryRequest(h, exception, count, entityEnclosing)
            == RetryRequest(h, exception - {SslHandshake, ConnectTimeout}, count, entityEnclosing)
  {
    var reduced := exception - {SslHandshake, ConnectTimeout};
    RetryRule(h, exception, count, entityEnclosing);
    RetryRule(h, reduced, count, entityEnclosing);
    assert exception * NeverRetried == {} <==> reduced * NeverRetried == {} by {
      if exception * NeverRetried != {} {
        var c :| c in exception * NeverRetried;
        if c == SslHandshake {
          assert Ssl in reduced * NeverRetried;
        } else if c == ConnectTimeout {
          assert InterruptedIo in reduced * NeverRetried;
        } else {
          assert c in reduced * NeverRetried;
        }
      }
    }
  }
}
