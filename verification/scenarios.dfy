/** Clients of `HttpClient` that show what its contracts let a caller
    conclude about the cookie store across calls. */
module HttpScenarios {
  import opened GoBase
  import opened Query
  import opened Http

  /** A transport that answers every request with `body` and the given
      `Set-Cookie` values. */
  function Answering(body: GoString, setCookies: seq<GoString>): Request -> Result<Response, TransportError>
  {
    req => Ok(Response(body, setCookies))
  }

  /** A cookie seeded with `SetCookie` is still stored after a `Get` whose
      response sets no cookie: cookies persist across calls. */
  method SeededCookieSurvivesGet(url: GoString, body: GoString, k: GoString, v: GoString,
                                 parse: GoString -> Parsed)
    returns (cs: seq<Cookie>, r: Result<GoString, TransportError>)
    ensures cs == [Cookie(k, v)]
    ensures r == Ok(body)
  {
    var client := new HttpClient();
    client.SetCookie(map[k := v], [k]);
    r := client.Get(url, Nil, [], Answering(body, []), parse);
    cs := client.GetCookie();
  }

  /** The same `Set-Cookie` value seen by two calls is stored twice: the
      store appends and never deduplicates. */
  method RepeatedSetCookieAccumulates(url: GoString, body: GoString, header: GoString,
                                      parse: GoString -> Parsed)
    returns (cs: seq<Cookie>)
    ensures cs == [parse(header).cookie, parse(header).cookie]
  {
    var client := new HttpClient();
    var _ := client.Get(url, Nil, [], Answering(body, [header]), parse);
    var _ := client.Get(url, Nil, [], Answering(body, [header]), parse);
    cs := client.GetCookie();
  }

  /** `Post` does not deduplicate either: a `Set-Cookie` value that parses,
      received by two calls, is stored twice; one that does not parse is
      not stored at all. */
  method RepeatedParsedCookieAccumulates(url: GoString, body: GoString, header: GoString,
                                         parse: GoString -> Parsed)
    returns (cs: seq<Cookie>)
    ensures parse(header).ok ==> cs == [parse(header).cookie, parse(header).cookie]
    ensures !parse(header).ok ==> cs == []
  {
    var client := new HttpClient();
    var _ := client.Post(url, None, Answering(body, [header]), parse);
    var _ := client.Post(url, None, Answering(body, [header]), parse);
    cs := client.GetCookie();
  }

  /** After `CleanCookie`, `GetCookie` is empty, and a failed call that
      follows adds nothing. */
  method CleanedStoreStaysEmptyOnError(url: GoString, k: GoString, v: GoString,
                                       e: TransportError, parse: GoString -> Parsed)
    returns (cs: seq<Cookie>, r: Result<GoString, TransportError>)
    ensures cs == [] && r == Err(e)
  {
    var client := new HttpClient();
    client.SetCookie(map[k := v], [k]);
    client.CleanCookie();
    r := client.Post(url, None, req => Err(e), parse);
    cs := client.GetCookie();
  }
}
