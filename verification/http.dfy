/** The `HttpClient` of http/http.go: a per-client cookie list and header
    map, attached to every request, and the cookies harvested from each
    response. The transport (`fasthttp.Client.Do`) and the `Set-Cookie`
    parser (`Cookie.ParseBytes`) are parameters. */
module Http {
  import opened GoBase
  import opened Query

  /** The part of a `fasthttp.Cookie` that requests carry. */
  datatype Cookie = Cookie(key: GoString, value: GoString)

  datatype HttpMethod = GET | POST

  /** A request as `Get` or `Post` hands it to `Do`. `headers` are the
      client's headers; `cookies` are the cookie arguments that the stored
      cookies set, one value per name (a `Cookie` entry among the headers
      is not merged in). */
  datatype Request = Request(
    verb: HttpMethod,
    uri: GoString,
    contentType: GoString,
    headers: map<GoString, GoString>,
    cookies: seq<(GoString, GoString)>,
    body: GoString)

  /** A response: its body and the values of its `Set-Cookie` headers. */
  datatype Response = Response(body: GoString, setCookies: seq<GoString>)

  datatype TransportError = TransportError(reason: GoString)

  /** What `Cookie.ParseBytes` leaves behind: the cookie as filled in, and
      whether parsing reported no error. */
  datatype Parsed = Parsed(cookie: Cookie, ok: bool)

  /** "application/json" */
  const ApplicationJson: GoString :=
    [0x61, 0x70, 0x70, 0x6C, 0x69, 0x63, 0x61, 0x74, 0x69, 0x6F, 0x6E, 0x2F, 0x6A, 0x73, 0x6F, 0x6E]

  /** The value the request's cookie header holds for `k`, if any. */
  function ArgValue(args: seq<(GoString, GoString)>, k: GoString): Option<GoString>
  {
    if args == [] then None
    else if args[0].0 == k then Some(args[0].1)
    else ArgValue(args[1..], k)
  }

  /** No cookie name occurs twice in the request's cookie header. */
  ghost predicate DistinctKeys(args: seq<(GoString, GoString)>)
  {
    forall i, j :: 0 <= i < j < |args| ==> args[i].0 != args[j].0
  }

  /** `RequestHeader.SetCookieBytesKV`: a cookie of a name already present
      has its value replaced in place; a new name is appended. */
  function SetArg(args: seq<(GoString, GoString)>, k: GoString, v: GoString): seq<(GoString, GoString)>
  {
    if args == [] then [(k, v)]
    else if args[0].0 == k then [(k, v)] + args[1..]
    else [args[0]] + SetArg(args[1..], k, v)
  }

  /** The cookie header after setting every stored cookie in turn. */
  function CookieArgs(cs: seq<Cookie>): seq<(GoString, GoString)>
  {
    if cs == [] then []
    else
      var last := cs[|cs| - 1];
      SetArg(CookieArgs(cs[..|cs| - 1]), last.key, last.value)
  }

  /** The value of the last stored cookie named `k`. */
  function LastValue(cs: seq<Cookie>, k: GoString): Option<GoString>
  {
    if cs == [] then None
    else if cs[|cs| - 1].key == k then Some(cs[|cs| - 1].value)
    else LastValue(cs[..|cs| - 1], k)
  }

  /** Setting a cookie argument: the name then has the new value, every
      other name keeps its value, and names stay distinct. */
  lemma {:induction false} SetArgEffect(args: seq<(GoString, GoString)>, k: GoString, v: GoString)
    requires DistinctKeys(args)
    ensures DistinctKeys(SetArg(args, k, v))
    ensures forall k' :: ArgValue(SetArg(args, k, v), k') == if k' == k then Some(v) else ArgValue(args, k')
    ensures forall p :: p in SetArg(args, k, v) ==> p.0 == k || p in args
  {
    if args != [] && args[0].0 != k {
      SetArgEffect(args[1..], k, v);
      var r := SetArg(args[1..], k, v);
      forall i, j | 0 <= i < j < |[args[0]] + r|
        ensures ([args[0]] + r)[i].0 != ([args[0]] + r)[j].0
      {
        if i == 0 {
          var p := r[j - 1];
          assert p.0 == k || p in args[1..];
          if p in args[1..] {
            var n :| 0 <= n < |args[1..]| && args[1..][n] == p;
            assert args[n + 1] == p;
          }
        }
      }
    } else if args != [] {
      assert forall i :: 0 < i < |args| ==> args[i].0 != k;
      forall k' | k' != k
        ensures ArgValue(args[1..], k') == ArgValue(args, k')
      {
      }
    }
  }

  /** Where `SetArg` puts the value in a cookie header with distinct names
      (as `CookieArgs` builds): a new name is appended at the end; an
      existing name is replaced at its position and every other entry
      stays where it was. */
  lemma {:induction false} SetArgPlacement(args: seq<(GoString, GoString)>, k: GoString, v: GoString)
    requires DistinctKeys(args)
    ensures (forall i :: 0 <= i < |args| ==> args[i].0 != k) ==> SetArg(args, k, v) == args + [(k, v)]
    ensures forall i :: 0 <= i < |args| && args[i].0 == k ==> SetArg(args, k, v) == args[i := (k, v)]
  {
    if args != [] && args[0].0 != k {
      SetArgPlacement(args[1..], k, v);
      assert [args[0]] + args[1..] == args;
      forall i | 0 <= i < |args| && args[i].0 == k
        ensures SetArg(args, k, v) == args[i := (k, v)]
      {
        assert args[1..][i - 1].0 == k;
        assert [args[0]] + args[1..][i - 1 := (k, v)] == args[i := (k, v)];
      }
    } else if args != [] {
      forall i | 0 <= i < |args| && args[i].0 == k
        ensures SetArg(args, k, v) == args[i := (k, v)]
      {
        assert i == 0;
        assert [(k, v)] + args[1..] == args[0 := (k, v)];
      }
    }
  }

  /** Every stored cookie reaches the request: its header holds each name
      once, with the value of the last stored cookie of that name. */
  lemma {:induction false} CookieArgsHoldLastValues(cs: seq<Cookie>)
    ensures DistinctKeys(CookieArgs(cs))
    ensures forall k :: ArgValue(CookieArgs(cs), k) == LastValue(cs, k)
  {
    if cs != [] {
      var init := cs[..|cs| - 1];
      CookieArgsHoldLastValues(init);
      SetArgEffect(CookieArgs(init), cs[|cs| - 1].key, cs[|cs| - 1].value);
    }
  }

  /** The cookies `SetCookie` adds: one per map entry, in iteration order. */
  function Seeded(m: map<GoString, GoString>, order: seq<GoString>): seq<Cookie>
    requires forall i :: 0 <= i < |order| ==> order[i] in m
  {
    seq(|order|, i requires 0 <= i < |order| => Cookie(order[i], m[order[i]]))
  }

  /** `SetCookie` adds exactly one cookie per entry, and each entry's. */
  lemma SeededPerEntry(m: map<GoString, GoString>, order: seq<GoString>)
    requires Enumerates(order, m)
    ensures |Seeded(m, order)| == |m|
    ensures forall k :: k in m ==> Cookie(k, m[k]) in Seeded(m, order)
    ensures forall c :: c in Seeded(m, order) ==> c.key in m && c.value == m[c.key]
  {
    EnumerationLength(order, m);
    var s := Seeded(m, order);
    forall k | k in m
      ensures Cookie(k, m[k]) in s
    {
      var i :| 0 <= i < |order| && order[i] == k;
      assert s[i] == Cookie(k, m[k]);
    }
  }

  /** The cookies `Get` harvests: one per `Set-Cookie` value, whether or
      not it parsed. */
  function HarvestAll(values: seq<GoString>, parse: GoString -> Parsed): seq<Cookie>
  {
    seq(|values|, i requires 0 <= i < |values| => parse(values[i]).cookie)
  }

  /** The cookies `Post` harvests: only the `Set-Cookie` values that parsed. */
  function HarvestParsed(values: seq<GoString>, parse: GoString -> Parsed): seq<Cookie>
  {
    if values == [] then []
    else
      var init := HarvestParsed(values[..|values| - 1], parse);
      var p := parse(values[|values| - 1]);
      if p.ok then init + [p.cookie] else init
  }

  /** The indices of the `Set-Cookie` values that parse. */
  ghost function ParsedIndices(values: seq<GoString>, parse: GoString -> Parsed): set<int>
  {
    set i | 0 <= i < |values| && parse(values[i]).ok
  }

  /** The last value adds its own index to the parsed indices, when it parses. */
  lemma ParsedIndicesSnoc(values: seq<GoString>, parse: GoString -> Parsed)
    requires values != []
    ensures var n := |values| - 1;
            |ParsedIndices(values, parse)| ==
            |ParsedIndices(values[..n], parse)| + (if parse(values[n]).ok then 1 else 0)
  {
    var n := |values| - 1;
    var before := ParsedIndices(values[..n], parse);
    assert n !in before;
    if parse(values[n]).ok {
      assert ParsedIndices(values, parse) == before + {n};
    } else {
      assert ParsedIndices(values, parse) == before;
    }
  }

  /** `Post` keeps exactly the cookies of the values that parse: each kept
      cookie comes from a value that parsed, each value that parsed gives
      its cookie, and it keeps one cookie per value that parsed, so a
      cookie received twice is kept twice. */
  lemma {:induction false} HarvestParsedExact(values: seq<GoString>, parse: GoString -> Parsed)
    ensures |HarvestParsed(values, parse)| == |ParsedIndices(values, parse)| <= |values|
    ensures forall c :: c in HarvestParsed(values, parse) ==>
              exists v :: v in values && parse(v) == Parsed(c, true)
    ensures forall v :: v in values && parse(v).ok ==> parse(v).cookie in HarvestParsed(values, parse)
  {
    if values == [] {
      assert ParsedIndices(values, parse) == {};
    } else {
      var n := |values| - 1;
      var init := values[..n];
      var last := values[n];
      HarvestParsedExact(init, parse);
      assert forall v :: v in values ==> v in init || v == last;
      assert forall v :: v in init ==> v in values;
      ParsedIndicesSnoc(values, parse);
    }
  }

  /** `Get` and `Post` harvest the same cookies exactly when every value
      parses: one failing value leaves `Post` with fewer cookies. */
  lemma {:induction false} HarvestAgree(values: seq<GoString>, parse: GoString -> Parsed)
    ensures HarvestParsed(values, parse) == HarvestAll(values, parse) <==>
            forall i :: 0 <= i < |values| ==> parse(values[i]).ok
  {
    if values != [] {
      var n := |values| - 1;
      var init := values[..n];
      HarvestAgree(init, parse);
      assert HarvestAll(values, parse) == HarvestAll(init, parse) + [parse(values[n]).cookie];
      assert forall i :: 0 <= i < n ==> values[i] == init[i];
      if parse(values[n]).ok {
        var c := parse(values[n]).cookie;
        var a, b := HarvestParsed(init, parse), HarvestAll(init, parse);
        assert HarvestParsed(values, parse) == a + [c];
        if a + [c] == b + [c] {
          assert a == (a + [c])[..|a|] == (b + [c])[..|b|] == b;
        }
      } else {
        HarvestParsedExact(init, parse);
        assert HarvestParsed(values, parse) == HarvestParsed(init, parse);
        assert |HarvestParsed(values, parse)| < |HarvestAll(values, parse)|;
      }
    }
  }

  /** `HttpClient`: the `Cookie` slice and the `Headers` map. A nil slice
      or map is the empty one. */
  class HttpClient {
    var cookies: seq<Cookie>
    var headers: map<GoString, GoString>

    /** `NewFastClient`: a client with no cookies and no headers. */
    constructor ()
      ensures cookies == [] && headers == map[]
    {
      cookies := [];
      headers := map[];
    }

    /** `GetCookie`: the stored cookies, oldest first. */
    method GetCookie() returns (cs: seq<Cookie>)
      ensures cs == cookies
    {
      cs := cookies;
    }

    /** `CleanCookie`: forget every stored cookie; headers stay. */
    method CleanCookie()
      modifies this
      ensures cookies == [] && headers == old(headers)
    {
      cookies := [];
    }

    /** `SetRequestHeaders`: replace the header map wholesale; cookies stay. */
    method SetRequestHeaders(h: map<GoString, GoString>)
      modifies this
      ensures headers == h && cookies == old(cookies)
    {
      headers := h;
    }

    /** `SetCookie`: append one cookie per entry of `m`, in the map's
      iteration order `order`, after the cookies already stored. */
    method SetCookie(m: map<GoString, GoString>, order: seq<GoString>)
      requires Enumerates(order, m)
      modifies this
      ensures cookies == old(cookies) + Seeded(m, order)
      ensures headers == old(headers)
    {
      var i := 0;
      while i < |order|
        invariant 0 <= i <= |order|
        invariant cookies == old(cookies) + Seeded(m, order[..i])
        invariant headers == old(headers)
      {
        cookies := cookies + [Cookie(order[i], m[order[i]])];
        assert Seeded(m, order[..i + 1]) == Seeded(m, order[..i]) + [Cookie(order[i], m[order[i]])];
        i := i + 1;
      }
      assert order[..i] == order;
    }

    /** The cookie header of a request: every stored cookie set in turn. */
    method RequestCookies() returns (args: seq<(GoString, GoString)>)
      ensures args == CookieArgs(cookies)
    {
      args := [];
      var i := 0;
      while i < |cookies|
        invariant 0 <= i <= |cookies|
        invariant args == CookieArgs(cookies[..i])
      {
        args := SetArg(args, cookies[i].key, cookies[i].value);
        assert cookies[..i + 1][..i] == cookies[..i];
        i := i + 1;
      }
      assert cookies[..i] == cookies;
    }

    /** `Get`: send GET to `url + "?" + toValues(param)` with the client's
      headers and cookies. A transport error is returned and changes
      nothing; otherwise one cookie per `Set-Cookie` value is appended,
      whether or not it parsed, and the body is returned. */
    method Get(url: GoString, param: Args, order: seq<GoString>,
               transport: Request -> Result<Response, TransportError>,
               parse: GoString -> Parsed)
      returns (r: Result<GoString, TransportError>)
      requires IterationOrder(param, order) && ToValuesSafe(param)
      modifies this
      ensures headers == old(headers)
      ensures var sent := Request(GET, RequestTarget(url, param, order), [],
                                  old(headers), CookieArgs(old(cookies)), []);
              match transport(sent)
              case Err(e) => r == Err(e) && cookies == old(cookies)
              case Ok(resp) =>
                r == Ok(resp.body) && cookies == old(cookies) + HarvestAll(resp.setCookies, parse)
    {
      var paramValues := ToValues(param, order);
      var cookieArgs := RequestCookies();
      var request := Request(GET, url + [Question] + paramValues, [], headers, cookieArgs, []);
      assert request == Request(GET, RequestTarget(url, param, order), [], old(headers), CookieArgs(old(cookies)), []);
      var response := transport(request);
      if response.Err? {
        return Err(response.error);
      }
      var values := response.value.setCookies;
      var i := 0;
      while i < |values|
        invariant 0 <= i <= |values|
        invariant cookies == old(cookies) + HarvestAll(values[..i], parse)
        invariant headers == old(headers)
      {
        cookies := cookies + [parse(values[i]).cookie];
        assert HarvestAll(values[..i + 1], parse) == HarvestAll(values[..i], parse) + [parse(values[i]).cookie];
        i := i + 1;
      }
      assert values[..i] == values;
      r := Ok(response.value.body);
    }

    /** `Post`: send POST to `url` with content type application/json, the
      client's headers and cookies, and the marshalled parameters as body
      (empty when marshalling failed). A transport error is returned and
      changes nothing; otherwise only the `Set-Cookie` values that parse
      are appended, and the body is returned. */
    method Post(url: GoString, marshalled: Option<GoString>,
                transport: Request -> Result<Response, TransportError>,
                parse: GoString -> Parsed)
      returns (r: Result<GoString, TransportError>)
      modifies this
      ensures headers == old(headers)
      ensures var body := if marshalled.Some? then marshalled.value else [];
              var sent := Request(POST, url, ApplicationJson, old(headers), CookieArgs(old(cookies)), body);
              match transport(sent)
              case Err(e) => r == Err(e) && cookies == old(cookies)
              case Ok(resp) =>
                r == Ok(resp.body) && cookies == old(cookies) + HarvestParsed(resp.setCookies, parse)
    {
      var bodyJson := if marshalled.Some? then marshalled.value else [];
      var cookieArgs := RequestCookies();
      var request := Request(POST, url, ApplicationJson, headers, cookieArgs, bodyJson);
      var response := transport(request);
      if response.Err? {
        return Err(response.error);
      }
      var values := response.value.setCookies;
      var i := 0;
      while i < |values|
        invariant 0 <= i <= |values|
        invariant cookies == old(cookies) + HarvestParsed(values[..i], parse)
        invariant headers == old(headers)
      {
        var parsed := parse(values[i]);
        assert values[..i + 1][..i] == values[..i];
        if parsed.ok {
          cookies := cookies + [parsed.cookie];
        }
        i := i + 1;
      }
      assert values[..i] == values;
      r := Ok(response.value.body);
    }
  }
}
