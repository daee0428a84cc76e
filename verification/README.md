# tool-kit HTTP client and `In` helper, modelled in Dafny

This project models the three self-contained parts of the Go tool-kit and proves properties about them:

- **`toValues`** turns a `map[string]string` into a query string. Each entry becomes `key=value`, and the entries are joined by `&`. A value is escaped with `url.QueryEscape`, except when its key starts with `__`. For such a key the prefix is dropped and the value is sent raw. `Get` sends its request to `url + "?" + toValues(param)`.
- **`HttpClient`** keeps a cookie list and a header map for each client. `SetCookie` appends to the list and `CleanCookie` empties it. `GetCookie` reads it. `SetRequestHeaders` replaces the header map. `Get` and `Post` attach both to every request. After a successful call they append the cookies from the response's `Set-Cookie` headers. `Get` appends every cookie. `Post` appends only the cookies that parse. A transport error changes nothing.
- **`In`** is a membership test. For a `[]interface{}` target it checks whether some element equals the source. For a string target it checks for a substring. For any other kind of target it returns false.

Modules:

- `GoBase` (`base.dfy`): Go strings as byte sequences (`GoString`), `Option` and `Result`, and `Enumerates`. `Enumerates` describes the iteration order of `for k := range m`. Go leaves that order open, so every operation that ranges over a map takes an `order` argument. An `order` is valid when it lists every key exactly once.
- `UrlEscape` (`url_escape.dfy`): `url.QueryEscape` as the standard library defines it. Unreserved characters (section 2.3 of RFC 3986) are kept. A space becomes `+`. Every other byte becomes `%XX` in upper-case hex (section 2.1 of RFC 3986). Its inverse is `QueryUnescape`.
- `Query` (`query.dfy`): `ToValues`, a loop proved against the specification `QueryString`. It also defines `DecodeQuery`, a decoder that serves as its inverse, and the round-trip lemmas.
- `Http` (`http.dfy`): the `HttpClient` class, with `cookies: seq<Cookie>` and `headers: map<GoString, GoString>`. The harvest specifications `HarvestAll` (used by `Get`) and `HarvestParsed` (used by `Post`) are here. So is `CookieArgs`, the cookie header that a request carries.
- `HttpScenarios` (`scenarios.dfy`): callers of the class. They show that cookies persist across calls and that duplicates accumulate.
- `Slice` (`slice.dfy`): `In` over a `Value` datatype that stands in for Go's reflection. It uses `Contains`, which models `strings.Contains`.

Some behaviour is a Go panic, and each panic becomes a precondition. `toValues` panics on a non-nil empty map, where `values[:len(values)-1]` slices to -1. It also panics on a key shorter than two bytes, at `k[:2]`. `In` panics on a slice or array target that is not a `[]interface{}`, at its type assertion. It also panics on a target of a named string type (`type Name string`) when the source is a `string`, at `target.(string)`; with a non-string source it returns false first. A nil map is not a panic: `toValues` returns the empty string for it. `Get` still appends a bare `?` in that case.

`toValues` escapes values but never keys (http/http.go:81-86), and a `__` value goes out raw. So a key holding `&`, or a `__` value holding `&`, breaks the query string's shape of one `&`-separated fragment per entry: `{"a&b": "1"}` gives `a&b=1`, which splits into two pieces. A key holding `=`, `%` or `+` keeps that shape but breaks the decode: `{"a=b": "1"}` gives the single piece `a=b=1`, which decodes to `("a", "b=1")`. The round-trip lemmas therefore hold for entries whose key (after any `__`) holds no `&`, `=`, `%` or `+`, and whose raw value holds no `&` and is a valid escape.

The network call `Do` is a function parameter `transport: Request -> Result<Response, TransportError>`. `Get` and `Post` promise their outcome in terms of the exact request they pass to it. The cookie parser `Cookie.ParseBytes` is a parameter `parse: GoString -> Parsed`. It gives the cookie as filled in and whether parsing succeeded.

One might expect `Get` to skip `Set-Cookie` values that fail to parse, as `Post` does (http/http.go:154-156). It does not: `Get` appends the cookie either way (http/http.go:118-120). The model follows the code, and `HarvestAgree` shows that the two agree exactly when every value parses.

## Model

| member | source | states |
|---|---|---|
| GoBase.EnumerationLength | http/http.go:179-184 | A range loop over a map visits exactly as many keys as the map holds. |
| UrlEscape.QueryEscape | http/http.go:81-82 | The escaped value holds only RFC 3986 unreserved bytes, `+` and `%`. So it never holds `&` or `=`, and it is at least as long as the input. |
| UrlEscape.UnescapeEscape | http/http.go:82 | Unescaping an escaped value gives back the original value, for every value. |
| Query.ToValues | http/http.go:74-90 | Returns the fragments of the entries, in iteration order, joined by single `&`. A nil map gives the empty string. A non-nil empty map or a key shorter than two bytes is excluded, because Go panics on it. |
| Query.TerminatedIsJoin | http/http.go:86-89 | The loop appends `fragment&` for each entry. Trimming the last byte removes exactly the one `&` the loop appended last, leaving the fragments joined by single `&`, with no `&` after the last fragment. A fragment may still end in `&` itself: `{"__k": "a&"}` gives `k=a&`. |
| Query.FragmentDecodes | http/http.go:81-86 | For a recoverable entry (key after any `__` free of `&`, `=`, `%` and `+`; a raw value free of `&` and a valid escape): an ordinary key gives `k=QueryEscape(v)`, which decodes back to `(k, v)`. A `__` key gives `k[2..]=v` with the value unescaped, which decodes to `(k[2..], unescape(v))`. Neither holds `&`. |
| Query.QueryRoundTrip | http/http.go:80-89 | When every key (after any `__`) holds no `&`, `=`, `%` or `+`, and every raw value holds no `&` and is a valid escape: the query string splits at `&` into exactly one fragment per entry, in iteration order, and decoding it gives every entry back, as-is for an ordinary key, prefix-stripped and unescaped for a `__` key. Keys are sent unescaped, so without that hypothesis the shape does not hold. |
| Query.QueryRoundTripOrdinary | http/http.go:80-89 | If no key starts with `__` and every key is plain, the decoded pairs are exactly the map's entries, each once. This holds whatever the iteration order. |
| Query.RequestTargetShape | http/http.go:103-104 | The target `Get` requests is the URL, a `?` and the query string. A nil map still leaves a bare `?`. For a URL without `?`, cutting the target at its first `?` gives back the URL and the query string. |
| Http.SetArgEffect | http/http.go:111 | Setting one cookie on a request: that name then has the new value, every other name keeps its value, and names stay distinct. |
| Http.SetArgPlacement | http/http.go:111 | In a cookie header with distinct names, a new name is appended at the end. An existing name is replaced in place: the header equals the old one with only that position updated, so every other entry stays where it was and nothing is added. |
| Http.CookieArgsHoldLastValues | http/http.go:109-113 | The cookie header of a request names each stored cookie once. It carries the value of the last stored cookie of that name. |
| Http.SeededPerEntry | http/http.go:178-185 | `SetCookie` adds exactly one cookie per map entry, carrying that entry's key and value, and nothing else. |
| Http.HarvestParsedExact | http/http.go:152-158 | `Post` keeps a cookie exactly when its `Set-Cookie` value parsed. It keeps exactly as many cookies as there are values that parsed, so it does not deduplicate, and never more than there are values. |
| Http.HarvestAgree | http/http.go:117-121 | `Get` keeps one cookie per `Set-Cookie` value. `Get` and `Post` harvest the same cookies if and only if every value parses. |
| Http.HttpClient.constructor | http/http.go:55-73 | A new client has no cookies and no headers. |
| Http.HttpClient.GetCookie | http/http.go:170-172 | Returns the stored cookies, oldest first. |
| Http.HttpClient.CleanCookie | http/http.go:163-168 | Leaves the cookie list empty and the headers unchanged. |
| Http.HttpClient.SetRequestHeaders | http/http.go:174-176 | Replaces the header map wholesale and leaves the cookies unchanged. |
| Http.HttpClient.SetCookie | http/http.go:178-185 | Appends one cookie per entry, in iteration order, after the cookies already stored. Headers are unchanged. |
| Http.HttpClient.RequestCookies | http/http.go:109-113 | The cookie header of a request is every stored cookie set in turn, in store order. |
| Http.HttpClient.Get | http/http.go:92-123 | Sends GET to `url + "?" + toValues(param)` with the current headers and cookies. On a transport error it returns that error and leaves the cookies unchanged. Otherwise it returns the body and appends one cookie per `Set-Cookie` value, whether or not it parsed. |
| Http.HttpClient.Post | http/http.go:125-161 | Sends POST with content type `application/json`, the marshalled body (empty if marshalling failed), the headers and the cookies. On a transport error it returns that error and leaves the cookies unchanged. Otherwise it returns the body and appends only the cookies that parse. |
| HttpScenarios.SeededCookieSurvivesGet | http/http.go:114-121 | A cookie set with `SetCookie` is still stored after a `Get` whose response sets no cookie. |
| HttpScenarios.RepeatedSetCookieAccumulates | http/http.go:117-121 | The same `Set-Cookie` value received twice is stored twice, because the store appends and never deduplicates. |
| HttpScenarios.RepeatedParsedCookieAccumulates | http/http.go:152-158 | The same `Set-Cookie` value received by two `Post` calls is stored twice when it parses, and not at all when it does not. |
| HttpScenarios.CleanedStoreStaysEmptyOnError | http/http.go:149-151 | After `CleanCookie` the store is empty. A following `Post` that fails in transport returns the error and adds nothing. |
| Slice.Contains | slice/slice.go:25 | `strings.Contains`: true exactly when `sub` occurs at some index of `s`, in both directions. |
| Slice.In | slice/slice.go:9-31 | For a `[]interface{}` target: true exactly when some element equals the source. For a string target: true exactly when the source is a string that occurs in it, so an empty string source gives true. For a target of a named string type: false when the source is not a string. For any other kind: false. Go panics on two inputs, which are excluded: a slice or array of another type, and a named string type target with a string source. |

## Left out

- `NewFastClient` configuration, `SetClientReadTimeout`, `SetClientWriteTimeout`, `SetSkipVerifyTLSConfig` and `HttpClientConfig` (http/http.go:28-73, 187-199): these configure the underlying fasthttp client (timeouts, TLS, connection limits). No behaviour in the model depends on them. The constructor models only the empty cookie list and header map.
- `fasthttp.Client.Do`, connection pooling, timeouts and TLS: network I/O in a foreign library. It is the `transport` parameter.
- `Cookie.ParseBytes`: library parsing of `Set-Cookie` values. It is the `parse` parameter. Cookie attributes other than name and value (expiry, path, domain, flags) are not modelled, because requests carry only name and value.
- `json.Marshal` in `Post`: a library serialiser whose error is discarded. `Post` receives its outcome as `marshalled: Option<GoString>`, where `None` means marshalling failed and the body is empty.
- `AcquireRequest`/`ReleaseRequest`/`AcquireResponse`/`ReleaseResponse`/`AcquireCookie`/`ReleaseCookie`: object-pool memory management. `CleanCookie`'s loop, which returns each cookie to the pool, is therefore not modelled.
- Aliasing of the response body: `Get` and `Post` return `response.Body()` (http/http.go:122, 160), but the deferred `ReleaseResponse` (http/http.go:98-102, 130-134) hands the response back to fasthttp's pool as they return. fasthttp's `Body()` is valid only until then, so the caller's slice aliases a pooled buffer that a later call may overwrite. The model returns the body as an immutable copy.
- Aliasing of cookies: Go stores `*fasthttp.Cookie` pointers, and `GetCookie` returns the live slice. The model stores cookie values. So a caller holding the result of `GetCookie` does not see cookies that `CleanCookie` later returns to the pool.
- Nil versus empty: a nil `Cookie` slice or `Headers` map behaves like an empty one everywhere in this code, and the model does not tell them apart. `GetCookie` after `CleanCookie` returns nil in Go and `[]` here.
- Request headers: the loop that copies `Headers` into the request is modelled as the request carrying the map itself. fasthttp's header-name normalisation is not modelled. Neither is the way a `Content-Type` entry in `Headers` overrides the one `Post` sets.
- A `Cookie` entry in `Headers`: fasthttp's `Header.Set` parses it into the request's cookie arguments, and the stored cookies are then set on top of it. The model's `Request.cookies` holds only what the stored cookies set, so such a header entry is not merged in.
- Aliasing of the header map: `SetRequestHeaders` stores the caller's map by reference, so later writes by the caller to that map change the headers of later requests. The model stores the map as a value, so it does not see such writes.
- Go reflection and interface `==`: replaced by the `Value` datatype and its structural equality. The panic that Go raises when it compares two values of the same uncomparable dynamic type (for example two slices) is not modelled. Neither is Go's rule that values of different dynamic types are never equal: `Other(id)` stands for one typed value. `NamedStr` stands for a value of a named string type and `Mistyped` for a slice or array that is not a `[]interface{}`; their contents play no part in `In`.
- Concurrency: the unsynchronised access to `Cookie` and `Headers` from parallel calls. The model is a single-threaded client.
