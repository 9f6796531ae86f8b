# kotlin-web_server in Dafny

A model of a small Kotlin web framework, with proofs about it. The framework has two parts.

- **URL decomposition.** `scheme`, `host`, `path` and `queryParams` take a raw URL string apart. Each one is a chain of Kotlin's `substringBefore`, `substringAfter`, `contains` and `split`.
- **Request handling.**
  - Requests, responses and status codes.
  - The fixed page handlers and the `helloHandler` greeting.
  - The `requireToken` filter.
  - The exact-path router `configureRoutes`, and `route` over the fixed table `routeMap`.

The project has four modules.

- `KotlinStrings` (`strings.dfy`) models the Kotlin standard-library calls the code relies on, on `seq<char>`:
  - `indexOf` finds the first occurrence. The empty pattern is found at 0.
  - `contains` is true exactly when `indexOf` finds the pattern.
  - `substringBefore` and `substringAfter` cut at the first occurrence. Both return the whole receiver when the delimiter is missing.
  - `split` keeps empty pieces.
  - `toMap` keeps the last value of a repeated key.
  - `uppercase` upper-cases ASCII letters.
- `WebServer` (`webserver.dfy`) holds the four URL parsers and their structural properties.
- `Http` (`http.dfy`) holds:
  - `Status`, `Request` and `Response`;
  - the handlers, as total functions `Request -> Response`;
  - the token filter, the router and the route table.
  - The hello handler appears twice:
    - `Hello` states what it answers. It is the entry stored in the route table.
    - `HelloHandler` is the handler as the code runs it, proved equal to `Hello`.
- `Scenarios` (`scenarios.dfy`) covers the behaviour the repository's tests pin down. Each test's literal URL is generalised to every URL of the same shape.
  - The shape: a scheme without ':' or '?', "://", a host whose first character does not occur in the scheme, a path starting with '/', and a query.
  - The host lemma asks less: a scheme without ':' and a host without '/'. It therefore also covers the host "hoogle.haskell.org" under the scheme "https".
  - `PathMisfire` shows the `path` quirk: the host text is searched for from the start of the URL.

## Model

| member | source | states |
|---|---|---|
| KotlinStrings.IndexFrom | src/main/kotlin/webserver/WebServer.kt:5-12 | the index found is an occurrence at or after the start index with none between; None exactly when there is no occurrence from the start index on |
| KotlinStrings.IndexOf | src/main/kotlin/webserver/WebServer.kt:5-12 | finds a pattern exactly when it occurs; the index found is an occurrence with none before it; the empty pattern is found at 0 |
| KotlinStrings.Contains | src/main/kotlin/webserver/WebServer.kt:16 | true exactly when the pattern occurs somewhere |
| KotlinStrings.SubstringBefore | src/main/kotlin/webserver/WebServer.kt:6-12 | a prefix of the receiver that ends where the first occurrence of the delimiter starts; the whole receiver when the delimiter is absent |
| KotlinStrings.SubstringAfter | src/main/kotlin/webserver/WebServer.kt:9-12 | a suffix of the receiver that starts right after the first occurrence of the delimiter; the whole receiver when the delimiter is absent |
| KotlinStrings.AfterFirst | src/main/kotlin/webserver/WebServer.kt:9-12 | given the first occurrence at k, the text after the delimiter is the receiver from k plus the delimiter's length |
| KotlinStrings.EmptyDelimiter | src/main/kotlin/webserver/WebServer.kt:12 | cutting at the empty text leaves nothing before it and the whole receiver after it, as `substringAfter` does for an empty host |
| KotlinStrings.ContainsChar | src/main/kotlin/webserver/WebServer.kt:16 | `contains` of a one-character text is membership of that character |
| KotlinStrings.BeforeChar | src/main/kotlin/webserver/WebServer.kt:6 | the part before the first `c` holds no `c`; it is shorter than the receiver exactly when `c` occurs, and then `c` follows it |
| KotlinStrings.BeforeCharFrom | src/main/kotlin/webserver/WebServer.kt:9 | cutting a suffix of `s` at `c` gives a `c`-free slice of `s` that is followed by `c` or by the end |
| KotlinStrings.AfterThenBeforeChar | src/main/kotlin/webserver/WebServer.kt:12 | the text after the first `d` and before the next `c` is the slice of `s` right after that `d` that stops at the first `c` or at the end |
| KotlinStrings.CutAtChar | src/main/kotlin/webserver/WebServer.kt:21-22 | `x + [c] + y` with `c` not in `x` is cut into exactly `x` and `y` |
| KotlinStrings.CutAtAbsentChar | src/main/kotlin/webserver/WebServer.kt:21-22 | without `c`, both cuts return the whole text |
| KotlinStrings.CutAt | src/main/kotlin/webserver/WebServer.kt:9-12 | `x + d + y` with no earlier occurrence of `d` is cut into exactly `x` and `y` |
| KotlinStrings.NoOccurrenceBefore | src/main/kotlin/webserver/WebServer.kt:12 | a pattern whose first character is absent from `s[..k]` does not occur before `k` |
| KotlinStrings.AroundFirstChar | src/main/kotlin/webserver/WebServer.kt:12 | text holding `c` is its part before the first `c`, then `c`, then the rest |
| KotlinStrings.BeforeCharCons | src/main/kotlin/webserver/WebServer.kt:12 | a leading character other than `c` survives the cut at `c` |
| KotlinStrings.Split | src/main/kotlin/webserver/WebServer.kt:18 | one more piece than there are separators; every piece is separator-free; joining the pieces with the separator gives back the input |
| KotlinStrings.SplitJoin | src/main/kotlin/webserver/WebServer.kt:18 | splitting the join of separator-free pieces gives back exactly those pieces |
| KotlinStrings.JoinCons | src/main/kotlin/webserver/WebServer.kt:18 | the join of two or more pieces is the first piece, the separator, and the join of the rest |
| KotlinStrings.SplitCons | src/main/kotlin/webserver/WebServer.kt:18 | the first piece is the text before the first separator, followed by the pieces of the rest |
| KotlinStrings.SplitAbsent | src/main/kotlin/webserver/WebServer.kt:18 | text without the separator is a single piece |
| KotlinStrings.ToMapInto | src/main/kotlin/webserver/Http.kt:21 | inserting pairs into a map adds exactly the keys of the pairs |
| KotlinStrings.ToMap | src/main/kotlin/webserver/Http.kt:21 | the keys of `toMap()` are exactly the keys of the pairs |
| KotlinStrings.LastValue | src/main/kotlin/webserver/Http.kt:21 | None exactly when no pair has the key; otherwise the value of a pair with the key that no later pair with the key follows |
| KotlinStrings.LastValueAt | src/main/kotlin/webserver/Http.kt:21 | conversely, a pair with the key that no later pair with the key follows gives the value found |
| KotlinStrings.ToMapIntoLast | src/main/kotlin/webserver/Http.kt:21 | inserting pairs in order into a map: a key is present exactly when some pair or the start map has it, and it maps to the last such pair's value |
| KotlinStrings.ToMapLast | src/main/kotlin/webserver/Http.kt:21 | `toMap()` holds a key exactly when some pair has it, and maps it to the value of the last such pair |
| KotlinStrings.UpperChar | src/main/kotlin/webserver/Http.kt:31 | ASCII a-z move to A-Z, every other character is kept, and the result is never a lower-case letter |
| KotlinStrings.Uppercase | src/main/kotlin/webserver/Http.kt:31 | same length; each character is upper-cased on its own |
| KotlinStrings.UppercaseAppend | src/main/kotlin/webserver/Http.kt:31 | upper-casing a concatenation upper-cases each part |
| WebServer.HostStart | src/main/kotlin/webserver/WebServer.kt:9 | the position just after the first "://", or 0 when there is none |
| WebServer.AfterSchemeSeparator | src/main/kotlin/webserver/WebServer.kt:9 | the text after the first "://" is the URL from the host start on |
| WebServer.Scheme | src/main/kotlin/webserver/WebServer.kt:5-6 | a prefix of the URL without ':'; followed by ':' when the URL has one; the whole URL otherwise |
| WebServer.Host | src/main/kotlin/webserver/WebServer.kt:8-9 | no '/'; the slice of the URL at the host start, followed by '/' or by the end |
| WebServer.HostThenSlash | src/main/kotlin/webserver/WebServer.kt:9 | the host text is followed by '/' or by the end of the URL |
| WebServer.Path | src/main/kotlin/webserver/WebServer.kt:11-12 | no '?'; a substring of the URL |
| WebServer.PathAfterHost | src/main/kotlin/webserver/WebServer.kt:11-12 | when the host text is first found after "://", the path is the text right after it up to the first '?' or the end, starting with '/' unless empty |
| WebServer.SliceAfterHost | src/main/kotlin/webserver/WebServer.kt:12 | the cut after a host found at `k` and followed by '/' or by the end is that slice of the URL |
| WebServer.CutAfterThenBefore | src/main/kotlin/webserver/WebServer.kt:12 | the text after `d` and before the next `c` holds no `c` and is a substring of the input |
| WebServer.QueryPair | src/main/kotlin/webserver/WebServer.kt:19-23 | the key holds no '='; a segment with '=' is `key + "=" + value`; a segment without '=' is both key and value |
| WebServer.QueryParams | src/main/kotlin/webserver/WebServer.kt:14-31 | empty exactly when the URL has no '?'; otherwise one pair per '&' plus one; no key holds '=' |
| WebServer.QueryParamsSegments | src/main/kotlin/webserver/WebServer.kt:17-23 | pair i comes from the i-th '&'-free segment after the first '?', by the split-at-'=' rule |
| WebServer.RebuildSegments | src/main/kotlin/webserver/WebServer.kt:20-23 | pairs made by the split-at-'=' rule rebuild their segments |
| WebServer.QueryParamsRoundTrip | src/main/kotlin/webserver/WebServer.kt:17-23 | rebuilding every segment from its pair and joining with '&' gives back the text after the first '?' |
| WebServer.HostOfAbsoluteUrl | src/main/kotlin/webserver/WebServer.kt:8-9 | for `a + "://" + h + "/" + rest` with no "://" in `a` and no '/' in `h`, the host is `h` |
| WebServer.FirstSchemeSeparator | src/main/kotlin/webserver/WebServer.kt:9 | the first "://" in `a + "://" + tail` is the one after `a` when `a` holds none |
| WebServer.HostFoundAfterScheme | src/main/kotlin/webserver/WebServer.kt:12 | a host whose first character is not in `a`, ':' or '/' is first found after "://" |
| WebServer.PathOfAbsoluteUrl | src/main/kotlin/webserver/WebServer.kt:11-12 | for such a URL whose host is first found after "://", the path is '/' followed by the rest up to its first '?' |
| Http.StatusCode | src/main/kotlin/webserver/Http.kt:11-15 | OK is 200, FORBIDDEN is 403 and NOT_FOUND is 404, each in both directions |
| Http.StatusCodeInjective | src/main/kotlin/webserver/Http.kt:11-15 | two statuses with the same code are the same status |
| Http.HomepageHandler | src/main/kotlin/webserver/Http.kt:38-40 | the home page answers OK with "This is Imperial." whatever the request |
| Http.DoCHandler | src/main/kotlin/webserver/Http.kt:42-44 | the computing page answers OK with "This is DoC." whatever the request |
| Http.NotFoundHandler | src/main/kotlin/webserver/Http.kt:46-48 | the fallback answers NOT_FOUND with the default empty body whatever the request |
| Http.RestrictedPageHandler | src/main/kotlin/webserver/Http.kt:50-52 | the restricted page answers OK with "This is very secret." whatever the request |
| Http.Greeting | src/main/kotlin/webserver/Http.kt:20-26 | "Hello, " then the name, or "World" when there is none, then "!" |
| Http.HomePageHandler | src/main/kotlin/webserver/WebServer.kt:36-37 | the unused second home-page handler answers exactly what the routed one does |
| Http.Hello | src/main/kotlin/webserver/Http.kt:17-36 | the hello handler always answers OK |
| Http.HelloHandler | src/main/kotlin/webserver/Http.kt:17-36 | the step-by-step handler (default body, `toMap`, name update, then shouting update) answers OK and equals `Hello` |
| Http.HelloDefault | src/main/kotlin/webserver/Http.kt:20-21 | with no `name` pair and no final `style=shouting`, the body is "Hello, World!" |
| Http.HelloNamed | src/main/kotlin/webserver/Http.kt:24-33 | the body greets the last `name` value; it is upper-cased exactly when the last `style` value is "shouting" |
| Http.RequireToken | src/main/kotlin/webserver/Http.kt:72-80 | a request with the token gets the wrapped handler's answer unchanged; any other request gets FORBIDDEN with an empty body |
| Http.ConfigureRoutes | src/main/kotlin/webserver/Http.kt:62-66 | the handler stored under the request's path answers; a path not in the table gets NOT_FOUND with an empty body |
| Http.Dispatch | src/main/kotlin/webserver/Http.kt:65 | `getOrDefault` on the path: the stored handler answers a path in the table; any other path gets NOT_FOUND with an empty body |
| Http.DispatchByPath | src/main/kotlin/webserver/Http.kt:65 | two requests with the same path go to the same table entry, or both get NOT_FOUND |
| Http.RouteMapPages | src/main/kotlin/webserver/Http.kt:55-57 | the table answers "/" with "This is Imperial." and "/computing" with "This is DoC." |
| Http.RouteMapHello | src/main/kotlin/webserver/Http.kt:58 | the table answers "/say-hello" with the hello handler |
| Http.RouteMapExam | src/main/kotlin/webserver/Http.kt:59 | the table answers "/exam-marks" with the secret only for token "password1", and with FORBIDDEN otherwise |
| Http.RouteMap | src/main/kotlin/webserver/Http.kt:55-60 | the table holds exactly the four paths |
| Http.Route | src/main/kotlin/webserver/Http.kt:68-70 | `route` answers each of the four paths as the table says, and every other path with NOT_FOUND and an empty body |
| Scenarios.SchemeOfSiteUrl | src/test/kotlin/webserver/WebServerTest.kt:9-13 | the scheme is the text before "://" |
| Scenarios.HostOfSiteUrl | src/test/kotlin/webserver/WebServerTest.kt:17-37 | for a scheme without ':' and a host without '/', the host is the text between "://" and the next '/' |
| Scenarios.HoogleHost | src/test/kotlin/webserver/WebServerTest.kt:30-33 | the host of an "https" URL for "hoogle.haskell.org" is "hoogle.haskell.org", whatever follows the '/' |
| Scenarios.PathOfPage | src/test/kotlin/webserver/WebServerTest.kt:41-51 | the path of a page URL is the page path |
| Scenarios.PathOfPageQuery | src/test/kotlin/webserver/WebServerTest.kt:52-55 | the path stops at the '?' |
| Scenarios.QueryParamsOf | src/test/kotlin/webserver/WebServerTest.kt:58-76 | the pairs of `prefix + "?" + query` are the pairs of the '&' segments of `query` |
| Scenarios.PairOf | src/test/kotlin/webserver/WebServerTest.kt:58-76 | `k + "=" + v` with no '=' in `k` is the pair `(k, v)` |
| Scenarios.OneQueryPair | src/test/kotlin/webserver/WebServerTest.kt:60-71 | "?k=v" gives exactly `[(k, v)]` |
| Scenarios.SplitTwo | src/test/kotlin/webserver/WebServerTest.kt:64-75 | two '&'-free segments joined by '&' split into those two |
| Scenarios.TwoQueryPairs | src/test/kotlin/webserver/WebServerTest.kt:64-75 | "?k1=v1&k2=v2" gives exactly `[(k1, v1), (k2, v2)]`, in order |
| Scenarios.SegmentWithoutEquals | src/main/kotlin/webserver/WebServer.kt:20-23 | a segment without '=' gives `(segment, segment)` |
| Scenarios.HelloWorld | src/test/kotlin/webserver/WebServerTest.kt:87-91 | without a query the answer is OK with "Hello, World!" |
| Scenarios.HelloName | src/test/kotlin/webserver/WebServerTest.kt:93-99 | "?name=n" greets `n` |
| Scenarios.ShoutingQuery | src/test/kotlin/webserver/WebServerTest.kt:101-109 | "?name=n&style=shouting" gives the two pairs in order |
| Scenarios.ShoutingValues | src/test/kotlin/webserver/WebServerTest.kt:101-109 | the last `name` value of those pairs is `n` and the last `style` value is "shouting" |
| Scenarios.HelloShouting | src/test/kotlin/webserver/WebServerTest.kt:101-109 | "?name=n&style=shouting" greets `n` upper-cased |
| Scenarios.ShoutedHello | src/test/kotlin/webserver/WebServerTest.kt:107-108 | "Hello, " upper-cases to "HELLO, " |
| Scenarios.ShoutedGreeting | src/test/kotlin/webserver/WebServerTest.kt:107-108 | the shouted greeting is "HELLO, " + the upper-cased name + "!" |
| Scenarios.ShoutedNames | src/test/kotlin/webserver/WebServerTest.kt:107-108 | "Fred" and "Jack" upper-case to "FRED" and "JACK" |
| Scenarios.RouteHome | src/test/kotlin/webserver/WebServerTest.kt:124-128 | the home page answers OK with "This is Imperial." |
| Scenarios.RouteDoC | src/test/kotlin/webserver/WebServerTest.kt:129-132 | the computing page answers OK with "This is DoC." |
| Scenarios.RouteMissing | src/test/kotlin/webserver/WebServerTest.kt:135-145 | any page outside the table answers NOT_FOUND with an empty body |
| Scenarios.RouteToHelloNamed | src/test/kotlin/webserver/WebServerTest.kt:114-119 | routing "/say-hello?name=n" answers OK with "Hello, n!" |
| Scenarios.RouteToHelloShouting | src/test/kotlin/webserver/WebServerTest.kt:116-120 | routing "/say-hello?name=n&style=shouting" answers OK with the shouted greeting |
| Scenarios.FilterExamples | src/test/kotlin/webserver/WebServerTest.kt:167-185 | "/exam-marks" without a token is FORBIDDEN; with "password1" it is OK with "This is very secret." |
| Scenarios.HostMisfire | src/main/kotlin/webserver/WebServer.kt:8-9 | when the scheme ends with the host text, the host is still the text after "://" |
| Scenarios.PathMisfire | src/main/kotlin/webserver/WebServer.kt:11-12 | when the scheme ends with the host text (as "http" ends with "ttp"), the path starts after that earlier copy, "://" included |

## Left out

- Unicode case mapping: `UpperChar` upper-cases ASCII a-z only, which covers every string the handlers produce from ASCII input. Locale rules are not modelled.
- Handlers as JVM function objects: a handler is a Dafny arrow `Request -> Response`. Function references and closures have no other observable behaviour here.
- Mutation of `Response.body`: `helloHandler` updates the `body` field of a response it has just created. `HelloHandler` reassigns a local response value with a record update instead. No other code sees that response before it is returned, so no aliasing is lost.
- The default argument of `configureRoutes`: `Route` passes `RouteMap` explicitly. That is what `route` does by calling `configureRoutes()`.
- The test file as code: its assertions appear as lemmas in `Scenarios`. Each lemma is stated for every URL of the test's shape, not only for the one literal URL of the test.
- `QueryPair`: a segment without '=' gives the segment as both key and value, because `substringAfter` returns the whole receiver when the delimiter is missing. The model keeps that behaviour.
- `Host`: a URL without "://" takes its host from the start of the URL, for the same reason. The model keeps that behaviour.
- `@Suppress` annotations and the package declaration have no behaviour.
