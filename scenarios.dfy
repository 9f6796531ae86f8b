/** The behaviour the web server's tests pin down, stated for every URL of the shape
    the tests use rather than for the one literal URL of each test: a scheme `a`
    without ':', a host `h` whose first character does not occur in the scheme, a page,
    and a query. The tests' URLs are instances (a = "http" or "https",
    h = "www.imperial.ac.uk", page = "computing", ...). Two more lemmas exhibit the
    parser's substring-search quirks. */
module Scenarios {
  import opened KotlinStrings
  import opened WebServer
  import opened Http

  /** A scheme and a host as the tests' URLs have them. */
  predicate SiteParts(a: string, h: string) {
    ':' !in a && '?' !in a && |h| > 0 && '/' !in h && '?' !in h && h[0] != ':' && h[0] !in a
  }

  /** A scheme part without ':' cannot hold "://". */
  lemma NoSeparatorWithoutColon(a: string)
    requires ':' !in a
    ensures !Contains(a, "://")
  {
    forall k: nat | k + 3 <= |a| ensures !OccursAt(a, "://", k) {
      assert a[k..k + 3][0] == a[k] != ':';
    }
  }

  /** The scheme is the text before "://" (tests: "http" and "https"). */
  lemma SchemeOfSiteUrl(a: string, rest: string)
    requires ':' !in a
    ensures Scheme(a + "://" + rest) == a
  {
    assert a + "://" + rest == a + [':'] + ("//" + rest);
    CutAtChar(a, ':', "//" + rest);
  }

  /** The host is the text between "://" and the next '/' (tests: "www.imperial.ac.uk"
      and "hoogle.haskell.org"); the host may share characters with the scheme. */
  lemma HostOfSiteUrl(a: string, h: string, rest: string)
    requires ':' !in a && '/' !in h
    ensures Host(a + "://" + h + "/" + rest) == h
  {
    NoSeparatorWithoutColon(a);
    HostOfAbsoluteUrl(a, h, rest);
  }

  /** The host test whose host begins with a letter of its scheme, for any rest of the URL. */
  lemma HoogleHost(rest: string)
    ensures Host("https" + "://" + "hoogle.haskell.org" + "/" + rest) == "hoogle.haskell.org"
  {
    HostOfSiteUrl("https", "hoogle.haskell.org", rest);
  }

  /** A path as the tests' URLs have it: it starts with '/' and holds no '?'. */
  predicate SitePath(p: string) {
    |p| > 0 && p[0] == '/' && '?' !in p
  }

  /** The path of a page (tests: "/", "/computing", "/computing/programming"). */
  lemma PathOfPage(a: string, h: string, p: string)
    requires SiteParts(a, h) && SitePath(p)
    ensures Path(a + "://" + h + p) == p
  {
    NoSeparatorWithoutColon(a);
    assert a + "://" + h + p == a + "://" + h + "/" + p[1..];
    PathOfAbsoluteUrl(a, h, p[1..]);
    CutAtAbsentChar(p[1..], '?');
  }

  /** The path of a page with a query stops at the '?' (test: "/computing" for "/computing?q=abc"). */
  lemma PathOfPageQuery(a: string, h: string, p: string, query: string)
    requires SiteParts(a, h) && SitePath(p)
    ensures Path(a + "://" + h + p + "?" + query) == p
  {
    NoSeparatorWithoutColon(a);
    var rest := p[1..] + "?" + query;
    assert a + "://" + h + p + "?" + query == a + "://" + h + "/" + rest;
    PathOfAbsoluteUrl(a, h, rest);
    CutAtChar(p[1..], '?', query);
  }

  /** The query pairs of `prefix + "?" + query` when `prefix` has no '?'. */
  lemma QueryParamsOf(prefix: string, query: string)
    requires '?' !in prefix
    ensures var segments := Split(query, '&');
      QueryParams(prefix + "?" + query) == seq(|segments|, i requires 0 <= i < |segments| => QueryPair(segments[i]))
  {
    var url := prefix + "?" + query;
    CutAtChar(prefix, '?', query);
    assert url[|prefix|] == '?';
    ContainsChar(url, '?');
  }

  /** The pair of a segment `k + "=" + v` whose key has no '='. */
  lemma PairOf(k: string, v: string)
    requires '=' !in k
    ensures QueryPair(k + "=" + v) == (k, v)
  {
    CutAtChar(k, '=', v);
  }

  /** One `key=value` query (tests: "?q=xxx", "?q=abc"). */
  lemma OneQueryPair(prefix: string, k: string, v: string)
    requires '?' !in prefix && '=' !in k && '&' !in k && '&' !in v
    ensures QueryParams(prefix + "?" + (k + "=" + v)) == [(k, v)]
  {
    QueryParamsOf(prefix, k + "=" + v);
    SplitAbsent(k + "=" + v, '&');
    PairOf(k, v);
  }

  /** A query of two '&'-free segments splits into those two. */
  lemma SplitTwo(s1: string, s2: string)
    requires '&' !in s1 && '&' !in s2
    ensures Split(s1 + "&" + s2, '&') == [s1, s2]
  {
    SplitCons(s1, '&', s2);
    SplitAbsent(s2, '&');
  }

  /** Two `key=value` segments, in order (tests: "?q=xxx&rr=zzz", "?q=google&id=256"). */
  lemma TwoQueryPairs(prefix: string, k1: string, v1: string, k2: string, v2: string)
    requires '?' !in prefix
    requires '=' !in k1 && '&' !in k1 && '&' !in v1
    requires '=' !in k2 && '&' !in k2 && '&' !in v2
    ensures QueryParams(prefix + "?" + (k1 + "=" + v1 + "&" + (k2 + "=" + v2))) == [(k1, v1), (k2, v2)]
  {
    var s1, s2 := k1 + "=" + v1, k2 + "=" + v2;
    assert '&' !in s1 && '&' !in s2;
    QueryParamsOf(prefix, s1 + "&" + s2);
    SplitTwo(s1, s2);
    PairOf(k1, v1);
    PairOf(k2, v2);
  }

  /** Without a query the hello handler says "Hello, World!" (test: ".../say-hello"). */
  lemma HelloWorld(url: string)
    requires '?' !in url
    ensures Hello(Request(url)) == Response(Ok, "Hello, World!")
  {
  }

  /** `?name=n` greets `n` (tests: "Fred", "Jack"). */
  lemma HelloName(prefix: string, n: string)
    requires '?' !in prefix && '&' !in n
    ensures Hello(Request(prefix + "?" + ("name" + "=" + n))).body == "Hello, " + n + "!"
  {
    OneQueryPair(prefix, "name", n);
  }

  /** The keys and the value the hello handler looks for hold no '=' and no '&'. */
  lemma HelloWords()
    ensures '=' !in "name" && '&' !in "name"
    ensures '=' !in "style" && '&' !in "style" && '&' !in "shouting"
  {
  }

  /** The pairs of `?name=n&style=shouting`. */
  lemma ShoutingQuery(prefix: string, n: string)
    requires '?' !in prefix && '&' !in n
    ensures QueryParams(prefix + "?" + ("name" + "=" + n + "&" + ("style" + "=" + "shouting"))) ==
      [("name", n), ("style", "shouting")]
  {
    HelloWords();
    TwoQueryPairs(prefix, "name", n, "style", "shouting");
  }

  /** The last `name` and `style` values of those pairs. */
  lemma ShoutingValues(n: string)
    ensures LastValue([("name", n), ("style", "shouting")], "name") == Some(n)
    ensures LastValue([("name", n), ("style", "shouting")], "style") == Some("shouting")
  {
    var ps := [("name", n), ("style", "shouting")];
    assert ps[1..] == [("style", "shouting")];
    assert ps[1..][1..] == [];
  }

  /** `?name=n&style=shouting` greets `n` in upper case (tests: "HELLO, FRED!", "HELLO, JACK!"). */
  lemma HelloShouting(prefix: string, n: string)
    requires '?' !in prefix && '&' !in n
    ensures Hello(Request(prefix + "?" + ("name" + "=" + n + "&" + ("style" + "=" + "shouting")))).body ==
      Uppercase("Hello, " + n + "!")
  {
    ShoutingQuery(prefix, n);
    ShoutingValues(n);
  }

  /** The fixed start of the greeting, upper-cased. */
  lemma ShoutedHello()
    ensures Uppercase("Hello, ") == "HELLO, "
  {
    var s := "Hello, ";
    var u := Uppercase(s);
    forall i | 0 <= i < |s| ensures u[i] == "HELLO, "[i] {
      assert u[i] == UpperChar(s[i]);
    }
  }

  /** The shouted greeting upper-cases the name and keeps the rest of "HELLO, ...!". */
  lemma ShoutedGreeting(n: string)
    ensures Uppercase("Hello, " + n + "!") == "HELLO, " + Uppercase(n) + "!"
  {
    UppercaseAppend("Hello, " + n, "!");
    UppercaseAppend("Hello, ", n);
    ShoutedHello();
    assert Uppercase("!") == "!";
  }

  /** The names of the shouting tests, upper-cased. */
  lemma ShoutedNames()
    ensures Uppercase("Fred") == "FRED"
    ensures Uppercase("Jack") == "JACK"
  {
  }

  /** The home page answers "This is Imperial." (test: "http://www.imperial.ac.uk/"). */
  lemma RouteHome(a: string, h: string)
    requires SiteParts(a, h)
    ensures Route(Request(a + "://" + h + "/")) == Response(Ok, "This is Imperial.")
  {
    PathOfPage(a, h, "/");
  }

  /** The computing page answers "This is DoC." (test: "http://www.imperial.ac.uk/computing"). */
  lemma RouteDoC(a: string, h: string)
    requires SiteParts(a, h)
    ensures Route(Request(a + "://" + h + "/computing")) == Response(Ok, "This is DoC.")
  {
    PathOfPage(a, h, "/computing");
  }

  /** Any other page answers NOT_FOUND with an empty body (test: "/not-here"). */
  lemma RouteMissing(a: string, h: string, p: string)
    requires SiteParts(a, h) && SitePath(p) && p !in {"/", "/computing", "/say-hello", "/exam-marks"}
    ensures Route(Request(a + "://" + h + p)) == Response(NotFound, "")
  {
    PathOfPage(a, h, p);
  }

  /** The scheme, the host and the page of a site URL hold no '?'. */
  lemma NoQueryInSitePage(a: string, h: string, p: string)
    requires SiteParts(a, h) && SitePath(p)
    ensures '?' !in a + "://" + h + p
  {
  }

  /** Routing `/say-hello?name=n` reaches the hello handler with the query (tests: "Hello, Fred!"). */
  lemma RouteToHelloNamed(a: string, h: string, n: string)
    requires SiteParts(a, h) && '&' !in n
    ensures Route(Request(a + "://" + h + "/say-hello" + "?" + ("name" + "=" + n))) ==
      Response(Ok, "Hello, " + n + "!")
  {
    PathOfPageQuery(a, h, "/say-hello", "name" + "=" + n);
    NoQueryInSitePage(a, h, "/say-hello");
    HelloName(a + "://" + h + "/say-hello", n);
  }

  /** Routing `/say-hello?name=n&style=shouting` greets `n` in upper case (tests: "HELLO, JACK!"). */
  lemma RouteToHelloShouting(a: string, h: string, n: string)
    requires SiteParts(a, h) && '&' !in n
    ensures Route(Request(a + "://" + h + "/say-hello" + "?" + ("name" + "=" + n + "&" + ("style" + "=" + "shouting")))) ==
      Response(Ok, Uppercase("Hello, " + n + "!"))
  {
    PathOfPageQuery(a, h, "/say-hello", "name" + "=" + n + "&" + ("style" + "=" + "shouting"));
    NoQueryInSitePage(a, h, "/say-hello");
    HelloShouting(a + "://" + h + "/say-hello", n);
  }

  /** The exam-marks page needs the token "password1"; the default empty token is refused. */
  lemma FilterExamples(a: string, h: string)
    requires SiteParts(a, h)
    ensures Route(Request(a + "://" + h + "/exam-marks")).status == Forbidden
    ensures Route(Request(a + "://" + h + "/exam-marks", "password1")) == Response(Ok, "This is very secret.")
  {
    PathOfPage(a, h, "/exam-marks");
  }

  /** A host and a rest without '?' give a tail without '?'. */
  lemma NoQueryAfterScheme(h: string, rest: string)
    requires '?' !in h && '?' !in rest
    ensures '?' !in "://" + h + "/" + rest
  {
  }

  /** The host of a URL whose scheme ends with the host text is still the text after "://". */
  lemma HostMisfire(x: string, h: string, rest: string)
    requires ':' !in x && ':' !in h && '/' !in h
    ensures Host(x + h + ("://" + h + "/" + rest)) == h
  {
    assert x + h + ("://" + h + "/" + rest) == x + h + "://" + h + "/" + rest;
    NoSeparatorWithoutColon(x + h);
    HostOfAbsoluteUrl(x + h, h, rest);
  }

  /** The host text is searched for from the start of the URL: when the scheme ends
      with the host text (as "http" ends with "ttp"), the host is first found inside
      the scheme and the path starts right after that copy, "://" included. */
  lemma PathMisfire(x: string, h: string, rest: string)
    requires ':' !in x && ':' !in h && '/' !in h && '?' !in h && '?' !in rest
    requires |h| > 0 && h[0] !in x
    ensures Path(x + h + ("://" + h + "/" + rest)) == "://" + h + "/" + rest
  {
    var tail := "://" + h + "/" + rest;
    var url := x + h + tail;
    HostMisfire(x, h, rest);
    assert url[..|x|] == x;
    NoOccurrenceBefore(url, h, |x|);
    CutAt(x, h, tail);
    NoQueryAfterScheme(h, rest);
    CutAtAbsentChar(tail, '?');
  }

  /** A query segment without '=' is both the key and the value. */
  lemma SegmentWithoutEquals(prefix: string, flag: string)
    requires '?' !in prefix && '&' !in flag && '=' !in flag
    ensures QueryParams(prefix + "?" + flag) == [(flag, flag)]
  {
    QueryParamsOf(prefix, flag);
    SplitAbsent(flag, '&');
  }
}
