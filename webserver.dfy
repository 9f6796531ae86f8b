/** URL decomposition of the web server: scheme, host, path and query parameters,
    each a chain of `substringBefore`, `substringAfter`, `contains` and `split`.
    Nothing is validated or percent-decoded; every string is accepted. */
module WebServer {
  import opened KotlinStrings

  /** `s` appears somewhere inside `t`. */
  predicate IsSubstring(s: string, t: string) {
    exists i :: 0 <= i <= |t| && OccursAt(t, s, i)
  }

  /** Where the host text starts: just after the first "://", or at 0 when there is none. */
  function HostStart(url: string): (k: nat)
    ensures k <= |url|
    ensures Contains(url, "://") ==> k >= 3 && OccursAt(url, "://", k - 3) &&
                                      forall j :: 0 <= j < k - 3 ==> !OccursAt(url, "://", j)
    ensures !Contains(url, "://") ==> k == 0
  {
    match IndexOf(url, "://")
    case None => 0
    case Some(i) => i + 3
  }

  /** `scheme`: everything before the first ':' (the whole URL when there is none). */
  function Scheme(url: string): (r: string)
    ensures |r| <= |url| && r == url[..|r|]
    ensures ':' !in r
    ensures ':' in url ==> |r| < |url| && url[|r|] == ':'
    ensures ':' !in url ==> r == url
  {
    BeforeChar(url, ':');
    SubstringBefore(url, ":")
  }

  /** `host`: the text after the first "://" up to the next '/' (or to the end).
      When there is no "://" the text is taken from the start of the URL. */
  function Host(url: string): (r: string)
    ensures '/' !in r
    ensures HostStart(url) + |r| <= |url| && r == url[HostStart(url)..HostStart(url) + |r|]
    ensures HostStart(url) + |r| < |url| ==> url[HostStart(url) + |r|] == '/'
  {
    AfterSchemeSeparator(url);
    BeforeCharFrom(url, HostStart(url), '/');
    SubstringBefore(SubstringAfter(url, "://"), "/")
  }

  /** The text after the first "://" is the URL from the host start on. */
  lemma AfterSchemeSeparator(url: string)
    ensures SubstringAfter(url, "://") == url[HostStart(url)..]
  {
    if Contains(url, "://") {
      AfterFirst(url, "://", IndexOf(url, "://").value);
    }
  }

  /** `path`: the text after the first occurrence of the host text, up to the first '?'.
      The host text is searched for from the start of the URL, so when it also appears
      earlier (inside the scheme, say) the path starts after that earlier copy. */
  function Path(url: string): (r: string)
    ensures '?' !in r
    ensures IsSubstring(r, url)
  {
    var h := Host(url);
    CutAfterThenBefore(url, h, '?');
    SubstringBefore(SubstringAfter(url, h), "?")
  }

  /** `r` is the text of `url` from position `e` up to the first '?' after it or to
      the end, and it starts with '/' unless it is empty. */
  predicate PathAt(url: string, e: nat, r: string) {
    e + |r| <= |url| && r == url[e..e + |r|] && '?' !in r &&
    (e + |r| < |url| ==> url[e + |r|] == '?') &&
    (|r| > 0 ==> r[0] == '/')
  }

  /** The text after `h` and before the next '?', when `h` is first found at `k` and is
      followed by '/' or the end, is the path text after that `h`. */
  lemma SliceAfterHost(url: string, h: string, k: nat, r: string)
    requires IndexOf(url, h) == Some(k)
    requires k + |h| < |url| ==> url[k + |h|] == '/'
    requires r == SubstringBefore(SubstringAfter(url, h), "?")
    ensures PathAt(url, k + |h|, r)
  {
    AfterThenBeforeChar(url, h, k, '?');
  }

  /** When the host's first occurrence is the one after "://", the path is exactly the
      text that follows the host up to the first '?', and it starts with '/' unless empty. */
  lemma PathAfterHost(url: string)
    requires IndexOf(url, Host(url)) == Some(HostStart(url))
    ensures PathAt(url, HostStart(url) + |Host(url)|, Path(url))
  {
    PathIsAfterHost(url);
    HostThenSlash(url);
    SliceAfterHost(url, Host(url), HostStart(url), Path(url));
  }

  /** `path` cuts the text after the host text at the first '?' (the unfolding of `Path`,
      kept apart so that its callers stay cheap to verify). */
  lemma PathIsAfterHost(url: string)
    ensures Path(url) == SubstringBefore(SubstringAfter(url, Host(url)), "?")
  {
  }

  /** The host text is followed by '/' or by the end of the URL (one clause of `Host`'s
      contract, restated on its own so that `PathAfterHost` stays cheap to verify). */
  lemma HostThenSlash(url: string)
    ensures HostStart(url) + |Host(url)| < |url| ==> url[HostStart(url) + |Host(url)|] == '/'
  {
  }

  /** The text after `d` and before the next `c` holds no `c` and appears inside `t`. */
  lemma CutAfterThenBefore(t: string, d: string, c: char)
    ensures var r := SubstringBefore(SubstringAfter(t, d), [c]);
      c !in r && IsSubstring(r, t)
  {
    var rest := SubstringAfter(t, d);
    BeforeChar(rest, c);
    var r := SubstringBefore(rest, [c]);
    assert OccursAt(t, r, |t| - |rest|) by {
      assert t[|t| - |rest|..|t| - |rest| + |r|] == r;
    }
  }

  /** One query segment as a pair: the text before the first '=' and the text after it.
      A segment without '=' gives the segment itself for both key and value, because
      `substringBefore` and `substringAfter` both return the receiver then. */
  function QueryPair(segment: string): (p: (string, string))
    ensures '=' !in p.0
    ensures '=' in segment ==> segment == p.0 + "=" + p.1
    ensures '=' !in segment ==> p.0 == segment && p.1 == segment
  {
    ContainsChar(segment, '=');
    var key := SubstringBefore(segment, "=");
    var value := SubstringAfter(segment, "=");
    forall j | 0 <= j < |key| ensures key[j] != '=' {
      OccursAtChar(segment, '=', j);
    }
    assert '=' in segment ==> segment == key + "=" + value by {
      if '=' in segment {
        OccursAtChar(segment, '=', |key|);
      }
    }
    (key, value)
  }

  /** `queryParams`: no pairs when the URL has no '?'; otherwise one pair per
      '&'-separated segment of the text after the first '?', in order. */
  function QueryParams(url: string): (r: seq<(string, string)>)
    ensures |r| == 0 <==> '?' !in url
    ensures '?' in url ==> |r| == Count(SubstringAfter(url, "?"), '&') + 1
    ensures forall i :: 0 <= i < |r| ==> '=' !in r[i].0
  {
    ContainsChar(url, '?');
    if Contains(url, "?") then
      var segments := Split(SubstringAfter(url, "?"), '&');
      seq(|segments|, i requires 0 <= i < |segments| => QueryPair(segments[i]))
    else
      []
  }

  /** Each pair comes from the segment in the same position: the segments are the
      '&'-free pieces of the text after the first '?', and each is its key, '=' and
      value when it holds '=', and otherwise equals both its key and its value. */
  lemma QueryParamsSegments(url: string)
    requires '?' in url
    ensures var segments := Split(SubstringAfter(url, "?"), '&');
      var ps := QueryParams(url);
      |ps| == |segments| &&
      forall i :: 0 <= i < |ps| ==>
        '&' !in segments[i] &&
        ('=' in segments[i] ==> segments[i] == ps[i].0 + "=" + ps[i].1) &&
        ('=' !in segments[i] ==> ps[i].0 == segments[i] && ps[i].1 == segments[i])
  {
    ContainsChar(url, '?');
  }

  /** Rebuilds a segment from its pair, given whether the original segment held '='
      (a pair alone cannot tell "a" from "a=a"). */
  function Unparse(p: (string, string), hadEquals: bool): string {
    if hadEquals then p.0 + "=" + p.1 else p.0
  }

  /** Pairs that came from segments as `QueryPair` makes them rebuild those segments. */
  lemma RebuildSegments(segments: seq<string>, ps: seq<(string, string)>)
    requires |ps| == |segments|
    requires forall i :: 0 <= i < |ps| ==>
      ('=' in segments[i] ==> segments[i] == ps[i].0 + "=" + ps[i].1) &&
      ('=' !in segments[i] ==> ps[i].0 == segments[i] && ps[i].1 == segments[i])
    ensures seq(|ps|, i requires 0 <= i < |ps| => Unparse(ps[i], '=' in segments[i])) == segments
  {
  }

  /** Round trip: rebuilding every segment from its pair and joining them with '&'
      gives back the text after the first '?'. */
  lemma QueryParamsRoundTrip(url: string)
    requires '?' in url
    ensures var query := SubstringAfter(url, "?");
      var segments := Split(query, '&');
      var ps := QueryParams(url);
      |ps| == |segments| &&
      Join(seq(|ps|, i requires 0 <= i < |ps| => Unparse(ps[i], '=' in segments[i])), '&') == query
  {
    QueryParamsSegments(url);
    RebuildSegments(Split(SubstringAfter(url, "?"), '&'), QueryParams(url));
  }

  /** For an absolute URL `a + "://" + h + "/" + rest` whose prefix `a` holds no "://"
      and whose host `h` holds no '/', the host is `h`. */
  lemma {:induction false} HostOfAbsoluteUrl(a: string, h: string, rest: string)
    requires !Contains(a, "://")
    requires '/' !in h
    ensures Host(a + "://" + h + "/" + rest) == h
  {
    var url := a + "://" + h + "/" + rest;
    var tail := h + "/" + rest;
    assert url == a + "://" + tail;
    FirstSchemeSeparator(a, tail);
    CutAt(a, "://", tail);
    CutAtChar(h, '/', rest);
  }

  /** The first "://" in `a + "://" + tail` is the one after `a` when `a` holds none:
      an occurrence straddling the end of `a` would need ':' to equal '/'. */
  lemma {:induction false} FirstSchemeSeparator(a: string, tail: string)
    requires !Contains(a, "://")
    ensures forall j :: 0 <= j < |a| ==> !OccursAt(a + "://" + tail, "://", j)
  {
    var url := a + "://" + tail;
    forall j | 0 <= j < |a| ensures !OccursAt(url, "://", j) {
      if j + 3 <= |a| {
        assert url[j..j + 3] == a[j..j + 3];
        assert !OccursAt(a, "://", j);
      } else {
        assert url[j..j + 3][|a| - j] == url[|a|] == ':' != "://"[|a| - j];
      }
    }
  }

  /** The host text is first found after "://" when its first character is neither
      in the prefix `a` nor one of ':' and '/'. */
  lemma {:induction false} HostFoundAfterScheme(a: string, h: string, rest: string)
    requires |h| > 0 && h[0] !in a && h[0] != ':' && h[0] != '/'
    ensures SubstringAfter(a + "://" + h + "/" + rest, h) == "/" + rest
  {
    var pre := a + "://";
    var tail := "/" + rest;
    var url := pre + h + tail;
    assert url == a + "://" + h + "/" + rest;
    assert h[0] !in url[..|pre|] by {
      assert url[..|pre|] == pre;
    }
    NoOccurrenceBefore(url, h, |pre|);
    CutAt(pre, h, tail);
  }

  /** For an absolute URL whose host is non-empty and whose first host character does
      not occur before the "://" (so the host text is first found after it), the path
      is '/' followed by the rest up to its first '?'. */
  lemma {:induction false} PathOfAbsoluteUrl(a: string, h: string, rest: string)
    requires !Contains(a, "://")
    requires '/' !in h
    requires |h| > 0 && h[0] !in a && h[0] != ':'
    ensures Path(a + "://" + h + "/" + rest) == "/" + SubstringBefore(rest, "?")
  {
    var url := a + "://" + h + "/" + rest;
    HostOfAbsoluteUrl(a, h, rest);
    HostFoundAfterScheme(a, h, rest);
    PathIsAfterHost(url);
    BeforeCharCons('/', rest, '?');
  }
}
