/** The handful of Kotlin standard-library string and collection operations the
    web server is built from, modelled on `seq<char>` exactly as Kotlin defines
    them: search is for the first occurrence, a missing delimiter makes both
    `substringBefore` and `substringAfter` return the whole receiver, and
    `split` keeps empty pieces. */
module KotlinStrings {

  datatype Option<T> = None | Some(value: T)

  /** `pat` occurs in `s` starting at index `k`. */
  predicate OccursAt(s: string, pat: string, k: nat) {
    k + |pat| <= |s| && s[k..k + |pat|] == pat
  }

  /** The first occurrence of `pat` in `s` at or after index `i`
      (Java's `String.indexOf(String, int)`). */
  function IndexFrom(s: string, pat: string, i: nat): (r: Option<nat>)
    ensures r.Some? ==> i <= r.value && OccursAt(s, pat, r.value)
    ensures r.Some? ==> forall j :: i <= j < r.value ==> !OccursAt(s, pat, j)
    ensures r.None? ==> forall j :: i <= j ==> !OccursAt(s, pat, j)
    decreases |s| - i
  {
    if i + |pat| > |s| then None
    else if s[i..i + |pat|] == pat then Some(i)
    else IndexFrom(s, pat, i + 1)
  }

  /** `indexOf`: the index of the first occurrence of `pat`, or None for Kotlin's -1.
      The empty pattern occurs at index 0. */
  function IndexOf(s: string, pat: string): (r: Option<nat>)
    ensures r.Some? <==> exists k :: OccursAt(s, pat, k)
    ensures r.Some? ==> OccursAt(s, pat, r.value) && forall j :: 0 <= j < r.value ==> !OccursAt(s, pat, j)
    ensures pat == [] ==> r == Some(0)
  {
    assert pat == [] ==> OccursAt(s, pat, 0);
    IndexFrom(s, pat, 0)
  }

  /** `contains`: true exactly when `indexOf` finds the pattern. */
  function Contains(s: string, pat: string): (b: bool)
    ensures b <==> exists k :: OccursAt(s, pat, k)
  {
    IndexOf(s, pat).Some?
  }

  /** `substringBefore`: the text before the first occurrence of `d`, or the whole
      receiver when `d` does not occur. */
  function SubstringBefore(s: string, d: string): (r: string)
    ensures |r| <= |s| && r == s[..|r|]
    ensures Contains(s, d) ==> OccursAt(s, d, |r|) && forall j :: 0 <= j < |r| ==> !OccursAt(s, d, j)
    ensures !Contains(s, d) ==> r == s
  {
    match IndexOf(s, d)
    case None => s
    case Some(k) => s[..k]
  }

  /** `substringAfter`: the text after the first occurrence of `d` (the one `indexOf`
      finds), or the whole receiver when `d` does not occur. */
  function SubstringAfter(s: string, d: string): (r: string)
    ensures |r| <= |s| && r == s[|s| - |r|..]
    ensures Contains(s, d) ==> |r| + |d| <= |s| && IndexOf(s, d) == Some(|s| - |r| - |d|)
    ensures !Contains(s, d) ==> r == s
  {
    match IndexOf(s, d)
    case None => s
    case Some(k) => s[k + |d|..]
  }

  /** `substringAfter` resumes right after the first occurrence. */
  lemma AfterFirst(s: string, d: string, k: nat)
    requires IndexOf(s, d) == Some(k)
    ensures k + |d| <= |s| && SubstringAfter(s, d) == s[k + |d|..]
  {
  }

  /** The text of `s` from `e` up to the next `c` is a `c`-free slice of `s`, followed
      by `c` or by the end. */
  lemma BeforeCharFrom(s: string, e: nat, c: char)
    requires e <= |s|
    ensures var r := SubstringBefore(s[e..], [c]);
      e + |r| <= |s| && r == s[e..e + |r|] && c !in r && (e + |r| < |s| ==> s[e + |r|] == c)
  {
    var rest := s[e..];
    BeforeChar(rest, c);
    var r := SubstringBefore(rest, [c]);
    assert rest[..|r|] == s[e..e + |r|];
    if |r| < |rest| {
      assert rest[|r|] == s[e + |r|];
    }
  }

  /** The text after the first `d` and before the next `c` is the slice of `s` that
      starts right after that `d` and stops at the first `c` or at the end. */
  lemma AfterThenBeforeChar(s: string, d: string, k: nat, c: char)
    requires IndexOf(s, d) == Some(k)
    ensures var e := k + |d|; var r := SubstringBefore(SubstringAfter(s, d), [c]);
      e + |r| <= |s| && r == s[e..e + |r|] && c !in r && (e + |r| < |s| ==> s[e + |r|] == c)
  {
    AfterFirst(s, d, k);
    BeforeCharFrom(s, k + |d|, c);
  }

  /** The empty delimiter is found at index 0: nothing comes before it and the whole
      text comes after it. */
  lemma EmptyDelimiter(s: string)
    ensures SubstringBefore(s, []) == [] && SubstringAfter(s, []) == s
  {
    assert IndexOf(s, []) == Some(0);
  }

  /** A one-character pattern occurs exactly where that character is. */
  lemma OccursAtChar(s: string, c: char, k: nat)
    ensures OccursAt(s, [c], k) <==> k < |s| && s[k] == c
  {
    if k < |s| && s[k] == c {
      assert s[k..k + 1] == [c];
    }
  }

  /** Kotlin's `contains(Char)` is Dafny's `in`. */
  lemma ContainsChar(s: string, c: char)
    ensures Contains(s, [c]) <==> c in s
  {
    if c in s {
      var k :| 0 <= k < |s| && s[k] == c;
      OccursAtChar(s, c, k);
    }
    if Contains(s, [c]) {
      var k :| OccursAt(s, [c], k);
      OccursAtChar(s, c, k);
    }
  }

  /** What `substringBefore(c)` leaves: a `c`-free prefix, followed by `c` exactly
      when `c` occurs in `s`. */
  lemma BeforeChar(s: string, c: char)
    ensures var r := SubstringBefore(s, [c]);
      c !in r && (|r| < |s| <==> c in s) && (|r| < |s| ==> s[|r|] == c)
  {
    ContainsChar(s, c);
    var r := SubstringBefore(s, [c]);
    forall j | 0 <= j < |r| ensures r[j] != c {
      OccursAtChar(s, c, j);
    }
    OccursAtChar(s, c, |r|);
  }

  /** Cutting `x + [c] + y` at its first `c`, when `x` holds no `c`, gives back `x` and `y`. */
  lemma {:induction false} CutAtChar(x: string, c: char, y: string)
    requires c !in x
    ensures SubstringBefore(x + [c] + y, [c]) == x
    ensures SubstringAfter(x + [c] + y, [c]) == y
  {
    var s := x + [c] + y;
    OccursAtChar(s, c, |x|);
    forall j | 0 <= j < |x| ensures !OccursAt(s, [c], j) {
      OccursAtChar(s, c, j);
      assert s[j] == x[j];
    }
    assert IndexOf(s, [c]) == Some(|x|);
  }

  /** When the character `c` is absent, cutting at it gives back the whole text. */
  lemma {:induction false} CutAtAbsentChar(x: string, c: char)
    requires c !in x
    ensures !Contains(x, [c])
    ensures SubstringBefore(x, [c]) == x && SubstringAfter(x, [c]) == x
  {
    ContainsChar(x, c);
  }

  /** Cutting at the first occurrence of `d` in `x + d + y` when `d` does not occur
      earlier than the end of `x`. */
  lemma {:induction false} CutAt(x: string, d: string, y: string)
    requires forall j :: 0 <= j < |x| ==> !OccursAt(x + d + y, d, j)
    ensures SubstringBefore(x + d + y, d) == x
    ensures SubstringAfter(x + d + y, d) == y
  {
    var s := x + d + y;
    assert s[|x|..|x| + |d|] == d;
    assert OccursAt(s, d, |x|);
    assert IndexOf(s, d) == Some(|x|);
    assert s[|x| + |d|..] == y;
  }

  /** A pattern whose first character does not appear in `s[..k]` has no occurrence before `k`. */
  lemma {:induction false} NoOccurrenceBefore(s: string, pat: string, k: nat)
    requires |pat| > 0 && k <= |s| && pat[0] !in s[..k]
    ensures forall j :: 0 <= j < k ==> !OccursAt(s, pat, j)
  {
    forall j | 0 <= j < k ensures !OccursAt(s, pat, j) {
      assert s[..k][j] == s[j];
      if j + |pat| <= |s| {
        assert s[j..j + |pat|][0] == s[j] != pat[0];
      }
    }
  }

  /** Text that holds `c` is its part before the first `c`, that `c`, and the rest. */
  lemma {:induction false} AroundFirstChar(s: string, c: char)
    requires c in s
    ensures var pre := SubstringBefore(s, [c]);
      c !in pre && |pre| < |s| && s == pre + [c] + s[|pre| + 1..]
  {
    BeforeChar(s, c);
    var pre := SubstringBefore(s, [c]);
    assert s == s[..|pre|] + [s[|pre|]] + s[|pre| + 1..];
  }

  /** Cutting text that starts with a character other than `c` keeps that first character. */
  lemma {:induction false} BeforeCharCons(x: char, s: string, c: char)
    requires x != c
    ensures SubstringBefore([x] + s, [c]) == [x] + SubstringBefore(s, [c])
  {
    if c in s {
      AroundFirstChar(s, c);
      var pre := SubstringBefore(s, [c]);
      var post := s[|pre| + 1..];
      assert [x] + s == ([x] + pre) + [c] + post;
      CutAtChar([x] + pre, c, post);
    } else {
      CutAtAbsentChar(s, c);
      CutAtAbsentChar([x] + s, c);
    }
  }

  /** The number of occurrences of `c` in `s`. */
  function Count(s: string, c: char): nat {
    multiset(s)[c]
  }

  /** Kotlin's `joinToString(separator)`: the pieces with `c` between neighbours. */
  function Join(pieces: seq<string>, c: char): string {
    if |pieces| == 0 then []
    else if |pieces| == 1 then pieces[0]
    else pieces[0] + [c] + Join(pieces[1..], c)
  }

  /** `split(c)`: the maximal `c`-free pieces of `s`, empty pieces included, so one
      more piece than there are `c`s; joining them with `c` gives back `s`. */
  function Split(s: string, c: char): (r: seq<string>)
    ensures |r| == Count(s, c) + 1
    ensures forall i :: 0 <= i < |r| ==> c !in r[i]
    ensures Join(r, c) == s
    decreases |s|
  {
    match IndexOf(s, [c])
    case None =>
      ContainsChar(s, c);
      [s]
    case Some(k) =>
      OccursAtChar(s, c, k);
      assert c !in s[..k] by {
        forall j | 0 <= j < k ensures s[..k][j] != c {
          OccursAtChar(s, c, j);
        }
      }
      assert s == s[..k] + [c] + s[k + 1..];
      [s[..k]] + Split(s[k + 1..], c)
  }

  /** Splitting undoes joining: pieces free of `c`, joined with `c`, split back into themselves. */
  lemma {:induction false} SplitJoin(pieces: seq<string>, c: char)
    requires |pieces| >= 1
    requires forall i :: 0 <= i < |pieces| ==> c !in pieces[i]
    ensures Split(Join(pieces, c), c) == pieces
  {
    if |pieces| == 1 {
      SplitAbsent(pieces[0], c);
    } else {
      var tail := pieces[1..];
      JoinCons(pieces, c);
      SplitCons(pieces[0], c, Join(tail, c));
      SplitJoin(tail, c);
    }
  }

  /** Joining two or more pieces puts the first piece and `c` before the join of the rest,
      and the pieces are the first one followed by the rest. */
  lemma JoinCons(pieces: seq<string>, c: char)
    requires |pieces| >= 2
    ensures Join(pieces, c) == pieces[0] + [c] + Join(pieces[1..], c)
    ensures pieces == [pieces[0]] + pieces[1..]
  {
  }

  /** Splitting `x + [c] + y` at `c` when `x` has no `c`. */
  lemma {:induction false} SplitCons(x: string, c: char, y: string)
    requires c !in x
    ensures Split(x + [c] + y, c) == [x] + Split(y, c)
  {
    var s := x + [c] + y;
    OccursAtChar(s, c, |x|);
    forall j | 0 <= j < |x| ensures !OccursAt(s, [c], j) {
      OccursAtChar(s, c, j);
      assert s[j] == x[j];
    }
    assert IndexOf(s, [c]) == Some(|x|);
    assert s[..|x|] == x && s[|x| + 1..] == y;
  }

  /** Splitting text with no `c` gives the text itself as the only piece. */
  lemma {:induction false} SplitAbsent(x: string, c: char)
    requires c !in x
    ensures Split(x, c) == [x]
  {
    CutAtAbsentChar(x, c);
    assert IndexOf(x, [c]).None?;
  }

  /** Kotlin's `toMap()`: the pairs are put into the map in order, so a later pair
      overwrites an earlier one with the same key. */
  function ToMapInto(acc: map<string, string>, ps: seq<(string, string)>): (r: map<string, string>)
    ensures r.Keys == acc.Keys + set i | 0 <= i < |ps| :: ps[i].0
    decreases |ps|
  {
    if ps == [] then acc
    else
      assert (set i | 0 <= i < |ps| :: ps[i].0) == {ps[0].0} + set i | 0 <= i < |ps[1..]| :: ps[1..][i].0 by {
        forall i | 0 < i < |ps| ensures ps[i] == ps[1..][i - 1] { }
      }
      ToMapInto(acc[ps[0].0 := ps[0].1], ps[1..])
  }

  /** The map `toMap()` builds: its keys are exactly the keys of the pairs. */
  function ToMap(ps: seq<(string, string)>): (r: map<string, string>)
    ensures r.Keys == set i | 0 <= i < |ps| :: ps[i].0
  {
    ToMapInto(map[], ps)
  }

  /** The value of the last pair whose key is `key`, read out of the list itself. */
  function LastValue(ps: seq<(string, string)>, key: string): (r: Option<string>)
    ensures r.None? <==> forall i :: 0 <= i < |ps| ==> ps[i].0 != key
    ensures r.Some? ==> exists i :: 0 <= i < |ps| && ps[i] == (key, r.value) &&
                                    forall j :: i < j < |ps| ==> ps[j].0 != key
    decreases |ps|
  {
    if ps == [] then None
    else
      match LastValue(ps[1..], key)
      case Some(v) =>
        var i :| 0 <= i < |ps[1..]| && ps[1..][i] == (key, v) &&
                 forall j :: i < j < |ps[1..]| ==> ps[1..][j].0 != key;
        assert ps[i + 1] == (key, v);
        assert forall j :: i + 1 < j < |ps| ==> ps[j].0 != key by {
          forall j | i + 1 < j < |ps| ensures ps[j].0 != key {
            assert ps[j] == ps[1..][j - 1];
          }
        }
        Some(v)
      case None =>
        assert forall j :: 0 < j < |ps| ==> ps[j].0 != key by {
          forall j | 0 < j < |ps| ensures ps[j].0 != key {
            assert ps[j] == ps[1..][j - 1];
          }
        }
        if ps[0].0 == key then Some(ps[0].1) else None
  }

  /** Conversely, a pair with no later pair of the same key is the one `LastValue` finds. */
  lemma LastValueAt(ps: seq<(string, string)>, key: string, i: nat, v: string)
    requires i < |ps| && ps[i] == (key, v)
    requires forall j :: i < j < |ps| ==> ps[j].0 != key
    ensures LastValue(ps, key) == Some(v)
  {
    var r := LastValue(ps, key);
    var k :| 0 <= k < |ps| && ps[k] == (key, r.value) && forall j :: k < j < |ps| ==> ps[j].0 != key;
    assert k == i;
  }

  /** Putting pairs into `acc` in order: a key is looked up in the last pair that has it,
      or in `acc` when no pair has it. */
  lemma {:induction false} ToMapIntoLast(acc: map<string, string>, ps: seq<(string, string)>, key: string)
    ensures key in ToMapInto(acc, ps) <==> LastValue(ps, key).Some? || key in acc
    ensures key in ToMapInto(acc, ps) ==>
      ToMapInto(acc, ps)[key] == if LastValue(ps, key).Some? then LastValue(ps, key).value else acc[key]
    decreases |ps|
  {
    if ps != [] {
      ToMapIntoLast(acc[ps[0].0 := ps[0].1], ps[1..], key);
    }
  }

  /** `toMap()` keeps, for each key, the value of the last pair with that key. */
  lemma ToMapLast(ps: seq<(string, string)>, key: string)
    ensures key in ToMap(ps) <==> LastValue(ps, key).Some?
    ensures key in ToMap(ps) ==> ToMap(ps)[key] == LastValue(ps, key).value
  {
    ToMapIntoLast(map[], ps, key);
  }

  /** Upper case of one character, ASCII letters only. */
  function UpperChar(c: char): (u: char)
    ensures !('a' <= u <= 'z')
    ensures 'a' <= c <= 'z' ==> u as int == c as int - 32
    ensures !('a' <= c <= 'z') ==> u == c
  {
    if 'a' <= c <= 'z' then (c as int - 32) as char else c
  }

  /** `uppercase()`, restricted to ASCII: every letter a-z becomes A-Z, all else is kept. */
  function Uppercase(s: string): (r: string)
    ensures |r| == |s| && forall i :: 0 <= i < |s| ==> r[i] == UpperChar(s[i])
    decreases |s|
  {
    if s == [] then [] else [UpperChar(s[0])] + Uppercase(s[1..])
  }

  /** Upper-casing works piece by piece. */
  lemma {:induction false} UppercaseAppend(s: string, t: string)
    ensures Uppercase(s + t) == Uppercase(s) + Uppercase(t)
    decreases |s|
  {
    if s != [] {
      assert (s + t)[1..] == s[1..] + t;
      UppercaseAppend(s[1..], t);
    }
  }
}
