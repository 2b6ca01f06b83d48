/** Global literal substitution, as `sed 's/old/new/g'` performs it, and the
    relation between running several substitutions one after another and
    running all of them at once. */
module Substitution {

  /** `sed 's/p/r/g'` for a pattern without metacharacters: matches are taken
      from left to right, do not overlap, and inserted text is not rescanned. */
  function ReplaceAll(s: string, p: string, r: string): string
    requires p != ""
    decreases |s|
  {
    if s == "" then ""
    else if p <= s then r + ReplaceAll(s[|p|..], p, r)
    else [s[0]] + ReplaceAll(s[1..], p, r)
  }

  /** The first of `ns` that `s` starts with, or "" when there is none. */
  function FirstMatch(ns: seq<string>, s: string): (m: string)
    ensures m != "" ==> m in ns && m <= s
  {
    if ns == [] then "" else if ns[0] <= s then ns[0] else FirstMatch(ns[1..], s)
  }

  /** All names at once: `sed 's/n0\|n1\|.../r/g'`. */
  function ReplaceAny(s: string, ns: seq<string>, r: string): string
    decreases |s|
  {
    if s == "" then ""
    else
      var m := FirstMatch(ns, s);
      if m != "" then r + ReplaceAny(s[|m|..], ns, r)
      else [s[0]] + ReplaceAny(s[1..], ns, r)
  }

  predicate NonEmpty(ns: seq<string>) { forall i | 0 <= i < |ns| :: ns[i] != "" }

  /** One pass per name, in list order. */
  function ReplaceEach(s: string, ns: seq<string>, r: string): string
    requires NonEmpty(ns)
    decreases |ns|
  {
    if ns == [] then s else ReplaceEach(ReplaceAll(s, ns[0], r), ns[1..], r)
  }

  /** `p` occurs in `s` at index `i`. */
  predicate OccursAt(p: string, s: string, i: nat) { i <= |s| && p <= s[i..] }

  /** Python's `p in s`. */
  predicate Occurs(p: string, s: string) { exists i: nat | i <= |s| :: OccursAt(p, s, i) }

  predicate Distinct(ns: seq<string>) { forall i, j | 0 <= i < j < |ns| :: ns[i] != ns[j] }

  // ---------------------------------------------------------------------
  // Overlaps
  // ---------------------------------------------------------------------

  /** `n`, placed so that it starts `d` characters after the start of `r`, agrees
      with `r` wherever both stand. They share a place, or `r` is empty and
      stands inside `n`. This covers `n` inside `r`, `r` inside `n`, an end of `r`
      that starts `n` and a start of `r` that ends `n`. */
  predicate OverlapAt(n: string, r: string, d: int) {
    -|n| < d < |r| && forall k | 0 <= k < |r| && d <= k < d + |n| :: n[k - d] == r[k]
  }

  /** `n` and `r` overlap nowhere, except that they may be the same text at the
      same place. */
  predicate Clear(n: string, r: string) {
    forall d | -|n| < d < |r| && OverlapAt(n, r, d) :: d == 0 && n == r
  }

  predicate ClearOf(ns: seq<string>, r: string) { forall i | 0 <= i < |ns| :: Clear(ns[i], r) }

  /** No two different names overlap. */
  predicate Apart(ns: seq<string>) {
    forall i, j | 0 <= i < |ns| && 0 <= j < |ns| && ns[i] != ns[j] :: Clear(ns[i], ns[j])
  }

  /** Two texts that stand in `s` and share a place overlap. */
  lemma Meet(n: string, i: nat, r: string, j: nat, s: string)
    requires i <= |s| && j <= |s| && n <= s[i..] && r <= s[j..] && -|n| < i - j < |r|
    ensures OverlapAt(n, r, i - j)
  {
    forall k | 0 <= k < |r| && i - j <= k < i - j + |n| ensures n[k - (i - j)] == r[k] {
      assert r[k] == s[j..][k] == s[j + k];
      assert n[k - (i - j)] == s[i..][k - (i - j)] == s[j + k];
    }
  }

  /** A name that is clear of a text is not found where the text stands, unless
      it is that text. */
  lemma NotFound(n: string, i: nat, r: string, j: nat, s: string)
    requires Clear(n, r) && i <= |s| && j <= |s| && r <= s[j..] && -|n| < i - j < |r|
    ensures n <= s[i..] ==> i == j && n == r
  {
    if n <= s[i..] { Meet(n, i, r, j, s); }
  }

  lemma ApartPair(ns: seq<string>, m: string, n: string)
    requires Apart(ns) && m in ns && n in ns && m != n
    ensures Clear(m, n)
  {
  }

  lemma ApartSub(ms: seq<string>, ns: seq<string>)
    requires Apart(ns) && forall m | m in ms :: m in ns
    ensures Apart(ms)
  {
    hide Clear;
    forall i, j | 0 <= i < |ms| && 0 <= j < |ms| && ms[i] != ms[j] ensures Clear(ms[i], ms[j]) {
      ApartPair(ns, ms[i], ms[j]);
    }
  }

  lemma ClearSub(ms: seq<string>, ns: seq<string>, r: string)
    requires ClearOf(ns, r) && forall m | m in ms :: m in ns
    ensures ClearOf(ms, r)
  {
    hide Clear;
    forall i | 0 <= i < |ms| ensures Clear(ms[i], r) {
      assert ms[i] in ns;
    }
  }

  // ---------------------------------------------------------------------
  // Matches
  // ---------------------------------------------------------------------

  lemma {:induction false} SingleIsAny(s: string, p: string, r: string)
    requires p != ""
    ensures ReplaceAll(s, p, r) == ReplaceAny(s, [p], r)
    decreases |s|
  {
    if s != "" {
      assert FirstMatch([p], s) == if p <= s then p else "";
      if p <= s { SingleIsAny(s[|p|..], p, r); } else { SingleIsAny(s[1..], p, r); }
    }
  }

  lemma {:induction false} MatchFound(ns: seq<string>, n: string, t: string)
    requires NonEmpty(ns) && n in ns && n <= t
    ensures FirstMatch(ns, t) != ""
    decreases |ns|
  {
    if !(ns[0] <= t) { assert n in ns[1..]; MatchFound(ns[1..], n, t); }
  }

  /** Among names that are apart at most one stands at a place. */
  lemma OnlyMatch(ns: seq<string>, n: string, t: string)
    requires NonEmpty(ns) && Apart(ns) && n in ns && n <= t
    ensures FirstMatch(ns, t) == n
  {
    var m := FirstMatch(ns, t);
    MatchFound(ns, n, t);
    if m != n {
      ApartPair(ns, m, n);
      assert t[0..] == t;
      NotFound(m, 0, n, 0, t);
    }
  }

  lemma AnyStep(s: string, ns: seq<string>, r: string)
    requires s != ""
    ensures var m := FirstMatch(ns, s);
      ReplaceAny(s, ns, r) == if m != "" then r + ReplaceAny(s[|m|..], ns, r) else [s[0]] + ReplaceAny(s[1..], ns, r)
  {
  }

  /** Text without a match in front of other text. */
  lemma {:induction false} SkipFree(x: string, y: string, ns: seq<string>, r: string)
    requires forall i | 0 <= i < |x| :: FirstMatch(ns, (x + y)[i..]) == ""
    ensures ReplaceAny(x + y, ns, r) == x + ReplaceAny(y, ns, r)
    decreases |x|
  {
    hide FirstMatch, ReplaceAny;
    if x == "" {
      assert x + y == y;
    } else {
      var t, rest := x + y, x[1..] + y;
      assert t[0..] == t && t[1..] == rest && t[0] == x[0];
      forall i | 0 <= i < |x[1..]| ensures FirstMatch(ns, rest[i..]) == "" { assert rest[i..] == t[i + 1..]; }
      AnyStep(t, ns, r);
      SkipFree(x[1..], y, ns, r);
      FirstBack(x, ReplaceAny(y, ns, r));
    }
  }

  lemma FirstBack(x: string, y: string)
    requires x != ""
    ensures [x[0]] + (x[1..] + y) == x + y
  {
  }

  /** The text up to the first match, and the rest. */
  lemma {:induction false} SplitAtMatch(s: string, ns: seq<string>) returns (x: string, y: string)
    ensures s == x + y && (y != "" ==> FirstMatch(ns, y) != "")
    ensures forall i | 0 <= i < |x| :: FirstMatch(ns, s[i..]) == ""
    decreases |s|
  {
    hide FirstMatch;
    if s == "" || FirstMatch(ns, s) != "" {
      x, y := "", s;
    } else {
      var x1, y1 := SplitAtMatch(s[1..], ns);
      x, y := [s[0]] + x1, y1;
      assert s[0..] == s;
      forall i | 0 <= i < |x| ensures FirstMatch(ns, s[i..]) == "" {
        if i > 0 { assert s[i..] == s[1..][i - 1..]; }
      }
    }
  }

  /** What a substitution makes of the text around the first match. */
  lemma AnyAtMatch(s: string, ns: seq<string>, r: string) returns (x: string, y: string)
    ensures s == x + y && x <= ReplaceAny(s, ns, r) && (y == "" ==> ReplaceAny(s, ns, r) == s)
    ensures y != "" ==> FirstMatch(ns, y) != "" && r <= ReplaceAny(s, ns, r)[|x|..]
    ensures forall i | 0 <= i < |x| :: FirstMatch(ns, s[i..]) == ""
  {
    hide FirstMatch, ReplaceAny;
    x, y := SplitAtMatch(s, ns);
    SkipFree(x, y, ns, r);
    AnyOfEmpty(ns, r);
    if y != "" { AnyStep(y, ns, r); }
  }

  /** A name that is clear of the inserted text and stands at the front
      afterwards stood there before. */
  lemma FrontSurvives(m: string, s: string, ns: seq<string>, r: string)
    requires m != "" && Clear(m, r) && FirstMatch(ns, s) == ""
    requires m <= ReplaceAny(s, ns, r)
    ensures m <= s
  {
    hide FirstMatch, ReplaceAny;
    var t := ReplaceAny(s, ns, r);
    var x, y := AnyAtMatch(s, ns, r);
    if y != "" {
      assert x == "" ==> y == s;
      if |m| <= |x| {
        assert m == t[..|m|] == x[..|m|];
      } else {
        assert t[0..] == t;
        NotFound(m, 0, r, |x|, t);
      }
    }
  }

  // ---------------------------------------------------------------------
  // One after another equals all at once
  // ---------------------------------------------------------------------

  /** Inserted text is not searched with any gain by names clear of it. */
  lemma SkipInserted(v: string, ns: seq<string>, r: string)
    requires NonEmpty(ns) && ClearOf(ns, r)
    ensures ReplaceAny(r + v, ns, r) == r + ReplaceAny(v, ns, r)
  {
    var t := r + v;
    assert t[0..] == t && r <= t[0..];
    forall i | 0 <= i < |r| ensures FirstMatch(ns, t[i..]) == "" || (i == 0 && FirstMatch(ns, t[i..]) == r) {
      var m := FirstMatch(ns, t[i..]);
      if m != "" { NotFound(m, i, r, 0, t); }
    }
    hide FirstMatch;
    if r != "" && FirstMatch(ns, t) == r {
      AnyStep(t, ns, r);
      assert t[|r|..] == v;
    } else {
      SkipFree(r, v, ns, r);
    }
  }

  /** A pass for another name leaves a name at the front where it is. */
  lemma KeepsFront(m: string, s: string, n: string, r: string)
    requires m != "" && n != "" && m <= s && !(n <= s) && Clear(n, m)
    ensures ReplaceAny(s, [n], r) == m + ReplaceAny(s[|m|..], [n], r)
  {
    assert s == m + s[|m|..] && s[0..] == s;
    forall i | 0 <= i < |m| ensures FirstMatch([n], s[i..]) == "" {
      assert FirstMatch([n], s[i..]) == if n <= s[i..] then n else "";
      NotFound(n, i, m, 0, s);
    }
    hide FirstMatch;
    SkipFree(m, s[|m|..], [n], r);
  }

  /** One pass, then all other names at once. */
  lemma {:induction false} PassThenAny(s: string, n: string, ns: seq<string>, r: string)
    requires n != "" && NonEmpty(ns) && ClearOf(ns, r) && Apart([n] + ns)
    ensures ReplaceAny(ReplaceAny(s, [n], r), ns, r) == ReplaceAny(s, [n] + ns, r)
    decreases |s|
  {
    hide Clear, Apart, ClearOf;
    if s != "" {
      var all, m := [n] + ns, FirstMatch(ns, s);
      assert FirstMatch([n], s) == if n <= s then n else "";
      assert all[1..] == ns;
      assert FirstMatch(all, s) == if n <= s then n else m;
      if n <= s {
        hide FirstMatch, ReplaceAny;
        PassMatched(s, n, ns, r);
        PassThenAny(s[|n|..], n, ns, r);
      } else if m != "" {
        hide FirstMatch, ReplaceAny;
        assert n in all && m in all && m != n;
        ApartPair(all, n, m);
        ApartSub(ns, all);
        KeepsFront(m, s, n, r);
        var v := ReplaceAny(s[|m|..], [n], r);
        OnlyMatch(ns, m, m + v);
        AnyStep(m + v, ns, r);
        assert (m + v)[|m|..] == v;
        AnyStep(s, all, r);
        PassThenAny(s[|m|..], n, ns, r);
      } else {
        PassUnmatched(s, n, ns, r);
        hide FirstMatch, ReplaceAny;
        AnyStep(s, all, r);
        PassThenAny(s[1..], n, ns, r);
      }
    }
  }

  lemma PassMatched(s: string, n: string, ns: seq<string>, r: string)
    requires n != "" && n <= s && NonEmpty(ns) && ClearOf(ns, r)
    ensures ReplaceAny(ReplaceAny(s, [n], r), ns, r) == r + ReplaceAny(ReplaceAny(s[|n|..], [n], r), ns, r)
    ensures ReplaceAny(s, [n] + ns, r) == r + ReplaceAny(s[|n|..], [n] + ns, r)
  {
    assert FirstMatch([n], s) == n && FirstMatch([n] + ns, s) == n;
    hide FirstMatch, ReplaceAny, ClearOf;
    AnyStep(s, [n], r);
    AnyStep(s, [n] + ns, r);
    SkipInserted(ReplaceAny(s[|n|..], [n], r), ns, r);
  }

  lemma PassUnmatched(s: string, n: string, ns: seq<string>, r: string)
    requires n != "" && s != "" && NonEmpty(ns) && ClearOf(ns, r) && !(n <= s) && FirstMatch(ns, s) == ""
    ensures ReplaceAny(ReplaceAny(s, [n], r), ns, r) == [s[0]] + ReplaceAny(ReplaceAny(s[1..], [n], r), ns, r)
  {
    assert FirstMatch([n], s) == "";
    hide FirstMatch, ReplaceAny, Clear;
    var t := ReplaceAny(s, [n], r);
    AnyStep(s, [n], r);
    var m := FirstMatch(ns, t);
    if m != "" {
      FrontSurvives(m, s, [n], r);
      MatchFound(ns, m, s);
    }
    AnyStep(t, ns, r);
    assert t[1..] == ReplaceAny(s[1..], [n], r);
  }

  lemma {:induction false} AnyOfNone(s: string, r: string)
    ensures ReplaceAny(s, [], r) == s
    decreases |s|
  {
    if s != "" { AnyOfNone(s[1..], r); }
  }

  /** Main theorem, sufficient direction: when names do not overlap each other
      and every name but the first is clear of the inserted text, the passes do
      not interfere. One name on its own is unrestricted. */
  lemma {:induction false} EachIsAny(s: string, ns: seq<string>, r: string)
    requires NonEmpty(ns) && Apart(ns) && (ns != [] ==> ClearOf(ns[1..], r))
    ensures ReplaceEach(s, ns, r) == ReplaceAny(s, ns, r)
    decreases |ns|
  {
    hide Apart, Clear, ClearOf, ReplaceAny, ReplaceAll;
    if ns == [] {
      AnyOfNone(s, r);
    } else {
      var rest := ns[1..];
      assert ns == [ns[0]] + rest;
      ApartSub(rest, ns);
      if rest != [] { ClearSub(rest[1..], rest, r); }
      SingleIsAny(s, ns[0], r);
      EachIsAny(ReplaceAll(s, ns[0], r), rest, r);
      PassThenAny(s, ns[0], rest, r);
    }
  }

  // ---------------------------------------------------------------------
  // Order, repetition, resumption
  // ---------------------------------------------------------------------

  lemma {:induction false} AnyBySet(s: string, ms: seq<string>, ns: seq<string>, r: string)
    requires NonEmpty(ms) && NonEmpty(ns) && Apart(ns)
    requires forall n :: n in ms <==> n in ns
    ensures ReplaceAny(s, ms, r) == ReplaceAny(s, ns, r)
    decreases |s|
  {
    hide Apart, FirstMatch;
    if s != "" {
      ApartSub(ms, ns);
      var m, n := FirstMatch(ms, s), FirstMatch(ns, s);
      if m != "" { OnlyMatch(ns, m, s); }
      if n != "" { OnlyMatch(ms, n, s); }
      AnyBySet(if n != "" then s[|n|..] else s[1..], ms, ns, r);
    }
  }

  /** Any list of passes over the same names, in any order and with any
      repetitions, gives the result of the simultaneous substitution. */
  lemma EachBySet(s: string, ms: seq<string>, ns: seq<string>, r: string)
    requires NonEmpty(ms) && NonEmpty(ns) && Apart(ns) && ClearOf(ns, r)
    requires forall n :: n in ms <==> n in ns
    ensures ReplaceEach(s, ms, r) == ReplaceAny(s, ns, r)
  {
    hide Apart, ClearOf, ReplaceEach, ReplaceAny;
    ApartSub(ms, ns);
    if ms != [] { ClearSub(ms[1..], ns, r); }
    EachIsAny(s, ms, r);
    AnyBySet(s, ms, ns, r);
  }

  lemma {:induction false} EachAppend(s: string, ms: seq<string>, ns: seq<string>, r: string)
    requires NonEmpty(ms) && NonEmpty(ns)
    ensures NonEmpty(ms + ns)
    ensures ReplaceEach(s, ms + ns, r) == ReplaceEach(ReplaceEach(s, ms, r), ns, r)
    decreases |ms|
  {
    hide ReplaceAll;
    if ms == [] {
      assert ms + ns == ns;
    } else {
      assert (ms + ns)[1..] == ms[1..] + ns;
      EachAppend(ReplaceAll(s, ms[0], r), ms[1..], ns, r);
    }
  }

  /** Passes over part of the names, then all of them: the same as all at once.
      With `ms == ns` this says that a second run changes nothing. */
  lemma PartThenAll(s: string, ms: seq<string>, ns: seq<string>, r: string)
    requires NonEmpty(ms) && NonEmpty(ns) && Apart(ns) && ClearOf(ns, r)
    requires forall n | n in ms :: n in ns
    ensures ReplaceEach(ReplaceEach(s, ms, r), ns, r) == ReplaceAny(s, ns, r)
  {
    hide Apart, ClearOf, ReplaceEach, ReplaceAny;
    EachAppend(s, ms, ns, r);
    EachBySet(s, ms + ns, ns, r);
  }

  // ---------------------------------------------------------------------
  // What is left in a text
  // ---------------------------------------------------------------------

  /** Occurrences in `x + y` of a name that does not reach into `x`. */
  lemma OccursPast(n: string, x: string, y: string)
    requires n != "" && forall i: nat | i < |x| :: !OccursAt(n, x + y, i)
    ensures Occurs(n, x + y) <==> Occurs(n, y)
  {
    forall j: nat | j <= |y| ensures OccursAt(n, x + y, |x| + j) <==> OccursAt(n, y, j) {
      assert (x + y)[|x| + j..] == y[j..];
    }
    if i: nat :| i <= |x + y| && OccursAt(n, x + y, i) { assert OccursAt(n, y, i - |x|); }
  }

  lemma OccursFirst(n: string, a: char, y: string)
    requires n != ""
    ensures Occurs(n, [a] + y) <==> n <= [a] + y || Occurs(n, y)
  {
    var s := [a] + y;
    assert s[0..] == s;
    assert OccursAt(n, s, 0) <==> n <= s;
    forall j: nat | j <= |y| ensures OccursAt(n, s, 1 + j) <==> OccursAt(n, y, j) { assert s[1 + j..] == y[j..]; }
    if i: nat :| i <= |s| && OccursAt(n, s, i) && i > 0 { assert OccursAt(n, y, i - 1); }
  }

  /** Behind a text of which the name is clear. */
  lemma OccursBehind(n: string, x: string, y: string)
    requires n != "" && n != x && Clear(n, x)
    ensures Occurs(n, x + y) <==> Occurs(n, y)
  {
    var t := x + y;
    assert t[0..] == t && x <= t[0..];
    forall i: nat | i < |x| ensures !OccursAt(n, t, i) { NotFound(n, i, x, 0, t); }
    OccursPast(n, x, y);
  }

  /** None of the listed names that is clear of the inserted text is left. */
  lemma {:induction false} NoneLeft(s: string, ns: seq<string>, r: string, n: string)
    requires NonEmpty(ns) && n in ns && n != r && Clear(n, r)
    ensures !Occurs(n, ReplaceAny(s, ns, r))
    decreases |s|
  {
    hide Clear, FirstMatch, Occurs;
    if s == "" {
      EmptyHolds(n);
    } else {
      var m := FirstMatch(ns, s);
      AnyStep(s, ns, r);
      if m != "" {
        NoneLeft(s[|m|..], ns, r, n);
        OccursBehind(n, r, ReplaceAny(s[|m|..], ns, r));
      } else {
        NoneLeft(s[1..], ns, r, n);
        var v := ReplaceAny(s[1..], ns, r);
        OccursFirst(n, s[0], v);
        if n <= [s[0]] + v {
          FrontSurvives(n, s, ns, r);
          MatchFound(ns, n, s);
        }
      }
    }
  }

  lemma EmptyHolds(n: string)
    requires n != ""
    ensures !Occurs(n, "")
  {
    assert forall i: nat :: !OccursAt(n, "", i);
  }

  /** Which names are left: exactly those that occurred in the text and were not
      in the list. */
  lemma {:induction false} SurvivesIff(s: string, ns: seq<string>, r: string, n: string)
    requires NonEmpty(ns) && n != "" && n != r && Clear(n, r)
    requires forall m | m in ns && m != n :: Clear(n, m)
    ensures Occurs(n, ReplaceAny(s, ns, r)) <==> n !in ns && Occurs(n, s)
    decreases |s|
  {
    hide Clear, FirstMatch, Occurs, ReplaceAny;
    if n in ns {
      NoneLeft(s, ns, r, n);
    } else if s == "" {
      AnyOfEmpty(ns, r);
    } else {
      var m := FirstMatch(ns, s);
      AnyStep(s, ns, r);
      if m != "" {
        SurvivesIff(s[|m|..], ns, r, n);
        OccursBehind(n, r, ReplaceAny(s[|m|..], ns, r));
        OccursBehind(n, m, s[|m|..]);
        assert s == m + s[|m|..];
      } else {
        SurvivesIff(s[1..], ns, r, n);
        OccursFirst(n, s[0], ReplaceAny(s[1..], ns, r));
        OccursFirst(n, s[0], s[1..]);
        assert s == [s[0]] + s[1..];
        FrontIff(s, ns, r, n);
      }
    }
  }

  lemma AnyOfEmpty(ns: seq<string>, r: string)
    ensures ReplaceAny("", ns, r) == ""
  {
  }

  lemma FrontIff(s: string, ns: seq<string>, r: string, n: string)
    requires NonEmpty(ns) && n != "" && n !in ns && Clear(n, r) && FirstMatch(ns, s) == ""
    requires forall m | m in ns && m != n :: Clear(n, m)
    ensures n <= ReplaceAny(s, ns, r) <==> n <= s
  {
    hide FirstMatch, ReplaceAny;
    var t := ReplaceAny(s, ns, r);
    if n <= t { FrontSurvives(n, s, ns, r); }
    var x, y := AnyAtMatch(s, ns, r);
    if n <= s && y != "" {
      assert s[0..] == s && s[|x|..] == y;
      if |x| < |n| { NotFound(n, 0, FirstMatch(ns, y), |x|, s); }
      assert n == x[..|n|] == t[..|n|];
    }
  }

  lemma Associate(a: string, b: string, c: string)
    ensures a + (b + c) == a + b + c
  {
  }

  // ---------------------------------------------------------------------
  // Lines
  // ---------------------------------------------------------------------

  /** `sed` works line by line; for patterns without a newline that is the same
      as working on the whole text. */
  lemma {:induction false} LineByLine(a: string, b: string, p: string, r: string)
    requires p != "" && '\n' !in p
    ensures ReplaceAll(a + "\n" + b, p, r) == ReplaceAll(a, p, r) + "\n" + ReplaceAll(b, p, r)
    decreases |a|
  {
    NoMatchAcross(a, b, p);
    hide ReplaceAll;
    ReplaceStep(a + "\n" + b, p, r);
    if a == "" {
      DropFront("", b, 0);
      assert ("\n" + b)[0] == '\n' && ("\n" + b)[1..] == b;
      assert "" + "\n" + b == "\n" + b && ReplaceAll("", p, r) == "" by { EmptyText(p, r); }
    } else {
      var n := if p <= a then |p| else 1;
      ReplaceStep(a, p, r);
      DropFront(a, b, n);
      LineByLine(a[n..], b, p, r);
      Weave(if p <= a then r else [a[0]], ReplaceAll(a[n..], p, r), ReplaceAll(b, p, r));
    }
  }

  lemma EmptyText(p: string, r: string)
    requires p != ""
    ensures ReplaceAll("", p, r) == ""
  {
  }

  lemma DropFront(a: string, b: string, n: nat)
    requires n <= |a|
    ensures (a + "\n" + b)[n..] == a[n..] + "\n" + b
    ensures a != "" ==> (a + "\n" + b)[0] == a[0]
  {
  }

  lemma Weave(head: string, x: string, y: string)
    ensures head + (x + "\n" + y) == head + x + "\n" + y
  {
  }

  lemma ReplaceStep(s: string, p: string, r: string)
    requires p != "" && s != ""
    ensures ReplaceAll(s, p, r) ==
      if p <= s then r + ReplaceAll(s[|p|..], p, r) else [s[0]] + ReplaceAll(s[1..], p, r)
  {
  }

  lemma NoMatchAcross(a: string, b: string, p: string)
    requires '\n' !in p
    ensures p <= a + "\n" + b <==> p <= a
  {
    var s := a + "\n" + b;
    assert s[|a|] == '\n';
    if |p| <= |a| { assert s[..|p|] == a[..|p|]; }
  }
}
