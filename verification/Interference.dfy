/** When passes of literal substitution interfere, with each other or with a
    second run: exact conditions, for every inserted text. */
module Interference {
  import opened Substitution

  // ---------------------------------------------------------------------
  // Directions: substitutions that cannot undo one another
  // ---------------------------------------------------------------------

  /** A strict order on texts: by length, or for texts of one length by the first
      place where the keys of their characters differ. */
  datatype Direction = Shorter | Longer | ByKey(key: char -> int)

  predicate LowerAt(key: char -> int, v: string, u: string, h: nat)
    requires |v| == |u| && h < |u|
  {
    key(v[h]) < key(u[h]) && forall k | 0 <= k < h :: key(v[k]) == key(u[k])
  }

  ghost predicate Moved(dir: Direction, u: string, v: string) {
    match dir
    case Shorter => |v| < |u|
    case Longer => |v| > |u|
    case ByKey(key) => |v| == |u| && exists h: nat | h < |u| :: LowerAt(key, v, u, h)
  }

  lemma MovedAway(dir: Direction, u: string, v: string)
    requires Moved(dir, u, v)
    ensures u != v
  {
  }

  lemma MovedOn(dir: Direction, u: string, v: string, w: string)
    requires Moved(dir, u, v) && Moved(dir, v, w)
    ensures Moved(dir, u, w)
  {
    if dir.ByKey? {
      var g: nat :| g < |u| && LowerAt(dir.key, v, u, g);
      var h: nat :| h < |v| && LowerAt(dir.key, w, v, h);
      assert LowerAt(dir.key, w, u, if g < h then g else h);
    }
  }

  /** Equal or moved in the direction. */
  ghost predicate Onward(dir: Direction, u: string, v: string) { u == v || Moved(dir, u, v) }

  lemma MovedFront(dir: Direction, p: string, r: string, u: string, v: string)
    requires Moved(dir, p, r) && Onward(dir, u, v)
    ensures Moved(dir, p + u, r + v)
  {
    if dir.ByKey? {
      var h: nat :| h < |p| && LowerAt(dir.key, r, p, h);
      assert LowerAt(dir.key, r + v, p + u, h);
    }
  }

  lemma MovedBehind(dir: Direction, a: char, u: string, v: string)
    requires Moved(dir, u, v)
    ensures Moved(dir, [a] + u, [a] + v)
  {
    if dir.ByKey? {
      var h: nat :| h < |u| && LowerAt(dir.key, v, u, h);
      assert LowerAt(dir.key, [a] + v, [a] + u, h + 1);
    }
  }

  ghost predicate AllMove(dir: Direction, ns: seq<string>, r: string) {
    forall i | 0 <= i < |ns| :: Moved(dir, ns[i], r)
  }

  ghost predicate NoneIn(ns: seq<string>, s: string) { forall n | n in ns :: !Occurs(n, s) }

  /** When every name moves in one direction, so does every text that holds one;
      the other texts stay. */
  lemma {:induction false} AnyMoves(dir: Direction, s: string, ns: seq<string>, r: string)
    requires NonEmpty(ns) && AllMove(dir, ns, r)
    ensures if NoneIn(ns, s) then ReplaceAny(s, ns, r) == s else Moved(dir, s, ReplaceAny(s, ns, r))
    decreases |s|
  {
    hide Moved, FirstMatch, Occurs, ReplaceAny;
    if s == "" {
      AnyOfEmpty(ns, r);
      forall n | n in ns ensures !Occurs(n, s) { EmptyHolds(n); }
    } else {
      var m := FirstMatch(ns, s);
      AnyStep(s, ns, r);
      assert s == [s[0]] + s[1..];
      if m != "" {
        AnyMoves(dir, s[|m|..], ns, r);
        MovedFront(dir, m, r, s[|m|..], ReplaceAny(s[|m|..], ns, r));
        assert s == m + s[|m|..];
        OccursFirst(m, s[0], s[1..]);
      } else {
        AnyMoves(dir, s[1..], ns, r);
        forall n | n in ns ensures Occurs(n, s) <==> Occurs(n, s[1..]) {
          OccursFirst(n, s[0], s[1..]);
          if n <= s { MatchFound(ns, n, s); }
        }
        if !NoneIn(ns, s[1..]) { MovedBehind(dir, s[0], s[1..], ReplaceAny(s[1..], ns, r)); }
      }
    }
  }

  lemma PassMoves(dir: Direction, s: string, p: string, r: string)
    requires p != "" && Moved(dir, p, r)
    ensures if Occurs(p, s) then Moved(dir, s, ReplaceAll(s, p, r)) else ReplaceAll(s, p, r) == s
  {
    hide Moved, Occurs, ReplaceAny;
    SingleIsAny(s, p, r);
    AnyMoves(dir, s, [p], r);
    assert NoneIn([p], s) <==> !Occurs(p, s) by { assert p in [p]; }
  }

  lemma {:induction false} EachMoves(dir: Direction, s: string, ns: seq<string>, r: string)
    requires NonEmpty(ns) && AllMove(dir, ns, r)
    ensures if NoneIn(ns, s) then ReplaceEach(s, ns, r) == s else Moved(dir, s, ReplaceEach(s, ns, r))
    decreases |ns|
  {
    hide Moved, Occurs, ReplaceAll;
    if ns != [] {
      var t := ReplaceAll(s, ns[0], r);
      assert forall n :: n in ns <==> n == ns[0] || n in ns[1..];
      PassMoves(dir, s, ns[0], r);
      EachMoves(dir, t, ns[1..], r);
      if Occurs(ns[0], s) && !NoneIn(ns[1..], t) { MovedOn(dir, s, t, ReplaceEach(t, ns[1..], r)); }
    }
  }

  function CharKey(c: char): int { c as int }
  function CharKeyDown(c: char): int { -(c as int) }

  lemma {:induction false} FirstDifference(u: string, v: string) returns (h: nat)
    requires |u| == |v| && u != v
    ensures h < |u| && u[h] != v[h] && u[..h] == v[..h]
    decreases |u|
  {
    if u[0] != v[0] {
      h := 0;
    } else {
      h := FirstDifference(u[1..], v[1..]);
      h := h + 1;
      assert u[..h] == [u[0]] + u[1..][..h - 1] && v[..h] == [v[0]] + v[1..][..h - 1];
    }
  }

  /** Any two different texts, and what is put behind equal prefixes of them,
      move in some direction. */
  lemma SomeDirection(p: string, r: string) returns (dir: Direction)
    requires p != r
    ensures Moved(dir, p, r)
    ensures forall pre: string :: Moved(dir, pre + p, pre + r)
  {
    if |r| < |p| {
      dir := Shorter;
    } else if |r| > |p| {
      dir := Longer;
    } else {
      var h := FirstDifference(p, r);
      dir := ByKey(if r[h] < p[h] then CharKey else CharKeyDown);
      forall k | 0 <= k < h ensures r[k] == p[k] { assert r[k] == r[..h][k]; }
      assert LowerAt(dir.key, r, p, h);
      forall pre: string ensures Moved(dir, pre + p, pre + r) {
        assert LowerAt(dir.key, pre + r, pre + p, |pre| + h);
      }
    }
  }

  /** A substitution leaves a text alone exactly when it finds nothing. */
  lemma ReplacedIff(s: string, p: string, r: string)
    requires p != "" && p != r
    ensures ReplaceAll(s, p, r) != s <==> Occurs(p, s)
  {
    hide Moved, Occurs;
    var dir := SomeDirection(p, r);
    PassMoves(dir, s, p, r);
    if Occurs(p, s) { MovedAway(dir, s, ReplaceAll(s, p, r)); }
  }

  /** Likewise two substitutions that differ only in what stands before the name. */
  lemma ReplacedTwiceIff(s: string, x: string, y: string, p: string, r: string)
    requires x != "" && y != "" && p != r
    ensures ReplaceAll(ReplaceAll(s, x + p, x + r), y + p, y + r) != s <==> Occurs(x + p, s) || Occurs(y + p, s)
  {
    hide Moved, Occurs, ReplaceAll;
    var t := ReplaceAll(s, x + p, x + r);
    var dir := SomeDirection(p, r);
    PassMoves(dir, s, x + p, x + r);
    PassMoves(dir, t, y + p, y + r);
    var u := ReplaceAll(t, y + p, y + r);
    if Occurs(x + p, s) && Occurs(y + p, t) { MovedOn(dir, s, t, u); }
    if Moved(dir, s, u) { MovedAway(dir, s, u); }
  }

  // ---------------------------------------------------------------------
  // Names of one shape
  // ---------------------------------------------------------------------

  /** `c` is the first letter of `p` and occurs nowhere else in it. */
  predicate HeadOnly(c: char, p: string) {
    p != "" && p[0] == c && forall k | 1 <= k < |p| :: p[k] != c
  }

  /** Names of one length that share a first letter found nowhere else in them.
      The VMware names are of this shape. */
  predicate Uniform(c: char, n: nat, ns: seq<string>) {
    forall i | 0 <= i < |ns| :: HeadOnly(c, ns[i]) && |ns[i]| == n
  }

  lemma UniformClear(c: char, p: string, q: string)
    requires HeadOnly(c, p) && HeadOnly(c, q) && |p| == |q|
    ensures Clear(p, q)
  {
    forall d | -|p| < d < |q| && OverlapAt(p, q, d) ensures d == 0 && p == q {
      var k := if d > 0 then d else 0;
      assert p[k - d] == q[k];
      if d == 0 { assert forall k | 0 <= k < |q| :: p[k - 0] == q[k]; }
    }
  }

  lemma UniformApart(c: char, n: nat, ns: seq<string>)
    requires Uniform(c, n, ns)
    ensures NonEmpty(ns) && Apart(ns) && forall i | 0 <= i < |ns| :: Clear(ns[i], ns[i])
  {
    hide HeadOnly, Clear;
    forall i, j | 0 <= i < |ns| && 0 <= j < |ns| ensures Clear(ns[i], ns[j]) { UniformClear(c, ns[i], ns[j]); }
    forall i | 0 <= i < |ns| ensures ns[i] != "" { assert HeadOnly(c, ns[i]); HeadNonEmpty(c, ns[i]); }
  }

  lemma HeadNonEmpty(c: char, p: string)
    requires HeadOnly(c, p)
    ensures p != ""
  {
  }

  /** All names move in one direction, unless the inserted text has their shape. */
  lemma UniformDirection(c: char, n: nat, ns: seq<string>, r: string) returns (dir: Direction)
    requires Uniform(c, n, ns) && (|r| != n || !HeadOnly(c, r))
    ensures AllMove(dir, ns, r)
  {
    if ns != [] { HeadNonEmpty(c, ns[0]); }
    if |r| < n {
      dir := Shorter;
    } else if |r| > n {
      dir := Longer;
    } else if ns == [] {
      dir := Shorter;
    } else if r[0] != c {
      dir := ByKey(x => if x == c then 1 else 0);
      forall i | 0 <= i < |ns| ensures Moved(dir, ns[i], r) { assert LowerAt(dir.key, r, ns[i], 0); }
    } else {
      var h := SecondHead(c, r);
      dir := ByKey(x => if x == c then -1 else 0);
      forall i | 0 <= i < |ns| ensures Moved(dir, ns[i], r) { assert LowerAt(dir.key, r, ns[i], h); }
    }
  }

  lemma SecondHead(c: char, r: string) returns (h: nat)
    requires r != "" && r[0] == c && !HeadOnly(c, r)
    ensures 1 <= h < |r| && r[h] == c && forall k | 1 <= k < h :: r[k] != c
  {
    h := 1;
    while r[h] != c
      invariant 1 <= h < |r| && (exists k | h <= k < |r| :: r[k] == c) && forall k | 1 <= k < h :: r[k] != c
      decreases |r| - h
    {
      h := h + 1;
    }
  }

  /** The passes leave a text alone exactly when it holds none of the names. */
  lemma EachUnchangedIff(c: char, n: nat, s: string, ns: seq<string>, r: string)
    requires Uniform(c, n, ns) && NonEmpty(ns) && (|r| != n || !HeadOnly(c, r))
    ensures ReplaceEach(s, ns, r) == s <==> NoneIn(ns, s)
  {
    hide HeadOnly, Uniform, Moved, NoneIn;
    var dir := UniformDirection(c, n, ns, r);
    EachMoves(dir, s, ns, r);
    if !NoneIn(ns, s) { MovedAway(dir, s, ReplaceEach(s, ns, r)); }
  }

  /** The simultaneous substitution leaves a text alone exactly when it holds
      none of the names, for every inserted text that is not one of them. */
  lemma AnyUnchangedIff(c: char, n: nat, s: string, ns: seq<string>, r: string)
    requires Uniform(c, n, ns) && r !in ns
    ensures ReplaceAny(s, ns, r) == s <==> NoneIn(ns, s)
  {
    UniformApart(c, n, ns);
    hide Moved, NoneIn, ReplaceAny, Apart, Clear;
    if |r| != n || !HeadOnly(c, r) {
      var dir := UniformDirection(c, n, ns, r);
      AnyMoves(dir, s, ns, r);
      if !NoneIn(ns, s) { MovedAway(dir, s, ReplaceAny(s, ns, r)); }
    } else {
      forall m | m in ns ensures !Occurs(m, ReplaceAny(s, ns, r)) {
        UniformClear(c, m, r);
        NoneLeft(s, ns, r, m);
      }
      if NoneIn(ns, s) { NothingFound(s, ns, r); }
      assert NoneIn(ns, ReplaceAny(s, ns, r)) by { NoneInEach(ns, ReplaceAny(s, ns, r)); }
    }
  }

  lemma NoneInEach(ns: seq<string>, s: string)
    requires forall m | m in ns :: !Occurs(m, s)
    ensures NoneIn(ns, s)
  {
  }

  lemma {:induction false} NothingFound(s: string, ns: seq<string>, r: string)
    requires NonEmpty(ns) && NoneIn(ns, s)
    ensures ReplaceAny(s, ns, r) == s
    decreases |s|
  {
    hide Occurs, FirstMatch, ReplaceAny;
    AnyOfEmpty(ns, r);
    if s != "" {
      var m := FirstMatch(ns, s);
      assert s == [s[0]] + s[1..];
      forall n | n in ns ensures !Occurs(n, s[1..]) { OccursFirst(n, s[0], s[1..]); }
      if m != "" { OccursFirst(m, s[0], s[1..]); }
      AnyStep(s, ns, r);
      NothingFound(s[1..], ns, r);
    }
  }

  // ---------------------------------------------------------------------
  // Witnesses
  // ---------------------------------------------------------------------

  /** What must stand around `r` so that `n` appears at the overlap. */
  function Before(n: string, r: string, d: int): string
    requires -|n| < d < |r|
  {
    if d < 0 then n[..-d] else ""
  }

  function Behind(n: string, r: string, d: int): string
    requires -|n| < d < |r|
  {
    if d + |n| > |r| then n[|r| - d..] else ""
  }

  lemma OverlapShows(n: string, r: string, d: int)
    requires OverlapAt(n, r, d)
    ensures Occurs(n, Before(n, r, d) + r + Behind(n, r, d))
  {
    var x, y := Before(n, r, d), Behind(n, r, d);
    var t := x + r + y;
    var i: nat := if d < 0 then 0 else d;
    assert |x| + d == i && i + |n| <= |t|;
    forall k | 0 <= k < |n| ensures t[i + k] == n[k] {
      if d + k < 0 {
        assert t[i + k] == x[i + k];
      } else if d + k < |r| {
        assert t[i + k] == r[d + k];
        assert n[d + k - d] == r[d + k];
      } else {
        assert t[i + k] == y[d + k - |r|];
      }
    }
    assert t[i..][..|n|] == n;
    assert OccursAt(n, t, i);
  }

  /** The pieces around a name are too short to hold one. */
  lemma OnlyThere(ns: seq<string>, p: string, x: string, y: string, m: string, i: nat)
    requires Apart(ns) && Clear(p, p) && p in ns && m in ns && |m| == |p| && |x| < |p| && |y| < |p|
    requires i <= |x + p + y| && m <= (x + p + y)[i..]
    ensures i == |x| && m == p
  {
    var w := x + p + y;
    assert w[|x|..] == p + y;
    if m != p { ApartPair(ns, m, p); }
    NotFound(m, i, p, |x|, w);
  }

  /** The one name in the witness is rewritten, and nothing else. */
  lemma WitnessAny(ns: seq<string>, all: seq<string>, p: string, x: string, y: string, r: string)
    requires NonEmpty(all) && Apart(all) && Clear(p, p) && p in all && |x| < |p| && |y| < |p|
    requires (forall m | m in all :: |m| == |p|) && (forall m | m in ns :: m in all)
    ensures ReplaceAny(x + p + y, ns, r) == if p in ns then x + r + y else x + p + y
  {
    hide Clear, Apart, ReplaceAny;
    var w := x + p + y;
    forall i | 0 <= i <= |w| && FirstMatch(ns, w[i..]) != "" ensures i == |x| && FirstMatch(ns, w[i..]) == p {
      OnlyThere(all, p, x, y, FirstMatch(ns, w[i..]), i);
    }
    if p in ns {
      assert p <= w[|x|..] by { assert w[|x|..] == p + y; }
      MatchIn(ns, all, p, w[|x|..]);
    }
    hide FirstMatch;
    WitnessPieces(ns, p, x, y, r);
  }

  lemma MatchIn(ns: seq<string>, all: seq<string>, p: string, t: string)
    requires NonEmpty(all) && (forall m | m in ns :: m in all) && p in ns && p <= t
    ensures FirstMatch(ns, t) != ""
  {
    forall i | 0 <= i < |ns| ensures ns[i] != "" { assert ns[i] in all; }
    MatchFound(ns, p, t);
  }

  lemma WitnessPieces(ns: seq<string>, p: string, x: string, y: string, r: string)
    requires p != "" && var w := x + p + y;
      && (forall i | 0 <= i <= |w| && FirstMatch(ns, w[i..]) != "" :: i == |x| && FirstMatch(ns, w[i..]) == p)
      && (p in ns ==> FirstMatch(ns, w[|x|..]) != "")
    requires p !in ns ==> FirstMatch(ns, (x + p + y)[|x|..]) != p
    ensures ReplaceAny(x + p + y, ns, r) == if p in ns then x + r + y else x + p + y
  {
    hide FirstMatch, ReplaceAny;
    var w := x + p + y;
    assert w == x + (p + y) && w[|x|..] == p + y;
    if p in ns {
      SkipFree(x, p + y, ns, r);
      forall i | 0 <= i < |y| ensures FirstMatch(ns, y[i..]) == "" { assert y[i..] == w[|x| + |p| + i..]; }
      FrontPiece(ns, p, y, r);
      Associate(x, r, y);
    } else {
      NoPiece(ns, w, r);
    }
  }

  lemma NoPiece(ns: seq<string>, w: string, r: string)
    requires forall i | 0 <= i < |w| :: FirstMatch(ns, w[i..]) == ""
    ensures ReplaceAny(w, ns, r) == w
  {
    hide FirstMatch, ReplaceAny;
    AnyOfEmpty(ns, r);
    assert w + "" == w;
    SkipFree(w, "", ns, r);
  }

  lemma FrontPiece(ns: seq<string>, p: string, y: string, r: string)
    requires p != "" && FirstMatch(ns, p + y) == p && forall i | 0 <= i < |y| :: FirstMatch(ns, y[i..]) == ""
    ensures ReplaceAny(p + y, ns, r) == r + y
  {
    hide FirstMatch, ReplaceAny;
    AnyStep(p + y, ns, r);
    assert (p + y)[|p|..] == y;
    NoPiece(ns, y, r);
  }

  lemma {:induction false} WitnessEach(ns: seq<string>, all: seq<string>, p: string, x: string, y: string, r: string)
    requires NonEmpty(ns) && NonEmpty(all) && Apart(all) && Clear(p, p) && p in all && |x| < |p| && |y| < |p|
    requires (forall m | m in all :: |m| == |p|) && (forall m | m in ns :: m in all) && p !in ns
    ensures ReplaceEach(x + p + y, ns, r) == x + p + y
    decreases |ns|
  {
    hide Clear, Apart, ReplaceAny, ReplaceAll;
    if ns != [] {
      SingleIsAny(x + p + y, ns[0], r);
      WitnessAny([ns[0]], all, p, x, y, r);
      WitnessEach(ns[1..], all, p, x, y, r);
    }
  }

  // ---------------------------------------------------------------------
  // Exact conditions
  // ---------------------------------------------------------------------

  /** A name that is not clear of `r`, and where. */
  lemma NotClear(ns: seq<string>, r: string) returns (n: string, d: int)
    requires !ClearOf(ns, r)
    ensures n in ns && OverlapAt(n, r, d) && !(d == 0 && n == r)
  {
    var i :| 0 <= i < |ns| && !Clear(ns[i], r);
    n := ns[i];
    d :| -|n| < d < |r| && OverlapAt(n, r, d) && !(d == 0 && n == r);
  }

  /** The text around `p` that brings the overlap of `n` and `r` about. */
  function Witness(p: string, n: string, r: string, d: int): string
    requires -|n| < d < |r|
  {
    Before(n, r, d) + p + Behind(n, r, d)
  }

  /** An overlap shows that `r` has not the shape of the names. */
  lemma OverlapShape(c: char, k: nat, ns: seq<string>, n: string, r: string, d: int)
    requires Uniform(c, k, ns) && n in ns && OverlapAt(n, r, d) && !(d == 0 && n == r)
    ensures |r| != k || !HeadOnly(c, r)
  {
    if |r| == k && HeadOnly(c, r) { UniformClear(c, n, r); }
  }

  /** In the witness exactly the one name is rewritten, by all names at once as
      by its own pass. */
  lemma WitnessHit(c: char, k: nat, ns: seq<string>, p: string, n: string, r: string, d: int)
    requires Uniform(c, k, ns) && p in ns && n in ns && -|n| < d < |r|
    ensures p != "" && ReplaceAny(Witness(p, n, r, d), ns, r) == Witness(r, n, r, d)
    ensures ReplaceAll(Witness(p, n, r, d), p, r) == Witness(r, n, r, d)
  {
    UniformApart(c, k, ns);
    hide HeadOnly, Clear, Apart, ReplaceAny, ReplaceAll;
    var x, y := Before(n, r, d), Behind(n, r, d);
    assert |n| == k && |p| == k;
    WitnessAny(ns, ns, p, x, y, r);
    WitnessAny([p], ns, p, x, y, r);
    SingleIsAny(x + p + y, p, r);
  }

  /** A later name that overlaps the inserted text is found in it by its pass,
      although the text did not hold it. */
  lemma InterferenceAt(c: char, k: nat, ns: seq<string>, n: string, r: string, d: int)
    requires Uniform(c, k, ns) && ns != [] && n in ns[1..] && OverlapAt(n, r, d) && !(d == 0 && n == r)
    ensures var w := Witness(ns[0], n, r, d); NonEmpty(ns) && ReplaceEach(w, ns, r) != ReplaceAny(w, ns, r)
  {
    hide HeadOnly, Uniform, OverlapAt, Occurs, ReplaceAny, ReplaceAll, ReplaceEach, Witness, NonEmpty;
    assert NonEmpty(ns) by { UniformApart(c, k, ns); }
    OverlapBounds(n, r, d);
    WitnessHit(c, k, ns, ns[0], n, r, d);
    EachFirst(Witness(ns[0], n, r, d), ns, r);
    LaterMoves(c, k, ns, n, r, d);
  }

  lemma OverlapBounds(n: string, r: string, d: int)
    requires OverlapAt(n, r, d)
    ensures -|n| < d < |r|
  {
  }

  lemma LaterMoves(c: char, k: nat, ns: seq<string>, n: string, r: string, d: int)
    requires Uniform(c, k, ns) && ns != [] && n in ns[1..] && OverlapAt(n, r, d) && !(d == 0 && n == r)
    ensures NonEmpty(ns[1..]) && ReplaceEach(Witness(r, n, r, d), ns[1..], r) != Witness(r, n, r, d)
  {
    hide HeadOnly, Clear, Apart, Occurs, ReplaceEach, Before, Behind;
    assert Uniform(c, k, ns[1..]);
    UniformApart(c, k, ns[1..]);
    OverlapShape(c, k, ns, n, r, d);
    OverlapShows(n, r, d);
    EachUnchangedIff(c, k, Witness(r, n, r, d), ns[1..], r);
  }

  lemma EachFirst(s: string, ns: seq<string>, r: string)
    requires NonEmpty(ns) && ns != []
    ensures NonEmpty(ns[1..]) && ReplaceEach(s, ns, r) == ReplaceEach(ReplaceAll(s, ns[0], r), ns[1..], r)
  {
  }

  lemma {:induction false} EachLast(s: string, ns: seq<string>, r: string)
    requires NonEmpty(ns) && ns != []
    ensures var k := |ns| - 1;
      NonEmpty(ns[..k]) && ReplaceEach(s, ns, r) == ReplaceAll(ReplaceEach(s, ns[..k], r), ns[k], r)
  {
    hide ReplaceAll;
    var k := |ns| - 1;
    assert ns == ns[..k] + [ns[k]];
    EachAppend(s, ns[..k], [ns[k]], r);
  }

  /** Running the substitutions one after another agrees with running them all
      at once on EVERY text if and only if every name after the first is clear of
      the inserted text, whatever that text is. */
  lemma InterferenceIff(c: char, k: nat, ns: seq<string>, r: string)
    requires Uniform(c, k, ns) && ns != []
    ensures NonEmpty(ns)
    ensures (forall s :: ReplaceEach(s, ns, r) == ReplaceAny(s, ns, r)) <==> ClearOf(ns[1..], r)
  {
    UniformApart(c, k, ns);
    hide HeadOnly, Clear, Apart, ClearOf, ReplaceAny, ReplaceEach, Uniform;
    if ClearOf(ns[1..], r) {
      forall s ensures ReplaceEach(s, ns, r) == ReplaceAny(s, ns, r) { EachIsAny(s, ns, r); }
    } else {
      var n, d := NotClear(ns[1..], r);
      InterferenceAt(c, k, ns, n, r, d);
    }
  }

  /** A name that overlaps the inserted text, also the first one, is brought
      about by the last pass, too late for its own. */
  lemma NameBroughtAbout(c: char, k: nat, ns: seq<string>, n: string, r: string, d: int)
    requires Uniform(c, k, ns) && Distinct(ns) && ns != [] && n in ns && OverlapAt(n, r, d)
    ensures NonEmpty(ns) && Occurs(n, ReplaceEach(Witness(ns[|ns| - 1], n, r, d), ns, r))
  {
    UniformApart(c, k, ns);
    hide HeadOnly, Clear, Apart, Occurs, ReplaceAny, ReplaceEach, ReplaceAll;
    var j := |ns| - 1;
    EachLast(Witness(ns[j], n, r, d), ns, r);
    WitnessEach(ns[..j], ns, ns[j], Before(n, r, d), Behind(n, r, d), r);
    WitnessHit(c, k, ns, ns[j], n, r, d);
    OverlapShows(n, r, d);
  }

  /** A second run changes no text if and only if every name, the first one
      included, is clear of the inserted text. */
  lemma SecondRunIff(c: char, k: nat, ns: seq<string>, r: string)
    requires Uniform(c, k, ns) && Distinct(ns) && ns != []
    ensures NonEmpty(ns)
    ensures (forall s :: ReplaceEach(ReplaceEach(s, ns, r), ns, r) == ReplaceEach(s, ns, r)) <==> ClearOf(ns, r)
  {
    UniformApart(c, k, ns);
    hide HeadOnly, Clear, Apart, ClearOf, ReplaceAny, ReplaceEach, Uniform, Occurs, OverlapAt;
    if ClearOf(ns, r) {
      forall s ensures ReplaceEach(ReplaceEach(s, ns, r), ns, r) == ReplaceEach(s, ns, r) {
        PartThenAll(s, ns, ns, r);
        EachBySet(s, ns, ns, r);
      }
    } else {
      var n, d := NotClear(ns, r);
      OverlapShape(c, k, ns, n, r, d);
      NameBroughtAbout(c, k, ns, n, r, d);
      EachUnchangedIff(c, k, ReplaceEach(Witness(ns[|ns| - 1], n, r, d), ns, r), ns, r);
    }
  }

  /** No text is left with a name in it if and only if every name is clear of
      the inserted text and none of them is that text. */
  lemma NoneLeftIff(c: char, k: nat, ns: seq<string>, r: string)
    requires Uniform(c, k, ns) && Distinct(ns) && ns != []
    ensures NonEmpty(ns)
    ensures (forall s :: NoneIn(ns, ReplaceEach(s, ns, r))) <==> ClearOf(ns, r) && r !in ns
  {
    UniformApart(c, k, ns);
    hide HeadOnly, Clear, Apart, ReplaceAny, ReplaceEach, Uniform, Occurs, OverlapAt;
    if ClearOf(ns, r) && r !in ns {
      forall s ensures NoneIn(ns, ReplaceEach(s, ns, r)) {
        EachBySet(s, ns, ns, r);
        forall n | n in ns ensures !Occurs(n, ReplaceAny(s, ns, r)) { NoneLeft(s, ns, r, n); }
      }
    } else if r in ns {
      SelfOverlap(r);
      NameBroughtAbout(c, k, ns, r, r, 0);
    } else {
      var n, d := NotClear(ns, r);
      NameBroughtAbout(c, k, ns, n, r, d);
    }
  }

  lemma SelfOverlap(r: string)
    requires r != ""
    ensures OverlapAt(r, r, 0)
  {
  }

  // ---------------------------------------------------------------------
  // One name of any shape
  // ---------------------------------------------------------------------

  /** `p` can come back: it overlaps `r` somewhere, and in the text that brings this
      about, which is the start of `p` up to `r` followed by `p`, it is not found
      before its end. */
  ghost predicate ComesBack(p: string, r: string) {
    exists d | -|p| < d < |r| && OverlapAt(p, r, d) :: FoundLast(p, Before(p, r, d))
  }

  predicate FoundLast(p: string, x: string) { forall i: nat | i < |x| :: !OccursAt(p, x + p, i) }

  /** `x` and `z` stand before and behind the first place where the name is found. */
  ghost predicate CutAt(s: string, p: string, r: string, x: string, z: string)
    requires p != ""
  {
    && s == x + p + z && ReplaceAll(s, p, r) == x + r + ReplaceAll(z, p, r)
    && forall i: nat | i < |x| :: !(p <= s[i..])
  }

  lemma CutLater(s: string, p: string, r: string, x: string, z: string)
    requires p != "" && s != "" && !(p <= s) && CutAt(s[1..], p, r, x, z)
    ensures CutAt(s, p, r, [s[0]] + x, z)
  {
    assert ReplaceAll(s, p, r) == [s[0]] + ReplaceAll(s[1..], p, r);
    hide ReplaceAll;
    NoneBefore(s, p, |x|);
    assert s == [s[0]] + s[1..];
    Prepended([s[0]], x, p, z);
    Prepended([s[0]], x, r, ReplaceAll(z, p, r));
  }

  lemma Prepended(a: string, x: string, y: string, z: string)
    ensures a + x + y + z == a + (x + y + z)
  {
  }

  lemma NoneBefore(s: string, p: string, n: nat)
    requires n < |s| && !(p <= s) && forall i: nat | i < n :: !(p <= s[1..][i..])
    ensures forall i: nat | i < n + 1 :: !(p <= s[i..])
  {
    forall i: nat | i < n + 1 ensures !(p <= s[i..]) {
      if i == 0 { assert s[0..] == s; } else { assert s[i..] == s[1..][i - 1..]; }
    }
  }

  lemma {:induction false} CutAtFirst(s: string, p: string, r: string) returns (x: string, z: string)
    requires p != "" && Occurs(p, s)
    ensures CutAt(s, p, r, x, z)
    decreases |s|
  {
    hide Occurs;
    if p <= s {
      x, z := "", s[|p|..];
    } else {
      if s == "" { EmptyHolds(p); }
      assert s == [s[0]] + s[1..];
      OccursFirst(p, s[0], s[1..]);
      hide CutAt;
      x, z := CutAtFirst(s[1..], p, r);
      CutLater(s, p, r, x, z);
      x := [s[0]] + x;
    }
  }

  /** A name that is there after its own pass has come back. */
  lemma {:induction false} OneReturns(s: string, p: string, r: string)
    requires p != "" && p != r && Occurs(p, ReplaceAll(s, p, r))
    ensures ComesBack(p, r)
    decreases |s|
  {
    hide ReplaceAll, ComesBack;
    ReplacedIff(s, p, r);
    var x, z := CutAtFirst(s, p, r);
    var t := x + r + ReplaceAll(z, p, r);
    var j: nat :| j <= |t| && OccursAt(p, t, j);
    if j >= |x| + |r| {
      assert t[j..] == ReplaceAll(z, p, r)[j - |x| - |r|..];
      assert OccursAt(p, ReplaceAll(z, p, r), j - |x| - |r|);
      OneReturns(z, p, r);
    } else {
      ReturnsAcross(s, p, r, x, z, t, j);
    }
  }

  lemma SameStart(p: string, x: string, s: string, t: string, j: nat)
    requires x <= s && x <= t && j + |p| <= |x|
    ensures p <= s[j..] <==> p <= t[j..]
  {
    assert s[j..][..|p|] == x[j..j + |p|] == t[j..][..|p|];
  }

  lemma ReturnsAcross(s: string, p: string, r: string, x: string, z: string, t: string, j: nat)
    requires p != "" && s == x + p + z && forall i: nat | i < |x| :: !(p <= s[i..])
    requires x + r <= t && j <= |t| && p <= t[j..] && j < |x| + |r|
    ensures ComesBack(p, r)
  {
    assert x <= s && x <= t;
    if j + |p| <= |x| { SameStart(p, x, s, t, j); }
    assert r <= t[|x|..];
    var d := j - |x|;
    Meet(p, j, r, |x|, t);
    assert FoundLast(p, Before(p, r, d)) by {
      if d < 0 {
        assert Before(p, r, d) == x[j..] by { assert p[..-d] == t[j..][..-d]; }
        forall i: nat | i < |x[j..]| ensures !OccursAt(p, x[j..] + p, i) {
          assert s[j + i..] == (x[j..] + p)[i..] + z;
        }
      }
    }
  }

  lemma {:induction false} PassOver(p: string, x: string, y: string, r: string)
    requires p != "" && forall i: nat | i < |x| :: !(p <= (x + y)[i..])
    ensures ReplaceAll(x + y, p, r) == x + ReplaceAll(y, p, r)
    decreases |x|
  {
    if x == "" {
      assert x + y == y;
    } else {
      var rest := x[1..];
      assert (x + y)[0..] == x + y && (x + y)[1..] == rest + y;
      forall i: nat | i < |rest| ensures !(p <= (rest + y)[i..]) { assert (x + y)[i + 1..] == (rest + y)[i..]; }
      PassOver(p, rest, y, r);
    }
  }

  lemma LongEnough(p: string, u: string, y: string)
    requires |p| <= |u|
    ensures p <= u + y <==> p <= u
  {
    assert (u + y)[..|p|] == u[..|p|];
  }

  lemma NotFoundYet(p: string, x: string, y: string, i: nat)
    requires FoundLast(p, x) && i < |x|
    ensures !(p <= (x + (p + y))[i..])
  {
    assert !OccursAt(p, x + p, i);
    LongEnough(p, (x + p)[i..], y);
    assert (x + (p + y))[i..] == (x + p)[i..] + y;
  }

  lemma PassAtFront(p: string, y: string, r: string)
    requires p != "" && |y| < |p|
    ensures ReplaceAll(p + y, p, r) == r + y
  {
    PassOver(p, y, "", r);
    assert (p + y)[|p|..] == y && y + "" == y;
  }

  /** A pass over a text with one place where the name is found. */
  lemma OneMatch(p: string, x: string, y: string, r: string)
    requires p != "" && FoundLast(p, x) && |y| < |p|
    ensures ReplaceAll(x + p + y, p, r) == x + r + y
  {
    hide ReplaceAll, FoundLast;
    forall i: nat | i < |x| ensures !(p <= (x + (p + y))[i..]) { NotFoundYet(p, x, y, i); }
    PassOver(p, x, p + y, r);
    PassAtFront(p, y, r);
    assert x + p + y == x + (p + y) && x + r + y == x + (r + y);
  }

  /** A name that can come back does so in the witness. */
  lemma WitnessReturns(p: string, r: string, d: int)
    requires p != "" && OverlapAt(p, r, d) && FoundLast(p, Before(p, r, d))
    ensures Occurs(p, ReplaceAll(Witness(p, p, r, d), p, r))
  {
    hide OverlapAt, Occurs, FoundLast, ReplaceAll;
    OverlapBounds(p, r, d);
    OverlapShows(p, r, d);
    assert |Behind(p, r, d)| < |p| by { BehindIsShort(p, r, d); }
    OneMatch(p, Before(p, r, d), Behind(p, r, d), r);
  }

  lemma BehindIsShort(p: string, r: string, d: int)
    requires p != "" && -|p| < d < |r|
    ensures |Behind(p, r, d)| < |p|
  {
  }

  /** For EVERY name and every inserted text: no text keeps the name if and only if
      it cannot come back, and a second run changes no text if and only if,
      besides, it may be the inserted text. For a name that does not overlap itself
      this says that it is clear of the inserted text. */
  lemma OneNameIff(p: string, r: string)
    requires p != ""
    ensures (forall s :: ReplaceAll(ReplaceAll(s, p, r), p, r) == ReplaceAll(s, p, r)) <==> p == r || !ComesBack(p, r)
    ensures (forall s :: !Occurs(p, ReplaceAll(s, p, r))) <==> !ComesBack(p, r)
    ensures Clear(p, p) ==> (ComesBack(p, r) <==> p == r || !Clear(p, r))
  {
    hide OverlapAt, Occurs, ReplaceAll, FoundLast, Clear;
    if p == r {
      forall s ensures ReplaceAll(ReplaceAll(s, p, r), p, r) == ReplaceAll(s, p, r) {
        SelfReplace(ReplaceAll(s, p, r), p);
      }
    } else {
      forall s ensures ReplaceAll(ReplaceAll(s, p, r), p, r) == ReplaceAll(s, p, r)
                       <==> !Occurs(p, ReplaceAll(s, p, r)) { ReplacedIff(ReplaceAll(s, p, r), p, r); }
      forall s | Occurs(p, ReplaceAll(s, p, r)) ensures ComesBack(p, r) { OneReturns(s, p, r); }
    }
    if ComesBack(p, r) {
      var d :| -|p| < d < |r| && OverlapAt(p, r, d) && FoundLast(p, Before(p, r, d));
      WitnessReturns(p, r, d);
      var t := ReplaceAll(Witness(p, p, r, d), p, r);
      if p != r { assert ReplaceAll(t, p, r) != t; }
    }
    if p == r { SelfComesBack(p); }
    if Clear(p, p) { ComesBackIff(p, r); }
  }

  lemma SelfComesBack(p: string)
    requires p != ""
    ensures ComesBack(p, p)
  {
    SelfOverlap(p);
    assert FoundLast(p, Before(p, p, 0));
  }

  /** A name that does not overlap itself is found nowhere earlier. */
  lemma ComesBackIff(p: string, r: string)
    requires p != "" && Clear(p, p)
    ensures ComesBack(p, r) <==> p == r || !Clear(p, r)
  {
    if p == r { SelfComesBack(p); }
    assert Clear(p, r) <==> forall d | -|p| < d < |r| && OverlapAt(p, r, d) :: d == 0 && p == r;
    hide OverlapAt;
    forall d | -|p| < d < |r| ensures FoundLast(p, Before(p, r, d)) { NotEarlier(p, Before(p, r, d)); }
  }

  lemma NotEarlier(p: string, x: string)
    requires p != "" && Clear(p, p) && |x| < |p|
    ensures FoundLast(p, x)
  {
    forall i: nat | i < |x| ensures !OccursAt(p, x + p, i) {
      assert (x + p)[|x|..] == p;
      NotFound(p, i, p, |x|, x + p);
    }
  }

  lemma {:induction false} SelfReplace(s: string, p: string)
    requires p != ""
    ensures ReplaceAll(s, p, p) == s
    decreases |s|
  {
    if s != "" {
      if p <= s {
        SelfReplace(s[|p|..], p);
        assert s == p + s[|p|..];
      } else {
        SelfReplace(s[1..], p);
      }
    }
  }
}
