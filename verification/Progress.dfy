/** The scanner for the converter's progress output (vmfree/converter/disk.py,
    `_parse_progress`). Percentages are real numbers here: the rounding of
    `float` is not modelled. */
module Progress {
  import opened Text

  predicate AllDigits(s: string) { forall i | 0 <= i < |s| :: IsDigit(s[i]) }

  /** A number as it is written; `fraction` is empty when there is no point. */
  datatype Number = Number(whole: string, fraction: string)

  predicate Written(n: Number) { n.whole != "" && AllDigits(n.whole) && AllDigits(n.fraction) }

  function Shown(n: Number): string { if n.fraction == "" then n.whole else n.whole + "." + n.fraction }

  /** Length of the run of digits at the front. */
  function DigitsAt(s: string): (k: nat)
    ensures k <= |s| && AllDigits(s[..k]) && (k < |s| ==> !IsDigit(s[k]))
  {
    if s == "" || !IsDigit(s[0]) then 0
    else
      var k := 1 + DigitsAt(s[1..]);
      assert s[..k] == [s[0]] + s[1..][..k - 1];
      k
  }

  /** The match of `\d+(?:\.\d+)?` at the front. */
  function NumberAt(s: string): (n: Number)
    requires s != "" && IsDigit(s[0])
    ensures Written(n) && 0 < |Shown(n)| <= |s|
  {
    var k := DigitsAt(s);
    if k + 1 < |s| && s[k] == '.' && IsDigit(s[k + 1])
    then Number(s[..k], s[k + 1..][..DigitsAt(s[k + 1..])])
    else Number(s[..k], "")
  }

  /** All numbers in a text: leftmost matches that do not overlap. */
  function Numbers(s: string): (r: seq<Number>)
    ensures forall i | 0 <= i < |r| :: Written(r[i])
    decreases |s|
  {
    if s == "" then []
    else if !IsDigit(s[0]) then Numbers(s[1..])
    else [NumberAt(s)] + Numbers(s[|Shown(NumberAt(s))|..])
  }

  function Power(k: nat): nat
    ensures Power(k) > 0
  {
    if k == 0 then 1 else 10 * Power(k - 1)
  }

  function Percent(n: Number): real
    requires Written(n)
  {
    Value(n.whole) as real + Value(n.fraction) as real / Power(|n.fraction|) as real
  }

  predicate AllWritten(ns: seq<Number>) { forall i | 0 <= i < |ns| :: Written(ns[i]) }

  /** The calls of the callback. */
  function Reports(ns: seq<Number>): seq<real>
    requires AllWritten(ns)
  {
    if ns == [] then []
    else (if 0.0 <= Percent(ns[0]) <= 100.0 then [Percent(ns[0])] else []) + Reports(ns[1..])
  }

  function SkipBlanks(s: string): (r: string)
    ensures |r| <= |s|
  {
    if s != "" && IsSpace(s[0]) then SkipBlanks(s[1..]) else s
  }

  /** What is left after the `\s*%?` of a match. */
  function SkipUnit(s: string): (r: string)
    ensures |r| <= |s|
  {
    var t := SkipBlanks(s);
    if t != "" && t[0] == '%' then t[1..] else t
  }

  lemma {:induction false} SkipKeepsNumbers(s: string)
    ensures Numbers(SkipBlanks(s)) == Numbers(s) && Numbers(SkipUnit(s)) == Numbers(s)
    decreases |s|
  {
    if s != "" && IsSpace(s[0]) { SkipKeepsNumbers(s[1..]); }
  }

  /** The scan consumes a unit behind each number; the calls are those for all
      numbers in the text. */
  method ParseProgress(output: string) returns (calls: seq<real>)
    ensures calls == Reports(Numbers(output))
  {
    hide NumberAt, Percent, IsDigit, SkipUnit, Shown, Reports;
    calls := [];
    var rest := output;
    while rest != ""
      invariant calls + Reports(Numbers(rest)) == Reports(Numbers(output))
      decreases |rest|
    {
      ghost var before := Numbers(rest);
      if IsDigit(rest[0]) {
        var n := NumberAt(rest);
        rest := rest[|Shown(n)|..];
        assert before == [n] + Numbers(rest);
        ReportsOne(n, Numbers(rest), calls);
        SkipKeepsNumbers(rest);
        rest := SkipUnit(rest);
        var p := Percent(n);
        if 0.0 <= p <= 100.0 {
          calls := calls + [p];
        }
      } else {
        rest := rest[1..];
      }
    }
    assert Reports(Numbers("")) == [] by { NoReports(); }
  }

  lemma NoReports()
    ensures Reports(Numbers("")) == []
  {
  }

  lemma ReportsOne(n: Number, rest: seq<Number>, calls: seq<real>)
    requires Written(n) && AllWritten(rest)
    ensures AllWritten([n] + rest)
    ensures calls + Reports([n] + rest)
         == (if 0.0 <= Percent(n) <= 100.0 then calls + [Percent(n)] else calls) + Reports(rest)
  {
    hide Percent;
    assert ([n] + rest)[1..] == rest;
  }

  // ---------------------------------------------------------------------
  // Texts in pieces
  // ---------------------------------------------------------------------

  predicate Separates(c: char) { !IsDigit(c) && c != '.' }

  lemma {:induction false} DigitsConcat(a: string, c: char, b: string)
    requires Separates(c)
    ensures DigitsAt(a + [c] + b) == DigitsAt(a)
    decreases |a|
  {
    if a != "" && IsDigit(a[0]) {
      assert (a + [c] + b)[1..] == a[1..] + [c] + b;
      DigitsConcat(a[1..], c, b);
    }
  }

  lemma NumberConcat(a: string, c: char, b: string)
    requires Separates(c) && a != "" && IsDigit(a[0])
    ensures NumberAt(a + [c] + b) == NumberAt(a)
  {
    hide IsDigit;
    var s, k := a + [c] + b, DigitsAt(a);
    DigitsConcat(a, c, b);
    hide DigitsAt;
    assert s[..k] == a[..k];
    if k + 1 < |a| {
      assert s[k + 1..] == a[k + 1..] + [c] + b;
      DigitsConcat(a[k + 1..], c, b);
      var j := DigitsAt(a[k + 1..]);
      assert s[k + 1..][..j] == a[k + 1..][..j];
    }
  }

  /** The numbers on both sides of a character that belongs to no number. */
  lemma {:induction false} NumbersConcat(a: string, c: char, b: string)
    requires Separates(c)
    ensures Numbers(a + [c] + b) == Numbers(a) + Numbers(b)
    decreases |a|
  {
    var s := a + [c] + b;
    if a == "" {
      assert s[1..] == b;
    } else if !IsDigit(a[0]) {
      assert s[1..] == a[1..] + [c] + b;
      NumbersConcat(a[1..], c, b);
    } else {
      NumberConcat(a, c, b);
      hide NumberAt;
      var w := |Shown(NumberAt(a))|;
      assert s[w..] == a[w..] + [c] + b;
      NumbersConcat(a[w..], c, b);
    }
  }

  lemma {:induction false} DigitsBefore(a: string, b: string)
    requires AllDigits(a) && (b != "" ==> !IsDigit(b[0]))
    ensures DigitsAt(a + b) == |a|
    decreases |a|
  {
    if a == "" {
      assert a + b == b;
    } else {
      assert (a + b)[1..] == a[1..] + b;
      DigitsBefore(a[1..], b);
    }
  }

  /** A number on its own is found as it is written. */
  lemma NumbersOfShown(n: Number)
    requires Written(n)
    ensures Numbers(Shown(n)) == [n]
  {
    var s, k := Shown(n), |n.whole|;
    assert s[..k] == n.whole && n.whole + s[k..] == s;
    assert n.fraction != "" ==> s[k] == '.' && s[k + 1..] == n.fraction;
    DigitsBefore(n.whole, s[k..]);
    DigitsBefore(n.fraction, "");
    hide DigitsAt;
    assert n.fraction + "" == n.fraction && n.fraction[..|n.fraction|] == n.fraction;
    assert NumberAt(s) == n && s[|s|..] == "";
  }

  // ---------------------------------------------------------------------
  // What the callback sees
  // ---------------------------------------------------------------------

  const HUNDRED := Number("100", "")

  /** One line of progress: `    (12.50/100%)`, ended by a carriage return. */
  function Line(n: Number): string { "    (" + Shown(n) + "/100%)" }

  function Output(ns: seq<Number>): string {
    if ns == [] then "" else Line(ns[0]) + "\r" + Output(ns[1..])
  }

  lemma LineNumbers(n: Number)
    requires Written(n)
    ensures Numbers(Line(n)) == [n, HUNDRED]
  {
    hide Numbers, Shown, NumberAt;
    var tail := "100" + ['%'] + ")";
    LineShape(n, tail);
    NumbersConcat("    ", '(', Shown(n) + ['/'] + tail);
    NumbersConcat(Shown(n), '/', tail);
    NumbersConcat("100", '%', ")");
    NumbersOfShown(n);
    assert Written(HUNDRED) && Shown(HUNDRED) == "100" by { HundredIsHundred(); }
    NumbersOfShown(HUNDRED);
    NoNumbers("    ");
    NoNumbers(")");
  }

  lemma LineShape(n: Number, tail: string)
    requires tail == "100" + ['%'] + ")"
    ensures Line(n) == "    " + ['('] + (Shown(n) + ['/'] + tail)
  {
    hide Shown;
    assert "/100%)" == ['/'] + tail;
  }

  lemma {:induction false} NoNumbers(s: string)
    requires forall i | 0 <= i < |s| :: !IsDigit(s[i])
    ensures Numbers(s) == []
    decreases |s|
  {
    if s != "" { NoNumbers(s[1..]); }
  }

  function Paired(ns: seq<Number>): seq<Number> {
    if ns == [] then [] else [ns[0], HUNDRED] + Paired(ns[1..])
  }

  lemma {:induction false} OutputNumbers(ns: seq<Number>)
    requires AllWritten(ns)
    ensures Numbers(Output(ns)) == Paired(ns)
    decreases |ns|
  {
    if ns != [] {
      LineNumbers(ns[0]);
      NumbersConcat(Line(ns[0]), '\r', Output(ns[1..]));
      OutputNumbers(ns[1..]);
    }
  }

  predicate Percentages(ns: seq<Number>) {
    AllWritten(ns) && forall i | 0 <= i < |ns| :: Percent(ns[i]) <= 100.0
  }

  lemma PercentNonNegative(n: Number)
    requires Written(n)
    ensures 0.0 <= Percent(n)
  {
    var v, p := Value(n.fraction) as real, Power(|n.fraction|) as real;
    assert v >= 0.0 && p > 0.0;
    assert v / p >= 0.0;
  }

  lemma HundredIsHundred()
    ensures Written(HUNDRED) && Shown(HUNDRED) == "100" && Percent(HUNDRED) == 100.0
  {
    assert HUNDRED.whole[..2] == "10" && HUNDRED.whole[..1] == "1" && "10"[..1] == "1" && "1"[..0] == "";
    assert Value("1") == 1 && Value("10") == 10 && Value("100") == 100;
  }

  /** The i-th pair of calls. */
  predicate Pair(r: seq<real>, i: nat, p: real) { 2 * i + 1 < |r| && r[2 * i] == p && r[2 * i + 1] == 100.0 }

  lemma PairBehind(r: seq<real>, q: seq<real>, i: nat, p: real, first: real)
    requires r == [first, 100.0] + q && Pair(q, i, p)
    ensures Pair(r, i + 1, p)
  {
    assert r[2 * (i + 1)] == q[2 * i] && r[2 * (i + 1) + 1] == q[2 * i + 1];
  }

  /** Every progress line makes two calls: its percentage, and the hundred that
      stands behind the slash. */
  lemma {:induction false} EveryLineReportsHundred(ns: seq<Number>)
    requires Percentages(ns)
    ensures AllWritten(Paired(ns)) && |Reports(Paired(ns))| == 2 * |ns|
    ensures forall i | 0 <= i < |ns| :: Pair(Reports(Paired(ns)), i, Percent(ns[i]))
    decreases |ns|
  {
    hide Percent;
    HundredIsHundred();
    if ns != [] {
      EveryLineReportsHundred(ns[1..]);
      PercentNonNegative(ns[0]);
      var p, q := Paired(ns), Paired(ns[1..]);
      assert p[0] == ns[0] && p[1..][0] == HUNDRED && p[1..][1..] == q;
      assert Reports(p) == [Percent(ns[0])] + ([100.0] + Reports(q));
      hide Reports, Paired, Pair;
      assert Reports(p) == [Percent(ns[0]), 100.0] + Reports(q);
      assert Pair(Reports(p), 0, Percent(ns[0])) by { FirstPair(Reports(p), Reports(q), Percent(ns[0])); }
      forall i | 1 <= i < |ns| ensures Pair(Reports(p), i, Percent(ns[i])) {
        assert ns[1..][i - 1] == ns[i];
        PairBehind(Reports(p), Reports(q), i - 1, Percent(ns[i]), Percent(ns[0]));
      }
    }
  }

  lemma FirstPair(r: seq<real>, q: seq<real>, first: real)
    requires r == [first, 100.0] + q
    ensures Pair(r, 0, first)
  {
  }

  ghost predicate NonDecreasing(r: seq<real>) { forall i, j | 0 <= i < j < |r| :: r[i] <= r[j] }

  lemma PairsNonDecreasing(r: seq<real>, ps: seq<real>)
    requires |r| == 2 * |ps| && forall i | 0 <= i < |ps| :: ps[i] <= 100.0 && Pair(r, i, ps[i])
    ensures NonDecreasing(r) <==> forall i | 1 <= i < |ps| :: ps[i] == 100.0
  {
    if NonDecreasing(r) {
      forall i | 1 <= i < |ps| ensures ps[i] == 100.0 {
        assert Pair(r, i - 1, ps[i - 1]) && Pair(r, i, ps[i]);
        assert r[2 * i - 1] <= r[2 * i];
      }
    }
    if forall i | 1 <= i < |ps| :: ps[i] == 100.0 {
      forall i | 0 < i < |r| ensures r[i] == 100.0 { assert Pair(r, i / 2, ps[i / 2]); }
      if ps != [] { assert Pair(r, 0, ps[0]); }
    }
  }

  function Percents(ns: seq<Number>): (r: seq<real>)
    requires AllWritten(ns)
    ensures |r| == |ns| && forall i | 0 <= i < |ns| :: r[i] == Percent(ns[i])
  {
    seq(|ns|, i requires 0 <= i < |ns| => Percent(ns[i]))
  }

  /** The progress that the callback sees goes back from hundred on every later
      line below hundred: it never goes back exactly when all lines after the
      first say hundred. */
  lemma ProgressMonotoneIff(ns: seq<Number>)
    requires Percentages(ns)
    ensures NonDecreasing(Reports(Numbers(Output(ns)))) <==> forall i | 1 <= i < |ns| :: Percent(ns[i]) == 100.0
  {
    hide Percent, Pair, Reports, Numbers, Paired, NonDecreasing;
    OutputNumbers(ns);
    EveryLineReportsHundred(ns);
    PairsNonDecreasing(Reports(Paired(ns)), Percents(ns));
  }

  /** Two lines of progress: twelve and twenty-five percent are reported as
      twelve, hundred, twenty-five, hundred. */
  lemma ProgressGoesBack(ns: seq<Number>)
    requires ns == [Number("12", ""), Number("25", "")]
    ensures !NonDecreasing(Reports(Numbers(Output(ns))))
  {
    assert "12"[..1] == "1" && "25"[..1] == "2" && "1"[..0] == "" && "2"[..0] == "";
    assert Value("1") == 1 && Value("2") == 2 && Value("12") == 12 && Value("25") == 25 && Value("") == 0;
    assert Percent(ns[0]) == 12.0 && Percent(ns[1]) == 25.0;
    hide Percent, Reports, Numbers, Output, NonDecreasing, Value;
    ProgressMonotoneIff(ns);
  }

  // ---------------------------------------------------------------------
  // Plain percentages
  // ---------------------------------------------------------------------

  function PlainOutput(ns: seq<Number>): string {
    if ns == [] then "" else Shown(ns[0]) + "\n" + PlainOutput(ns[1..])
  }

  lemma {:induction false} PlainNumbers(ns: seq<Number>)
    requires AllWritten(ns)
    ensures Numbers(PlainOutput(ns)) == ns
    decreases |ns|
  {
    hide Percent, NumberAt;
    if ns != [] {
      NumbersOfShown(ns[0]);
      NumbersConcat(Shown(ns[0]), '\n', PlainOutput(ns[1..]));
      PlainNumbers(ns[1..]);
      hide Numbers, Shown;
      assert [ns[0]] + ns[1..] == ns;
    }
  }

  lemma {:induction false} ReportsArePercents(ns: seq<Number>)
    requires Percentages(ns)
    ensures Reports(ns) == Percents(ns)
    decreases |ns|
  {
    hide Percent;
    if ns != [] {
      ReportsArePercents(ns[1..]);
      PercentNonNegative(ns[0]);
      assert Percents(ns) == [Percent(ns[0])] + Percents(ns[1..]);
    }
  }

  /** Percentages on lines of their own are reported one by one. */
  lemma PlainProgress(ns: seq<Number>)
    requires Percentages(ns)
    ensures Reports(Numbers(PlainOutput(ns))) == Percents(ns)
  {
    PlainNumbers(ns);
    ReportsArePercents(ns);
  }
}
