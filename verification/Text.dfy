/** The Python string operations the parsers and generators use, for texts
    without case outside ASCII. */
module Text {
  datatype Option<+T> = None | Some(value: T)

  /** `str.isspace` for a single character. */
  predicate IsSpace(c: char) {
    var k := c as int;
    9 <= k <= 13 || 28 <= k <= 32 || k == 0x85 || k == 0xA0 || k == 0x1680 || 0x2000 <= k <= 0x200A
    || k == 0x2028 || k == 0x2029 || k == 0x202F || k == 0x205F || k == 0x3000
  }

  /** The characters at which `str.splitlines` breaks. */
  predicate IsLineBreak(c: char) {
    var k := c as int;
    10 <= k <= 13 || 28 <= k <= 30 || k == 0x85 || k == 0x2028 || k == 0x2029
  }

  predicate OneLine(s: string) { forall i | 0 <= i < |s| :: !IsLineBreak(s[i]) }

  // ---------------------------------------------------------------------
  // strip
  // ---------------------------------------------------------------------

  function TrimLeft(s: string, drop: char -> bool): string {
    if s != "" && drop(s[0]) then TrimLeft(s[1..], drop) else s
  }

  function TrimRight(s: string, drop: char -> bool): string {
    if s != "" && drop(s[|s| - 1]) then TrimRight(s[..|s| - 1], drop) else s
  }

  function Trim(s: string, drop: char -> bool): string { TrimRight(TrimLeft(s, drop), drop) }

  /** `s.strip()` */
  function Strip(s: string): string { Trim(s, IsSpace) }

  predicate IsQuote(c: char) { c == '"' }

  /** `s.strip('"')` */
  function Unquote(s: string): string { Trim(s, IsQuote) }

  predicate Trimmed(s: string, drop: char -> bool) {
    s != "" ==> !drop(s[0]) && !drop(s[|s| - 1])
  }

  /** A trimmed text is what remains when dropped characters stand around it. */
  lemma {:induction false} TrimAround(a: string, s: string, b: string, drop: char -> bool)
    requires Trimmed(s, drop)
    requires (forall i | 0 <= i < |a| :: drop(a[i])) && (forall i | 0 <= i < |b| :: drop(b[i]))
    ensures Trim(a + s + b, drop) == s
  {
    TrimLeftAround(a, s + b, drop);
    assert a + s + b == a + (s + b);
    if s == "" {
      AllDropped(b, drop);
      assert s + b == b;
    } else {
      assert TrimLeft(s + b, drop) == s + b;
      TrimRightAround(s, b, drop);
    }
  }

  lemma {:induction false} TrimLeftAround(a: string, s: string, drop: char -> bool)
    requires forall i | 0 <= i < |a| :: drop(a[i])
    ensures TrimLeft(a + s, drop) == TrimLeft(s, drop)
    decreases |a|
  {
    if a == "" {
      assert a + s == s;
    } else {
      assert (a + s)[1..] == a[1..] + s;
      TrimLeftAround(a[1..], s, drop);
    }
  }

  lemma {:induction false} TrimRightAround(s: string, b: string, drop: char -> bool)
    requires Trimmed(s, drop) && forall i | 0 <= i < |b| :: drop(b[i])
    ensures TrimRight(s + b, drop) == s
    decreases |b|
  {
    if b == "" {
      assert s + b == s;
    } else {
      assert (s + b)[..|s + b| - 1] == s + b[..|b| - 1];
      TrimRightAround(s, b[..|b| - 1], drop);
    }
  }

  lemma {:induction false} AllDropped(s: string, drop: char -> bool)
    requires forall i | 0 <= i < |s| :: drop(s[i])
    ensures TrimLeft(s, drop) == ""
    decreases |s|
  {
    if s != "" { AllDropped(s[1..], drop); }
  }

  /** Trimming takes a slice of the text, and the slice is trimmed. */
  lemma TrimIsTrimmed(s: string, drop: char -> bool) returns (i: nat, j: nat)
    ensures i <= j <= |s| && Trim(s, drop) == s[i..j] && Trimmed(Trim(s, drop), drop)
    ensures (forall k | 0 <= k < i :: drop(s[k])) && (forall k | j <= k < |s| :: drop(s[k]))
  {
    i := TrimLeftSlice(s, drop);
    var rest := s[i..];
    j := TrimRightSlice(rest, drop);
    assert rest[..j] == s[i..i + j];
    forall k | i + j <= k < |s| ensures drop(s[k]) { assert rest[k - i] == s[k]; }
    j := i + j;
  }

  lemma {:induction false} TrimLeftSlice(s: string, drop: char -> bool) returns (i: nat)
    ensures i <= |s| && TrimLeft(s, drop) == s[i..] && (i < |s| ==> !drop(s[i]))
    ensures forall k | 0 <= k < i :: drop(s[k])
    decreases |s|
  {
    if s != "" && drop(s[0]) {
      i := TrimLeftSlice(s[1..], drop);
      assert s[1..][i..] == s[i + 1..];
      i := i + 1;
    } else {
      i := 0;
    }
  }

  lemma {:induction false} TrimRightSlice(s: string, drop: char -> bool) returns (j: nat)
    ensures j <= |s| && TrimRight(s, drop) == s[..j] && (j > 0 ==> !drop(s[j - 1]))
    ensures forall k | j <= k < |s| :: drop(s[k])
    decreases |s|
  {
    if s != "" && drop(s[|s| - 1]) {
      j := TrimRightSlice(s[..|s| - 1], drop);
      assert s[..|s| - 1][..j] == s[..j];
    } else {
      j := |s|;
    }
  }

  // ---------------------------------------------------------------------
  // lower
  // ---------------------------------------------------------------------

  function LowerChar(c: char): char { if 'A' <= c <= 'Z' then c + 32 as char else c }

  function Lower(s: string): (r: string)
    ensures |r| == |s| && forall i | 0 <= i < |s| :: r[i] == LowerChar(s[i])
  {
    seq(|s|, i requires 0 <= i < |s| => LowerChar(s[i]))
  }

  predicate IsLower(s: string) { forall i | 0 <= i < |s| :: LowerChar(s[i]) == s[i] }

  lemma LowerIsLower(s: string)
    ensures IsLower(Lower(s))
    ensures IsLower(s) ==> Lower(s) == s
  {
  }

  // ---------------------------------------------------------------------
  // partition, join
  // ---------------------------------------------------------------------

  /** Index of the first `c`, or the length when there is none. */
  function IndexOf(s: string, c: char): (k: nat)
    ensures k <= |s|
  {
    if s == "" || s[0] == c then 0 else 1 + IndexOf(s[1..], c)
  }

  lemma {:induction false} IndexOfFirst(s: string, c: char)
    ensures var k := IndexOf(s, c); (k < |s| ==> s[k] == c) && forall i | 0 <= i < k :: s[i] != c
    decreases |s|
  {
    if s != "" && s[0] != c { IndexOfFirst(s[1..], c); }
  }

  lemma {:induction false} IndexOfAfter(a: string, b: string, c: char)
    requires forall i | 0 <= i < |a| :: a[i] != c
    ensures IndexOf(a + [c] + b, c) == |a|
  {
    IndexOfFirst(a + [c] + b, c);
    assert (a + [c] + b)[|a|] == c;
    assert forall i | 0 <= i < |a| :: (a + [c] + b)[i] == a[i];
  }

  function Join(sep: string, parts: seq<string>): string {
    if parts == [] then "" else if |parts| == 1 then parts[0] else parts[0] + sep + Join(sep, parts[1..])
  }

  lemma JoinMore(a: string, ws: seq<string>)
    requires ws != []
    ensures Join(" ", [a] + ws) == a + " " + Join(" ", ws)
  {
    assert ([a] + ws)[1..] == ws;
  }

  // ---------------------------------------------------------------------
  // split() : maximal runs of non-blank characters
  // ---------------------------------------------------------------------

  predicate IsWord(w: string) { w != "" && forall i | 0 <= i < |w| :: !IsSpace(w[i]) }

  /** Length of the run of non-blank characters at the front. */
  function RunLength(s: string): (k: nat)
    ensures k <= |s| && (k < |s| ==> IsSpace(s[k])) && forall i | 0 <= i < k :: !IsSpace(s[i])
  {
    if s == "" || IsSpace(s[0]) then 0 else 1 + RunLength(s[1..])
  }

  /** `s.split()` */
  function Fields(s: string): seq<string>
    decreases |s|
  {
    if s == "" then []
    else if IsSpace(s[0]) then Fields(s[1..])
    else [s[..RunLength(s)]] + Fields(s[RunLength(s)..])
  }

  lemma {:induction false} FieldsAreWords(s: string)
    ensures forall i | 0 <= i < |Fields(s)| :: IsWord(Fields(s)[i])
    decreases |s|
  {
    if s != "" {
      if IsSpace(s[0]) { FieldsAreWords(s[1..]); } else { FieldsAreWords(s[RunLength(s)..]); }
    }
  }

  /** Splitting distributes over a concatenation at a blank. */
  lemma {:induction false} FieldsConcat(a: string, c: char, b: string)
    requires IsSpace(c)
    ensures Fields(a + [c] + b) == Fields(a) + Fields(b)
    decreases |a|
  {
    var s := a + [c] + b;
    if a == "" {
      assert s[1..] == b;
    } else if IsSpace(a[0]) {
      assert s[1..] == a[1..] + [c] + b;
      FieldsConcat(a[1..], c, b);
    } else {
      var k := RunLength(a);
      assert RunLength(s) == k by {
        assert s[k] == if k < |a| then a[k] else c;
        assert forall i | 0 <= i < k :: s[i] == a[i];
      }
      assert s[..k] == a[..k];
      assert s[k..] == a[k..] + [c] + b;
      FieldsConcat(a[k..], c, b);
    }
  }

  lemma WordIsField(w: string)
    requires IsWord(w)
    ensures Fields(w) == [w]
  {
    assert RunLength(w) == |w|;
    assert w[..|w|] == w && w[|w|..] == "";
  }

  // ---------------------------------------------------------------------
  // Numbers
  // ---------------------------------------------------------------------

  function Digit(d: nat): char requires d < 10 { '0' + d as char }

  predicate IsDigit(c: char) { '0' <= c <= '9' }

  /** Decimal notation, as `str` gives it. */
  function Dec(n: nat): (s: string)
    ensures s != "" && forall i | 0 <= i < |s| :: IsDigit(s[i])
  {
    if n < 10 then [Digit(n)] else Dec(n / 10) + [Digit(n % 10)]
  }

  function Value(s: string): nat
    requires forall i | 0 <= i < |s| :: IsDigit(s[i])
  {
    if s == "" then 0
    else
      assert IsDigit(s[|s| - 1]);
      10 * Value(s[..|s| - 1]) + (s[|s| - 1] - '0') as nat
  }

  lemma {:induction false} ValueOfDec(n: nat)
    ensures Value(Dec(n)) == n
  {
    if n >= 10 {
      ValueOfDec(n / 10);
      var s := Dec(n);
      assert s[..|s| - 1] == Dec(n / 10);
    }
  }

  lemma DecInjective(m: nat, n: nat)
    requires Dec(m) == Dec(n)
    ensures m == n
  {
    ValueOfDec(m);
    ValueOfDec(n);
  }

  /** `str` of an integer. */
  function Str(n: int): string { if n < 0 then "-" + Dec(-n) else Dec(n) }

  /** The digits of an integer literal: single underscores may stand between
      digits. */
  predicate DigitRun(s: string) {
    s != "" && IsDigit(s[0]) && IsDigit(s[|s| - 1])
    && (forall i | 0 <= i < |s| :: IsDigit(s[i]) || s[i] == '_')
    && (forall i | 0 < i < |s| :: !(s[i - 1] == '_' && s[i] == '_'))
  }

  function DropUnderscores(s: string): (r: string)
    ensures (forall i | 0 <= i < |s| :: IsDigit(s[i]) || s[i] == '_') ==> forall i | 0 <= i < |r| :: IsDigit(r[i])
  {
    if s == "" then "" else (if s[0] == '_' then "" else [s[0]]) + DropUnderscores(s[1..])
  }

  /** `int(text)`; `None` where Python raises `ValueError`. */
  function ParseInt(text: string): Option<int> {
    var s := Strip(text);
    var digits := if s != "" && (s[0] == '-' || s[0] == '+') then s[1..] else s;
    if !DigitRun(digits) then None
    else
      var n: int := Value(DropUnderscores(digits));
      Some(if s[0] == '-' then -n else n)
  }

  lemma {:induction false} NoUnderscores(s: string)
    requires forall i | 0 <= i < |s| :: IsDigit(s[i])
    ensures DropUnderscores(s) == s
    decreases |s|
  {
    if s != "" { NoUnderscores(s[1..]); }
  }

  lemma DigitsAreWord(s: string)
    requires s != "" && forall i | 0 <= i < |s| :: IsDigit(s[i])
    ensures IsWord(s) && Trimmed(s, IsSpace)
  {
    forall i | 0 <= i < |s| ensures !IsSpace(s[i]) { assert IsDigit(s[i]); }
  }

  lemma StrIsWord(n: int)
    ensures IsWord(Str(n)) && Trimmed(Str(n), IsSpace)
    ensures forall i | 0 <= i < |Str(n)| :: IsDigit(Str(n)[i]) || Str(n)[i] == '-'
  {
    DigitsAreWord(Dec(if n < 0 then -n else n));
  }

  lemma DigitRunOfDec(n: nat)
    ensures DigitRun(Dec(n)) && Value(DropUnderscores(Dec(n))) == n
  {
    NoUnderscores(Dec(n));
    ValueOfDec(n);
    assert forall i | 0 <= i < |Dec(n)| :: IsDigit(Dec(n)[i]);
  }

  lemma StripWord(s: string)
    requires Trimmed(s, IsSpace)
    ensures Strip(s) == s
  {
    assert "" + s + "" == s;
    TrimAround("", s, "", IsSpace);
  }

  lemma ParseIntOfStr(n: int)
    ensures ParseInt(Str(n)) == Some(n)
  {
    StrIsWord(n);
    StripWord(Str(n));
    DigitRunOfDec(if n < 0 then -n else n);
    assert n >= 0 ==> IsDigit(Dec(n)[0]);
    hide Strip, Dec, DigitRun, DropUnderscores;
    assert n < 0 ==> Str(n)[1..] == Dec(-n);
  }
}
