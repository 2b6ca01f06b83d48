/** Lines of text and the `key = "value"` notation shared by VMX files and VMDK
    descriptors. */
module Lines {
  import opened Text

  // ---------------------------------------------------------------------
  // Lines
  // ---------------------------------------------------------------------

  function LineEnd(s: string): (k: nat)
    ensures k <= |s|
  {
    if s == "" || IsLineBreak(s[0]) then 0 else 1 + LineEnd(s[1..])
  }

  /** `s.splitlines()` */
  function SplitLines(s: string): seq<string>
    decreases |s|
  {
    if s == "" then []
    else
      var k := LineEnd(s);
      if k == |s| then [s]
      else if s[k] == '\r' && k + 1 < |s| && s[k + 1] == '\n' then [s[..k]] + SplitLines(s[k + 2..])
      else [s[..k]] + SplitLines(s[k + 1..])
  }

  lemma {:induction false} LineEndFirst(s: string)
    ensures var k := LineEnd(s); (k < |s| ==> IsLineBreak(s[k])) && OneLine(s[..k])
    decreases |s|
  {
    if s != "" && !IsLineBreak(s[0]) {
      LineEndFirst(s[1..]);
      assert s[..LineEnd(s)] == [s[0]] + s[1..][..LineEnd(s[1..])];
    }
  }

  lemma {:induction false} LinesAreOneLine(s: string)
    ensures forall i | 0 <= i < |SplitLines(s)| :: OneLine(SplitLines(s)[i])
    decreases |s|
  {
    if s != "" {
      var k := LineEnd(s);
      LineEndFirst(s);
      assert s[..|s|] == s;
      if k < |s| {
        if s[k] == '\r' && k + 1 < |s| && s[k + 1] == '\n' { LinesAreOneLine(s[k + 2..]); }
        else { LinesAreOneLine(s[k + 1..]); }
      }
    }
  }

  lemma SplitFirstLine(line: string, rest: string)
    requires OneLine(line)
    ensures SplitLines(line + "\n" + rest) == [line] + SplitLines(rest)
  {
    var s := line + "\n" + rest;
    LineEndFirst(s);
    var k := LineEnd(s);
    assert s[|line|] == '\n';
    assert forall i | 0 <= i < |line| :: s[i] == line[i];
    assert forall i | 0 <= i < k :: s[..k][i] == s[i];
    assert k == |line|;
    assert s[..k] == line && s[k + 1..] == rest;
  }

  // ---------------------------------------------------------------------
  // key = "value"
  // ---------------------------------------------------------------------

  /** `line.partition("=")[0].strip().lower()` */
  function KeyOf(s: string): string { Lower(Strip(s[..IndexOf(s, '=')])) }

  /** `line.partition("=")[2].strip().strip('"')` */
  function ValueOf(s: string): string {
    var k := IndexOf(s, '=');
    if k == |s| then "" else Unquote(Strip(s[k + 1..]))
  }

  predicate CanonicalKey(k: string) {
    && OneLine(k) && Trimmed(k, IsSpace) && IsLower(k)
    && (forall i | 0 <= i < |k| :: k[i] != '=') && (k != "" ==> k[0] != '#')
  }

  predicate CanonicalValue(v: string) { OneLine(v) && Trimmed(v, IsQuote) }

  lemma LowerKeepsShape(s: string)
    requires OneLine(s) && Trimmed(s, IsSpace) && forall i | 0 <= i < |s| :: s[i] != '='
    ensures var r := Lower(s);
      OneLine(r) && Trimmed(r, IsSpace) && IsLower(r) && forall i | 0 <= i < |r| :: r[i] != '='
  {
    LowerIsLower(s);
    forall c: char ensures IsSpace(LowerChar(c)) <==> IsSpace(c) { }
    forall c: char ensures IsLineBreak(LowerChar(c)) <==> IsLineBreak(c) { }
  }

  lemma SliceOneLine(s: string, i: nat, j: nat)
    requires OneLine(s) && i <= j <= |s|
    ensures OneLine(s[i..j])
  {
  }

  lemma KeyCanonical(s: string, k: nat)
    requires OneLine(s) && Trimmed(s, IsSpace) && s != "" && s[0] != '#' && k < |s|
    requires forall i | 0 <= i < k :: s[i] != '='
    ensures CanonicalKey(Lower(Strip(s[..k])))
  {
    var i, j := TrimIsTrimmed(s[..k], IsSpace);
    var key := Strip(s[..k]);
    assert key == s[..k][i..j] == s[i..j];
    LowerKeepsShape(key);
    if key != "" {
      assert k > 0 && s[..k][0] == s[0];
      assert i == 0;
      assert key[0] == s[0];
    }
  }

  lemma ValueCanonical(s: string, k: nat)
    requires OneLine(s) && k < |s|
    ensures CanonicalValue(Unquote(Strip(s[k + 1..])))
  {
    var rest := s[k + 1..];
    var i, j := TrimIsTrimmed(rest, IsSpace);
    SliceOneLine(s, k + 1, |s|);
    SliceOneLine(rest, i, j);
    var v := Strip(rest);
    var a, b := TrimIsTrimmed(v, IsQuote);
    SliceOneLine(v, a, b);
  }

  function PrintedLine(k: string, v: string): string { k + " = \"" + v + "\"" }

  lemma PrintedValue(v: string)
    requires Trimmed(v, IsQuote)
    ensures Unquote(Strip(" \"" + v + "\"")) == v
  {
    var q := "\"" + v + "\"";
    assert " \"" + v + "\"" == " " + q + "";
    TrimAround(" ", q, "", IsSpace);
    TrimAround("\"", v, "\"", IsQuote);
  }

  lemma PrintedKey(k: string)
    requires Trimmed(k, IsSpace)
    ensures Strip(k + " ") == k
  {
    assert k + " " == "" + k + " ";
    TrimAround("", k, " ", IsSpace);
  }

  /** The stripped form of a printed line: a leading blank goes only when the
      key is empty. */
  lemma PrintedStripped(k: string, v: string)
    requires Trimmed(k, IsSpace)
    ensures Strip(PrintedLine(k, v)) == (if k == "" then "" else k + " ") + "=" + " \"" + v + "\""
  {
    var s := (if k == "" then "" else k + " ") + "=" + " \"" + v + "\"";
    assert s[|s| - 1] == '"' && s[0] == (if k == "" then '=' else k[0]);
    var lead := if k == "" then " " else "";
    assert PrintedLine(k, v) == lead + s + "";
    TrimAround(lead, s, "", IsSpace);
  }

  /** A printed line shows its key and its value. */
  lemma PrintedIsRead(k: string, v: string)
    requires CanonicalKey(k) && CanonicalValue(v)
    ensures var s := Strip(PrintedLine(k, v));
      && s != "" && s[0] != '#' && IndexOf(s, '=') < |s| && KeyOf(s) == k && ValueOf(s) == v
      && k <= s
  {
    var front := if k == "" then "" else k + " ";
    var tail := " \"" + v + "\"";
    var s := front + "=" + tail;
    PrintedStripped(k, v);
    assert s == front + "=" + " \"" + v + "\"";
    assert s == front + ['='] + tail;
    IndexOfAfter(front, tail, '=');
    assert s[..|front|] == front && s[|front| + 1..] == tail;
    PrintedKey(k);
    StripWord(k);
    PrintedValue(v);
    LowerIsLower(k);
    assert s[0] == if k == "" then '=' else k[0];
  }

  lemma PrintedIsOneLine(k: string, v: string)
    requires OneLine(k) && OneLine(v)
    ensures OneLine(PrintedLine(k, v))
  {
    assert OneLine(" = \"") && OneLine("\"");
  }

  /** The keys of a dictionary, in some order. */
  ghost predicate ListsKeys(keys: seq<string>, m: map<string, string>) { forall k :: k in keys <==> k in m }

  /** A text that is cut at its first equals sign: the key in front of it without
      blanks around and in lower case, the value behind it without blanks and then
      without quotes around. */
  ghost predicate Splits(s: string, key: string, value: string) {
    exists a, b :: CutAtEquals(s, a, b) && key == Lower(Strip(a)) && value == Unquote(Strip(b))
  }

  predicate CutAtEquals(s: string, a: string, b: string) { s == a + "=" + b && '=' !in a }

  lemma CutAt(s: string, k: nat)
    requires k < |s| && s[k] == '=' && forall i | 0 <= i < k :: s[i] != '='
    ensures CutAtEquals(s, s[..k], s[k + 1..])
  {
    assert s[..k] + "=" + s[k + 1..] == s;
  }

  lemma CutsApart(a: string, b: string)
    requires '=' !in a
    ensures var s := a + "=" + b; IndexOf(s, '=') == |a| < |s| && s[..|a|] == a && s[|a| + 1..] == b
  {
    IndexOfAfter(a, b, '=');
    hide IndexOf;
    assert a + "=" + b == a + ['='] + b;
  }

  lemma CutIff(s: string, a: string, b: string)
    ensures CutAtEquals(s, a, b) <==>
      var k := IndexOf(s, '='); k < |s| && a == s[..k] && b == s[k + 1..]
  {
    IndexOfFirst(s, '=');
    if CutAtEquals(s, a, b) { CutsApart(a, b); }
    hide CutAtEquals, IndexOf;
    if IndexOf(s, '=') < |s| { CutAt(s, IndexOf(s, '=')); }
  }

  lemma SplitsIff(s: string, key: string, value: string)
    ensures Splits(s, key, value) <==> IndexOf(s, '=') < |s| && KeyOf(s) == key && ValueOf(s) == value
  {
    hide Lower, Strip, Unquote, IndexOf, CutAtEquals;
    var k := IndexOf(s, '=');
    if k < |s| { CutIff(s, s[..k], s[k + 1..]); }
    if a, b :| CutAtEquals(s, a, b) && key == Lower(Strip(a)) && value == Unquote(Strip(b)) { CutIff(s, a, b); }
  }
}
