/** The VMX parser (vmfree/parsers/vmx.py). */
module VmxParser {
  import opened Text
  import opened Lines

  // ---------------------------------------------------------------------
  // Key-value pairs
  // ---------------------------------------------------------------------

  /** What one line contributes: nothing, or a key and a value. */
  function Entry(line: string): Option<(string, string)> {
    var s := Strip(line);
    if s == "" || s[0] == '#' then None
    else
      var k := IndexOf(s, '=');
      if k == |s| then None else Some((KeyOf(s), ValueOf(s)))
  }

  /** The dictionary after the given lines; later lines win. */
  function Entries(lines: seq<string>): map<string, string> {
    if lines == [] then map[]
    else
      var before := Entries(lines[..|lines| - 1]);
      match Entry(lines[|lines| - 1])
      case None => before
      case Some((key, value)) => before[key := value]
  }

  function Parsed(text: string): map<string, string> { Entries(SplitLines(text)) }

  /** A line that is neither blank nor a comment gives a key its value. */
  ghost predicate Assigns(line: string, key: string, value: string) {
    var s := Strip(line);
    s != "" && s[0] != '#' && Splits(s, key, value)
  }

  /** Line i gives the key its value and no later line gives it one. */
  ghost predicate AssignsLast(lines: seq<string>, i: nat, key: string, value: string) {
    && i < |lines| && Assigns(lines[i], key, value)
    && forall j, v | i < j < |lines| :: !Assigns(lines[j], key, v)
  }

  /** The dictionary has the key exactly when some line gives it a value, and then it
      has the value of the last such line. */
  ghost predicate IsRead(m: map<string, string>, lines: seq<string>, key: string) {
    if key in m then exists i: nat :: AssignsLast(lines, i, key, m[key])
    else forall i, v | 0 <= i < |lines| :: !Assigns(lines[i], key, v)
  }

  lemma EntryIff(line: string, key: string, value: string)
    ensures Entry(line) == Some((key, value)) <==> Assigns(line, key, value)
  {
    SplitsIff(Strip(line), key, value);
    hide Splits, KeyOf, ValueOf, IndexOf, Strip;
  }

  /** A key has a value exactly when some line gives it one, and then it has that of
      the last such line. */
  lemma {:induction false} LastLineWins(lines: seq<string>, key: string, value: string)
    ensures key in Entries(lines) && Entries(lines)[key] == value <==>
      exists i: nat :: AssignsLast(lines, i, key, value)
    ensures key !in Entries(lines) <==> forall i, v | 0 <= i < |lines| :: !Assigns(lines[i], key, v)
    decreases |lines|
  {
    hide Entry, Assigns;
    if lines == [] {
      forall i: nat ensures !AssignsLast(lines, i, key, value) { }
    } else {
      var n := |lines| - 1;
      var front := lines[..n];
      LastLineWins(front, key, value);
      forall v ensures Entry(lines[n]) == Some((key, v)) <==> Assigns(lines[n], key, v) { EntryIff(lines[n], key, v); }
      assert forall i | 0 <= i < n :: front[i] == lines[i];
      LastOfMore(lines, key, value);
    }
  }

  lemma EntriesAreRead(lines: seq<string>)
    ensures forall key :: IsRead(Entries(lines), lines, key)
  {
    hide Entries, AssignsLast, Assigns;
    forall key ensures IsRead(Entries(lines), lines, key) {
      LastLineWins(lines, key, if key in Entries(lines) then Entries(lines)[key] else "");
    }
  }

  lemma LastOfMore(lines: seq<string>, key: string, value: string)
    requires lines != []
    ensures var n := |lines| - 1;
      && (Assigns(lines[n], key, value) ==> AssignsLast(lines, n, key, value))
      && ((exists i: nat :: AssignsLast(lines, i, key, value)) <==>
            Assigns(lines[n], key, value)
            || ((forall v :: !Assigns(lines[n], key, v)) && exists i: nat :: AssignsLast(lines[..n], i, key, value)))
  {
    hide Assigns;
    var n := |lines| - 1;
    var front := lines[..n];
    assert forall i | 0 <= i < n :: front[i] == lines[i];
    if i: nat :| AssignsLast(lines, i, key, value) && i < n { assert AssignsLast(front, i, key, value); }
    if (forall v :: !Assigns(lines[n], key, v)) && exists i: nat :: AssignsLast(front, i, key, value) {
      var i: nat :| AssignsLast(front, i, key, value);
      assert AssignsLast(lines, i, key, value) by {
        forall j, v | i < j < |lines| ensures !Assigns(lines[j], key, v) { if j < n { assert front[j] == lines[j]; } }
      }
    }
  }

  method ParseVmxKeyvalues(text: string) returns (result: map<string, string>)
    ensures forall key :: IsRead(result, SplitLines(text), key)
    ensures result == Parsed(text)
  {
    EntriesAreRead(SplitLines(text));
    hide IsRead, Splits;
    result := map[];
    var lines := SplitLines(text);
    var i := 0;
    while i < |lines|
      invariant 0 <= i <= |lines| && result == Entries(lines[..i])
    {
      assert lines[..i + 1][..i] == lines[..i];
      var line := Strip(lines[i]);
      i := i + 1;
      if line == "" || line[0] == '#' {
        continue;
      }
      var k := IndexOf(line, '=');
      if k == |line| {
        continue;
      }
      result := result[KeyOf(line) := ValueOf(line)];
    }
    assert lines[..i] == lines;
  }

  // ---------------------------------------------------------------------
  // Normal form
  // ---------------------------------------------------------------------

  predicate Canonical(m: map<string, string>) {
    forall k | k in m :: CanonicalKey(k) && CanonicalValue(m[k])
  }

  /** Whatever a line contributes is in normal form. */
  lemma EntryCanonical(line: string)
    requires OneLine(line) && Entry(line).Some?
    ensures CanonicalKey(Entry(line).value.0) && CanonicalValue(Entry(line).value.1)
  {
    var i, j := TrimIsTrimmed(line, IsSpace);
    var s := Strip(line);
    var k := IndexOf(s, '=');
    IndexOfFirst(s, '=');
    KeyCanonical(s, k);
    ValueCanonical(s, k);
  }

  /** Every dictionary the parser returns is in normal form. */
  lemma {:induction false} EntriesCanonical(lines: seq<string>)
    requires forall i | 0 <= i < |lines| :: OneLine(lines[i])
    ensures Canonical(Entries(lines))
    decreases |lines|
  {
    if lines != [] {
      var last := lines[|lines| - 1];
      EntriesCanonical(lines[..|lines| - 1]);
      if Entry(last).Some? { EntryCanonical(last); }
    }
  }

  // ---------------------------------------------------------------------
  // Printing
  // ---------------------------------------------------------------------

  function Printed(keys: seq<string>, m: map<string, string>): string
    requires forall i | 0 <= i < |keys| :: keys[i] in m
  {
    if keys == [] then "" else PrintedLine(keys[0], m[keys[0]]) + "\n" + Printed(keys[1..], m)
  }

  /** A printed line is read back as the pair it came from. */
  lemma EntryOfPrinted(k: string, v: string)
    requires CanonicalKey(k) && CanonicalValue(v)
    ensures Entry(PrintedLine(k, v)) == Some((k, v))
  {
    PrintedIsRead(k, v);
  }

  /** The lines of a printed dictionary. */
  function PrintedLines(keys: seq<string>, m: map<string, string>): (r: seq<string>)
    requires forall i | 0 <= i < |keys| :: keys[i] in m
    ensures |r| == |keys|
  {
    seq(|keys|, i requires 0 <= i < |keys| => PrintedLine(keys[i], m[keys[i]]))
  }

  lemma {:induction false} LinesOfPrinted(keys: seq<string>, m: map<string, string>)
    requires Canonical(m) && forall i | 0 <= i < |keys| :: keys[i] in m
    ensures SplitLines(Printed(keys, m)) == PrintedLines(keys, m)
    decreases |keys|
  {
    hide PrintedLine, OneLine;
    if keys != [] {
      PrintedIsOneLine(keys[0], m[keys[0]]);
      SplitFirstLine(PrintedLine(keys[0], m[keys[0]]), Printed(keys[1..], m));
      LinesOfPrinted(keys[1..], m);
      assert PrintedLines(keys, m) == [PrintedLine(keys[0], m[keys[0]])] + PrintedLines(keys[1..], m);
    }
  }

  lemma OneMoreKey(keys: seq<string>, m: map<string, string>)
    requires keys != [] && forall i | 0 <= i < |keys| :: keys[i] in m
    ensures var n := |keys| - 1;
      (map k | k in keys[..n] :: m[k])[keys[n] := m[keys[n]]] == map k | k in keys :: m[k]
  {
    assert keys == keys[..|keys| - 1] + [keys[|keys| - 1]];
  }

  lemma {:induction false} EntriesOfPrinted(keys: seq<string>, m: map<string, string>)
    requires Canonical(m) && forall i | 0 <= i < |keys| :: keys[i] in m
    ensures Entries(PrintedLines(keys, m)) == map k | k in keys :: m[k]
    decreases |keys|
  {
    hide PrintedLine, Entry, CanonicalKey, CanonicalValue;
    if keys != [] {
      var n := |keys| - 1;
      EntriesOfPrinted(keys[..n], m);
      assert CanonicalKey(keys[n]) && CanonicalValue(m[keys[n]]);
      EntryOfPrinted(keys[n], m[keys[n]]);
      assert PrintedLines(keys, m)[..n] == PrintedLines(keys[..n], m);
      OneMoreKey(keys, m);
    }
  }

  /** A dictionary in normal form survives printing and parsing, in whatever
      order its keys are printed. */
  lemma PrintThenParse(m: map<string, string>, keys: seq<string>)
    requires Canonical(m) && ListsKeys(keys, m)
    ensures Parsed(Printed(keys, m)) == m
  {
    LinesOfPrinted(keys, m);
    EntriesOfPrinted(keys, m);
  }

  /** Round trip for EVERY text: parse, print, parse again. */
  lemma ParsePrintParse(text: string, keys: seq<string>)
    requires ListsKeys(keys, Parsed(text))
    ensures Parsed(Printed(keys, Parsed(text))) == Parsed(text)
  {
    LinesAreOneLine(text);
    EntriesCanonical(SplitLines(text));
    PrintThenParse(Parsed(text), keys);
  }

  lemma {:induction false} KeysListed(m: map<string, string>, rest: set<string>) returns (keys: seq<string>)
    requires rest <= m.Keys
    ensures forall k :: k in keys <==> k in rest
    decreases rest
  {
    if rest == {} {
      keys := [];
    } else {
      var k :| k in rest;
      keys := KeysListed(m, rest - {k});
      keys := [k] + keys;
    }
  }

  /** The dictionaries that some text stands for are exactly the ones in normal form. */
  lemma ParserRange(m: map<string, string>)
    ensures Canonical(m) <==> exists text :: Parsed(text) == m
  {
    if Canonical(m) {
      var keys := KeysListed(m, m.Keys);
      PrintThenParse(m, keys);
    }
    forall text | Parsed(text) == m ensures Canonical(m) {
      LinesAreOneLine(text);
      EntriesCanonical(SplitLines(text));
    }
  }
}
