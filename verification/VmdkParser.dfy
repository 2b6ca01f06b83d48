/** The VMDK descriptor parser (vmfree/parsers/vmdk.py). */
module VmdkParser {
  import opened Text
  import opened Lines

  const SECTOR_SIZE := 512

  datatype Extent = Extent(access: string, sectors: int, extentType: string, filename: string)

  datatype Info = Info(version: int, cid: string, parentCid: string, createType: string,
                       extents: seq<Extent>, ddb: map<string, string>)

  const EMPTY := Info(1, "ffffffff", "ffffffff", "", [], map[])

  // ---------------------------------------------------------------------
  // Extent lines
  // ---------------------------------------------------------------------

  predicate IsAccess(w: string) { w == "RW" || w == "RDONLY" || w == "NOACCESS" }

  predicate IsExtentLine(line: string) {
    var parts := Fields(line);
    |parts| >= 4 && IsAccess(parts[0])
  }

  function ParseExtentLine(line: string): Option<Extent> {
    var parts := Fields(line);
    if |parts| < 4 || !IsAccess(parts[0]) then None
    else match ParseInt(parts[1])
      case None => None
      case Some(sectors) => Some(Extent(parts[0], sectors, parts[2], Unquote(Join(" ", parts[3..]))))
  }

  function PrintedExtent(e: Extent): string {
    e.access + " " + Str(e.sectors) + " " + e.extentType + " " + ("\"" + e.filename + "\"")
  }

  /** Blanks are single spaces. */
  predicate SingleSpaced(s: string) {
    && (forall i | 0 <= i < |s| && IsSpace(s[i]) :: s[i] == ' ')
    && (forall i | 0 < i < |s| && s[i] == ' ' :: s[i - 1] != ' ')
  }

  /** What follows the first word of a single-spaced text. */
  lemma AfterFirstWord(s: string)
    requires SingleSpaced(s) && Trimmed(s, IsSpace) && s != "" && RunLength(s) < |s|
    ensures var rest := s[RunLength(s) + 1..];
      s[RunLength(s)] == ' ' && rest != "" && SingleSpaced(rest) && Trimmed(rest, IsSpace)
  {
    var k := RunLength(s);
    var rest := s[k + 1..];
    assert s[k] == ' ' && IsSpace(' ') && k + 1 < |s|;
    assert s[k + 1] == rest[0] && rest[|rest| - 1] == s[|s| - 1];
    forall i | 0 < i < |rest| && rest[i] == ' ' ensures rest[i - 1] != ' ' { assert s[k + 1 + i] == ' '; }
    assert s[k + 1] == ' ' || !IsSpace(s[k + 1]);
  }

  lemma FieldsStep(s: string)
    requires s != "" && !IsSpace(s[0]) && RunLength(s) < |s| && s[RunLength(s)] == ' '
    ensures Fields(s) == [s[..RunLength(s)]] + Fields(s[RunLength(s) + 1..])
  {
    var k := RunLength(s);
    assert IsSpace(' ') && s[k..][0] == ' ';
    hide RunLength, IsSpace;
    assert s[k..][1..] == s[k + 1..];
    assert Fields(s) == [s[..k]] + Fields(s[k..]);
  }

  lemma JoinOfWord(s: string)
    requires s != "" && RunLength(s) == |s|
    ensures Join(" ", Fields(s)) == s
  {
    WordIsField(s);
  }

  lemma JoinOfRest(s: string)
    requires s != "" && !IsSpace(s[0]) && RunLength(s) < |s| && s[RunLength(s)] == ' '
    requires var rest := s[RunLength(s) + 1..]; rest != "" && Join(" ", Fields(rest)) == rest
    ensures Join(" ", Fields(s)) == s
  {
    var k := RunLength(s);
    FieldsStep(s);
    assert Fields(s[k + 1..]) != [] by { assert Join(" ", []) == ""; }
    hide IsSpace, Fields, Join, RunLength;
    JoinMore(s[..k], Fields(s[k + 1..]));
    assert s == s[..k] + " " + s[k + 1..];
  }

  /** Splitting and joining again leaves a single-spaced text alone, unless it
      has a blank at an end. */
  lemma {:induction false} JoinOfFields(s: string)
    requires SingleSpaced(s) && Trimmed(s, IsSpace)
    ensures Join(" ", Fields(s)) == s
    decreases |s|
  {
    hide SingleSpaced, IsSpace, Fields, RunLength;
    if s == "" {
      assert Fields("") == [] by { NoFields(); }
    } else if RunLength(s) == |s| {
      JoinOfWord(s);
    } else {
      AfterFirstWord(s);
      JoinOfFields(s[RunLength(s) + 1..]);
      JoinOfRest(s);
    }
  }

  lemma NoFields()
    ensures Fields("") == []
  {
  }

  lemma {:induction false} JoinIsSingleSpaced(ws: seq<string>)
    requires forall i | 0 <= i < |ws| :: IsWord(ws[i])
    ensures SingleSpaced(Join(" ", ws)) && Trimmed(Join(" ", ws), IsSpace) && (ws != [] ==> Join(" ", ws) != "")
    decreases |ws|
  {
    if |ws| > 1 {
      JoinIsSingleSpaced(ws[1..]);
      var a, b := ws[0], Join(" ", ws[1..]);
      var s := a + " " + b;
      assert IsWord(a) && !IsSpace(a[|a| - 1]) && !IsSpace(b[0]) && !IsSpace(b[|b| - 1]);
      assert IsSpace(' ') && forall i | 0 <= i < |a| :: s[i] == a[i];
      forall i | |a| <= i < |s| && IsSpace(s[i]) ensures s[i] == ' ' && s[i - 1] != ' ' {
        if i == |a| {
          assert s[i - 1] == a[|a| - 1];
        } else {
          assert s[i] == b[i - |a| - 1];
          if i - |a| - 1 > 0 { assert s[i - 1] == b[i - |a| - 2]; }
        }
      }
    } else if |ws| == 1 {
      assert IsWord(ws[0]);
      assert IsSpace(' ');
    }
  }

  lemma SliceSingleSpaced(s: string, i: nat, j: nat)
    requires SingleSpaced(s) && i <= j <= |s|
    ensures SingleSpaced(s[i..j])
  {
    var r := s[i..j];
    forall k | 0 < k < |r| && r[k] == ' ' ensures r[k - 1] != ' ' { assert s[i + k] == ' '; }
  }

  /** A quoted name comes through exactly when it is single-spaced and does not
      start or end with a quote. */
  lemma QuotedNameIff(name: string)
    ensures Unquote(Join(" ", Fields("\"" + name + "\""))) == name <==> SingleSpaced(name) && Trimmed(name, IsQuote)
  {
    var q := "\"" + name + "\"";
    assert IsSpace(' ') && !IsSpace('"');
    if SingleSpaced(name) && Trimmed(name, IsQuote) {
      assert SingleSpaced(q);
      JoinOfFields(q);
      TrimAround("\"", name, "\"", IsQuote);
    }
    FieldsAreWords(q);
    JoinIsSingleSpaced(Fields(q));
    var i, j := TrimIsTrimmed(Join(" ", Fields(q)), IsQuote);
    SliceSingleSpaced(Join(" ", Fields(q)), i, j);
  }

  lemma JoinedWithOffset(q: string, offset: string)
    requires IsWord(offset) && q != "" && !IsSpace(q[0])
    ensures var joined := Join(" ", Fields(q)) + " " + offset;
      Join(" ", Fields(q + " " + offset)) == joined && SingleSpaced(joined)
  {
    hide IsSpace, IsWord, Fields, Join, SingleSpaced;
    FieldsBlank(q, offset);
    WordIsField(offset);
    FieldsAreWords(q + " " + offset);
    FieldsNonEmpty(q);
    JoinLast(Fields(q), offset);
    JoinIsSingleSpaced(Fields(q + " " + offset));
  }

  lemma BlankIsSpace()
    ensures IsSpace(' ') && !IsSpace('"')
  {
  }

  /** Behind the name, if that is read as it was written, there is still the offset. */
  lemma TrimLeavesOffset(name: string, joined: string, offset: string)
    requires offset != "" && !IsQuote(offset[|offset| - 1])
    requires joined == "\"" + name + "\" " + offset
    ensures Trim(joined, IsQuote) != name
  {
    var i, j := TrimIsTrimmed(joined, IsQuote);
    assert joined[|joined| - 1] == offset[|offset| - 1] && joined[0] == '"';
    if name != "" { assert joined[1] == name[0]; }
  }

  /** An offset behind the quoted name is taken for a part of it: whatever the name
      is, another one is read back. */
  lemma OffsetStaysInName(name: string, offset: string)
    requires IsWord(offset) && !IsQuote(offset[|offset| - 1])
    ensures Unquote(Join(" ", Fields("\"" + name + "\" " + offset))) != name
  {
    var q := "\"" + name + "\"";
    BlankIsSpace();
    assert "\"" + name + "\" " + offset == q + " " + offset;
    JoinedWithOffset(q, offset);
    var joined := Join(" ", Fields(q)) + " " + offset;
    hide Fields, Join, IsSpace;
    if Unquote(joined) == name {
      var i, j := TrimIsTrimmed(joined, IsQuote);
      SliceSingleSpaced(joined, i, j);
      QuotedIsSingleSpaced(name);
      JoinOfFields(q);
      assert joined == "\"" + name + "\" " + offset;
      TrimLeavesOffset(name, joined, offset);
    }
  }

  lemma QuotedIsSingleSpaced(name: string)
    requires SingleSpaced(name)
    ensures var q := "\"" + name + "\""; SingleSpaced(q) && Trimmed(q, IsSpace)
  {
  }

  lemma {:induction false} JoinLast(ws: seq<string>, w: string)
    requires ws != []
    ensures Join(" ", ws + [w]) == Join(" ", ws) + " " + w
    decreases |ws|
  {
    assert (ws + [w])[1..] == ws[1..] + [w];
    if |ws| > 1 { JoinLast(ws[1..], w); }
  }

  lemma FieldsBlank(a: string, b: string)
    ensures Fields(a + " " + b) == Fields(a) + Fields(b)
  {
    BlankIsSpace();
    hide IsSpace, Fields;
    assert a + " " + b == a + [' '] + b;
    FieldsConcat(a, ' ', b);
  }

  lemma FieldsOfExtent(a: string, n: string, t: string, q: string)
    requires IsWord(a) && IsWord(n) && IsWord(t)
    ensures Fields(a + " " + n + " " + t + " " + q) == [a, n, t] + Fields(q)
  {
    hide IsWord, Fields;
    FieldsBlank(a + " " + n + " " + t, q);
    FieldsBlank(a + " " + n, t);
    FieldsBlank(a, n);
    WordIsField(a);
    WordIsField(n);
    WordIsField(t);
  }

  lemma {:induction false} FieldsNonEmpty(s: string)
    requires s != "" && !IsSpace(s[0])
    ensures Fields(s) != []
  {
  }

  predicate PlainExtent(e: Extent) {
    IsAccess(e.access) && IsWord(e.extentType) && SingleSpaced(e.filename) && Trimmed(e.filename, IsQuote)
  }

  lemma AccessIsWord(w: string)
    requires IsAccess(w)
    ensures IsWord(w)
  {
  }

  /** A printed extent is read back exactly when its access mode is one of the
      three, its type is a word and its file name comes through quoting. File
      names may contain `=`. */
  lemma ExtentRoundTripIff(e: Extent)
    ensures ParseExtentLine(PrintedExtent(e)) == Some(e) <==> PlainExtent(e)
  {
    var line, q := PrintedExtent(e), "\"" + e.filename + "\"";
    FieldsAreWords(line);
    QuotedNameIff(e.filename);
    StrIsWord(e.sectors);
    ParseIntOfStr(e.sectors);
    if IsAccess(e.access) && IsWord(e.extentType) {
      AccessIsWord(e.access);
      FieldsOfExtent(e.access, Str(e.sectors), e.extentType, q);
      FieldsNonEmpty(q);
      assert ([e.access, Str(e.sectors), e.extentType] + Fields(q))[3..] == Fields(q);
    }
  }

  // ---------------------------------------------------------------------
  // Lines
  // ---------------------------------------------------------------------

  const DDB := "ddb."

  /** What one line does to the descriptor; `None` where `int` raises. */
  function AfterLine(info: Info, raw: string): Option<Info> {
    var line := Strip(raw);
    if line == "" || line[0] == '#' then Some(info)
    else if DDB <= Lower(line) then Some(info.(ddb := info.ddb[KeyOf(line) := ValueOf(line)]))
    else if IndexOf(line, '=') < |line| && !IsExtentLine(line) then AfterKey(info, KeyOf(line), ValueOf(line))
    else match ParseExtentLine(line)
      case None => Some(info)
      case Some(e) => Some(info.(extents := info.extents + [e]))
  }

  function AfterKey(info: Info, key: string, value: string): Option<Info> {
    if key == "version" then
      match ParseInt(value) case None => None case Some(n) => Some(info.(version := n))
    else if key == "cid" then Some(info.(cid := value))
    else if key == "parentcid" then Some(info.(parentCid := value))
    else if key == "createtype" then Some(info.(createType := value))
    else if key == "parentfilenamehint" then Some(info.(ddb := info.ddb["parentfilenamehint" := value]))
    else Some(info)
  }

  function AfterLines(info: Info, lines: seq<string>): Option<Info>
    decreases |lines|
  {
    if lines == [] then Some(info)
    else match AfterLine(info, lines[0])
      case None => None
      case Some(next) => AfterLines(next, lines[1..])
  }

  /** `VMDKInfo`, filled in place by the parser. */
  class VmdkInfo {
    var version: int
    var cid: string
    var parentCid: string
    var createType: string
    var extents: seq<Extent>
    var ddb: map<string, string>

    constructor ()
      ensures Contents() == EMPTY
    {
      version, cid, parentCid, createType, extents, ddb := 1, "ffffffff", "ffffffff", "", [], map[];
    }

    function Contents(): Info
      reads this
    {
      Info(version, cid, parentCid, createType, extents, ddb)
    }

    /** Returns false where the source raises `ValueError`. */
    method ParseDescriptor(text: string) returns (ok: bool)
      modifies this
      ensures ok <==> AfterLines(old(Contents()), SplitLines(text)).Some?
      ensures ok ==> Contents() == AfterLines(old(Contents()), SplitLines(text)).value
    {
      var lines := SplitLines(text);
      var i := 0;
      while i < |lines|
        invariant 0 <= i <= |lines|
        invariant AfterLines(Contents(), lines[i..]) == AfterLines(old(Contents()), lines)
      {
        assert lines[i..][1..] == lines[i + 1..];
        ghost var before := Contents();
        ok := ParseLine(lines[i]);
        if !ok {
          return false;
        }
        i := i + 1;
      }
      return true;
    }

    method ParseLine(raw: string) returns (ok: bool)
      modifies this
      ensures ok <==> AfterLine(old(Contents()), raw).Some?
      ensures ok ==> Contents() == AfterLine(old(Contents()), raw).value
    {
      var line := Strip(raw);
      if line == "" || line[0] == '#' {
        return true;
      }
      if DDB <= Lower(line) {
        ddb := ddb[KeyOf(line) := ValueOf(line)];
        return true;
      }
      if IndexOf(line, '=') < |line| && !IsExtentLine(line) {
        var key, value := KeyOf(line), ValueOf(line);
        if key == "version" {
          match ParseInt(value) {
            case None => return false;
            case Some(n) => version := n;
          }
        } else if key == "cid" {
          cid := value;
        } else if key == "parentcid" {
          parentCid := value;
        } else if key == "createtype" {
          createType := value;
        } else if key == "parentfilenamehint" {
          ddb := ddb["parentfilenamehint" := value];
        }
        return true;
      }
      var extent := ParseExtentLine(line);
      if extent.Some? {
        extents := extents + [extent.value];
      }
      return true;
    }
  }

  // ---------------------------------------------------------------------
  // Sizes, and parsing in pieces
  // ---------------------------------------------------------------------

  function Sectors(extents: seq<Extent>): int {
    if extents == [] then 0 else extents[0].sectors + Sectors(extents[1..])
  }

  /** `virtual_size_bytes`: a loop over the extents' byte sizes. */
  method VirtualSizeBytes(extents: seq<Extent>) returns (size: int)
    ensures size == 512 * Sectors(extents)
  {
    size := 0;
    var i := 0;
    while i < |extents|
      invariant 0 <= i <= |extents|
      invariant size + SECTOR_SIZE * Sectors(extents[i..]) == SECTOR_SIZE * Sectors(extents)
    {
      assert extents[i..][1..] == extents[i + 1..];
      size := size + extents[i].sectors * SECTOR_SIZE;
      i := i + 1;
    }
  }

  lemma {:induction false} SectorsConcat(a: seq<Extent>, b: seq<Extent>)
    ensures Sectors(a + b) == Sectors(a) + Sectors(b)
    decreases |a|
  {
    if a == [] {
      assert a + b == b;
    } else {
      assert (a + b)[1..] == a[1..] + b;
      SectorsConcat(a[1..], b);
    }
  }

  lemma DropBoth(a: seq<Extent>, b: seq<Extent>, i: nat)
    requires a != [] && i < |b| && b[i] == a[0] && multiset(a) == multiset(b)
    ensures multiset(a[1..]) == multiset(b[..i] + b[i + 1..])
  {
    assert a == [a[0]] + a[1..];
    assert b == b[..i] + [b[i]] + b[i + 1..];
    assert multiset(a[1..]) == multiset(a) - multiset{a[0]};
    assert multiset(b[..i] + b[i + 1..]) == multiset(b) - multiset{b[i]};
  }

  lemma SectorsWithout(b: seq<Extent>, i: nat)
    requires i < |b|
    ensures Sectors(b) == b[i].sectors + Sectors(b[..i] + b[i + 1..])
  {
    hide Sectors;
    var front, back := b[..i], b[i + 1..];
    assert b == front + ([b[i]] + back);
    SectorsConcat(front, back);
    SectorsConcat(front, [b[i]] + back);
    SectorsCons(b[i], back);
  }

  lemma SectorsCons(e: Extent, rest: seq<Extent>)
    ensures Sectors([e] + rest) == e.sectors + Sectors(rest)
  {
    assert ([e] + rest)[1..] == rest;
  }

  /** The size does not depend on the order of the extents. */
  lemma {:induction false} SectorsOfPermutation(a: seq<Extent>, b: seq<Extent>)
    requires multiset(a) == multiset(b)
    ensures Sectors(a) == Sectors(b)
    decreases |a|
  {
    if a != [] {
      assert a[0] in multiset(b);
      var i :| 0 <= i < |b| && b[i] == a[0];
      DropBoth(a, b, i);
      SectorsWithout(b, i);
      SectorsOfPermutation(a[1..], b[..i] + b[i + 1..]);
    } else {
      assert |multiset(b)| == 0;
    }
  }

  /** The extents that some lines describe, whatever else they say. */
  function ExtentsIn(lines: seq<string>): seq<Extent> {
    if lines == [] then []
    else (match AfterLine(EMPTY, lines[0]) case None => [] case Some(info) => info.extents) + ExtentsIn(lines[1..])
  }

  lemma {:induction false} GapHarmless(info: Info, gap: seq<string>)
    requires gap == [] || gap == [""]
    ensures AfterLines(info, gap) == Some(info)
  {
    assert Strip("") == "";
    if gap != [] { assert AfterLines(info, gap[1..]) == Some(info); }
  }

  lemma LineIsLocal(info: Info, raw: string)
    ensures AfterLine(info, raw).Some? <==> AfterLine(EMPTY, raw).Some?
    ensures AfterLine(info, raw).Some? ==>
      AfterLine(info, raw).value.extents == info.extents + AfterLine(EMPTY, raw).value.extents
  {
    hide Strip, Lower, IndexOf, IsExtentLine, ParseExtentLine, KeyOf, ValueOf, AfterKey;
    var line := Strip(raw);
    KeyIsLocal(info, KeyOf(line), ValueOf(line));
    KeyIsLocal(EMPTY, KeyOf(line), ValueOf(line));
    assert info.extents + [] == info.extents;
  }

  lemma KeyIsLocal(info: Info, key: string, value: string)
    ensures AfterKey(info, key, value).Some? <==> key != "version" || ParseInt(value).Some?
    ensures AfterKey(info, key, value).Some? ==> AfterKey(info, key, value).value.extents == info.extents
  {
    hide ParseInt;
  }

  lemma {:induction false} LinesAreLocal(info: Info, lines: seq<string>)
    ensures AfterLines(info, lines).Some? <==> AfterLines(EMPTY, lines).Some?
    ensures AfterLines(info, lines).Some? ==> AfterLines(info, lines).value.extents == info.extents + ExtentsIn(lines)
    decreases |lines|
  {
    hide AfterLine;
    if lines == [] {
      assert info.extents + [] == info.extents;
    } else {
      var one, one0, rest := AfterLine(info, lines[0]), AfterLine(EMPTY, lines[0]), lines[1..];
      LineIsLocal(info, lines[0]);
      if one.Some? {
        LinesAreLocal(one.value, rest);
        LinesAreLocal(one0.value, rest);
        Regroup(info.extents, one0.value.extents, ExtentsIn(rest));
      }
    }
  }

  lemma Regroup<T>(a: seq<T>, b: seq<T>, c: seq<T>)
    ensures a + (b + c) == a + b + c
  {
  }

  lemma {:induction false} LinesAppend(info: Info, a: seq<string>, b: seq<string>)
    ensures AfterLines(info, a + b) ==
      match AfterLines(info, a) case None => None case Some(next) => AfterLines(next, b)
    decreases |a|
  {
    hide AfterLine;
    if a == [] {
      assert a + b == b;
    } else {
      assert (a + b)[1..] == a[1..] + b;
      if AfterLine(info, a[0]).Some? { LinesAppend(AfterLine(info, a[0]).value, a[1..], b); }
    }
  }

  /** Where the second line of a text starts. */
  function NextLine(s: string): (n: nat)
    requires LineEnd(s) < |s|
    ensures LineEnd(s) < n <= |s|
  {
    var k := LineEnd(s);
    if s[k] == '\r' && k + 1 < |s| && s[k + 1] == '\n' then k + 2 else k + 1
  }

  lemma SplitHead(s: string)
    requires s != ""
    ensures SplitLines(s) ==
      if LineEnd(s) == |s| then [s] else [s[..LineEnd(s)]] + SplitLines(s[NextLine(s)..])
  {
    hide LineEnd;
  }

  lemma CutConcat(a: string, b: string, n: nat)
    requires n <= |a|
    ensures (a + "\n" + b)[..n] == a[..n] && (a + "\n" + b)[n..] == a[n..] + "\n" + b
  {
  }

  /** The first line of a text stays the first line when more text follows. */
  lemma HeadConcat(a: string, b: string)
    requires LineEnd(a) < |a| && !(a[LineEnd(a)] == '\r' && LineEnd(a) + 1 == |a|)
    ensures var s := a + "\n" + b;
      && LineEnd(s) == LineEnd(a) < |s| && NextLine(s) == NextLine(a)
      && s[..LineEnd(s)] == a[..LineEnd(a)] && s[NextLine(s)..] == a[NextLine(a)..] + "\n" + b
  {
    LineEndConcat(a, b);
    hide LineEnd;
    var s, k := a + "\n" + b, LineEnd(a);
    assert s[k] == a[k] && (k + 1 < |a| ==> s[k + 1] == a[k + 1]);
    assert NextLine(s) == NextLine(a);
    hide NextLine;
    CutConcat(a, b, k);
    CutConcat(a, b, NextLine(a));
  }

  /** The last line of the first text, whatever ends it. */
  lemma LastConcat(a: string, b: string)
    requires a != "" && (LineEnd(a) == |a| || (a[LineEnd(a)] == '\r' && LineEnd(a) + 1 == |a|))
    ensures var s := a + "\n" + b;
      && LineEnd(s) == LineEnd(a) < |s|
      && s[..LineEnd(s)] == a[..LineEnd(a)] && s[NextLine(s)..] == b
  {
    var s, k := a + "\n" + b, LineEnd(a);
    LineEndConcat(a, b);
    LineEndFirst(a);
    hide LineEnd, OneLine, IsLineBreak;
    if k == |a| {
      assert s[k] == '\n' && s[..k] == a[..k];
    } else {
      assert s[k] == '\r' && s[k + 1] == '\n' && s[..k] == a[..k];
    }
  }

  lemma SplitLast(a: string, b: string)
    requires a != "" && (LineEnd(a) == |a| || (a[LineEnd(a)] == '\r' && LineEnd(a) + 1 == |a|))
    ensures SplitLines(a + "\n" + b) == SplitLines(a) + SplitLines(b)
  {
    assert SplitLines("") == [];
    hide LineEnd, SplitLines;
    var s, k := a + "\n" + b, LineEnd(a);
    SplitHead(s);
    SplitHead(a);
    LastConcat(a, b);
    assert k == |a| ==> a[..k] == a;
    assert k < |a| ==> a[NextLine(a)..] == "";
  }

  lemma SplitMore(a: string, b: string, gap: seq<string>)
    requires LineEnd(a) < |a| && !(a[LineEnd(a)] == '\r' && LineEnd(a) + 1 == |a|)
    requires var rest := a[NextLine(a)..]; SplitLines(rest + "\n" + b) == SplitLines(rest) + gap + SplitLines(b)
    ensures SplitLines(a + "\n" + b) == SplitLines(a) + gap + SplitLines(b)
  {
    hide LineEnd, SplitLines, NextLine;
    var head, rest := a[..LineEnd(a)], a[NextLine(a)..];
    SplitHead(a + "\n" + b);
    SplitHead(a);
    HeadConcat(a, b);
    Prepend(head, SplitLines(rest), gap, SplitLines(b));
  }

  lemma Prepend(head: string, a: seq<string>, gap: seq<string>, b: seq<string>)
    ensures [head] + (a + gap + b) == [head] + a + gap + b
  {
  }

  /** Splitting two texts put together gives their lines, with an empty line in
      between when the first one already ended a line. */
  lemma {:induction false} SplitConcat(a: string, b: string) returns (gap: seq<string>)
    ensures gap == [] || gap == [""]
    ensures SplitLines(a + "\n" + b) == SplitLines(a) + gap + SplitLines(b)
    decreases |a|
  {
    hide LineEnd, NextLine;
    if a == "" {
      SplitFirstLine("", b);
      gap := [""];
    } else if LineEnd(a) == |a| || (a[LineEnd(a)] == '\r' && LineEnd(a) + 1 == |a|) {
      hide SplitLines;
      SplitLast(a, b);
      gap := [];
    } else {
      hide SplitLines;
      gap := SplitConcat(a[NextLine(a)..], b);
      SplitMore(a, b, gap);
    }
  }

  lemma {:induction false} LineEndConcat(a: string, b: string)
    ensures LineEnd(a + "\n" + b) == LineEnd(a)
    decreases |a|
  {
    var s := a + "\n" + b;
    if a == "" {
      assert s[0] == '\n';
    } else {
      assert s[1..] == a[1..] + "\n" + b;
      LineEndConcat(a[1..], b);
    }
  }

  function Parsed(text: string): Option<Info> { AfterLines(EMPTY, SplitLines(text)) }

  /** Descriptor parsing is a homomorphism: two texts put together parse exactly
      when each does, the extents are the extents of the first followed by those
      of the second, and the sizes add up. */
  lemma ParseConcat(a: string, b: string)
    ensures Parsed(a + "\n" + b).Some? <==> Parsed(a).Some? && Parsed(b).Some?
    ensures Parsed(a + "\n" + b).Some? ==>
      && Parsed(a + "\n" + b).value.extents == Parsed(a).value.extents + Parsed(b).value.extents
      && Sectors(Parsed(a + "\n" + b).value.extents)
         == Sectors(Parsed(a).value.extents) + Sectors(Parsed(b).value.extents)
  {
    var gap := SplitConcat(a, b);
    var x, y := SplitLines(a), SplitLines(b);
    LinesAppend(EMPTY, x + gap, y);
    LinesAppend(EMPTY, x, gap);
    hide AfterLine, AfterLines, SplitLines;
    if Parsed(a).Some? {
      GapHarmless(Parsed(a).value, gap);
      LinesAreLocal(Parsed(a).value, y);
      LinesAreLocal(EMPTY, y);
      assert EMPTY.extents + ExtentsIn(y) == ExtentsIn(y);
      if Parsed(b).Some? { SectorsConcat(Parsed(a).value.extents, Parsed(b).value.extents); }
    }
  }
}
