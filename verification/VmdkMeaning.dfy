/** What the lines of a VMDK descriptor say, apart from the way the parser goes
    about it (vmfree/parsers/vmdk.py, `_parse_descriptor`). */
module VmdkMeaning {
  import opened Text
  import opened Lines
  import opened VmdkParser

  // ---------------------------------------------------------------------
  // One line
  // ---------------------------------------------------------------------

  /** Neither blank nor a comment. */
  predicate Counts(s: string) { s != "" && s[0] != '#' }

  predicate IsDatabase(s: string) { "ddb." <= Lower(s) }

  predicate DescribesExtent(s: string) { |Fields(s)| >= 4 && Fields(s)[0] in ["RW", "RDONLY", "NOACCESS"] }

  /** What a descriptor can say: its four named fields and the database entries. */
  datatype Field = Version | Cid | ParentCid | CreateType | Entry(key: string)

  ghost predicate Names(s: string, name: string, value: string) {
    Counts(s) && !IsDatabase(s) && !DescribesExtent(s) && Splits(s, name, value)
  }

  /** A line gives a field a value. */
  ghost predicate Says(line: string, field: Field, value: string) {
    var s := Strip(line);
    match field
    case Version => Names(s, "version", value)
    case Cid => Names(s, "cid", value)
    case ParentCid => Names(s, "parentcid", value)
    case CreateType => Names(s, "createtype", value)
    case Entry(key) =>
      || (Counts(s) && IsDatabase(s)
          && (Splits(s, key, value) || ('=' !in s && key == Lower(Strip(s)) && value == "")))
      || (key == "parentfilenamehint" && Names(s, "parentfilenamehint", value))
  }

  /** A line describes an extent: access mode, sectors, type and everything behind
      them, without quotes around it, as the file name. */
  predicate SaysExtent(line: string, e: Extent) {
    var s := Strip(line);
    var words := Fields(s);
    && Counts(s) && !IsDatabase(s) && DescribesExtent(s)
    && e.access == words[0] && ParseInt(words[1]) == Some(e.sectors) && e.extentType == words[2]
    && e.filename == Unquote(Join(" ", words[3..]))
  }

  // ---------------------------------------------------------------------
  // A descriptor
  // ---------------------------------------------------------------------

  /** The parsed fields show a value. */
  predicate Shows(info: Info, field: Field, value: string) {
    match field
    case Version => ParseInt(value) == Some(info.version)
    case Cid => info.cid == value
    case ParentCid => info.parentCid == value
    case CreateType => info.createType == value
    case Entry(key) => key in info.ddb && info.ddb[key] == value
  }

  predicate Same(a: Info, b: Info, field: Field) {
    match field
    case Version => a.version == b.version
    case Cid => a.cid == b.cid
    case ParentCid => a.parentCid == b.parentCid
    case CreateType => a.createType == b.createType
    case Entry(key) => (key in a.ddb <==> key in b.ddb) && (key in a.ddb ==> a.ddb[key] == b.ddb[key])
  }

  /** What a field is when no line says anything. */
  predicate Unsaid(info: Info, field: Field) {
    match field
    case Version => info.version == 1
    case Cid => info.cid == "ffffffff"
    case ParentCid => info.parentCid == "ffffffff"
    case CreateType => info.createType == ""
    case Entry(key) => key !in info.ddb
  }

  /** Line i is the last one that gives the field a value. */
  ghost predicate SaysLast(lines: seq<string>, i: nat, field: Field, value: string) {
    i < |lines| && Says(lines[i], field, value) && forall j, v | i < j < |lines| :: !Says(lines[j], field, v)
  }

  ghost predicate Silent(lines: seq<string>, field: Field) {
    forall i, v | 0 <= i < |lines| :: !Says(lines[i], field, v)
  }

  /** The field has the value that the last line about it gives it. */
  ghost predicate IsSaid(info: Info, lines: seq<string>, field: Field) {
    && (forall i: nat, v | SaysLast(lines, i, field, v) :: Shows(info, field, v))
    && (Silent(lines, field) ==> Unsaid(info, field))
  }

  /** The extents are those of the lines that describe one, in order. */
  ghost predicate ListsExtents(lines: seq<string>, extents: seq<Extent>, at: seq<nat>) {
    && |at| == |extents|
    && (forall i | 0 <= i < |at| :: at[i] < |lines| && SaysExtent(lines[at[i]], extents[i]))
    && (forall i, j | 0 <= i < j < |at| :: at[i] < at[j])
    && (forall k: nat, e | k < |lines| && SaysExtent(lines[k], e) :: k in at)
  }

  /** Some line gives the version a value that is no number. */
  ghost predicate VersionIsNoNumber(lines: seq<string>) {
    exists i, v :: 0 <= i < |lines| && Says(lines[i], Version, v) && ParseInt(v).None?
  }

  /** The parsed fields are what the lines say. */
  ghost predicate Means(info: Info, lines: seq<string>) {
    && (forall field :: IsSaid(info, lines, field))
    && (exists at :: ListsExtents(lines, info.extents, at))
  }

  // ---------------------------------------------------------------------
  // One line of the parser
  // ---------------------------------------------------------------------

  lemma NamesIff(s: string, name: string, value: string)
    ensures Names(s, name, value) <==>
      Counts(s) && !(DDB <= Lower(s)) && !IsExtentLine(s) && IndexOf(s, '=') < |s|
      && KeyOf(s) == name && ValueOf(s) == value
  {
    SplitsIff(s, name, value);
    hide Fields, Splits, KeyOf, ValueOf, IndexOf, Lower;
  }

  lemma EntrySays(s: string, key: string, value: string)
    requires Counts(s) && DDB <= Lower(s)
    ensures (Splits(s, key, value) || ('=' !in s && key == Lower(Strip(s)) && value == ""))
      <==> KeyOf(s) == key && ValueOf(s) == value
  {
    SplitsIff(s, key, value);
    IndexOfFirst(s, '=');
    hide Splits, Lower, Strip, IndexOf, Unquote;
    if IndexOf(s, '=') == |s| { assert s[..|s|] == s; } else { assert s[IndexOf(s, '=')] == '='; }
  }

  /** The step of the parser on a named field. */
  lemma KeySays(info: Info, key: string, value: string, field: Field, name: string)
    requires AfterKey(info, key, value).Some?
    requires name == match field
      case Version => "version" case Cid => "cid" case ParentCid => "parentcid" case CreateType => "createtype"
      case Entry(k) => k
    requires field.Entry? ==> field.key == "parentfilenamehint"
    ensures var n := AfterKey(info, key, value).value;
      if key == name then Shows(n, field, value) else Same(info, n, field)
  {
    hide ParseInt;
  }

  lemma OtherEntries(info: Info, key: string, value: string, k: string)
    requires AfterKey(info, key, value).Some? && k != "parentfilenamehint"
    ensures Same(info, AfterKey(info, key, value).value, Entry(k))
  {
    hide ParseInt;
  }

  /** A line that leaves all fields alone says nothing about them. */
  lemma NothingSaid(line: string, field: Field, v: string)
    requires var s := Strip(line);
      !Counts(s) || (!(DDB <= Lower(s)) && (IsExtentLine(s) || IndexOf(s, '=') == |s|))
    ensures !Says(line, field, v)
  {
    var s := Strip(line);
    NamesIff(s, "version", v);
    NamesIff(s, "cid", v);
    NamesIff(s, "parentcid", v);
    NamesIff(s, "createtype", v);
    NamesIff(s, "parentfilenamehint", v);
    hide Names, Splits, IsExtentLine, IndexOf, Strip, KeyOf, ValueOf, Lower;
  }

  lemma DatabaseSays(info: Info, line: string, field: Field, v: string)
    requires var s := Strip(line); Counts(s) && DDB <= Lower(s)
    ensures var s := Strip(line);
      Says(line, field, v) <==> field == Entry(KeyOf(s)) && v == ValueOf(s)
  {
    var s := Strip(line);
    if field.Entry? { EntrySays(s, field.key, v); }
    hide Strip, KeyOf, ValueOf, Lower, Splits, DescribesExtent;
  }

  lemma NamedSays(line: string, field: Field, v: string)
    requires var s := Strip(line);
      Counts(s) && !(DDB <= Lower(s)) && !IsExtentLine(s) && IndexOf(s, '=') < |s|
    ensures var s := Strip(line);
      Says(line, field, v) <==>
        v == ValueOf(s) && KeyOf(s) == NameOf(field) && (field.Entry? ==> field.key == "parentfilenamehint")
  {
    var s := Strip(line);
    NamesIff(s, NameOf(field), v);
    hide Strip, KeyOf, ValueOf, Lower, Splits, IsExtentLine, IndexOf, Names, Counts;
  }

  function NameOf(field: Field): string {
    match field
    case Version => "version" case Cid => "cid" case ParentCid => "parentcid" case CreateType => "createtype"
    case Entry(k) => k
  }

  /** What one line does to a field. */
  ghost predicate Moves(info: Info, n: Info, line: string, field: Field) {
    && (forall v | Says(line, field, v) :: Shows(n, field, v))
    && ((forall v :: !Says(line, field, v)) ==> Same(info, n, field))
  }

  lemma DatabaseMoves(info: Info, line: string, field: Field)
    requires var s := Strip(line); Counts(s) && DDB <= Lower(s)
    ensures var s := Strip(line);
      Moves(info, info.(ddb := info.ddb[KeyOf(s) := ValueOf(s)]), line, field)
  {
    hide Says, Strip, KeyOf, ValueOf, Lower, ParseInt;
    var s := Strip(line);
    forall v ensures Says(line, field, v) <==> field == Entry(KeyOf(s)) && v == ValueOf(s) {
      DatabaseSays(info, line, field, v);
    }
    assert Says(line, field, ValueOf(s)) <==> field == Entry(KeyOf(s));
  }

  lemma NamedMoves(info: Info, line: string, field: Field)
    requires var s := Strip(line);
      && Counts(s) && !(DDB <= Lower(s)) && !IsExtentLine(s) && IndexOf(s, '=') < |s|
      && AfterKey(info, KeyOf(s), ValueOf(s)).Some?
    ensures var s := Strip(line); Moves(info, AfterKey(info, KeyOf(s), ValueOf(s)).value, line, field)
  {
    hide Says, Strip, KeyOf, ValueOf, Lower, IsExtentLine, IndexOf, AfterKey, Shows, Same;
    var s := Strip(line);
    forall v
      ensures Says(line, field, v) <==>
        v == ValueOf(s) && KeyOf(s) == NameOf(field) && (field.Entry? ==> field.key == "parentfilenamehint")
    {
      NamedSays(line, field, v);
    }
    assert Says(line, field, ValueOf(s)) <==>
      KeyOf(s) == NameOf(field) && (field.Entry? ==> field.key == "parentfilenamehint");
    if field.Entry? && field.key != "parentfilenamehint" {
      OtherEntries(info, KeyOf(s), ValueOf(s), field.key);
    } else {
      KeySays(info, KeyOf(s), ValueOf(s), field, NameOf(field));
    }
  }

  lemma SilentMoves(info: Info, n: Info, line: string, field: Field)
    requires var s := Strip(line);
      !Counts(s) || (!(DDB <= Lower(s)) && (IsExtentLine(s) || IndexOf(s, '=') == |s|))
    requires n == info.(extents := n.extents)
    ensures Moves(info, n, line, field)
  {
    hide Says, Strip, Lower, IsExtentLine, IndexOf;
    forall v ensures !Says(line, field, v) { NothingSaid(line, field, v); }
  }

  lemma LineSays(info: Info, line: string, field: Field)
    requires AfterLine(info, line).Some?
    ensures Moves(info, AfterLine(info, line).value, line, field)
  {
    var s := Strip(line);
    hide Strip, KeyOf, ValueOf, Lower, IsExtentLine, ParseExtentLine, IndexOf, AfterKey, Moves;
    if Counts(s) && DDB <= Lower(s) {
      DatabaseMoves(info, line, field);
    } else if Counts(s) && IndexOf(s, '=') < |s| && !IsExtentLine(s) {
      NamedMoves(info, line, field);
    } else {
      SilentMoves(info, AfterLine(info, line).value, line, field);
    }
  }

  /** A line fails exactly when it gives the version no number. */
  lemma LineFails(info: Info, line: string)
    ensures AfterLine(info, line).None? <==> exists v :: Says(line, Version, v) && ParseInt(v).None?
  {
    var s := Strip(line);
    hide Says, Strip, KeyOf, ValueOf, Lower, IsExtentLine, ParseExtentLine, IndexOf, AfterKey, ParseInt;
    if !Counts(s) {
      forall v ensures !Says(line, Version, v) { NothingSaid(line, Version, v); }
    } else if DDB <= Lower(s) {
      forall v ensures !Says(line, Version, v) { DatabaseSays(info, line, Version, v); }
    } else if IndexOf(s, '=') < |s| && !IsExtentLine(s) {
      forall v ensures Says(line, Version, v) <==> v == ValueOf(s) && KeyOf(s) == "version" {
        NamedSays(line, Version, v);
      }
      KeyIsLocal(info, KeyOf(s), ValueOf(s));
    } else {
      forall v ensures !Says(line, Version, v) { NothingSaid(line, Version, v); }
    }
  }

  lemma ExtentSaid(line: string, e: Extent)
    ensures SaysExtent(line, e) <==>
      var s := Strip(line); Counts(s) && !(DDB <= Lower(s)) && ParseExtentLine(s) == Some(e)
  {
    hide Fields, Join, Unquote, Strip, Lower, ParseInt;
  }

  lemma ExtentIsExtent(s: string)
    ensures ParseExtentLine(s).Some? ==> IsExtentLine(s)
  {
    hide Fields, Join, Unquote, ParseInt;
  }

  /** A line adds the extent it describes, if it describes one. */
  lemma LineExtends(info: Info, line: string)
    requires AfterLine(info, line).Some?
    ensures AfterLine(info, line).value.extents == info.extents + ExtentOf(line)
    ensures forall e :: SaysExtent(line, e) <==> ExtentOf(line) == [e]
  {
    var s := Strip(line);
    forall e ensures SaysExtent(line, e) <==> ExtentOf(line) == [e] { ExtentSaid(line, e); }
    ExtentIsExtent(s);
    KeyIsLocal(info, KeyOf(s), ValueOf(s));
    hide Strip, Lower, ParseExtentLine, IsExtentLine, SaysExtent, KeyOf, ValueOf, IndexOf, AfterKey;
    assert info.extents + [] == info.extents;
  }

  function ExtentOf(line: string): (r: seq<Extent>)
    ensures |r| <= 1
  {
    var s := Strip(line);
    if Counts(s) && !(DDB <= Lower(s)) then
      match ParseExtentLine(s) case None => [] case Some(e) => [e]
    else []
  }

  lemma {:induction false} LinesExtend(info: Info, lines: seq<string>) returns (at: seq<nat>, more: seq<Extent>)
    requires AfterLines(info, lines).Some?
    ensures AfterLines(info, lines).value.extents == info.extents + more && ListsExtents(lines, more, at)
    decreases |lines|
  {
    hide AfterLine, SaysExtent, ExtentOf, ListsExtents;
    if lines == [] {
      at, more := [], [];
      assert info.extents + [] == info.extents;
      assert ListsExtents([], [], []) by { NoExtents(); }
    } else {
      var n := |lines| - 1;
      var front, last := lines[..n], lines[n];
      assert lines == front + [last];
      LinesAppend(info, front, [last]);
      var next := AfterLines(info, front).value;
      assert AfterLines(next, [last]) == AfterLine(next, last) by { OneLineAfter(next, last); }
      at, more := LinesExtend(info, front);
      LineExtends(next, last);
      if ExtentOf(last) == [] {
        NoneAdded(lines, last, at, more);
        assert info.extents + more + [] == info.extents + more;
      } else {
        var e := ExtentOf(last)[0];
        assert ExtentOf(last) == [e];
        LastAdded(lines, at, more, e);
        assert info.extents + more + [e] == info.extents + (more + [e]);
        at, more := at + [n], more + [e];
      }
    }
  }

  lemma NoExtents()
    ensures ListsExtents([], [], [])
  {
  }

  lemma OneLineAfter(info: Info, line: string)
    ensures AfterLines(info, [line]) == AfterLine(info, line)
  {
    hide AfterLine;
    assert [line][1..] == [];
  }

  lemma NoneAdded(lines: seq<string>, last: string, at: seq<nat>, more: seq<Extent>)
    requires lines != [] && last == lines[|lines| - 1] && ListsExtents(lines[..|lines| - 1], more, at)
    requires forall e :: !SaysExtent(last, e)
    ensures ListsExtents(lines, more, at)
  {
    hide SaysExtent;
    var front := lines[..|lines| - 1];
    forall k: nat, e | k < |lines| && SaysExtent(lines[k], e) ensures k in at { assert SaysExtent(front[k], e); }
  }

  lemma LastAdded(lines: seq<string>, at: seq<nat>, more: seq<Extent>, e: Extent)
    requires lines != [] && ListsExtents(lines[..|lines| - 1], more, at)
    requires SaysExtent(lines[|lines| - 1], e)
    ensures ListsExtents(lines, more + [e], at + [|lines| - 1])
  {
    hide SaysExtent;
    var n := |lines| - 1;
    var front, at' := lines[..n], at + [n];
    assert at'[|at|] == n;
    forall k: nat, x | k < |lines| && SaysExtent(lines[k], x) ensures k in at' {
      if k < n {
        assert SaysExtent(front[k], x);
        assert k in at;
      }
    }
  }

  lemma {:induction false} LinesSay(info: Info, lines: seq<string>, field: Field)
    requires AfterLines(info, lines).Some?
    ensures var r := AfterLines(info, lines).value;
      && (forall i: nat, v | SaysLast(lines, i, field, v) :: Shows(r, field, v))
      && (Silent(lines, field) ==> Same(info, r, field))
    decreases |lines|
  {
    hide AfterLine, Says, Shows;
    if lines != [] {
      var r, rest := AfterLines(info, lines).value, lines[1..];
      var next := AfterLine(info, lines[0]).value;
      LineSays(info, lines[0], field);
      LinesSay(next, rest, field);
      assert forall i | 0 <= i < |rest| :: rest[i] == lines[i + 1];
      forall i: nat, v | SaysLast(lines, i, field, v) ensures Shows(r, field, v) {
        if i > 0 {
          assert SaysLast(rest, i - 1, field, v);
        } else {
          assert Silent(rest, field);
          SameShows(next, r, field, v);
        }
      }
    }
  }

  /** Parsing fails exactly when some line gives the version no number. */
  lemma {:induction false} LinesFail(info: Info, lines: seq<string>)
    ensures AfterLines(info, lines).None? <==> VersionIsNoNumber(lines)
    decreases |lines|
  {
    hide AfterLine, Says, ParseInt;
    if lines != [] {
      var rest := lines[1..];
      LineFails(info, lines[0]);
      assert forall i | 0 <= i < |rest| :: rest[i] == lines[i + 1];
      if AfterLine(info, lines[0]).Some? {
        LinesFail(AfterLine(info, lines[0]).value, rest);
        if i, v :| 0 <= i < |lines| && Says(lines[i], Version, v) && ParseInt(v).None? {
          assert i > 0 && Says(rest[i - 1], Version, v);
        }
      }
    }
  }

  /** A parsed descriptor means what its lines say: every named field and every entry
      of the database has the value that the last line about it gives it, and the
      extents are those described, in order. */
  lemma ParsedMeans(text: string)
    ensures Parsed(text).None? <==> VersionIsNoNumber(SplitLines(text))
    ensures Parsed(text).Some? ==> Means(Parsed(text).value, SplitLines(text))
  {
    hide Says, AfterLines, SplitLines, SaysExtent, ParseInt, Shows, VersionIsNoNumber;
    var lines := SplitLines(text);
    LinesFail(EMPTY, lines);
    if Parsed(text).Some? {
      var r := Parsed(text).value;
      forall field ensures IsSaid(r, lines, field) { LinesSay(EMPTY, lines, field); }
      var at, more := LinesExtend(EMPTY, lines);
      assert [] + more == more;
    }
  }

  lemma SameShows(a: Info, b: Info, field: Field, v: string)
    requires Same(a, b, field)
    ensures Shows(a, field, v) <==> Shows(b, field, v)
  {
    hide ParseInt;
  }

  // ---------------------------------------------------------------------
  // Flat extents
  // ---------------------------------------------------------------------

  lemma FlatText(number: string, rest: string)
    ensures "RW " + number + " FLAT " + rest == "RW" + " " + number + " " + "FLAT" + " " + rest
  {
    assert "RW" + " " == "RW " && " " + "FLAT" + " " == " FLAT ";
    assert "RW " + number + " " + "FLAT" + " " == "RW " + number + (" " + "FLAT" + " ");
  }

  lemma FlatEnds(line: string, number: string, rest: string)
    requires line == "RW " + number + " FLAT " + rest && rest != "" && !IsSpace(rest[|rest| - 1])
    ensures Strip(line) == line && Counts(line) && !IsDatabase(line)
  {
    assert line[0] == 'R' && line[|line| - 1] == rest[|rest| - 1];
    assert !IsSpace('R') && Lower(line)[0] == 'r';
    hide IsSpace, Strip, Lower;
    StripWord(line);
  }

  lemma FlatShape(line: string, sectors: nat, rest: string)
    requires line == "RW " + Str(sectors) + " FLAT " + rest && rest != "" && !IsSpace(rest[0])
    requires !IsSpace(rest[|rest| - 1])
    ensures Strip(line) == line && Counts(line) && !IsDatabase(line)
    ensures Fields(line) == ["RW", Str(sectors), "FLAT"] + Fields(rest) && Fields(rest) != []
  {
    assert IsWord("RW") && IsWord("FLAT");
    hide Fields, IsSpace, IsWord, Strip, Lower, Str, Counts, IsDatabase;
    StrIsWord(sectors);
    FlatEnds(line, Str(sectors), rest);
    FieldsNonEmpty(rest);
    FlatText(Str(sectors), rest);
    FieldsOfExtent("RW", Str(sectors), "FLAT", rest);
  }

  /** The usual line of a flat disk, with an offset at its end: mode, sectors and type
      are read as written, whatever the file name and the offset are. */
  lemma FlatExtent(sectors: nat, name: string, offset: nat)
    ensures var line := "RW " + Str(sectors) + " FLAT " + ("\"" + name + "\" " + Str(offset));
      exists e :: SaysExtent(line, e) && e.access == "RW" && e.sectors == sectors && e.extentType == "FLAT"
  {
    hide Fields, Strip, Lower, ParseInt, Join, Unquote, Str;
    var rest := "\"" + name + "\" " + Str(offset);
    var line := "RW " + Str(sectors) + " FLAT " + rest;
    StrIsWord(offset);
    assert rest[0] == '"' && rest[|rest| - 1] == Str(offset)[|Str(offset)| - 1];
    BlankIsSpace();
    hide IsSpace;
    FlatShape(line, sectors, rest);
    ParseIntOfStr(sectors);
    var words := Fields(line);
    assert words[0] == "RW" && words[1] == Str(sectors) && words[2] == "FLAT" && |words| >= 4;
    assert SaysExtent(line, Extent("RW", sectors, "FLAT", Unquote(Join(" ", words[3..]))));
  }
}
