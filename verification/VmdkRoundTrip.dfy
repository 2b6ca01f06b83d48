/** Printing a VMDK descriptor in the layout of VMware's Virtual Disk Format and
    reading it back. */
module VmdkRoundTrip {
  import opened Text
  import opened Lines
  import opened VmdkParser

  // ---------------------------------------------------------------------
  // Printing
  // ---------------------------------------------------------------------

  function Header(info: Info): seq<string> {
    ["# Disk DescriptorFile", "version=" + Str(info.version), "CID=" + info.cid, "parentCID=" + info.parentCid,
     "createType=" + ("\"" + info.createType + "\""), "", "# Extent description"]
  }

  function ExtentLines(extents: seq<Extent>): seq<string> {
    if extents == [] then [] else [PrintedExtent(extents[0])] + ExtentLines(extents[1..])
  }

  const DATABASE: seq<string> := ["", "# The Disk Data Base", "#DDB", ""]

  function DdbLines(keys: seq<string>, ddb: map<string, string>): seq<string>
    requires forall i | 0 <= i < |keys| :: keys[i] in ddb
  {
    if keys == [] then [] else [PrintedLine(keys[0], ddb[keys[0]])] + DdbLines(keys[1..], ddb)
  }

  function DescriptorLines(info: Info, keys: seq<string>): seq<string>
    requires forall i | 0 <= i < |keys| :: keys[i] in info.ddb
  {
    Header(info) + ExtentLines(info.extents) + DATABASE + DdbLines(keys, info.ddb)
  }

  function Terminated(lines: seq<string>): string {
    if lines == [] then "" else lines[0] + "\n" + Terminated(lines[1..])
  }

  function Printed(info: Info, keys: seq<string>): string
    requires forall i | 0 <= i < |keys| :: keys[i] in info.ddb
  {
    Terminated(DescriptorLines(info, keys))
  }

  /** Values that need no quotes. */
  predicate PlainValue(v: string) { OneLine(v) && Trimmed(v, IsSpace) && Trimmed(v, IsQuote) }

  predicate DdbKey(k: string) { CanonicalKey(k) && (DDB <= k || k == "parentfilenamehint") }

  predicate WellFormed(info: Info) {
    && PlainValue(info.cid) && PlainValue(info.parentCid)
    && OneLine(info.createType) && Trimmed(info.createType, IsQuote)
    && (forall i | 0 <= i < |info.extents| :: PlainExtent(info.extents[i]) && OneLine(info.extents[i].filename))
    && (forall k | k in info.ddb :: DdbKey(k) && CanonicalValue(info.ddb[k]))
  }

  // ---------------------------------------------------------------------
  // Single lines
  // ---------------------------------------------------------------------

  lemma CommentLine(info: Info, line: string)
    requires line == "" || (line[0] == '#' && !IsSpace(line[|line| - 1]))
    ensures AfterLine(info, line) == Some(info)
  {
    assert !IsSpace('#');
    StripWord(line);
  }

  /** No line that starts with another letter is taken for an extent. */
  lemma NotExtent(line: string)
    requires line != "" && line[0] !in " RN" && !IsSpace(line[0])
    ensures !IsExtentLine(line)
  {
    assert Fields(line)[0] == line[..RunLength(line)];
    assert RunLength(line) >= 1 && Fields(line)[0][0] == line[0];
  }

  predicate HeaderName(name: string) {
    IsWord(name) && name[0] !in "#RNdD" && forall i | 0 <= i < |name| :: name[i] != '='
  }

  lemma KeyLineShape(name: string, v: string)
    requires HeaderName(name) && Trimmed(v, IsSpace)
    ensures var line := name + "=" + v;
      && Strip(line) == line && line[0] == name[0] && IndexOf(line, '=') == |name|
      && KeyOf(line) == Lower(name) && ValueOf(line) == Unquote(v)
  {
    var line := name + "=" + v;
    assert line[|line| - 1] == if v == "" then '=' else v[|v| - 1];
    assert !IsSpace('=');
    StripWord(line);
    assert line == name + ['='] + v;
    IndexOfAfter(name, v, '=');
    assert line[..|name|] == name && line[|name| + 1..] == v;
    StripWord(name);
    StripWord(v);
  }

  /** A `name=value` line of the header. */
  lemma KeyLine(info: Info, name: string, v: string)
    requires HeaderName(name) && Trimmed(v, IsSpace)
    ensures AfterLine(info, name + "=" + v) == AfterKey(info, Lower(name), Unquote(v))
  {
    var line := name + "=" + v;
    KeyLineShape(name, v);
    assert !IsSpace(line[0]) && IsSpace(' ');
    hide IsSpace;
    NotExtent(line);
    assert Lower(line)[0] == LowerChar(name[0]) && LowerChar(name[0]) != 'd';
    hide IsExtentLine, AfterKey, KeyOf, ValueOf, IndexOf, Strip;
  }

  lemma QuotedValue(v: string)
    requires Trimmed(v, IsQuote)
    ensures Trimmed("\"" + v + "\"", IsSpace) && Unquote("\"" + v + "\"") == v
  {
    TrimAround("\"", v, "\"", IsQuote);
  }

  lemma PlainUnquote(v: string)
    requires Trimmed(v, IsQuote)
    ensures Unquote(v) == v
  {
    assert "" + v + "" == v;
    TrimAround("", v, "", IsQuote);
  }

  lemma ExtentEnds(e: Extent)
    requires IsAccess(e.access)
    ensures var line := PrintedExtent(e);
      line != "" && (line[0] == 'R' || line[0] == 'N') && Trimmed(line, IsSpace)
  {
    var line := PrintedExtent(e);
    assert line[0] == e.access[0] && line[|line| - 1] == '"';
    assert !IsSpace('R') && !IsSpace('N') && !IsSpace('"');
    hide IsSpace;
  }

  lemma ExtentShape(e: Extent)
    requires PlainExtent(e)
    ensures var line := PrintedExtent(e);
      Strip(line) == line && line != "" && line[0] != '#' && !(DDB <= Lower(line)) && IsExtentLine(line)
      && ParseExtentLine(line) == Some(e)
  {
    var line := PrintedExtent(e);
    ExtentRoundTripIff(e);
    ExtentEnds(e);
    hide PrintedExtent, PlainExtent, Fields, ParseInt, IsSpace;
    StripWord(line);
    assert Lower(line)[0] == LowerChar(line[0]) && LowerChar('R') == 'r' && LowerChar('N') == 'n';
  }

  lemma ExtentLine(info: Info, e: Extent)
    requires PlainExtent(e)
    ensures AfterLine(info, PrintedExtent(e)) == Some(info.(extents := info.extents + [e]))
  {
    ExtentShape(e);
    hide PrintedExtent, ParseExtentLine, PlainExtent, IsExtentLine, Strip, Lower, IndexOf, KeyOf, ValueOf, AfterKey;
  }

  lemma DatabaseLine(info: Info, k: string, v: string)
    requires CanonicalKey(k) && CanonicalValue(v) && DDB <= k
    ensures AfterLine(info, PrintedLine(k, v)) == Some(info.(ddb := info.ddb[k := v]))
  {
    var s := Strip(PrintedLine(k, v));
    PrintedIsRead(k, v);
    assert Lower(s)[..4] == Lower(k)[..4] && Lower(k) == k;
    hide PrintedLine, Strip, Lower, KeyOf, ValueOf, IndexOf, IsExtentLine, CanonicalKey, CanonicalValue;
    assert DDB <= Lower(s);
  }

  lemma HintLine(info: Info, k: string, v: string)
    requires CanonicalKey(k) && CanonicalValue(v) && k == "parentfilenamehint"
    ensures AfterLine(info, PrintedLine(k, v)) == Some(info.(ddb := info.ddb[k := v]))
  {
    var s := Strip(PrintedLine(k, v));
    PrintedIsRead(k, v);
    hide CanonicalKey, CanonicalValue, PrintedLine, Strip, KeyOf, ValueOf, IndexOf;
    assert s[0] == 'p' && Lower(s)[0] == 'p' && !IsSpace('p');
    NotExtent(s);
    hide Lower, IsExtentLine, IsSpace;
    assert !(DDB <= Lower(s));
    HintKey(info, v);
  }

  lemma HintKey(info: Info, v: string)
    ensures AfterKey(info, "parentfilenamehint", v) == Some(info.(ddb := info.ddb["parentfilenamehint" := v]))
  {
  }

  lemma DdbLine(info: Info, k: string, v: string)
    requires DdbKey(k) && CanonicalValue(v)
    ensures AfterLine(info, PrintedLine(k, v)) == Some(info.(ddb := info.ddb[k := v]))
  {
    hide AfterLine, PrintedLine, CanonicalKey, CanonicalValue;
    if DDB <= k { DatabaseLine(info, k, v); } else { HintLine(info, k, v); }
  }

  // ---------------------------------------------------------------------
  // Blocks of lines
  // ---------------------------------------------------------------------

  /** A run of lines with known effects. */
  lemma {:induction false} LinesRead(infos: seq<Info>, lines: seq<string>)
    requires |infos| == |lines| + 1
    requires forall i | 0 <= i < |lines| :: AfterLine(infos[i], lines[i]) == Some(infos[i + 1])
    ensures AfterLines(infos[0], lines) == Some(infos[|lines|])
    decreases |lines|
  {
    hide AfterLine;
    if lines != [] { LinesRead(infos[1..], lines[1..]); }
  }

  lemma HeaderRead(info: Info)
    requires WellFormed(info)
    ensures AfterLines(EMPTY, Header(info))
         == Some(Info(info.version, info.cid, info.parentCid, info.createType, [], map[]))
  {
    var a := EMPTY.(version := info.version);
    var b := a.(cid := info.cid);
    var c := b.(parentCid := info.parentCid);
    var d := c.(createType := info.createType);
    hide AfterLine, AfterLines, WellFormed;
    VersionRead(EMPTY, info.version);
    NamesRead(a, b, c, d, info);
    FixedHeaderLines(EMPTY, d);
    LinesRead([EMPTY, EMPTY, a, b, c, d, d, d], Header(info));
  }

  lemma FixedHeaderLines(a: Info, d: Info)
    ensures AfterLine(a, "# Disk DescriptorFile") == Some(a)
    ensures AfterLine(d, "") == Some(d) && AfterLine(d, "# Extent description") == Some(d)
  {
    assert !IsSpace('e') && !IsSpace('n');
    hide AfterLine, IsSpace;
    CommentLine(a, "# Disk DescriptorFile");
    CommentLine(d, "");
    CommentLine(d, "# Extent description");
  }

  lemma HeaderNames()
    ensures HeaderName("version") && HeaderName("CID") && HeaderName("parentCID") && HeaderName("createType")
    ensures Lower("version") == "version" && Lower("CID") == "cid"
    ensures Lower("parentCID") == "parentcid" && Lower("createType") == "createtype"
  {
    LowerNames();
    hide Lower;
  }

  lemma LowerNames()
    ensures Lower("version") == "version" && Lower("CID") == "cid"
    ensures Lower("parentCID") == "parentcid" && Lower("createType") == "createtype"
  {
    hide IsSpace;
  }

  lemma VersionKey(info: Info, v: string, n: int)
    requires ParseInt(v) == Some(n)
    ensures AfterKey(info, "version", v) == Some(info.(version := n))
  {
    hide ParseInt;
  }

  lemma NumberIsPlain(n: int)
    ensures PlainValue(Str(n))
  {
    StrIsWord(n);
    WordIsOneLine(Str(n));
  }

  lemma VersionRead(info: Info, n: int)
    ensures AfterLine(info, "version=" + Str(n)) == Some(info.(version := n))
  {
    hide AfterLine, AfterKey, Str, ParseInt, HeaderName, PlainValue, Lower;
    HeaderNames();
    ParseIntOfStr(n);
    NumberIsPlain(n);
    CidRead(info, "version", Str(n));
    VersionKey(info, Str(n), n);
    assert "version=" + Str(n) == "version" + "=" + Str(n);
  }

  lemma NamesRead(a: Info, b: Info, c: Info, d: Info, info: Info)
    requires WellFormed(info)
    requires b == a.(cid := info.cid) && c == b.(parentCid := info.parentCid) && d == c.(createType := info.createType)
    ensures AfterLine(a, "CID=" + info.cid) == Some(b)
    ensures AfterLine(b, "parentCID=" + info.parentCid) == Some(c)
    ensures AfterLine(c, "createType=" + ("\"" + info.createType + "\"")) == Some(d)
  {
    hide AfterLine, HeaderName;
    HeaderNames();
    CidRead(a, "CID", info.cid);
    CidRead(b, "parentCID", info.parentCid);
    var q := "\"" + info.createType + "\"";
    QuotedValue(info.createType);
    KeyLine(c, "createType", q);
    assert "createType=" + q == "createType" + "=" + q;
    assert "CID=" + info.cid == "CID" + "=" + info.cid;
    assert "parentCID=" + info.parentCid == "parentCID" + "=" + info.parentCid;
  }

  lemma CidRead(info: Info, name: string, v: string)
    requires HeaderName(name) && PlainValue(v)
    ensures AfterLine(info, name + "=" + v) == AfterKey(info, Lower(name), v)
  {
    hide AfterLine, AfterKey, HeaderName;
    PlainUnquote(v);
    KeyLine(info, name, v);
  }

  lemma FirstLine(info: Info, a: string, rest: seq<string>, next: Info)
    requires AfterLine(info, a) == Some(next)
    ensures AfterLines(info, [a] + rest) == AfterLines(next, rest)
  {
    hide AfterLine;
    assert ([a] + rest)[1..] == rest;
  }

  lemma {:induction false} ExtentsRead(info: Info, extents: seq<Extent>)
    requires forall i | 0 <= i < |extents| :: PlainExtent(extents[i])
    ensures AfterLines(info, ExtentLines(extents)) == Some(info.(extents := info.extents + extents))
    decreases |extents|
  {
    hide AfterLine, PrintedExtent, PlainExtent;
    if extents == [] {
      assert info.extents + [] == info.extents;
    } else {
      var next := info.(extents := info.extents + [extents[0]]);
      ExtentLine(info, extents[0]);
      FirstLine(info, PrintedExtent(extents[0]), ExtentLines(extents[1..]), next);
      ExtentsRead(next, extents[1..]);
      assert info.extents + [extents[0]] + extents[1..] == info.extents + extents;
    }
  }

  lemma {:induction false} DdbRead(info: Info, keys: seq<string>, ddb: map<string, string>)
    requires forall i | 0 <= i < |keys| :: keys[i] in ddb && DdbKey(keys[i]) && CanonicalValue(ddb[keys[i]])
    ensures AfterLines(info, DdbLines(keys, ddb)) == Some(info.(ddb := info.ddb + map k | k in keys :: ddb[k]))
    decreases |keys|
  {
    hide AfterLine, PrintedLine, DdbKey, CanonicalValue;
    var m := map k | k in keys :: ddb[k];
    if keys == [] {
      assert m.Keys == {};
      assert info.ddb + m == info.ddb;
    } else {
      var k := keys[0];
      var next := info.(ddb := info.ddb[k := ddb[k]]);
      DdbLine(info, k, ddb[k]);
      FirstLine(info, PrintedLine(k, ddb[k]), DdbLines(keys[1..], ddb), next);
      DdbRead(next, keys[1..], ddb);
      MapOfKeys(info.ddb, keys, ddb);
    }
  }

  lemma MapOfKeys(before: map<string, string>, keys: seq<string>, ddb: map<string, string>)
    requires keys != [] && forall i | 0 <= i < |keys| :: keys[i] in ddb
    ensures before[keys[0] := ddb[keys[0]]] + (map k | k in keys[1..] :: ddb[k]) == before + map k | k in keys :: ddb[k]
  {
    assert keys == [keys[0]] + keys[1..];
  }

  lemma DatabaseRead(info: Info)
    ensures AfterLines(info, DATABASE) == Some(info)
  {
    assert !IsSpace('e') && !IsSpace('B');
    hide AfterLine, IsSpace;
    CommentLine(info, "");
    CommentLine(info, "# The Disk Data Base");
    CommentLine(info, "#DDB");
    LinesRead([info, info, info, info, info], DATABASE);
  }

  lemma DescriptorRead(info: Info, keys: seq<string>)
    requires WellFormed(info) && forall i | 0 <= i < |keys| :: keys[i] in info.ddb
    ensures AfterLines(EMPTY, DescriptorLines(info, keys)) == Some(info.(ddb := map k | k in keys :: info.ddb[k]))
  {
    hide AfterLine, AfterLines, Header, ExtentLines, DdbLines, PlainExtent, DdbKey, CanonicalValue;
    var h := Info(info.version, info.cid, info.parentCid, info.createType, [], map[]);
    var e := h.(extents := info.extents);
    var m := map k | k in keys :: info.ddb[k];
    HeaderRead(info);
    ExtentsRead(h, info.extents);
    assert h.extents + info.extents == info.extents;
    DatabaseRead(e);
    DdbRead(e, keys, info.ddb);
    assert e.ddb + m == m;
    FourBlocks(EMPTY, Header(info), ExtentLines(info.extents), DATABASE, DdbLines(keys, info.ddb), h, e, e);
  }

  lemma FourBlocks(i0: Info, a: seq<string>, b: seq<string>, c: seq<string>, d: seq<string>,
                   i1: Info, i2: Info, i3: Info)
    requires AfterLines(i0, a) == Some(i1) && AfterLines(i1, b) == Some(i2) && AfterLines(i2, c) == Some(i3)
    ensures AfterLines(i0, a + b + c + d) == AfterLines(i3, d)
  {
    hide AfterLines;
    LinesAppend(i0, a, b);
    LinesAppend(i0, a + b, c);
    LinesAppend(i0, a + b + c, d);
  }

  // ---------------------------------------------------------------------
  // From lines to text
  // ---------------------------------------------------------------------

  predicate AllOneLine(lines: seq<string>) { forall i | 0 <= i < |lines| :: OneLine(lines[i]) }

  lemma {:induction false} SplitTerminated(lines: seq<string>)
    requires AllOneLine(lines)
    ensures SplitLines(Terminated(lines)) == lines
    decreases |lines|
  {
    if lines != [] {
      SplitFirstLine(lines[0], Terminated(lines[1..]));
      SplitTerminated(lines[1..]);
    }
  }

  lemma {:induction false} ExtentsOneLine(extents: seq<Extent>)
    requires forall i | 0 <= i < |extents| :: PlainExtent(extents[i]) && OneLine(extents[i].filename)
    ensures AllOneLine(ExtentLines(extents))
    decreases |extents|
  {
    if extents != [] {
      OneLineExtent(extents[0]);
      hide PrintedExtent, OneLine, PlainExtent;
      ExtentsOneLine(extents[1..]);
    }
  }

  lemma WordIsOneLine(w: string)
    requires IsWord(w)
    ensures OneLine(w)
  {
    forall i | 0 <= i < |w| ensures !IsLineBreak(w[i]) { assert !IsSpace(w[i]); }
  }

  lemma OneLineConcat(a: string, b: string)
    requires OneLine(a) && OneLine(b)
    ensures OneLine(a + b)
  {
  }

  lemma OneLineExtent(e: Extent)
    requires PlainExtent(e) && OneLine(e.filename)
    ensures OneLine(PrintedExtent(e))
  {
    var n, q := Str(e.sectors), "\"" + e.filename + "\"";
    AccessIsWord(e.access);
    WordIsOneLine(e.access);
    WordIsOneLine(e.extentType);
    StrIsWord(e.sectors);
    WordIsOneLine(n);
    assert OneLine(" ") && OneLine("\"");
    hide OneLine;
    OneLineConcat("\"", e.filename);
    OneLineConcat("\"" + e.filename, "\"");
    OneLineConcat(e.access, " ");
    OneLineConcat(e.access + " ", n);
    OneLineConcat(e.access + " " + n, " ");
    OneLineConcat(e.access + " " + n + " ", e.extentType);
    OneLineConcat(e.access + " " + n + " " + e.extentType, " ");
    OneLineConcat(e.access + " " + n + " " + e.extentType + " ", q);
  }

  lemma {:induction false} DdbOneLine(keys: seq<string>, ddb: map<string, string>)
    requires forall i | 0 <= i < |keys| :: keys[i] in ddb && CanonicalKey(keys[i]) && CanonicalValue(ddb[keys[i]])
    ensures AllOneLine(DdbLines(keys, ddb))
    decreases |keys|
  {
    if keys != [] {
      PrintedIsOneLine(keys[0], ddb[keys[0]]);
      hide PrintedLine, OneLine, CanonicalKey, CanonicalValue;
      DdbOneLine(keys[1..], ddb);
    }
  }

  lemma HeaderPieces()
    ensures OneLine("version=") && OneLine("CID=") && OneLine("parentCID=") && OneLine("createType=") && OneLine("\"")
  {
  }

  lemma HeaderComments()
    ensures OneLine("# Disk DescriptorFile") && OneLine("# Extent description") && OneLine("")
  {
  }

  lemma HeaderOneLine(info: Info)
    requires WellFormed(info)
    ensures AllOneLine(Header(info))
  {
    hide OneLine, Str, Trimmed;
    StrIsWord(info.version);
    WordIsOneLine(Str(info.version));
    HeaderPieces();
    HeaderComments();
    OneLineConcat("version=", Str(info.version));
    OneLineConcat("CID=", info.cid);
    OneLineConcat("parentCID=", info.parentCid);
    OneLineConcat("\"", info.createType);
    OneLineConcat("\"" + info.createType, "\"");
    OneLineConcat("createType=", "\"" + info.createType + "\"");
  }

  /** Round trip: a well-formed descriptor, printed with its database entries in
      any order, is read back in every field. */
  lemma PrintThenParse(info: Info, keys: seq<string>)
    requires WellFormed(info) && ListsKeys(keys, info.ddb)
    ensures Parsed(Printed(info, keys)) == Some(info)
  {
    hide AfterLine, AfterLines, OneLine, Header, ExtentLines, DdbLines;
    hide PlainExtent, PlainValue, CanonicalKey, CanonicalValue;
    DescriptorRead(info, keys);
    HeaderOneLine(info);
    ExtentsOneLine(info.extents);
    DdbOneLine(keys, info.ddb);
    DatabaseOneLine();
    assert (map k | k in keys :: info.ddb[k]) == info.ddb;
    SplitTerminated(DescriptorLines(info, keys));
  }

  lemma DatabaseOneLine()
    ensures AllOneLine(DATABASE)
  {
    assert OneLine("# The Disk Data Base") && OneLine("#DDB") && OneLine("");
  }
}
