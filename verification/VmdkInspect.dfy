/** Inspecting a VMDK descriptor file, and what a VMX disk learns from it
    (vmfree/parsers/vmdk.py, `inspect_vmdk`). */
module VmdkInspect {
  import opened Text
  import opened Lines
  import opened PathNames
  import opened Model
  import opened VmdkParser
  import opened VmdkMeaning
  import opened VmdkRoundTrip
  import opened VmxDevices

  datatype InspectError = NotFound | BinaryData | BadVersion | NoCreateType

  datatype Inspection = Inspected(info: Info, sizeBytes: int, diskType: DiskType) | Rejected(error: InspectError)

  function Classify(createType: string): DiskType {
    var t := Lower(createType);
    if t == "monolithicsparse" then MonolithicSparse
    else if t == "monolithicflat" then MonolithicFlat
    else if t == "twogbmaxextentsparse" then TwoGbMaxExtentSparse
    else if t == "twogbmaxextentflat" then TwoGbMaxExtentFlat
    else if t == "vmfs" then Vmfs
    else if t == "vmfssparse" then VmfsSparse
    else if t == "vmfsthin" then VmfsThin
    else if t == "sesparse" then SeSparse
    else if t == "streamoptimized" then StreamOptimized
    else Unknown
  }

  predicate LooksLikeText(text: string) {
    var s := TrimLeft(text, IsSpace);
    s == "" || s[0] in ['#', 'v', 'V', '\n', '\r']
  }

  /** The result for a file with the given content; `None` is a missing file. */
  function Inspect(content: Option<string>): Inspection {
    match content
    case None => Rejected(NotFound)
    case Some(text) =>
      if !LooksLikeText(text) then Rejected(BinaryData)
      else match VmdkParser.Parsed(text)
        case None => Rejected(BadVersion)
        case Some(info) =>
          if info.createType == "" then Rejected(NoCreateType)
          else Inspected(info, SECTOR_SIZE * Sectors(info.extents), Classify(info.createType))
  }

  /** The first character that is no blank starts neither a comment nor a version. */
  ghost predicate LooksBinary(text: string) {
    exists i: nat | i < |text| ::
      !IsSpace(text[i]) && text[i] !in "#vV" && forall j | 0 <= j < i :: IsSpace(text[j])
  }

  lemma {:induction false} TextIff(text: string)
    ensures LooksBinary(text) <==> !LooksLikeText(text)
    decreases |text|
  {
    if text != "" && IsSpace(text[0]) {
      TextIff(text[1..]);
      if LooksBinary(text) {
        var i: nat :| i < |text| && !IsSpace(text[i]) && text[i] !in "#vV" && forall j | 0 <= j < i :: IsSpace(text[j]);
        assert text[1..][i - 1] == text[i];
      }
      if LooksBinary(text[1..]) {
        var t := text[1..];
        var i: nat :| i < |t| && !IsSpace(t[i]) && t[i] !in "#vV" && forall j | 0 <= j < i :: IsSpace(t[j]);
        assert text[i + 1] == t[i];
        forall j | 0 <= j < i + 1 ensures IsSpace(text[j]) { if j > 0 { assert text[j] == t[j - 1]; } }
      }
    } else if text != "" {
      assert IsSpace('\n') && IsSpace('\r');
    }
  }

  /** The disk type that a create type names. */
  predicate IsTypeOf(t: DiskType, createType: string) {
    var c := Lower(createType);
    && (t == MonolithicSparse <==> c == "monolithicsparse") && (t == MonolithicFlat <==> c == "monolithicflat")
    && (t == TwoGbMaxExtentSparse <==> c == "twogbmaxextentsparse")
    && (t == TwoGbMaxExtentFlat <==> c == "twogbmaxextentflat")
    && (t == Vmfs <==> c == "vmfs") && (t == VmfsSparse <==> c == "vmfssparse") && (t == VmfsThin <==> c == "vmfsthin")
    && (t == SeSparse <==> c == "sesparse") && (t == StreamOptimized <==> c == "streamoptimized")
  }

  lemma ClassifyIsRight(createType: string)
    ensures IsTypeOf(Classify(createType), createType)
  {
    hide Lower;
    var c := Lower(createType);
    assert |"monolithicsparse"| == 16 && |"monolithicflat"| == 14 && |"twogbmaxextentsparse"| == 20;
    assert |"twogbmaxextentflat"| == 18 && |"vmfs"| == 4 && |"vmfssparse"| == 10 && |"vmfsthin"| == 8;
    assert |"sesparse"| == 8 && |"streamoptimized"| == 15 && "sesparse"[0] != "vmfsthin"[0];
  }

  /** The result for a file: missing, binary, without a proper version, without a
      create type, or what its lines say with 512 bytes for each sector. */
  method InspectVmdk(content: Option<string>) returns (r: Inspection)
    ensures r == Rejected(NotFound) <==> content.None?
    ensures content.Some? && LooksBinary(content.value) ==> r == Rejected(BinaryData)
    ensures content.Some? && !LooksBinary(content.value) && VersionIsNoNumber(SplitLines(content.value)) ==>
      r == Rejected(BadVersion)
    ensures content.Some? && !LooksBinary(content.value) && !VersionIsNoNumber(SplitLines(content.value)) ==>
      exists info :: Means(info, SplitLines(content.value)) &&
        if info.createType == "" then r == Rejected(NoCreateType)
        else r.Inspected? && r.info == info && r.sizeBytes == 512 * Sectors(info.extents)
             && IsTypeOf(r.diskType, info.createType)
    ensures r == Inspect(content)
  {
    hide LooksLikeText, AfterLines, SplitLines, Classify, Sectors, Means, VersionIsNoNumber, LooksBinary, IsTypeOf;
    if content.Some? {
      TextIff(content.value);
      ParsedMeans(content.value);
    }
    if content.None? {
      return Rejected(NotFound);
    }
    if !LooksLikeText(content.value) {
      return Rejected(BinaryData);
    }
    var info := new VmdkInfo();
    var ok := info.ParseDescriptor(content.value);
    if !ok {
      return Rejected(BadVersion);
    }
    if info.createType == "" {
      return Rejected(NoCreateType);
    }
    var size := VirtualSizeBytes(info.extents);
    ClassifyIsRight(info.createType);
    return Inspected(info.Contents(), size, Classify(info.createType));
  }

  lemma PrintedStart(info: Info, keys: seq<string>)
    requires forall i | 0 <= i < |keys| :: keys[i] in info.ddb
    ensures LooksLikeText(VmdkRoundTrip.Printed(info, keys))
  {
    hide ExtentLines, DdbLines;
    var text := VmdkRoundTrip.Printed(info, keys);
    assert DescriptorLines(info, keys)[0] == "# Disk DescriptorFile";
    assert text[0] == '#' && !IsSpace('#');
  }

  /** A printed descriptor passes inspection exactly when it names a create type,
      and then every field, the size and the type come back. */
  lemma InspectPrinted(info: Info, keys: seq<string>)
    requires VmdkRoundTrip.WellFormed(info) && ListsKeys(keys, info.ddb)
    ensures Inspect(Some(VmdkRoundTrip.Printed(info, keys))) ==
      if info.createType == "" then Rejected(NoCreateType)
      else Inspected(info, SECTOR_SIZE * Sectors(info.extents), Classify(info.createType))
  {
    hide LooksLikeText, VmdkRoundTrip.Printed, VmdkParser.Parsed, Classify, Sectors, VmdkRoundTrip.WellFormed;
    PrintedStart(info, keys);
    VmdkRoundTrip.PrintThenParse(info, keys);
  }

  /** `Path(path).suffix` */
  function Suffix(path: string): string {
    var name := Name(Parse(path));
    var k := LastDot(name);
    if 0 < k < |name| - 1 then name[k..] else ""
  }

  /** What the VMX scan learns about a file: failures of the inspection count as
      knowing nothing. */
  function InspectorFor(files: map<string, string>): Inspector {
    path =>
      if path !in files || Lower(Suffix(path)) != ".vmdk" then None
      else match Inspect(Some(files[path]))
        case Inspected(_, size, kind) => Some((size, kind))
        case Rejected(_) => None
  }

  /** The file holds the printed form of the descriptor. */
  ghost predicate Holds(files: map<string, string>, path: string, info: Info, keys: seq<string>) {
    && VmdkRoundTrip.WellFormed(info) && ListsKeys(keys, info.ddb) && info.createType != ""
    && path in files && Lower(Suffix(path)) == ".vmdk" && files[path] == VmdkRoundTrip.Printed(info, keys)
  }

  /** A disk scanned from a VMX file has the size and type of the descriptor it
      names, whenever that descriptor is a printed one with a create type; the
      size does not depend on the order of the extents. */
  lemma ScannedSize(entries: Entries, dir: Path, files: map<string, string>, s: Slot, isBoot: bool,
                    info: Info, keys: seq<string>, extents: seq<Extent>)
    requires ValidSlot(s) && multiset(extents) == multiset(info.extents)
    ensures var path := ToString(Div(dir, Get(entries, Key(s, "filename"), "")));
      var d := DiskAt(entries, dir, InspectorFor(files), s, isBoot);
      Holds(files, path, info, keys) ==>
        d.sizeBytes == 512 * Sectors(extents) && d.diskType == Classify(info.createType)
  {
    hide Inspect, Suffix, ToString, Div, Get, Key, Classify, Sectors, VmdkRoundTrip.Printed, VmdkRoundTrip.WellFormed;
    if VmdkRoundTrip.WellFormed(info) && ListsKeys(keys, info.ddb) { InspectPrinted(info, keys); }
    SectorsOfPermutation(extents, info.extents);
  }
}
