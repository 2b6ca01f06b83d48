/** Disk and file references of an OVF envelope, and the join that resolves the
    disk drives (vmfree/parsers/ovf.py). */
module OvfDisks {
  import opened Text
  import opened PathNames
  import opened Model
  import opened OvfTree
  import opened OvfUnits
  import opened OvfHardware

  function FindLocal(children: seq<Element>, local: string): Option<Element> {
    if children == [] then None
    else if LocalTag(children[0].tag) == local then Some(children[0])
    else FindLocal(children[1..], local)
  }

  /** A section of an element: by qualified name, else by local name. */
  function SectionOf(e: Element, ns: string, local: string): Option<Element> {
    match Find(e.children, Qualified(ns, local))
    case Some(section) => Some(section)
    case None => FindLocal(e.children, local)
  }

  function Section(e: Element, ns: string, local: string): seq<Element> {
    match SectionOf(e, ns, local) case Some(section) => section.children case None => []
  }

  /** The first child with the qualified name; without one the first with the local
      name; without that none. */
  lemma SectionMeaning(e: Element, ns: string, local: string)
    ensures var tag := "{" + ns + "}" + local;
      && (forall x | FirstChild(x, e.children, tag) :: SectionOf(e, ns, local) == Some(x))
      && (NoChild(e.children, tag) ==> SectionOf(e, ns, local) == FindLocal(e.children, local))
  {
    hide FirstChild, NoChild, Find, FindLocal;
    var tag := "{" + ns + "}" + local;
    assert Qualified(ns, local) == tag;
    FindIff(e.children, tag);
    forall x, y | FirstChild(x, e.children, tag) && FirstChild(y, e.children, tag) ensures x == y {
      OneFirst(x, y, e.children, tag);
    }
    forall x | FirstChild(x, e.children, tag) ensures !NoChild(e.children, tag) { NoneFirst(x, e.children, tag); }
  }

  lemma {:induction false} FindLocalIs(children: seq<Element>, local: string)
    ensures match FindLocal(children, local)
      case None => forall i | 0 <= i < |children| :: LocalTag(children[i].tag) != local
      case Some(x) =>
        exists i | 0 <= i < |children| ::
          children[i] == x && LocalTag(x.tag) == local && forall j | 0 <= j < i :: LocalTag(children[j].tag) != local
    decreases |children|
  {
    hide LocalTag;
    if children != [] && LocalTag(children[0].tag) != local {
      var rest := children[1..];
      FindLocalIs(rest, local);
      assert forall j | 0 < j < |children| :: children[j] == rest[j - 1];
      if FindLocal(rest, local).Some? {
        var i :| 0 <= i < |rest| && rest[i] == FindLocal(rest, local).value && LocalTag(rest[i].tag) == local
          && forall j | 0 <= j < i :: LocalTag(rest[j].tag) != local;
        assert children[i + 1] == rest[i];
      }
    }
  }

  type FileRefs = map<string, string>
  type DiskRefs = map<string, (string, int)>

  function FileId(e: Element, ns: string): string { Attr(e, Qualified(ns, "id"), "") }
  function Href(e: Element, ns: string): string { Attr(e, Qualified(ns, "href"), "") }
  function DiskIdOf(e: Element, ns: string): string { Attr(e, Qualified(ns, "diskId"), "") }
  function FileRef(e: Element, ns: string): string { Attr(e, Qualified(ns, "fileRef"), "") }

  /** The capacity in bytes that a Disk element states. */
  function Capacity(e: Element, ns: string): int {
    ParseCapacity(Attr(e, Qualified(ns, "capacity"), "0"), Attr(e, Qualified(ns, "capacityAllocationUnits"), "byte"))
  }

  predicate IsFile(e: Element, ns: string) {
    LocalTag(e.tag) == "File" && FileId(e, ns) != "" && Href(e, ns) != ""
  }

  predicate IsDisk(e: Element, ns: string) { LocalTag(e.tag) == "Disk" && DiskIdOf(e, ns) != "" }

  function FileRefsOf(es: seq<Element>, ns: string): FileRefs {
    if es == [] then map[]
    else
      var last := es[|es| - 1];
      var before := FileRefsOf(es[..|es| - 1], ns);
      if IsFile(last, ns) then before[FileId(last, ns) := Href(last, ns)] else before
  }

  function DiskRefsOf(es: seq<Element>, ns: string): DiskRefs {
    if es == [] then map[]
    else
      var last := es[|es| - 1];
      var before := DiskRefsOf(es[..|es| - 1], ns);
      if IsDisk(last, ns) then before[DiskIdOf(last, ns) := (FileRef(last, ns), Capacity(last, ns))] else before
  }

  method ExtractFileReferences(root: Element, ns: string) returns (refs: FileRefs)
    ensures refs == FileRefsOf(Section(root, ns, "References"), ns)
  {
    hide IsFile, Attr, FileId, Href;
    refs := map[];
    var es := Section(root, ns, "References");
    var i := 0;
    while i < |es|
      invariant 0 <= i <= |es| && refs == FileRefsOf(es[..i], ns)
    {
      assert es[..i + 1][..i] == es[..i];
      if IsFile(es[i], ns) {
        refs := refs[FileId(es[i], ns) := Href(es[i], ns)];
      }
      i := i + 1;
    }
    assert es[..i] == es;
  }

  method ExtractDiskReferences(root: Element, ns: string) returns (disks: DiskRefs)
    ensures disks == DiskRefsOf(Section(root, ns, "DiskSection"), ns)
  {
    hide IsDisk, Attr, DiskIdOf, FileRef, Capacity;
    disks := map[];
    var es := Section(root, ns, "DiskSection");
    var i := 0;
    while i < |es|
      invariant 0 <= i <= |es| && disks == DiskRefsOf(es[..i], ns)
    {
      assert es[..i + 1][..i] == es[..i];
      if IsDisk(es[i], ns) {
        disks := disks[DiskIdOf(es[i], ns) := (FileRef(es[i], ns), Capacity(es[i], ns))];
      }
      i := i + 1;
    }
    assert es[..i] == es;
  }

  // ---------------------------------------------------------------------
  // What the elements say
  // ---------------------------------------------------------------------

  predicate HasAttr(e: Element, name: string, value: string) { name in e.attrs && e.attrs[name] == value }

  /** A File element that names a file for an id. */
  predicate HasFileId(e: Element, ns: string, id: string) {
    && LocalTag(e.tag) == "File" && id != "" && HasAttr(e, Qualified(ns, "id"), id)
    && Qualified(ns, "href") in e.attrs && e.attrs[Qualified(ns, "href")] != ""
  }

  predicate HasDiskId(e: Element, ns: string, id: string) {
    LocalTag(e.tag) == "Disk" && id != "" && HasAttr(e, Qualified(ns, "diskId"), id)
  }

  /** The last File element with an id. */
  predicate LastFile(es: seq<Element>, ns: string, id: string, b: nat) {
    b < |es| && HasFileId(es[b], ns, id) && forall j | b < j < |es| :: !HasFileId(es[j], ns, id)
  }

  /** The last Disk element with an id. */
  predicate LastDisk(es: seq<Element>, ns: string, id: string, a: nat) {
    a < |es| && HasDiskId(es[a], ns, id) && forall j | a < j < |es| :: !HasDiskId(es[j], ns, id)
  }

  /** The File element that a Disk element refers to. */
  predicate LeadsTo(e: Element, fs: seq<Element>, ns: string, b: nat) {
    Qualified(ns, "fileRef") in e.attrs && LastFile(fs, ns, e.attrs[Qualified(ns, "fileRef")], b)
  }

  /** The bytes that a Disk element states: a number in its units, or in bytes when
      it names none; without a number there are none. */
  predicate StatesBytes(e: Element, ns: string, bytes: int) {
    var capacity, units := Qualified(ns, "capacity"), Qualified(ns, "capacityAllocationUnits");
    if capacity !in e.attrs then bytes == 0
    else if units in e.attrs then bytes == ParseCapacity(e.attrs[capacity], e.attrs[units])
    else match ParseInt(e.attrs[capacity]) case None => bytes == 0 case Some(n) => bytes == n
  }

  lemma FileIff(e: Element, ns: string, id: string)
    ensures HasFileId(e, ns, id) <==> IsFile(e, ns) && FileId(e, ns) == id
    ensures HasFileId(e, ns, id) ==> Href(e, ns) == e.attrs[Qualified(ns, "href")]
  {
    hide Qualified, LocalTag;
  }

  lemma DiskIff(e: Element, ns: string, id: string)
    ensures HasDiskId(e, ns, id) <==> IsDisk(e, ns) && DiskIdOf(e, ns) == id
  {
    hide Qualified, LocalTag;
  }

  lemma CapacityStated(e: Element, ns: string)
    ensures StatesBytes(e, ns, Capacity(e, ns))
  {
    hide ParseCapacity, Qualified;
    NoCapacity(Attr(e, Qualified(ns, "capacityAllocationUnits"), "byte"));
    InBytes(Attr(e, Qualified(ns, "capacity"), "0"));
  }

  lemma NoCapacity(units: string)
    ensures ParseCapacity("0", units) == 0
  {
    ZeroIsNumber();
    hide ParseInt, CapacityUnit;
  }

  /** What the file table holds: for each id the name of the last File element
      with that id, and nothing else. */
  lemma {:induction false} FileRefsMeaning(es: seq<Element>, ns: string, id: string)
    ensures id in FileRefsOf(es, ns) <==> exists b: nat :: LastFile(es, ns, id, b)
    ensures forall b: nat | LastFile(es, ns, id, b) ::
      id in FileRefsOf(es, ns) && FileRefsOf(es, ns)[id] == es[b].attrs[Qualified(ns, "href")]
    decreases |es|
  {
    hide IsFile, FileId, Href, LastFile, Qualified;
    if es == [] {
      forall b: nat ensures !LastFile(es, ns, id, b) { NoLast(ns, id, b); }
    } else {
      var n := |es| - 1;
      var front := es[..n];
      FileRefsMeaning(front, ns, id);
      FileIff(es[n], ns, id);
      forall b: nat ensures
        if HasFileId(es[n], ns, id) then LastFile(es, ns, id, b) <==> b == n
        else LastFile(es, ns, id, b) <==> LastFile(front, ns, id, b)
      {
        LastFileFront(es, ns, id, b);
      }
      forall b: nat | LastFile(es, ns, id, b) ensures b < |es| && HasFileId(es[b], ns, id) { LastIsOne(es, ns, id, b); }
      hide HasFileId;
      forall b: nat | LastFile(front, ns, id, b) ensures b < n && front[b] == es[b] { LastIsOne(front, ns, id, b); }
    }
  }

  lemma NoLast(ns: string, id: string, b: nat)
    ensures !LastFile([], ns, id, b) && !LastDisk([], ns, id, b)
  {
  }

  lemma LastIsOne(es: seq<Element>, ns: string, id: string, b: nat)
    ensures LastFile(es, ns, id, b) ==> b < |es| && HasFileId(es[b], ns, id)
    ensures LastDisk(es, ns, id, b) ==> b < |es| && HasDiskId(es[b], ns, id)
  {
    hide HasFileId, HasDiskId;
  }

  lemma LastFileFront(es: seq<Element>, ns: string, id: string, b: nat)
    requires es != []
    ensures var n := |es| - 1;
      if HasFileId(es[n], ns, id) then LastFile(es, ns, id, b) <==> b == n
      else LastFile(es, ns, id, b) <==> LastFile(es[..n], ns, id, b)
  {
    hide HasFileId;
    var front := es[..|es| - 1];
    assert forall j | 0 <= j < |front| :: front[j] == es[j];
    if LastFile(front, ns, id, b) {
      forall j | b < j < |front| ensures !HasFileId(es[j], ns, id) { assert front[j] == es[j]; }
    }
  }

  /** What the disk table holds: for each id the entry of the last Disk element
      with that id, and nothing else. */
  lemma {:induction false} DiskRefsMeaning(es: seq<Element>, ns: string, id: string)
    ensures id in DiskRefsOf(es, ns) <==> exists a: nat :: LastDisk(es, ns, id, a)
    ensures forall a: nat | LastDisk(es, ns, id, a) ::
      id in DiskRefsOf(es, ns) && DiskRefsOf(es, ns)[id] == (FileRef(es[a], ns), Capacity(es[a], ns))
    decreases |es|
  {
    hide IsDisk, DiskIdOf, FileRef, Capacity, LastDisk;
    if es == [] {
      forall a: nat ensures !LastDisk(es, ns, id, a) { NoLast(ns, id, a); }
    } else {
      var n := |es| - 1;
      var front := es[..n];
      DiskRefsMeaning(front, ns, id);
      DiskIff(es[n], ns, id);
      hide HasDiskId;
      forall a: nat ensures
        if HasDiskId(es[n], ns, id) then LastDisk(es, ns, id, a) <==> a == n
        else LastDisk(es, ns, id, a) <==> LastDisk(front, ns, id, a)
      {
        LastDiskFront(es, ns, id, a);
      }
      forall a: nat | LastDisk(es, ns, id, a) ensures a < |es| { LastIsOne(es, ns, id, a); }
      forall a: nat | LastDisk(front, ns, id, a) ensures a < n && front[a] == es[a] { LastIsOne(front, ns, id, a); }
    }
  }

  lemma LastDiskFront(es: seq<Element>, ns: string, id: string, a: nat)
    requires es != []
    ensures var n := |es| - 1;
      if HasDiskId(es[n], ns, id) then LastDisk(es, ns, id, a) <==> a == n
      else LastDisk(es, ns, id, a) <==> LastDisk(es[..n], ns, id, a)
  {
    hide HasDiskId;
    var front := es[..|es| - 1];
    assert forall j | 0 <= j < |front| :: front[j] == es[j];
    if LastDisk(front, ns, id, a) {
      forall j | a < j < |front| ensures !HasDiskId(es[j], ns, id) { assert front[j] == es[j]; }
    }
  }

  /** Every file name in the table is non-empty. */
  lemma {:induction false} FileNamesNonEmpty(es: seq<Element>, ns: string)
    ensures forall id | id in FileRefsOf(es, ns) :: FileRefsOf(es, ns)[id] != ""
    decreases |es|
  {
    hide Href, FileId;
    if es != [] { FileNamesNonEmpty(es[..|es| - 1], ns); }
  }

  // ---------------------------------------------------------------------
  // Resolving
  // ---------------------------------------------------------------------

  /** `s.rsplit("/", 1)[-1]` */
  function AfterLastSlash(s: string): string {
    var k := IndexOf(s, '/');
    if k == |s| then s else AfterLastSlash(s[k + 1..])
  }

  function DiskId(item: DiskItem): string { AfterLastSlash(item.hostResource) }

  /** The capacity and the file a drive refers to; zero and "" when a reference
      leads nowhere. */
  function CapacityOf(item: DiskItem, disks: DiskRefs): int {
    if DiskId(item) in disks then disks[DiskId(item)].1 else 0
  }

  function FileOf(item: DiskItem, disks: DiskRefs, files: FileRefs): string {
    var ref := if DiskId(item) in disks then disks[DiskId(item)].0 else "";
    if ref in files then files[ref] else ""
  }

  function Resolved(item: DiskItem, first: bool, disks: DiskRefs, files: FileRefs, base: Path): DiskDefinition {
    var file := FileOf(item, disks, files);
    Disk(if file != "" then ToString(Div(base, file)) else "", "scsi0", item.address, CapacityOf(item, disks),
         StreamOptimized, first)
  }

  function ResolvedAll(items: seq<DiskItem>, disks: DiskRefs, files: FileRefs, base: Path): (r: seq<DiskDefinition>)
    ensures |r| == |items|
  {
    seq(|items|, i requires 0 <= i < |items| => Resolved(items[i], i == 0, disks, files, base))
  }

  /** The lookups of the loop, step by step. */
  lemma ResolvedIs(item: DiskItem, first: bool, disks: DiskRefs, files: FileRefs, base: Path,
                   id: string, ref: string, file: string, capacity: int, path: string)
    requires id == AfterLastSlash(item.hostResource) && (ref, capacity) == (if id in disks then disks[id] else ("", 0))
    requires file == (if ref in files then files[ref] else "")
    requires path == if file != "" then ToString(Div(base, file)) else ""
    ensures Resolved(item, first, disks, files, base)
         == Disk(path, "scsi0", item.address, capacity, StreamOptimized, first)
  {
    hide AfterLastSlash, ToString, Div;
  }

  /** The controller type of the parent is looked up, but both outcomes name the
      same controller. */
  method ResolveDisks(items: seq<DiskItem>, diskRefs: DiskRefs, fileRefs: FileRefs, base: Path,
                      controllers: map<string, string>)
    returns (disks: seq<DiskDefinition>)
    ensures disks == ResolvedAll(items, diskRefs, fileRefs, base)
  {
    disks := [];
    var i := 0;
    while i < |items|
      invariant 0 <= i <= |items| && |disks| == i
      invariant forall j | 0 <= j < i :: disks[j] == Resolved(items[j], j == 0, diskRefs, fileRefs, base)
    {
      hide ToString, Div, AfterLastSlash, Resolved, ResolvedAll;
      var id := AfterLastSlash(items[i].hostResource);
      var (fileRef, capacity) := if id in diskRefs then diskRefs[id] else ("", 0);
      var filename := if fileRef in fileRefs then fileRefs[fileRef] else "";
      var path := if filename != "" then ToString(Div(base, filename)) else "";
      var disk := Disk(path, "scsi0", items[i].address, capacity, StreamOptimized, i == 0);
      ResolvedIs(items[i], i == 0, diskRefs, fileRefs, base, id, fileRef, filename, capacity, path);
      disks := disks + [disk];
      i := i + 1;
    }
  }

  lemma ToStringNonEmpty(p: Path)
    requires forall i | 0 <= i < |p.parts| :: p.parts[i] != ""
    ensures ToString(p) != ""
  {
    if p.parts != [] { assert Join("/", p.parts) != "" by { assert p.parts[0] != ""; } }
  }

  /** The part behind the last slash: all of it when there is none. */
  ghost predicate IsTail(t: string, s: string) {
    (forall i | 0 <= i < |t| :: t[i] != '/') && (s == t || exists front :: s == front + "/" + t)
  }

  lemma {:induction false} TailIff(s: string, t: string)
    ensures IsTail(t, s) <==> t == AfterLastSlash(s)
    decreases |s|
  {
    var k := IndexOf(s, '/');
    IndexOfFirst(s, '/');
    hide IndexOf, IsTail;
    if k < |s| {
      assert s == s[..k] + "/" + s[k + 1..];
      TailIff(s[k + 1..], t);
      TailOfTail(s[..k], s[k + 1..], t);
    } else {
      WholeTail(s, t);
    }
  }

  lemma WholeTail(s: string, t: string)
    requires forall i | 0 <= i < |s| :: s[i] != '/'
    ensures IsTail(t, s) <==> t == s
  {
    forall front: string ensures s != front + "/" + t { assert (front + "/" + t)[|front|] == '/'; }
  }

  lemma TailOfTail(a: string, rest: string, t: string)
    requires forall i | 0 <= i < |a| :: a[i] != '/'
    ensures IsTail(t, a + "/" + rest) <==> IsTail(t, rest)
  {
    var s := a + "/" + rest;
    if IsTail(t, rest) {
      if front :| rest == front + "/" + t { assert s == (a + "/" + front) + "/" + t; }
    }
    if IsTail(t, s) {
      assert s[|a|] == '/';
      if front :| s == front + "/" + t { SlashBehind(a, rest, front, t); }
    }
  }

  lemma SlashBehind(a: string, rest: string, front: string, t: string)
    requires forall i | 0 <= i < |a| :: a[i] != '/'
    requires forall i | 0 <= i < |t| :: t[i] != '/'
    requires a + "/" + rest == front + "/" + t
    ensures rest == t || exists f :: rest == f + "/" + t
  {
    var s := a + "/" + rest;
    assert s[|front|] == '/' && forall i | 0 <= i < |a| :: s[i] == a[i];
    if |front| > |a| {
      assert rest == s[|a| + 1..] == front[|a| + 1..] + "/" + t;
    } else {
      assert rest == s[|a| + 1..] == t;
    }
  }

  /** The size of a drive with a disk id: the bytes that the last Disk element with
      the id states, and 0 when there is no such element. */
  ghost predicate SizeIs(bytes: int, ds: seq<Element>, ns: string, id: string) {
    && (forall a: nat | LastDisk(ds, ns, id, a) :: StatesBytes(ds[a], ns, bytes))
    && ((forall a | 0 <= a < |ds| :: !HasDiskId(ds[a], ns, id)) ==> bytes == 0)
  }

  /** The path of a drive with a disk id: that of the file which the last Disk
      element with the id leads to; empty exactly when there is no such file. */
  ghost predicate PathIs(path: string, ds: seq<Element>, fs: seq<Element>, ns: string, id: string, dir: string) {
    && (forall a: nat, b: nat | LastDisk(ds, ns, id, a) && LeadsTo(ds[a], fs, ns, b) ::
          path == ToString(Div(Parse(dir), fs[b].attrs[Qualified(ns, "href")])))
    && (path == "" <==> !(exists a: nat, b: nat :: LastDisk(ds, ns, id, a) && LeadsTo(ds[a], fs, ns, b)))
  }

  /** What an envelope says about a drive. */
  ghost predicate DiskFor(d: DiskDefinition, root: Element, ns: string, item: DiskItem, first: bool, dir: string) {
    && d.controller == "scsi0" && d.unit == item.address && d.diskType == StreamOptimized && d.isBoot == first
    && exists id :: IsTail(id, item.hostResource)
         && SizeIs(d.sizeBytes, Section(root, ns, "DiskSection"), ns, id)
         && PathIs(d.path, Section(root, ns, "DiskSection"), Section(root, ns, "References"), ns, id, dir)
  }

  lemma DriveSize(ds: seq<Element>, ns: string, item: DiskItem)
    ensures SizeIs(CapacityOf(item, DiskRefsOf(ds, ns)), ds, ns, DiskId(item))
  {
    hide DiskId, DiskRefsOf, StatesBytes, Capacity, FileRef, HasDiskId;
    DiskRefsMeaning(ds, ns, DiskId(item));
    forall a: nat | LastDisk(ds, ns, DiskId(item), a) && a < |ds|
      ensures StatesBytes(ds[a], ns, CapacityOf(item, DiskRefsOf(ds, ns)))
    {
      CapacityStated(ds[a], ns);
    }
  }

  /** The path of a resolved drive is that of the file that the last Disk element
      with its id leads to. */
  lemma DriveMeaning(ds: seq<Element>, fs: seq<Element>, ns: string, item: DiskItem, first: bool, base: Path,
                     a: nat, b: nat)
    requires LastDisk(ds, ns, DiskId(item), a) && LeadsTo(ds[a], fs, ns, b)
    ensures Resolved(item, first, DiskRefsOf(ds, ns), FileRefsOf(fs, ns), base).path
         == ToString(Div(base, fs[b].attrs[Qualified(ns, "href")]))
  {
    hide DiskId, Qualified, ToString, Div, Capacity, FileRefsOf, DiskRefsOf, LocalTag;
    DiskRefsMeaning(ds, ns, DiskId(item));
    FileRefsMeaning(fs, ns, FileRef(ds[a], ns));
  }

  /** A drive ends up without a path exactly when there is no Disk element with
      its id, or no File element that the last of them leads to. */
  lemma DriveUnresolvedIff(ds: seq<Element>, fs: seq<Element>, ns: string, item: DiskItem, first: bool, dir: string)
    ensures Resolved(item, first, DiskRefsOf(ds, ns), FileRefsOf(fs, ns), Parse(dir)).path == "" <==>
      !(exists a: nat, b: nat :: LastDisk(ds, ns, DiskId(item), a) && LeadsTo(ds[a], fs, ns, b))
  {
    hide DiskId, ToString, Div, FileRefsOf, DiskRefsOf, Capacity, LastDisk, LastFile, Resolved, LeadsTo, FileRef;
    var disks, files := DiskRefsOf(ds, ns), FileRefsOf(fs, ns);
    DiskRefsMeaning(ds, ns, DiskId(item));
    FileNamesNonEmpty(fs, ns);
    KeptFrom(SplitSlash(dir));
    PathMissingIff(item, first, disks, files, Parse(dir));
    NoEmptyId(fs, ns);
    forall c: nat | LastDisk(ds, ns, DiskId(item), c)
      ensures c < |ds| && disks[DiskId(item)].0 == FileRef(ds[c], ns)
      ensures FileRef(ds[c], ns) in files <==> exists b: nat :: LeadsTo(ds[c], fs, ns, b)
    {
      LastIsOne(ds, ns, DiskId(item), c);
      FileReached(ds[c], fs, ns);
    }
  }

  lemma FileReached(e: Element, fs: seq<Element>, ns: string)
    ensures FileRef(e, ns) in FileRefsOf(fs, ns) <==> exists b: nat :: LeadsTo(e, fs, ns, b)
  {
    hide Qualified, FileRefsOf, LastFile;
    FileRefsMeaning(fs, ns, FileRef(e, ns));
    NoEmptyId(fs, ns);
    if FileRef(e, ns) in FileRefsOf(fs, ns) {
      var b: nat :| LastFile(fs, ns, FileRef(e, ns), b);
      assert LeadsTo(e, fs, ns, b);
    }
  }

  /** A resolved drive is the one that the envelope describes. */
  lemma DriveDescribed(root: Element, ns: string, item: DiskItem, first: bool, dir: string)
    ensures DiskFor(Resolved(item, first, DiskRefsOf(Section(root, ns, "DiskSection"), ns),
                             FileRefsOf(Section(root, ns, "References"), ns), Parse(dir)), root, ns, item, first, dir)
  {
    var ds, fs := Section(root, ns, "DiskSection"), Section(root, ns, "References");
    var id := DiskId(item);
    TailIff(item.hostResource, id);
    DriveSize(ds, ns, item);
    var d := Resolved(item, first, DiskRefsOf(ds, ns), FileRefsOf(fs, ns), Parse(dir));
    hide Section, FileRefsOf, DiskRefsOf, Parse, ToString, Div, SizeIs, IsTail, LastDisk, LeadsTo, AfterLastSlash;
    assert PathIs(d.path, ds, fs, ns, id, dir) by {
      hide Resolved, DiskId;
      DriveUnresolvedIff(ds, fs, ns, item, first, dir);
      forall a: nat | LastDisk(ds, ns, id, a) ensures a < |ds| { LastIsOne(ds, ns, id, a); }
      forall a: nat, b: nat | LastDisk(ds, ns, id, a) && LeadsTo(ds[a], fs, ns, b)
        ensures b < |fs| && Qualified(ns, "href") in fs[b].attrs
        ensures d.path == ToString(Div(Parse(dir), fs[b].attrs[Qualified(ns, "href")]))
      {
        LedIsThere(ds[a], fs, ns, b);
        DriveMeaning(ds, fs, ns, item, first, Parse(dir), a, b);
      }
    }
    hide PathIs;
  }

  lemma LedIsThere(e: Element, fs: seq<Element>, ns: string, b: nat)
    requires LeadsTo(e, fs, ns, b)
    ensures b < |fs| && Qualified(ns, "href") in fs[b].attrs
  {
  }

  lemma {:induction false} NoEmptyId(es: seq<Element>, ns: string)
    ensures "" !in FileRefsOf(es, ns)
    decreases |es|
  {
    hide Href, FileId;
    if es != [] { NoEmptyId(es[..|es| - 1], ns); }
  }

  lemma PathMissingIff(item: DiskItem, first: bool, disks: DiskRefs, files: FileRefs, base: Path)
    requires forall id | id in files :: files[id] != ""
    requires forall i | 0 <= i < |base.parts| :: base.parts[i] != ""
    ensures Resolved(item, first, disks, files, base).path == "" <==>
      (if DiskId(item) in disks then disks[DiskId(item)].0 else "") !in files
  {
    var file := FileOf(item, disks, files);
    var p := Div(base, file);
    KeptFrom(SplitSlash(file));
    ToStringNonEmpty(p);
    hide ToString, Div;
  }

  // ---------------------------------------------------------------------
  // Conservation
  // ---------------------------------------------------------------------

  function TotalSize(disks: seq<DiskDefinition>): int {
    if disks == [] then 0 else disks[0].sizeBytes + TotalSize(disks[1..])
  }

  predicate AllIn(ids: seq<string>, disks: DiskRefs) { forall i | 0 <= i < |ids| :: ids[i] in disks }

  function TotalCapacity(ids: seq<string>, disks: DiskRefs): int
    requires AllIn(ids, disks)
  {
    if ids == [] then 0 else disks[ids[0]].1 + TotalCapacity(ids[1..], disks)
  }

  function DiskIds(items: seq<DiskItem>): (r: seq<string>)
    ensures |r| == |items|
  {
    seq(|items|, i requires 0 <= i < |items| => DiskId(items[i]))
  }

  lemma {:induction false} SizesAreCapacities(items: seq<DiskItem>, k: nat, disks: DiskRefs, files: FileRefs,
                                              base: Path)
    requires k <= |items| && forall i | 0 <= i < |items| :: DiskId(items[i]) in disks
    ensures TotalSize(ResolvedAll(items, disks, files, base)[k..]) == TotalCapacity(DiskIds(items)[k..], disks)
    decreases |items| - k
  {
    hide DiskId, FileOf;
    var r, ids := ResolvedAll(items, disks, files, base), DiskIds(items);
    if k < |items| {
      assert r[k..][1..] == r[k + 1..] && ids[k..][1..] == ids[k + 1..];
      SizesAreCapacities(items, k + 1, disks, files, base);
    }
  }

  lemma {:induction false} CapacityConcat(a: seq<string>, b: seq<string>, disks: DiskRefs)
    requires AllIn(a, disks) && AllIn(b, disks)
    ensures AllIn(a + b, disks) && TotalCapacity(a + b, disks) == TotalCapacity(a, disks) + TotalCapacity(b, disks)
    decreases |a|
  {
    if a == [] {
      assert a + b == b;
    } else {
      assert (a + b)[1..] == a[1..] + b;
      CapacityConcat(a[1..], b, disks);
    }
  }

  lemma CapacityWithout(b: seq<string>, i: nat, disks: DiskRefs)
    requires i < |b| && AllIn(b, disks)
    ensures AllIn(b[..i] + b[i + 1..], disks)
    ensures TotalCapacity(b, disks) == disks[b[i]].1 + TotalCapacity(b[..i] + b[i + 1..], disks)
  {
    var front, back := b[..i], b[i + 1..];
    assert b == front + ([b[i]] + back);
    assert ([b[i]] + back)[1..] == back;
    CapacityConcat(front, [b[i]] + back, disks);
    CapacityConcat(front, back, disks);
  }

  predicate NoRepeats(ids: seq<string>) { forall i, j | 0 <= i < j < |ids| :: ids[i] != ids[j] }

  /** The total over all ids does not depend on their order. */
  lemma {:induction false} CapacityOfSet(a: seq<string>, b: seq<string>, disks: DiskRefs)
    requires NoRepeats(a) && NoRepeats(b) && (forall x :: x in a <==> x in b)
    requires AllIn(a, disks)
    ensures AllIn(b, disks)
    ensures TotalCapacity(a, disks) == TotalCapacity(b, disks)
    decreases |a|
  {
    forall i | 0 <= i < |b| ensures b[i] in disks { assert b[i] in a; }
    var first := if b != [] then b[0] else "";
    assert b != [] ==> first in b;
    if a == [] {
      assert b == [];
    } else {
      assert a[0] in b;
      var i :| 0 <= i < |b| && b[i] == a[0];
      var front, back := b[..i], b[i + 1..];
      WithoutFirst(a, b, i);
      CapacityOfSet(a[1..], front + back, disks);
      CapacityWithout(b, i, disks);
    }
  }

  lemma WithoutOne(b: seq<string>, i: nat)
    requires NoRepeats(b) && i < |b|
    ensures NoRepeats(b[..i] + b[i + 1..])
    ensures forall x :: x in b[..i] + b[i + 1..] <==> x in b && x != b[i]
  {
    var c := b[..i] + b[i + 1..];
    assert forall j | 0 <= j < |c| :: c[j] == b[if j < i then j else j + 1];
    forall x | x in b && x != b[i] ensures x in c {
      var j :| 0 <= j < |b| && b[j] == x;
      assert c[if j < i then j else j - 1] == x;
    }
  }

  lemma WithoutFirst(a: seq<string>, b: seq<string>, i: nat)
    requires NoRepeats(a) && NoRepeats(b) && (forall x :: x in a <==> x in b) && a != [] && i < |b| && b[i] == a[0]
    ensures NoRepeats(a[1..]) && NoRepeats(b[..i] + b[i + 1..])
    ensures forall x :: x in a[1..] <==> x in b[..i] + b[i + 1..]
  {
    WithoutOne(a, 0);
    assert a[..0] + a[1..] == a[1..];
    WithoutOne(b, i);
    hide NoRepeats;
    forall x ensures x in a[1..] <==> x in b[..i] + b[i + 1..] {
      assert x in a[..0] + a[1..] <==> x in a && x != a[0];
    }
  }

  /** The ids of the Disk elements, and the sum of their capacities. */
  function IdsOf(es: seq<Element>, ns: string): seq<string> {
    if es == [] then []
    else
      var last := es[|es| - 1];
      IdsOf(es[..|es| - 1], ns) + if IsDisk(last, ns) then [DiskIdOf(last, ns)] else []
  }

  function CapacitySum(es: seq<Element>, ns: string): int {
    if es == [] then 0
    else
      var last := es[|es| - 1];
      CapacitySum(es[..|es| - 1], ns) + if IsDisk(last, ns) then Capacity(last, ns) else 0
  }

  lemma {:induction false} CapacityUnaffected(ids: seq<string>, a: DiskRefs, b: DiskRefs)
    requires AllIn(ids, a) && AllIn(ids, b) && forall i | 0 <= i < |ids| :: a[ids[i]] == b[ids[i]]
    ensures TotalCapacity(ids, a) == TotalCapacity(ids, b)
    decreases |ids|
  {
    if ids != [] { CapacityUnaffected(ids[1..], a, b); }
  }

  /** With distinct ids the table holds the capacities of all Disk elements. */
  lemma {:induction false} CapacityOfElements(es: seq<Element>, ns: string)
    requires NoRepeats(IdsOf(es, ns))
    ensures AllIn(IdsOf(es, ns), DiskRefsOf(es, ns)) && forall x | x in DiskRefsOf(es, ns) :: x in IdsOf(es, ns)
    ensures TotalCapacity(IdsOf(es, ns), DiskRefsOf(es, ns)) == CapacitySum(es, ns)
    decreases |es|
  {
    hide IsDisk, DiskIdOf, FileRef, Capacity;
    if es != [] {
      var n := |es| - 1;
      var last, ids, table := es[n], IdsOf(es[..n], ns), DiskRefsOf(es[..n], ns);
      if IsDisk(last, ns) {
        var id := DiskIdOf(last, ns);
        IdsSnoc(ids, id);
        CapacityOfElements(es[..n], ns);
        CapacitySnoc(ids, id, table, FileRef(last, ns), Capacity(last, ns));
      } else {
        assert ids + [] == ids;
        CapacityOfElements(es[..n], ns);
      }
    }
  }

  lemma IdsSnoc(ids: seq<string>, id: string)
    requires NoRepeats(ids + [id])
    ensures NoRepeats(ids) && forall i | 0 <= i < |ids| :: ids[i] != id
  {
    var all := ids + [id];
    forall i | 0 <= i < |ids| ensures ids[i] != id { assert all[i] != all[|ids|]; }
    forall i, j | 0 <= i < j < |ids| ensures ids[i] != ids[j] { assert all[i] != all[j]; }
  }

  lemma CapacitySnoc(ids: seq<string>, id: string, table: DiskRefs, ref: string, capacity: int)
    requires AllIn(ids, table) && (forall i | 0 <= i < |ids| :: ids[i] != id) && (forall x | x in table :: x in ids)
    ensures var t := table[id := (ref, capacity)];
      && AllIn(ids + [id], t) && (forall x | x in t :: x in ids + [id])
      && TotalCapacity(ids + [id], t) == TotalCapacity(ids, table) + capacity
  {
    var t := table[id := (ref, capacity)];
    assert AllIn(ids, t) && AllIn([id], t);
    CapacityUnaffected(ids, table, t);
    CapacityConcat(ids, [id], t);
    assert [id][1..] == [];
    assert TotalCapacity([id], t) == capacity + TotalCapacity([], t);
  }

  /** Total size is conserved: when the Disk elements have distinct ids and the
      drives use each of them once, in any order, the sizes of the resolved disks
      add up to the capacities that the elements state. */
  lemma SizeConserved(root: Element, ns: string, items: seq<DiskItem>, files: FileRefs, base: Path)
    requires var ids := IdsOf(Section(root, ns, "DiskSection"), ns);
      NoRepeats(ids) && NoRepeats(DiskIds(items)) && forall x :: x in DiskIds(items) <==> x in ids
    ensures var ds := Section(root, ns, "DiskSection");
      TotalSize(ResolvedAll(items, DiskRefsOf(ds, ns), files, base)) == CapacitySum(ds, ns)
  {
    hide Section, DiskRefsOf, IdsOf, CapacitySum, DiskId;
    var ds := Section(root, ns, "DiskSection");
    var disks, ids, used := DiskRefsOf(ds, ns), IdsOf(ds, ns), DiskIds(items);
    CapacityOfElements(ds, ns);
    forall i | 0 <= i < |items| ensures DiskId(items[i]) in disks { assert used[i] in ids; }
    SizesAreCapacities(items, 0, disks, files, base);
    assert used[0..] == used && ResolvedAll(items, disks, files, base)[0..] == ResolvedAll(items, disks, files, base);
    CapacityOfSet(used, ids, disks);
  }
}
