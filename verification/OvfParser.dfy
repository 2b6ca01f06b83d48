/** The OVF parser from a parsed envelope to the parts of a VM definition that
    the migration needs (vmfree/parsers/ovf.py, `_parse_ovf_root`). */
module OvfParser {
  import opened Text
  import opened PathNames
  import opened Model
  import opened OvfTree
  import opened OvfHardware
  import opened OvfDisks

  datatype OvfError = NotEnvelope | NoVirtualSystem | NoHardwareSection | BadNumber

  datatype OvfResult =
    | Machine(vcpus: int, memoryMb: int, scsiController: string, nics: seq<NICDefinition>, disks: seq<DiskDefinition>)
    | Refused(error: OvfError)

  /** The search for the system, in the namespace that the root tag selects. */
  method FindSystem(root: Element) returns (r: Option<Element>)
    ensures r.Some? <==> exists x :: Within(x, root) && LocalTag(x.tag) == "VirtualSystem"
    ensures r.Some? ==> IsSystem(r.value, root, DetectNamespace(root))
  {
    NamespacesHaveNoBrace();
    hide Within, LocalTag, IsSystem;
    r := FindVirtualSystem(root, DetectNamespace(root));
  }

  /** The machine that the items of a hardware section describe: each drive gives
      one disk, and all capacity of the envelope is in the disks when they use each
      Disk element once. */
  ghost predicate Describes(m: OvfResult, root: Element, items: seq<Element>, dir: string) {
    && m.Machine?
    && exists drives ::
         && ItemsSay(items, m.vcpus, m.memoryMb, m.scsiController, m.nics, drives)
         && DisksFor(m.disks, root, drives, dir)
         && (UsesEachDisk(root, drives) ==> TotalSize(m.disks) == EnvelopeCapacity(root))
  }

  /** One disk for each drive, in order, with the first of them to boot from. */
  ghost predicate DisksFor(disks: seq<DiskDefinition>, root: Element, drives: seq<DiskItem>, dir: string) {
    && |disks| == |drives|
    && forall i | 0 <= i < |disks| :: DiskFor(disks[i], root, DetectNamespace(root), drives[i], i == 0, dir)
  }

  /** Every Disk element of the envelope is used by one drive. */
  predicate UsesEachDisk(root: Element, drives: seq<DiskItem>) {
    var ids := IdsOf(Section(root, DetectNamespace(root), "DiskSection"), DetectNamespace(root));
    NoRepeats(ids) && NoRepeats(DiskIds(drives))
    && (forall x | x in ids :: x in DiskIds(drives)) && (forall x | x in DiskIds(drives) :: x in ids)
  }

  /** The capacities that the Disk elements of the envelope state, added up. */
  function EnvelopeCapacity(root: Element): int {
    CapacitySum(Section(root, DetectNamespace(root), "DiskSection"), DetectNamespace(root))
  }

  /** Which error there is, in the order of the checks; and without an error the
      machine of the hardware section of the system found. */
  method ParseOvfRoot(root: Element, dir: string) returns (r: OvfResult)
    ensures r == Refused(NotEnvelope) <==> LocalTag(root.tag) != "Envelope"
    ensures r == Refused(NoVirtualSystem) <==>
      LocalTag(root.tag) == "Envelope" && !(exists x :: Within(x, root) && LocalTag(x.tag) == "VirtualSystem")
    ensures r != Refused(NotEnvelope) && r != Refused(NoVirtualSystem) ==>
      exists vs :: IsSystem(vs, root, DetectNamespace(root)) && FromSystem(r, root, vs, dir)
  {
    hide LocalTag, IsSystem, Within, FromSystem;
    if LocalTag(root.tag) != "Envelope" {
      return Refused(NotEnvelope);
    }
    var ns := DetectNamespace(root);
    var fileRefs := ExtractFileReferences(root, ns);
    var diskRefs := ExtractDiskReferences(root, ns);
    var vs := FindSystem(root);
    if vs.None? {
      return Refused(NoVirtualSystem);
    }
    r := ParseSystem(root, vs.value, ns, fileRefs, diskRefs, dir);
  }

  /** The result for a system: by its hardware section, when it has one. */
  ghost predicate FromSystem(r: OvfResult, root: Element, vs: Element, dir: string) {
    match SectionOf(vs, DetectNamespace(root), "VirtualHardwareSection")
    case None => r == Refused(NoHardwareSection)
    case Some(hw) => if Numbered(hw.children) then Describes(r, root, hw.children, dir) else r == Refused(BadNumber)
  }

  method ParseSystem(root: Element, vs: Element, ns: string, fileRefs: FileRefs, diskRefs: DiskRefs, dir: string)
    returns (r: OvfResult)
    requires ns == DetectNamespace(root)
    requires fileRefs == FileRefsOf(Section(root, ns, "References"), ns)
    requires diskRefs == DiskRefsOf(Section(root, ns, "DiskSection"), ns)
    ensures FromSystem(r, root, vs, dir)
    ensures r != Refused(NotEnvelope) && r != Refused(NoVirtualSystem)
  {
    hide Numbered, FileRefsOf, DiskRefsOf, Section, ItemsSay, DisksFor;
    hide DetectNamespace, UsesEachDisk, TotalSize, CapacitySum, ResolvedAll, CollectAll;
    var hw := SectionOf(vs, ns, "VirtualHardwareSection");
    if hw.None? {
      return Refused(NoHardwareSection);
    }
    var items := hw.value.children;
    var ok, vcpus, memoryMb, scsiController, controllers, nics, drives := ParseItems(items);
    if !ok {
      return Refused(BadNumber);
    }
    var disks := ResolveDisks(drives, diskRefs, fileRefs, Parse(dir), controllers);
    r := Machine(vcpus, memoryMb, scsiController, nics, disks);
    DisksDescribed(root, drives, dir);
  }

  function DisksOf(root: Element, drives: seq<DiskItem>, dir: string): (r: seq<DiskDefinition>)
    ensures |r| == |drives|
  {
    var ns := DetectNamespace(root);
    ResolvedAll(drives, DiskRefsOf(Section(root, ns, "DiskSection"), ns),
                FileRefsOf(Section(root, ns, "References"), ns), Parse(dir))
  }

  /** The resolved disks are the ones the envelope describes, and their sizes add
      up to the capacities of the envelope when they use each Disk element once. */
  lemma DisksDescribed(root: Element, drives: seq<DiskItem>, dir: string)
    ensures var disks := DisksOf(root, drives, dir);
      && DisksFor(disks, root, drives, dir)
      && (UsesEachDisk(root, drives) ==> TotalSize(disks) == EnvelopeCapacity(root))
  {
    hide DetectNamespace, Section, DiskFor, FileRefsOf, DiskRefsOf, Resolved;
    hide IdsOf, TotalSize, CapacitySum, Parse;
    var ns, disks := DetectNamespace(root), DisksOf(root, drives, dir);
    forall i | 0 <= i < |disks| ensures DiskFor(disks[i], root, ns, drives[i], i == 0, dir) {
      DriveDescribed(root, ns, drives[i], i == 0, dir);
    }
    if UsesEachDisk(root, drives) {
      SizeConserved(root, ns, drives, FileRefsOf(Section(root, ns, "References"), ns), Parse(dir));
    }
  }
}
