/** Hardware items and disk references of an OVF envelope (vmfree/parsers/ovf.py). */
module OvfHardware {
  import opened Substitution
  import opened Text
  import opened Model
  import opened OvfTree
  import opened OvfUnits

  const NS_RASD := "http://schemas.dmtf.org/wbem/wscim/1/cim-schema/2/CIM_ResourceAllocationSettingData"
  const NS_VMW := "http://www.vmware.com/schema/ovf"

  function FirstLocal(children: seq<Element>, field: string): string {
    if children == [] then ""
    else if LocalTag(children[0].tag) == field && children[0].text != "" then Strip(children[0].text)
    else FirstLocal(children[1..], field)
  }

  /** A RASD field of an item; "" when it is absent or empty. */
  function Rasd(item: Element, field: string): string {
    match Find(item.children, Qualified(NS_RASD, field))
    case Some(e) => if e.text != "" then Strip(e.text) else FirstLocal(item.children, field)
    case None => FirstLocal(item.children, field)
  }

  /** The first child with a local name and a text. */
  predicate FirstText(x: Element, children: seq<Element>, field: string) {
    exists i | 0 <= i < |children| ::
      && children[i] == x && LocalTag(x.tag) == field && x.text != ""
      && forall j | 0 <= j < i :: LocalTag(children[j].tag) != field || children[j].text == ""
  }

  predicate NoText(children: seq<Element>, field: string) {
    forall i | 0 <= i < |children| :: LocalTag(children[i].tag) != field || children[i].text == ""
  }

  lemma {:induction false} FirstLocalIs(children: seq<Element>, field: string)
    ensures NoText(children, field) ==> FirstLocal(children, field) == ""
    ensures forall x | FirstText(x, children, field) :: FirstLocal(children, field) == Strip(x.text)
    decreases |children|
  {
    hide LocalTag, Strip;
    if children != [] {
      var rest := children[1..];
      FirstLocalIs(rest, field);
      assert forall i | 0 <= i < |rest| :: rest[i] == children[i + 1];
      if !(LocalTag(children[0].tag) == field && children[0].text != "") {
        forall x | FirstText(x, children, field) ensures FirstText(x, rest, field) {
          var i :| 0 < i < |children| && children[i] == x && LocalTag(x.tag) == field && x.text != ""
            && forall j | 0 <= j < i :: LocalTag(children[j].tag) != field || children[j].text == "";
          assert rest[i - 1] == x;
        }
      }
    }
  }

  /** What a field of an item reads as: the stripped text of the first child with the
      RASD tag, when there is one with a text; else that of the first child with the
      local name and a text; else nothing. */
  lemma RasdMeaning(item: Element, field: string)
    ensures var tag := "{" + NS_RASD + "}" + field;
      && (forall x | FirstChild(x, item.children, tag) && x.text != "" :: Rasd(item, field) == Strip(x.text))
      && (NoChild(item.children, tag) || (exists x :: FirstChild(x, item.children, tag) && x.text == "") ==>
            && (NoText(item.children, field) ==> Rasd(item, field) == "")
            && forall y | FirstText(y, item.children, field) :: Rasd(item, field) == Strip(y.text))
  {
    hide LocalTag, Strip, FirstLocal, FirstText, NoText, NoChild, Find, FirstChild;
    var tag := "{" + NS_RASD + "}" + field;
    assert Qualified(NS_RASD, field) == tag;
    FirstLocalIs(item.children, field);
    FindIff(item.children, tag);
    forall x, y | FirstChild(x, item.children, tag) && FirstChild(y, item.children, tag) ensures x == y {
      OneFirst(x, y, item.children, tag);
    }
    forall x | FirstChild(x, item.children, tag) ensures !NoChild(item.children, tag) {
      NoneFirst(x, item.children, tag);
    }
  }

  function Attr(e: Element, name: string, default: string): string {
    if name in e.attrs then e.attrs[name] else default
  }

  // ---------------------------------------------------------------------
  // Items
  // ---------------------------------------------------------------------

  datatype DiskItem = DiskItem(hostResource: string, parent: string, address: int)

  /** The variables the item loop updates. */
  datatype Collected = Collected(vcpus: int, memoryMb: int, scsiController: string, controllers: map<string, string>,
                                 nics: seq<NICDefinition>, disks: seq<DiskItem>)

  const NOTHING := Collected(1, 1024, "", map[], [], [])

  /** What an item is to the loop. */
  datatype Kind = CpuItem | MemoryItem | ScsiItem | NicItem | DriveItem | Ignored

  function KindOf(item: Element): Kind {
    var tag := LocalTag(item.tag);
    if tag == "EthernetPortItem" then NicItem
    else if tag != "Item" then Ignored
    else
      var t := Rasd(item, "ResourceType");
      if t == "3" then (if Rasd(item, "VirtualQuantity") != "" then CpuItem else Ignored)
      else if t == "4" then (if Rasd(item, "VirtualQuantity") != "" then MemoryItem else Ignored)
      else if t == "6" then (if Rasd(item, "InstanceID") != "" then ScsiItem else Ignored)
      else if t == "10" then NicItem
      else if t == "17" && Rasd(item, "HostResource") != "" then DriveItem
      else Ignored
  }

  predicate IsMacConfig(e: Element) {
    e.tag == Qualified(NS_VMW, "Config") && Occurs("mac", Lower(Attr(e, Qualified(NS_VMW, "key"), "")))
  }

  function LastMac(children: seq<Element>, found: string): string {
    if children == [] then found
    else
      LastMac(children[1..],
              if IsMacConfig(children[0]) then Attr(children[0], Qualified(NS_VMW, "value"), "") else found)
  }

  function NicDevice(subType: string): string {
    var s := if subType == "" then "e1000" else Lower(subType);
    if s == "vmxnet 3" then "vmxnet3" else if s == "pcnet32" then "vlance" else s
  }

  function NicOf(item: Element): NICDefinition {
    var mac := LastMac(item.children, "");
    NIC(NicDevice(Rasd(item, "ResourceSubType")), if mac != "" then mac else Rasd(item, "Address"),
        "bridged", Rasd(item, "Connection"))
  }

  method ParseNicItem(item: Element) returns (nic: NICDefinition)
    ensures nic == NicOf(item)
  {
    hide IsMacConfig, Rasd, Attr, Lower;
    var mac := "";
    var i := 0;
    while i < |item.children|
      invariant 0 <= i <= |item.children| && LastMac(item.children[i..], mac) == LastMac(item.children, "")
    {
      assert item.children[i..][1..] == item.children[i + 1..];
      if IsMacConfig(item.children[i]) {
        mac := Attr(item.children[i], Qualified(NS_VMW, "value"), "");
      }
      i := i + 1;
    }
    var address := Rasd(item, "Address");
    if address != "" && mac == "" {
      mac := address;
    }
    return NIC(NicDevice(Rasd(item, "ResourceSubType")), mac, "bridged", Rasd(item, "Connection"));
  }

  /** The value of the last MAC setting wins; without one nothing changes. */
  lemma {:induction false} LastMacMeaning(children: seq<Element>, found: string)
    ensures (forall i | 0 <= i < |children| :: !IsMacConfig(children[i])) ==> LastMac(children, found) == found
    ensures forall i | 0 <= i < |children| && IsMacConfig(children[i])
        && (forall j | i < j < |children| :: !IsMacConfig(children[j])) ::
      LastMac(children, found) == Attr(children[i], Qualified(NS_VMW, "value"), "")
    decreases |children|
  {
    hide IsMacConfig, Attr, Qualified;
    if children != [] {
      var rest := children[1..];
      assert forall i | 1 <= i < |children| :: children[i] == rest[i - 1];
      assert forall i | 0 <= i < |rest| :: rest[i] == children[i + 1];
      LastMacMeaning(rest,
                     if IsMacConfig(children[0]) then Attr(children[0], Qualified(NS_VMW, "value"), "") else found);
    }
  }

  function SubType(item: Element): string { Lower(Rasd(item, "ResourceSubType")) }

  function AddressOf(item: Element): string {
    var a := Rasd(item, "AddressOnParent");
    if a == "" then "0" else a
  }

  /** The number an item must supply: `None` where `int` raises. */
  function NumberOf(item: Element): Option<int> {
    match KindOf(item)
    case CpuItem => ParseInt(Rasd(item, "VirtualQuantity"))
    case MemoryItem => ParseInt(Rasd(item, "VirtualQuantity"))
    case DriveItem => ParseInt(AddressOf(item))
    case _ => Some(0)
  }

  function Quantity(item: Element): int { match NumberOf(item) case Some(n) => n case None => 0 }

  function DriveOf(item: Element): DiskItem {
    DiskItem(Rasd(item, "HostResource"), Rasd(item, "Parent"), Quantity(item))
  }

  function MemoryOf(item: Element): int { ParseMemory(Quantity(item), Rasd(item, "AllocationUnits")) }

  /** One turn of the loop. */
  function Collect(c: Collected, item: Element): Option<Collected> {
    if NumberOf(item).None? then None
    else match KindOf(item)
      case CpuItem => Some(c.(vcpus := Quantity(item)))
      case MemoryItem => Some(c.(memoryMb := MemoryOf(item)))
      case ScsiItem =>
        Some(c.(controllers := c.controllers[Rasd(item, "InstanceID") := SubType(item)],
                scsiController := if c.scsiController == "" then SubType(item) else c.scsiController))
      case NicItem => Some(c.(nics := c.nics + [NicOf(item)]))
      case DriveItem => Some(c.(disks := c.disks + [DriveOf(item)]))
      case Ignored => Some(c)
  }

  function CollectAll(c: Collected, items: seq<Element>): Option<Collected>
    decreases |items|
  {
    if items == [] then Some(c)
    else match Collect(c, items[0])
      case None => None
      case Some(next) => CollectAll(next, items[1..])
  }

  // ---------------------------------------------------------------------
  // What the items say
  // ---------------------------------------------------------------------

  /** An item with the given CIM resource type. */
  predicate IsResource(e: Element, resourceType: string) {
    LocalTag(e.tag) == "Item" && Rasd(e, "ResourceType") == resourceType
  }

  predicate StatesCpu(e: Element) { IsResource(e, "3") && Rasd(e, "VirtualQuantity") != "" }

  predicate StatesMemory(e: Element) { IsResource(e, "4") && Rasd(e, "VirtualQuantity") != "" }

  predicate StatesScsi(e: Element) {
    IsResource(e, "6") && Rasd(e, "InstanceID") != "" && Rasd(e, "ResourceSubType") != ""
  }

  predicate IsCard(e: Element) { LocalTag(e.tag) == "EthernetPortItem" || IsResource(e, "10") }

  predicate IsDrive(e: Element) { IsResource(e, "17") && Rasd(e, "HostResource") != "" }

  /** Every number that an item must state is one. */
  ghost predicate Numbered(items: seq<Element>) {
    forall i | 0 <= i < |items| ::
      && (StatesCpu(items[i]) || StatesMemory(items[i]) ==> ParseInt(Rasd(items[i], "VirtualQuantity")).Some?)
      && (IsDrive(items[i]) && Rasd(items[i], "AddressOnParent") != "" ==>
            ParseInt(Rasd(items[i], "AddressOnParent")).Some?)
  }

  /** The last CPU item with a quantity gives the number of CPUs; without one it is 1. */
  ghost predicate SaysCpus(items: seq<Element>, vcpus: int) {
    && (forall i | 0 <= i < |items| && StatesCpu(items[i])
            && (forall j | i < j < |items| :: !StatesCpu(items[j])) ::
          ParseInt(Rasd(items[i], "VirtualQuantity")) == Some(vcpus))
    && ((forall i | 0 <= i < |items| :: !StatesCpu(items[i])) ==> vcpus == 1)
  }

  /** The last memory item with a quantity gives the size, in its unit; without one it
      is 1024. */
  ghost predicate SaysMemory(items: seq<Element>, memoryMb: int) {
    && (forall i | 0 <= i < |items| && StatesMemory(items[i])
            && (forall j | i < j < |items| :: !StatesMemory(items[j])) ::
          exists n :: ParseInt(Rasd(items[i], "VirtualQuantity")) == Some(n)
                      && memoryMb == ParseMemory(n, Rasd(items[i], "AllocationUnits")))
    && ((forall i | 0 <= i < |items| :: !StatesMemory(items[i])) ==> memoryMb == 1024)
  }

  /** The first SCSI controller with a subtype gives it; without one it is empty. */
  ghost predicate SaysScsi(items: seq<Element>, controller: string) {
    && (forall i | 0 <= i < |items| && StatesScsi(items[i])
            && (forall j | 0 <= j < i :: !StatesScsi(items[j])) ::
          controller == Lower(Rasd(items[i], "ResourceSubType")))
    && ((forall i | 0 <= i < |items| :: !StatesScsi(items[i])) ==> controller == "")
  }

  /** Positions in strict order. */
  predicate InOrder(at: seq<nat>, n: nat) {
    (forall i | 0 <= i < |at| :: at[i] < n) && forall i, j | 0 <= i < j < |at| :: at[i] < at[j]
  }

  /** A setting of the MAC address among the children of a card. */
  predicate SetsMac(e: Element) {
    && e.tag == "{http://www.vmware.com/schema/ovf}Config"
    && Occurs("mac", Lower(Attr(e, "{http://www.vmware.com/schema/ovf}key", "")))
  }

  /** The address of a card: that of the last setting, unless it is empty; else the
      address that the item states. */
  ghost predicate IsMacOf(mac: string, children: seq<Element>, address: string) {
    && (forall i | 0 <= i < |children| && SetsMac(children[i])
            && (forall j | i < j < |children| :: !SetsMac(children[j])) ::
          var value := Attr(children[i], "{http://www.vmware.com/schema/ovf}value", "");
          mac == if value != "" then value else address)
    && ((forall i | 0 <= i < |children| :: !SetsMac(children[i])) ==> mac == address)
  }

  /** A network card as its item describes it. */
  ghost predicate IsCardOf(nic: NICDefinition, e: Element) {
    var subType := Lower(Rasd(e, "ResourceSubType"));
    && nic.connectionType == "bridged" && nic.networkName == Rasd(e, "Connection")
    && IsMacOf(nic.macAddress, e.children, Rasd(e, "Address"))
    && (subType == "" ==> nic.virtualDev == "e1000")
    && (subType == "vmxnet 3" ==> nic.virtualDev == "vmxnet3")
    && (subType == "pcnet32" ==> nic.virtualDev == "vlance")
    && (subType !in ["", "vmxnet 3", "pcnet32"] ==> nic.virtualDev == subType)
  }

  ghost predicate IsDriveOf(d: DiskItem, e: Element) {
    && d.hostResource == Rasd(e, "HostResource") && d.parent == Rasd(e, "Parent")
    && (if Rasd(e, "AddressOnParent") == "" then d.address == 0
        else ParseInt(Rasd(e, "AddressOnParent")) == Some(d.address))
  }

  /** One card for each item that is one, in document order. */
  ghost predicate SaysCards(items: seq<Element>, nics: seq<NICDefinition>) {
    exists at: seq<nat> :: |at| == |nics| && InOrder(at, |items|)
      && (forall i | 0 <= i < |items| :: i in at <==> IsCard(items[i]))
      && (forall i | 0 <= i < |at| :: IsCardOf(nics[i], items[at[i]]))
  }

  /** One drive for each item that is one, in document order. */
  ghost predicate SaysDrives(items: seq<Element>, drives: seq<DiskItem>) {
    exists at: seq<nat> :: |at| == |drives| && InOrder(at, |items|)
      && (forall i | 0 <= i < |items| :: i in at <==> IsDrive(items[i]))
      && (forall i | 0 <= i < |at| :: IsDriveOf(drives[i], items[at[i]]))
  }

  /** The machine that the items of a hardware section state. */
  ghost predicate ItemsSay(items: seq<Element>, vcpus: int, memoryMb: int, scsiController: string,
                           nics: seq<NICDefinition>, drives: seq<DiskItem>)
  {
    && SaysCpus(items, vcpus) && SaysMemory(items, memoryMb) && SaysScsi(items, scsiController)
    && SaysCards(items, nics) && SaysDrives(items, drives)
  }

  /** The item loop of `_parse_ovf_root`; false where the source raises. */
  method ParseItems(items: seq<Element>) returns (ok: bool, vcpus: int, memoryMb: int, scsiController: string,
                                                  controllers: map<string, string>, nics: seq<NICDefinition>,
                                                  disks: seq<DiskItem>)
    ensures ok <==> Numbered(items)
    ensures ok ==> ItemsSay(items, vcpus, memoryMb, scsiController, nics, disks)
    ensures ok <==> CollectAll(NOTHING, items).Some?
    ensures ok ==>
      CollectAll(NOTHING, items) == Some(Collected(vcpus, memoryMb, scsiController, controllers, nics, disks))
  {
    hide Rasd, NicOf, LocalTag, ParseInt, ParseMemory, Lower, ItemsSay, Numbered;
    LoopIsRight(items);
    vcpus, memoryMb, scsiController, controllers, nics, disks := 1, 1024, "", map[], [], [];
    var i := 0;
    while i < |items|
      invariant 0 <= i <= |items|
      invariant CollectAll(Collected(vcpus, memoryMb, scsiController, controllers, nics, disks), items[i..])
             == CollectAll(NOTHING, items)
    {
      assert items[i..][1..] == items[i + 1..];
      var item := items[i];
      var tag := LocalTag(item.tag);
      i := i + 1;
      if tag == "EthernetPortItem" {
        var nic := ParseNicItem(item);
        nics := nics + [nic];
        continue;
      }
      if tag != "Item" {
        continue;
      }
      var t := Rasd(item, "ResourceType");
      if t == "3" {
        var quantity := Rasd(item, "VirtualQuantity");
        if quantity != "" {
          match ParseInt(quantity) {
            case None => ok := false; return;
            case Some(n) => vcpus := n;
          }
        }
      } else if t == "4" {
        var quantity := Rasd(item, "VirtualQuantity");
        if quantity != "" {
          match ParseInt(quantity) {
            case None => ok := false; return;
            case Some(n) => memoryMb := ParseMemory(n, Rasd(item, "AllocationUnits"));
          }
        }
      } else if t == "6" {
        var instance, subType := Rasd(item, "InstanceID"), Lower(Rasd(item, "ResourceSubType"));
        if instance != "" {
          controllers := controllers[instance := subType];
          if scsiController == "" {
            scsiController := subType;
          }
        }
      } else if t == "10" {
        var nic := ParseNicItem(item);
        nics := nics + [nic];
      } else if t == "17" {
        var host, parent, address := Rasd(item, "HostResource"), Rasd(item, "Parent"), AddressOf(item);
        if host != "" {
          match ParseInt(address) {
            case None => ok := false; return;
            case Some(n) => disks := disks + [DiskItem(host, parent, n)];
          }
        }
      }
    }
    ok := true;
  }

  // ---------------------------------------------------------------------
  // What the loop means
  // ---------------------------------------------------------------------

  predicate Numeric(items: seq<Element>) { forall i | 0 <= i < |items| :: NumberOf(items[i]).Some? }

  /** The items of one kind, in document order. */
  function OfKind(items: seq<Element>, kind: Kind): (r: seq<Element>)
    ensures forall i | 0 <= i < |r| :: r[i] in items && KindOf(r[i]) == kind
  {
    if items == [] then []
    else (if KindOf(items[0]) == kind then [items[0]] else []) + OfKind(items[1..], kind)
  }

  function NicsOf(items: seq<Element>): seq<NICDefinition> {
    var r := OfKind(items, NicItem);
    seq(|r|, i requires 0 <= i < |r| => NicOf(r[i]))
  }

  function DrivesOf(items: seq<Element>): seq<DiskItem> {
    var r := OfKind(items, DriveItem);
    seq(|r|, i requires 0 <= i < |r| => DriveOf(r[i]))
  }

  /** The first non-empty subtype of the SCSI controllers, else "". */
  function FirstSubType(items: seq<Element>): string {
    if items == [] then ""
    else if KindOf(items[0]) == ScsiItem && SubType(items[0]) != "" then SubType(items[0])
    else FirstSubType(items[1..])
  }

  function LastCpu(items: seq<Element>, default: int): int {
    var r := OfKind(items, CpuItem);
    if r == [] then default else Quantity(r[|r| - 1])
  }

  function LastMemory(items: seq<Element>, default: int): int {
    var r := OfKind(items, MemoryItem);
    if r == [] then default else MemoryOf(r[|r| - 1])
  }

  lemma CollectShape(c: Collected, item: Element)
    ensures Collect(c, item).Some? <==> NumberOf(item).Some?
    ensures Collect(c, item).Some? ==>
      var n := Collect(c, item).value;
      && n.vcpus == (if KindOf(item) == CpuItem then Quantity(item) else c.vcpus)
      && n.memoryMb == (if KindOf(item) == MemoryItem then MemoryOf(item) else c.memoryMb)
      && n.nics == (if KindOf(item) == NicItem then c.nics + [NicOf(item)] else c.nics)
      && n.disks == (if KindOf(item) == DriveItem then c.disks + [DriveOf(item)] else c.disks)
      && n.scsiController
         == (if c.scsiController == "" && KindOf(item) == ScsiItem then SubType(item) else c.scsiController)
  {
    hide KindOf, NumberOf, MemoryOf, DriveOf, NicOf, SubType;
  }

  /** The declarative reading: the last CPU and memory items with a quantity win,
      the first non-empty SCSI subtype wins, and network cards and disk drives
      keep document order. */
  predicate ReadsScalars(c: Collected, items: seq<Element>, r: Collected) {
    && r.vcpus == LastCpu(items, c.vcpus) && r.memoryMb == LastMemory(items, c.memoryMb)
    && r.scsiController == (if c.scsiController != "" then c.scsiController else FirstSubType(items))
  }

  predicate ReadsLists(c: Collected, items: seq<Element>, r: Collected) {
    r.nics == c.nics + NicsOf(items) && r.disks == c.disks + DrivesOf(items)
  }

  lemma ScalarsStep(c: Collected, items: seq<Element>, r: Collected)
    requires items != []
    ensures Collect(c, items[0]).Some? ==>
      ReadsScalars(Collect(c, items[0]).value, items[1..], r) ==> ReadsScalars(c, items, r)
  {
    hide Collect, KindOf, NumberOf, MemoryOf, SubType, LastCpu, LastMemory, OfKind, DriveOf, NicOf;
    CollectShape(c, items[0]);
    KindsSplit(items, c.vcpus, c.memoryMb);
  }

  lemma ListsStep(c: Collected, items: seq<Element>, r: Collected)
    requires items != []
    ensures Collect(c, items[0]).Some? ==>
      ReadsLists(Collect(c, items[0]).value, items[1..], r) ==> ReadsLists(c, items, r)
  {
    hide Collect, KindOf, NumberOf, MemoryOf, SubType, OfKind, DriveOf, NicOf, NicsOf, DrivesOf;
    CollectShape(c, items[0]);
    NicsSplit(items);
    DrivesSplit(items);
  }

  /** The loop refines the declarative reading, and it succeeds exactly when
      every item supplies the number it must. */
  lemma {:induction false} CollectMeaning(c: Collected, items: seq<Element>)
    ensures CollectAll(c, items).Some? <==> Numeric(items)
    ensures Numeric(items) ==>
      ReadsScalars(c, items, CollectAll(c, items).value) && ReadsLists(c, items, CollectAll(c, items).value)
    decreases |items|
  {
    hide Collect, NumberOf, ReadsScalars, ReadsLists, Numeric;
    if items == [] {
      EmptyMeaning(c);
    } else {
      NumericSplit(items);
      CollectShape(c, items[0]);
      if NumberOf(items[0]).Some? {
        var next := Collect(c, items[0]).value;
        CollectMeaning(next, items[1..]);
        if Numeric(items[1..]) {
          ScalarsStep(c, items, CollectAll(c, items).value);
          ListsStep(c, items, CollectAll(c, items).value);
        }
      }
    }
  }

  lemma EmptyMeaning(c: Collected)
    ensures Numeric([]) && ReadsScalars(c, [], c) && ReadsLists(c, [], c)
  {
  }

  lemma NumericSplit(items: seq<Element>)
    requires items != []
    ensures Numeric(items) <==> NumberOf(items[0]).Some? && Numeric(items[1..])
  {
    hide NumberOf;
    forall i | 0 <= i < |items| ensures items[i] == if i == 0 then items[0] else items[1..][i - 1] { }
  }

  lemma KindsSplit(items: seq<Element>, cpu: int, mem: int)
    requires items != []
    ensures LastCpu(items, cpu)
         == LastCpu(items[1..], if KindOf(items[0]) == CpuItem then Quantity(items[0]) else cpu)
    ensures LastMemory(items, mem)
         == LastMemory(items[1..], if KindOf(items[0]) == MemoryItem then MemoryOf(items[0]) else mem)
  {
    hide KindOf, NumberOf, MemoryOf;
    var cpus, mems := OfKind(items[1..], CpuItem), OfKind(items[1..], MemoryItem);
    assert OfKind(items, CpuItem) == (if KindOf(items[0]) == CpuItem then [items[0]] else []) + cpus;
    assert OfKind(items, MemoryItem) == (if KindOf(items[0]) == MemoryItem then [items[0]] else []) + mems;
  }

  lemma NicsSplit(items: seq<Element>)
    requires items != []
    ensures NicsOf(items) == (if KindOf(items[0]) == NicItem then [NicOf(items[0])] else []) + NicsOf(items[1..])
  {
    hide KindOf, NicOf;
    assert OfKind(items, NicItem)
        == (if KindOf(items[0]) == NicItem then [items[0]] else []) + OfKind(items[1..], NicItem);
  }

  lemma DrivesSplit(items: seq<Element>)
    requires items != []
    ensures DrivesOf(items)
         == (if KindOf(items[0]) == DriveItem then [DriveOf(items[0])] else []) + DrivesOf(items[1..])
  {
    hide KindOf, DriveOf, NumberOf;
    assert OfKind(items, DriveItem)
        == (if KindOf(items[0]) == DriveItem then [items[0]] else []) + OfKind(items[1..], DriveItem);
  }

  // ---------------------------------------------------------------------
  // The loop gives what the items say
  // ---------------------------------------------------------------------

  lemma KindIff(e: Element)
    ensures KindOf(e) == CpuItem <==> StatesCpu(e)
    ensures KindOf(e) == MemoryItem <==> StatesMemory(e)
    ensures KindOf(e) == ScsiItem <==> IsResource(e, "6") && Rasd(e, "InstanceID") != ""
    ensures KindOf(e) == NicItem <==> IsCard(e)
    ensures KindOf(e) == DriveItem <==> IsDrive(e)
  {
    hide Rasd, LocalTag;
    assert |"3"| == |"4"| == |"6"| == 1 && |"10"| == |"17"| == 2 && "3"[0] != "4"[0] && "10"[1] != "17"[1];
    assert "3"[0] != "6"[0] && "4"[0] != "6"[0] && |"EthernetPortItem"| == 16 && |"Item"| == 4;
  }

  lemma {:induction false} OfKindSnoc(items: seq<Element>, last: Element, kind: Kind)
    ensures OfKind(items + [last], kind) == OfKind(items, kind) + if KindOf(last) == kind then [last] else []
    decreases |items|
  {
    hide KindOf;
    if items == [] {
      assert [last][1..] == [] && [] + [last] == [last];
    } else {
      assert (items + [last])[1..] == items[1..] + [last];
      OfKindSnoc(items[1..], last, kind);
    }
  }

  /** The picked items of a kind stand at the given positions. */
  ghost predicate StandAt(items: seq<Element>, kind: Kind, r: seq<Element>, at: seq<nat>) {
    && |at| == |r| && InOrder(at, |items|)
    && (forall i | 0 <= i < |at| :: items[at[i]] == r[i])
    && (forall i: nat | i < |items| :: i in at <==> KindOf(items[i]) == kind)
  }

  lemma StandMore(items: seq<Element>, kind: Kind, r: seq<Element>, at: seq<nat>)
    requires items != [] && StandAt(items[..|items| - 1], kind, r, at)
    ensures var n := |items| - 1;
      if KindOf(items[n]) == kind then StandAt(items, kind, r + [items[n]], at + [n]) else StandAt(items, kind, r, at)
  {
    hide KindOf;
    var n := |items| - 1;
    var front, at' := items[..n], at + [n];
    assert at'[|at|] == n;
    forall i: nat | i < n ensures i in at <==> KindOf(items[i]) == kind { assert front[i] == items[i]; }
  }

  lemma {:induction false} KindAt(items: seq<Element>, kind: Kind) returns (at: seq<nat>)
    ensures StandAt(items, kind, OfKind(items, kind), at)
    decreases |items|
  {
    hide KindOf, StandAt;
    at := [];
    if items == [] {
      assert StandAt([], kind, [], []) by { NoneStand(kind); }
    } else {
      var n := |items| - 1;
      at := KindAt(items[..n], kind);
      StandMore(items, kind, OfKind(items[..n], kind), at);
      OfKindSnoc(items[..n], items[n], kind);
      assert items == items[..n] + [items[n]];
      var r := OfKind(items[..n], kind);
      hide OfKind;
      assert r + [] == r;
      if KindOf(items[n]) == kind { at := at + [n]; }
    }
  }

  lemma NoneStand(kind: Kind)
    ensures StandAt([], kind, [], [])
  {
  }

  lemma NumbersIff(items: seq<Element>)
    ensures Numbered(items) <==> Numeric(items)
  {
    hide Rasd, LocalTag, KindOf, ParseInt, IsCard, IsResource;
    assert ParseInt("0") == Some(0) by { ZeroIsNumber(); }
    forall i | 0 <= i < |items|
      ensures NumberOf(items[i]).Some? <==>
        && (StatesCpu(items[i]) || StatesMemory(items[i]) ==> ParseInt(Rasd(items[i], "VirtualQuantity")).Some?)
        && (IsDrive(items[i]) && Rasd(items[i], "AddressOnParent") != "" ==>
              ParseInt(Rasd(items[i], "AddressOnParent")).Some?)
    {
      KindIff(items[i]);
      hide StatesCpu, StatesMemory, IsDrive;
    }
    hide NumberOf, StatesCpu, StatesMemory, IsDrive;
  }

  lemma ZeroIsNumber()
    ensures ParseInt("0") == Some(0)
  {
    assert Dec(0) == "0" == Str(0);
    ParseIntOfStr(0);
  }

  lemma CpusRight(items: seq<Element>)
    requires Numbered(items)
    ensures SaysCpus(items, LastCpu(items, 1))
  {
    hide KindOf, StatesCpu, StatesMemory, IsDrive, OfKind, ParseInt;
    forall i | 0 <= i < |items| ensures KindOf(items[i]) == CpuItem <==> StatesCpu(items[i]) { KindIff(items[i]); }
    forall i | 0 <= i < |items| && StatesCpu(items[i]) && (forall j | i < j < |items| :: !StatesCpu(items[j]))
      ensures ParseInt(Rasd(items[i], "VirtualQuantity")) == Some(LastCpu(items, 1))
    {
      LastPicked(items, CpuItem, i);
    }
    if forall i | 0 <= i < |items| :: !StatesCpu(items[i]) { NonePicked(items, CpuItem); }
  }

  /** The last item of a kind is the last one picked. */
  lemma LastStands(items: seq<Element>, kind: Kind, r: seq<Element>, at: seq<nat>, i: nat)
    requires StandAt(items, kind, r, at) && i < |items| && KindOf(items[i]) == kind
    requires forall j | i < j < |items| :: KindOf(items[j]) != kind
    ensures r != [] && r[|r| - 1] == items[i]
  {
    hide KindOf;
    assert i in at;
    var k :| 0 <= k < |at| && at[k] == i;
    var last := |at| - 1;
    assert at[last] in at;
  }

  lemma SomeStands(items: seq<Element>, kind: Kind, r: seq<Element>, at: seq<nat>) returns (i: nat)
    requires StandAt(items, kind, r, at) && r != []
    ensures i < |items| && KindOf(items[i]) == kind
  {
    hide KindOf;
    i := at[0];
    assert i in at;
  }

  lemma LastPicked(items: seq<Element>, kind: Kind, i: nat)
    requires i < |items| && KindOf(items[i]) == kind && forall j | i < j < |items| :: KindOf(items[j]) != kind
    ensures OfKind(items, kind) != [] && OfKind(items, kind)[|OfKind(items, kind)| - 1] == items[i]
  {
    hide KindOf, OfKind, StandAt;
    var at := KindAt(items, kind);
    LastStands(items, kind, OfKind(items, kind), at, i);
  }

  lemma NonePicked(items: seq<Element>, kind: Kind)
    requires forall i | 0 <= i < |items| :: KindOf(items[i]) != kind
    ensures OfKind(items, kind) == []
  {
    hide KindOf, OfKind, StandAt;
    var at := KindAt(items, kind);
    if OfKind(items, kind) != [] { var i := SomeStands(items, kind, OfKind(items, kind), at); }
  }

  lemma MemoryStated(e: Element)
    requires StatesMemory(e) && ParseInt(Rasd(e, "VirtualQuantity")).Some?
    ensures exists n :: ParseInt(Rasd(e, "VirtualQuantity")) == Some(n)
                        && MemoryOf(e) == ParseMemory(n, Rasd(e, "AllocationUnits"))
  {
    KindIff(e);
    hide KindOf, StatesMemory, ParseInt, ParseMemory, Rasd;
    assert ParseInt(Rasd(e, "VirtualQuantity")) == Some(Quantity(e));
  }

  lemma MemoryRight(items: seq<Element>)
    requires Numbered(items)
    ensures SaysMemory(items, LastMemory(items, 1024))
  {
    hide KindOf, StatesCpu, StatesMemory, IsDrive, OfKind, ParseInt, ParseMemory, MemoryOf, Rasd, NumberOf;
    forall i | 0 <= i < |items| ensures KindOf(items[i]) == MemoryItem <==> StatesMemory(items[i]) {
      KindIff(items[i]);
    }
    forall i | 0 <= i < |items| && StatesMemory(items[i]) && (forall j | i < j < |items| :: !StatesMemory(items[j]))
      ensures exists n :: ParseInt(Rasd(items[i], "VirtualQuantity")) == Some(n)
                          && LastMemory(items, 1024) == ParseMemory(n, Rasd(items[i], "AllocationUnits"))
    {
      LastPicked(items, MemoryItem, i);
      MemoryStated(items[i]);
    }
    if forall i | 0 <= i < |items| :: !StatesMemory(items[i]) {
      NonePicked(items, MemoryItem);
    }
  }

  lemma ScsiIff(e: Element)
    ensures StatesScsi(e) <==> KindOf(e) == ScsiItem && SubType(e) != ""
    ensures StatesScsi(e) ==> SubType(e) == Lower(Rasd(e, "ResourceSubType"))
  {
    KindIff(e);
    hide KindOf, IsResource, Rasd;
  }

  lemma {:induction false} ScsiRight(items: seq<Element>)
    ensures SaysScsi(items, FirstSubType(items))
    decreases |items|
  {
    hide KindOf, StatesScsi, SubType, Lower, SaysScsi;
    if items == [] {
      NoScsi();
    } else {
      ScsiIff(items[0]);
      ScsiRight(items[1..]);
      ScsiMore(items, FirstSubType(items[1..]));
    }
  }

  lemma NoScsi()
    ensures SaysScsi([], "")
  {
  }

  lemma ScsiMore(items: seq<Element>, controller: string)
    requires items != [] && SaysScsi(items[1..], controller)
    ensures SaysScsi(items, if StatesScsi(items[0]) then Lower(Rasd(items[0], "ResourceSubType")) else controller)
  {
    hide StatesScsi, Lower, Rasd;
    var rest := items[1..];
    assert forall i | 0 <= i < |rest| :: rest[i] == items[i + 1];
    assert forall i | 0 < i < |items| :: items[i] == rest[i - 1];
  }

  lemma MacTags()
    ensures Qualified(NS_VMW, "Config") == "{http://www.vmware.com/schema/ovf}Config"
    ensures Qualified(NS_VMW, "key") == "{http://www.vmware.com/schema/ovf}key"
    ensures Qualified(NS_VMW, "value") == "{http://www.vmware.com/schema/ovf}value"
  {
    var ns := "{http://www.vmware.com/schema/ovf}";
    assert "{" + NS_VMW + "}" == ns;
    assert ns + "Config" == "{http://www.vmware.com/schema/ovf}Config";
    assert ns + "key" == "{http://www.vmware.com/schema/ovf}key";
    assert ns + "value" == "{http://www.vmware.com/schema/ovf}value";
  }

  lemma CardRight(e: Element)
    ensures IsCardOf(NicOf(e), e)
  {
    MacTags();
    LastMacMeaning(e.children, "");
    hide Qualified, Occurs, Attr, Rasd, LastMac;
    forall c: Element ensures SetsMac(c) <==> IsMacConfig(c) { }
    hide SetsMac, IsMacConfig;
    DeviceRight(Rasd(e, "ResourceSubType"));
    hide NicDevice, Lower;
  }

  lemma DeviceRight(subType: string)
    ensures var t, d := Lower(subType), NicDevice(subType);
      && (t == "" ==> d == "e1000") && (t == "vmxnet 3" ==> d == "vmxnet3") && (t == "pcnet32" ==> d == "vlance")
      && (t !in ["", "vmxnet 3", "pcnet32"] ==> d == t)
  {
    hide LowerChar;
    assert |"vmxnet 3"| == 8 && |"pcnet32"| == 7 && |"e1000"| == 5;
  }

  lemma DriveRight(e: Element)
    requires IsDrive(e) && (Rasd(e, "AddressOnParent") != "" ==> ParseInt(Rasd(e, "AddressOnParent")).Some?)
    ensures IsDriveOf(DriveOf(e), e)
  {
    KindIff(e);
    ZeroIsNumber();
    hide KindOf, Rasd, ParseInt, IsDrive;
  }

  lemma CardsRight(items: seq<Element>)
    ensures SaysCards(items, NicsOf(items))
  {
    hide KindOf, IsCard, IsCardOf, OfKind, NicOf, Rasd, LocalTag;
    var nics := NicsOf(items);
    var at := KindAt(items, NicItem);
    forall i | 0 <= i < |items| ensures KindOf(items[i]) == NicItem <==> IsCard(items[i]) { KindIff(items[i]); }
    forall i | 0 <= i < |at| ensures IsCardOf(nics[i], items[at[i]]) {
      assert nics[i] == NicOf(items[at[i]]);
      CardRight(items[at[i]]);
    }
  }

  lemma DrivesRight(items: seq<Element>)
    requires Numbered(items)
    ensures SaysDrives(items, DrivesOf(items))
  {
    hide KindOf, IsDrive, IsDriveOf, OfKind, DriveOf, StatesCpu, StatesMemory, ParseInt, Rasd;
    var at := KindAt(items, DriveItem);
    forall i | 0 <= i < |items| ensures KindOf(items[i]) == DriveItem <==> IsDrive(items[i]) { KindIff(items[i]); }
    forall i | 0 <= i < |at| ensures IsDriveOf(DrivesOf(items)[i], items[at[i]]) {
      assert at[i] in at;
      DriveRight(items[at[i]]);
    }
  }

  /** The loop gives the machine that the items state, and fails exactly when one of
      them states no number where it must. */
  lemma LoopIsRight(items: seq<Element>)
    ensures CollectAll(NOTHING, items).Some? <==> Numbered(items)
    ensures CollectAll(NOTHING, items).Some? ==>
      var c := CollectAll(NOTHING, items).value;
      ItemsSay(items, c.vcpus, c.memoryMb, c.scsiController, c.nics, c.disks)
  {
    hide Numbered, Numeric, LastCpu, LastMemory, FirstSubType, NicsOf, DrivesOf, CollectAll;
    hide SaysCpus, SaysMemory, SaysScsi, SaysCards, SaysDrives;
    NumbersIff(items);
    CollectMeaning(NOTHING, items);
    if Numbered(items) {
      CpusRight(items);
      MemoryRight(items);
      ScsiRight(items);
      CardsRight(items);
      DrivesRight(items);
      assert [] + NicsOf(items) == NicsOf(items) && [] + DrivesOf(items) == DrivesOf(items);
    }
  }
}
