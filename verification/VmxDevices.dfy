/** Disks and network cards of a VMX dictionary (vmfree/parsers/vmx.py). */
module VmxDevices {
  import opened Substitution
  import opened Text
  import opened PathNames
  import opened Model

  type Entries = map<string, string>

  function Get(entries: Entries, key: string, default: string): (r: string)
    ensures if key in entries then r == entries[key] else r == default
  {
    if key in entries then entries[key] else default
  }

  // ---------------------------------------------------------------------
  // Slots
  // ---------------------------------------------------------------------

  const BUSES: seq<string> := ["scsi", "ide", "sata"]

  /** The slots in scan order: bus, then bus number, then unit. */
  datatype Slot = Slot(bus: nat, busId: nat, unit: nat)

  predicate ValidSlot(s: Slot) { s.bus < 3 && s.busId < 4 && s.unit < 16 }

  function SlotAt(n: nat): (s: Slot)
    ensures n < 192 ==> ValidSlot(s)
  {
    Slot(n / 64, n / 16 % 4, n % 16)
  }

  function IndexOfSlot(s: Slot): nat { 64 * s.bus + 16 * s.busId + s.unit }

  /** Lexicographic order on (bus, bus number, unit). */
  predicate Before(s: Slot, t: Slot) {
    s.bus < t.bus || (s.bus == t.bus && (s.busId < t.busId || (s.busId == t.busId && s.unit < t.unit)))
  }

  lemma Div64(q: nat, r: nat)
    requires r < 64
    ensures (64 * q + r) / 64 == q
  {
  }

  lemma Div16(q: nat, r: nat)
    requires r < 16
    ensures (16 * q + r) / 16 == q && (16 * q + r) % 16 == r
  {
  }

  lemma Mod4(q: nat, r: nat)
    requires r < 4
    ensures (4 * q + r) % 4 == r
  {
  }

  lemma SlotNumbering(s: Slot)
    requires ValidSlot(s)
    ensures SlotAt(IndexOfSlot(s)) == s && IndexOfSlot(s) < 192
  {
    var n := IndexOfSlot(s);
    assert n / 64 == s.bus by { Div64(s.bus, 16 * s.busId + s.unit); }
    assert n / 16 == 4 * s.bus + s.busId && n % 16 == s.unit by {
      assert n == 16 * (4 * s.bus + s.busId) + s.unit;
      Div16(4 * s.bus + s.busId, s.unit);
    }
    assert n / 16 % 4 == s.busId by { Mod4(s.bus, s.busId); }
  }

  lemma IndexOfNumber(n: nat)
    requires n < 192
    ensures IndexOfSlot(SlotAt(n)) == n
  {
    var q, r := n / 16, n % 16;
    assert n == 16 * q + r;
    assert q == 4 * (q / 4) + q % 4;
    assert n / 64 == q / 4 by { Div64(q / 4, 16 * (q % 4) + r); }
  }

  lemma NumberingIsLexicographic(m: nat, n: nat)
    requires m < n < 192
    ensures ValidSlot(SlotAt(m)) && ValidSlot(SlotAt(n)) && Before(SlotAt(m), SlotAt(n))
  {
    IndexOfNumber(m);
    IndexOfNumber(n);
    hide SlotAt;
  }

  function Controller(s: Slot): string
    requires ValidSlot(s)
  {
    BUSES[s.bus] + Dec(s.busId)
  }

  function Key(s: Slot, field: string): string
    requires ValidSlot(s)
  {
    Controller(s) + ":" + Dec(s.unit) + "." + field
  }

  /** A convertible disk sits in the slot: present, named, and no CD or image. */
  predicate Attached(entries: Entries, s: Slot)
    requires ValidSlot(s)
  {
    var filename := Lower(Get(entries, Key(s, "filename"), ""));
    var device := Lower(Get(entries, Key(s, "devicetype"), ""));
    && Lower(Get(entries, Key(s, "present"), "")) == "true"
    && filename != ""
    && !Occurs("cdrom", device) && !Occurs("atapi", device)
    && !(|filename| >= 4 && filename[|filename| - 4..] == ".iso")
    && filename != "auto detect"
  }

  /** What inspecting a VMDK file gives: nothing when the file does not exist,
      is not a .vmdk file or cannot be parsed. */
  type Inspector = string -> Option<(int, DiskType)>

  function DiskAt(entries: Entries, dir: Path, inspect: Inspector, s: Slot, isBoot: bool): DiskDefinition
    requires ValidSlot(s)
  {
    var path := ToString(Div(dir, Get(entries, Key(s, "filename"), "")));
    var (size, kind) := match inspect(path) case None => (0, Unknown) case Some(info) => info;
    Disk(path, Controller(s), s.unit, size, kind, isBoot)
  }

  // ---------------------------------------------------------------------
  // What the scan must return, over the entries
  // ---------------------------------------------------------------------

  predicate EndsWith(s: string, t: string) { |t| <= |s| && s[|s| - |t|..] == t }

  /** The controller of a slot, by name. */
  predicate IsController(c: string, s: Slot) {
    || (s.bus == 0 && c == "scsi" + Dec(s.busId))
    || (s.bus == 1 && c == "ide" + Dec(s.busId))
    || (s.bus == 2 && c == "sata" + Dec(s.busId))
  }

  /** The entries put a disk that can be converted at unit `u` of controller `c`:
      present and named, no CD drive, no image of one and no empty drive. */
  predicate Convertible(entries: Entries, c: string, u: nat) {
    var name := Lower(Get(entries, c + ":" + Dec(u) + ".filename", ""));
    var device := Lower(Get(entries, c + ":" + Dec(u) + ".devicetype", ""));
    && Lower(Get(entries, c + ":" + Dec(u) + ".present", "")) == "true"
    && name != "" && !EndsWith(name, ".iso") && name != "auto detect"
    && !Occurs("cdrom", device) && !Occurs("atapi", device)
  }

  /** The disk at unit `u` of controller `c`: the file it names under the directory
      of the VMX file, with what inspecting that file gives. */
  predicate IsDiskAt(d: DiskDefinition, entries: Entries, dir: Path, inspect: Inspector, c: string, u: nat) {
    && d.path == ToString(Div(dir, Get(entries, c + ":" + Dec(u) + ".filename", "")))
    && d.controller == c && d.unit == u
    && match inspect(d.path)
       case None => d.sizeBytes == 0 && d.diskType == Unknown
       case Some(info) => d.sizeBytes == info.0 && d.diskType == info.1
  }

  predicate Increasing(r: seq<Slot>) { forall i, j | 0 <= i < j < |r| :: Before(r[i], r[j]) }

  /** One disk for each slot that the entries put a convertible disk in, and no
      other, in strict slot order; the first one is the boot disk. */
  ghost predicate Scans(entries: Entries, dir: Path, inspect: Inspector, slots: seq<Slot>, disks: seq<DiskDefinition>) {
    && |slots| == |disks| && Increasing(slots)
    && (forall s: Slot, c: string | IsController(c, s) && s.busId < 4 && s.unit < 16 ::
          s in slots <==> Convertible(entries, c, s.unit))
    && (forall i | 0 <= i < |disks| ::
          && slots[i].bus < 3 && slots[i].busId < 4 && slots[i].unit < 16
          && exists c :: IsController(c, slots[i]) && IsDiskAt(disks[i], entries, dir, inspect, c, slots[i].unit))
    && (forall i | 0 <= i < |disks| :: disks[i].isBoot <==> i == 0)
  }

  // ---------------------------------------------------------------------
  // The scan
  // ---------------------------------------------------------------------

  /** The slots among the first n that hold a disk. */
  function AttachedBelow(entries: Entries, n: nat): (r: seq<Slot>)
    requires n <= 192
    ensures forall i | 0 <= i < |r| :: ValidSlot(r[i])
  {
    if n == 0 then []
    else AttachedBelow(entries, n - 1) + if Attached(entries, SlotAt(n - 1)) then [SlotAt(n - 1)] else []
  }

  function DisksOf(entries: Entries, dir: Path, inspect: Inspector, slots: seq<Slot>): (r: seq<DiskDefinition>)
    requires forall i | 0 <= i < |slots| :: ValidSlot(slots[i])
    ensures |r| == |slots|
  {
    seq(|slots|, i requires 0 <= i < |slots| => DiskAt(entries, dir, inspect, slots[i], i == 0))
  }

  lemma ControllerInjective(s: Slot, t: Slot)
    requires ValidSlot(s) && ValidSlot(t) && Controller(s) == Controller(t)
    ensures s.bus == t.bus && s.busId == t.busId
  {
    assert |Dec(s.busId)| == 1 && |Dec(t.busId)| == 1;
    assert Controller(s)[|Controller(s)| - 1] == Dec(s.busId)[0];
    assert Controller(t)[|Controller(t)| - 1] == Dec(t.busId)[0];
    assert Controller(s)[0] == BUSES[s.bus][0] && Controller(s)[1] == BUSES[s.bus][1];
    assert Controller(t)[0] == BUSES[t.bus][0] && Controller(t)[1] == BUSES[t.bus][1];
    assert Dec(s.busId) == Dec(t.busId);
    DecInjective(s.busId, t.busId);
  }

  /** The `seen` set holds the slots of the disks found so far. */
  ghost predicate SeenBelow(seen: set<(string, nat)>, n: nat)
    requires n <= 192
  {
    forall c, u | (c, u) in seen :: exists m: nat | m < n :: c == Controller(SlotAt(m)) && u == SlotAt(m).unit
  }

  /** The guard against duplicate slots never fires. */
  lemma NeverSeen(seen: set<(string, nat)>, n: nat)
    requires n < 192 && SeenBelow(seen, n)
    ensures (Controller(SlotAt(n)), SlotAt(n).unit) !in seen
  {
    hide SlotAt, IndexOfSlot, Controller;
    var t := SlotAt(n);
    if (Controller(t), t.unit) in seen {
      var m: nat :| m < n && Controller(t) == Controller(SlotAt(m)) && t.unit == SlotAt(m).unit;
      ControllerInjective(t, SlotAt(m));
      IndexOfNumber(m);
      IndexOfNumber(n);
    }
  }

  lemma SeenStep(seen: set<(string, nat)>, n: nat)
    requires n < 192 && SeenBelow(seen, n)
    ensures SeenBelow(seen, n + 1) && SeenBelow(seen + {(Controller(SlotAt(n)), SlotAt(n).unit)}, n + 1)
  {
    hide SlotAt, Controller;
  }

  lemma StepScan(entries: Entries, dir: Path, inspect: Inspector, n: nat)
    requires n < 192
    ensures DisksOf(entries, dir, inspect, AttachedBelow(entries, n + 1)) ==
      DisksOf(entries, dir, inspect, AttachedBelow(entries, n))
      + if Attached(entries, SlotAt(n))
        then [DiskAt(entries, dir, inspect, SlotAt(n), |AttachedBelow(entries, n)| == 0)] else []
  {
    var a, b := AttachedBelow(entries, n), AttachedBelow(entries, n + 1);
    assert b == a + if Attached(entries, SlotAt(n)) then [SlotAt(n)] else [];
    hide DiskAt, Attached;
  }

  ghost predicate ScanState(disks: seq<DiskDefinition>, seen: set<(string, nat)>, entries: Entries, dir: Path,
                            inspect: Inspector, n: nat)
    requires n <= 192
  {
    disks == DisksOf(entries, dir, inspect, AttachedBelow(entries, n)) && SeenBelow(seen, n)
  }

  lemma ScanNext(disks: seq<DiskDefinition>, seen: set<(string, nat)>, entries: Entries, dir: Path,
                 inspect: Inspector, n: nat, slot: Slot)
    requires ValidSlot(slot) && n == 64 * slot.bus + 16 * slot.busId + slot.unit && n < 192
    requires ScanState(disks, seen, entries, dir, inspect, n)
    ensures (Controller(slot), slot.unit) !in seen
    ensures if Attached(entries, slot)
      then ScanState(disks + [DiskAt(entries, dir, inspect, slot, |disks| == 0)],
                     seen + {(Controller(slot), slot.unit)}, entries, dir, inspect, n + 1)
      else ScanState(disks, seen, entries, dir, inspect, n + 1)
  {
    hide DiskAt, Attached, Controller, SlotAt, AttachedBelow, SeenBelow, DisksOf;
    assert SlotAt(n) == slot by { SlotNumbering(slot); }
    StepScan(entries, dir, inspect, n);
    NeverSeen(seen, n);
    SeenStep(seen, n);
    assert disks + [] == disks;
  }

  method ExtractDisks(entries: Entries, dir: Path, inspect: Inspector) returns (disks: seq<DiskDefinition>)
    ensures exists slots :: Scans(entries, dir, inspect, slots, disks)
    ensures disks == DisksOf(entries, dir, inspect, AttachedBelow(entries, 192))
  {
    hide DiskAt, Attached, Controller, SlotAt, ScanState, AttachedBelow, DisksOf, Key, Get, Scans;
    disks := [];
    var seen: set<(string, nat)> := {};
    ScanStart(entries, dir, inspect);
    var bus := 0;
    while bus < 3
      invariant 0 <= bus <= 3 && ScanState(disks, seen, entries, dir, inspect, 64 * bus)
    {
      var busId := 0;
      while busId < 4
        invariant 0 <= busId <= 4 && ScanState(disks, seen, entries, dir, inspect, 64 * bus + 16 * busId)
      {
        var unit := 0;
        while unit < 16
          invariant 0 <= unit <= 16 && ScanState(disks, seen, entries, dir, inspect, 64 * bus + 16 * busId + unit)
        {
          var slot := Slot(bus, busId, unit);
          ScanNext(disks, seen, entries, dir, inspect, 64 * bus + 16 * busId + unit, slot);
          if Attached(entries, slot) && (Controller(slot), unit) !in seen {
            seen := seen + {(Controller(slot), unit)};
            disks := disks + [DiskAt(entries, dir, inspect, slot, |disks| == 0)];
          }
          unit := unit + 1;
        }
        busId := busId + 1;
      }
      bus := bus + 1;
    }
    ScanDone(disks, seen, entries, dir, inspect);
    ScanIsRight(entries, dir, inspect);
  }

  lemma ScanStart(entries: Entries, dir: Path, inspect: Inspector)
    ensures ScanState([], {}, entries, dir, inspect, 0)
  {
  }

  lemma ScanDone(disks: seq<DiskDefinition>, seen: set<(string, nat)>, entries: Entries, dir: Path, inspect: Inspector)
    requires ScanState(disks, seen, entries, dir, inspect, 192)
    ensures disks == DisksOf(entries, dir, inspect, AttachedBelow(entries, 192))
  {
  }

  // ---------------------------------------------------------------------
  // What the scan means
  // ---------------------------------------------------------------------

  lemma IncreasingSnoc(r: seq<Slot>, s: Slot)
    requires Increasing(r) && forall i | 0 <= i < |r| :: Before(r[i], s)
    ensures Increasing(r + [s])
  {
    hide Before;
  }

  lemma BelowIsBefore(s: Slot, n: nat)
    requires ValidSlot(s) && IndexOfSlot(s) < n < 192
    ensures Before(s, SlotAt(n))
  {
    SlotNumbering(s);
    NumberingIsLexicographic(IndexOfSlot(s), n);
  }

  /** What the first n slots contribute. */
  ghost predicate ListsBelow(entries: Entries, r: seq<Slot>, n: nat) {
    && (forall i | 0 <= i < |r| :: ValidSlot(r[i]) && Attached(entries, r[i]) && IndexOfSlot(r[i]) < n)
    && Increasing(r)
    && (forall m: nat | m < n <= 192 && Attached(entries, SlotAt(m)) :: SlotAt(m) in r)
  }

  lemma ListsSame(entries: Entries, a: seq<Slot>, n: nat)
    requires n < 192 && ListsBelow(entries, a, n) && !Attached(entries, SlotAt(n))
    ensures ListsBelow(entries, a, n + 1)
  {
    hide Attached, SlotAt, IndexOfSlot, Increasing, ValidSlot;
  }

  lemma ListsMore(entries: Entries, a: seq<Slot>, n: nat, last: Slot)
    requires n < 192 && ListsBelow(entries, a, n) && last == SlotAt(n) && Attached(entries, last)
    ensures ListsBelow(entries, a + [last], n + 1)
  {
    hide Attached, SlotAt, IndexOfSlot, Increasing, Before, ValidSlot;
    var r := a + [last];
    IndexOfNumber(n);
    forall i | 0 <= i < |a| ensures Before(a[i], last) { BelowIsBefore(a[i], n); }
    IncreasingSnoc(a, last);
    forall m: nat | m <= n && Attached(entries, SlotAt(m)) ensures SlotAt(m) in r {
      if m == n { assert r[|a|] == SlotAt(m); }
    }
  }

  lemma {:induction false} AttachedBelowMeans(entries: Entries, n: nat)
    requires n <= 192
    ensures ListsBelow(entries, AttachedBelow(entries, n), n)
    decreases n
  {
    hide Attached, SlotAt, IndexOfSlot, Before, ValidSlot;
    if n > 0 {
      AttachedBelowMeans(entries, n - 1);
      var a, last := AttachedBelow(entries, n - 1), SlotAt(n - 1);
      if Attached(entries, last) { ListsMore(entries, a, n - 1, last); } else { ListsSame(entries, a, n - 1); }
      assert a + [] == a;
      hide ListsBelow;
    }
  }

  /** The scan returns one disk per slot that holds one, nothing else, in strict
      (bus, bus number, unit) order, and marks exactly the first as boot disk. */
  lemma ScanMeaning(entries: Entries, dir: Path, inspect: Inspector)
    ensures var slots := AttachedBelow(entries, 192);
      var disks := DisksOf(entries, dir, inspect, slots);
      && (forall s | ValidSlot(s) :: s in slots <==> Attached(entries, s))
      && Increasing(slots)
      && (forall i | 0 <= i < |disks| :: disks[i].controller == Controller(slots[i]) && disks[i].unit == slots[i].unit)
      && (forall i | 0 <= i < |disks| :: disks[i].isBoot <==> i == 0)
      && (forall i, j | 0 <= i < j < |disks| ::
            (disks[i].controller, disks[i].unit) != (disks[j].controller, disks[j].unit))
  {
    var slots := AttachedBelow(entries, 192);
    var disks := DisksOf(entries, dir, inspect, slots);
    AttachedBelowMeans(entries, 192);
    hide Attached, Controller, SlotAt, IndexOfSlot, AttachedBelow;
    forall s | ValidSlot(s) ensures s in slots <==> Attached(entries, s) {
      SlotNumbering(s);
      if s in slots {
        var i :| 0 <= i < |slots| && slots[i] == s;
      }
    }
    SlotsApart(slots);
  }

  lemma SlotsApart(slots: seq<Slot>)
    requires Increasing(slots) && forall i | 0 <= i < |slots| :: ValidSlot(slots[i])
    ensures forall i, j | 0 <= i < j < |slots| ::
      (Controller(slots[i]), slots[i].unit) != (Controller(slots[j]), slots[j].unit)
  {
    hide Controller;
    forall i, j | 0 <= i < j < |slots|
      ensures (Controller(slots[i]), slots[i].unit) != (Controller(slots[j]), slots[j].unit)
    {
      assert Before(slots[i], slots[j]);
      if Controller(slots[i]) == Controller(slots[j]) { ControllerInjective(slots[i], slots[j]); }
    }
  }

  lemma ControllerNamed(s: Slot, c: string)
    requires ValidSlot(s)
    ensures IsController(c, s) <==> c == Controller(s)
  {
    hide Dec;
  }

  lemma KeyNamed(s: Slot)
    requires ValidSlot(s)
    ensures var c := Controller(s);
      && Key(s, "filename") == c + ":" + Dec(s.unit) + ".filename"
      && Key(s, "devicetype") == c + ":" + Dec(s.unit) + ".devicetype"
      && Key(s, "present") == c + ":" + Dec(s.unit) + ".present"
  {
    hide Dec, Controller;
    var u := Controller(s) + ":" + Dec(s.unit);
    assert "." + "filename" == ".filename" && "." + "devicetype" == ".devicetype" && "." + "present" == ".present";
    assert u + "." + "filename" == u + ("." + "filename");
    assert u + "." + "devicetype" == u + ("." + "devicetype");
    assert u + "." + "present" == u + ("." + "present");
  }

  lemma AttachedIff(entries: Entries, s: Slot)
    requires ValidSlot(s)
    ensures Attached(entries, s) <==> Convertible(entries, Controller(s), s.unit)
  {
    KeyNamed(s);
    hide Key, Controller, Dec, Lower, Occurs, Get;
    assert |".iso"| == 4;
  }

  lemma DiskIsRight(entries: Entries, dir: Path, inspect: Inspector, s: Slot, isBoot: bool)
    requires ValidSlot(s)
    ensures IsDiskAt(DiskAt(entries, dir, inspect, s, isBoot), entries, dir, inspect, Controller(s), s.unit)
  {
    KeyNamed(s);
    hide Key, Controller, Dec, Get, ToString, Div;
  }

  /** The scan returns what the entries ask for. */
  lemma ScanIsRight(entries: Entries, dir: Path, inspect: Inspector)
    ensures Scans(entries, dir, inspect, AttachedBelow(entries, 192),
                  DisksOf(entries, dir, inspect, AttachedBelow(entries, 192)))
  {
    var slots := AttachedBelow(entries, 192);
    var disks := DisksOf(entries, dir, inspect, slots);
    ScanMeaning(entries, dir, inspect);
    hide Attached, Convertible, IsDiskAt, IsController, Controller, AttachedBelow, Increasing, DiskAt;
    forall s: Slot, c: string | IsController(c, s) && s.busId < 4 && s.unit < 16
      ensures s in slots <==> Convertible(entries, c, s.unit)
    {
      assert ValidSlot(s) by { OneOfThree(s, c); }
      ControllerNamed(s, c);
      AttachedIff(entries, s);
    }
    forall i | 0 <= i < |disks|
      ensures exists c :: IsController(c, slots[i]) && IsDiskAt(disks[i], entries, dir, inspect, c, slots[i].unit)
    {
      ControllerNamed(slots[i], Controller(slots[i]));
      DiskIsRight(entries, dir, inspect, slots[i], i == 0);
    }
  }

  lemma OneOfThree(s: Slot, c: string)
    requires IsController(c, s)
    ensures s.bus < 3
  {
  }

  /** The boot disk of a scanned machine is the disk in its first slot. */
  method ScannedBootDisk(entries: Entries, dir: Path, inspect: Inspector) returns (r: Option<DiskDefinition>)
    ensures r == None <==>
      forall s: Slot, c: string | IsController(c, s) && s.busId < 4 && s.unit < 16 :: !Convertible(entries, c, s.unit)
    ensures r.Some? ==> exists s: Slot, c: string | IsController(c, s) && s.busId < 4 && s.unit < 16 ::
      && Convertible(entries, c, s.unit) && IsDiskAt(r.value, entries, dir, inspect, c, s.unit) && r.value.isBoot
      && forall t: Slot, e: string | IsController(e, t) && t.busId < 4 && t.unit < 16 && t != s ::
           Convertible(entries, e, t.unit) ==> Before(s, t)
  {
    hide Scans, Convertible, IsDiskAt, IsController, Before;
    var disks := ExtractDisks(entries, dir, inspect);
    r := BootDisk(disks);
    ghost var slots :| Scans(entries, dir, inspect, slots, disks);
    FirstScanned(entries, dir, inspect, slots, disks);
  }

  lemma FirstScanned(entries: Entries, dir: Path, inspect: Inspector, slots: seq<Slot>, disks: seq<DiskDefinition>)
    requires Scans(entries, dir, inspect, slots, disks)
    ensures disks == [] <==>
      forall s: Slot, c: string | IsController(c, s) && s.busId < 4 && s.unit < 16 :: !Convertible(entries, c, s.unit)
    ensures disks != [] ==>
      && disks[0].isBoot
      && exists s: Slot, c: string | IsController(c, s) && s.busId < 4 && s.unit < 16 ::
      && Convertible(entries, c, s.unit) && IsDiskAt(disks[0], entries, dir, inspect, c, s.unit)
      && forall t: Slot, e: string | IsController(e, t) && t.busId < 4 && t.unit < 16 && t != s ::
           Convertible(entries, e, t.unit) ==> Before(s, t)
  {
    hide Convertible, IsDiskAt, IsController, Before, Increasing;
    if disks != [] {
      assert slots[0] in slots;
      forall t: Slot, e: string | IsController(e, t) && t.busId < 4 && t.unit < 16 && t != slots[0]
        ensures Convertible(entries, e, t.unit) ==> Before(slots[0], t)
      {
        if t in slots { FirstOfIncreasing(slots, t); }
      }
    }
  }

  lemma FirstOfIncreasing(r: seq<Slot>, t: Slot)
    requires Increasing(r) && t in r && t != r[0]
    ensures Before(r[0], t)
  {
    var j :| 0 <= j < |r| && r[j] == t;
  }

  // ---------------------------------------------------------------------
  // Network cards
  // ---------------------------------------------------------------------

  function NicKey(n: nat, field: string): string { "ethernet" + Dec(n) + "." + field }

  predicate NicPresent(entries: Entries, n: nat) { Lower(Get(entries, NicKey(n, "present"), "")) == "true" }

  function NicAt(entries: Entries, n: nat): NICDefinition {
    var mac := if Get(entries, NicKey(n, "addresstype"), "") == "static" then "address" else "generatedaddress";
    NIC(Get(entries, NicKey(n, "virtualdev"), "e1000"), Get(entries, NicKey(n, mac), ""),
        Get(entries, NicKey(n, "connectiontype"), "bridged"), Get(entries, NicKey(n, "networkname"), ""))
  }

  function PresentNics(entries: Entries, n: nat): seq<nat> {
    if n == 0 then [] else PresentNics(entries, n - 1) + if NicPresent(entries, n - 1) then [n - 1] else []
  }

  function NicsOf(entries: Entries, ids: seq<nat>): seq<NICDefinition> {
    seq(|ids|, i requires 0 <= i < |ids| => NicAt(entries, ids[i]))
  }

  /** The card with number `n`: its own entries, with the static address exactly
      when the address type says so. */
  predicate IsNicAt(nic: NICDefinition, entries: Entries, n: nat) {
    var card := "ethernet" + Dec(n);
    && nic.virtualDev == Get(entries, card + ".virtualdev", "e1000")
    && nic.connectionType == Get(entries, card + ".connectiontype", "bridged")
    && nic.networkName == Get(entries, card + ".networkname", "")
    && nic.macAddress == Get(entries, card + if Get(entries, card + ".addresstype", "") == "static"
                                             then ".address" else ".generatedaddress", "")
  }

  /** One card for each of the ten numbers whose card is present, in order. */
  ghost predicate ScansNics(entries: Entries, ids: seq<nat>, nics: seq<NICDefinition>) {
    && |ids| == |nics| && Ascending(ids, 10)
    && (forall n: nat | n < 10 :: n in ids <==> Lower(Get(entries, "ethernet" + Dec(n) + ".present", "")) == "true")
    && (forall i | 0 <= i < |nics| :: IsNicAt(nics[i], entries, ids[i]))
  }

  method ExtractNics(entries: Entries) returns (nics: seq<NICDefinition>)
    ensures exists ids :: ScansNics(entries, ids, nics)
    ensures nics == NicsOf(entries, PresentNics(entries, 10))
  {
    hide NicAt, NicPresent, ScansNics;
    NicsAreRight(entries);
    nics := [];
    var n := 0;
    while n < 10
      invariant 0 <= n <= 10 && nics == NicsOf(entries, PresentNics(entries, n))
    {
      if NicPresent(entries, n) {
        nics := nics + [NicAt(entries, n)];
      }
      n := n + 1;
      assert PresentNics(entries, n)
          == PresentNics(entries, n - 1) + if NicPresent(entries, n - 1) then [n - 1] else [];
    }
  }

  /** The cards found are exactly the present ones below n, in increasing order. */
  lemma {:induction false} NicsMeaning(entries: Entries, n: nat)
    ensures var r := PresentNics(entries, n);
      && Ascending(r, n)
      && (forall k: nat | k < n :: k in r <==> NicPresent(entries, k))
    decreases n
  {
    hide NicPresent;
    if n > 0 {
      NicsMeaning(entries, n - 1);
      var a := PresentNics(entries, n - 1);
      if NicPresent(entries, n - 1) { AscendingSnoc(a, n - 1); } else { assert a + [] == a && n - 1 !in a; }
      hide Ascending;
    }
  }

  lemma NicKeyText(n: nat, field: string, text: string)
    requires text == "." + field
    ensures NicKey(n, field) == "ethernet" + Dec(n) + text
  {
    hide Dec;
  }

  lemma NicTexts()
    ensures ".virtualdev" == "." + "virtualdev" && ".connectiontype" == "." + "connectiontype"
    ensures ".networkname" == "." + "networkname" && ".addresstype" == "." + "addresstype"
    ensures ".address" == "." + "address" && ".generatedaddress" == "." + "generatedaddress"
    ensures ".present" == "." + "present"
  {
  }

  lemma NicIsRight(entries: Entries, n: nat)
    ensures IsNicAt(NicAt(entries, n), entries, n)
    ensures NicPresent(entries, n) <==> Lower(Get(entries, "ethernet" + Dec(n) + ".present", "")) == "true"
  {
    hide NicKey, Dec, Get, Lower;
    NicTexts();
    NicKeyText(n, "virtualdev", ".virtualdev");
    NicKeyText(n, "connectiontype", ".connectiontype");
    NicKeyText(n, "networkname", ".networkname");
    NicKeyText(n, "addresstype", ".addresstype");
    NicKeyText(n, "address", ".address");
    NicKeyText(n, "generatedaddress", ".generatedaddress");
    NicKeyText(n, "present", ".present");
  }

  lemma NicsAreRight(entries: Entries)
    ensures var ids := PresentNics(entries, 10); ScansNics(entries, ids, NicsOf(entries, ids))
  {
    var ids := PresentNics(entries, 10);
    NicsMeaning(entries, 10);
    hide NicAt, NicPresent, IsNicAt, PresentNics, Ascending, Lower, Get, Dec;
    forall n: nat
      ensures IsNicAt(NicAt(entries, n), entries, n)
      ensures NicPresent(entries, n) <==> Lower(Get(entries, "ethernet" + Dec(n) + ".present", "")) == "true"
    {
      NicIsRight(entries, n);
    }
  }

  predicate Ascending(r: seq<nat>, n: nat) {
    (forall i | 0 <= i < |r| :: r[i] < n) && (forall i, j | 0 <= i < j < |r| :: r[i] < r[j])
  }

  lemma AscendingSnoc(r: seq<nat>, n: nat)
    requires Ascending(r, n)
    ensures Ascending(r + [n], n + 1)
    ensures forall k: nat :: k in r + [n] <==> k in r || k == n
  {
  }
}
