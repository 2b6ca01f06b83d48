/** Disks, controllers and network cards of the libvirt domain
    (vmfree/generators/libvirt.py), and what Windows guests get from both
    generators. */
module Libvirt {
  import opened Substitution
  import opened Text
  import opened PathNames
  import opened Model
  import opened Hardware
  import opened Proxmox
  import opened Migration

  /** The device elements, reduced to what varies. */
  datatype Device =
    | DiskDevice(format: string, file: string, target: string, bus: string)
    | ScsiController
    | Interface(bridge: string, model: string, mac: Option<string>)

  const DEV_LETTERS := "abcdefghijklmnop"

  function Bus(hw: MappedHardware): string {
    if hw.controller == "ide" then "ide" else if hw.controller == "virtio-scsi" then "scsi" else "virtio"
  }

  function DevPrefix(hw: MappedHardware): string {
    if hw.controller == "ide" then "hd" else if hw.controller == "virtio-scsi" then "sd" else "vd"
  }

  function Target(hw: MappedHardware, i: nat): string
    requires i < 16
  {
    DevPrefix(hw) + [DEV_LETTERS[i]]
  }

  function DiskDevices(hw: MappedHardware, paths: seq<string>, f: DiskFormat): (r: seq<Device>)
    requires |paths| <= 16
    ensures |r| == |paths|
  {
    seq(|paths|, i requires 0 <= i < |paths| => DiskDevice(Extension(f), paths[i], Target(hw, i), Bus(hw)))
  }

  /** How many pairs `zip(vm.disks, disk_paths, strict=False)` gives. */
  function Paired(vm: VMDefinition, paths: seq<string>): nat {
    if |vm.disks| < |paths| then |vm.disks| else |paths|
  }

  // ---------------------------------------------------------------------
  // What the domain must hold
  // ---------------------------------------------------------------------

  /** A disk element on the bus that goes with the controller, with a letter of its
      own and the format of the converted file. */
  predicate IsDiskElement(d: Device, hw: MappedHardware, i: nat, path: string, f: DiskFormat) {
    && i < 16 && d.DiskDevice? && d.file == path && d.format == (if f == Qcow2 then "qcow2" else "raw")
    && (hw.controller == "ide" ==> d.bus == "ide" && d.target == "hd" + ['a' + i as char])
    && (hw.controller == "virtio-scsi" ==> d.bus == "scsi" && d.target == "sd" + ['a' + i as char])
    && (hw.controller !in ["ide", "virtio-scsi"] ==> d.bus == "virtio" && d.target == "vd" + ['a' + i as char])
  }

  /** A card on the bridge; its address in colon notation exactly when it is to be
      kept and is known. */
  predicate IsInterface(d: Device, nic: NICDefinition, hw: MappedHardware, bridge: string, preserveMac: bool) {
    && d.Interface? && d.bridge == bridge && d.model == hw.nic
    && (preserveMac && nic.macAddress != "" ==> d.mac == Some(ColonForm(nic.macAddress)))
    && (!preserveMac || nic.macAddress == "" ==> d.mac == None)
  }

  /** The devices of a domain: a disk for each pair of disk and path, the controller
      when the disks are SCSI disks, a card for each card. */
  predicate IsDomain(devices: seq<Device>, vm: VMDefinition, hw: MappedHardware, paths: seq<string>, f: DiskFormat,
                     bridge: string, preserveMac: bool)
  {
    var n := if |vm.disks| < |paths| then |vm.disks| else |paths|;
    var c := if hw.controller == "virtio-scsi" then 1 else 0;
    && |devices| == n + c + |vm.nics|
    && (forall i | 0 <= i < n :: IsDiskElement(devices[i], hw, i, paths[i], f))
    && (c == 1 ==> devices[n] == ScsiController)
    && (forall i | 0 <= i < |vm.nics| :: IsInterface(devices[n + c + i], vm.nics[i], hw, bridge, preserveMac))
  }

  lemma TargetLetter(hw: MappedHardware, i: nat)
    requires i < 16
    ensures DEV_LETTERS[i] == 'a' + i as char
  {
  }

  lemma DiskElementIsRight(hw: MappedHardware, i: nat, path: string, f: DiskFormat)
    requires i < 16
    ensures IsDiskElement(DiskDevice(Extension(f), path, Target(hw, i), Bus(hw)), hw, i, path, f)
  {
    TargetLetter(hw, i);
  }

  lemma InterfaceIsRight(nic: NICDefinition, hw: MappedHardware, bridge: string, preserveMac: bool)
    ensures IsInterface(Interface(bridge, hw.nic, if preserveMac && nic.macAddress != ""
                                                  then Some(ReplaceAll(nic.macAddress, "-", ":")) else None),
                        nic, hw, bridge, preserveMac)
  {
    MacNormalised(nic.macAddress);
    hide ReplaceAll, ColonForm;
  }

  lemma DomainIsRight(vm: VMDefinition, hw: MappedHardware, paths: seq<string>, f: DiskFormat, bridge: string,
                      preserveMac: bool)
    requires Paired(vm, paths) <= 16
    ensures IsDomain(DiskDevices(hw, paths[..Paired(vm, paths)], f) + ControllerDevices(hw)
                     + NicDevices(vm.nics, hw, bridge, preserveMac), vm, hw, paths, f, bridge, preserveMac)
  {
    hide IsDiskElement, IsInterface, Target, Bus, Extension, ReplaceAll;
    var n := Paired(vm, paths);
    var disks, nics := DiskDevices(hw, paths[..n], f), NicDevices(vm.nics, hw, bridge, preserveMac);
    forall i: nat | i < n ensures IsDiskElement(disks[i], hw, i, paths[i], f) {
      DiskElementIsRight(hw, i, paths[i], f);
    }
    forall i | 0 <= i < |vm.nics| ensures IsInterface(nics[i], vm.nics[i], hw, bridge, preserveMac) {
      InterfaceIsRight(vm.nics[i], hw, bridge, preserveMac);
    }
    hide DiskDevices, NicDevices;
    var devices, c := disks + ControllerDevices(hw) + nics, |ControllerDevices(hw)|;
    assert forall i | 0 <= i < n :: devices[i] == disks[i];
    assert forall i | 0 <= i < |nics| :: devices[n + c + i] == nics[i];
  }

  /** The element the builders append to. */
  class Devices {
    var elements: seq<Device>

    constructor ()
      ensures elements == []
    {
      elements := [];
    }

    /** Returns false where the source raises `IndexError`: there are letters for
        sixteen disks. The elements built before stay. */
    method BuildDisks(vm: VMDefinition, hw: MappedHardware, paths: seq<string>, f: DiskFormat) returns (ok: bool)
      modifies this
      ensures ok <==> Paired(vm, paths) <= 16
      ensures ok ==> elements == old(elements) + DiskDevices(hw, paths[..Paired(vm, paths)], f)
      ensures !ok ==> elements == old(elements) + DiskDevices(hw, paths[..16], f)
    {
      hide Extension, Target, Bus;
      var n := Paired(vm, paths);
      var i := 0;
      while i < n
        invariant 0 <= i <= n && i <= 16
        invariant elements == old(elements) + DiskDevices(hw, paths[..i], f)
      {
        if i >= 16 {
          return false;
        }
        var device := DiskDevice(Extension(f), paths[i], Target(hw, i), Bus(hw));
        assert DiskDevices(hw, paths[..i + 1], f) == DiskDevices(hw, paths[..i], f) + [device];
        elements := elements + [device];
        i := i + 1;
      }
      return true;
    }

    method BuildControllers(hw: MappedHardware)
      modifies this
      ensures elements == old(elements) + ControllerDevices(hw)
    {
      assert elements + [] == elements;
      if hw.controller == "virtio-scsi" {
        elements := elements + [ScsiController];
      }
    }

    /** Disks, controllers and cards of the domain, in this order. */
    method BuildDevices(vm: VMDefinition, hw: MappedHardware, paths: seq<string>, f: DiskFormat, bridge: string,
                        preserveMac: bool) returns (ok: bool)
      modifies this
      ensures ok <==> Paired(vm, paths) <= 16
      ensures ok ==> elements == old(elements) + DiskDevices(hw, paths[..Paired(vm, paths)], f)
                               + ControllerDevices(hw) + NicDevices(vm.nics, hw, bridge, preserveMac)
      ensures ok ==> |old(elements)| <= |elements| && elements[..|old(elements)|] == old(elements)
                     && IsDomain(elements[|old(elements)|..], vm, hw, paths, f, bridge, preserveMac)
      ensures !ok ==> elements == old(elements) + DiskDevices(hw, paths[..16], f)
    {
      hide DiskDevices, ControllerDevices, NicDevices, IsDomain;
      ghost var before := elements;
      ok := BuildDisks(vm, hw, paths, f);
      if ok {
        BuildControllers(hw);
        BuildNics(vm, hw, bridge, preserveMac);
        DomainIsRight(vm, hw, paths, f, bridge, preserveMac);
        ghost var added := DiskDevices(hw, paths[..Paired(vm, paths)], f) + ControllerDevices(hw)
                           + NicDevices(vm.nics, hw, bridge, preserveMac);
        assert elements == before + added;
        assert elements[|before|..] == added;
      }
    }

    method BuildNics(vm: VMDefinition, hw: MappedHardware, bridge: string, preserveMac: bool)
      modifies this
      ensures elements == old(elements) + NicDevices(vm.nics, hw, bridge, preserveMac)
    {
      var i := 0;
      while i < |vm.nics|
        invariant 0 <= i <= |vm.nics|
        invariant elements == old(elements) + NicDevices(vm.nics[..i], hw, bridge, preserveMac)
      {
        var nic := vm.nics[i];
        var mac := if preserveMac && nic.macAddress != "" then Some(ReplaceAll(nic.macAddress, "-", ":")) else None;
        assert NicDevices(vm.nics[..i + 1], hw, bridge, preserveMac)
            == NicDevices(vm.nics[..i], hw, bridge, preserveMac) + [Interface(bridge, hw.nic, mac)];
        elements := elements + [Interface(bridge, hw.nic, mac)];
        i := i + 1;
      }
      assert vm.nics[..i] == vm.nics;
    }
  }

  function ControllerDevices(hw: MappedHardware): seq<Device> {
    if hw.controller == "virtio-scsi" then [ScsiController] else []
  }

  function NicDevices(nics: seq<NICDefinition>, hw: MappedHardware, bridge: string, preserveMac: bool): (r: seq<Device>)
    ensures |r| == |nics|
  {
    seq(|nics|, i requires 0 <= i < |nics| =>
      Interface(bridge, hw.nic, if preserveMac && nics[i].macAddress != ""
                                then Some(ReplaceAll(nics[i].macAddress, "-", ":")) else None))
  }

  /** The domain has a SCSI controller exactly when its disks sit on a SCSI bus. */
  lemma ControllerServesDisks(hw: MappedHardware, paths: seq<string>, f: DiskFormat)
    requires 0 < |paths| <= 16
    ensures ScsiController in ControllerDevices(hw) <==>
      forall d | d in DiskDevices(hw, paths, f) :: d.DiskDevice? && d.bus == "scsi"
  {
    hide Target;
    var disks := DiskDevices(hw, paths, f);
    assert disks[0] in disks;
    forall d | d in disks ensures d.DiskDevice? && d.bus == Bus(hw) {
      var i :| 0 <= i < |disks| && disks[i] == d;
    }
  }

  /** With at most sixteen disks the target names are pairwise different. */
  lemma TargetsDistinct(hw: MappedHardware, i: nat, j: nat)
    requires i < j < 16
    ensures Target(hw, i) != Target(hw, j)
  {
    assert Target(hw, i)[2] == DEV_LETTERS[i] && Target(hw, j)[2] == DEV_LETTERS[j];
    forall k: nat | k < 16 ensures DEV_LETTERS[k] == 'a' + k as char { }
  }

  // ---------------------------------------------------------------------
  // Windows guests
  // ---------------------------------------------------------------------

  /** Whatever controller, cards and options the source names, a guest recognised
      as Windows gets IDE disks and e1000 cards from both generators. */
  lemma WindowsIsSafe(vm: VMDefinition, windowsSafe: bool, vmid: nat, storage: string, bridge: string,
                      preserveMac: bool, paths: seq<string>, f: DiskFormat)
    requires IsWindows(vm)
    ensures var hw := StageTwo(vm, windowsSafe);
      && hw.isSafeMode
      && SlotPrefix(hw) == "ide" && ScsiHw(hw) == "lsi" && NicModel(hw) == "e1000"
      && "e1000,bridge=" <= NicString(vm, hw, bridge, preserveMac)
      && (forall i: nat :: AttachCommand(hw, vmid, storage, i) ==
            "qm" + " " + "set" + " " + Dec(vmid) + " " + ("--" + "ide" + Dec(i)) + " "
            + VolumeRef(storage, Dec(vmid), i))
      && (|paths| <= 16 ==>
            forall d | d in DiskDevices(hw, paths, f) :: d.DiskDevice? && d.bus == "ide" && "hd" <= d.target)
      && (forall d | d in NicDevices(vm.nics, hw, bridge, preserveMac) :: d.Interface? && d.model == "e1000")
  {
    var hw := StageTwo(vm, windowsSafe);
    assert hw.controller == "ide" && hw.nic == "e1000";
    assert NicString(vm, hw, bridge, preserveMac) == "e1000,bridge=" +
      (bridge + if MacOf(vm, preserveMac) != "" then ",macaddr=" + MacOf(vm, preserveMac) else "");
    if |paths| <= 16 {
      forall d | d in DiskDevices(hw, paths, f) ensures d.DiskDevice? && d.bus == "ide" && "hd" <= d.target {
        var i :| 0 <= i < |paths| && DiskDevices(hw, paths, f)[i] == d;
      }
    }
    forall d | d in NicDevices(vm.nics, hw, bridge, preserveMac) ensures d.Interface? && d.model == "e1000" {
      var i :| 0 <= i < |vm.nics| && NicDevices(vm.nics, hw, bridge, preserveMac)[i] == d;
    }
  }

  // ---------------------------------------------------------------------
  // Dry run
  // ---------------------------------------------------------------------

  /** The disk elements shown by the dry run are those of a real run if and only
      if every source is previewable. */
  lemma DryRunXmlIff(vm: VMDefinition, hw: MappedHardware, outdir: string, f: DiskFormat)
    requires |vm.disks| <= 16
    ensures DiskDevices(hw, PreviewPaths(vm.disks, outdir, f), f)
         == DiskDevices(hw, OutputPaths(vm.disks, outdir, f), f)
      <==> forall i | 0 <= i < |vm.disks| :: Previewable(outdir, vm.disks[i].path)
  {
    hide PreviewPaths, OutputPaths, Previewable, Target, Bus;
    SameLength(vm.disks, outdir, f);
    PreviewsIff(vm.disks, outdir, f);
    FilesDecide(hw, PreviewPaths(vm.disks, outdir, f), OutputPaths(vm.disks, outdir, f), f);
  }

  lemma SameLength(disks: seq<DiskDefinition>, outdir: string, f: DiskFormat)
    ensures |PreviewPaths(disks, outdir, f)| == |OutputPaths(disks, outdir, f)| == |disks|
  {
  }

  lemma FilesDecide(hw: MappedHardware, ps: seq<string>, qs: seq<string>, f: DiskFormat)
    requires |ps| == |qs| <= 16
    ensures DiskDevices(hw, ps, f) == DiskDevices(hw, qs, f) <==> ps == qs
  {
    var a, b := DiskDevices(hw, ps, f), DiskDevices(hw, qs, f);
    if a == b {
      forall i | 0 <= i < |ps| ensures ps[i] == qs[i] { assert a[i].file == b[i].file; }
    }
  }
}
