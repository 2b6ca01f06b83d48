/** The VM definition shared by parsers and generators (vmfree/models.py). */
module Model {
  import opened Substitution
  import opened Text

  datatype Firmware = BIOS | EFI

  datatype DiskType =
    | MonolithicSparse | MonolithicFlat | TwoGbMaxExtentSparse | TwoGbMaxExtentFlat
    | Vmfs | VmfsSparse | VmfsThin | SeSparse | StreamOptimized | Unknown

  datatype DiskDefinition = Disk(path: string, controller: string, unit: int, sizeBytes: int,
                                 diskType: DiskType, isBoot: bool)

  datatype NICDefinition = NIC(virtualDev: string, macAddress: string, connectionType: string,
                               networkName: string)

  datatype VMDefinition = VM(name: string, guestOs: string, memoryMb: int, vcpus: int, firmware: Firmware,
                             disks: seq<DiskDefinition>, nics: seq<NICDefinition>,
                             scsiController: string, display: string, hardwareVersion: int)

  /** A MAC address in colon notation, as both targets want it. */
  function ColonForm(mac: string): string {
    seq(|mac|, i requires 0 <= i < |mac| => if mac[i] == '-' then ':' else mac[i])
  }

  /** A MAC address in dash notation comes out in colon notation: no dash is left
      and every other character keeps its place. */
  lemma {:induction false} MacNormalised(mac: string)
    ensures ReplaceAll(mac, "-", ":") == ColonForm(mac)
    decreases |mac|
  {
    if mac != "" {
      assert "-" <= mac <==> mac[0] == '-' by { assert mac[..1] == [mac[0]]; }
      MacNormalised(mac[1..]);
      assert ColonForm(mac) == [if mac[0] == '-' then ':' else mac[0]] + ColonForm(mac[1..]);
    }
  }

  const WINDOWS_HINTS: seq<string> :=
    ["windows", "win31", "win95", "win98", "winnt", "winme", "winxp", "win2000", "longhorn", "vista"]

  predicate IsWindows(vm: VMDefinition) {
    exists i | 0 <= i < |WINDOWS_HINTS| :: Occurs(WINDOWS_HINTS[i], Lower(vm.guestOs))
  }

  /** `boot_disk`: the first disk marked as boot, else the first disk. */
  method BootDisk(disks: seq<DiskDefinition>) returns (r: Option<DiskDefinition>)
    ensures disks == [] <==> r == None
    ensures r.Some? ==> r.value in disks
    ensures forall i | 0 <= i < |disks| && disks[i].isBoot && (forall j | 0 <= j < i :: !disks[j].isBoot) ::
      r == Some(disks[i])
    ensures disks != [] && (forall i | 0 <= i < |disks| :: !disks[i].isBoot) ==> r == Some(disks[0])
  {
    var i := 0;
    while i < |disks|
      invariant 0 <= i <= |disks| && forall j | 0 <= j < i :: !disks[j].isBoot
    {
      if disks[i].isBoot {
        return Some(disks[i]);
      }
      i := i + 1;
    }
    return if disks != [] then Some(disks[0]) else None;
  }
}

/** VMware to KVM device translation (vmfree/mapper/hardware.py). */
module Hardware {
  import opened Substitution
  import opened Text
  import opened Model

  datatype MappedHardware = Mapped(controller: string, nic: string, display: string,
                                   firmwarePath: Option<string>, isSafeMode: bool)

  function MapController(vmware: string, windowsSafe: bool): string {
    if windowsSafe then "ide" else if Lower(vmware) == "nvme" then "nvme" else "virtio-scsi"
  }

  function MapNic(vmware: string, windowsSafe: bool): string {
    if windowsSafe then "e1000"
    else if Lower(vmware) == "e1000" then "e1000"
    else if Lower(vmware) == "e1000e" then "e1000e"
    else "virtio-net"
  }

  function MapFirmware(f: Firmware): Option<string> {
    match f case EFI => Some("/usr/share/OVMF/OVMF_CODE.fd") case BIOS => None
  }

  /** The display table maps every type to the same adapter. */
  function MapHardware(scsiController: string, nicType: string, f: Firmware, windowsSafe: bool): MappedHardware {
    Mapped(MapController(scsiController, windowsSafe), MapNic(nicType, windowsSafe), "virtio-vga",
           MapFirmware(f), windowsSafe)
  }

  /** What the mapped hardware must be, for a machine and the wish for safe mode. */
  predicate Maps(hw: MappedHardware, vm: VMDefinition, safe: bool) {
    var card := if vm.nics == [] then "e1000" else Lower(vm.nics[0].virtualDev);
    && hw.isSafeMode == safe && hw.display == "virtio-vga"
    && (hw.controller == "ide" <==> safe)
    && (!safe ==> hw.controller == if Lower(vm.scsiController) == "nvme" then "nvme" else "virtio-scsi")
    && hw.nic == (if safe || card == "e1000" then "e1000" else if card == "e1000e" then "e1000e" else "virtio-net")
    && (vm.firmware.EFI? ==> hw.firmwarePath == Some("/usr/share/OVMF/OVMF_CODE.fd"))
    && (vm.firmware.BIOS? ==> hw.firmwarePath == None)
  }

  /** Some part of the guest system's name says Windows. */
  predicate SaysWindows(vm: VMDefinition) {
    exists hint | hint in ["windows", "win31", "win95", "win98", "winnt", "winme", "winxp", "win2000",
                           "longhorn", "vista"] :: Occurs(hint, Lower(vm.guestOs))
  }

  lemma WindowsIff(vm: VMDefinition)
    ensures IsWindows(vm) <==> SaysWindows(vm)
  {
    hide Occurs, Lower;
    var g := Lower(vm.guestOs);
    if SaysWindows(vm) {
      var hint :| hint in WINDOWS_HINTS && Occurs(hint, g);
      var i :| 0 <= i < |WINDOWS_HINTS| && WINDOWS_HINTS[i] == hint;
    }
    if IsWindows(vm) {
      var i :| 0 <= i < |WINDOWS_HINTS| && Occurs(WINDOWS_HINTS[i], g);
      assert WINDOWS_HINTS[i] in WINDOWS_HINTS;
    }
  }

  /** Stage 2 of the pipeline: safe mode when asked for and for Windows guests. */
  lemma StageTwoMaps(vm: VMDefinition, windowsSafe: bool)
    ensures Maps(StageTwo(vm, windowsSafe), vm, windowsSafe || SaysWindows(vm))
  {
    WindowsIff(vm);
    hide Lower, IsWindows, SaysWindows;
    LowerE1000();
  }

  lemma LowerE1000()
    ensures Lower("e1000") == "e1000"
  {
  }

  /** Stage 2 of the pipeline: Windows guests always get safe mode. */
  function StageTwo(vm: VMDefinition, windowsSafe: bool): MappedHardware {
    MapHardware(vm.scsiController, if vm.nics != [] then vm.nics[0].virtualDev else "e1000", vm.firmware,
                windowsSafe || IsWindows(vm))
  }
}
