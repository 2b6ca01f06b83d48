/** The qm command generator (vmfree/generators/proxmox.py). */
module Proxmox {
  import opened Substitution
  import opened Text
  import opened Model
  import opened Hardware

  const CONTINUATION := " \\\n  "

  function ScsiHw(hw: MappedHardware): string {
    if hw.controller == "ide" then "lsi" else "virtio-scsi-single"
  }

  function NicModel(hw: MappedHardware): string {
    if hw.nic == "e1000" || hw.nic == "e1000e" then "e1000" else "virtio"
  }

  function MacOf(vm: VMDefinition, preserveMac: bool): string {
    if preserveMac && vm.nics != [] then ReplaceAll(vm.nics[0].macAddress, "-", ":") else ""
  }

  function NicString(vm: VMDefinition, hw: MappedHardware, bridge: string, preserveMac: bool): string {
    NicModel(hw) + ",bridge=" + bridge
    + if MacOf(vm, preserveMac) != "" then ",macaddr=" + MacOf(vm, preserveMac) else ""
  }

  function CreateOptions(vm: VMDefinition, hw: MappedHardware, bridge: string, preserveMac: bool)
    : seq<(string, string)>
  {
    [("--name", vm.name), ("--memory", Str(vm.memoryMb)), ("--cores", Str(vm.vcpus)),
     ("--cpu", "x86-64-v2-AES"), ("--machine", "q35"), ("--scsihw", ScsiHw(hw)),
     ("--bios", if hw.firmwarePath.Some? then "ovmf" else "seabios"),
     ("--net0", NicString(vm, hw, bridge, preserveMac))]
  }

  function Parts(options: seq<(string, string)>): (r: seq<string>)
    ensures |r| == |options|
  {
    seq(|options|, i requires 0 <= i < |options| => options[i].0 + " " + options[i].1)
  }

  function QmCreate(vmid: nat): string { "qm" + " " + "create" + " " + Dec(vmid) }

  function CreateCommand(vm: VMDefinition, hw: MappedHardware, vmid: nat, bridge: string, preserveMac: bool): string {
    Join(CONTINUATION, [QmCreate(vmid)] + Parts(CreateOptions(vm, hw, bridge, preserveMac)))
  }

  function ImportCommand(vmid: nat, path: string, storage: string): string {
    "qm" + " " + "importdisk" + " " + Dec(vmid) + " " + path + " " + storage
  }

  function SlotPrefix(hw: MappedHardware): string {
    if hw.controller == "ide" then "ide"
    else if hw.controller in ["virtio-scsi", "nvme"] then "scsi"
    else "virtio"
  }

  function VolumeRef(storage: string, id: string, i: nat): string { storage + ":vm-" + id + "-disk-" + Dec(i) }

  function AttachCommand(hw: MappedHardware, vmid: nat, storage: string, i: nat): string {
    "qm" + " " + "set" + " " + Dec(vmid) + " " + ("--" + SlotPrefix(hw) + Dec(i)) + " "
    + VolumeRef(storage, Dec(vmid), i)
  }

  function BootCommand(hw: MappedHardware, vmid: nat): string {
    "qm" + " " + "set" + " " + Dec(vmid) + " " + "--boot" + " " + ("order=" + SlotPrefix(hw) + "0")
  }

  function EfiValue(storage: string): string { storage + ":1,efitype=4m" + ",pre-enrolled-keys=1" }

  function EfiDiskCommand(vmid: nat, storage: string): string {
    "qm" + " " + "set" + " " + Dec(vmid) + " " + "--efidisk0" + " " + EfiValue(storage)
  }

  function PlaceholderPaths(vm: VMDefinition): seq<string> {
    seq(|vm.disks|, i requires 0 <= i => vm.name + "-" + Dec(i) + ".qcow2")
  }

  function Imports(vmid: nat, paths: seq<string>, storage: string): seq<string>
  {
    if paths == [] then [] else [ImportCommand(vmid, paths[0], storage)] + Imports(vmid, paths[1..], storage)
  }

  /** The attach commands for slots `k .. n`. */
  function Attaches(hw: MappedHardware, vmid: nat, storage: string, k: nat, n: nat): seq<string>
    requires k <= n
    decreases n - k
  {
    if k == n then [] else [AttachCommand(hw, vmid, storage, k)] + Attaches(hw, vmid, storage, k + 1, n)
  }

  function Boot(vm: VMDefinition, hw: MappedHardware, vmid: nat): seq<string> {
    if vm.disks != [] then [BootCommand(hw, vmid)] else []
  }

  function EfiDisk(hw: MappedHardware, vmid: nat, storage: string): seq<string> {
    if hw.firmwarePath.Some? then [EfiDiskCommand(vmid, storage)] else []
  }

  /** The command list as a function. */
  function CommandsFor(vm: VMDefinition, hw: MappedHardware, vmid: nat, paths: seq<string>,
                       storage: string, bridge: string, preserveMac: bool): seq<string>
  {
    [CreateCommand(vm, hw, vmid, bridge, preserveMac)]
    + Imports(vmid, paths, storage)
    + (Attaches(hw, vmid, storage, 0, |vm.disks|) + Boot(vm, hw, vmid))
    + EfiDisk(hw, vmid, storage)
  }

  // ---------------------------------------------------------------------
  // What the commands must say, in their own words
  // ---------------------------------------------------------------------

  /** The network card: model and bridge, and the colon form of the first card's
      address exactly when it is to be kept and is known. */
  predicate IsNetText(net: string, vm: VMDefinition, hw: MappedHardware, bridge: string, preserveMac: bool) {
    var start := (if hw.nic in ["e1000", "e1000e"] then "e1000" else "virtio") + ",bridge=" + bridge;
    if preserveMac && vm.nics != [] && vm.nics[0].macAddress != ""
    then net == start + ",macaddr=" + ColonForm(vm.nics[0].macAddress)
    else net == start
  }

  /** The slot with number i, by name. */
  predicate IsSlotName(slot: string, hw: MappedHardware, i: nat) {
    if hw.controller == "ide" then slot == "ide" + Dec(i)
    else if hw.controller == "virtio-scsi" || hw.controller == "nvme" then slot == "scsi" + Dec(i)
    else slot == "virtio" + Dec(i)
  }

  /** The volume with number i of a VM on a storage, by name. */
  function VolumeName(storage: string, vmid: nat, i: nat): string {
    storage + ":vm-" + Dec(vmid) + "-disk-" + Dec(i)
  }

  /** The texts of the commands after the first. */
  ghost predicate SaysTheRest(commands: seq<string>, vm: VMDefinition, hw: MappedHardware, vmid: nat,
                              paths: seq<string>, storage: string)
  {
    var n, m := |paths|, |vm.disks|;
    var boot := if m > 0 then 1 else 0;
    && |commands| == 1 + n + m + boot + (if hw.firmwarePath.Some? then 1 else 0)
    && (forall i | 0 <= i < n :: commands[1 + i] == "qm importdisk " + Dec(vmid) + " " + paths[i] + " " + storage)
    && (forall i, slot | 0 <= i < m && IsSlotName(slot, hw, i) ::
          commands[1 + n + i] == "qm set " + Dec(vmid) + " --" + slot + " " + VolumeName(storage, vmid, i))
    && (forall slot | m > 0 && IsSlotName(slot, hw, 0) ::
          commands[1 + n + m] == "qm set " + Dec(vmid) + " --boot order=" + slot)
    && (hw.firmwarePath.Some? ==>
          commands[|commands| - 1]
          == "qm set " + Dec(vmid) + " --efidisk0 " + storage + ":1,efitype=4m,pre-enrolled-keys=1")
  }

  lemma NetTextIff(net: string, vm: VMDefinition, hw: MappedHardware, bridge: string, preserveMac: bool)
    ensures IsNetText(net, vm, hw, bridge, preserveMac) <==> net == NicString(vm, hw, bridge, preserveMac)
  {
    if vm.nics != [] { MacNormalised(vm.nics[0].macAddress); }
    var start := NicModel(hw) + ",bridge=" + bridge;
    hide NicModel, ReplaceAll;
    assert start + "" == start;
    var mac := MacOf(vm, preserveMac);
    assert start + (",macaddr=" + mac) == start + ",macaddr=" + mac;
  }

  lemma SlotNameIff(slot: string, hw: MappedHardware, i: nat)
    ensures IsSlotName(slot, hw, i) <==> slot == SlotPrefix(hw) + Dec(i)
  {
    hide Dec;
  }

  lemma {:induction false} ImportAt(vmid: nat, paths: seq<string>, storage: string, i: nat)
    ensures |Imports(vmid, paths, storage)| == |paths|
    ensures i < |paths| ==> Imports(vmid, paths, storage)[i] == ImportCommand(vmid, paths[i], storage)
    decreases |paths|
  {
    hide ImportCommand;
    if paths != [] { ImportAt(vmid, paths[1..], storage, if i == 0 then 0 else i - 1); }
  }

  lemma {:induction false} AttachAt(hw: MappedHardware, vmid: nat, storage: string, k: nat, n: nat, i: nat)
    requires k <= n
    ensures |Attaches(hw, vmid, storage, k, n)| == n - k
    ensures k <= i < n ==> Attaches(hw, vmid, storage, k, n)[i - k] == AttachCommand(hw, vmid, storage, i)
    decreases n - k
  {
    hide AttachCommand;
    if k < n { AttachAt(hw, vmid, storage, k + 1, n, i); }
  }

  lemma ImportText(vmid: nat, path: string, storage: string)
    ensures ImportCommand(vmid, path, storage) == "qm importdisk " + Dec(vmid) + " " + path + " " + storage
  {
    hide Dec;
    assert "qm" + " " + "importdisk" + " " == "qm importdisk ";
  }

  lemma AttachText(hw: MappedHardware, vmid: nat, storage: string, i: nat, slot: string)
    requires IsSlotName(slot, hw, i)
    ensures AttachCommand(hw, vmid, storage, i)
         == "qm set " + Dec(vmid) + " --" + slot + " " + VolumeName(storage, vmid, i)
  {
    SlotNameIff(slot, hw, i);
    hide Dec, SlotPrefix, IsSlotName;
    var volume := VolumeRef(storage, Dec(vmid), i);
    assert volume == VolumeName(storage, vmid, i);
    hide VolumeRef, VolumeName;
    SetText(vmid, "--" + SlotPrefix(hw) + Dec(i), volume);
    assert "--" + SlotPrefix(hw) + Dec(i) == "--" + slot;
    assert "qm set " + Dec(vmid) + " " + ("--" + slot) + " " + volume
        == "qm set " + Dec(vmid) + (" " + "--") + slot + " " + volume;
    assert " " + "--" == " --";
  }

  lemma SetText(vmid: nat, option: string, value: string)
    ensures "qm" + " " + "set" + " " + Dec(vmid) + " " + option + " " + value
         == "qm set " + Dec(vmid) + " " + option + " " + value
  {
    hide Dec;
    assert "qm" + " " + "set" + " " == "qm set ";
  }

  lemma BootText(hw: MappedHardware, vmid: nat, slot: string)
    requires IsSlotName(slot, hw, 0)
    ensures BootCommand(hw, vmid) == "qm set " + Dec(vmid) + " --boot order=" + slot
  {
    assert Dec(0) == "0";
    SlotNameIff(slot, hw, 0);
    hide Dec, SlotPrefix, IsSlotName;
    SetText(vmid, "--boot", "order=" + SlotPrefix(hw) + "0");
    assert "order=" + SlotPrefix(hw) + "0" == "order=" + slot;
    BootWords("qm set " + Dec(vmid), slot);
  }

  lemma BootWords(front: string, slot: string)
    ensures front + " " + "--boot" + " " + ("order=" + slot) == front + " --boot order=" + slot
  {
    assert " " + "--boot" + " " + "order=" == " --boot order=";
    assert front + " " + "--boot" + " " + ("order=" + slot) == front + (" " + "--boot" + " " + "order=") + slot;
  }

  lemma EfiText(vmid: nat, storage: string)
    ensures EfiDiskCommand(vmid, storage)
         == "qm set " + Dec(vmid) + " --efidisk0 " + storage + ":1,efitype=4m,pre-enrolled-keys=1"
  {
    hide Dec;
    SetText(vmid, "--efidisk0", EfiValue(storage));
    assert ":1,efitype=4m" + ",pre-enrolled-keys=1" == ":1,efitype=4m,pre-enrolled-keys=1";
    assert EfiValue(storage) == storage + (":1,efitype=4m" + ",pre-enrolled-keys=1");
    assert " " + "--efidisk0" + " " == " --efidisk0 ";
    hide EfiValue;
    var front := "qm set " + Dec(vmid);
    assert front + " " + "--efidisk0" + " " == front + (" " + "--efidisk0" + " ");
  }

  lemma CommandsSay(vm: VMDefinition, hw: MappedHardware, vmid: nat, paths: seq<string>, storage: string,
                    bridge: string, preserveMac: bool)
    ensures SaysTheRest(CommandsFor(vm, hw, vmid, paths, storage, bridge, preserveMac), vm, hw, vmid, paths, storage)
  {
    hide CreateCommand, ImportCommand, AttachCommand, BootCommand, EfiDiskCommand, Imports, Attaches, IsSlotName, Dec;
    hide VolumeName, CommandsFor;
    var n, m := |paths|, |vm.disks|;
    var commands := CommandsFor(vm, hw, vmid, paths, storage, bridge, preserveMac);
    CommandsAt(vm, hw, vmid, paths, storage, bridge, preserveMac);
    forall i | 0 <= i < n
      ensures commands[1 + i] == "qm importdisk " + Dec(vmid) + " " + paths[i] + " " + storage
    {
      ImportText(vmid, paths[i], storage);
    }
    forall i, slot | 0 <= i < m && IsSlotName(slot, hw, i)
      ensures commands[1 + n + i] == "qm set " + Dec(vmid) + " --" + slot + " " + VolumeName(storage, vmid, i)
    {
      AttachText(hw, vmid, storage, i, slot);
    }
    forall slot | m > 0 && IsSlotName(slot, hw, 0)
      ensures commands[1 + n + m] == "qm set " + Dec(vmid) + " --boot order=" + slot
    {
      BootText(hw, vmid, slot);
    }
    EfiText(vmid, storage);
  }

  /** Where each command stands. */
  lemma CommandsAt(vm: VMDefinition, hw: MappedHardware, vmid: nat, paths: seq<string>, storage: string,
                   bridge: string, preserveMac: bool)
    ensures var commands := CommandsFor(vm, hw, vmid, paths, storage, bridge, preserveMac);
      var n, m := |paths|, |vm.disks|;
      && |commands| == 1 + n + m + (if m > 0 then 1 else 0) + (if hw.firmwarePath.Some? then 1 else 0)
      && (forall i | 0 <= i < n :: commands[1 + i] == ImportCommand(vmid, paths[i], storage))
      && (forall i | 0 <= i < m :: commands[1 + n + i] == AttachCommand(hw, vmid, storage, i))
      && (m > 0 ==> commands[1 + n + m] == BootCommand(hw, vmid))
      && (hw.firmwarePath.Some? ==> commands[|commands| - 1] == EfiDiskCommand(vmid, storage))
  {
    hide CreateCommand, ImportCommand, AttachCommand, BootCommand, EfiDiskCommand, Imports, Attaches;
    var n, m := |paths|, |vm.disks|;
    var imports, attaches := Imports(vmid, paths, storage), Attaches(hw, vmid, storage, 0, m);
    var commands := CommandsFor(vm, hw, vmid, paths, storage, bridge, preserveMac);
    ImportAt(vmid, paths, storage, 0);
    AttachAt(hw, vmid, storage, 0, m, 0);
    forall i | 0 <= i < n ensures commands[1 + i] == ImportCommand(vmid, paths[i], storage) {
      ImportAt(vmid, paths, storage, i);
      assert commands[1 + i] == imports[i];
    }
    forall i | 0 <= i < m ensures commands[1 + n + i] == AttachCommand(hw, vmid, storage, i) {
      AttachAt(hw, vmid, storage, 0, m, i);
      assert commands[1 + n + i] == attaches[i];
    }
  }

  method BuildNicString(vm: VMDefinition, hw: MappedHardware, bridge: string, preserveMac: bool) returns (nic: string)
    ensures nic == NicString(vm, hw, bridge, preserveMac)
  {
    var first := NicModel(hw) + ",bridge=" + bridge;
    var parts := [first];
    if preserveMac && vm.nics != [] && vm.nics[0].macAddress != "" {
      var mac := ReplaceAll(vm.nics[0].macAddress, "-", ":");
      parts := parts + ["macaddr=" + mac];
      assert mac != "" && mac == MacOf(vm, preserveMac);
      JoinTwo(",", first, "macaddr=" + mac);
      assert first + "," + ("macaddr=" + mac) == first + (",macaddr=" + mac);
    } else {
      assert MacOf(vm, preserveMac) == "" && first + "" == first;
    }
    return Join(",", parts);
  }

  lemma JoinTwo(sep: string, a: string, b: string)
    ensures Join(sep, [a, b]) == a + sep + b
  {
    assert [a, b][1..] == [b];
  }

  lemma OptionTexts()
    ensures "--name" + " " == "--name " && "--memory" + " " == "--memory " && "--cores" + " " == "--cores "
    ensures "--scsihw" + " " == "--scsihw " && "--net0" + " " == "--net0 "
    ensures "--cpu" + " " + "x86-64-v2-AES" == "--cpu x86-64-v2-AES" && "--machine" + " " + "q35" == "--machine q35"
    ensures "--bios" + " " + "ovmf" == "--bios ovmf" && "--bios" + " " + "seabios" == "--bios seabios"
  {
  }

  method BuildCreateCommand(vm: VMDefinition, hw: MappedHardware, vmid: nat, bridge: string, preserveMac: bool)
    returns (command: string)
    ensures command == CreateCommand(vm, hw, vmid, bridge, preserveMac)
  {
    hide Join, NicString;
    var parts := [QmCreate(vmid), "--name " + vm.name, "--memory " + Str(vm.memoryMb), "--cores " + Str(vm.vcpus),
                  "--cpu x86-64-v2-AES", "--machine q35"];
    parts := parts + ["--scsihw " + ScsiHw(hw)];
    if hw.firmwarePath.Some? {
      parts := parts + ["--bios ovmf"];
    } else {
      parts := parts + ["--bios seabios"];
    }
    var nic := BuildNicString(vm, hw, bridge, preserveMac);
    parts := parts + ["--net0 " + nic];
    OptionTexts();
    assert parts[1..] == Parts(CreateOptions(vm, hw, bridge, preserveMac));
    assert parts == [QmCreate(vmid)] + parts[1..];
    return Join(CONTINUATION, parts);
  }

  method BuildDiskAttachCommands(vm: VMDefinition, hw: MappedHardware, vmid: nat, storage: string)
    returns (commands: seq<string>)
    ensures commands == Attaches(hw, vmid, storage, 0, |vm.disks|) + Boot(vm, hw, vmid)
  {
    hide AttachCommand, BootCommand;
    commands := [];
    var i := 0;
    while i < |vm.disks|
      invariant 0 <= i <= |vm.disks|
      invariant commands + Attaches(hw, vmid, storage, i, |vm.disks|) == Attaches(hw, vmid, storage, 0, |vm.disks|)
    {
      var command := AttachCommand(hw, vmid, storage, i);
      assert commands + ([command] + Attaches(hw, vmid, storage, i + 1, |vm.disks|))
          == commands + [command] + Attaches(hw, vmid, storage, i + 1, |vm.disks|);
      commands := commands + [command];
      i := i + 1;
    }
    assert commands + [] == commands;
    if vm.disks != [] {
      commands := commands + [BootCommand(hw, vmid)];
    }
  }

  lemma PlaceholdersAre(vm: VMDefinition)
    ensures PlaceholderPaths(vm) == seq(|vm.disks|, i requires 0 <= i => vm.name + "-" + Dec(i) + ".qcow2")
  {
  }

  method GenerateProxmoxCommands(vm: VMDefinition, hw: MappedHardware, vmid: nat, diskPaths: Option<seq<string>>,
                                 storage: string, bridge: string, preserveMac: bool)
    returns (commands: seq<string>)
    ensures commands == CommandsFor(vm, hw, vmid, if diskPaths.Some? then diskPaths.value else PlaceholderPaths(vm),
                                    storage, bridge, preserveMac)
    ensures diskPaths.Some? ==> SaysTheRest(commands, vm, hw, vmid, diskPaths.value, storage)
    ensures diskPaths.None? ==>
      SaysTheRest(commands, vm, hw, vmid,
                  seq(|vm.disks|, i requires 0 <= i => vm.name + "-" + Dec(i) + ".qcow2"), storage)
  {
    hide SaysTheRest, Dec, ImportCommand, EfiDiskCommand, CreateCommand, AttachCommand, BootCommand, PlaceholderPaths;
    CommandsSay(vm, hw, vmid, if diskPaths.Some? then diskPaths.value else PlaceholderPaths(vm), storage, bridge,
                preserveMac);
    PlaceholdersAre(vm);
    var create := BuildCreateCommand(vm, hw, vmid, bridge, preserveMac);
    commands := [create];
    var paths := if diskPaths.Some? then diskPaths.value else PlaceholderPaths(vm);
    var i := 0;
    while i < |paths|
      invariant 0 <= i <= |paths|
      invariant commands + Imports(vmid, paths[i..], storage)
             == [CreateCommand(vm, hw, vmid, bridge, preserveMac)] + Imports(vmid, paths, storage)
    {
      assert paths[i..][1..] == paths[i + 1..];
      var command := ImportCommand(vmid, paths[i], storage);
      assert commands + ([command] + Imports(vmid, paths[i + 1..], storage))
          == commands + [command] + Imports(vmid, paths[i + 1..], storage);
      commands := commands + [command];
      i := i + 1;
    }
    assert commands + [] == commands;
    var attach := BuildDiskAttachCommands(vm, hw, vmid, storage);
    commands := commands + attach;
    assert commands + [] == commands;
    if hw.firmwarePath.Some? {
      commands := commands + [EfiDiskCommand(vmid, storage)];
    }
  }

  // ---------------------------------------------------------------------
  // Continued lines
  // ---------------------------------------------------------------------

  /** `cmd.replace(" \\\n  ", " ")` */
  function Flatten(command: string): string { ReplaceAll(command, CONTINUATION, " ") }

  predicate NoNewline(s: string) { forall i | 0 <= i < |s| :: s[i] != '\n' }

  lemma PinnedLater(x: string, u: string, v: string, rest: string)
    requires NoNewline(x) && NoNewline(u) && x != ""
    ensures !(u + "\n" + v <= x + (u + "\n" + v) + rest)
  {
    var p := u + "\n" + v;
    var s := x + p + rest;
    assert p[|u|] == '\n';
    assert s[|u|] == if |u| < |x| then x[|u|] else u[|u| - |x|];
  }

  /** A pattern with exactly one newline, `u` before it and `v` after it, is
      found only where the newline is. */
  lemma {:induction false} PinnedMatch(x: string, u: string, v: string, rest: string, r: string)
    requires NoNewline(x) && NoNewline(u) && NoNewline(v)
    ensures ReplaceAll(x + (u + "\n" + v) + rest, u + "\n" + v, r) == x + r + ReplaceAll(rest, u + "\n" + v, r)
    decreases |x|
  {
    var p := u + "\n" + v;
    var s := x + p + rest;
    if x == "" {
      assert s == p + rest;
      assert s[|p|..] == rest;
    } else {
      PinnedLater(x, u, v, rest);
      assert NoNewline(x[1..]);
      hide NoNewline;
      assert s[1..] == x[1..] + p + rest;
      PinnedMatch(x[1..], u, v, rest, r);
      assert x == [x[0]] + x[1..];
    }
  }

  lemma {:induction false} PinnedAbsent(x: string, p: string, r: string)
    requires NoNewline(x) && '\n' in p
    ensures ReplaceAll(x, p, r) == x
    decreases |x|
  {
    if x != "" {
      var i :| 0 <= i < |p| && p[i] == '\n';
      assert i < |x| ==> x[i] != p[i];
      PinnedAbsent(x[1..], p, r);
    }
  }

  predicate AllNoNewline(parts: seq<string>) { forall i | 0 <= i < |parts| :: NoNewline(parts[i]) }

  lemma JoinSplit(x: string, parts: seq<string>, a: string, p: string, b: string)
    requires |parts| >= 2
    ensures x + Join(a + p + b, parts) == (x + parts[0] + a) + p + (b + Join(a + p + b, parts[1..]))
  {
  }

  /** Replacing a separator with exactly one newline in joined parts gives the
      parts joined by the replacement, whatever else the parts contain. */
  lemma {:induction false} ReplaceInJoin(x: string, parts: seq<string>, a: string, u: string, v: string, b: string,
                                         r: string)
    requires AllNoNewline(parts) && NoNewline(x)
    requires NoNewline(a) && NoNewline(u) && NoNewline(v) && NoNewline(b)
    ensures ReplaceAll(x + Join(a + (u + "\n" + v) + b, parts), u + "\n" + v, r) == x + Join(a + r + b, parts)
    decreases |parts|
  {
    var p := u + "\n" + v;
    if |parts| <= 1 {
      assert p[|u|] == '\n';
      PinnedAbsent(x + Join(a + p + b, parts), p, r);
    } else {
      JoinSplit(x, parts, a, p, b);
      JoinSplit(x, parts, a, r, b);
      PinnedMatch(x + parts[0] + a, u, v, b + Join(a + p + b, parts[1..]), r);
      ReplaceInJoin(b, parts[1..], a, u, v, b, r);
    }
  }

  lemma EmptyFront(s: string, t: string)
    ensures "" + s == s && "" + t == t
  {
  }

  lemma FlattenJoin(parts: seq<string>)
    requires AllNoNewline(parts)
    ensures Flatten(Join(CONTINUATION, parts)) == Join(" ", parts)
  {
    assert CONTINUATION == "" + (" \\" + "\n" + "  ") + "";
    assert CONTINUATION == " \\" + "\n" + "  ";
    ReplaceInJoin("", parts, "", " \\", "  ", "", " ");
    assert "" + " " + "" == " ";
    EmptyFront(Join(CONTINUATION, parts), Join(" ", parts));
  }

  /** bash drops backslash-newline pairs from the script. */
  lemma ScriptJoin(parts: seq<string>)
    requires AllNoNewline(parts)
    ensures ReplaceAll(Join(CONTINUATION, parts), "\\\n", "") == Join("   ", parts)
  {
    assert CONTINUATION == " " + ("\\" + "\n" + "") + "  ";
    assert "\\\n" == "\\" + "\n" + "";
    ReplaceInJoin("", parts, " ", "\\", "", "  ", "");
    assert " " + "" + "  " == "   ";
    EmptyFront(Join(CONTINUATION, parts), Join("   ", parts));
  }
}
