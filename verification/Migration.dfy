/** The Proxmox side of the migration pipeline (vmfree/cli.py and
    vmfree/converter/disk.py): conversion, command generation, execution and
    the dry run. */
module Migration {
  import opened Text
  import opened PathNames
  import opened Model
  import opened Hardware
  import opened Proxmox
  import opened CommandLines
  import opened ProxmoxHost

  // ---------------------------------------------------------------------
  // One whole run of the generated commands
  // ---------------------------------------------------------------------

  predicate OptionNames(options: seq<(string, string)>) { forall i | 0 <= i < |options| :: IsOption(options[i].0) }

  lemma {:induction false} OptionArgvIsPairs(options: seq<(string, string)>)
    requires OptionNames(options)
    ensures OptionPairs(OptionArgv(options))
    decreases |options|
  {
    if options != [] {
      OptionArgvIsPairs(options[1..]);
      assert OptionArgv(options)[2..] == OptionArgv(options[1..]);
    }
  }

  predicate KeysDistinct(options: seq<(string, string)>) {
    forall i, j | 0 <= i < j < |options| :: options[i].0 != options[j].0
  }

  /** `qm create` stores every option under its name and touches no other entry. */
  lemma {:induction false} ConfigureStores(config: map<(string, string), string>, id: string,
                                           options: seq<(string, string)>)
    requires OptionNames(options) && KeysDistinct(options) && OptionPairs(OptionArgv(options))
    ensures var c := Configure(config, id, OptionArgv(options));
      && (forall i | 0 <= i < |options| :: (id, options[i].0[2..]) in c && c[(id, options[i].0[2..])] == options[i].1)
      && (forall key | key in config && (forall i | 0 <= i < |options| :: key != (id, options[i].0[2..])) ::
            key in c && c[key] == config[key])
    decreases |options|
  {
    if options != [] {
      var o, rest := options[0], options[1..];
      var c1 := config[(id, o.0[2..]) := o.1];
      assert OptionArgv(options)[2..] == OptionArgv(rest);
      assert Configure(config, id, OptionArgv(options)) == Configure(c1, id, OptionArgv(rest));
      ConfigureStores(c1, id, rest);
      forall i | 0 <= i < |rest| ensures rest[i].0[2..] != o.0[2..] {
        assert rest[i] == options[i + 1];
        assert rest[i].0 == "--" + rest[i].0[2..] && o.0 == "--" + o.0[2..];
      }
    }
  }

  function Created(h: Host, vm: VMDefinition, hw: MappedHardware, vmid: nat, bridge: string, preserveMac: bool): Host
    requires OptionPairs(OptionArgv(CreateOptions(vm, hw, bridge, preserveMac)))
  {
    h.(vms := h.vms + {Dec(vmid)},
       config := Configure(h.config, Dec(vmid), OptionArgv(CreateOptions(vm, hw, bridge, preserveMac))))
  }

  lemma CreateOptionsFit(vm: VMDefinition, hw: MappedHardware, bridge: string, preserveMac: bool)
    ensures OptionNames(CreateOptions(vm, hw, bridge, preserveMac))
    ensures OptionPairs(OptionArgv(CreateOptions(vm, hw, bridge, preserveMac)))
  {
    OptionArgvIsPairs(CreateOptions(vm, hw, bridge, preserveMac));
  }

  lemma CreateRuns(h: Host, vm: VMDefinition, hw: MappedHardware, vmid: nat, bridge: string, preserveMac: bool)
    requires Dec(vmid) !in h.vms && IsWord(vm.name) && IsWord(NicString(vm, hw, bridge, preserveMac))
    ensures OptionPairs(OptionArgv(CreateOptions(vm, hw, bridge, preserveMac)))
    ensures RunAll(h, [CreateCommand(vm, hw, vmid, bridge, preserveMac)])
         == (Created(h, vm, hw, vmid, bridge, preserveMac), true)
  {
    var argv := CreateArgv(vm, hw, vmid, bridge, preserveMac);
    CreateOptionsFit(vm, hw, bridge, preserveMac);
    CreateArgvIff(vm, hw, vmid, bridge, preserveMac);
    assert argv[3..] == OptionArgv(CreateOptions(vm, hw, bridge, preserveMac));
    assert Qm(h, argv) == Some(Created(h, vm, hw, vmid, bridge, preserveMac));
  }

  /** What a host must hold for the machine: every option has its own field of the
      machine or of the mapped hardware. */
  predicate Configured(config: map<(string, string), string>, id: string, vm: VMDefinition, hw: MappedHardware,
                       bridge: string, preserveMac: bool)
  {
    && (id, "name") in config && config[(id, "name")] == vm.name
    && (id, "memory") in config && config[(id, "memory")] == Str(vm.memoryMb)
    && (id, "cores") in config && config[(id, "cores")] == Str(vm.vcpus)
    && (id, "cpu") in config && config[(id, "cpu")] == "x86-64-v2-AES"
    && (id, "machine") in config && config[(id, "machine")] == "q35"
    && (id, "bios") in config && config[(id, "bios")] == (if hw.firmwarePath.Some? then "ovmf" else "seabios")
    && (id, "scsihw") in config
    && config[(id, "scsihw")] == (if hw.controller == "ide" then "lsi" else "virtio-scsi-single")
    && (id, "net0") in config && IsNetText(config[(id, "net0")], vm, hw, bridge, preserveMac)
  }

  /** The options that a configuration holds for a VM. */
  predicate Holds(config: map<(string, string), string>, id: string, options: seq<(string, string)>) {
    forall i | 0 <= i < |options| :: |options[i].0| > 2 && (id, options[i].0[2..]) in config
      && config[(id, options[i].0[2..])] == options[i].1
  }

  lemma OptionKeys()
    ensures "--name"[2..] == "name" && "--memory"[2..] == "memory" && "--cores"[2..] == "cores"
    ensures "--cpu"[2..] == "cpu" && "--machine"[2..] == "machine" && "--scsihw"[2..] == "scsihw"
    ensures "--bios"[2..] == "bios" && "--net0"[2..] == "net0"
  {
  }

  lemma HoldsIsConfigured(config: map<(string, string), string>, id: string, vm: VMDefinition, hw: MappedHardware,
                          bridge: string, preserveMac: bool)
    requires Holds(config, id, CreateOptions(vm, hw, bridge, preserveMac))
    ensures Configured(config, id, vm, hw, bridge, preserveMac)
  {
    OptionKeys();
    NetTextIff(NicString(vm, hw, bridge, preserveMac), vm, hw, bridge, preserveMac);
    var o := CreateOptions(vm, hw, bridge, preserveMac);
    hide Str, IsNetText, NicString;
    assert o[0].0 == "--name" && o[1].0 == "--memory" && o[2].0 == "--cores" && o[3].0 == "--cpu";
    assert o[4].0 == "--machine" && o[5].0 == "--scsihw" && o[6].0 == "--bios" && o[7].0 == "--net0";
  }

  /** No option of the new machine has the name of a slot, of the boot order or of
      the EFI volume. */
  lemma OptionIsNoSlot(vm: VMDefinition, hw: MappedHardware, bridge: string, preserveMac: bool)
    ensures forall j, i: nat | 0 <= j < |CreateOptions(vm, hw, bridge, preserveMac)| ::
      CreateOptions(vm, hw, bridge, preserveMac)[j].0[2..] != SlotKey(hw, i)
    ensures forall j | 0 <= j < |CreateOptions(vm, hw, bridge, preserveMac)| ::
      CreateOptions(vm, hw, bridge, preserveMac)[j].0[2..] !in ["boot", "efidisk0"]
  {
    OptionKeys();
    var o := CreateOptions(vm, hw, bridge, preserveMac);
    hide Str, NicString, Dec;
    forall i: nat ensures forall j | 0 <= j < 8 :: o[j].0[2..] != SlotKey(hw, i) {
      SlotKeyStarts(hw, i);
      assert o[0].0 == "--name" && o[1].0 == "--memory" && o[2].0 == "--cores" && o[3].0 == "--cpu";
      assert o[4].0 == "--machine" && o[5].0 == "--scsihw" && o[6].0 == "--bios" && o[7].0 == "--net0";
      hide SlotKey;
    }
  }

  lemma SlotKeyStarts(hw: MappedHardware, i: nat)
    ensures var key := SlotKey(hw, i); |key| > 0 && key[0] in "isv" && key != "scsihw"
  {
    var key, digits := SlotKey(hw, i), Dec(i);
    assert IsDigit(digits[0]);
    hide Dec;
    if SlotPrefix(hw) == "scsi" { assert key[4] == digits[0]; }
  }

  lemma OptionsDistinct(vm: VMDefinition, hw: MappedHardware, bridge: string, preserveMac: bool)
    ensures KeysDistinct(CreateOptions(vm, hw, bridge, preserveMac))
  {
    var o := CreateOptions(vm, hw, bridge, preserveMac);
    hide Str, NicString;
    assert o[0].0 == "--name" && o[1].0 == "--memory" && o[2].0 == "--cores" && o[3].0 == "--cpu";
    assert o[4].0 == "--machine" && o[5].0 == "--scsihw" && o[6].0 == "--bios" && o[7].0 == "--net0";
    assert "--memory"[3] == 'e' && "--machine"[3] == 'a' && "--cores"[3] == 'o' && "--cpu"[3] == 'p';
    assert "--name"[3] == 'a' && "--net0"[3] == 'e';
  }

  lemma CreatedHolds(h: Host, vm: VMDefinition, hw: MappedHardware, vmid: nat, bridge: string, preserveMac: bool)
    requires OptionPairs(OptionArgv(CreateOptions(vm, hw, bridge, preserveMac)))
    ensures Holds(Created(h, vm, hw, vmid, bridge, preserveMac).config, Dec(vmid),
                  CreateOptions(vm, hw, bridge, preserveMac))
  {
    CreateOptionsFit(vm, hw, bridge, preserveMac);
    OptionsDistinct(vm, hw, bridge, preserveMac);
    hide CreateOptions, Configure, Dec;
    ConfigureStores(h.config, Dec(vmid), CreateOptions(vm, hw, bridge, preserveMac));
  }

  /** What the commands need: an unused VM id, existing image files, and single
      words wherever the source interpolates text. */
  predicate Ready(h: Host, vm: VMDefinition, hw: MappedHardware, vmid: nat, paths: seq<string>,
                  storage: string, bridge: string, preserveMac: bool)
  {
    && Dec(vmid) !in h.vms && |paths| == |vm.disks|
    && IsWord(vm.name) && IsWord(NicString(vm, hw, bridge, preserveMac)) && IsWord(storage) && ':' !in storage
    && forall i | 0 <= i < |paths| :: IsWord(paths[i]) && paths[i] in h.images
  }

  /** Attaching leaves the options of the machine alone. */
  lemma AttachesHold(h: Host, vm: VMDefinition, hw: MappedHardware, vmid: nat, storage: string, bridge: string,
                     preserveMac: bool)
    requires Dec(vmid) in h.vms && IsWord(storage) && RefsTaken(h.volumes, storage, Dec(vmid), |vm.disks|)
    requires Holds(h.config, Dec(vmid), CreateOptions(vm, hw, bridge, preserveMac))
    ensures Holds(RunAll(h, Attaches(hw, vmid, storage, 0, |vm.disks|)).0.config, Dec(vmid),
                  CreateOptions(vm, hw, bridge, preserveMac))
  {
    hide CreateOptions, RunAll, Attaches, Dec, SlotKey, VolumeRef, RefsTaken, IsWord;
    OptionIsNoSlot(vm, hw, bridge, preserveMac);
    AttachesRun(h, hw, vmid, storage, 0, |vm.disks|);
  }

  /** So do the boot order and the EFI volume. */
  lemma FinishHolds(config: map<(string, string), string>, config': map<(string, string), string>, id: string,
                    vm: VMDefinition, hw: MappedHardware, bridge: string, preserveMac: bool)
    requires Holds(config, id, CreateOptions(vm, hw, bridge, preserveMac))
    requires forall key | key in config && key.1 != "boot" && key.1 != "efidisk0" ::
      key in config' && config'[key] == config[key]
    ensures Configured(config', id, vm, hw, bridge, preserveMac)
  {
    hide CreateOptions, Configured;
    OptionIsNoSlot(vm, hw, bridge, preserveMac);
    HoldsIsConfigured(config', id, vm, hw, bridge, preserveMac);
  }

  /** The host after create and import. */
  lemma ImportedRun(h: Host, vm: VMDefinition, hw: MappedHardware, vmid: nat, paths: seq<string>,
                    storage: string, bridge: string, preserveMac: bool) returns (h2: Host)
    requires Ready(h, vm, hw, vmid, paths, storage, bridge, preserveMac)
    ensures RunAll(h, [CreateCommand(vm, hw, vmid, bridge, preserveMac)] + Imports(vmid, paths, storage)) == (h2, true)
    ensures Dec(vmid) in h2.vms && RefsTaken(h2.volumes, storage, Dec(vmid), |paths|)
    ensures forall x | x in h.volumes :: x in h2.volumes && h2.volumes[x] == h.volumes[x]
    ensures RefsFree(h.volumes, storage, Dec(vmid), 0, |paths|) ==>
      (forall i | 0 <= i < |paths| :: h2.volumes[VolumeRef(storage, Dec(vmid), i)] == ImportOf(h.images[paths[i]]))
      && (VolumeRef(storage, Dec(vmid), |paths|) !in h.volumes ==>
            VolumeRef(storage, Dec(vmid), |paths|) !in h2.volumes)
    ensures Holds(h2.config, Dec(vmid), CreateOptions(vm, hw, bridge, preserveMac))
  {
    hide Dec, VolumeRef, CreateCommand, Imports, AfterImports, RunAll, IsWord, NicString, CreateOptions, Configure;
    hide Holds;
    var create := [CreateCommand(vm, hw, vmid, bridge, preserveMac)];
    CreateOptionsFit(vm, hw, bridge, preserveMac);
    CreatedHolds(h, vm, hw, vmid, bridge, preserveMac);
    CreateRuns(h, vm, hw, vmid, bridge, preserveMac);
    var h1 := Created(h, vm, hw, vmid, bridge, preserveMac);
    RunAppend(h, create, Imports(vmid, paths, storage));
    ImportsRun(h1, vmid, paths, storage);
    h2 := AfterImports(h1, vmid, paths, storage);
    ImportsKeep(h1, vmid, paths, storage, 0);
    if RefsFree(h.volumes, storage, Dec(vmid), 0, |paths|) {
      ImportsInOrder(h1, vmid, paths, storage, 0);
      forall i | 0 <= i < |paths|
        ensures h2.volumes[VolumeRef(storage, Dec(vmid), i)] == ImportOf(h.images[paths[i]])
      {
        assert 0 + i == i;
      }
    }
  }

  /** The host after create, import and attach. */
  lemma AttachedRun(h: Host, vm: VMDefinition, hw: MappedHardware, vmid: nat, paths: seq<string>,
                    storage: string, bridge: string, preserveMac: bool) returns (h3: Host)
    requires Ready(h, vm, hw, vmid, paths, storage, bridge, preserveMac)
    ensures RunAll(h, [CreateCommand(vm, hw, vmid, bridge, preserveMac)] + Imports(vmid, paths, storage)
                      + Attaches(hw, vmid, storage, 0, |vm.disks|)) == (h3, true)
    ensures Dec(vmid) in h3.vms && RefsTaken(h3.volumes, storage, Dec(vmid), |paths|)
    ensures forall x | x in h.volumes :: x in h3.volumes && h3.volumes[x] == h.volumes[x]
    ensures forall i | 0 <= i < |paths| :: (Dec(vmid), SlotKey(hw, i)) in h3.config
              && h3.config[(Dec(vmid), SlotKey(hw, i))] == VolumeRef(storage, Dec(vmid), i)
    ensures RefsFree(h.volumes, storage, Dec(vmid), 0, |paths|) ==>
      (forall i | 0 <= i < |paths| :: h3.volumes[VolumeRef(storage, Dec(vmid), i)] == ImportOf(h.images[paths[i]]))
      && (VolumeRef(storage, Dec(vmid), |paths|) !in h.volumes ==>
            VolumeRef(storage, Dec(vmid), |paths|) !in h3.volumes)
    ensures Holds(h3.config, Dec(vmid), CreateOptions(vm, hw, bridge, preserveMac))
  {
    hide Dec, VolumeRef, SlotKey, CreateCommand, Imports, Attaches, RunAll, IsWord, NicString, CreateOptions, Holds;
    hide RefsFree, RefsTaken;
    var before := [CreateCommand(vm, hw, vmid, bridge, preserveMac)] + Imports(vmid, paths, storage);
    var h2 := ImportedRun(h, vm, hw, vmid, paths, storage, bridge, preserveMac);
    RunAppend(h, before, Attaches(hw, vmid, storage, 0, |vm.disks|));
    AttachesRun(h2, hw, vmid, storage, 0, |vm.disks|);
    AttachesHold(h2, vm, hw, vmid, storage, bridge, preserveMac);
    h3 := RunAll(h2, Attaches(hw, vmid, storage, 0, |vm.disks|)).0;
  }

  lemma BootRuns(h: Host, vm: VMDefinition, hw: MappedHardware, vmid: nat)
    requires Dec(vmid) in h.vms
    ensures RunAll(h, Boot(vm, hw, vmid)) ==
      (if vm.disks == [] then h
       else h.(config := h.config[(Dec(vmid), "boot") := "order=" + SlotPrefix(hw) + "0"]), true)
  {
    BootIsArgv(hw, vmid);
  }

  lemma EfiDiskRuns(h: Host, hw: MappedHardware, vmid: nat, storage: string)
    requires Dec(vmid) in h.vms && IsWord(storage) && ':' !in storage
    ensures var ref := VolumeRef(storage, Dec(vmid), LowestFree(h.volumes, storage, Dec(vmid)));
      RunAll(h, EfiDisk(hw, vmid, storage)) ==
        (if hw.firmwarePath.None? then h
         else h.(volumes := h.volumes[ref := EfiVars], config := h.config[(Dec(vmid), "efidisk0") := ref]), true)
  {
    hide Dec, IsWord, LowestFree;
    EfiDiskIsArgv(vmid, storage);
    assert EfiValue(storage) == storage + [':'] + ("1,efitype=4m" + ",pre-enrolled-keys=1");
    IndexOfAfter(storage, "1,efitype=4m" + ",pre-enrolled-keys=1", ':');
    assert EfiValue(storage)[..|storage|] == storage;
  }

  lemma Regroup(a: seq<string>, b: seq<string>, c: seq<string>, d: seq<string>, e: seq<string>)
    ensures a + b + (c + d) + e == a + b + c + d + e
  {
  }

  /** Main theorem on generated commands. On a host where they can run at all,
      they all succeed; slot i always refers to disk volume i, which exists; the
      machine boots from the first slot; the EFI volume is none of the attached
      volumes; and when the volume names were free before the run, volume i was
      imported from path i and the EFI volume gets index n. */
  lemma CommandsBuildTheVm(h: Host, vm: VMDefinition, hw: MappedHardware, vmid: nat, paths: seq<string>,
                           storage: string, bridge: string, preserveMac: bool) returns (h': Host)
    requires Ready(h, vm, hw, vmid, paths, storage, bridge, preserveMac)
    ensures RunAll(h, CommandsFor(vm, hw, vmid, paths, storage, bridge, preserveMac)) == (h', true)
    ensures forall x | x in h.volumes :: x in h'.volumes && h'.volumes[x] == h.volumes[x]
    ensures forall i | 0 <= i < |paths| ::
      && (Dec(vmid), SlotKey(hw, i)) in h'.config
      && h'.config[(Dec(vmid), SlotKey(hw, i))] == VolumeRef(storage, Dec(vmid), i)
      && VolumeRef(storage, Dec(vmid), i) in h'.volumes
    ensures paths != [] ==>
      (Dec(vmid), "boot") in h'.config && h'.config[(Dec(vmid), "boot")] == "order=" + SlotKey(hw, 0)
    ensures hw.firmwarePath.Some? ==>
      && (Dec(vmid), "efidisk0") in h'.config && h'.config[(Dec(vmid), "efidisk0")] in h'.volumes
      && h'.volumes[h'.config[(Dec(vmid), "efidisk0")]] == EfiVars
      && (forall i | 0 <= i < |paths| :: h'.config[(Dec(vmid), "efidisk0")] != VolumeRef(storage, Dec(vmid), i))
    ensures RefsFree(h.volumes, storage, Dec(vmid), 0, |paths|) ==>
      (forall i | 0 <= i < |paths| :: h'.volumes[VolumeRef(storage, Dec(vmid), i)] == ImportOf(h.images[paths[i]]))
    ensures hw.firmwarePath.Some? && RefsFree(h.volumes, storage, Dec(vmid), 0, |paths| + 1) ==>
      h'.config[(Dec(vmid), "efidisk0")] == VolumeRef(storage, Dec(vmid), |paths|)
    ensures Configured(h'.config, Dec(vmid), vm, hw, bridge, preserveMac)
    ensures forall i, slot | 0 <= i < |paths| && IsSlotName(slot, hw, i) ::
      (Dec(vmid), slot) in h'.config && h'.config[(Dec(vmid), slot)] == VolumeName(storage, vmid, i)
  {
    hide Configured, IsSlotName, VolumeName, Holds, CreateOptions, SlotKey, VolumeRef;
    var create, imports := [CreateCommand(vm, hw, vmid, bridge, preserveMac)], Imports(vmid, paths, storage);
    var attaches := Attaches(hw, vmid, storage, 0, |vm.disks|);
    var h3 := AttachedRun(h, vm, hw, vmid, paths, storage, bridge, preserveMac);
    Regroup(create, imports, attaches, Boot(vm, hw, vmid), EfiDisk(hw, vmid, storage));
    RunAppend(h, create + imports + attaches, Boot(vm, hw, vmid));
    BootRuns(h3, vm, hw, vmid);
    RunAppend(h, create + imports + attaches + Boot(vm, hw, vmid), EfiDisk(hw, vmid, storage));
    h' := Finish(h3, vm, hw, vmid, storage);
    FinishHolds(h3.config, h'.config, Dec(vmid), vm, hw, bridge, preserveMac);
    forall i: nat ensures SlotKey(hw, i) != "boot" && SlotKey(hw, i) != "efidisk0" { SlotIsNotSpecial(hw, i); }
    SlotsNamed(hw, vmid, storage);
    if RefsFree(h.volumes, storage, Dec(vmid), 0, |paths| + 1) {
      assert VolumeRef(storage, Dec(vmid), |paths|) !in h.volumes;
      assert RefsFree(h.volumes, storage, Dec(vmid), 0, |paths|);
    }
  }

  lemma SlotsNamed(hw: MappedHardware, vmid: nat, storage: string)
    ensures forall i: nat, slot | IsSlotName(slot, hw, i) :: slot == SlotKey(hw, i)
    ensures forall i: nat :: VolumeName(storage, vmid, i) == VolumeRef(storage, Dec(vmid), i)
  {
    hide IsSlotName;
    forall i: nat, slot | IsSlotName(slot, hw, i) ensures slot == SlotKey(hw, i) { SlotNameIff(slot, hw, i); }
  }

  /** Boot order and EFI volume leave the attached slots and all volumes alone. */
  lemma Finish(h: Host, vm: VMDefinition, hw: MappedHardware, vmid: nat, storage: string) returns (h': Host)
    requires Dec(vmid) in h.vms && IsWord(storage) && ':' !in storage
    requires RefsTaken(h.volumes, storage, Dec(vmid), |vm.disks|)
    ensures RunAll(RunAll(h, Boot(vm, hw, vmid)).0, EfiDisk(hw, vmid, storage)) == (h', true)
    ensures forall x | x in h.volumes :: x in h'.volumes && h'.volumes[x] == h.volumes[x]
    ensures forall key | key in h.config && key.1 != "boot" && key.1 != "efidisk0" ::
      key in h'.config && h'.config[key] == h.config[key]
    ensures vm.disks != [] ==>
      (Dec(vmid), "boot") in h'.config && h'.config[(Dec(vmid), "boot")] == "order=" + SlotKey(hw, 0)
    ensures hw.firmwarePath.Some? ==>
      && (Dec(vmid), "efidisk0") in h'.config && h'.config[(Dec(vmid), "efidisk0")] in h'.volumes
      && h'.volumes[h'.config[(Dec(vmid), "efidisk0")]] == EfiVars
      && (forall i | 0 <= i < |vm.disks| :: h'.config[(Dec(vmid), "efidisk0")] != VolumeRef(storage, Dec(vmid), i))
      && (VolumeRef(storage, Dec(vmid), |vm.disks|) !in h.volumes ==>
            h'.config[(Dec(vmid), "efidisk0")] == VolumeRef(storage, Dec(vmid), |vm.disks|))
  {
    hide VolumeRef, LowestFree, EfiDisk, Boot, RunAll, IsWord;
    assert Dec(0) == "0";
    hide Dec, SlotPrefix;
    BootRuns(h, vm, hw, vmid);
    var h1 := RunAll(h, Boot(vm, hw, vmid)).0;
    EfiDiskRuns(h1, hw, vmid, storage);
    h' := RunAll(h1, EfiDisk(hw, vmid, storage)).0;
    assert "order=" + SlotKey(hw, 0) == "order=" + SlotPrefix(hw) + "0";
    LowestFreeIsFree(h1.volumes, storage, Dec(vmid));
  }

  // ---------------------------------------------------------------------
  // When the guessed volume names are right
  // ---------------------------------------------------------------------

  /** Slot i refers to the volume that this run imported from path i. */
  predicate SlotsRight(h': Host, hw: MappedHardware, vmid: nat, images: seq<Image>) {
    forall i | 0 <= i < |images| ::
      && (Dec(vmid), SlotKey(hw, i)) in h'.config
      && h'.config[(Dec(vmid), SlotKey(hw, i))] in h'.volumes
      && h'.volumes[h'.config[(Dec(vmid), SlotKey(hw, i))]] == ImportOf(images[i])
  }

  function ImagesAt(h: Host, paths: seq<string>): seq<Image>
    requires forall i | 0 <= i < |paths| :: paths[i] in h.images
  {
    seq(|paths|, i requires 0 <= i < |paths| => h.images[paths[i]])
  }

  /** All slots get the right image if and only if no volume with one of the
      guessed names was left on the storage. The run succeeds either way. */
  lemma {:induction false} SlotsRightIff(h: Host, vm: VMDefinition, hw: MappedHardware, vmid: nat, paths: seq<string>,
                                         storage: string, bridge: string, preserveMac: bool)
    requires Ready(h, vm, hw, vmid, paths, storage, bridge, preserveMac)
    requires forall x | x in h.volumes :: h.volumes[x].Existing?
    ensures var (h', ok) := RunAll(h, CommandsFor(vm, hw, vmid, paths, storage, bridge, preserveMac));
      ok && (SlotsRight(h', hw, vmid, ImagesAt(h, paths)) <==> RefsFree(h.volumes, storage, Dec(vmid), 0, |paths|))
  {
    var h' := CommandsBuildTheVm(h, vm, hw, vmid, paths, storage, bridge, preserveMac);
    if SlotsRight(h', hw, vmid, ImagesAt(h, paths)) {
      forall i | 0 <= i < |paths| ensures VolumeRef(storage, Dec(vmid), i) !in h.volumes {
        assert h'.volumes[h'.config[(Dec(vmid), SlotKey(hw, i))]] == ImportOf(ImagesAt(h, paths)[i]);
      }
    }
  }

  const ONE_DISK := VM("web", "", 1024, 1, BIOS, [Disk("web.vmdk", "scsi0", 0, 0, Unknown, true)], [], "", "svga", 0)

  /** A host on which an earlier machine 100 left its disk behind. */
  function LeftoverHost(): Host {
    Host({}, map[VolumeRef("local", "100", 0) := Existing(1)], map[], map["web.qcow2" := Converted("web.vmdk")])
  }

  lemma OneHundred()
    ensures Dec(100) == "100"
  {
    assert Dec(1) == "1" && Dec(10) == "10";
  }

  lemma NicWords()
    ensures IsWord("e1000") && IsWord("virtio") && IsWord(",bridge=") && IsWord("vmbr0")
  {
  }

  lemma OneDiskNic(hw: MappedHardware)
    requires hw == StageTwo(ONE_DISK, false)
    ensures IsWord(NicString(ONE_DISK, hw, "vmbr0", false))
  {
    hide IsWord;
    NicWords();
    assert NicModel(hw) == "e1000" || NicModel(hw) == "virtio";
    var first := NicModel(hw) + ",bridge=" + "vmbr0";
    hide NicModel, StageTwo;
    assert first + "" == first;
    WordConcat(NicModel(hw), ",bridge=");
    WordConcat(NicModel(hw) + ",bridge=", "vmbr0");
  }

  lemma OneDiskReady(hw: MappedHardware)
    requires hw == StageTwo(ONE_DISK, false)
    ensures Ready(LeftoverHost(), ONE_DISK, hw, 100, ["web.qcow2"], "local", "vmbr0", false)
  {
    hide Dec, VolumeRef, NicString, StageTwo;
    OneDiskNic(hw);
    assert IsWord("web") && IsWord("local") && IsWord("web.qcow2");
  }

  /** There every generated command succeeds, and the slot of the new machine
      holds the disk of the old one. */
  lemma LeftoverAttached()
    ensures var hw := StageTwo(ONE_DISK, false);
      var (h', ok) := RunAll(LeftoverHost(), CommandsFor(ONE_DISK, hw, 100, ["web.qcow2"], "local", "vmbr0", false));
      && ok && (Dec(100), SlotKey(hw, 0)) in h'.config
      && h'.config[(Dec(100), SlotKey(hw, 0))] in h'.volumes
      && h'.volumes[h'.config[(Dec(100), SlotKey(hw, 0))]] == Existing(1)
  {
    var hw := StageTwo(ONE_DISK, false);
    OneDiskReady(hw);
    OneHundred();
    var h := LeftoverHost();
    assert VolumeRef("local", Dec(100), 0) in h.volumes;
    hide Ready, StageTwo, RunAll, CommandsFor, SlotKey, Dec, VolumeRef, RefsFree;
    var h' := CommandsBuildTheVm(h, ONE_DISK, hw, 100, ["web.qcow2"], "local", "vmbr0", false);
  }

  // ---------------------------------------------------------------------
  // Conversion
  // ---------------------------------------------------------------------

  /** How one `qemu-img convert` ends. */
  datatype ConvertOutcome = ConvertOk | ConvertFailed(stderr: string) | ConvertMissing

  /** The file system around the pipeline: which sources exist, the output
      files written so far, and the converter runs. */
  class Workspace {
    const sourceExists: string -> bool
    const outcome: nat -> ConvertOutcome
    var images: map<string, Image>
    var runs: nat

    constructor (sourceExists: string -> bool, outcome: nat -> ConvertOutcome, images: map<string, Image>)
      ensures this.sourceExists == sourceExists && this.outcome == outcome && this.images == images && runs == 0
    {
      this.sourceExists, this.outcome, this.images, runs := sourceExists, outcome, images, 0;
    }

    /** `convert_disk` into an existing output directory. A failed conversion
        leaves an output file that is of no use. */
    method ConvertDisk(source: string, outdir: string, f: DiskFormat) returns (r: ConversionResult)
      modifies this
      ensures r.success <==> r.errors == []
      ensures r.success <==> sourceExists(source) && outcome(old(runs)).ConvertOk?
      ensures r.success ==> r.outputPath == Some(OutputPath(outdir, source, f))
                            && images == old(images)[OutputPath(outdir, source, f) := Converted(source)]
      ensures !sourceExists(source) ==>
        r.outputPath == None && r.errors == ["Source VMDK not found: " + ToString(Parse(source))]
        && images == old(images)
      ensures sourceExists(source) && outcome(old(runs)).ConvertMissing? ==>
        r.outputPath == None && r.errors == ["qemu-img not found on PATH"] && images == old(images)
      ensures sourceExists(source) && outcome(old(runs)).ConvertFailed? ==>
        r.outputPath == Some(OutputPath(outdir, source, f))
        && r.errors == ["qemu-img convert failed: " + Strip(outcome(old(runs)).stderr)]
        && images == old(images)[OutputPath(outdir, source, f) := Broken]
      ensures runs == old(runs) + if sourceExists(source) then 1 else 0
    {
      if !sourceExists(source) {
        return ConversionResult(false, None, ["Source VMDK not found: " + ToString(Parse(source))]);
      }
      var output := OutputPath(outdir, source, f);
      var o := outcome(runs);
      runs := runs + 1;
      match o {
        case ConvertMissing =>
          return ConversionResult(false, None, ["qemu-img not found on PATH"]);
        case ConvertFailed(stderr) =>
          images := images[output := Broken];
          return ConversionResult(false, Some(output), ["qemu-img convert failed: " + Strip(stderr)]);
        case ConvertOk =>
          images := images[output := Converted(source)];
          return ConversionResult(true, Some(output), []);
      }
    }

    /** The first `n` sources exist, and as many converter runs from the k-th on
        succeed. */
    predicate Convertible(disks: seq<DiskDefinition>, n: nat, k: nat)
      requires n <= |disks|
    {
      forall i: nat | i < n :: Converts(disks[i], k + i)
    }

    /** The source exists and converter run `k` succeeds. */
    predicate Converts(d: DiskDefinition, k: nat) { sourceExists(d.path) && outcome(k).ConvertOk? }

    lemma NoConversion(disks: seq<DiskDefinition>, k: nat)
      ensures Convertible(disks, 0, k)
    {
    }

    lemma OneConversion(disks: seq<DiskDefinition>, n: nat, k: nat)
      requires n < |disks| && Convertible(disks, n, k)
      ensures Convertible(disks, n + 1, k) <==> Converts(disks[n], k + n)
      ensures Convertible(disks, |disks|, k) ==> Convertible(disks, n + 1, k)
    {
      hide Converts;
    }

    /** Stage 5: convert the disks in order. It stops at the first failure, with the
        disks before it converted and nothing behind it touched. */
    method ConvertAll(disks: seq<DiskDefinition>, outdir: string, f: DiskFormat) returns (ok: bool, paths: seq<string>)
      modifies this
      ensures ok ==> paths == OutputPaths(disks, outdir, f) && images == WrittenBy(old(images), disks, outdir, f)
      ensures ok <==> Convertible(disks, |disks|, old(runs))
      ensures |paths| <= |disks| && (ok <==> |paths| == |disks|)
      ensures !ok ==>
        var n := |paths|;
        var before, k := WrittenBy(old(images), disks[..n], outdir, f), old(runs) + n;
        && paths == OutputPaths(disks[..n], outdir, f) && Convertible(disks, n, old(runs))
        && if !sourceExists(disks[n].path) then images == before && runs == k
           else if outcome(k).ConvertMissing? then images == before && runs == k + 1
           else outcome(k).ConvertFailed? && runs == k + 1
                && images == before[OutputPath(outdir, disks[n].path, f) := Broken]
    {
      hide OutputPath, Convertible;
      NoConversion(disks, runs);
      paths := [];
      var i := 0;
      while i < |disks|
        invariant 0 <= i <= |disks| && runs == old(runs) + i && Convertible(disks, i, old(runs))
        invariant paths == OutputPaths(disks[..i], outdir, f)
        invariant images == WrittenBy(old(images), disks[..i], outdir, f)
      {
        WrittenSnoc(old(images), disks[..i], disks[i], outdir, f);
        assert disks[..i + 1] == disks[..i] + [disks[i]];
        OneConversion(disks, i, old(runs));
        var r := ConvertDisk(disks[i].path, outdir, f);
        if !r.success {
          return false, paths;
        }
        if r.outputPath.Some? {
          paths := paths + [r.outputPath.value];
        }
        i := i + 1;
      }
      assert disks[..i] == disks;
      return true, paths;
    }
  }

  lemma {:induction false} WrittenSnoc(images: map<string, Image>, disks: seq<DiskDefinition>, last: DiskDefinition,
                                       outdir: string, f: DiskFormat)
    ensures WrittenBy(images, disks + [last], outdir, f)
         == WrittenBy(images, disks, outdir, f)[OutputPath(outdir, last.path, f) := Converted(last.path)]
    decreases |disks|
  {
    hide OutputPath;
    if disks == [] {
      assert ([] + [last])[1..] == [];
    } else {
      assert (disks + [last])[1..] == disks[1..] + [last];
      WrittenSnoc(images[OutputPath(outdir, disks[0].path, f) := Converted(disks[0].path)], disks[1..], last, outdir,
                  f);
    }
  }

  function OutputPaths(disks: seq<DiskDefinition>, outdir: string, f: DiskFormat): seq<string> {
    seq(|disks|, i requires 0 <= i < |disks| => OutputPath(outdir, disks[i].path, f))
  }

  function WrittenBy(images: map<string, Image>, disks: seq<DiskDefinition>, outdir: string, f: DiskFormat)
    : map<string, Image>
    decreases |disks|
  {
    if disks == [] then images
    else WrittenBy(images[OutputPath(outdir, disks[0].path, f) := Converted(disks[0].path)], disks[1..], outdir, f)
  }

  predicate StemsTell(disks: seq<DiskDefinition>) {
    forall i, j | 0 <= i < j < |disks| && Stem(disks[i].path) == Stem(disks[j].path) :: disks[i].path == disks[j].path
  }

  /** Which source an output file ends up with: the last disk with that stem. */
  lemma {:induction false} WrittenLast(images: map<string, Image>, disks: seq<DiskDefinition>, outdir: string,
                                       f: DiskFormat, i: nat)
    requires i < |disks|
    ensures var p := OutputPath(outdir, disks[i].path, f); var w := WrittenBy(images, disks, outdir, f);
      && p in w
      && ((forall j | i < j < |disks| :: Stem(disks[j].path) != Stem(disks[i].path)) ==>
            w[p] == Converted(disks[i].path))
    decreases |disks|
  {
    hide OutputPath, Stem;
    var p0 := OutputPath(outdir, disks[0].path, f);
    var images1 := images[p0 := Converted(disks[0].path)];
    if i > 0 {
      assert disks[1..][i - 1] == disks[i];
      WrittenLast(images1, disks[1..], outdir, f, i - 1);
      if forall j | i < j < |disks| :: Stem(disks[j].path) != Stem(disks[i].path) {
        assert forall j | i - 1 < j < |disks[1..]| :: disks[1..][j] == disks[j + 1];
      }
    } else {
      WrittenKeeps(images1, disks[1..], outdir, f, p0);
      if forall j | 0 < j < |disks| :: Stem(disks[j].path) != Stem(disks[0].path) {
        forall j | 0 <= j < |disks[1..]| ensures OutputPath(outdir, disks[1..][j].path, f) != p0 {
          SameOutputIff(outdir, disks[j + 1].path, disks[0].path, f);
        }
      }
    }
  }

  lemma {:induction false} WrittenKeeps(images: map<string, Image>, disks: seq<DiskDefinition>, outdir: string,
                                        f: DiskFormat, p: string)
    requires p in images
    ensures p in WrittenBy(images, disks, outdir, f)
    ensures (forall j | 0 <= j < |disks| :: OutputPath(outdir, disks[j].path, f) != p) ==>
      WrittenBy(images, disks, outdir, f)[p] == images[p]
    decreases |disks|
  {
    if disks != [] {
      var images1 := images[OutputPath(outdir, disks[0].path, f) := Converted(disks[0].path)];
      WrittenKeeps(images1, disks[1..], outdir, f, p);
      assert forall j | 0 <= j < |disks[1..]| :: disks[1..][j] == disks[j + 1];
    }
  }

  /** The last index from `i` on with the same stem. */
  lemma {:induction false} LastWithStem(disks: seq<DiskDefinition>, i: nat) returns (j: nat)
    requires i < |disks|
    ensures i <= j < |disks| && Stem(disks[j].path) == Stem(disks[i].path)
    ensures forall k | j < k < |disks| :: Stem(disks[k].path) != Stem(disks[i].path)
    decreases |disks| - i
  {
    j := i;
    if exists k | i < k < |disks| :: Stem(disks[k].path) == Stem(disks[i].path) {
      var k :| i < k < |disks| && Stem(disks[k].path) == Stem(disks[i].path);
      j := LastWithStem(disks, k);
    }
  }

  /** Every output file holds the disk it was meant for exactly when disks with
      equal stems are the same file: others overwrite each other's output. */
  lemma OutputsRightIff(images: map<string, Image>, disks: seq<DiskDefinition>, outdir: string, f: DiskFormat)
    ensures var w := WrittenBy(images, disks, outdir, f);
      && (forall i | 0 <= i < |disks| :: OutputPath(outdir, disks[i].path, f) in w)
      && ((forall i | 0 <= i < |disks| :: w[OutputPath(outdir, disks[i].path, f)] == Converted(disks[i].path))
          <==> StemsTell(disks))
  {
    var w := WrittenBy(images, disks, outdir, f);
    forall i | 0 <= i < |disks|
      ensures OutputPath(outdir, disks[i].path, f) in w
      ensures StemsTell(disks) ==> w[OutputPath(outdir, disks[i].path, f)] == Converted(disks[i].path)
    {
      WrittenLast(images, disks, outdir, f, i);
      var j := LastWithStem(disks, i);
      WrittenLast(images, disks, outdir, f, j);
      SameOutputIff(outdir, disks[i].path, disks[j].path, f);
    }
    forall i, j | 0 <= i < j < |disks| && Stem(disks[i].path) == Stem(disks[j].path)
      ensures OutputPath(outdir, disks[i].path, f) == OutputPath(outdir, disks[j].path, f)
    {
      SameOutputIff(outdir, disks[i].path, disks[j].path, f);
    }
  }

  lemma SecondOverwrites(a: DiskDefinition, b: DiskDefinition, outdir: string, f: DiskFormat)
    requires Stem(a.path) == Stem(b.path)
    ensures var p, w := OutputPath(outdir, a.path, f), WrittenBy(map[], [a, b], outdir, f);
      p in w && w[p] == Converted(b.path)
  {
    hide Stem, OutputPath;
    SameOutputIff(outdir, a.path, b.path, f);
    WrittenLast(map[], [a, b], outdir, f, 1);
  }

  /** Two disks of the same name in different directories: the first output is
      overwritten by the second disk. */
  lemma StemsCollide(a: DiskDefinition, b: DiskDefinition)
    requires a.path == "a/data.vmdk" && b.path == "b/data.vmdk"
    ensures var p, w := OutputPath("out", a.path, Qcow2), WrittenBy(map[], [a, b], "out", Qcow2);
      p in w && w[p] == Converted("b/data.vmdk")
  {
    assert "a" + "/" + "data.vmdk" == "a/data.vmdk" && "b" + "/" + "data.vmdk" == "b/data.vmdk";
    StemBehind("a", "data.vmdk");
    StemBehind("b", "data.vmdk");
    hide Stem, OutputPath, WrittenBy, StemOfName;
    SecondOverwrites(a, b, "out", Qcow2);
  }

  // ---------------------------------------------------------------------
  // End to end
  // ---------------------------------------------------------------------

  /** The host once the converted images lie on it. */
  function Converting(h: Host, disks: seq<DiskDefinition>, outdir: string, f: DiskFormat): Host {
    h.(images := WrittenBy(h.images, disks, outdir, f))
  }

  function Conversions(disks: seq<DiskDefinition>): seq<Image> {
    seq(|disks|, i requires 0 <= i < |disks| => Converted(disks[i].path))
  }

  /** A migration with `--execute`: all commands succeed, and every slot holds the
      conversion of its own source disk if and only if no volume with one of the
      guessed names was left on the storage and disks with equal stems are the same
      file. */
  lemma MigrationRightIff(h: Host, vm: VMDefinition, hw: MappedHardware, vmid: nat, outdir: string, f: DiskFormat,
                          storage: string, bridge: string, preserveMac: bool)
    requires Ready(Converting(h, vm.disks, outdir, f), vm, hw, vmid, OutputPaths(vm.disks, outdir, f),
                   storage, bridge, preserveMac)
    requires forall x | x in h.volumes :: h.volumes[x].Existing?
    ensures var (h', ok) := RunAll(Converting(h, vm.disks, outdir, f),
        CommandsFor(vm, hw, vmid, OutputPaths(vm.disks, outdir, f), storage, bridge, preserveMac));
      ok && (SlotsRight(h', hw, vmid, Conversions(vm.disks))
             <==> RefsFree(h.volumes, storage, Dec(vmid), 0, |vm.disks|) && StemsTell(vm.disks))
      && Configured(h'.config, Dec(vmid), vm, hw, bridge, preserveMac)
  {
    hide OutputPath, Dec, CommandsFor, RunAll, SlotKey, VolumeRef, StemsTell, WrittenBy, RefsTaken, Ready;
    hide Configured;
    var disks, paths := vm.disks, OutputPaths(vm.disks, outdir, f);
    var h0 := Converting(h, disks, outdir, f);
    OutputsRightIff(h.images, disks, outdir, f);
    var h' := CommandsBuildTheVm(h0, vm, hw, vmid, paths, storage, bridge, preserveMac);
    if SlotsRight(h', hw, vmid, Conversions(disks)) {
      forall i | 0 <= i < |disks|
        ensures VolumeRef(storage, Dec(vmid), i) !in h.volumes
        ensures h'.volumes[h'.config[(Dec(vmid), SlotKey(hw, i))]] == ImportOf(Converted(disks[i].path))
      {
        assert h'.volumes[h'.config[(Dec(vmid), SlotKey(hw, i))]] == ImportOf(Conversions(disks)[i]);
      }
      assert RefsFree(h.volumes, storage, Dec(vmid), 0, |disks|);
      forall i | 0 <= i < |disks| ensures h0.images[OutputPath(outdir, disks[i].path, f)] == Converted(disks[i].path) {
        assert h'.volumes[VolumeRef(storage, Dec(vmid), i)] == ImportOf(h0.images[paths[i]]);
      }
    }
  }

  /** What the host then holds for the machine, in terms of the source alone: size,
      firmware, controller, card and slots. */
  lemma MigratedMachine(h: Host, vm: VMDefinition, windowsSafe: bool, vmid: nat, paths: seq<string>, storage: string,
                        bridge: string, preserveMac: bool)
    requires Ready(h, vm, StageTwo(vm, windowsSafe), vmid, paths, storage, bridge, preserveMac)
    ensures var commands := CommandsFor(vm, StageTwo(vm, windowsSafe), vmid, paths, storage, bridge, preserveMac);
      var (id, config, safe) := (Dec(vmid), RunAll(h, commands).0.config, windowsSafe || SaysWindows(vm));
      && RunAll(h, commands).1
      && (id, "memory") in config && config[(id, "memory")] == Str(vm.memoryMb)
      && (id, "cores") in config && config[(id, "cores")] == Str(vm.vcpus)
      && (id, "bios") in config && (config[(id, "bios")] == "ovmf" <==> vm.firmware.EFI?)
      && (id, "scsihw") in config && (config[(id, "scsihw")] == "lsi" <==> safe)
      && (id, "net0") in config && (safe ==> "e1000,bridge=" <= config[(id, "net0")])
      && (forall i | 0 <= i < |paths| ::
            var slot := (if safe then "ide" else "scsi") + Dec(i);
            (id, slot) in config && config[(id, slot)] == VolumeName(storage, vmid, i))
  {
    var hw := StageTwo(vm, windowsSafe);
    StageTwoMaps(vm, windowsSafe);
    hide StageTwo, CommandsFor, RunAll, Dec, Str, VolumeName, SaysWindows, Ready;
    var h' := CommandsBuildTheVm(h, vm, hw, vmid, paths, storage, bridge, preserveMac);
    var safe := windowsSafe || SaysWindows(vm);
    SafeNet(h'.config[(Dec(vmid), "net0")], vm, hw, bridge, preserveMac, safe);
    hide IsNetText, Configured;
    forall i | 0 <= i < |paths| ensures IsSlotName((if safe then "ide" else "scsi") + Dec(i), hw, i) { }
  }

  lemma SafeNet(net: string, vm: VMDefinition, hw: MappedHardware, bridge: string, preserveMac: bool, safe: bool)
    requires IsNetText(net, vm, hw, bridge, preserveMac) && Maps(hw, vm, safe)
    ensures safe ==> "e1000,bridge=" <= net
  {
    hide ColonForm;
    if safe { assert "e1000" + ",bridge=" == "e1000,bridge="; }
  }

  /** The images are there whenever the disks were converted. */
  lemma ReadyIff(h: Host, vm: VMDefinition, hw: MappedHardware, vmid: nat, outdir: string, f: DiskFormat,
                 storage: string, bridge: string, preserveMac: bool)
    ensures var paths := OutputPaths(vm.disks, outdir, f);
      Ready(Converting(h, vm.disks, outdir, f), vm, hw, vmid, paths, storage, bridge, preserveMac) <==>
        && Dec(vmid) !in h.vms && IsWord(vm.name) && IsWord(NicString(vm, hw, bridge, preserveMac))
        && IsWord(storage) && ':' !in storage && (forall i | 0 <= i < |paths| :: IsWord(paths[i]))
  {
    hide OutputPath, NicString, Dec, IsWord, WrittenBy, StemsTell;
    OutputsRightIff(h.images, vm.disks, outdir, f);
  }

  // ---------------------------------------------------------------------
  // Dry run
  // ---------------------------------------------------------------------

  function PreviewPaths(disks: seq<DiskDefinition>, outdir: string, f: DiskFormat): seq<string> {
    seq(|disks|, i requires 0 <= i < |disks| => PreviewPath(outdir, disks[i].path, f))
  }

  /** The sources whose output name the dry run gets right. */
  predicate Previewable(outdir: string, source: string) {
    || Stem(source) !in ["", "."]
    || (Stem(source) == "" && Parse(outdir).parts == [] && Parse(outdir).root != "")
    || (Stem(source) == "." && Parse(outdir) == Path("", []))
  }

  lemma {:induction false} ImportsInjective(vmid: nat, ps: seq<string>, qs: seq<string>, storage: string)
    requires |ps| == |qs|
    ensures |Imports(vmid, ps, storage)| == |ps|
    ensures Imports(vmid, ps, storage) == Imports(vmid, qs, storage) <==> ps == qs
    decreases |ps|
  {
    if ps != [] {
      var a, b := Imports(vmid, ps, storage), Imports(vmid, qs, storage);
      ImportsInjective(vmid, ps[1..], qs[1..], storage);
      assert a[0] == ImportCommand(vmid, ps[0], storage) && b[0] == ImportCommand(vmid, qs[0], storage);
      assert a[1..] == Imports(vmid, ps[1..], storage) && b[1..] == Imports(vmid, qs[1..], storage);
      var pre, post := "qm" + " " + "importdisk" + " " + Dec(vmid) + " ", " " + storage;
      assert a[0] == pre + (ps[0] + post) && b[0] == pre + (qs[0] + post);
      if a == b { Cancel(pre, ps[0], qs[0], post); }
      assert ps == [ps[0]] + ps[1..] && qs == [qs[0]] + qs[1..];
    }
  }

  /** The commands shown by the dry run are the commands of a real run with the
      same options if and only if every source is previewable; in particular
      for sources with a proper file name. */
  lemma DryRunIff(vm: VMDefinition, hw: MappedHardware, vmid: nat, outdir: string, f: DiskFormat,
                  storage: string, bridge: string, preserveMac: bool)
    ensures CommandsFor(vm, hw, vmid, PreviewPaths(vm.disks, outdir, f), storage, bridge, preserveMac)
         == CommandsFor(vm, hw, vmid, OutputPaths(vm.disks, outdir, f), storage, bridge, preserveMac)
      <==> forall i | 0 <= i < |vm.disks| :: Previewable(outdir, vm.disks[i].path)
  {
    var ps, qs := PreviewPaths(vm.disks, outdir, f), OutputPaths(vm.disks, outdir, f);
    PreviewsIff(vm.disks, outdir, f);
    ImportsInjective(vmid, ps, qs, storage);
    ImportsInjective(vmid, qs, ps, storage);
    var a, b := Imports(vmid, ps, storage), Imports(vmid, qs, storage);
    MiddleIff([CreateCommand(vm, hw, vmid, bridge, preserveMac)], a, b,
              Attaches(hw, vmid, storage, 0, |vm.disks|) + Boot(vm, hw, vmid), EfiDisk(hw, vmid, storage));
  }

  lemma MiddleIff(x: seq<string>, a: seq<string>, b: seq<string>, y: seq<string>, z: seq<string>)
    requires |a| == |b|
    ensures x + a + y + z == x + b + y + z <==> a == b
  {
    assert (x + a + y + z)[|x|..|x| + |a|] == a;
    assert (x + b + y + z)[|x|..|x| + |b|] == b;
  }

  lemma PreviewsIff(disks: seq<DiskDefinition>, outdir: string, f: DiskFormat)
    ensures PreviewPaths(disks, outdir, f) == OutputPaths(disks, outdir, f)
      <==> forall i | 0 <= i < |disks| :: Previewable(outdir, disks[i].path)
  {
    var ps, qs := PreviewPaths(disks, outdir, f), OutputPaths(disks, outdir, f);
    forall i | 0 <= i < |disks| ensures ps[i] == qs[i] <==> Previewable(outdir, disks[i].path) {
      PreviewIff(outdir, disks[i].path, f);
    }
  }
}
