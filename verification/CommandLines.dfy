/** What the shell makes of the generated commands.

    Modelling assumption: the shell joins continued lines and splits the result
    at blanks. Quotes, variables and other metacharacters are not modelled. */
module CommandLines {
  import opened Substitution
  import opened Text
  import opened Model
  import opened Hardware
  import opened Proxmox

  /** The arguments passed to `qm` when a command is flattened and executed. */
  function Argv(command: string): seq<string> { Fields(Flatten(command)) }

  predicate AllWords(ws: seq<string>) { forall i | 0 <= i < |ws| :: IsWord(ws[i]) }

  lemma WordsHaveNoNewline(ws: seq<string>)
    requires AllWords(ws)
    ensures AllNoNewline(ws)
  {
  }

  lemma {:induction false} JoinNoNewline(ws: seq<string>)
    requires AllNoNewline(ws)
    ensures NoNewline(Join(" ", ws))
    decreases |ws|
  {
    if |ws| > 1 { JoinNoNewline(ws[1..]); }
  }

  function FieldsOfAll(parts: seq<string>): seq<string> {
    if parts == [] then [] else Fields(parts[0]) + FieldsOfAll(parts[1..])
  }

  /** Splitting joined parts splits each part; the number of blanks between them
      does not matter. */
  lemma {:induction false} FieldsOfJoin(sep: string, parts: seq<string>)
    requires sep != "" && forall i | 0 <= i < |sep| :: sep[i] == ' '
    ensures Fields(Join(sep, parts)) == FieldsOfAll(parts)
    decreases |parts|
  {
    if |parts| == 1 {
      assert FieldsOfAll(parts) == Fields(parts[0]) + FieldsOfAll(parts[1..]);
    } else if |parts| > 1 {
      var rest := Join(sep, parts[1..]);
      assert Join(sep, parts) == parts[0] + [' '] + (sep[1..] + rest);
      FieldsConcat(parts[0], ' ', sep[1..] + rest);
      LeadingBlanks(sep[1..], rest);
      FieldsOfJoin(sep, parts[1..]);
    }
  }

  lemma {:induction false} LeadingBlanks(b: string, s: string)
    requires forall i | 0 <= i < |b| :: b[i] == ' '
    ensures Fields(b + s) == Fields(s)
    decreases |b|
  {
    if b == "" {
      assert b + s == s;
    } else {
      assert (b + s)[1..] == b[1..] + s;
      LeadingBlanks(b[1..], s);
    }
  }

  lemma {:induction false} FieldsOfWords(ws: seq<string>)
    requires AllWords(ws)
    ensures FieldsOfAll(ws) == ws
    decreases |ws|
  {
    if ws != [] {
      WordIsField(ws[0]);
      FieldsOfWords(ws[1..]);
    }
  }

  /** A command made of intended arguments reaches `qm` with exactly these
      arguments if and only if each of them is a word. */
  lemma ArgvIff(ws: seq<string>)
    ensures Argv(Join(" ", ws)) == ws <==> AllWords(ws)
  {
    FieldsAreWords(Flatten(Join(" ", ws)));
    if AllWords(ws) {
      WordsHaveNoNewline(ws);
      JoinNoNewline(ws);
      assert CONTINUATION[2] == '\n';
      PinnedAbsent(Join(" ", ws), CONTINUATION, " ");
      FieldsOfJoin(" ", ws);
      FieldsOfWords(ws);
    }
  }

  lemma JoinFive(a: string, b: string, c: string, d: string, e: string)
    ensures Join(" ", [a, b, c, d, e]) == a + " " + b + " " + c + " " + d + " " + e
  {
    JoinThree(c, d, e);
    JoinMore(b, [c, d, e]);
    JoinMore(a, [b, c, d, e]);
    var cde := c + " " + d + " " + e;
    Associate(a + " ", b + " ", cde);
    Associate(a + " " + (b + " "), c + " " + d + " ", e);
  }

  lemma JoinThree(a: string, b: string, c: string)
    ensures Join(" ", [a, b, c]) == a + " " + b + " " + c
  {
    JoinMore(b, [c]);
    JoinMore(a, [b, c]);
    Associate(a + " ", b + " ", c);
  }

  // ---------------------------------------------------------------------
  // The five kinds of command
  // ---------------------------------------------------------------------

  function ImportArgv(vmid: nat, path: string, storage: string): seq<string> {
    ["qm", "importdisk", Dec(vmid), path, storage]
  }

  function AttachArgv(hw: MappedHardware, vmid: nat, storage: string, i: nat): seq<string> {
    ["qm", "set", Dec(vmid), "--" + SlotPrefix(hw) + Dec(i), VolumeRef(storage, Dec(vmid), i)]
  }

  function BootArgv(hw: MappedHardware, vmid: nat): seq<string> {
    ["qm", "set", Dec(vmid), "--boot", "order=" + SlotPrefix(hw) + "0"]
  }

  function EfiDiskArgv(vmid: nat, storage: string): seq<string> {
    ["qm", "set", Dec(vmid), "--efidisk0", EfiValue(storage)]
  }

  lemma WordConcat(a: string, b: string)
    ensures IsWord(a) && (b == "" || IsWord(b)) ==> IsWord(a + b)
    ensures IsWord(a + b) && b != "" ==> IsWord(b)
  {
    if IsWord(a + b) && b != "" {
      forall i | 0 <= i < |b| ensures !IsSpace(b[i]) { assert (a + b)[|a| + i] == b[i]; }
    }
  }

  lemma DecIsWord(n: nat)
    ensures IsWord(Dec(n))
  {
    DigitsAreWord(Dec(n));
  }

  /** An import reaches `qm` as intended exactly when path and storage are words. */
  lemma ImportArgvIff(vmid: nat, path: string, storage: string)
    ensures Argv(ImportCommand(vmid, path, storage)) == ImportArgv(vmid, path, storage)
      <==> IsWord(path) && IsWord(storage)
  {
    hide Argv, Dec;
    var ws := ImportArgv(vmid, path, storage);
    JoinFive("qm", "importdisk", Dec(vmid), path, storage);
    assert ImportCommand(vmid, path, storage) == Join(" ", ws);
    ArgvIff(ws);
    DecIsWord(vmid);
    assert AllWords(ws) <==> IsWord(ws[3]) && IsWord(ws[4]);
  }

  /** A path with a blank arrives as two arguments. */
  lemma BlankSplitsPath(vmid: nat, path: string, storage: string)
    requires path == "my disk.qcow2"
    ensures Argv(ImportCommand(vmid, path, storage)) != ImportArgv(vmid, path, storage)
  {
    hide Argv, ImportArgv, ImportCommand;
    assert path[2] == ' ' && IsSpace(' ');
    ImportArgvIff(vmid, path, storage);
  }

  lemma RefIsWord(storage: string, vmid: nat, i: nat)
    requires IsWord(storage)
    ensures IsWord(VolumeRef(storage, Dec(vmid), i))
  {
    DecIsWord(vmid);
    DecIsWord(i);
    WordConcat(storage, ":vm-");
    WordConcat(storage + ":vm-", Dec(vmid));
    WordConcat(storage + ":vm-" + Dec(vmid), "-disk-");
    WordConcat(storage + ":vm-" + Dec(vmid) + "-disk-", Dec(i));
  }

  lemma SlotIsWord(hw: MappedHardware, i: nat)
    ensures IsWord(SlotPrefix(hw)) && IsWord("--" + SlotPrefix(hw)) && IsWord("--" + SlotPrefix(hw) + Dec(i))
    ensures IsWord("order=" + SlotPrefix(hw) + "0")
  {
    DecIsWord(i);
    WordConcat("--", SlotPrefix(hw));
    WordConcat("--" + SlotPrefix(hw), Dec(i));
    WordConcat("order=", SlotPrefix(hw));
    WordConcat("order=" + SlotPrefix(hw), "0");
  }

  lemma AttachIsArgv(hw: MappedHardware, vmid: nat, storage: string, i: nat)
    requires IsWord(storage)
    ensures Argv(AttachCommand(hw, vmid, storage, i)) == AttachArgv(hw, vmid, storage, i)
  {
    hide Argv, Dec, VolumeRef, SlotPrefix;
    var ws := AttachArgv(hw, vmid, storage, i);
    JoinFive("qm", "set", Dec(vmid), "--" + SlotPrefix(hw) + Dec(i), VolumeRef(storage, Dec(vmid), i));
    assert AttachCommand(hw, vmid, storage, i) == Join(" ", ws);
    RefIsWord(storage, vmid, i);
    SlotIsWord(hw, i);
    DecIsWord(vmid);
    ArgvIff(ws);
  }

  lemma BootIsArgv(hw: MappedHardware, vmid: nat)
    ensures Argv(BootCommand(hw, vmid)) == BootArgv(hw, vmid)
  {
    hide Argv, Dec, SlotPrefix;
    var ws := BootArgv(hw, vmid);
    JoinFive("qm", "set", Dec(vmid), "--boot", "order=" + SlotPrefix(hw) + "0");
    assert BootCommand(hw, vmid) == Join(" ", ws);
    SlotIsWord(hw, 0);
    DecIsWord(vmid);
    ArgvIff(ws);
  }

  lemma EfiDiskIsArgv(vmid: nat, storage: string)
    requires IsWord(storage)
    ensures Argv(EfiDiskCommand(vmid, storage)) == EfiDiskArgv(vmid, storage)
  {
    hide Argv, Dec, EfiValue;
    var ws := EfiDiskArgv(vmid, storage);
    JoinFive("qm", "set", Dec(vmid), "--efidisk0", EfiValue(storage));
    assert EfiDiskCommand(vmid, storage) == Join(" ", ws);
    EfiValueIsWord(storage);
    DecIsWord(vmid);
    ArgvIff(ws);
  }

  lemma EfiValueIsWord(storage: string)
    requires IsWord(storage)
    ensures IsWord(EfiValue(storage))
  {
    WordConcat(storage, ":1,efitype=4m");
    assert IsWord(",pre-enrolled-keys=1");
    WordConcat(storage + ":1,efitype=4m", ",pre-enrolled-keys=1");
  }

  // ---------------------------------------------------------------------
  // qm create
  // ---------------------------------------------------------------------

  function OptionArgv(options: seq<(string, string)>): seq<string> {
    if options == [] then [] else [options[0].0, options[0].1] + OptionArgv(options[1..])
  }

  function CreateArgv(vm: VMDefinition, hw: MappedHardware, vmid: nat, bridge: string, preserveMac: bool): seq<string> {
    ["qm", "create", Dec(vmid)] + OptionArgv(CreateOptions(vm, hw, bridge, preserveMac))
  }

  predicate OptionWords(options: seq<(string, string)>) {
    forall i | 0 <= i < |options| :: IsWord(options[i].0) && IsWord(options[i].1)
  }

  lemma FieldsOfOption(name: string, value: string)
    requires IsWord(name) && IsWord(value)
    ensures Fields(name + " " + value) == [name, value] && NoNewline(name + " " + value)
  {
    assert name + " " + value == name + [' '] + value;
    FieldsConcat(name, ' ', value);
    WordIsField(name);
    WordIsField(value);
    hide Fields;
  }

  lemma {:induction false} FieldsOfParts(options: seq<(string, string)>)
    requires OptionWords(options)
    ensures FieldsOfAll(Parts(options)) == OptionArgv(options) && AllNoNewline(Parts(options))
    decreases |options|
  {
    hide Fields, IsWord, NoNewline;
    if options != [] {
      var o := options[0];
      FieldsOfOption(o.0, o.1);
      FieldsOfParts(options[1..]);
      assert Parts(options) == [o.0 + " " + o.1] + Parts(options[1..]);
      assert Parts(options)[1..] == Parts(options[1..]);
    }
  }

  lemma {:induction false} OptionWordsIff(options: seq<(string, string)>)
    ensures AllWords(OptionArgv(options)) <==> OptionWords(options)
    decreases |options|
  {
    if options != [] {
      var o, rest := options[0], OptionArgv(options[1..]);
      OptionWordsIff(options[1..]);
      assert OptionArgv(options)[0] == o.0 && OptionArgv(options)[1] == o.1;
      assert forall i | 0 <= i < |rest| :: OptionArgv(options)[i + 2] == rest[i];
      assert forall i | 0 <= i < |options[1..]| :: options[1..][i] == options[i + 1];
      assert AllWords(OptionArgv(options)) <==> IsWord(o.0) && IsWord(o.1) && AllWords(rest) by {
        if IsWord(o.0) && IsWord(o.1) && AllWords(rest) {
          forall i | 0 <= i < |OptionArgv(options)| ensures IsWord(OptionArgv(options)[i]) {
            if i >= 2 { assert IsWord(rest[i - 2]); }
          }
        }
        if AllWords(OptionArgv(options)) {
          forall i | 0 <= i < |rest| ensures IsWord(rest[i]) { assert IsWord(OptionArgv(options)[i + 2]); }
        }
      }
    }
  }

  lemma QmCreateFields(vmid: nat)
    ensures Fields(QmCreate(vmid)) == ["qm", "create", Dec(vmid)] && NoNewline(QmCreate(vmid))
  {
    var ws := ["qm", "create", Dec(vmid)];
    DecIsWord(vmid);
    JoinThree("qm", "create", Dec(vmid));
    assert AllWords(ws);
    WordsHaveNoNewline(ws);
    JoinNoNewline(ws);
    FieldsOfJoin(" ", ws);
    FieldsOfWords(ws);
  }

  /** Both forms of the continued create command, flattened for execution and
      written to the script, pass the same arguments. */
  lemma CreateArgvOfWords(vm: VMDefinition, hw: MappedHardware, vmid: nat, bridge: string, preserveMac: bool)
    requires OptionWords(CreateOptions(vm, hw, bridge, preserveMac))
    ensures Argv(CreateCommand(vm, hw, vmid, bridge, preserveMac)) == CreateArgv(vm, hw, vmid, bridge, preserveMac)
    ensures Fields(ReplaceAll(CreateCommand(vm, hw, vmid, bridge, preserveMac), "\\\n", ""))
         == CreateArgv(vm, hw, vmid, bridge, preserveMac)
  {
    hide CreateOptions, Fields, QmCreate, ReplaceAll, Join, Parts, OptionArgv, Dec, NoNewline;
    var options := CreateOptions(vm, hw, bridge, preserveMac);
    var first := QmCreate(vmid);
    var parts := [first] + Parts(options);
    FieldsOfParts(options);
    QmCreateFields(vmid);
    assert AllNoNewline(parts);
    FlattenJoin(parts);
    ScriptJoin(parts);
    FieldsOfJoin(" ", parts);
    FieldsOfJoin("   ", parts);
    assert parts[1..] == Parts(options);
  }

  /** `qm create` gets its intended arguments exactly when the VM name and the
      NIC string (bridge and MAC address) are words. */
  lemma CreateArgvIff(vm: VMDefinition, hw: MappedHardware, vmid: nat, bridge: string, preserveMac: bool)
    ensures Argv(CreateCommand(vm, hw, vmid, bridge, preserveMac)) == CreateArgv(vm, hw, vmid, bridge, preserveMac)
      <==> IsWord(vm.name) && IsWord(NicString(vm, hw, bridge, preserveMac))
  {
    var options := CreateOptions(vm, hw, bridge, preserveMac);
    OptionsAreWordsIff(vm, hw, bridge, preserveMac);
    if OptionWords(options) {
      CreateArgvOfWords(vm, hw, vmid, bridge, preserveMac);
    } else {
      FieldsAreWords(Flatten(CreateCommand(vm, hw, vmid, bridge, preserveMac)));
      OptionWordsIff(options);
      WordsBehind(["qm", "create", Dec(vmid)], OptionArgv(options));
    }
  }

  lemma WordsBehind(a: seq<string>, b: seq<string>)
    ensures AllWords(a + b) ==> AllWords(b)
  {
    if AllWords(a + b) {
      forall i | 0 <= i < |b| ensures IsWord(b[i]) { assert (a + b)[|a| + i] == b[i]; }
    }
  }

  lemma OptionNamesAreWords()
    ensures IsWord("--name") && IsWord("--memory") && IsWord("--cores") && IsWord("--cpu")
    ensures IsWord("--machine") && IsWord("--scsihw") && IsWord("--bios") && IsWord("--net0")
  {
  }

  lemma FixedValuesAreWords(hw: MappedHardware)
    ensures IsWord("x86-64-v2-AES") && IsWord("q35") && IsWord(ScsiHw(hw))
    ensures IsWord("ovmf") && IsWord("seabios")
  {
    assert IsWord("lsi") && IsWord("virtio-scsi-single");
  }

  lemma OptionsAreWordsIff(vm: VMDefinition, hw: MappedHardware, bridge: string, preserveMac: bool)
    ensures OptionWords(CreateOptions(vm, hw, bridge, preserveMac))
      <==> IsWord(vm.name) && IsWord(NicString(vm, hw, bridge, preserveMac))
  {
    var memory, cores, nic := Str(vm.memoryMb), Str(vm.vcpus), NicString(vm, hw, bridge, preserveMac);
    StrIsWord(vm.memoryMb);
    StrIsWord(vm.vcpus);
    OptionNamesAreWords();
    FixedValuesAreWords(hw);
    EightOptions(vm.name, memory, cores, "x86-64-v2-AES", "q35", ScsiHw(hw),
                 if hw.firmwarePath.Some? then "ovmf" else "seabios", nic, CreateOptions(vm, hw, bridge, preserveMac));
  }

  lemma EightOptions(a: string, b: string, c: string, d: string, e: string, f: string, g: string, h: string,
                     options: seq<(string, string)>)
    requires |options| == 8 && forall i | 0 <= i < 8 :: IsWord(options[i].0)
    requires options[0].1 == a && options[1].1 == b && options[2].1 == c && options[3].1 == d
    requires options[4].1 == e && options[5].1 == f && options[6].1 == g && options[7].1 == h
    requires IsWord(b) && IsWord(c) && IsWord(d) && IsWord(e) && IsWord(f) && IsWord(g)
    ensures OptionWords(options) <==> IsWord(a) && IsWord(h)
  {
  }
}
