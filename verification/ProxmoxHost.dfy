/** A Proxmox host as far as the generated commands can change it, and what the
    commands do to it.

    Modelling assumptions. A new volume of a VM gets the lowest disk index that
    is free on the storage, and is called `<storage>:vm-<id>-disk-<index>`. A
    command that fails has exit code non-zero and changes nothing. Importing
    needs an existing VM and image file; attaching needs an existing volume.
    Limits on slot numbers are not modelled. */
module ProxmoxHost {
  import opened Text
  import opened Hardware
  import opened Proxmox
  import opened CommandLines

  /** What an image file holds. */
  datatype Image = Converted(source: string) | Broken

  /** Where the contents of a volume come from. */
  datatype Volume = Existing(tag: int) | ImportOf(image: Image) | EfiVars

  datatype Host = Host(vms: set<string>, volumes: map<string, Volume>, config: map<(string, string), string>,
                       images: map<string, Image>)

  function FreeFrom(volumes: map<string, Volume>, storage: string, id: string, i: nat, n: nat): (k: nat)
    ensures i <= k <= i + n && (VolumeRef(storage, id, k) !in volumes || k == i + n)
    ensures forall j | i <= j < k :: VolumeRef(storage, id, j) in volumes
    decreases n
  {
    if n == 0 || VolumeRef(storage, id, i) !in volumes then i else FreeFrom(volumes, storage, id, i + 1, n - 1)
  }

  function LowestFree(volumes: map<string, Volume>, storage: string, id: string): nat {
    FreeFrom(volumes, storage, id, 0, |volumes|)
  }

  lemma RefInjective(storage: string, id: string, i: nat, j: nat)
    requires VolumeRef(storage, id, i) == VolumeRef(storage, id, j)
    ensures i == j
  {
    var pre := storage + ":vm-" + id + "-disk-";
    assert (pre + Dec(i))[|pre|..] == Dec(i) && (pre + Dec(j))[|pre|..] == Dec(j);
    DecInjective(i, j);
  }

  /** The first k volume names of a VM. */
  function RefSet(storage: string, id: string, k: nat): (s: set<string>)
    ensures forall i | 0 <= i < k :: VolumeRef(storage, id, i) in s
    ensures forall x | x in s :: exists i: nat | i < k :: x == VolumeRef(storage, id, i)
  {
    if k == 0 then {} else RefSet(storage, id, k - 1) + {VolumeRef(storage, id, k - 1)}
  }

  lemma {:induction false} RefSetSize(storage: string, id: string, k: nat)
    ensures |RefSet(storage, id, k)| == k
  {
    if k > 0 {
      RefSetSize(storage, id, k - 1);
      var x := VolumeRef(storage, id, k - 1);
      if x in RefSet(storage, id, k - 1) {
        var i: nat :| i < k - 1 && x == VolumeRef(storage, id, i);
        RefInjective(storage, id, i, k - 1);
      }
    }
  }

  lemma SubsetSize(a: set<string>, b: set<string>)
    requires a <= b
    ensures |a| <= |b|
  {
    assert b == a + (b - a);
  }

  /** More volume names than volumes cannot all be taken. */
  lemma SomeFree(volumes: map<string, Volume>, storage: string, id: string) returns (j: nat)
    ensures j <= |volumes| && VolumeRef(storage, id, j) !in volumes
  {
    hide VolumeRef, RefSet;
    var refs := RefSet(storage, id, |volumes| + 1);
    RefSetSize(storage, id, |volumes| + 1);
    if refs <= volumes.Keys { SubsetSize(refs, volumes.Keys); }
    var x :| x in refs && x !in volumes;
    var i: nat :| i < |volumes| + 1 && x == VolumeRef(storage, id, i);
    j := i;
  }

  /** The bounded search always ends at a free index. */
  lemma LowestFreeIsFree(volumes: map<string, Volume>, storage: string, id: string)
    ensures var k := LowestFree(volumes, storage, id);
      VolumeRef(storage, id, k) !in volumes && forall j | 0 <= j < k :: VolumeRef(storage, id, j) in volumes
  {
    hide VolumeRef, FreeFrom;
    var j := SomeFree(volumes, storage, id);
  }

  // ---------------------------------------------------------------------
  // Commands
  // ---------------------------------------------------------------------

  predicate IsOption(w: string) { |w| > 2 && w[0] == '-' && w[1] == '-' }

  predicate OptionPairs(ws: seq<string>) {
    ws == [] || (|ws| >= 2 && IsOption(ws[0]) && OptionPairs(ws[2..]))
  }

  function Configure(config: map<(string, string), string>, id: string, ws: seq<string>): map<(string, string), string>
    requires OptionPairs(ws)
    decreases |ws|
  {
    if ws == [] then config else Configure(config[(id, ws[0][2..]) := ws[1]], id, ws[2..])
  }

  /** `qm` with the given arguments; `None` is a non-zero exit code. */
  function Qm(h: Host, argv: seq<string>): Option<Host> {
    if |argv| < 3 || argv[0] != "qm" then None
    else if argv[1] == "create" then
      if argv[2] in h.vms || !OptionPairs(argv[3..]) then None
      else Some(h.(vms := h.vms + {argv[2]}, config := Configure(h.config, argv[2], argv[3..])))
    else if |argv| != 5 || argv[2] !in h.vms then None
    else if argv[1] == "importdisk" then
      if argv[3] !in h.images then None
      else Some(Allocate(h, argv[4], argv[2], ImportOf(h.images[argv[3]])))
    else if argv[1] == "set" then QmSet(h, argv[2], argv[3], argv[4])
    else None
  }

  function Allocate(h: Host, storage: string, id: string, v: Volume): Host {
    h.(volumes := h.volumes[VolumeRef(storage, id, LowestFree(h.volumes, storage, id)) := v])
  }

  function QmSet(h: Host, id: string, option: string, value: string): Option<Host> {
    if !IsOption(option) then None
    else if option == "--boot" then Some(h.(config := h.config[(id, "boot") := value]))
    else if option == "--efidisk0" then
      var storage := value[..IndexOf(value, ':')];
      var ref := VolumeRef(storage, id, LowestFree(h.volumes, storage, id));
      Some(Allocate(h, storage, id, EfiVars).(config := h.config[(id, "efidisk0") := ref]))
    else if value in h.volumes then Some(h.(config := h.config[(id, option[2..]) := value]))
    else None
  }

  /** The commands one after another, up to the first that fails. */
  function RunAll(h: Host, commands: seq<string>): (Host, bool)
    decreases |commands|
  {
    if commands == [] then (h, true)
    else match Qm(h, Argv(commands[0]))
      case None => (h, false)
      case Some(h') => RunAll(h', commands[1..])
  }

  lemma {:induction false} RunAppend(h: Host, a: seq<string>, b: seq<string>)
    requires RunAll(h, a).1
    ensures RunAll(h, a + b) == RunAll(RunAll(h, a).0, b)
    decreases |a|
  {
    if a == [] {
      assert a + b == b;
    } else {
      assert (a + b)[1..] == a[1..] + b;
      RunAppend(Qm(h, Argv(a[0])).value, a[1..], b);
    }
  }

  /** One more command after commands that succeeded. */
  lemma RunNext(h: Host, commands: seq<string>, k: nat)
    requires k < |commands| && RunAll(h, commands[..k]).1
    ensures RunAll(h, commands[..k + 1]) ==
      match Qm(RunAll(h, commands[..k]).0, Argv(commands[k]))
      case None => (RunAll(h, commands[..k]).0, false)
      case Some(next) => (next, true)
  {
    hide Qm, Argv;
    assert commands[..k + 1] == commands[..k] + [commands[k]];
    RunAppend(h, commands[..k], [commands[k]]);
  }

  /** `_execute_proxmox_commands`: flatten, run, stop at the first failure. */
  class Node {
    var host: Host
    var lines: seq<string>

    constructor (host: Host)
      ensures this.host == host && lines == []
    {
      this.host, lines := host, [];
    }

    method ExecuteProxmoxCommands(commands: seq<string>) returns (ok: bool, ran: nat)
      modifies this
      ensures (host, ok) == RunAll(old(host), commands)
      ensures ran <= |commands| && (ok <==> ran == |commands| && RunAll(old(host), commands).1)
      ensures |lines| == |old(lines)| + ran && lines[..|old(lines)|] == old(lines)
      ensures forall i | 0 <= i < ran :: lines[|old(lines)| + i] == Flatten(commands[i])
      ensures !ok ==> ran > 0 && RunAll(old(host), commands[..ran - 1]) == (host, true)
                      && Qm(host, Argv(commands[ran - 1])) == None
    {
      hide Qm, Flatten, Fields;
      ran := 0;
      while ran < |commands|
        invariant ran <= |commands| && RunAll(old(host), commands[..ran]) == (host, true)
        invariant RunAll(host, commands[ran..]) == RunAll(old(host), commands)
        invariant |lines| == |old(lines)| + ran && lines[..|old(lines)|] == old(lines)
        invariant forall i | 0 <= i < ran :: lines[|old(lines)| + i] == Flatten(commands[i])
      {
        assert commands[ran..][1..] == commands[ran + 1..];
        RunNext(old(host), commands, ran);
        var line := Flatten(commands[ran]);
        lines := lines + [line];
        ran := ran + 1;
        match Qm(host, Fields(line)) {
          case None => return false, ran;
          case Some(h) => host := h;
        }
      }
      return true, ran;
    }
  }

  // ---------------------------------------------------------------------
  // Imports fill the volume names in order
  // ---------------------------------------------------------------------

  function AfterImports(h: Host, vmid: nat, paths: seq<string>, storage: string): Host
    requires forall i | 0 <= i < |paths| :: paths[i] in h.images
    decreases |paths|
  {
    if paths == [] then h
    else AfterImports(Allocate(h, storage, Dec(vmid), ImportOf(h.images[paths[0]])), vmid, paths[1..], storage)
  }

  lemma {:induction false} ImportsRun(h: Host, vmid: nat, paths: seq<string>, storage: string)
    requires Dec(vmid) in h.vms && IsWord(storage)
    requires forall i | 0 <= i < |paths| :: IsWord(paths[i]) && paths[i] in h.images
    ensures RunAll(h, Imports(vmid, paths, storage)) == (AfterImports(h, vmid, paths, storage), true)
    decreases |paths|
  {
    if paths != [] {
      ImportArgvIff(vmid, paths[0], storage);
      var commands := Imports(vmid, paths, storage);
      assert commands[0] == ImportCommand(vmid, paths[0], storage);
      assert commands[1..] == Imports(vmid, paths[1..], storage);
      var h1 := Allocate(h, storage, Dec(vmid), ImportOf(h.images[paths[0]]));
      assert Qm(h, ImportArgv(vmid, paths[0], storage)) == Some(h1);
      ImportsRun(h1, vmid, paths[1..], storage);
    }
  }

  predicate RefsTaken(volumes: map<string, Volume>, storage: string, id: string, k: nat) {
    forall i | 0 <= i < k :: VolumeRef(storage, id, i) in volumes
  }

  predicate RefsFree(volumes: map<string, Volume>, storage: string, id: string, k: nat, n: nat) {
    forall i | k <= i < n :: VolumeRef(storage, id, i) !in volumes
  }

  /** Importing overwrites nothing and leaves the first names all taken,
      whether or not some of them were taken before. */
  lemma {:induction false} ImportsKeep(h: Host, vmid: nat, paths: seq<string>, storage: string, k: nat)
    requires forall i | 0 <= i < |paths| :: paths[i] in h.images
    requires RefsTaken(h.volumes, storage, Dec(vmid), k)
    ensures var h' := AfterImports(h, vmid, paths, storage);
      && h' == h.(volumes := h'.volumes)
      && (forall x | x in h.volumes :: x in h'.volumes && h'.volumes[x] == h.volumes[x])
      && RefsTaken(h'.volumes, storage, Dec(vmid), k + |paths|)
    decreases |paths|
  {
    if paths != [] {
      var id := Dec(vmid);
      var h1 := Allocate(h, storage, id, ImportOf(h.images[paths[0]]));
      LowestFreeIsFree(h.volumes, storage, id);
      assert LowestFree(h.volumes, storage, id) >= k;
      assert RefsTaken(h1.volumes, storage, id, k + 1);
      ImportsKeep(h1, vmid, paths[1..], storage, k + 1);
    }
  }

  /** On free names the images land in order. */
  lemma {:induction false} ImportsInOrder(h: Host, vmid: nat, paths: seq<string>, storage: string, k: nat)
    requires forall i | 0 <= i < |paths| :: paths[i] in h.images
    requires RefsTaken(h.volumes, storage, Dec(vmid), k) && RefsFree(h.volumes, storage, Dec(vmid), k, k + |paths|)
    ensures var h' := AfterImports(h, vmid, paths, storage);
      && (forall i | 0 <= i < |paths| :: VolumeRef(storage, Dec(vmid), k + i) in h'.volumes
            && h'.volumes[VolumeRef(storage, Dec(vmid), k + i)] == ImportOf(h.images[paths[i]]))
      && (forall j: nat | j >= k + |paths| && VolumeRef(storage, Dec(vmid), j) !in h.volumes ::
            VolumeRef(storage, Dec(vmid), j) !in h'.volumes)
    decreases |paths|
  {
    hide VolumeRef, LowestFree, Dec;
    if paths != [] {
      var id := Dec(vmid);
      LowestFreeIsFree(h.volumes, storage, id);
      assert VolumeRef(storage, id, k) !in h.volumes;
      assert LowestFree(h.volumes, storage, id) == k;
      var h1 := Allocate(h, storage, id, ImportOf(h.images[paths[0]]));
      forall j: nat | j != k ensures VolumeRef(storage, id, j) != VolumeRef(storage, id, k) {
        if VolumeRef(storage, id, j) == VolumeRef(storage, id, k) { RefInjective(storage, id, j, k); }
      }
      ImportsInOrder(h1, vmid, paths[1..], storage, k + 1);
      ImportsKeep(h1, vmid, paths[1..], storage, k + 1);
      var h' := AfterImports(h, vmid, paths, storage);
      forall i | 0 <= i < |paths|
        ensures VolumeRef(storage, id, k + i) in h'.volumes
                && h'.volumes[VolumeRef(storage, id, k + i)] == ImportOf(h.images[paths[i]])
      {
        if i > 0 { assert k + i == k + 1 + (i - 1); }
      }
    }
  }

  // ---------------------------------------------------------------------
  // Attaching
  // ---------------------------------------------------------------------

  function SlotKey(hw: MappedHardware, i: nat): string { SlotPrefix(hw) + Dec(i) }

  lemma SlotKeyInjective(hw: MappedHardware, i: nat, j: nat)
    requires SlotKey(hw, i) == SlotKey(hw, j)
    ensures i == j
  {
    var pre := SlotPrefix(hw);
    assert (pre + Dec(i))[|pre|..] == Dec(i) && (pre + Dec(j))[|pre|..] == Dec(j);
    DecInjective(i, j);
  }

  lemma AttachStep(h: Host, hw: MappedHardware, vmid: nat, storage: string, i: nat)
    requires Dec(vmid) in h.vms && IsWord(storage) && VolumeRef(storage, Dec(vmid), i) in h.volumes
    ensures Qm(h, Argv(AttachCommand(hw, vmid, storage, i)))
         == Some(h.(config := h.config[(Dec(vmid), SlotKey(hw, i)) := VolumeRef(storage, Dec(vmid), i)]))
  {
    AttachIsArgv(hw, vmid, storage, i);
    var option := "--" + SlotPrefix(hw) + Dec(i);
    assert option[2..] == SlotKey(hw, i);
    assert IsOption(option);
    assert option[|option| - 1] == Dec(i)[|Dec(i)| - 1];
    SlotIsNotSpecial(hw, i);
  }

  lemma SlotIsNotSpecial(hw: MappedHardware, i: nat)
    ensures "--" + SlotPrefix(hw) + Dec(i) != "--boot" && "--" + SlotPrefix(hw) + Dec(i) != "--efidisk0"
    ensures SlotKey(hw, i) != "boot" && SlotKey(hw, i) != "efidisk0"
  {
    var key := SlotKey(hw, i);
    assert key[0] == SlotPrefix(hw)[0];
    assert key[0] in ['i', 's', 'v'];
    assert ("--" + SlotPrefix(hw) + Dec(i))[2] == key[0];
  }

  lemma {:induction false} AttachesRun(h: Host, hw: MappedHardware, vmid: nat, storage: string, k: nat, n: nat)
    requires Dec(vmid) in h.vms && IsWord(storage) && k <= n && RefsTaken(h.volumes, storage, Dec(vmid), n)
    ensures var r := RunAll(h, Attaches(hw, vmid, storage, k, n));
      && r.1 && r.0 == h.(config := r.0.config)
      && (forall i | k <= i < n :: (Dec(vmid), SlotKey(hw, i)) in r.0.config
            && r.0.config[(Dec(vmid), SlotKey(hw, i))] == VolumeRef(storage, Dec(vmid), i))
      && (forall key | key in h.config && (forall i | k <= i < n :: key != (Dec(vmid), SlotKey(hw, i))) ::
            key in r.0.config && r.0.config[key] == h.config[key])
    decreases n - k
  {
    if k < n {
      var id := Dec(vmid);
      var h1 := h.(config := h.config[(id, SlotKey(hw, k)) := VolumeRef(storage, id, k)]);
      AttachStep(h, hw, vmid, storage, k);
      var commands := Attaches(hw, vmid, storage, k, n);
      assert commands[0] == AttachCommand(hw, vmid, storage, k);
      assert commands[1..] == Attaches(hw, vmid, storage, k + 1, n);
      forall i | k < i < n ensures SlotKey(hw, i) != SlotKey(hw, k) {
        if SlotKey(hw, i) == SlotKey(hw, k) { SlotKeyInjective(hw, i, k); }
      }
      AttachesRun(h1, hw, vmid, storage, k + 1, n);
    }
  }

  /** Attaching a volume that does not exist fails. */
  lemma AttachMissing(h: Host, hw: MappedHardware, vmid: nat, storage: string, i: nat)
    requires Dec(vmid) in h.vms && IsWord(storage) && VolumeRef(storage, Dec(vmid), i) !in h.volumes
    ensures Qm(h, Argv(AttachCommand(hw, vmid, storage, i))) == None
  {
    AttachIsArgv(hw, vmid, storage, i);
    SlotIsNotSpecial(hw, i);
  }
}
