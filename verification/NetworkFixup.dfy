/** Guest network configuration fixup (vmfree/fixup/network.py). */
module NetworkFixup {
  import opened Substitution
  import opened Guest

  const VMWARE_IFACE_NAMES: seq<string> := ["ens160", "ens192", "ens224", "ens256", "ens161", "ens193"]
  const KVM_DEFAULT_IFACE := "ens18"

  const NETPLAN_DIR := "/etc/netplan"
  const IFCFG_DIR := "/etc/sysconfig/network-scripts"
  const NETWORKD_DIR := "/etc/systemd/network"
  const NM_DIR := "/etc/NetworkManager/system-connections"
  const UDEV_NET_RULES := "/etc/udev/rules.d/70-persistent-net.rules"

  function IfacesToReplace(oldIface: string): (names: seq<string>)
    ensures NonEmpty(names)
  {
    if oldIface != "" then [oldIface] else VMWARE_IFACE_NAMES
  }

  // ---------------------------------------------------------------------
  // The helpers
  // ---------------------------------------------------------------------

  /** One in-place edit per interface name, of the text `pre + name`. */
  function EditPlan(dir: string, suffix: string, pre: string, what: string,
                    names: seq<string>, newIface: string): (steps: seq<Step>)
    requires NonEmpty(names)
    ensures |steps| == |names| && Plan(steps)
    decreases |names|
  {
    if names == [] then []
    else [Step(SedFiles(dir, suffix, pre + names[0], pre + newIface),
               ["Updated " + what + ": " + names[0] + " -> " + newIface], [])]
         + EditPlan(dir, suffix, pre, what, names[1..], newIface)
  }

  function NetplanPlan(oldIface: string, newIface: string): (steps: seq<Step>) ensures Plan(steps) {
    EditPlan(NETPLAN_DIR, ".yaml", "", "Netplan", IfacesToReplace(oldIface), newIface)
  }

  function NetworkdPlan(oldIface: string, newIface: string): (steps: seq<Step>) ensures Plan(steps) {
    EditPlan(NETWORKD_DIR, ".network", "Name=", "networkd", IfacesToReplace(oldIface), newIface)
  }

  function NetworkManagerPlan(oldIface: string, newIface: string): (steps: seq<Step>) ensures Plan(steps) {
    EditPlan(NM_DIR, "", "interface-name=", "NetworkManager", IfacesToReplace(oldIface), newIface)
  }

  function MovePlan(dir: string, names: seq<string>, newIface: string): (steps: seq<Step>)
    ensures |steps| == |names| && Plan(steps)
    decreases |names|
  {
    if names == [] then []
    else [Step(MoveIfcfg(dir, names[0], newIface), ["Updated ifcfg: " + names[0] + " -> " + newIface], [])]
         + MovePlan(dir, names[1..], newIface)
  }

  function IfcfgPlan(oldIface: string, newIface: string): (steps: seq<Step>) ensures Plan(steps) {
    MovePlan(IFCFG_DIR, IfacesToReplace(oldIface), newIface)
  }

  function UdevPlan(): (steps: seq<Step>) ensures Plan(steps) {
    [Step(Remove(UDEV_NET_RULES, false), ["Removed stale udev persistent net rules"], [])]
  }

  const STATE_PATHS: seq<string> := [
    "/var/lib/NetworkManager/*", "/run/NetworkManager/*",
    "/etc/udev/rules.d/70-persistent-net.rules", "/etc/udev/rules.d/75-persistent-net-generator.rules"]

  function CleanupPlan(paths: seq<string>): (steps: seq<Step>)
    ensures |steps| == |paths| && Plan(steps)
    decreases |paths|
  {
    if paths == [] then []
    else [Step(Remove(paths[0], true), ["Cleaned up: " + paths[0]], [])]
         + CleanupPlan(paths[1..])
  }

  const CONFIG_CHECKS: seq<(Command, string)> := [
    (VirtLs(NETPLAN_DIR), "netplan"), (VirtLs(IFCFG_DIR), "ifcfg"),
    (VirtLs(NETWORKD_DIR), "networkd"), (VirtLs(NM_DIR), "nm")]

  // ---------------------------------------------------------------------
  // fix_guest_network
  // ---------------------------------------------------------------------

  function FixStage(w: World, configType: string, oldIface: string, newIface: string,
                    oracle: nat -> Outcome): World
  {
    if configType == "netplan" then RunPlan(w, NetplanPlan(oldIface, newIface), oracle)
    else if configType == "ifcfg" then RunPlan(w, IfcfgPlan(oldIface, newIface), oracle)
    else if configType == "networkd" then RunPlan(w, NetworkdPlan(oldIface, newIface), oracle)
    else if configType == "nm" then RunPlan(w, NetworkManagerPlan(oldIface, newIface), oracle)
    else w.(actions := w.actions + ["No static network config found, likely uses DHCP"])
  }

  function Detected(w: World, oracle: nat -> Outcome): World {
    var configType := ProbeAnswer(CONFIG_CHECKS, oracle, |w.log|);
    w.(log := w.log + ProbeCalls(CONFIG_CHECKS, oracle, |w.log|),
       actions := w.actions + ["Detected network config: " + if configType != "" then configType else "none"])
  }

  /** The whole fixup as a function of the image and the oracle. */
  function NetworkRun(files: Files, log: seq<Command>, oldIface: string, newIface: string,
                      oracle: nat -> Outcome): World
  {
    var w1 := RunPlan(World(files, log, true, [], []), UdevPlan(), oracle);
    var w2 := Detected(w1, oracle);
    var w3 := FixStage(w2, ProbeAnswer(CONFIG_CHECKS, oracle, |w1.log|), oldIface, newIface, oracle);
    RunPlan(w3, CleanupPlan(STATE_PATHS), oracle)
  }

  /** A report of any run lists exactly the errors of its calls. */
  lemma NetworkLedger(files: Files, log: seq<Command>, oldIface: string, newIface: string, oracle: nat -> Outcome)
    ensures Ledger(NetworkRun(files, log, oldIface, newIface, oracle), oracle, |log|)
  {
    var w0 := World(files, log, true, [], []);
    var k := |log|;
    var w1 := RunPlan(w0, UdevPlan(), oracle);
    LedgerPlan(w0, UdevPlan(), oracle, k);
    var configType := ProbeAnswer(CONFIG_CHECKS, oracle, |w1.log|);
    var w2 := Detected(w1, oracle);
    LedgerProbe(w1, CONFIG_CHECKS, oracle, k, w2.actions[|w1.actions|..]);
    assert w2.actions == w1.actions + w2.actions[|w1.actions|..];
    var w3 := FixStage(w2, configType, oldIface, newIface, oracle);
    LedgerFix(w2, configType, oldIface, newIface, oracle, k);
    LedgerPlan(w3, CleanupPlan(STATE_PATHS), oracle, k);
  }

  lemma LedgerFix(w: World, configType: string, oldIface: string, newIface: string, oracle: nat -> Outcome, k: nat)
    requires Ledger(w, oracle, k)
    ensures Ledger(FixStage(w, configType, oldIface, newIface, oracle), oracle, k)
  {
    hide RunPlan, Faults, NetplanPlan, IfcfgPlan, NetworkdPlan, NetworkManagerPlan;
    LedgerPlan(w, NetplanPlan(oldIface, newIface), oracle, k);
    LedgerPlan(w, IfcfgPlan(oldIface, newIface), oracle, k);
    LedgerPlan(w, NetworkdPlan(oldIface, newIface), oracle, k);
    LedgerPlan(w, NetworkManagerPlan(oldIface, newIface), oracle, k);
  }

  method FixConfig(image: Image, configType: string, oldIface: string, newIface: string, result: FixupResult)
    modifies image, result
    ensures Now(image, result) == FixStage(old(Now(image, result)), configType, oldIface, newIface, image.oracle)
  {
    if configType == "netplan" {
      Perform(image, result, NetplanPlan(oldIface, newIface));
    } else if configType == "ifcfg" {
      Perform(image, result, IfcfgPlan(oldIface, newIface));
    } else if configType == "networkd" {
      Perform(image, result, NetworkdPlan(oldIface, newIface));
    } else if configType == "nm" {
      Perform(image, result, NetworkManagerPlan(oldIface, newIface));
    } else {
      result.actions := result.actions + ["No static network config found, likely uses DHCP"];
    }
  }

  /** No call of this fixup treats a non-zero exit code as an error. */
  predicate Lenient(log: seq<Command>, k: nat) { forall i | k <= i < |log| :: !log[i].RebuildImage? }

  lemma LenientPlan(w: World, steps: seq<Step>, oracle: nat -> Outcome, k: nat)
    requires Plan(steps) && k <= |w.log| && Lenient(w.log, k)
    requires forall i | 0 <= i < |steps| :: !steps[i].cmd.RebuildImage?
    ensures k <= |RunPlan(w, steps, oracle).log| && Lenient(RunPlan(w, steps, oracle).log, k)
  {
    PlanCalls(w, steps, oracle);
  }

  lemma {:induction false} EditCommands(dir: string, suffix: string, pre: string, what: string,
                                        names: seq<string>, newIface: string)
    requires NonEmpty(names)
    ensures forall i | 0 <= i < |names| ::
      EditPlan(dir, suffix, pre, what, names, newIface)[i].cmd == SedFiles(dir, suffix, pre + names[i], pre + newIface)
    decreases |names|
  {
    if names != [] { EditCommands(dir, suffix, pre, what, names[1..], newIface); }
  }

  lemma {:induction false} MoveCommands(dir: string, names: seq<string>, newIface: string)
    ensures forall i | 0 <= i < |names| :: MovePlan(dir, names, newIface)[i].cmd == MoveIfcfg(dir, names[i], newIface)
    decreases |names|
  {
    if names != [] { MoveCommands(dir, names[1..], newIface); }
  }

  lemma {:induction false} CleanupCommands(paths: seq<string>)
    ensures forall i | 0 <= i < |paths| :: CleanupPlan(paths)[i].cmd == Remove(paths[i], true)
    decreases |paths|
  {
    if paths != [] { CleanupCommands(paths[1..]); }
  }

  lemma LenientFix(w: World, configType: string, oldIface: string, newIface: string, oracle: nat -> Outcome, k: nat)
    requires k <= |w.log| && Lenient(w.log, k)
    ensures var log := FixStage(w, configType, oldIface, newIface, oracle).log;
      k <= |log| && Lenient(log, k)
  {
    hide RunPlan, EditPlan, MovePlan, IfacesToReplace;
    var names := IfacesToReplace(oldIface);
    EditCommands(NETPLAN_DIR, ".yaml", "", "Netplan", names, newIface);
    EditCommands(NETWORKD_DIR, ".network", "Name=", "networkd", names, newIface);
    EditCommands(NM_DIR, "", "interface-name=", "NetworkManager", names, newIface);
    MoveCommands(IFCFG_DIR, names, newIface);
    LenientPlan(w, NetplanPlan(oldIface, newIface), oracle, k);
    LenientPlan(w, IfcfgPlan(oldIface, newIface), oracle, k);
    LenientPlan(w, NetworkdPlan(oldIface, newIface), oracle, k);
    LenientPlan(w, NetworkManagerPlan(oldIface, newIface), oracle, k);
  }

  /** Success is reported exactly when no virt-customize call found its tool
      missing. Exit codes play no part, nor does a missing probing tool. */
  lemma NetworkSuccessIff(files: Files, log: seq<Command>, oldIface: string, newIface: string, oracle: nat -> Outcome)
    ensures var w := NetworkRun(files, log, oldIface, newIface, oracle);
      && |log| <= |w.log|
      && (w.success <==> forall i | |log| <= i < |w.log| :: IsProbe(w.log[i]) || !oracle(i).Missing?)
  {
    hide RunPlan, FixStage, ProbeAnswer, ProbeCalls, Faults;
    var w := NetworkRun(files, log, oldIface, newIface, oracle);
    var k := |log|;
    var w0 := World(files, log, true, [], []);
    var w1 := RunPlan(w0, UdevPlan(), oracle);
    LenientPlan(w0, UdevPlan(), oracle, k);
    ProbesAreSilent(CONFIG_CHECKS, oracle, |w1.log|);
    var w2 := Detected(w1, oracle);
    var configType := ProbeAnswer(CONFIG_CHECKS, oracle, |w1.log|);
    LenientFix(w2, configType, oldIface, newIface, oracle, k);
    var w3 := FixStage(w2, configType, oldIface, newIface, oracle);
    CleanupCommands(STATE_PATHS);
    LenientPlan(w3, CleanupPlan(STATE_PATHS), oracle, k);
    NetworkLedger(files, log, oldIface, newIface, oracle);
    NoFaultsIff(w.log, oracle, k);
    assert forall i | k <= i < |w.log| ::
      ErrorFor(w.log[i], oracle(i)) == [] <==> IsProbe(w.log[i]) || !oracle(i).Missing?;
  }

  // ---------------------------------------------------------------------
  // In-place edits: what happens to one file
  // ---------------------------------------------------------------------

  function Prefixed(pre: string, names: seq<string>): (r: seq<string>)
    ensures |r| == |names| && forall i | 0 <= i < |names| :: r[i] == pre + names[i]
  {
    seq(|names|, i requires 0 <= i < |names| => pre + names[i])
  }

  lemma PrefixedEmpty(names: seq<string>)
    ensures Prefixed("", names) == names
  {
    assert forall i | 0 <= i < |names| :: "" + names[i] == names[i];
  }

  /** The names whose pass got to file `f`. */
  function Reached(names: seq<string>, f: string, oracle: nat -> Outcome, k: nat): (r: seq<string>)
    requires NonEmpty(names)
    ensures NonEmpty(r) && forall n | n in r :: n in names
    decreases |names|
  {
    if names == [] then []
    else
      var rest := Reached(names[1..], f, oracle, k + 1);
      if oracle(k).Missing? then [] else if GotTo(oracle(k), f) then [names[0]] + rest else rest
  }

  lemma PrefixedFirst(s: string, pre: string, n: string, rest: seq<string>, r: string)
    requires pre + n != "" && NonEmpty(Prefixed(pre, rest))
    ensures NonEmpty(Prefixed(pre, [n] + rest))
    ensures ReplaceEach(s, Prefixed(pre, [n] + rest), r)
         == ReplaceEach(ReplaceAll(s, pre + n, r), Prefixed(pre, rest), r)
  {
    assert Prefixed(pre, [n] + rest)[0] == pre + n;
    assert Prefixed(pre, [n] + rest)[1..] == Prefixed(pre, rest);
  }

  lemma AfterEdit(w: World, s: Step, o: Outcome, f: string)
    requires s.cmd.SedFiles? && WellFormed(s.cmd) && f in w.files
    ensures After(w, s, o).files.Keys == w.files.Keys && After(w, s, o).log == w.log + [s.cmd]
    ensures After(w, s, o).files[f] ==
      if Selected(s.cmd.dir, s.cmd.suffix, f) && GotTo(o, f)
      then ReplaceAll(w.files[f], s.cmd.pattern, s.cmd.inserted) else w.files[f]
  {
  }

  /** One file's text through the passes, pass by pass. */
  function TextAfter(text: string, pre: string, names: seq<string>, newIface: string,
                     oracle: nat -> Outcome, k: nat, f: string): string
    requires NonEmpty(names)
    decreases |names|
  {
    if names == [] || oracle(k).Missing? then text
    else
      TextAfter(if GotTo(oracle(k), f) then ReplaceAll(text, pre + names[0], pre + newIface) else text,
                pre, names[1..], newIface, oracle, k + 1, f)
  }

  lemma {:induction false} TextIsEach(text: string, pre: string, names: seq<string>, newIface: string,
                                      oracle: nat -> Outcome, k: nat, f: string)
    requires NonEmpty(names)
    ensures NonEmpty(Prefixed(pre, Reached(names, f, oracle, k)))
    ensures TextAfter(text, pre, names, newIface, oracle, k, f)
         == ReplaceEach(text, Prefixed(pre, Reached(names, f, oracle, k)), pre + newIface)
    decreases |names|
  {
    if names != [] && !oracle(k).Missing? {
      var rest := Reached(names[1..], f, oracle, k + 1);
      if GotTo(oracle(k), f) {
        TextIsEach(ReplaceAll(text, pre + names[0], pre + newIface), pre, names[1..], newIface, oracle, k + 1, f);
        PrefixedFirst(text, pre, names[0], rest, pre + newIface);
      } else {
        TextIsEach(text, pre, names[1..], newIface, oracle, k + 1, f);
      }
    }
  }

  lemma {:induction false} FileIsText(w: World, dir: string, suffix: string, pre: string, what: string,
                                      names: seq<string>, newIface: string, oracle: nat -> Outcome, f: string)
    requires NonEmpty(names) && f in w.files
    ensures var w' := RunPlan(w, EditPlan(dir, suffix, pre, what, names, newIface), oracle);
      && w'.files.Keys == w.files.Keys
      && w'.files[f] == if Selected(dir, suffix, f)
           then TextAfter(w.files[f], pre, names, newIface, oracle, |w.log|, f) else w.files[f]
    decreases |names|
  {
    if names != [] {
      var plan := EditPlan(dir, suffix, pre, what, names, newIface);
      var o := oracle(|w.log|);
      assert plan[1..] == EditPlan(dir, suffix, pre, what, names[1..], newIface);
      AfterEdit(w, plan[0], o, f);
      hide Effect, ReplaceAll, Selected, ErrorFor;
      if !o.Missing? {
        FileIsText(After(w, plan[0], o), dir, suffix, pre, what, names[1..], newIface, oracle, f);
      }
    }
  }

  /** A selected file goes through one substitution for each pass that got to
      it; every other file keeps its text; no file comes or goes. */
  lemma {:induction false} FileAfter(w: World, dir: string, suffix: string, pre: string, what: string,
                                     names: seq<string>, newIface: string, oracle: nat -> Outcome, f: string)
    requires NonEmpty(names) && f in w.files
    ensures var w' := RunPlan(w, EditPlan(dir, suffix, pre, what, names, newIface), oracle);
      && w'.files.Keys == w.files.Keys
      && NonEmpty(Prefixed(pre, Reached(names, f, oracle, |w.log|)))
      && w'.files[f] == if Selected(dir, suffix, f)
           then ReplaceEach(w.files[f], Prefixed(pre, Reached(names, f, oracle, |w.log|)), pre + newIface)
           else w.files[f]
  {
    FileIsText(w, dir, suffix, pre, what, names, newIface, oracle, f);
    TextIsEach(w.files[f], pre, names, newIface, oracle, |w.log|, f);
  }

  predicate AllDone(oracle: nat -> Outcome, k: nat, n: nat) { forall i | k <= i < k + n :: oracle(i).Done? }

  lemma {:induction false} AllReached(names: seq<string>, f: string, oracle: nat -> Outcome, k: nat)
    requires NonEmpty(names) && AllDone(oracle, k, |names|)
    ensures Reached(names, f, oracle, k) == names
    decreases |names|
  {
    if names != [] { AllReached(names[1..], f, oracle, k + 1); }
  }

  // ---------------------------------------------------------------------
  // Stale state
  // ---------------------------------------------------------------------

  /** The files a cleanup is about: generated udev rules and the state of
      NetworkManager. */
  predicate Stale(f: string) { exists i | 0 <= i < |STATE_PATHS| :: Removed(STATE_PATHS[i], true, f) }

  function Purged(files: Files): Files { map f | f in files && !Stale(f) :: files[f] }

  lemma StateHeads()
    ensures forall path | path in STATE_PATHS :: |path| > 6 && (path[1] != 'e' || path[5] == 'u')
  {
  }

  lemma RemovedHead(path: string, f: string)
    requires |path| > 6 && Removed(path, true, f)
    ensures |f| > 5 && f[1] == path[1] && f[5] == path[5]
  {
    if path[|path| - 1] == '*' {
      var pre := path[..|path| - 1];
      assert pre[1] == path[1] && pre[5] == path[5];
    } else if f != path {
      assert (path + "/")[1] == path[1] && (path + "/")[5] == path[5];
    }
  }

  lemma StaleHead(f: string)
    requires Stale(f)
    ensures |f| > 5 && (f[1] != 'e' || f[5] == 'u')
  {
    StateHeads();
    hide Removed;
    var i :| 0 <= i < |STATE_PATHS| && Removed(STATE_PATHS[i], true, f);
    assert STATE_PATHS[i] in STATE_PATHS;
    RemovedHead(STATE_PATHS[i], f);
  }

  lemma ConfigHead(dir: string)
    requires dir in [NETPLAN_DIR, IFCFG_DIR, NETWORKD_DIR, NM_DIR]
    ensures |dir| > 6 && dir[1] == 'e' && dir[5] != 'u'
  {
  }

  /** No file of the four configuration directories is stale. */
  lemma ConfigIsNotStale(dir: string, f: string)
    requires dir in [NETPLAN_DIR, IFCFG_DIR, NETWORKD_DIR, NM_DIR] && dir + "/" <= f
    ensures !Stale(f)
  {
    ConfigHead(dir);
    hide *;
    assert f[1] == dir[1] && f[5] == dir[5];
    if Stale(f) { StaleHead(f); }
  }

  /** Cleaning up without failures removes exactly the stale files. */
  lemma CleanupPurges(w: World, oracle: nat -> Outcome)
    requires AllDone(oracle, |w.log|, |STATE_PATHS|)
    ensures RunPlan(w, CleanupPlan(STATE_PATHS), oracle).files == Purged(w.files)
  {
    hide RunPlan, CleanupPlan, Removed;
    var steps, k := CleanupPlan(STATE_PATHS), |w.log|;
    var w' := RunPlan(w, steps, oracle);
    CleanupCommands(STATE_PATHS);
    PlanCalls(w, steps, oracle);
    forall f ensures f in w'.files <==> f in w.files && !Stale(f)
             ensures f in w'.files ==> w'.files[f] == w.files[f] {
      LeftIff(w, steps, oracle, f);
      assert forall i | 0 <= i < |STATE_PATHS| ::
        Takes(w'.log[k + i], oracle(k + i), f) <==> Removed(STATE_PATHS[i], true, f);
    }
  }

  /** The first call without failure removes nothing but the udev rules. */
  lemma UdevRemoves(w: World, oracle: nat -> Outcome)
    requires oracle(|w.log|).Done?
    ensures RunPlan(w, UdevPlan(), oracle).files == w.files - {UDEV_NET_RULES}
    ensures Stale(UDEV_NET_RULES)
  {
    assert Removed(STATE_PATHS[2], true, UDEV_NET_RULES);
    assert RunPlan(w, UdevPlan(), oracle).files == Effect(Remove(UDEV_NET_RULES, false), w.files, oracle(|w.log|));
  }

  lemma UntakenParts(f: string, a: seq<Command>, b: seq<Command>, oracle: nat -> Outcome, k: nat)
    requires a <= b && k <= |a|
    ensures Untaken(f, b, oracle, k) <==> Untaken(f, a, oracle, k) && Untaken(f, b, oracle, |a|)
  {
    hide Takes;
    assert forall i | 0 <= i < |a| :: a[i] == b[i];
  }

  /** Calls that remove no file but stale ones. */
  predicate OnlyStale(f: string, steps: seq<Step>) {
    forall i | 0 <= i < |steps| && steps[i].cmd.Remove? ::
      Removed(steps[i].cmd.path, steps[i].cmd.recursive, f) ==> Stale(f)
  }

  /** Since call `k` a file is left exactly when it was there and no call took it,
      and the calls took only stale files. */
  predicate LeftSince(f: string, was: bool, w: World, oracle: nat -> Outcome, k: nat) {
    && k <= |w.log|
    && (f in w.files <==> was && Untaken(f, w.log, oracle, k))
    && (!Stale(f) ==> Untaken(f, w.log, oracle, k))
  }

  lemma LeftByPlan(f: string, was: bool, w: World, steps: seq<Step>, oracle: nat -> Outcome, k: nat)
    requires Plan(steps) && Edits(steps) && OnlyStale(f, steps) && LeftSince(f, was, w, oracle, k)
    ensures LeftSince(f, was, RunPlan(w, steps, oracle), oracle, k)
  {
    hide RunPlan, Removed, Stale;
    LeftIff(w, steps, oracle, f);
    PlanCalls(w, steps, oracle);
    UntakenParts(f, w.log, RunPlan(w, steps, oracle).log, oracle, k);
  }

  lemma LeftByFix(f: string, was: bool, w: World, configType: string, oldIface: string, newIface: string,
                  oracle: nat -> Outcome, k: nat)
    requires configType != "ifcfg" && LeftSince(f, was, w, oracle, k)
    ensures LeftSince(f, was, FixStage(w, configType, oldIface, newIface, oracle), oracle, k)
  {
    hide RunPlan, EditPlan, Removed, Stale, LeftSince, IfacesToReplace;
    var names := IfacesToReplace(oldIface);
    EditCommands(NETPLAN_DIR, ".yaml", "", "Netplan", names, newIface);
    EditCommands(NETWORKD_DIR, ".network", "Name=", "networkd", names, newIface);
    EditCommands(NM_DIR, "", "interface-name=", "NetworkManager", names, newIface);
    LeftByPlan(f, was, w, NetplanPlan(oldIface, newIface), oracle, k);
    LeftByPlan(f, was, w, NetworkdPlan(oldIface, newIface), oracle, k);
    LeftByPlan(f, was, w, NetworkManagerPlan(oldIface, newIface), oracle, k);
    SameFilesAndLog(f, was, w, w.(actions := w.actions + ["No static network config found, likely uses DHCP"]),
                    oracle, k);
  }

  lemma SameFilesAndLog(f: string, was: bool, w: World, w': World, oracle: nat -> Outcome, k: nat)
    requires w.files == w'.files && w.log == w'.log
    ensures LeftSince(f, was, w, oracle, k) <==> LeftSince(f, was, w', oracle, k)
  {
  }

  lemma UdevOnlyStale(f: string)
    ensures Edits(UdevPlan()) && OnlyStale(f, UdevPlan())
  {
    hide Stale;
    if Removed(UDEV_NET_RULES, false, f) { UdevIsStale(); }
  }

  lemma UdevIsStale()
    ensures Stale(UDEV_NET_RULES)
  {
    assert Removed(STATE_PATHS[2], true, UDEV_NET_RULES);
  }

  lemma CleanupOnlyStale(f: string)
    ensures Edits(CleanupPlan(STATE_PATHS)) && OnlyStale(f, CleanupPlan(STATE_PATHS))
  {
    hide CleanupPlan, Removed;
    CleanupCommands(STATE_PATHS);
  }

  lemma Started(f: string, files: Files, log: seq<Command>, oracle: nat -> Outcome)
    ensures LeftSince(f, f in files, World(files, log, true, [], []), oracle, |log|)
  {
    hide Stale;
  }

  lemma LeftByProbe(f: string, was: bool, w: World, oracle: nat -> Outcome, k: nat)
    requires LeftSince(f, was, w, oracle, k)
    ensures LeftSince(f, was, Detected(w, oracle), oracle, k)
  {
    hide ProbeCalls, ProbeAnswer, Removed, Stale;
    ProbesAreSilent(CONFIG_CHECKS, oracle, |w.log|);
    UntakenParts(f, w.log, Detected(w, oracle).log, oracle, k);
  }

  /** Under every oracle, unless ifcfg scripts are renamed: the files of the guest
      are afterwards those that no removal took, and all that are not stale. */
  lemma NetworkLeftIff(files: Files, log: seq<Command>, oldIface: string, newIface: string,
                       oracle: nat -> Outcome, f: string)
    requires ProbeAnswer(CONFIG_CHECKS, oracle, |log| + 1) != "ifcfg"
    ensures var w := NetworkRun(files, log, oldIface, newIface, oracle);
      && (f in w.files <==> f in files && Untaken(f, w.log, oracle, |log|))
      && (f in files && !Stale(f) ==> f in w.files)
  {
    var w0, k, was := World(files, log, true, [], []), |log|, f in files;
    var w1 := RunPlan(w0, UdevPlan(), oracle);
    PlanCalls(w0, UdevPlan(), oracle);
    assert |w1.log| == |log| + 1;
    hide RunPlan, FixStage, Detected, ProbeAnswer, UdevPlan, CleanupPlan, LeftSince, OnlyStale, Stale;
    assert LeftSince(f, was, w0, oracle, k) by { Started(f, files, log, oracle); }
    UdevOnlyStale(f);
    LeftByPlan(f, was, w0, UdevPlan(), oracle, k);
    LeftByProbe(f, was, w1, oracle, k);
    var w2, configType := Detected(w1, oracle), ProbeAnswer(CONFIG_CHECKS, oracle, |w1.log|);
    LeftByFix(f, was, w2, configType, oldIface, newIface, oracle, k);
    var w3 := FixStage(w2, configType, oldIface, newIface, oracle);
    CleanupOnlyStale(f);
    LeftByPlan(f, was, w3, CleanupPlan(STATE_PATHS), oracle, k);
  }

  function AlwaysFails(): nat -> Outcome { k => NonZero({}, 0, map[]) }

  lemma {:induction false} NoAnswer(probes: seq<(Command, string)>, k: nat)
    ensures ProbeAnswer(probes, AlwaysFails(), k) == ""
    decreases |probes|
  {
    if probes != [] { NoAnswer(probes[1..], k + 1); }
  }

  /** A run in which every call fails without doing anything: success is reported,
      and no file has been removed. */
  lemma FailingRunSucceeds(files: Files, log: seq<Command>, oldIface: string, newIface: string)
    ensures var w := NetworkRun(files, log, oldIface, newIface, AlwaysFails());
      w.success && w.files.Keys == files.Keys
  {
    hide NetworkRun, RunPlan, ProbeAnswer, ProbeCalls, FixStage, Detected, Removed, Stale;
    NetworkSuccessIff(files, log, oldIface, newIface, AlwaysFails());
    NoAnswer(CONFIG_CHECKS, |log| + 1);
    assert "ifcfg" != "";
    forall f ensures f in NetworkRun(files, log, oldIface, newIface, AlwaysFails()).files <==> f in files {
      NetworkLeftIff(files, log, oldIface, newIface, AlwaysFails(), f);
    }
  }
}
