/** The whole network fixup, told from the guest: which directory shows something
    decides what is renamed (vmfree/fixup/network.py). */
module GuestNetwork {
  import opened Substitution
  import opened Guest
  import opened NetworkFixup
  import opened NetworkNames
  import opened IfcfgMoves
  import Text

  // ---------------------------------------------------------------------
  // What the fixup is for
  // ---------------------------------------------------------------------

  /** The interface names that are replaced. */
  function Names(oldIface: string): seq<string> {
    if oldIface != "" then [oldIface] else ["ens160", "ens192", "ens224", "ens256", "ens161", "ens193"]
  }

  predicate AtOrBelow(f: string, path: string) { f == path || path + "/" <= f }

  predicate VisibleIn(f: string, dir: string) { dir <= f && |f| > |dir| && f[|dir|] != '.' && f[|dir|] != '/' }

  /** Generated udev rules and the state of NetworkManager. */
  predicate IsStale(f: string) {
    || AtOrBelow(f, "/etc/udev/rules.d/70-persistent-net.rules")
    || AtOrBelow(f, "/etc/udev/rules.d/75-persistent-net-generator.rules")
    || VisibleIn(f, "/var/lib/NetworkManager/") || VisibleIn(f, "/run/NetworkManager/")
  }

  /** The directories that are listed, in this order. */
  function ConfigDirs(): (r: seq<string>)
    ensures |r| == 4
  {
    ["/etc/netplan", "/etc/sysconfig/network-scripts", "/etc/systemd/network", "/etc/NetworkManager/system-connections"]
  }

  /** Call `at` listed the directory and showed something. */
  predicate Shown(log: seq<Command>, oracle: nat -> Outcome, at: nat, dir: string) {
    at < |log| && log[at] == VirtLs(dir) && oracle(at).Done? && Text.Strip(oracle(at).listing) != ""
  }

  predicate NotShown(log: seq<Command>, oracle: nat -> Outcome, at: nat, dir: string) {
    at < |log| && log[at] == VirtLs(dir) && !oracle(at).Missing? && !Shown(log, oracle, at, dir)
  }

  /** Directory `i` is the first that shows something when they are listed from call
      `k` on; 4 when none of them does. */
  predicate FirstShown(log: seq<Command>, oracle: nat -> Outcome, k: nat, i: nat) {
    && i <= 4 && (forall j: nat | j < i :: NotShown(log, oracle, k + j, ConfigDirs()[j]))
    && (i < 4 ==> Shown(log, oracle, k + i, ConfigDirs()[i]))
  }

  /** A file somewhere below a directory, with an ending. */
  ghost predicate Below(f: string, dir: string, suffix: string) {
    dir + "/" <= f && exists front :: f == front + suffix
  }

  ghost predicate OnlyStaleGone(files: Files, after: Files) {
    forall f :: (f in after <==> f in files && !IsStale(f)) && (f in after ==> after[f] == files[f])
  }

  /** The stale files are gone, in the files of a directory the names are replaced
      one after another, behind a prefix, and every other file is as before. */
  ghost predicate Edited(files: Files, after: Files, dir: string, suffix: string, pre: string, names: seq<string>,
                         newIface: string)
  {
    forall f ::
      && (f in after <==> f in files && !IsStale(f))
      && (f in after ==>
            if Below(f, dir, suffix)
            then NonEmpty(Prefixed(pre, names))
                 && after[f] == ReplaceEach(files[f], Prefixed(pre, names), pre + newIface)
            else after[f] == files[f])
  }

  function Script(iface: string): string { "/etc/sysconfig/network-scripts/ifcfg-" + iface }

  predicate HasOwnScript(files: Files, iface: string, newIface: string) { iface != newIface && Script(iface) in files }

  /** The scripts of the old names are gone. */
  ghost predicate ScriptsGone(after: Files, names: seq<string>, newIface: string) {
    forall i | 0 <= i < |names| && names[i] != newIface :: Script(names[i]) !in after
  }

  predicate LastWithScript(files: Files, names: seq<string>, newIface: string, k: nat) {
    && k < |names| && HasOwnScript(files, names[k], newIface)
    && forall j | k < j < |names| :: !HasOwnScript(files, names[j], newIface)
  }

  /** The script of the new name is that of the last old name, rewritten. */
  ghost predicate TargetIs(files: Files, after: Files, names: seq<string>, newIface: string) {
    forall k: nat | LastWithScript(files, names, newIface, k) ::
      && Script(newIface) in after
      && after[Script(newIface)]
         == ReplaceAll(ReplaceAll(files[Script(names[k])], "DEVICE=" + names[k], "DEVICE=" + newIface),
                       "NAME=" + names[k], "NAME=" + newIface)
  }

  /** Every other file is as before, unless it is stale. */
  ghost predicate OthersSame(files: Files, after: Files, names: seq<string>, newIface: string) {
    forall f | f != Script(newIface) && (forall i | 0 <= i < |names| :: f != Script(names[i])) ::
      (f in after <==> f in files && !IsStale(f)) && (f in after ==> after[f] == files[f])
  }

  /** The scripts of a guest have been renamed; without one only stale files are gone. */
  ghost predicate ScriptsMoved(files: Files, after: Files, names: seq<string>, newIface: string) {
    && ScriptsGone(after, names, newIface) && TargetIs(files, after, names, newIface)
    && OthersSame(files, after, names, newIface)
    && ((forall i | 0 <= i < |names| :: !HasOwnScript(files, names[i], newIface)) ==> OnlyStaleGone(files, after))
  }

  /** What has become of the files of a guest in which directory `i` is the first
      that shows something. */
  ghost predicate Fixed(files: Files, after: Files, i: nat, oldIface: string, newIface: string) {
    var names := Names(oldIface);
    if i == 0 then Edited(files, after, "/etc/netplan", ".yaml", "", names, newIface)
    else if i == 1 then ScriptsMoved(files, after, names, newIface)
    else if i == 2 then Edited(files, after, "/etc/systemd/network", ".network", "Name=", names, newIface)
    else if i == 3 then
      Edited(files, after, "/etc/NetworkManager/system-connections", "", "interface-name=", names, newIface)
    else OnlyStaleGone(files, after)
  }

  /** A fixup in which no call fails. */
  ghost predicate GuestFixed(files: Files, log: seq<Command>, w: World, oldIface: string, newIface: string,
                             oracle: nat -> Outcome)
  {
    && w.success && w.errors == []
    && exists i: nat :: FirstShown(w.log, oracle, |log| + 1, i) && Fixed(files, w.files, i, oldIface, newIface)
  }

  // ---------------------------------------------------------------------
  // The calls and the report
  // ---------------------------------------------------------------------

  function Sed(dir: string, suffix: string, pre: string, what: string, n: string, newIface: string): Step {
    Step(SedFiles(dir, suffix, pre + n, pre + newIface), ["Updated " + what + ": " + n + " -> " + newIface], [])
  }

  function Moved(n: string, newIface: string): Step {
    Step(MoveIfcfg("/etc/sysconfig/network-scripts", n, newIface), ["Updated ifcfg: " + n + " -> " + newIface], [])
  }

  function Cleaned(path: string): Step { Step(Remove(path, true), ["Cleaned up: " + path], []) }

  /** The calls for a guest in which directory `i` is the first that shows something:
      one for each name. */
  function ConfigScript(i: nat, names: seq<string>, newIface: string): seq<Step> {
    if i == 0 then
      seq(|names|, k requires 0 <= k < |names| => Sed("/etc/netplan", ".yaml", "", "Netplan", names[k], newIface))
    else if i == 1 then seq(|names|, k requires 0 <= k < |names| => Moved(names[k], newIface))
    else if i == 2 then
      seq(|names|, k requires 0 <= k < |names| =>
        Sed("/etc/systemd/network", ".network", "Name=", "networkd", names[k], newIface))
    else if i == 3 then
      seq(|names|, k requires 0 <= k < |names| =>
        Sed("/etc/NetworkManager/system-connections", "", "interface-name=", "NetworkManager", names[k], newIface))
    else []
  }

  function RulesScript(): (r: seq<Step>)
    ensures |r| == 1
  {
    [Step(Remove("/etc/udev/rules.d/70-persistent-net.rules", false), ["Removed stale udev persistent net rules"], [])]
  }

  function StaleScript(): seq<Step> {
    [Cleaned("/var/lib/NetworkManager/*"), Cleaned("/run/NetworkManager/*"),
     Cleaned("/etc/udev/rules.d/70-persistent-net.rules"),
     Cleaned("/etc/udev/rules.d/75-persistent-net-generator.rules")]
  }

  function ConfigActions(i: nat): seq<string> {
    if i == 0 then ["Detected network config: netplan"]
    else if i == 1 then ["Detected network config: ifcfg"]
    else if i == 2 then ["Detected network config: networkd"]
    else if i == 3 then ["Detected network config: nm"]
    else ["Detected network config: none", "No static network config found, likely uses DHCP"]
  }

  ghost predicate LogIs(log: seq<Command>, after: seq<Command>, listed: seq<Command>, script: seq<Step>) {
    after == log + CallsOf(RulesScript()) + listed + CallsOf(script) + CallsOf(StaleScript())
  }

  ghost predicate ReportIs(actions: seq<string>, i: nat, script: seq<Step>, oracle: nat -> Outcome, start: nat,
                           k: nat)
  {
    actions == Told(RulesScript(), oracle, start) + ConfigActions(i) + Told(script, oracle, k)
               + Told(StaleScript(), oracle, k + |script|)
  }

  ghost predicate CallsAre(log: seq<Command>, w: World, listed: seq<Command>, i: nat, script: seq<Step>,
                           oracle: nat -> Outcome)
  {
    && FirstShown(w.log, oracle, |log| + 1, i) && |listed| == (if i < 4 then i + 1 else 4)
    && LogIs(log, w.log, listed, script)
    && ReportIs(w.actions, i, script, oracle, |log|, |log| + 1 + |listed|)
  }

  /** The calls of a fixup that finds all its tools, and what its report says of them. */
  ghost predicate CallsMade(log: seq<Command>, w: World, oldIface: string, newIface: string, oracle: nat -> Outcome) {
    exists i: nat, listed: seq<Command> ::
      CallsAre(log, w, listed, i, ConfigScript(i, Names(oldIface), newIface), oracle)
  }

  // ---------------------------------------------------------------------
  // fix_guest_network
  // ---------------------------------------------------------------------

  method FixGuestNetwork(image: Image, oldIface: string, newIface: string) returns (result: FixupResult)
    modifies image
    ensures fresh(result)
    ensures !image.present ==>
      image.files == old(image.files) && image.log == old(image.log)
      && !result.success && result.errors == ["Disk image not found: " + image.path]
    ensures image.present ==>
      Now(image, result) == NetworkRun(old(image.files), old(image.log), oldIface, newIface, image.oracle)
      && Ledger(Now(image, result), image.oracle, |old(image.log)|)
    ensures image.present && NoneMissing(image.oracle, |old(image.log)|) ==>
      CallsMade(old(image.log), Now(image, result), oldIface, newIface, image.oracle)
    ensures image.present && DoneFrom(image.oracle, |old(image.log)|) ==>
      GuestFixed(old(image.files), old(image.log), Now(image, result), oldIface, newIface, image.oracle)
    ensures result.success <==> result.errors == []
  {
    hide RunPlan, FixStage, UdevPlan, CleanupPlan, ProbeAnswer, ProbeCalls, Faults;
    hide GuestFixed, DoneFrom, CallsMade, NoneMissing;
    if !image.present {
      result := new FixupResult(false, ["Disk image not found: " + image.path]);
      return;
    }
    result := new FixupResult(true, []);
    NetworkLedger(image.files, image.log, oldIface, newIface, image.oracle);
    if NoneMissing(image.oracle, |image.log|) {
      NetworkCallsMade(image.files, image.log, oldIface, newIface, image.oracle);
    }
    if DoneFrom(image.oracle, |image.log|) { NetworkIsFixed(image.files, image.log, oldIface, newIface, image.oracle); }
    Perform(image, result, UdevPlan());
    var configType := Probe(image, CONFIG_CHECKS);
    result.actions := result.actions
      + ["Detected network config: " + if configType != "" then configType else "none"];
    FixConfig(image, configType, oldIface, newIface, result);
    Perform(image, result, CleanupPlan(STATE_PATHS));
  }

  // ---------------------------------------------------------------------
  // The tables of the fixup say that
  // ---------------------------------------------------------------------

  lemma StaleIff(f: string)
    ensures Stale(f) <==> IsStale(f)
  {
    RulesIff(f);
    StateIff(f);
    hide Removed, AtOrBelow, VisibleIn;
    assert forall i | 0 <= i < 4 :: Removed(STATE_PATHS[i], true, f) ==> Stale(f);
  }

  lemma RulesIff(f: string)
    ensures Removed(STATE_PATHS[2], true, f) <==> AtOrBelow(f, "/etc/udev/rules.d/70-persistent-net.rules")
    ensures Removed(STATE_PATHS[3], true, f) <==> AtOrBelow(f, "/etc/udev/rules.d/75-persistent-net-generator.rules")
  {
  }

  lemma StateIff(f: string)
    ensures Removed(STATE_PATHS[0], true, f) <==> VisibleIn(f, "/var/lib/NetworkManager/")
    ensures Removed(STATE_PATHS[1], true, f) <==> VisibleIn(f, "/run/NetworkManager/")
  {
    var a, b := "/var/lib/NetworkManager/", "/run/NetworkManager/";
    assert STATE_PATHS[0] == a + "*" && STATE_PATHS[1] == b + "*";
    assert (a + "*")[..|a|] == a && (b + "*")[..|b|] == b;
  }

  lemma NamesAre(oldIface: string)
    ensures IfacesToReplace(oldIface) == Names(oldIface)
  {
  }

  lemma BelowIff(f: string, dir: string, suffix: string)
    ensures Below(f, dir, suffix) <==> Selected(dir, suffix, f)
  {
    if Selected(dir, suffix, f) { assert f == f[..|f| - |suffix|] + suffix; }
  }

  function ConfigType(i: nat): string {
    if i == 0 then "netplan" else if i == 1 then "ifcfg" else if i == 2 then "networkd" else if i == 3 then "nm" else ""
  }

  lemma ChecksAre(j: nat)
    requires j < 4
    ensures CONFIG_CHECKS[j] == (VirtLs(ConfigDirs()[j]), ConfigType(j))
  {
  }

  /** The listing of the directories stopped at number `at`. */
  predicate StopsAt(log: seq<Command>, oracle: nat -> Outcome, k: nat, at: nat, answer: string) {
    && at <= 4 && (forall j: nat | j < at :: NotShown(log, oracle, k + j, ConfigDirs()[j]))
    && (at < 4 ==> oracle(k + at).Missing? || Shown(log, oracle, k + at, ConfigDirs()[at]))
    && answer == if at == 4 || oracle(k + at).Missing? then "" else ConfigType(at)
  }

  lemma Asked(log: seq<Command>, oracle: nat -> Outcome) returns (at: nat)
    ensures StopsAt(log + ProbeCalls(CONFIG_CHECKS, oracle, |log|), oracle, |log|, at,
                    ProbeAnswer(CONFIG_CHECKS, oracle, |log|))
    ensures |ProbeCalls(CONFIG_CHECKS, oracle, |log|)| == if at < 4 then at + 1 else 4
  {
    var n, calls := |log|, ProbeCalls(CONFIG_CHECKS, oracle, |log|);
    at := ProbeIs(CONFIG_CHECKS, oracle, n);
    forall j: nat | j < 4 ensures CONFIG_CHECKS[j] == (VirtLs(ConfigDirs()[j]), ConfigType(j)) { ChecksAre(j); }
    hide ConfigType, ConfigDirs, ProbeCalls, ProbeAnswer;
    forall j: nat | j < |calls| ensures (log + calls)[n + j] == VirtLs(ConfigDirs()[j]) {
      assert (log + calls)[n + j] == calls[j];
    }
    forall j: nat | j < at ensures NotShown(log + calls, oracle, n + j, ConfigDirs()[j]) {
      assert SaysNo(CONFIG_CHECKS[j].0, oracle(n + j));
    }
  }

  lemma StoppedAt(log: seq<Command>, oracle: nat -> Outcome, k: nat, at: nat, answer: string, i: nat)
    requires StopsAt(log, oracle, k, at, answer) && i < 4
    ensures FirstShown(log, oracle, k, i) <==> i == at && !oracle(k + at).Missing?
  {
    hide ConfigDirs, ConfigType;
    assert i < at ==> NotShown(log, oracle, k + i, ConfigDirs()[i]);
    assert FirstShown(log, oracle, k, i) && at < i ==> NotShown(log, oracle, k + at, ConfigDirs()[at]);
  }

  lemma AnswerIff(log: seq<Command>, oracle: nat -> Outcome, k: nat, at: nat, answer: string, i: nat)
    requires StopsAt(log, oracle, k, at, answer) && i < 4
    ensures answer == ConfigType(i) <==> FirstShown(log, oracle, k, i)
  {
    StoppedAt(log, oracle, k, at, answer, i);
    if at < 4 { TypesDiffer(i, at); }
    TypesDiffer(i, i);
    hide ConfigDirs, ConfigType, FirstShown, Shown, NotShown;
  }

  /** Under every oracle: the configuration that the probing answers is that of the
      first directory that shows something. */
  lemma ConfigIff(log: seq<Command>, oracle: nat -> Outcome, i: nat)
    requires i < 4
    ensures ProbeAnswer(CONFIG_CHECKS, oracle, |log|) == ConfigType(i) <==>
      FirstShown(log + ProbeCalls(CONFIG_CHECKS, oracle, |log|), oracle, |log|, i)
  {
    hide *;
    var at := Asked(log, oracle);
    AnswerIff(log + ProbeCalls(CONFIG_CHECKS, oracle, |log|), oracle, |log|, at,
              ProbeAnswer(CONFIG_CHECKS, oracle, |log|), i);
  }

  lemma TypesDiffer(i: nat, j: nat)
    requires i < 4 && j < 4
    ensures ConfigType(j) != "" && (ConfigType(j) == ConfigType(i) <==> j == i)
  {
    assert |"netplan"| == 7 && |"ifcfg"| == 5 && |"networkd"| == 8 && |"nm"| == 2;
  }

  lemma AnsweredAt(log: seq<Command>, oracle: nat -> Outcome, k: nat, at: nat, answer: string)
    requires StopsAt(log, oracle, k, at, answer) && NoneMissing(oracle, k)
    ensures at <= 4 && FirstShown(log, oracle, k, at) && answer == ConfigType(at)
  {
    assert ConfigType(4) == "";
    hide ConfigDirs, ConfigType, Shown, NotShown;
  }

  lemma ShownMore(log: seq<Command>, more: seq<Command>, oracle: nat -> Outcome, k: nat, i: nat)
    requires log <= more && FirstShown(log, oracle, k, i)
    ensures FirstShown(more, oracle, k, i)
  {
  }

  // ---------------------------------------------------------------------
  // A run without failures
  // ---------------------------------------------------------------------

  lemma OnlyStalePurged(files: Files)
    ensures OnlyStaleGone(files, Purged(files))
  {
    hide Stale, IsStale;
    forall f ensures Stale(f) <==> IsStale(f) { StaleIff(f); }
  }

  /** Passes over the names replace them one after another. */
  lemma EditsRight(files: Files, log: seq<Command>, oracle: nat -> Outcome, configType: string,
                   dir: string, suffix: string, pre: string, what: string, oldIface: string, newIface: string)
    requires EditSite(configType, dir, suffix, pre, what) && DoneFrom(oracle, |log|)
    requires ProbeAnswer(CONFIG_CHECKS, oracle, |log| + 1) == configType
    ensures Edited(files, NetworkRun(files, log, oldIface, newIface, oracle).files, dir, suffix, pre, Names(oldIface),
                   newIface)
  {
    hide *;
    var names := Names(oldIface);
    NamesAre(oldIface);
    assert NonEmpty(IfacesToReplace(oldIface));
    assert NonEmpty(Prefixed(pre, names)) by { BehindNonEmpty(pre, names); }
    var w2 := SiteRun(files, log, oracle, configType, dir, suffix, pre, what, oldIface, newIface);
    EditKeepsFiles(w2, dir, suffix, pre, what, names, newIface, oracle);
    AllDoneFrom(oracle, |log|, |w2.log|, |names|);
    var w3 := RunPlan(w2, EditPlan(dir, suffix, pre, what, names, newIface), oracle);
    forall f | f in w2.files ensures
      w3.files[f] == if Selected(dir, suffix, f) then ReplaceEach(w2.files[f], Prefixed(pre, names), pre + newIface)
                     else w2.files[f]
    {
      FileAfter(w2, dir, suffix, pre, what, names, newIface, oracle, f);
      AllReached(names, f, oracle, |w2.log|);
    }
    PassesEdit(files, UDEV_NET_RULES, w3.files, dir, suffix, pre, names, newIface);
  }

  lemma BehindNonEmpty(pre: string, names: seq<string>)
    requires NonEmpty(names)
    ensures NonEmpty(Prefixed(pre, names))
  {
  }

  lemma PassesEdit(files: Files, g: string, later: Files, dir: string, suffix: string, pre: string,
                   names: seq<string>, newIface: string)
    requires Stale(g) && later.Keys == (files - {g}).Keys && NonEmpty(Prefixed(pre, names))
    requires forall f | f in later ::
      later[f] == if Selected(dir, suffix, f) then ReplaceEach(files[f], Prefixed(pre, names), pre + newIface)
                  else files[f]
    ensures Edited(files, Purged(later), dir, suffix, pre, names, newIface)
  {
    hide Stale, IsStale, Selected, Below, ReplaceEach, Prefixed, NonEmpty;
    forall f ensures (Stale(f) <==> IsStale(f)) && (Below(f, dir, suffix) <==> Selected(dir, suffix, f)) {
      StaleIff(f);
      BelowIff(f, dir, suffix);
    }
  }

  /** The renaming loop moves the scripts. */
  lemma ScriptsRight(files: Files, names: seq<string>, newIface: string)
    requires forall n :: !Stale(IfcfgName(IFCFG_DIR, n))
    ensures ScriptsMoved(files, Renamed(Purged(files), IFCFG_DIR, names, newIface), names, newIface)
  {
    hide Stale, IsStale, Renamed, Script, IfcfgName, Purged, HasScript, HasOwnScript, ReplaceAll, TargetIs, OthersSame;
    hide OnlyStaleGone;
    var before := Purged(files);
    var after := Renamed(before, IFCFG_DIR, names, newIface);
    OnlyStalePurged(files);
    var k := RenamedIs(before, IFCFG_DIR, names, newIface);
    ScriptIs(newIface);
    forall i | 0 <= i < |names|
      ensures Script(names[i]) == IfcfgName(IFCFG_DIR, names[i])
      ensures HasOwnScript(files, names[i], newIface) <==> HasScript(before, IFCFG_DIR, names[i], newIface)
      ensures HasOwnScript(files, names[i], newIface) ==>
        Script(names[i]) in files && Script(names[i]) in before && before[Script(names[i])] == files[Script(names[i])]
    {
      ScriptKept(files, names[i], newIface);
    }
    assert ScriptsGone(after, names, newIface);
    TargetFrom(files, after, names, newIface, k);
    OthersFrom(files, before, after, names, newIface);
  }

  lemma TargetFrom(files: Files, after: Files, names: seq<string>, newIface: string, k: int)
    requires -1 <= k < |names|
    requires forall i | k < i < |names| :: !HasOwnScript(files, names[i], newIface)
    requires k >= 0 ==>
      && HasOwnScript(files, names[k], newIface) && Script(newIface) in after
      && after[Script(newIface)]
         == ReplaceAll(ReplaceAll(files[Script(names[k])], "DEVICE=" + names[k], "DEVICE=" + newIface),
                       "NAME=" + names[k], "NAME=" + newIface)
    ensures TargetIs(files, after, names, newIface)
  {
    hide HasOwnScript, Script, ReplaceAll;
  }

  lemma OthersFrom(files: Files, before: Files, after: Files, names: seq<string>, newIface: string)
    requires OnlyStaleGone(files, before)
    requires forall f | f != Script(newIface) && (forall i | 0 <= i < |names| :: f != Script(names[i])) ::
      (f in after <==> f in before) && (f in after ==> after[f] == before[f])
    ensures OthersSame(files, after, names, newIface)
  {
    hide IsStale, Script;
  }

  lemma ScriptKept(files: Files, n: string, newIface: string)
    requires !Stale(IfcfgName(IFCFG_DIR, n))
    ensures Script(n) == IfcfgName(IFCFG_DIR, n)
    ensures HasOwnScript(files, n, newIface) <==> HasScript(Purged(files), IFCFG_DIR, n, newIface)
    ensures HasOwnScript(files, n, newIface) ==>
      Script(n) in files && Script(n) in Purged(files) && Purged(files)[Script(n)] == files[Script(n)]
  {
    ScriptIs(n);
    hide Stale, Script, IfcfgName;
  }

  lemma ScriptIs(n: string)
    ensures Script(n) == IfcfgName(IFCFG_DIR, n)
  {
    assert IFCFG_DIR + "/ifcfg-" == "/etc/sysconfig/network-scripts/ifcfg-";
  }

  /** What renaming comes to: the last name with a script, or -1. */
  lemma RenamedIs(before: Files, dir: string, names: seq<string>, newIface: string) returns (k: int)
    ensures -1 <= k < |names|
    ensures forall i | k < i < |names| :: !HasScript(before, dir, names[i], newIface)
    ensures var after, dst := Renamed(before, dir, names, newIface), IfcfgName(dir, newIface);
      && (forall i | 0 <= i < |names| && names[i] != newIface :: IfcfgName(dir, names[i]) !in after)
      && (k < 0 ==> after == before)
      && (k >= 0 ==>
            && HasScript(before, dir, names[k], newIface) && dst in after
            && after[dst] == ReplaceAll(ReplaceAll(before[IfcfgName(dir, names[k])], "DEVICE=" + names[k],
                                                   "DEVICE=" + newIface), "NAME=" + names[k], "NAME=" + newIface))
      && forall f | f != dst && (forall i | 0 <= i < |names| :: f != IfcfgName(dir, names[i])) ::
           (f in after <==> f in before) && (f in after ==> after[f] == before[f])
  {
    var chosen := All(|names|);
    var dst, scripts := IfcfgName(dir, newIface), Scripts(before, dir, names, newIface, chosen);
    k := LastScript(before, dir, names, newIface, chosen);
    TargetIsNoScript(before, dir, names, newIface, chosen);
    assert forall i: nat | i < |names| :: i in chosen;
    forall i | 0 <= i < |names| && names[i] != newIface
      ensures IfcfgName(dir, names[i]) != dst
      ensures IfcfgName(dir, names[i]) in before ==> IfcfgName(dir, names[i]) in scripts
    {
      IfcfgNameInjective(dir, names[i], newIface);
      ScriptNames(before, dir, names, newIface, chosen, names[i]);
    }
    hide IfcfgName, LastScript, ReplaceAll, All, Busy;
  }

  // ---------------------------------------------------------------------
  // The whole fixup
  // ---------------------------------------------------------------------

  /** A fixup in which no call fails does what it is for. */
  lemma NetworkIsFixed(files: Files, log: seq<Command>, oldIface: string, newIface: string, oracle: nat -> Outcome)
    requires DoneFrom(oracle, |log|)
    ensures GuestFixed(files, log, NetworkRun(files, log, oldIface, newIface, oracle), oldIface, newIface, oracle)
  {
    hide NetworkRun, FirstShown, Fixed, ProbeCalls, ProbeAnswer, RunPlan, FixStage, CleanupPlan, Faults, Stale;
    hide ConfigType, DoneFrom, NoneMissing;
    var w := NetworkRun(files, log, oldIface, newIface, oracle);
    UndisturbedSucceeds(files, log, oldIface, newIface, oracle);
    NetworkLedger(files, log, oldIface, newIface, oracle);
    var w2 := UntilFix(files, log, oldIface, newIface, oracle);
    var start := log + [Remove(UDEV_NET_RULES, false)];
    assert NoneMissing(oracle, |start|) by { DoneIsThere(oracle, |log|, |start|); }
    var i := AnyShown(start, oracle);
    assert w2.log == start + ProbeCalls(CONFIG_CHECKS, oracle, |start|);
    var configType := ProbeAnswer(CONFIG_CHECKS, oracle, |start|);
    FixExtends(w2, configType, oldIface, newIface, oracle);
    PlanCalls(FixStage(w2, configType, oldIface, newIface, oracle), CleanupPlan(STATE_PATHS), oracle);
    ShownMore(w2.log, w.log, oracle, |start|, i);
    AllFixed(files, log, oldIface, newIface, oracle, i);
  }

  lemma DoneIsThere(oracle: nat -> Outcome, j: nat, k: nat)
    requires j <= k && DoneFrom(oracle, j)
    ensures NoneMissing(oracle, k)
  {
    assert forall i: nat | i >= k :: oracle(i).Done?;
  }

  lemma FixExtends(w: World, configType: string, oldIface: string, newIface: string, oracle: nat -> Outcome)
    ensures w.log <= FixStage(w, configType, oldIface, newIface, oracle).log
  {
    hide RunPlan, NetplanPlan, IfcfgPlan, NetworkdPlan, NetworkManagerPlan;
    PlanCalls(w, NetplanPlan(oldIface, newIface), oracle);
    PlanCalls(w, IfcfgPlan(oldIface, newIface), oracle);
    PlanCalls(w, NetworkdPlan(oldIface, newIface), oracle);
    PlanCalls(w, NetworkManagerPlan(oldIface, newIface), oracle);
  }

  lemma AllFixed(files: Files, log: seq<Command>, oldIface: string, newIface: string, oracle: nat -> Outcome, i: nat)
    requires DoneFrom(oracle, |log|) && i <= 4 && ProbeAnswer(CONFIG_CHECKS, oracle, |log| + 1) == ConfigType(i)
    ensures Fixed(files, NetworkRun(files, log, oldIface, newIface, oracle).files, i, oldIface, newIface)
  {
    hide Stale, Edited, ScriptsMoved, OnlyStaleGone, NetworkRun, ProbeAnswer, Renamed, DoneFrom;
    if i == 1 {
      GuestMoved(files, log, oldIface, newIface, oracle);
      NamesAre(oldIface);
      ScriptsRight(files, Names(oldIface), newIface);
    } else if i == 4 {
      NothingConfigured(files, log, oldIface, newIface, oracle);
    } else {
      var dir, suffix, pre, what := SiteOf(i);
      EditsRight(files, log, oracle, ConfigType(i), dir, suffix, pre, what, oldIface, newIface);
    }
  }

  lemma SiteOf(i: nat) returns (dir: string, suffix: string, pre: string, what: string)
    requires i in [0, 2, 3]
    ensures EditSite(ConfigType(i), dir, suffix, pre, what) && Site(i, dir, suffix, pre)
  {
    if i == 0 {
      dir, suffix, pre, what := "/etc/netplan", ".yaml", "", "Netplan";
    } else if i == 2 {
      dir, suffix, pre, what := "/etc/systemd/network", ".network", "Name=", "networkd";
    } else {
      dir, suffix, pre, what := "/etc/NetworkManager/system-connections", "", "interface-name=", "NetworkManager";
    }
  }

  lemma NothingConfigured(files: Files, log: seq<Command>, oldIface: string, newIface: string, oracle: nat -> Outcome)
    requires DoneFrom(oracle, |log|) && ProbeAnswer(CONFIG_CHECKS, oracle, |log| + 1) == ""
    ensures OnlyStaleGone(files, NetworkRun(files, log, oldIface, newIface, oracle).files)
  {
    hide NetworkRun, RunPlan, ProbeAnswer, ProbeCalls, CleanupPlan, Stale, DoneFrom, Purged, OnlyStaleGone;
    var w2 := UntilFix(files, log, oldIface, newIface, oracle);
    var w3 := FixStage(w2, "", oldIface, newIface, oracle);
    NoStage(w2, oldIface, newIface, oracle);
    AllDoneFrom(oracle, |log|, |w3.log|, |STATE_PATHS|);
    CleanupPurges(w3, oracle);
    PurgedEarly(files, UDEV_NET_RULES);
    OnlyStalePurged(files);
  }

  lemma NoStage(w: World, oldIface: string, newIface: string, oracle: nat -> Outcome)
    ensures FixStage(w, "", oldIface, newIface, oracle).files == w.files
    ensures FixStage(w, "", oldIface, newIface, oracle).log == w.log
  {
  }

  lemma PurgedEarly(files: Files, g: string)
    requires Stale(g)
    ensures Purged(files - {g}) == Purged(files)
  {
    hide Stale;
  }

  // ---------------------------------------------------------------------
  // What is left of the names
  // ---------------------------------------------------------------------

  /** The directories whose files are edited. */
  predicate Site(i: nat, dir: string, suffix: string, pre: string) {
    || (i == 0 && dir == "/etc/netplan" && suffix == ".yaml" && pre == "")
    || (i == 2 && dir == "/etc/systemd/network" && suffix == ".network" && pre == "Name=")
    || (i == 3 && dir == "/etc/NetworkManager/system-connections" && suffix == "" && pre == "interface-name=")
  }

  /** In a guest whose first directory is one of these: for EVERY old and new name for
      which the later names are clear of the new one, each of its files has become the
      simultaneous substitution, and no name that is clear of the new one is left in it. */
  lemma GuestRenamed(files: Files, log: seq<Command>, w: World, oldIface: string, newIface: string,
                     oracle: nat -> Outcome, i: nat, dir: string, suffix: string, pre: string, f: string)
    requires DoneFrom(oracle, |log|) && w == NetworkRun(files, log, oldIface, newIface, oracle)
    requires Site(i, dir, suffix, pre) && FirstShown(w.log, oracle, |log| + 1, i)
    requires f in files && Below(f, dir, suffix)
    requires ClearOf(Prefixed(pre, Names(oldIface))[1..], pre + newIface)
    ensures f in w.files && w.files[f] == ReplaceAny(files[f], Prefixed(pre, Names(oldIface)), pre + newIface)
    ensures forall n | n in Names(oldIface) && n != newIface && Clear(pre + n, pre + newIface) ::
      !Occurs(pre + n, w.files[f])
  {
    hide *;
    var ns, r := Prefixed(pre, Names(oldIface)), pre + newIface;
    SiteEdited(files, log, w, oldIface, newIface, oracle, i, dir, suffix, pre);
    SiteKeeps(i, dir, suffix, pre, f);
    EditedAt(files, w.files, dir, suffix, pre, Names(oldIface), newIface, f);
    NamesAre(oldIface);
    ListsAreApart(pre, oldIface);
    ListNonEmpty(oldIface);
    EachIsAny(files[f], ns, r);
    forall n | n in Names(oldIface) && n != newIface && Clear(pre + n, r) ensures !Occurs(pre + n, w.files[f]) {
      MemberBehind(pre, n, Names(oldIface));
      BehindEqual(pre, n, newIface);
      NoneLeft(files[f], ns, r, pre + n);
    }
  }

  lemma SiteEdited(files: Files, log: seq<Command>, w: World, oldIface: string, newIface: string,
                   oracle: nat -> Outcome, i: nat, dir: string, suffix: string, pre: string)
    requires DoneFrom(oracle, |log|) && w == NetworkRun(files, log, oldIface, newIface, oracle)
    requires Site(i, dir, suffix, pre) && FirstShown(w.log, oracle, |log| + 1, i)
    ensures Edited(files, w.files, dir, suffix, pre, Names(oldIface), newIface)
  {
    hide NetworkRun, FirstShown, Edited, ScriptsMoved, OnlyStaleGone, DoneFrom;
    NetworkIsFixed(files, log, oldIface, newIface, oracle);
    var k: nat :| FirstShown(w.log, oracle, |log| + 1, k) && Fixed(files, w.files, k, oldIface, newIface);
    OneShown(w.log, oracle, |log| + 1, i, k);
  }

  lemma OneShown(log: seq<Command>, oracle: nat -> Outcome, k: nat, i: nat, at: nat)
    requires FirstShown(log, oracle, k, i) && FirstShown(log, oracle, k, at)
    ensures i == at
  {
    hide ConfigDirs;
    assert forall j: nat | j < i :: !Shown(log, oracle, k + j, ConfigDirs()[j]);
    assert forall j: nat | j < at :: !Shown(log, oracle, k + j, ConfigDirs()[j]);
  }

  lemma SiteKeeps(i: nat, dir: string, suffix: string, pre: string, f: string)
    requires Site(i, dir, suffix, pre) && Below(f, dir, suffix)
    ensures EditPrefix(pre) && !IsStale(f)
  {
    hide Stale, IsStale;
    ConfigIsNotStale(dir, f);
    StaleIff(f);
  }

  lemma EditedAt(files: Files, after: Files, dir: string, suffix: string, pre: string, names: seq<string>,
                 newIface: string, f: string)
    requires Edited(files, after, dir, suffix, pre, names, newIface)
    requires f in files && Below(f, dir, suffix) && !IsStale(f)
    ensures f in after && NonEmpty(Prefixed(pre, names))
    ensures after[f] == ReplaceEach(files[f], Prefixed(pre, names), pre + newIface)
  {
    hide Below, IsStale, ReplaceEach;
  }

  /** With the default names nothing more is needed: no VMware name is left in any
      file of the configuration. */
  lemma DefaultGuestRenamed(files: Files, log: seq<Command>, w: World, oracle: nat -> Outcome,
                            i: nat, dir: string, suffix: string, pre: string, f: string)
    requires DoneFrom(oracle, |log|) && w == NetworkRun(files, log, "", "ens18", oracle)
    requires Site(i, dir, suffix, pre) && FirstShown(w.log, oracle, |log| + 1, i)
    requires f in files && Below(f, dir, suffix)
    ensures f in w.files
    ensures forall n | n in ["ens160", "ens192", "ens224", "ens256", "ens161", "ens193"] :: !Occurs(pre + n, w.files[f])
  {
    hide *;
    SiteKeeps(i, dir, suffix, pre, f);
    DefaultsAreSafe(pre);
    NamesAre("");
    DefaultNames();
    GuestRenamed(files, log, w, "", "ens18", oracle, i, dir, suffix, pre, f);
  }

  lemma DefaultNames()
    ensures Names("") == ["ens160", "ens192", "ens224", "ens256", "ens161", "ens193"] && KVM_DEFAULT_IFACE == "ens18"
  {
  }

  // ---------------------------------------------------------------------
  // The plans of the fixup are these scripts
  // ---------------------------------------------------------------------

  lemma {:induction false} EditPlanIs(dir: string, suffix: string, pre: string, what: string, names: seq<string>,
                                      newIface: string)
    requires NonEmpty(names)
    ensures forall i | 0 <= i < |names| ::
      EditPlan(dir, suffix, pre, what, names, newIface)[i] == Sed(dir, suffix, pre, what, names[i], newIface)
    decreases |names|
  {
    if names != [] { EditPlanIs(dir, suffix, pre, what, names[1..], newIface); }
  }

  lemma {:induction false} MovePlanIs(names: seq<string>, newIface: string)
    ensures forall i | 0 <= i < |names| :: MovePlan(IFCFG_DIR, names, newIface)[i] == Moved(names[i], newIface)
    decreases |names|
  {
    if names != [] { MovePlanIs(names[1..], newIface); }
  }

  lemma {:induction false} CleanupPlanIs(paths: seq<string>)
    ensures forall i | 0 <= i < |paths| :: CleanupPlan(paths)[i] == Cleaned(paths[i])
    decreases |paths|
  {
    if paths != [] { CleanupPlanIs(paths[1..]); }
  }

  lemma StalePlanIs()
    ensures CleanupPlan(STATE_PATHS) == StaleScript()
  {
    hide CleanupPlan, Cleaned;
    CleanupPlanIs(STATE_PATHS);
  }

  /** The stage for a configuration carries out its script. */
  lemma StageCarried(w: World, i: nat, oldIface: string, newIface: string, oracle: nat -> Outcome)
    requires NoneMissing(oracle, |w.log|) && i < 4
    ensures Carried(w, FixStage(w, ConfigType(i), oldIface, newIface, oracle),
                    ConfigScript(i, Names(oldIface), newIface), oracle)
  {
    hide RunPlan, EditPlan, MovePlan, Carried, Sed, Moved;
    NamesAre(oldIface);
    var names := IfacesToReplace(oldIface);
    hide IfacesToReplace, Names;
    EditPlanIs(NETPLAN_DIR, ".yaml", "", "Netplan", names, newIface);
    MovePlanIs(names, newIface);
    EditPlanIs(NETWORKD_DIR, ".network", "Name=", "networkd", names, newIface);
    EditPlanIs(NM_DIR, "", "interface-name=", "NetworkManager", names, newIface);
    if i == 0 {
      assert NetplanPlan(oldIface, newIface) == ConfigScript(0, names, newIface);
      PlanCarried(w, NetplanPlan(oldIface, newIface), oracle);
    } else if i == 1 {
      assert IfcfgPlan(oldIface, newIface) == ConfigScript(1, names, newIface);
      PlanCarried(w, IfcfgPlan(oldIface, newIface), oracle);
    } else if i == 2 {
      assert NetworkdPlan(oldIface, newIface) == ConfigScript(2, names, newIface);
      PlanCarried(w, NetworkdPlan(oldIface, newIface), oracle);
    } else {
      assert NetworkManagerPlan(oldIface, newIface) == ConfigScript(3, names, newIface);
      PlanCarried(w, NetworkManagerPlan(oldIface, newIface), oracle);
    }
  }

  lemma NoStageCarried(w: World, oldIface: string, newIface: string, oracle: nat -> Outcome)
    ensures var w' := FixStage(w, "", oldIface, newIface, oracle);
      w'.log == w.log && w'.actions == w.actions + ["No static network config found, likely uses DHCP"]
  {
  }

  /** What the report says about the configuration. */
  lemma ActionsAre(i: nat)
    requires i <= 4
    ensures ConfigActions(i) == ["Detected network config: " + if ConfigType(i) != "" then ConfigType(i) else "none"]
      + if i < 4 then [] else ["No static network config found, likely uses DHCP"]
  {
    hide ConfigType;
    TypeText(i);
  }

  lemma TypeText(i: nat)
    ensures var found := "Detected network config: " + if ConfigType(i) != "" then ConfigType(i) else "none";
      [found] == ConfigActions(i)[..1]
  {
    var d := "Detected network config: ";
    assert d + "netplan" == "Detected network config: netplan" && d + "ifcfg" == "Detected network config: ifcfg";
    assert d + "networkd" == "Detected network config: networkd" && d + "nm" == "Detected network config: nm";
    assert d + "none" == "Detected network config: none";
  }

  ghost predicate StageDone(w1: World, w3: World, i: nat, listed: seq<Command>, script: seq<Step>,
                            oracle: nat -> Outcome)
  {
    && w3.log == w1.log + listed + CallsOf(script)
    && w3.actions == w1.actions + ConfigActions(i) + Told(script, oracle, |w1.log| + |listed|)
  }

  lemma StageGrows(w1: World, w3: World, i: nat, listed: seq<Command>, script: seq<Step>, oracle: nat -> Outcome)
    requires StageDone(w1, w3, i, listed, script, oracle)
    ensures w1.log + listed <= w3.log && |w3.log| == |w1.log| + |listed| + |script|
  {
    hide CallsOf, Told, ConfigActions;
  }

  /** The probing and the stage behind it, for an answer. */
  lemma ConfigCarried(w1: World, i: nat, oldIface: string, newIface: string, oracle: nat -> Outcome)
    returns (w3: World)
    requires NoneMissing(oracle, |w1.log|) && i <= 4 && ProbeAnswer(CONFIG_CHECKS, oracle, |w1.log|) == ConfigType(i)
    ensures w3 == FixStage(Detected(w1, oracle), ConfigType(i), oldIface, newIface, oracle)
    ensures StageDone(w1, w3, i, ProbeCalls(CONFIG_CHECKS, oracle, |w1.log|),
                      ConfigScript(i, Names(oldIface), newIface), oracle)
  {
    hide ProbeAnswer, ProbeCalls, ConfigScript, ConfigActions, CallsOf, Told, FixStage, Names, NoneMissing, ConfigType;
    var w2 := Detected(w1, oracle);
    w3 := FixStage(w2, ConfigType(i), oldIface, newIface, oracle);
    ActionsAre(i);
    if i < 4 {
      assert NoneMissing(oracle, |w2.log|) by { NoneLater(oracle, |w1.log|, |w2.log|); }
      StageCarried(w2, i, oldIface, newIface, oracle);
    } else {
      NoneConfigured(Names(oldIface), newIface, oracle, |w2.log|);
      NoStageCarried(w2, oldIface, newIface, oracle);
    }
  }

  lemma NoneConfigured(names: seq<string>, newIface: string, oracle: nat -> Outcome, k: nat)
    ensures ConfigType(4) == "" && CallsOf(ConfigScript(4, names, newIface)) == []
    ensures Told(ConfigScript(4, names, newIface), oracle, k) == []
  {
  }

  lemma NoneLater(oracle: nat -> Outcome, j: nat, k: nat)
    requires j <= k && NoneMissing(oracle, j)
    ensures NoneMissing(oracle, k)
  {
  }

  /** A fixup that finds all its tools makes these calls and reports on them. */
  lemma NetworkCallsMade(files: Files, log: seq<Command>, oldIface: string, newIface: string, oracle: nat -> Outcome)
    requires NoneMissing(oracle, |log|)
    ensures CallsMade(log, NetworkRun(files, log, oldIface, newIface, oracle), oldIface, newIface, oracle)
  {
    hide ProbeAnswer, ProbeCalls, ConfigScript, ConfigActions, Told, FixStage, Names, NoneMissing, ConfigType, RunPlan;
    hide CleanupPlan, StaleScript, FirstShown, Detected, CallsAre, Carried, CallsOf, StageDone;
    var w0 := World(files, log, true, [], []);
    var w1 := RunPlan(w0, UdevPlan(), oracle);
    assert UdevPlan() == RulesScript();
    PlanCarried(w0, UdevPlan(), oracle);
    Grown(w0, w1, RulesScript(), oracle);
    assert NoneMissing(oracle, |w1.log|) by { NoneLater(oracle, |log|, |w1.log|); }
    var i := AnyShown(w1.log, oracle);
    var w3 := ConfigCarried(w1, i, oldIface, newIface, oracle);
    var listed := ProbeCalls(CONFIG_CHECKS, oracle, |w1.log|);
    StageGrows(w1, w3, i, listed, ConfigScript(i, Names(oldIface), newIface), oracle);
    assert NoneMissing(oracle, |w3.log|) by { NoneLater(oracle, |log|, |w3.log|); }
    StalePlanIs();
    PlanCarried(w3, CleanupPlan(STATE_PATHS), oracle);
    Grown(w3, RunPlan(w3, CleanupPlan(STATE_PATHS), oracle), StaleScript(), oracle);
    ShownMore(w1.log + listed, RunPlan(w3, CleanupPlan(STATE_PATHS), oracle).log, oracle, |w1.log|, i);
    CallsFit(w0, w1, w3, RunPlan(w3, CleanupPlan(STATE_PATHS), oracle), i, listed,
             ConfigScript(i, Names(oldIface), newIface), oracle);
  }

  lemma Grown(w: World, w': World, steps: seq<Step>, oracle: nat -> Outcome)
    requires Carried(w, w', steps, oracle)
    ensures w.log <= w'.log && |w'.log| == |w.log| + |steps|
  {
    hide Told;
  }

  lemma CallsFit(w0: World, w1: World, w3: World, w: World, i: nat, listed: seq<Command>, script: seq<Step>,
                 oracle: nat -> Outcome)
    requires w0.actions == [] && Carried(w0, w1, RulesScript(), oracle) && Carried(w3, w, StaleScript(), oracle)
    requires StageDone(w1, w3, i, listed, script, oracle)
    requires FirstShown(w.log, oracle, |w1.log|, i) && |listed| == if i < 4 then i + 1 else 4
    ensures CallsAre(w0.log, w, listed, i, script, oracle)
  {
    hide FirstShown, RulesScript, StageDone, LogIs, ReportIs, Carried;
    Grown(w0, w1, RulesScript(), oracle);
    StageGrows(w1, w3, i, listed, script, oracle);
    LogFits(w0, w1, w3, w, i, listed, script, oracle);
    ReportFits(w0, w1, w3, w, i, listed, script, oracle);
  }

  lemma LogFits(w0: World, w1: World, w3: World, w: World, i: nat, listed: seq<Command>, script: seq<Step>,
                oracle: nat -> Outcome)
    requires Carried(w0, w1, RulesScript(), oracle) && Carried(w3, w, StaleScript(), oracle)
    requires StageDone(w1, w3, i, listed, script, oracle)
    ensures LogIs(w0.log, w.log, listed, script)
  {
    hide CallsOf, Told, RulesScript, StaleScript, ConfigActions;
  }

  lemma ReportFits(w0: World, w1: World, w3: World, w: World, i: nat, listed: seq<Command>, script: seq<Step>,
                   oracle: nat -> Outcome)
    requires w0.actions == [] && Carried(w0, w1, RulesScript(), oracle) && Carried(w3, w, StaleScript(), oracle)
    requires StageDone(w1, w3, i, listed, script, oracle)
    ensures ReportIs(w.actions, i, script, oracle, |w0.log|, |w1.log| + |listed|)
  {
    hide Told, CallsOf, RulesScript, StaleScript, ConfigActions;
    StageGrows(w1, w3, i, listed, script, oracle);
    assert w1.actions == Told(RulesScript(), oracle, |w0.log|);
  }

  /** Unless a tool is missing there is always an answer. */
  lemma AnyShown(log: seq<Command>, oracle: nat -> Outcome) returns (i: nat)
    requires NoneMissing(oracle, |log|)
    ensures var listed := ProbeCalls(CONFIG_CHECKS, oracle, |log|);
      && i <= 4 && FirstShown(log + listed, oracle, |log|, i) && |listed| == (if i < 4 then i + 1 else 4)
    ensures ProbeAnswer(CONFIG_CHECKS, oracle, |log|) == ConfigType(i)
  {
    hide *;
    i := Asked(log, oracle);
    AnsweredAt(log + ProbeCalls(CONFIG_CHECKS, oracle, |log|), oracle, |log|, i,
               ProbeAnswer(CONFIG_CHECKS, oracle, |log|));
  }
}
