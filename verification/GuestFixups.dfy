/** Removal of VMware Tools (vmfree/fixup/vmware_tools.py). */
module VmwareTools {
  import opened Guest

  const DISTRO_MARKERS: seq<(Command, string)> := [
    (VirtCat("/etc/redhat-release"), "rpm"), (VirtCat("/etc/centos-release"), "rpm"),
    (VirtCat("/etc/fedora-release"), "dnf"), (VirtCat("/etc/debian_version"), "deb"),
    (VirtCat("/etc/lsb-release"), "deb")]

  const VMWARE_PACKAGES_RPM: seq<string> := ["open-vm-tools", "open-vm-tools-desktop", "vmware-tools-*"]
  const VMWARE_PACKAGES_DEB: seq<string> := ["open-vm-tools", "open-vm-tools-desktop", "open-vm-tools-dkms"]
  const VMWARE_SERVICES: seq<string> :=
    ["vmtoolsd.service", "vmware-tools.service", "vmware-tools-thinprint.service", "open-vm-tools.service"]
  const VMWARE_PATHS: seq<string> :=
    ["/etc/vmware-tools", "/usr/lib/vmware-tools", "/usr/lib64/open-vm-tools", "/var/log/vmware-*"]

  /** One customize call per item. An empty `onFail` means that a non-zero exit
      code leaves no trace in the report. */
  function EachItem(items: seq<string>, before: string, after: string, onDone: string, onFail: string)
    : (steps: seq<Step>)
    ensures |steps| == |items| && Plan(steps)
    ensures forall i | 0 <= i < |items| :: steps[i].cmd == Customize(before + items[i] + after)
    decreases |items|
  {
    if items == [] then []
    else [Step(Customize(before + items[0] + after), [onDone + items[0]],
               if onFail == "" then [] else [onFail + items[0]])]
         + EachItem(items[1..], before, after, onDone, onFail)
  }

  function PackagePlan(manager: string): (steps: seq<Step>)
    ensures Plan(steps)
  {
    if manager in ["rpm", "yum", "dnf"] then
      EachItem(VMWARE_PACKAGES_RPM, "rpm -e --nodeps ", " 2>/dev/null || true",
               "Removed RPM package: ", "RPM package not found: ")
    else if manager in ["deb", "apt"] then
      EachItem(VMWARE_PACKAGES_DEB, "dpkg --purge ", " 2>/dev/null || true",
               "Removed DEB package: ", "DEB package not found: ")
    else []
  }

  function BlacklistPlan(): (steps: seq<Step>) ensures Plan(steps) {
    [Step(Customize("--write /etc/modprobe.d/vmware-blacklist.conf"),
          ["Blacklisted 8 VMware kernel modules"], ["Could not write module blacklist"])]
  }

  function ServicePlan(): (steps: seq<Step>) ensures Plan(steps) {
    EachItem(VMWARE_SERVICES, "systemctl disable ", " 2>/dev/null || true", "Disabled service: ", "")
  }

  function CleanPaths(paths: seq<string>): (steps: seq<Step>)
    ensures |steps| == |paths| && Plan(steps)
    ensures forall i | 0 <= i < |paths| :: steps[i].cmd == Remove(paths[i], true)
    decreases |paths|
  {
    if paths == [] then []
    else [Step(Remove(paths[0], true), ["Cleaned up: " + paths[0]], [])] + CleanPaths(paths[1..])
  }

  function PathPlan(): (steps: seq<Step>) ensures Plan(steps) { CleanPaths(VMWARE_PATHS) }

  function Detected(w: World, oracle: nat -> Outcome): World {
    var manager := ProbeAnswer(DISTRO_MARKERS, oracle, |w.log|);
    w.(log := w.log + ProbeCalls(DISTRO_MARKERS, oracle, |w.log|),
       actions := w.actions + ["Detected package manager: " + if manager != "" then manager else "unknown"])
  }

  function RemovalStages(manager: string): (stages: seq<seq<Step>>) ensures Plans(stages) {
    hide Plan, PackagePlan, BlacklistPlan, ServicePlan, PathPlan;
    [PackagePlan(manager), BlacklistPlan(), ServicePlan(), PathPlan()]
  }

  function RemovalRun(files: Files, log: seq<Command>, oracle: nat -> Outcome): World {
    RunStages(Detected(World(files, log, true, [], []), oracle),
              RemovalStages(ProbeAnswer(DISTRO_MARKERS, oracle, |log|)), oracle)
  }

  /** The report of a removal lists exactly the errors of its calls. */
  lemma RemovalLedger(files: Files, log: seq<Command>, oracle: nat -> Outcome)
    ensures Ledger(RemovalRun(files, log, oracle), oracle, |log|)
  {
    hide RunStages, RemovalStages, ProbeAnswer, ProbeCalls, Faults;
    var w0, k := World(files, log, true, [], []), |log|;
    var w1 := Detected(w0, oracle);
    LedgerStart(w0, oracle);
    LedgerProbe(w0, DISTRO_MARKERS, oracle, k, w1.actions);
    assert w0.actions + w1.actions == w1.actions;
    LedgerStages(w1, RemovalStages(ProbeAnswer(DISTRO_MARKERS, oracle, k)), oracle, k);
  }

  /** Under every oracle, what the last stage does to the files that the package
      manager and the other programs left: it takes those under the VMware paths
      that its calls got to, and nothing else. */
  lemma PathsLeftIff(w: World, oracle: nat -> Outcome, f: string)
    ensures var w' := RunPlan(w, PathPlan(), oracle);
      && (f in w'.files <==> f in w.files && forall i | 0 <= i < |VMWARE_PATHS| && |w.log| + i < |w'.log| ::
            !(Removed(VMWARE_PATHS[i], true, f) && GotTo(oracle(|w.log| + i), f)))
      && (f in w'.files ==> w'.files[f] == w.files[f])
  {
    hide RunPlan, CleanPaths, Removed, GotTo;
    var w' := RunPlan(w, PathPlan(), oracle);
    LeftIff(w, PathPlan(), oracle, f);
    PlanCalls(w, PathPlan(), oracle);
    assert forall i | |w.log| <= i < |w'.log| :: w'.log[i] == Remove(VMWARE_PATHS[i - |w.log|], true);
    assert forall i | 0 <= i < |VMWARE_PATHS| && |w.log| + i < |w'.log| ::
      Takes(w'.log[|w.log| + i], oracle(|w.log| + i), f)
      <==> Removed(VMWARE_PATHS[i], true, f) && GotTo(oracle(|w.log| + i), f);
  }

  /** The last of some stages. */
  lemma {:induction false} StagesAppend(w: World, stages: seq<seq<Step>>, last: seq<Step>, oracle: nat -> Outcome)
    requires Plans(stages) && Plan(last)
    ensures Plans(stages + [last])
    ensures RunStages(w, stages + [last], oracle) == RunPlan(RunStages(w, stages, oracle), last, oracle)
    decreases |stages|
  {
    hide RunPlan, Plan;
    assert Plans(stages + [last]);
    if stages == [] {
      assert (stages + [last])[1..] == [];
    } else {
      assert (stages + [last])[1..] == stages[1..] + [last];
      StagesAppend(RunPlan(w, stages[0], oracle), stages[1..], last, oracle);
    }
  }

  lemma PathsGone(w: World, oracle: nat -> Outcome, f: string)
    requires DoneFrom(oracle, |w.log|) && exists p | p in VMWARE_PATHS :: Removed(p, true, f)
    ensures f !in RunPlan(w, PathPlan(), oracle).files
  {
    assert |PathPlan()| == |VMWARE_PATHS|;
    hide RunPlan, PathPlan, Removed, GotTo, Plan;
    PlanCalls(w, PathPlan(), oracle);
    PathsLeftIff(w, oracle, f);
    var i :| 0 <= i < |VMWARE_PATHS| && Removed(VMWARE_PATHS[i], true, f);
    assert GotTo(oracle(|w.log| + i), f) by { DoneGetsTo(oracle(|w.log| + i), f); }
  }

  lemma DoneGetsTo(o: Outcome, f: string)
    requires o.Done?
    ensures GotTo(o, f)
  {
  }

  lemma PathsLast(manager: string)
    ensures |RemovalStages(manager)| == 4 && RemovalStages(manager)[3] == PathPlan()
  {
    hide PackagePlan, BlacklistPlan, ServicePlan, PathPlan;
  }

  lemma RunUntilPaths(w: World, stages: seq<seq<Step>>, oracle: nat -> Outcome) returns (w': World)
    requires Plans(stages) && |stages| == 4 && stages[3] == PathPlan()
    ensures |w'.log| >= |w.log| && RunStages(w, stages, oracle) == RunPlan(w', PathPlan(), oracle)
  {
    hide RunPlan, RunStages, PathPlan, Plan;
    assert stages == stages[..3] + [stages[3]];
    StagesAppend(w, stages[..3], stages[3], oracle);
    StagesExtendLog(w, stages[..3], oracle);
    w' := RunStages(w, stages[..3], oracle);
  }

  /** A removal without failures leaves no file under a VMware path, whatever the
      other programs left. */
  lemma PathsCleaned(files: Files, log: seq<Command>, oracle: nat -> Outcome, f: string)
    requires DoneFrom(oracle, |log|) && exists p | p in VMWARE_PATHS :: Removed(p, true, f)
    ensures f !in RemovalRun(files, log, oracle).files
  {
    hide RunPlan, RunStages, RemovalStages, ProbeAnswer, ProbeCalls, PathPlan, Removed, Plans;
    var manager := ProbeAnswer(DISTRO_MARKERS, oracle, |log|);
    PathsLast(manager);
    var w := RunUntilPaths(Detected(World(files, log, true, [], []), oracle), RemovalStages(manager), oracle);
    PathsGone(w, oracle, f);
  }

  // ---------------------------------------------------------------------
  // What a removal does to which guest
  // ---------------------------------------------------------------------

  /** The files that tell what kind of guest it is. */
  function Markers(): (r: seq<string>)
    ensures |r| == 5
  {
    ["/etc/redhat-release", "/etc/centos-release", "/etc/fedora-release", "/etc/debian_version", "/etc/lsb-release"]
  }

  function Rpm(package: string): Step {
    Step(Customize("rpm -e --nodeps " + package + " 2>/dev/null || true"),
         ["Removed RPM package: " + package], ["RPM package not found: " + package])
  }

  function Deb(package: string): Step {
    Step(Customize("dpkg --purge " + package + " 2>/dev/null || true"),
         ["Removed DEB package: " + package], ["DEB package not found: " + package])
  }

  function Disabled(service: string): Step {
    Step(Customize("systemctl disable " + service + " 2>/dev/null || true"), ["Disabled service: " + service], [])
  }

  function Cleaned(path: string): Step { Step(Remove(path, true), ["Cleaned up: " + path], []) }

  /** The packages of a guest whose first marker is number `m`: three markers mean
      RPM, two mean DEB, and without one no package is removed. */
  function PackageScript(m: nat): seq<Step> {
    if m < 3 then [Rpm("open-vm-tools"), Rpm("open-vm-tools-desktop"), Rpm("vmware-tools-*")]
    else if m < 5 then [Deb("open-vm-tools"), Deb("open-vm-tools-desktop"), Deb("open-vm-tools-dkms")]
    else []
  }

  function RemovalScript(m: nat): seq<Step> {
    PackageScript(m)
    + [Step(Customize("--write /etc/modprobe.d/vmware-blacklist.conf"),
            ["Blacklisted 8 VMware kernel modules"], ["Could not write module blacklist"])]
    + [Disabled("vmtoolsd.service"), Disabled("vmware-tools.service"), Disabled("vmware-tools-thinprint.service"),
       Disabled("open-vm-tools.service")]
    + [Cleaned("/etc/vmware-tools"), Cleaned("/usr/lib/vmware-tools"), Cleaned("/usr/lib64/open-vm-tools"),
       Cleaned("/var/log/vmware-*")]
  }

  function ManagerOf(m: nat): string { if m < 2 then "rpm" else if m == 2 then "dnf" else if m < 5 then "deb" else "" }

  /** The calls of a removal that finds all its tools, and its report: the first
      marker that can be read decides. */
  ghost predicate ToolsRemoved(log: seq<Command>, w: World, oracle: nat -> Outcome) {
    exists m: nat, calls: seq<Command> :: FirstRead(Markers(), m, calls, oracle, |log|)
      && w.log == log + calls + CallsOf(RemovalScript(m))
      && w.actions == ["Detected package manager: " + if m < 5 then ManagerOf(m) else "unknown"]
                      + Told(RemovalScript(m), oracle, |log| + |calls|)
  }

  lemma {:induction false} EachItemIs(items: seq<string>, before: string, after: string, onDone: string,
                                      onFail: string)
    ensures forall i | 0 <= i < |items| ::
      EachItem(items, before, after, onDone, onFail)[i]
      == Step(Customize(before + items[i] + after), [onDone + items[i]],
              if onFail == "" then [] else [onFail + items[i]])
    decreases |items|
  {
    if items != [] { EachItemIs(items[1..], before, after, onDone, onFail); }
  }

  lemma {:induction false} CleanPathsIs(paths: seq<string>)
    ensures forall i | 0 <= i < |paths| :: CleanPaths(paths)[i] == Cleaned(paths[i])
    decreases |paths|
  {
    if paths != [] { CleanPathsIs(paths[1..]); }
  }

  lemma PackagesRight(m: nat)
    ensures PackagePlan(ManagerOf(m)) == PackageScript(m)
  {
    hide EachItem;
    assert |"rpm"| == |"dnf"| == |"deb"| == 3 && "deb"[1] != "rpm"[1] && "deb"[1] != "dnf"[1] && |"yum"| == 3;
    assert "deb"[0] != "yum"[0];
    EachItemIs(VMWARE_PACKAGES_RPM, "rpm -e --nodeps ", " 2>/dev/null || true",
               "Removed RPM package: ", "RPM package not found: ");
    EachItemIs(VMWARE_PACKAGES_DEB, "dpkg --purge ", " 2>/dev/null || true",
               "Removed DEB package: ", "DEB package not found: ");
  }

  lemma ServicesRight()
    ensures ServicePlan() == [Disabled("vmtoolsd.service"), Disabled("vmware-tools.service"),
                              Disabled("vmware-tools-thinprint.service"), Disabled("open-vm-tools.service")]
  {
    hide EachItem;
    EachItemIs(VMWARE_SERVICES, "systemctl disable ", " 2>/dev/null || true", "Disabled service: ", "");
  }

  lemma PathsRight()
    ensures PathPlan() == [Cleaned("/etc/vmware-tools"), Cleaned("/usr/lib/vmware-tools"),
                           Cleaned("/usr/lib64/open-vm-tools"), Cleaned("/var/log/vmware-*")]
  {
    hide CleanPaths;
    CleanPathsIs(VMWARE_PATHS);
  }

  lemma FlatFour(a: seq<Step>, b: seq<Step>, c: seq<Step>, d: seq<Step>)
    ensures Flat([a, b, c, d]) == a + b + c + d
  {
    assert [d][1..] == [] && [c, d][1..] == [d] && [b, c, d][1..] == [c, d] && [a, b, c, d][1..] == [b, c, d];
    assert Flat([d]) == d + Flat([]);
    assert Flat([c, d]) == c + Flat([d]);
    assert Flat([b, c, d]) == b + Flat([c, d]);
    assert Flat([a, b, c, d]) == a + Flat([b, c, d]);
  }

  lemma StagesRight(m: nat)
    ensures Flat(RemovalStages(ManagerOf(m))) == RemovalScript(m)
  {
    PackagesRight(m);
    ServicesRight();
    PathsRight();
    hide PackagePlan, ServicePlan, PathPlan, PackageScript, Flat, ManagerOf, Rpm, Deb, Disabled, Cleaned;
    FlatFour(PackagePlan(ManagerOf(m)), BlacklistPlan(), ServicePlan(), PathPlan());
  }

  /** A removal that finds all its tools does what the guest needs. */
  lemma RemovalIsRight(files: Files, log: seq<Command>, oracle: nat -> Outcome)
    requires NoneMissing(oracle, |log|)
    ensures ToolsRemoved(log, RemovalRun(files, log, oracle), oracle)
  {
    hide RunStages, ProbeAnswer, ProbeCalls, RemovalStages, RemovalScript, Flat, CallsOf, Told, FirstRead, ManagerOf;
    hide Plan, Plans, Markers;
    var m := MarkerRead(oracle, |log|);
    var calls := ProbeCalls(DISTRO_MARKERS, oracle, |log|);
    var w1 := Detected(World(files, log, true, [], []), oracle);
    StagesRight(m);
    StagesCarried(w1, RemovalStages(ManagerOf(m)), oracle);
    ManagerKnown(m);
    var w := RemovalRun(files, log, oracle);
    assert w1.actions == ["Detected package manager: " + if m < 5 then ManagerOf(m) else "unknown"];
    assert w.log == log + calls + CallsOf(RemovalScript(m));
  }

  lemma ManagerKnown(m: nat)
    ensures ManagerOf(m) == "" <==> m >= 5
  {
    assert |"rpm"| == |"dnf"| == |"deb"| == 3;
  }

  lemma MarkerRead(oracle: nat -> Outcome, k: nat) returns (m: nat)
    requires NoneMissing(oracle, k)
    ensures FirstRead(Markers(), m, ProbeCalls(DISTRO_MARKERS, oracle, k), oracle, k)
    ensures ProbeAnswer(DISTRO_MARKERS, oracle, k) == ManagerOf(m)
  {
    hide ProbeAnswer, ProbeCalls;
    forall j: nat | j < 5 ensures DISTRO_MARKERS[j] == (VirtCat(Markers()[j]), ManagerOf(j)) { MarkerIs(j); }
    m := ProbeReads(DISTRO_MARKERS, Markers(), oracle, k);
    assert m <= 5;
  }

  lemma MarkerIs(j: nat)
    requires j < 5
    ensures DISTRO_MARKERS[j] == (VirtCat(Markers()[j]), ManagerOf(j))
  {
  }

  method RemoveVmwareToolsLinux(image: Image) returns (result: FixupResult)
    modifies image
    ensures fresh(result)
    ensures !image.present ==>
      image.files == old(image.files) && image.log == old(image.log)
      && !result.success && result.errors == ["Disk image not found: " + image.path]
    ensures image.present ==>
      Now(image, result) == RemovalRun(old(image.files), old(image.log), image.oracle)
      && Ledger(Now(image, result), image.oracle, |old(image.log)|)
    ensures image.present && NoneMissing(image.oracle, |old(image.log)|) ==>
      ToolsRemoved(old(image.log), Now(image, result), image.oracle)
    ensures result.success <==> result.errors == []
  {
    hide RunStages, RemovalStages, ProbeAnswer, ProbeCalls, Faults, ToolsRemoved, NoneMissing;
    if !image.present {
      result := new FixupResult(false, ["Disk image not found: " + image.path]);
      return;
    }
    result := new FixupResult(true, []);
    RemovalLedger(image.files, image.log, image.oracle);
    if NoneMissing(image.oracle, |image.log|) { RemovalIsRight(image.files, image.log, image.oracle); }
    var manager := Probe(image, DISTRO_MARKERS);
    result.actions := result.actions
      + ["Detected package manager: " + if manager != "" then manager else "unknown"];
    PerformAll(image, result, RemovalStages(manager));
  }
}

/** Bootloader fixup (vmfree/fixup/bootloader.py). */
module Bootloader {
  import opened Guest

  const INITRAMFS_TOOLS: seq<(Command, string)> :=
    [(VirtCat("/usr/bin/dracut"), "dracut"), (VirtCat("/usr/sbin/update-initramfs"), "update-initramfs")]
  const GRUB_PATHS: seq<(Command, string)> :=
    [(VirtCat("/boot/grub2/grub.cfg"), "yes"), (VirtCat("/boot/grub/grub.cfg"), "yes")]

  /** Module configuration, then the rebuild; the second runs even when the
      first gave up. */
  function InitramfsStages(tool: string): (stages: seq<seq<Step>>) ensures Plans(stages) {
    [[Step(Customize("add virtio modules to " + tool), ["Added 10 virtio modules to " + tool + " config"],
           ["Failed to add virtio modules to " + tool + " config"])],
     [Step(RebuildImage(tool), ["Rebuilt initramfs using " + tool], ["initramfs rebuild failed (" + tool + ")"])]]
  }

  const GRUB_PLAN: seq<Step> :=
    [Step(Customize("grub2-mkconfig -o /boot/grub2/grub.cfg"), ["Regenerated GRUB configuration"],
          ["GRUB config regeneration returned non-zero"])]

  const FSTAB_PLAN: seq<Step> :=
    [Step(Customize("cp /etc/fstab /etc/fstab.vmfree-backup"), ["Checked fstab for device-name references"],
          ["fstab check returned non-zero"])]

  datatype StepName = Initramfs | Grub | Fstab

  function NameOf(s: StepName): string {
    match s case Initramfs => "initramfs" case Grub => "grub" case Fstab => "fstab"
  }

  /** A fixup step on an existing image: probe, first entry of the report, calls. */
  function StepStart(s: StepName, w: World, oracle: nat -> Outcome): World {
    match s
    case Initramfs =>
      var tool := ProbeAnswer(INITRAMFS_TOOLS, oracle, |w.log|);
      w.(log := w.log + ProbeCalls(INITRAMFS_TOOLS, oracle, |w.log|),
         actions := w.actions + ["Detected initramfs tool: " + if tool != "" then tool else "unknown"]
                    + if tool == "" then ["No known initramfs tool found, skipping rebuild"] else [])
    case Grub =>
      w.(log := w.log + ProbeCalls(GRUB_PATHS, oracle, |w.log|),
         actions := w.actions + if ProbeAnswer(GRUB_PATHS, oracle, |w.log|) == ""
                                then ["GRUB not detected, skipping update"] else [])
    case Fstab => w
  }

  function StepStages(s: StepName, k: nat, oracle: nat -> Outcome): (stages: seq<seq<Step>>)
    ensures Plans(stages)
  {
    match s
    case Initramfs =>
      var tool := ProbeAnswer(INITRAMFS_TOOLS, oracle, k);
      if tool == "" then [] else InitramfsStages(tool)
    case Grub => if ProbeAnswer(GRUB_PATHS, oracle, k) == "" then [] else [GRUB_PLAN]
    case Fstab => [FSTAB_PLAN]
  }

  /** A fixup step as a function: the image may be absent. */
  function StepRun(s: StepName, image: Image, files: Files, log: seq<Command>): World {
    if !image.present then World(files, log, false, [], ["Disk image not found: " + image.path])
    else
      RunStages(StepStart(s, World(files, log, true, [], []), image.oracle),
                StepStages(s, |log|, image.oracle), image.oracle)
  }

  /** Every step reports exactly the errors of its calls. */
  lemma StepLedger(s: StepName, image: Image, files: Files, log: seq<Command>)
    ensures var w := StepRun(s, image, files, log);
      && log <= w.log && (w.success <==> w.errors == [])
      && (image.present ==> Ledger(w, image.oracle, |log|))
  {
    hide RunStages, ProbeAnswer, ProbeCalls, Faults;
    if image.present {
      var w0 := World(files, log, true, [], []);
      LedgerStart(w0, image.oracle);
      var w1 := StepStart(s, w0, image.oracle);
      assert w0.actions + w1.actions == w1.actions;
      LedgerProbe(w0, INITRAMFS_TOOLS, image.oracle, |log|, w1.actions);
      LedgerProbe(w0, GRUB_PATHS, image.oracle, |log|, w1.actions);
      LedgerStages(w1, StepStages(s, |log|, image.oracle), image.oracle, |log|);
      StagesExtendLog(w1, StepStages(s, |log|, image.oracle), image.oracle);
    }
  }

  // ---------------------------------------------------------------------
  // What a step does to which guest
  // ---------------------------------------------------------------------

  function ToolScript(tool: string): seq<Step> {
    if tool == "" then []
    else
      [Step(Customize("add virtio modules to " + tool), ["Added 10 virtio modules to " + tool + " config"],
            ["Failed to add virtio modules to " + tool + " config"]),
       Step(RebuildImage(tool), ["Rebuilt initramfs using " + tool], ["initramfs rebuild failed (" + tool + ")"])]
  }

  function ToolActions(tool: string): seq<string> {
    if tool == "" then ["Detected initramfs tool: unknown", "No known initramfs tool found, skipping rebuild"]
    else ["Detected initramfs tool: " + tool]
  }

  /** Which tool it is to be: dracut where that can be read, else update-initramfs
      where that can be read, else none. */
  ghost predicate ToolAsked(calls: seq<Command>, tool: string, oracle: nat -> Outcome, k: nat) {
    if oracle(k).Done? then calls == [VirtCat("/usr/bin/dracut")] && tool == "dracut"
    else
      && calls == [VirtCat("/usr/bin/dracut"), VirtCat("/usr/sbin/update-initramfs")]
      && tool == if oracle(k + 1).Done? then "update-initramfs" else ""
  }

  /** A rebuild that finds all its tools. It fails exactly when the call that rebuilds
      does. */
  ghost predicate InitramfsDone(log: seq<Command>, w: World, oracle: nat -> Outcome) {
    exists calls: seq<Command>, tool: string :: ToolAsked(calls, tool, oracle, |log|)
      && w.log == log + calls + CallsOf(ToolScript(tool))
      && w.actions == ToolActions(tool) + Told(ToolScript(tool), oracle, |log| + |calls|)
      && w.errors == (if tool == "" || oracle(|log| + |calls| + 1).Done? then []
                      else [tool + " returned non-zero exit code"])
      && (w.success <==> w.errors == [])
  }

  function GrubScript(): seq<Step> {
    [Step(Customize("grub2-mkconfig -o /boot/grub2/grub.cfg"), ["Regenerated GRUB configuration"],
          ["GRUB config regeneration returned non-zero"])]
  }

  /** Whether there is a GRUB to update: one of two files can be read. */
  ghost predicate GrubAsked(calls: seq<Command>, found: bool, oracle: nat -> Outcome, k: nat) {
    if oracle(k).Done? then calls == [VirtCat("/boot/grub2/grub.cfg")] && found
    else
      && calls == [VirtCat("/boot/grub2/grub.cfg"), VirtCat("/boot/grub/grub.cfg")]
      && (found <==> oracle(k + 1).Done?)
  }

  /** A GRUB update that finds all its tools. */
  ghost predicate GrubDone(log: seq<Command>, w: World, oracle: nat -> Outcome) {
    exists calls: seq<Command>, found: bool :: GrubAsked(calls, found, oracle, |log|)
      && (if found then
            && w.log == log + calls + CallsOf(GrubScript())
            && w.actions == Told(GrubScript(), oracle, |log| + |calls|)
          else w.log == log + calls && w.actions == ["GRUB not detected, skipping update"])
      && w.success && w.errors == []
  }

  function FstabScript(): seq<Step> {
    [Step(Customize("cp /etc/fstab /etc/fstab.vmfree-backup"), ["Checked fstab for device-name references"],
          ["fstab check returned non-zero"])]
  }

  ghost predicate FstabDone(log: seq<Command>, w: World, oracle: nat -> Outcome) {
    && w.success && w.errors == [] && w.log == log + CallsOf(FstabScript())
    && w.actions == Told(FstabScript(), oracle, |log|)
  }

  /** A whole fixup that finds all its tools: the three steps one after another, and
      only the rebuild can fail. */
  ghost predicate BootDone(log: seq<Command>, w: World, oracle: nat -> Outcome) {
    exists a: World, b: World, c: World ::
      && InitramfsDone(log, a, oracle) && GrubDone(a.log, b, oracle) && FstabDone(b.log, c, oracle)
      && w.log == c.log && w.errors == a.errors && (w.success <==> a.success)
      && w.actions == a.actions + (if a.success then [] else ["Step failed: initramfs"]) + b.actions + c.actions
  }

  /** What a step that finds all its tools does. */
  ghost predicate StepDone(s: StepName, log: seq<Command>, w: World, oracle: nat -> Outcome) {
    match s
    case Initramfs => InitramfsDone(log, w, oracle)
    case Grub => GrubDone(log, w, oracle)
    case Fstab => FstabDone(log, w, oracle)
  }

  lemma {:induction false} FlatStages(a: seq<Step>, b: seq<Step>)
    ensures Flat([]) == [] && Flat([a]) == a && Flat([a, b]) == a + b
  {
    assert [a][1..] == [] && [a, b][1..] == [b];
    assert Flat([b]) == b;
  }

  /** A step carries out its calls, and its errors are those of its calls. */
  lemma StepCarried(s: StepName, image: Image, files: Files, log: seq<Command>)
    requires image.present && NoneMissing(image.oracle, |log|)
    ensures var w := StepRun(s, image, files, log);
      && Carried(StepStart(s, World(files, log, true, [], []), image.oracle), w,
                 Flat(StepStages(s, |log|, image.oracle)), image.oracle)
      && |log| <= |w.log| && w.errors == Faults(w.log, image.oracle, |log|) && (w.success <==> w.errors == [])
  {
    hide RunStages, Flat, Faults, ProbeCalls, ProbeAnswer, Carried, StepStages;
    StepLedger(s, image, files, log);
    var w1 := StepStart(s, World(files, log, true, [], []), image.oracle);
    assert |w1.log| >= |log|;
    StagesCarried(w1, StepStages(s, |log|, image.oracle), image.oracle);
  }

  /** Calls of which only the last may be a rebuild. */
  predicate NoRebuilds(cmds: seq<Command>) { forall i | 0 <= i < |cmds| :: !cmds[i].RebuildImage? }

  lemma NoFaults(log: seq<Command>, calls: seq<Command>, oracle: nat -> Outcome)
    requires NoneMissing(oracle, |log|) && NoRebuilds(calls)
    ensures Faults(log + calls, oracle, |log|) == []
  {
    OnlyRebuildsFail(log + calls, oracle, |log|);
  }

  lemma FstabRight(image: Image, files: Files, log: seq<Command>)
    requires image.present && NoneMissing(image.oracle, |log|)
    ensures FstabDone(log, StepRun(Fstab, image, files, log), image.oracle)
  {
    FlatStages(FSTAB_PLAN, []);
    StepCarried(Fstab, image, files, log);
    NoFaults(log, CallsOf(FstabScript()), image.oracle);
    hide RunStages, Flat, Told, Faults, CallsOf, StepRun;
  }

  /** What one of two files says to the probing. */
  lemma OneOfTwo(probes: seq<(Command, string)>, first: string, second: string, oracle: nat -> Outcome, k: nat)
    requires |probes| == 2 && probes[0].0 == VirtCat(first) && probes[1].0 == VirtCat(second) && NoneMissing(oracle, k)
    ensures var calls, answer := ProbeCalls(probes, oracle, k), ProbeAnswer(probes, oracle, k);
      if oracle(k).Done? then calls == [VirtCat(first)] && answer == probes[0].1
      else calls == [VirtCat(first), VirtCat(second)] && answer == if oracle(k + 1).Done? then probes[1].1 else ""
  {
    var i := ProbeReads(probes, [first, second], oracle, k);
    hide ProbeCalls, ProbeAnswer;
  }

  lemma GrubRight(image: Image, files: Files, log: seq<Command>)
    requires image.present && NoneMissing(image.oracle, |log|)
    ensures GrubDone(log, StepRun(Grub, image, files, log), image.oracle)
  {
    hide *;
    var oracle := image.oracle;
    var calls, answer := ProbeCalls(GRUB_PATHS, oracle, |log|), ProbeAnswer(GRUB_PATHS, oracle, |log|);
    GrubProbed(oracle, |log|);
    GrubStarts(World(files, log, true, [], []), oracle);
    StepCarried(Grub, image, files, log);
    GrubFits(log, calls, answer != "", StepStart(Grub, World(files, log, true, [], []), oracle),
             StepRun(Grub, image, files, log), oracle);
  }

  lemma GrubProbed(oracle: nat -> Outcome, k: nat)
    requires NoneMissing(oracle, k)
    ensures GrubAsked(ProbeCalls(GRUB_PATHS, oracle, k), ProbeAnswer(GRUB_PATHS, oracle, k) != "", oracle, k)
  {
    assert GRUB_PATHS[0].1 == GRUB_PATHS[1].1 == "yes" && "yes" != "";
    OneOfTwo(GRUB_PATHS, "/boot/grub2/grub.cfg", "/boot/grub/grub.cfg", oracle, k);
    hide ProbeCalls, ProbeAnswer;
  }

  lemma GrubFits(log: seq<Command>, calls: seq<Command>, found: bool, w1: World, w: World, oracle: nat -> Outcome)
    requires GrubAsked(calls, found, oracle, |log|) && NoneMissing(oracle, |log|)
    requires w1.log == log + calls && w1.actions == if found then [] else ["GRUB not detected, skipping update"]
    requires Carried(w1, w, if found then GrubScript() else [], oracle)
    requires |log| <= |w.log| && w.errors == Faults(w.log, oracle, |log|) && (w.success <==> w.errors == [])
    ensures GrubDone(log, w, oracle)
  {
    GrubFaults(log, calls, found, oracle);
    hide GrubAsked, GrubScript, Faults;
    if found {
      hide Told, CallsOf;
    } else {
      assert w.log == log + calls && w.actions == w1.actions;
    }
  }

  lemma GrubFaults(log: seq<Command>, calls: seq<Command>, found: bool, oracle: nat -> Outcome)
    requires GrubAsked(calls, found, oracle, |log|) && NoneMissing(oracle, |log|)
    ensures Faults(log + calls, oracle, |log|) == []
    ensures Faults(log + calls + CallsOf(GrubScript()), oracle, |log|) == []
  {
    hide Faults;
    OneNoRebuild(calls, GrubScript()[0].cmd);
    NoFaults(log, calls, oracle);
    NoFaults(log, calls + [GrubScript()[0].cmd], oracle);
    assert CallsOf(GrubScript()) == [GrubScript()[0].cmd];
    assert log + (calls + CallsOf(GrubScript())) == log + calls + CallsOf(GrubScript());
  }

  lemma OneNoRebuild(calls: seq<Command>, last: Command)
    requires !last.RebuildImage?
    ensures NoRebuilds(calls) ==> NoRebuilds(calls + [last])
  {
  }

  lemma GrubStarts(w: World, oracle: nat -> Outcome)
    ensures var k, w1 := |w.log|, StepStart(Grub, w, oracle);
      var found := ProbeAnswer(GRUB_PATHS, oracle, k) != "";
      && w1.log == w.log + ProbeCalls(GRUB_PATHS, oracle, k)
      && w1.actions == w.actions + (if found then [] else ["GRUB not detected, skipping update"])
      && Flat(StepStages(Grub, k, oracle)) == if found then GrubScript() else []
  {
    FlatStages(GRUB_PLAN, []);
    hide ProbeCalls, ProbeAnswer, Flat;
  }

  lemma InitramfsStarts(w: World, oracle: nat -> Outcome)
    ensures var k, w1 := |w.log|, StepStart(Initramfs, w, oracle);
      var tool := ProbeAnswer(INITRAMFS_TOOLS, oracle, k);
      && w1.log == w.log + ProbeCalls(INITRAMFS_TOOLS, oracle, k)
      && w1.actions == w.actions + ToolActions(tool) && Flat(StepStages(Initramfs, k, oracle)) == ToolScript(tool)
  {
    ToolStages(ProbeAnswer(INITRAMFS_TOOLS, oracle, |w.log|), oracle, |w.log|);
    hide StepStages, ToolScript;
    assert "Detected initramfs tool: " + "unknown" == "Detected initramfs tool: unknown";
    hide ProbeCalls, ProbeAnswer, Flat;
  }

  lemma ToolStages(tool: string, oracle: nat -> Outcome, k: nat)
    requires tool == ProbeAnswer(INITRAMFS_TOOLS, oracle, k)
    ensures Flat(StepStages(Initramfs, k, oracle)) == ToolScript(tool)
  {
    FlatStages(InitramfsStages(tool)[0], InitramfsStages(tool)[1]);
    hide ProbeAnswer, Flat;
  }

  lemma ToolFaults(log: seq<Command>, calls: seq<Command>, tool: string, oracle: nat -> Outcome)
    requires NoneMissing(oracle, |log|) && NoRebuilds(calls)
    ensures Faults(log + calls + CallsOf(ToolScript(tool)), oracle, |log|)
         == if tool == "" || oracle(|log| + |calls| + 1).Done? then [] else [tool + " returned non-zero exit code"]
  {
    hide Faults;
    if tool == "" {
      NoFaults(log, calls, oracle);
      assert log + calls + CallsOf([]) == log + calls;
    } else {
      OneNoRebuild(calls, ToolScript(tool)[0].cmd);
      var more := calls + [ToolScript(tool)[0].cmd];
      LastRebuild(log + more, tool, oracle, |log|);
      assert CallsOf(ToolScript(tool)) == [ToolScript(tool)[0].cmd] + [RebuildImage(tool)];
      assert log + calls + CallsOf(ToolScript(tool)) == (log + more) + [RebuildImage(tool)];
    }
  }

  lemma InitramfsRight(image: Image, files: Files, log: seq<Command>)
    requires image.present && NoneMissing(image.oracle, |log|)
    ensures InitramfsDone(log, StepRun(Initramfs, image, files, log), image.oracle)
  {
    hide *;
    var oracle := image.oracle;
    var calls, tool := ProbeCalls(INITRAMFS_TOOLS, oracle, |log|), ProbeAnswer(INITRAMFS_TOOLS, oracle, |log|);
    ToolProbed(oracle, |log|);
    InitramfsStarts(World(files, log, true, [], []), oracle);
    StepCarried(Initramfs, image, files, log);
    InitramfsFits(log, calls, tool, StepStart(Initramfs, World(files, log, true, [], []), oracle),
                  StepRun(Initramfs, image, files, log), oracle);
  }

  lemma ToolProbed(oracle: nat -> Outcome, k: nat)
    requires NoneMissing(oracle, k)
    ensures ToolAsked(ProbeCalls(INITRAMFS_TOOLS, oracle, k), ProbeAnswer(INITRAMFS_TOOLS, oracle, k), oracle, k)
  {
    assert INITRAMFS_TOOLS[0].1 == "dracut" && INITRAMFS_TOOLS[1].1 == "update-initramfs";
    OneOfTwo(INITRAMFS_TOOLS, "/usr/bin/dracut", "/usr/sbin/update-initramfs", oracle, k);
    hide ProbeCalls, ProbeAnswer;
  }

  lemma InitramfsFits(log: seq<Command>, calls: seq<Command>, tool: string, w1: World, w: World, oracle: nat -> Outcome)
    requires ToolAsked(calls, tool, oracle, |log|) && NoneMissing(oracle, |log|)
    requires w1.log == log + calls && w1.actions == ToolActions(tool) && Carried(w1, w, ToolScript(tool), oracle)
    requires |log| <= |w.log| && w.errors == Faults(w.log, oracle, |log|) && (w.success <==> w.errors == [])
    ensures InitramfsDone(log, w, oracle)
  {
    AskingIsNoRebuild(calls, tool, oracle, |log|);
    hide ToolScript, ToolActions, Faults, NoRebuilds, ToolAsked, Told, CallsOf;
    ToolFaults(log, calls, tool, oracle);
  }

  lemma AskingIsNoRebuild(calls: seq<Command>, tool: string, oracle: nat -> Outcome, k: nat)
    requires ToolAsked(calls, tool, oracle, k)
    ensures NoRebuilds(calls)
  {
  }

  lemma StepIsRight(s: StepName, image: Image, files: Files, log: seq<Command>)
    requires image.present && NoneMissing(image.oracle, |log|)
    ensures StepDone(s, log, StepRun(s, image, files, log), image.oracle)
  {
    hide StepRun, InitramfsDone, GrubDone, FstabDone;
    match s {
      case Initramfs => InitramfsRight(image, files, log);
      case Grub => GrubRight(image, files, log);
      case Fstab => FstabRight(image, files, log);
    }
  }

  method RebuildInitramfs(image: Image) returns (result: FixupResult)
    modifies image
    ensures fresh(result)
    ensures Now(image, result) == StepRun(Initramfs, image, old(image.files), old(image.log))
    ensures image.present && NoneMissing(image.oracle, |old(image.log)|) ==>
      InitramfsDone(old(image.log), Now(image, result), image.oracle)
    ensures !image.present ==> result.errors == ["Disk image not found: " + image.path] && image.log == old(image.log)
    ensures result.success <==> result.errors == []
  {
    hide ProbeAnswer, ProbeCalls, Faults, InitramfsStages, InitramfsDone, NoneMissing;
    StepLedger(Initramfs, image, image.files, image.log);
    if image.present && NoneMissing(image.oracle, |image.log|) { InitramfsRight(image, image.files, image.log); }
    if !image.present {
      result := new FixupResult(false, ["Disk image not found: " + image.path]);
      return;
    }
    result := new FixupResult(true, []);
    var tool := Probe(image, INITRAMFS_TOOLS);
    result.actions := result.actions + ["Detected initramfs tool: " + if tool != "" then tool else "unknown"];
    if tool == "" {
      result.actions := result.actions + ["No known initramfs tool found, skipping rebuild"];
      return;
    }
    assert result.actions + [] == result.actions;
    PerformAll(image, result, InitramfsStages(tool));
  }

  method UpdateGrub(image: Image) returns (result: FixupResult)
    modifies image
    ensures fresh(result)
    ensures Now(image, result) == StepRun(Grub, image, old(image.files), old(image.log))
    ensures image.present && NoneMissing(image.oracle, |old(image.log)|) ==>
      GrubDone(old(image.log), Now(image, result), image.oracle)
    ensures !image.present ==> result.errors == ["Disk image not found: " + image.path] && image.log == old(image.log)
    ensures result.success <==> result.errors == []
  {
    hide ProbeAnswer, ProbeCalls, Faults, GrubDone, NoneMissing;
    StepLedger(Grub, image, image.files, image.log);
    if image.present && NoneMissing(image.oracle, |image.log|) { GrubRight(image, image.files, image.log); }
    if !image.present {
      result := new FixupResult(false, ["Disk image not found: " + image.path]);
      return;
    }
    result := new FixupResult(true, []);
    var grub := Probe(image, GRUB_PATHS);
    if grub == "" {
      result.actions := result.actions + ["GRUB not detected, skipping update"];
      return;
    }
    assert result.actions + [] == result.actions;
    PerformAll(image, result, [GRUB_PLAN]);
  }

  method FixFstabDiskReferences(image: Image) returns (result: FixupResult)
    modifies image
    ensures fresh(result)
    ensures Now(image, result) == StepRun(Fstab, image, old(image.files), old(image.log))
    ensures image.present && NoneMissing(image.oracle, |old(image.log)|) ==>
      FstabDone(old(image.log), Now(image, result), image.oracle)
    ensures !image.present ==> result.errors == ["Disk image not found: " + image.path] && image.log == old(image.log)
    ensures result.success <==> result.errors == []
  {
    hide FstabDone, NoneMissing;
    StepLedger(Fstab, image, image.files, image.log);
    if image.present && NoneMissing(image.oracle, |image.log|) { FstabRight(image, image.files, image.log); }
    if !image.present {
      result := new FixupResult(false, ["Disk image not found: " + image.path]);
      return;
    }
    result := new FixupResult(true, []);
    PerformAll(image, result, [FSTAB_PLAN]);
  }

  method RunStep(s: StepName, image: Image) returns (result: FixupResult)
    modifies image
    ensures fresh(result)
    ensures Now(image, result) == StepRun(s, image, old(image.files), old(image.log))
  {
    match s {
      case Initramfs => result := RebuildInitramfs(image);
      case Grub => result := UpdateGrub(image);
      case Fstab => result := FixFstabDiskReferences(image);
    }
  }

  // ---------------------------------------------------------------------
  // full_bootloader_fixup
  // ---------------------------------------------------------------------

  /** A report extended by the report of one more step. */
  function Extended(w: World, s: StepName, one: World): World {
    World(one.files, one.log, w.success && one.success,
          w.actions + one.actions + if one.success then [] else ["Step failed: " + NameOf(s)],
          w.errors + one.errors)
  }

  /** The combined report: every step runs, whether or not earlier steps failed. */
  function Combine(w: World, steps: seq<StepName>, image: Image): World
    decreases |steps|
  {
    if steps == [] then w
    else Combine(Extended(w, steps[0], StepRun(steps[0], image, w.files, w.log)), steps[1..], image)
  }

  lemma ExtendedLedger(w: World, s: StepName, image: Image, k: nat)
    requires image.present && Ledger(w, image.oracle, k)
    ensures Ledger(Extended(w, s, StepRun(s, image, w.files, w.log)), image.oracle, k)
  {
    var one := StepRun(s, image, w.files, w.log);
    StepLedger(s, image, w.files, w.log);
    var more := one.log[|w.log|..];
    assert one.log == w.log + more;
    FaultsAppend(w.log, more, image.oracle, k);
  }

  /** The combined errors are exactly the errors of all calls of all steps. */
  lemma {:induction false} CombineLedger(w: World, steps: seq<StepName>, image: Image, k: nat)
    requires image.present && Ledger(w, image.oracle, k)
    ensures Ledger(Combine(w, steps, image), image.oracle, k)
    decreases |steps|
  {
    if steps != [] {
      ExtendedLedger(w, steps[0], image, k);
      CombineLedger(Extended(w, steps[0], StepRun(steps[0], image, w.files, w.log)), steps[1..], image, k);
    }
  }

  /** Success of the combined report means that its error list is empty. */
  lemma {:induction false} CombineHonest(w: World, steps: seq<StepName>, image: Image)
    requires w.success <==> w.errors == []
    ensures var c := Combine(w, steps, image); c.success <==> c.errors == []
    decreases |steps|
  {
    if steps != [] {
      StepLedger(steps[0], image, w.files, w.log);
      CombineHonest(Extended(w, steps[0], StepRun(steps[0], image, w.files, w.log)), steps[1..], image);
    }
  }

  const ALL_STEPS: seq<StepName> := [Initramfs, Grub, Fstab]

  /** A whole fixup that finds all its tools does the three steps. */
  lemma BootIsRight(image: Image, files: Files, log: seq<Command>)
    requires image.present && NoneMissing(image.oracle, |log|)
    ensures BootDone(log, Combine(World(files, log, true, [], []), ALL_STEPS, image), image.oracle)
  {
    hide StepRun, InitramfsDone, GrubDone, FstabDone, NoneMissing, Combine, Extended, Ledger;
    var w0 := World(files, log, true, [], []);
    var a := StepRun(Initramfs, image, files, log);
    var b := StepRun(Grub, image, a.files, a.log);
    var c := StepRun(Fstab, image, b.files, b.log);
    StepIsRight(Initramfs, image, files, log);
    StepLedger(Initramfs, image, files, log);
    assert NoneMissing(image.oracle, |a.log|) by { NoneLater(image.oracle, |log|, |a.log|); }
    StepIsRight(Grub, image, a.files, a.log);
    StepLedger(Grub, image, a.files, a.log);
    assert NoneMissing(image.oracle, |b.log|) by { NoneLater(image.oracle, |a.log|, |b.log|); }
    StepIsRight(Fstab, image, b.files, b.log);
    GrubSucceeds(a.log, b, image.oracle);
    FstabSucceeds(b.log, c, image.oracle);
    ThreeSteps(w0, image);
    ThreeReports(w0, a, b, c);
  }

  lemma ThreeReports(w0: World, a: World, b: World, c: World)
    requires w0.success && w0.actions == [] && w0.errors == []
    requires b.success && b.errors == [] && c.success && c.errors == []
    ensures var w := Extended(Extended(Extended(w0, Initramfs, a), Grub, b), Fstab, c);
      && w.log == c.log && w.errors == a.errors && w.success == a.success
      && w.actions == a.actions + (if a.success then [] else ["Step failed: initramfs"]) + b.actions + c.actions
  {
    assert "Step failed: " + "initramfs" == "Step failed: initramfs";
  }

  lemma ThreeSteps(w: World, image: Image)
    ensures var a := StepRun(Initramfs, image, w.files, w.log);
      var b := StepRun(Grub, image, a.files, a.log);
      var c := StepRun(Fstab, image, b.files, b.log);
      Combine(w, ALL_STEPS, image) == Extended(Extended(Extended(w, Initramfs, a), Grub, b), Fstab, c)
  {
    hide StepRun;
    assert ALL_STEPS[1..] == [Grub, Fstab] && [Grub, Fstab][1..] == [Fstab] && [Fstab][1..] == [];
  }

  lemma NoneLater(oracle: nat -> Outcome, j: nat, k: nat)
    requires j <= k && NoneMissing(oracle, j)
    ensures NoneMissing(oracle, k)
  {
  }

  lemma GrubSucceeds(log: seq<Command>, w: World, oracle: nat -> Outcome)
    requires GrubDone(log, w, oracle)
    ensures w.success && w.errors == []
  {
  }

  lemma FstabSucceeds(log: seq<Command>, w: World, oracle: nat -> Outcome)
    requires FstabDone(log, w, oracle)
    ensures w.success && w.errors == []
  {
  }

  method FullBootloaderFixup(image: Image) returns (combined: FixupResult)
    modifies image
    ensures fresh(combined)
    ensures Now(image, combined) == Combine(World(old(image.files), old(image.log), true, [], []), ALL_STEPS, image)
    ensures image.present ==> Ledger(Now(image, combined), image.oracle, |old(image.log)|)
    ensures image.present && NoneMissing(image.oracle, |old(image.log)|) ==>
      BootDone(old(image.log), Now(image, combined), image.oracle)
    ensures combined.success <==> combined.errors == []
  {
    hide StepRun, Faults, NameOf, BootDone, NoneMissing;
    combined := new FixupResult(true, []);
    ghost var start := Now(image, combined);
    LedgerStart(start, image.oracle);
    CombineHonest(start, ALL_STEPS, image);
    if image.present { CombineLedger(start, ALL_STEPS, image, |image.log|); }
    if image.present && NoneMissing(image.oracle, |image.log|) { BootIsRight(image, image.files, image.log); }
    var i := 0;
    while i < |ALL_STEPS|
      invariant 0 <= i <= |ALL_STEPS| && fresh(combined)
      invariant Combine(Now(image, combined), ALL_STEPS[i..], image) == Combine(start, ALL_STEPS, image)
    {
      assert ALL_STEPS[i..][1..] == ALL_STEPS[i + 1..];
      ghost var before := Now(image, combined);
      var step := RunStep(ALL_STEPS[i], image);
      ghost var one := Now(image, step);
      combined.actions := combined.actions + step.actions;
      combined.errors := combined.errors + step.errors;
      if !step.success {
        combined.success := false;
        combined.actions := combined.actions + ["Step failed: " + NameOf(ALL_STEPS[i])];
      }
      assert Now(image, combined) == Extended(before, ALL_STEPS[i], one);
      i := i + 1;
    }
  }

  /** The combined fixup reports success exactly when no customize call found
      its tool missing and no initramfs rebuild returned a non-zero code. */
  lemma {:induction false} BootSuccessIff(image: Image, files: Files, log: seq<Command>)
    requires image.present
    ensures var w := Combine(World(files, log, true, [], []), ALL_STEPS, image);
      && |log| <= |w.log|
      && (w.success <==> forall i | |log| <= i < |w.log| ::
            IsProbe(w.log[i]) || image.oracle(i).Done? || (image.oracle(i).NonZero? && !w.log[i].RebuildImage?))
  {
    hide Combine, Faults;
    var w := Combine(World(files, log, true, [], []), ALL_STEPS, image);
    LedgerStart(World(files, log, true, [], []), image.oracle);
    CombineLedger(World(files, log, true, [], []), ALL_STEPS, image, |log|);
    NoFaultsIff(w.log, image.oracle, |log|);
    assert forall i | |log| <= i < |w.log| :: ErrorFor(w.log[i], image.oracle(i)) == [] <==>
      IsProbe(w.log[i]) || image.oracle(i).Done? || (image.oracle(i).NonZero? && !w.log[i].RebuildImage?);
  }
}
