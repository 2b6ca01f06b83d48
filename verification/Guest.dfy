/** The guest disk image as the offline fixups see it, the tools that work on
    it, and what a sequence of tool calls does to it.

    Modelling assumptions. A tool call ends in one of three ways: exit code
    zero, a non-zero exit code, or `FileNotFoundError` because the tool is not
    installed. A call that ends with exit code zero had its full effect; one
    that ends with a non-zero code may have had any part of it; a missing tool
    had none. Which of the three happens is left open: it is given by an
    oracle that fixes the outcome of the k-th call, and every statement holds
    for every oracle. What a script of another program does (package manager,
    services, kernel modules, GRUB, initramfs) is left open as well: such a call
    may leave any files behind. */
module Guest {
  import opened Substitution
  import Text

  datatype Outcome =
    | Done(listing: string, left: Files)         // exit code 0, with this stdout
    | NonZero(reached: set<string>, stage: nat, left: Files)  // the part of the effect that took place
    | Missing                                    // FileNotFoundError

  datatype Command =
    | VirtLs(dir: string)
    | VirtCat(path: string)
    | Customize(script: string)                  // a script of another program
    | RebuildImage(tool: string)                 // a customize call whose failure is an error
    | Remove(path: string, recursive: bool)      // rm -f or rm -rf
    | SedFiles(dir: string, suffix: string, pattern: string, inserted: string)
    | MoveIfcfg(dir: string, iface: string, newIface: string)

  type Files = map<string, string>

  // ---------------------------------------------------------------------
  // Effects
  // ---------------------------------------------------------------------

  predicate Selected(dir: string, suffix: string, f: string) {
    dir + "/" <= f && |suffix| <= |f| && f[|f| - |suffix|..] == suffix
  }

  /** `find dir -name '*suffix' -exec sed -i 's/old/new/g'`, restricted to the
      files for which `reached` holds. */
  function SedOn(files: Files, dir: string, suffix: string, p: string, r: string,
                       reached: string -> bool): Files
    requires p != ""
  {
    map f | f in files ::
      if Selected(dir, suffix, f) && reached(f) then ReplaceAll(files[f], p, r) else files[f]
  }

  /** Files that `rm -f path` or, recursively, `rm -rf path` is about. A path may
      end in `*`, which matches no name with a leading dot. */
  predicate Removed(path: string, recursive: bool, f: string) {
    if path != "" && path[|path| - 1] == '*' then
      var pre := path[..|path| - 1];
      && pre <= f
      && (pre != "" && pre[|pre| - 1] == '/' ==> |f| > |pre| && f[|pre|] !in "./")
      && (recursive || '/' !in f[|pre|..])
    else f == path || (recursive && path + "/" <= f)
  }

  /** Whether a call got to a file. */
  predicate GotTo(o: Outcome, f: string) { o.Done? || (o.NonZero? && f in o.reached) }

  /** Whether a call is a removal that took this file. */
  predicate Takes(cmd: Command, o: Outcome, f: string) {
    cmd.Remove? && Removed(cmd.path, cmd.recursive, f) && GotTo(o, f)
  }

  function IfcfgName(dir: string, iface: string): string { dir + "/ifcfg-" + iface }

  /** The rename script: `if [ -f old ]; then mv old new; sed DEVICE; sed NAME; fi`,
      stopped after `stage` of its three commands. `mv` of a file onto itself
      changes nothing. */
  function MoveEffect(files: Files, dir: string, iface: string, newIface: string, stage: nat): Files {
    var src, dst := IfcfgName(dir, iface), IfcfgName(dir, newIface);
    if src !in files || stage == 0 then files
    else
      var moved := (files - {src})[dst := files[src]];
      var device := moved[dst := ReplaceAll(moved[dst], "DEVICE=" + iface, "DEVICE=" + newIface)];
      if stage == 1 then moved
      else if stage == 2 then device
      else device[dst := ReplaceAll(device[dst], "NAME=" + iface, "NAME=" + newIface)]
  }

  /** Calls that only look at the guest. */
  predicate IsProbe(cmd: Command) { cmd.VirtLs? || cmd.VirtCat? }

  predicate AllProbes(cmds: seq<Command>) { forall i | 0 <= i < |cmds| :: IsProbe(cmds[i]) }

  predicate WellFormed(cmd: Command) { cmd.SedFiles? ==> cmd.pattern != "" }

  /** How many commands of a rename script took place. */
  function StageOf(o: Outcome): nat {
    match o case Done(_, _) => 3 case NonZero(_, stage, _) => stage case Missing => 0
  }

  function Effect(cmd: Command, files: Files, o: Outcome): Files
    requires WellFormed(cmd)
  {
    match (cmd, o)
    case (_, Missing) => files
    case (VirtLs(_), _) => files
    case (VirtCat(_), _) => files
    case (Customize(_), _) => o.left
    case (RebuildImage(_), _) => o.left
    case (Remove(_, _), _) => map f | f in files && !Takes(cmd, o, f) :: files[f]
    case (SedFiles(d, x, p, r), _) => SedOn(files, d, x, p, r, f => GotTo(o, f))
    case (MoveIfcfg(d, i, n), _) => MoveEffect(files, d, i, n, StageOf(o))
  }

  /** Every call from the k-th on ends with exit code zero. */
  ghost predicate DoneFrom(oracle: nat -> Outcome, k: nat) { forall i: nat | i >= k :: oracle(i).Done? }

  // ---------------------------------------------------------------------
  // Objects
  // ---------------------------------------------------------------------

  /** A disk image together with the command runner that works on it. */
  class Image {
    const path: string
    const present: bool
    const oracle: nat -> Outcome
    var files: Files
    var log: seq<Command>

    constructor (path: string, isPresent: bool, oracle: nat -> Outcome, files: Files)
      ensures this.path == path && present == isPresent && this.oracle == oracle && this.files == files && log == []
    {
      this.path, present, this.oracle, this.files, log := path, isPresent, oracle, files, [];
    }

    method Run(cmd: Command) returns (o: Outcome)
      requires WellFormed(cmd)
      modifies this
      ensures o == oracle(old(|log|)) && log == old(log) + [cmd]
      ensures files == Effect(cmd, old(files), o)
    {
      o := oracle(|log|);
      files := Effect(cmd, files, o);
      log := log + [cmd];
    }
  }

  /** `FixupResult`. */
  class FixupResult {
    var success: bool
    var actions: seq<string>
    var errors: seq<string>

    constructor (success: bool, errors: seq<string>)
      ensures this.success == success && this.errors == errors && actions == []
    {
      this.success, this.errors, actions := success, errors, [];
    }
  }

  /** What a fixup works on, as a value. */
  datatype World = World(files: Files, log: seq<Command>,
                         success: bool, actions: seq<string>, errors: seq<string>)

  ghost function Now(image: Image, result: FixupResult): World
    reads image, result
  {
    World(image.files, image.log, result.success, result.actions, result.errors)
  }

  // ---------------------------------------------------------------------
  // Specification of the loops over tool calls
  // ---------------------------------------------------------------------

  /** One planned call, with the actions recorded for exit code zero and for a
      non-zero exit code. */
  datatype Step = Step(cmd: Command, onDone: seq<string>, onFail: seq<string>)

  predicate Plan(steps: seq<Step>) {
    forall i | 0 <= i < |steps| :: WellFormed(steps[i].cmd) && !IsProbe(steps[i].cmd)
  }

  /** The error message an ended call must leave in the report. Probing a guest
      with virt-ls or virt-cat never counts as an error. */
  function ErrorFor(cmd: Command, o: Outcome): seq<string> {
    match cmd
    case VirtLs(_) => []
    case VirtCat(_) => []
    case RebuildImage(tool) =>
      (match o case Done(_, _) => [] case NonZero(_, _, _) => [tool + " returned non-zero exit code"]
       case Missing => ["virt-customize not found"])
    case _ => if o.Missing? then ["virt-customize not found"] else []
  }

  function After(w: World, s: Step, o: Outcome): World
    requires WellFormed(s.cmd)
  {
    var error := ErrorFor(s.cmd, o);
    World(Effect(s.cmd, w.files, o), w.log + [s.cmd], w.success && error == [],
          w.actions + (match o case Done(_, _) => s.onDone case NonZero(_, _, _) => s.onFail case Missing => []),
          w.errors + error)
  }

  /** The calls one after another, given up as soon as the tool is missing. */
  function RunPlan(w: World, steps: seq<Step>, oracle: nat -> Outcome): World
    requires Plan(steps)
    decreases |steps|
  {
    if steps == [] then w
    else
      var o := oracle(|w.log|);
      var w' := After(w, steps[0], o);
      if o.Missing? then w' else RunPlan(w', steps[1..], oracle)
  }

  /** The loop shape shared by all fixup helpers: call, record, and return early
      when the tool is missing. */
  method Perform(image: Image, result: FixupResult, steps: seq<Step>)
    requires Plan(steps)
    modifies image, result
    ensures Now(image, result) == RunPlan(old(Now(image, result)), steps, image.oracle)
  {
    hide Effect;
    var i := 0;
    while i < |steps|
      invariant 0 <= i <= |steps| && Plan(steps[i..])
      invariant RunPlan(Now(image, result), steps[i..], image.oracle)
             == RunPlan(old(Now(image, result)), steps, image.oracle)
    {
      assert steps[i..][1..] == steps[i + 1..];
      var step := steps[i];
      ghost var before := Now(image, result);
      var o := image.Run(step.cmd);
      match o {
        case Done(_, _) =>
          result.actions := result.actions + step.onDone;
        case NonZero(_, _, _) =>
          result.actions := result.actions + step.onFail;
          if step.cmd.RebuildImage? {
            result.errors := result.errors + [step.cmd.tool + " returned non-zero exit code"];
            result.success := false;
          }
        case Missing =>
          result.errors := result.errors + ["virt-customize not found"];
          result.success := false;
          assert Now(image, result) == After(before, step, o);
          return;
      }
      assert Now(image, result) == After(before, step, o);
      i := i + 1;
    }
  }

  predicate Plans(stages: seq<seq<Step>>) { forall i | 0 <= i < |stages| :: Plan(stages[i]) }

  /** Helpers one after another. A helper that gave up does not stop the next. */
  function RunStages(w: World, stages: seq<seq<Step>>, oracle: nat -> Outcome): World
    requires Plans(stages)
    decreases |stages|
  {
    if stages == [] then w else RunStages(RunPlan(w, stages[0], oracle), stages[1..], oracle)
  }

  method PerformAll(image: Image, result: FixupResult, stages: seq<seq<Step>>)
    requires Plans(stages)
    modifies image, result
    ensures Now(image, result) == RunStages(old(Now(image, result)), stages, image.oracle)
  {
    var i := 0;
    while i < |stages|
      invariant 0 <= i <= |stages| && Plans(stages[i..])
      invariant RunStages(Now(image, result), stages[i..], image.oracle)
             == RunStages(old(Now(image, result)), stages, image.oracle)
    {
      assert stages[i..][1..] == stages[i + 1..];
      Perform(image, result, stages[i]);
      i := i + 1;
    }
  }

  /** Whether a probe answers yes. A listing must show something. */
  predicate Positive(cmd: Command, o: Outcome) {
    o.Done? && (cmd.VirtLs? ==> Text.Strip(o.listing) != "")
  }

  predicate Probes(probes: seq<(Command, string)>) {
    forall i | 0 <= i < |probes| :: IsProbe(probes[i].0)
  }

  /** The answer of the first probe that says yes; "" when there is none or
      when the probing tool is missing. */
  function ProbeAnswer(probes: seq<(Command, string)>, oracle: nat -> Outcome, k: nat): string
    decreases |probes|
  {
    if probes == [] || oracle(k).Missing? then ""
    else if Positive(probes[0].0, oracle(k)) then probes[0].1
    else ProbeAnswer(probes[1..], oracle, k + 1)
  }

  function ProbeCalls(probes: seq<(Command, string)>, oracle: nat -> Outcome, k: nat): seq<Command>
    decreases |probes|
  {
    if probes == [] then []
    else if oracle(k).Missing? || Positive(probes[0].0, oracle(k)) then [probes[0].0]
    else [probes[0].0] + ProbeCalls(probes[1..], oracle, k + 1)
  }

  /** Runs the probes in order until one answers. */
  method Probe(image: Image, probes: seq<(Command, string)>) returns (answer: string)
    requires Probes(probes)
    modifies image
    ensures answer == ProbeAnswer(probes, image.oracle, |old(image.log)|)
    ensures image.log == old(image.log) + ProbeCalls(probes, image.oracle, |old(image.log)|)
    ensures image.files == old(image.files)
  {
    ghost var start := image.log;
    var i := 0;
    while i < |probes|
      invariant 0 <= i <= |probes| && image.files == old(image.files) && |image.log| == |start| + i
      invariant ProbeAnswer(probes[i..], image.oracle, |image.log|) == ProbeAnswer(probes, image.oracle, |start|)
      invariant image.log + ProbeCalls(probes[i..], image.oracle, |image.log|)
             == start + ProbeCalls(probes, image.oracle, |start|)
    {
      assert probes[i..][1..] == probes[i + 1..];
      ghost var before := image.log;
      var o := image.Run(probes[i].0);
      if o.Missing? {
        return "";
      }
      if Positive(probes[i].0, o) {
        return probes[i].1;
      }
      assert image.log + ProbeCalls(probes[i + 1..], image.oracle, |image.log|)
          == before + ([probes[i].0] + ProbeCalls(probes[i + 1..], image.oracle, |image.log|));
      i := i + 1;
    }
    return "";
  }

  predicate SaysNo(cmd: Command, o: Outcome) { !o.Missing? && !Positive(cmd, o) }

  /** Probing asked up to number `i`: all before it say no, and it says yes or finds
      its tool missing, when there is one. Only a yes is an answer. */
  predicate AskedUpTo(probes: seq<(Command, string)>, oracle: nat -> Outcome, k: nat, i: nat, calls: seq<Command>,
                      answer: string)
  {
    && i <= |probes| && (forall j: nat | j < i :: SaysNo(probes[j].0, oracle(k + j)))
    && |calls| == (if i < |probes| then i + 1 else i)
    && (forall j | 0 <= j < |calls| :: calls[j] == probes[j].0)
    && (i == |probes| ==> answer == "")
    && (i < |probes| && oracle(k + i).Missing? ==> answer == "")
    && (i < |probes| && !oracle(k + i).Missing? ==> Positive(probes[i].0, oracle(k + i)) && answer == probes[i].1)
  }

  lemma {:induction false} ProbeIs(probes: seq<(Command, string)>, oracle: nat -> Outcome, k: nat) returns (i: nat)
    ensures AskedUpTo(probes, oracle, k, i, ProbeCalls(probes, oracle, k), ProbeAnswer(probes, oracle, k))
    decreases |probes|
  {
    hide Positive;
    if probes == [] || oracle(k).Missing? || Positive(probes[0].0, oracle(k)) {
      i := 0;
    } else {
      i := ProbeIs(probes[1..], oracle, k + 1);
      var calls, answer := ProbeCalls(probes[1..], oracle, k + 1), ProbeAnswer(probes[1..], oracle, k + 1);
      AskedOneMore(probes, oracle, k, i, calls, answer);
      i := i + 1;
    }
  }

  lemma AskedOneMore(probes: seq<(Command, string)>, oracle: nat -> Outcome, k: nat, i: nat, calls: seq<Command>,
                     answer: string)
    requires probes != [] && SaysNo(probes[0].0, oracle(k))
    requires AskedUpTo(probes[1..], oracle, k + 1, i, calls, answer)
    ensures AskedUpTo(probes, oracle, k, i + 1, [probes[0].0] + calls, answer)
  {
    hide SaysNo, Positive;
    var rest := probes[1..];
    forall j: nat | j < i + 1 ensures SaysNo(probes[j].0, oracle(k + j)) {
      if j > 0 { assert SaysNo(rest[j - 1].0, oracle(k + 1 + (j - 1))); }
    }
  }

  // ---------------------------------------------------------------------
  // The ledger: a report says exactly what went wrong
  // ---------------------------------------------------------------------

  /** The errors of all calls from the k-th on, in order. */
  function Faults(log: seq<Command>, oracle: nat -> Outcome, k: nat): seq<string>
    requires k <= |log|
    decreases |log| - k
  {
    if k == |log| then [] else ErrorFor(log[k], oracle(k)) + Faults(log, oracle, k + 1)
  }

  /** Since call `k` the report has listed the errors of all calls, nothing
      else, and `success` says that there are none. */
  ghost predicate Ledger(w: World, oracle: nat -> Outcome, k: nat) {
    k <= |w.log| && w.errors == Faults(w.log, oracle, k) && (w.success <==> w.errors == [])
  }

  lemma LedgerStart(w: World, oracle: nat -> Outcome)
    requires w.success && w.errors == []
    ensures Ledger(w, oracle, |w.log|)
  {
  }

  lemma {:induction false} FaultsAppend(log: seq<Command>, more: seq<Command>, oracle: nat -> Outcome, k: nat)
    requires k <= |log|
    ensures Faults(log + more, oracle, k) == Faults(log, oracle, k) + Faults(log + more, oracle, |log|)
    decreases |log| - k
  {
    hide ErrorFor;
    if k < |log| {
      assert (log + more)[k] == log[k];
      FaultsAppend(log, more, oracle, k + 1);
    }
  }

  lemma LedgerStep(w: World, s: Step, oracle: nat -> Outcome, k: nat)
    requires WellFormed(s.cmd) && Ledger(w, oracle, k)
    ensures Ledger(After(w, s, oracle(|w.log|)), oracle, k)
  {
    FaultsAppend(w.log, [s.cmd], oracle, k);
    assert Faults(w.log + [s.cmd], oracle, |w.log| + 1) == [];
  }

  lemma {:induction false} LedgerPlan(w: World, steps: seq<Step>, oracle: nat -> Outcome, k: nat)
    requires Plan(steps) && Ledger(w, oracle, k)
    ensures Ledger(RunPlan(w, steps, oracle), oracle, k)
    decreases |steps|
  {
    if steps != [] {
      LedgerStep(w, steps[0], oracle, k);
      var w' := After(w, steps[0], oracle(|w.log|));
      if !oracle(|w.log|).Missing? { LedgerPlan(w', steps[1..], oracle, k); }
    }
  }

  lemma {:induction false} LedgerStages(w: World, stages: seq<seq<Step>>, oracle: nat -> Outcome, k: nat)
    requires Plans(stages) && Ledger(w, oracle, k)
    ensures Ledger(RunStages(w, stages, oracle), oracle, k)
    decreases |stages|
  {
    if stages != [] {
      LedgerPlan(w, stages[0], oracle, k);
      LedgerStages(RunPlan(w, stages[0], oracle), stages[1..], oracle, k);
    }
  }

  lemma {:induction false} StagesExtendLog(w: World, stages: seq<seq<Step>>, oracle: nat -> Outcome)
    requires Plans(stages)
    ensures w.log <= RunStages(w, stages, oracle).log
    decreases |stages|
  {
    if stages != [] {
      PlanCalls(w, stages[0], oracle);
      StagesExtendLog(RunPlan(w, stages[0], oracle), stages[1..], oracle);
    }
  }

  lemma {:induction false} ProbesAreSilent(probes: seq<(Command, string)>, oracle: nat -> Outcome, j: nat)
    requires Probes(probes)
    ensures AllProbes(ProbeCalls(probes, oracle, j))
    decreases |probes|
  {
    if probes != [] && !oracle(j).Missing? && !Positive(probes[0].0, oracle(j)) {
      ProbesAreSilent(probes[1..], oracle, j + 1);
      var rest := ProbeCalls(probes[1..], oracle, j + 1);
      assert forall i | 1 <= i <= |rest| :: ([probes[0].0] + rest)[i] == rest[i - 1];
    }
  }

  lemma {:induction false} SilentTail(log: seq<Command>, oracle: nat -> Outcome, k: nat)
    requires k <= |log| && forall i | k <= i < |log| :: IsProbe(log[i])
    ensures Faults(log, oracle, k) == []
    decreases |log| - k
  {
    if k < |log| { SilentTail(log, oracle, k + 1); }
  }

  lemma LedgerProbe(w: World, probes: seq<(Command, string)>, oracle: nat -> Outcome, k: nat, acts: seq<string>)
    requires Probes(probes) && Ledger(w, oracle, k)
    ensures Ledger(w.(log := w.log + ProbeCalls(probes, oracle, |w.log|), actions := w.actions + acts), oracle, k)
  {
    var calls := ProbeCalls(probes, oracle, |w.log|);
    FaultsAppend(w.log, calls, oracle, k);
    ProbesAreSilent(probes, oracle, |w.log|);
    SilentTail(w.log + calls, oracle, |w.log|);
  }

  /** The calls of a plan are its steps in order, up to where it was given up. */
  lemma {:induction false} PlanCalls(w: World, steps: seq<Step>, oracle: nat -> Outcome)
    requires Plan(steps)
    ensures var w' := RunPlan(w, steps, oracle);
      && w.log <= w'.log && |w'.log| <= |w.log| + |steps|
      && (forall i | |w.log| <= i < |w'.log| :: w'.log[i] == steps[i - |w.log|].cmd)
      && (|w'.log| < |w.log| + |steps| ==> |w'.log| > |w.log| && oracle(|w'.log| - 1).Missing?)
    decreases |steps|
  {
    hide Effect, ErrorFor;
    if steps != [] {
      var o := oracle(|w.log|);
      if !o.Missing? { PlanCalls(After(w, steps[0], o), steps[1..], oracle); }
    }
  }

  // ---------------------------------------------------------------------
  // Removals
  // ---------------------------------------------------------------------

  /** Plans whose calls neither create nor rename a file. */
  predicate Edits(steps: seq<Step>) {
    forall i | 0 <= i < |steps| :: steps[i].cmd.Remove? || steps[i].cmd.SedFiles?
  }

  predicate Removals(steps: seq<Step>) { forall i | 0 <= i < |steps| :: steps[i].cmd.Remove? }

  /** No call from the k-th on took the file. */
  predicate Untaken(f: string, log: seq<Command>, oracle: nat -> Outcome, k: nat) {
    forall i | k <= i < |log| :: !Takes(log[i], oracle(i), f)
  }

  /** Under every oracle, a file is left after edits and removals exactly when it
      was there and no call took it; removals alone also leave it its text. */
  lemma {:induction false} LeftIff(w: World, steps: seq<Step>, oracle: nat -> Outcome, f: string)
    requires Plan(steps) && Edits(steps)
    ensures var w' := RunPlan(w, steps, oracle);
      && (f in w'.files <==> f in w.files && Untaken(f, w'.log, oracle, |w.log|))
      && (Removals(steps) && f in w'.files ==> w'.files[f] == w.files[f])
    decreases |steps|
  {
    hide Effect, Takes;
    if steps != [] {
      var o := oracle(|w.log|);
      var w1 := After(w, steps[0], o);
      LeftByOne(steps[0].cmd, w.files, o, f);
      PlanCalls(w, steps, oracle);
      if !o.Missing? { LeftIff(w1, steps[1..], oracle, f); }
    }
  }

  lemma LeftByOne(cmd: Command, files: Files, o: Outcome, f: string)
    requires WellFormed(cmd) && (cmd.Remove? || cmd.SedFiles?)
    ensures f in Effect(cmd, files, o) <==> f in files && !Takes(cmd, o, f)
    ensures cmd.Remove? && f in Effect(cmd, files, o) ==> Effect(cmd, files, o)[f] == files[f]
  {
  }

  /** A report is a success exactly when no call since `k` left an error. */
  lemma {:induction false} NoFaultsIff(log: seq<Command>, oracle: nat -> Outcome, k: nat)
    requires k <= |log|
    ensures Faults(log, oracle, k) == [] <==> forall i | k <= i < |log| :: ErrorFor(log[i], oracle(i)) == []
    decreases |log| - k
  {
    hide ErrorFor;
    if k < |log| { NoFaultsIff(log, oracle, k + 1); }
  }

  // ---------------------------------------------------------------------
  // Runs in which no tool is missing
  // ---------------------------------------------------------------------

  ghost predicate NoneMissing(oracle: nat -> Outcome, k: nat) { forall i: nat | i >= k :: !oracle(i).Missing? }

  function CallsOf(steps: seq<Step>): (r: seq<Command>)
    ensures |r| == |steps|
  {
    seq(|steps|, i requires 0 <= i < |steps| => steps[i].cmd)
  }

  /** What the report says of the calls from number `k` on. */
  function Told(steps: seq<Step>, oracle: nat -> Outcome, k: nat): seq<string>
    decreases |steps|
  {
    if steps == [] then []
    else (if oracle(k).Done? then steps[0].onDone else steps[0].onFail) + Told(steps[1..], oracle, k + 1)
  }

  /** All calls have been made, and the report says of each how it ended. */
  ghost predicate Carried(w: World, w': World, steps: seq<Step>, oracle: nat -> Outcome) {
    w'.log == w.log + CallsOf(steps) && w'.actions == w.actions + Told(steps, oracle, |w.log|)
  }

  lemma {:induction false} ToldConcat(a: seq<Step>, b: seq<Step>, oracle: nat -> Outcome, k: nat)
    ensures Told(a + b, oracle, k) == Told(a, oracle, k) + Told(b, oracle, k + |a|)
    ensures CallsOf(a + b) == CallsOf(a) + CallsOf(b)
    decreases |a|
  {
    if a == [] {
      assert a + b == b;
    } else {
      assert (a + b)[1..] == a[1..] + b && (a + b)[0] == a[0];
      ToldConcat(a[1..], b, oracle, k + 1);
      CallsConcat(a, b);
    }
  }

  lemma CallsConcat(a: seq<Step>, b: seq<Step>)
    ensures CallsOf(a + b) == CallsOf(a) + CallsOf(b)
  {
  }

  lemma CarriedBoth(w: World, w1: World, w2: World, a: seq<Step>, b: seq<Step>, oracle: nat -> Outcome)
    requires Carried(w, w1, a, oracle) && Carried(w1, w2, b, oracle)
    ensures Carried(w, w2, a + b, oracle)
  {
    hide Told, CallsOf;
    ToldConcat(a, b, oracle, |w.log|);
  }

  lemma {:induction false} PlanCarried(w: World, steps: seq<Step>, oracle: nat -> Outcome)
    requires Plan(steps) && NoneMissing(oracle, |w.log|)
    ensures Carried(w, RunPlan(w, steps, oracle), steps, oracle)
    decreases |steps|
  {
    hide Effect, ErrorFor;
    if steps != [] {
      var w1 := After(w, steps[0], oracle(|w.log|));
      PlanCarried(w1, steps[1..], oracle);
      OneCarried(w, steps[0], oracle);
      CarriedBoth(w, w1, RunPlan(w1, steps[1..], oracle), [steps[0]], steps[1..], oracle);
      assert [steps[0]] + steps[1..] == steps;
    }
  }

  lemma OneCarried(w: World, s: Step, oracle: nat -> Outcome)
    requires WellFormed(s.cmd) && NoneMissing(oracle, |w.log|)
    ensures Carried(w, After(w, s, oracle(|w.log|)), [s], oracle)
  {
    hide Effect, ErrorFor;
    var o := oracle(|w.log|);
    assert !o.Missing? && CallsOf([s]) == [s.cmd];
    assert Told([s], oracle, |w.log|) == (if o.Done? then s.onDone else s.onFail) + Told([], oracle, |w.log| + 1);
  }

  function Flat(stages: seq<seq<Step>>): seq<Step>
    decreases |stages|
  {
    if stages == [] then [] else stages[0] + Flat(stages[1..])
  }

  lemma {:induction false} StagesCarried(w: World, stages: seq<seq<Step>>, oracle: nat -> Outcome)
    requires Plans(stages) && NoneMissing(oracle, |w.log|)
    ensures Carried(w, RunStages(w, stages, oracle), Flat(stages), oracle)
    decreases |stages|
  {
    hide RunPlan, Plan;
    if stages != [] {
      var w1 := RunPlan(w, stages[0], oracle);
      PlanCarried(w, stages[0], oracle);
      StagesCarried(w1, stages[1..], oracle);
      hide Carried;
      CarriedBoth(w, w1, RunStages(w1, stages[1..], oracle), stages[0], Flat(stages[1..]), oracle);
    }
  }

  /** When no tool is missing only a rebuild can leave an error. */
  lemma OnlyRebuildsFail(log: seq<Command>, oracle: nat -> Outcome, k: nat)
    requires NoneMissing(oracle, k) && k <= |log| && forall i | k <= i < |log| :: !log[i].RebuildImage?
    ensures Faults(log, oracle, k) == []
  {
    NoFaultsIff(log, oracle, k);
  }

  lemma LastRebuild(log: seq<Command>, tool: string, oracle: nat -> Outcome, k: nat)
    requires NoneMissing(oracle, k) && k <= |log| && forall i | k <= i < |log| :: !log[i].RebuildImage?
    ensures Faults(log + [RebuildImage(tool)], oracle, k)
         == if oracle(|log|).Done? then [] else [tool + " returned non-zero exit code"]
  {
    var all := log + [RebuildImage(tool)];
    FaultsAppend(log, [RebuildImage(tool)], oracle, k);
    OnlyRebuildsFail(log, oracle, k);
    assert Faults(all, oracle, |log| + 1) == [];
    assert !oracle(|log|).Missing?;
  }

  // ---------------------------------------------------------------------
  // Probing with cat
  // ---------------------------------------------------------------------

  /** File `i` is the first of some files that could be read, asking for one after
      another from call `k` on; the calls that took; all of them when none could. */
  ghost predicate FirstRead(paths: seq<string>, i: nat, calls: seq<Command>, oracle: nat -> Outcome, k: nat) {
    && i <= |paths| && |calls| == (if i < |paths| then i + 1 else i)
    && (forall j: nat | j < i :: calls[j] == VirtCat(paths[j]) && !oracle(k + j).Done?)
    && (i < |paths| ==> calls[i] == VirtCat(paths[i]) && oracle(k + i).Done?)
  }

  lemma ProbeReads(probes: seq<(Command, string)>, paths: seq<string>, oracle: nat -> Outcome, k: nat)
    returns (i: nat)
    requires |paths| == |probes| && forall j | 0 <= j < |probes| :: probes[j].0 == VirtCat(paths[j])
    requires NoneMissing(oracle, k)
    ensures FirstRead(paths, i, ProbeCalls(probes, oracle, k), oracle, k)
    ensures ProbeAnswer(probes, oracle, k) == if i < |probes| then probes[i].1 else ""
  {
    i := ProbeIs(probes, oracle, k);
    hide ProbeCalls, ProbeAnswer;
    forall j: nat | j < i ensures ProbeCalls(probes, oracle, k)[j] == VirtCat(paths[j]) && !oracle(k + j).Done? {
      assert SaysNo(probes[j].0, oracle(k + j)) && probes[j].0 == VirtCat(paths[j]);
    }
    if i < |probes| { assert probes[i].0 == VirtCat(paths[i]) && !oracle(k + i).Missing?; }
  }
}
