/** The renaming loop over ifcfg scripts (vmfree/fixup/network.py, `_fix_ifcfg`). */
module IfcfgMoves {
  import opened Substitution
  import opened Interference
  import opened Guest
  import opened NetworkFixup
  import opened NetworkNames

  // ---------------------------------------------------------------------
  // The loop, by how far each of its scripts got
  // ---------------------------------------------------------------------

  /** The loop when script `i` got as far as `stages[i]`. */
  function MoveStages(files: Files, dir: string, names: seq<string>, stages: seq<nat>, newIface: string): Files
    requires |stages| == |names|
    decreases |names|
  {
    if names == [] then files
    else
      var n := |names| - 1;
      MoveEffect(MoveStages(files, dir, names[..n], stages[..n], newIface), dir, names[n], newIface, stages[n])
  }

  /** How far the calls from the k-th on got: nowhere, once the tool is missing. */
  function Stages(n: nat, oracle: nat -> Outcome, k: nat): (stages: seq<nat>)
    ensures |stages| == n
  {
    if n == 0 then []
    else if oracle(k).Missing? then seq(n, i => 0)
    else [StageOf(oracle(k))] + Stages(n - 1, oracle, k + 1)
  }

  lemma {:induction false} MoveFirst(files: Files, dir: string, names: seq<string>, stages: seq<nat>, newIface: string)
    requires |stages| == |names| > 0
    ensures MoveStages(files, dir, names, stages, newIface)
         == MoveStages(MoveEffect(files, dir, names[0], newIface, stages[0]), dir, names[1..], stages[1..], newIface)
    decreases |names|
  {
    hide MoveEffect;
    var n := |names| - 1;
    if n > 0 {
      MoveFirst(files, dir, names[..n], stages[..n], newIface);
      assert names[..n][1..] == names[1..][..n - 1] && stages[..n][1..] == stages[1..][..n - 1];
    }
  }

  lemma {:induction false} NoStages(files: Files, dir: string, names: seq<string>, stages: seq<nat>, newIface: string)
    requires |stages| == |names| && forall i | 0 <= i < |stages| :: stages[i] == 0
    ensures MoveStages(files, dir, names, stages, newIface) == files
    decreases |names|
  {
    if names != [] { NoStages(files, dir, names[..|names| - 1], stages[..|names| - 1], newIface); }
  }

  /** Under every oracle the calls amount to the loop. */
  lemma {:induction false} RunIsMoveStages(w: World, dir: string, names: seq<string>, newIface: string,
                                           oracle: nat -> Outcome)
    ensures RunPlan(w, MovePlan(dir, names, newIface), oracle).files
         == MoveStages(w.files, dir, names, Stages(|names|, oracle, |w.log|), newIface)
    decreases |names|
  {
    hide MoveEffect, MoveStages;
    if names == [] {
      assert MoveStages(w.files, dir, [], [], newIface) == w.files by { NoStages(w.files, dir, [], [], newIface); }
    } else {
      var plan, stages := MovePlan(dir, names, newIface), Stages(|names|, oracle, |w.log|);
      var o := oracle(|w.log|);
      if o.Missing? {
        NoStages(w.files, dir, names, stages, newIface);
      } else {
        assert plan[1..] == MovePlan(dir, names[1..], newIface);
        MoveFirst(w.files, dir, names, stages, newIface);
        RunIsMoveStages(After(w, plan[0], o), dir, names[1..], newIface, oracle);
      }
    }
  }

  function Whole(n: nat): (stages: seq<nat>) { seq(n, i => 3) }

  lemma {:induction false} DoneIsWhole(n: nat, oracle: nat -> Outcome, k: nat)
    requires AllDone(oracle, k, n)
    ensures Stages(n, oracle, k) == Whole(n)
  {
    if n > 0 {
      DoneIsWhole(n - 1, oracle, k + 1);
      assert Whole(n) == [3] + Whole(n - 1);
    }
  }

  /** The loop when every call ends with exit code zero. */
  function MoveAll(files: Files, dir: string, names: seq<string>, newIface: string): Files {
    MoveStages(files, dir, names, Whole(|names|), newIface)
  }

  lemma RunIsMoveAll(w: World, dir: string, names: seq<string>, newIface: string, oracle: nat -> Outcome)
    requires AllDone(oracle, |w.log|, |names|)
    ensures RunPlan(w, MovePlan(dir, names, newIface), oracle).files == MoveAll(w.files, dir, names, newIface)
  {
    hide RunPlan, MovePlan, MoveStages, Stages, Whole;
    RunIsMoveStages(w, dir, names, newIface, oracle);
    DoneIsWhole(|names|, oracle, |w.log|);
  }

  // ---------------------------------------------------------------------
  // What the loop computes
  // ---------------------------------------------------------------------

  /** The text of a script after `stage` of the three commands. */
  function Partly(text: string, iface: string, newIface: string, stage: nat): string {
    var device := ReplaceAll(text, "DEVICE=" + iface, "DEVICE=" + newIface);
    if stage <= 1 then text
    else if stage == 2 then device
    else ReplaceAll(device, "NAME=" + iface, "NAME=" + newIface)
  }

  function Rewritten(text: string, iface: string, newIface: string): string { Partly(text, iface, newIface, 3) }

  /** Another name than the new one, with a script. */
  predicate HasScript(files: Files, dir: string, iface: string, newIface: string) {
    iface != newIface && IfcfgName(dir, iface) in files
  }

  /** The listed scripts, of the names with an index in `chosen`. */
  function Scripts(files: Files, dir: string, names: seq<string>, newIface: string, chosen: set<nat>): set<string> {
    set i | 0 <= i < |names| && i in chosen && HasScript(files, dir, names[i], newIface) :: IfcfgName(dir, names[i])
  }

  /** The last of these names, or -1. */
  function LastScript(files: Files, dir: string, names: seq<string>, newIface: string, chosen: set<nat>): (k: int)
    ensures -1 <= k < |names|
    ensures k >= 0 ==> k in chosen && HasScript(files, dir, names[k], newIface)
    ensures forall i | k < i < |names| && i in chosen :: !HasScript(files, dir, names[i], newIface)
    decreases |names|
  {
    if names == [] then -1
    else if |names| - 1 in chosen && HasScript(files, dir, names[|names| - 1], newIface) then |names| - 1
    else LastScript(files, dir, names[..|names| - 1], newIface, chosen)
  }

  /** The names whose script got somewhere, those whose script did not, and all. */
  function Busy(stages: seq<nat>): set<nat> { set i: nat | i < |stages| && stages[i] > 0 }

  function Idle(stages: seq<nat>): set<nat> { set i: nat | i < |stages| && stages[i] == 0 }

  function All(n: nat): set<nat> { Busy(Whole(n)) }

  /** Declarative result: the scripts that got somewhere are gone, and the target is
      the text of the last of them, as far as it was rewritten. */
  function PartlyRenamed(files: Files, dir: string, names: seq<string>, stages: seq<nat>, newIface: string): Files
    requires |stages| == |names|
  {
    var k := LastScript(files, dir, names, newIface, Busy(stages));
    if k < 0 then files
    else (files - Scripts(files, dir, names, newIface, Busy(stages)))
         [IfcfgName(dir, newIface) := Partly(files[IfcfgName(dir, names[k])], names[k], newIface, stages[k])]
  }

  /** All listed scripts are gone, and the target is the rewritten text of the last. */
  function Renamed(files: Files, dir: string, names: seq<string>, newIface: string): Files {
    PartlyRenamed(files, dir, names, Whole(|names|), newIface)
  }

  lemma IfcfgNameInjective(dir: string, m: string, n: string)
    ensures IfcfgName(dir, m) == IfcfgName(dir, n) <==> m == n
  {
    var pre := dir + "/ifcfg-";
    assert (pre + m)[|pre|..] == m && (pre + n)[|pre|..] == n;
  }

  lemma MoveOne(files: Files, dir: string, n: string, newIface: string, stage: nat)
    ensures var src, dst := IfcfgName(dir, n), IfcfgName(dir, newIface);
      MoveEffect(files, dir, n, newIface, stage) ==
        if src in files && stage > 0 then (files - {src})[dst := Partly(files[src], n, newIface, stage)] else files
  {
    hide ReplaceAll, IfcfgName;
  }

  /** Moving a script onto itself changes nothing, wherever it stops. */
  lemma SelfMove(files: Files, dir: string, n: string, stage: nat)
    ensures MoveEffect(files, dir, n, n, stage) == files
  {
    hide ReplaceAll, IfcfgName;
    var src := IfcfgName(dir, n);
    if src in files {
      SelfReplace(files[src], "DEVICE=" + n);
      SelfReplace(files[src], "NAME=" + n);
      assert (files - {src})[src := files[src]] == files;
    }
  }

  /** One more name at the end of the list. */
  lemma OneMore(files: Files, dir: string, names: seq<string>, newIface: string, a: set<nat>, b: set<nat>)
    requires names != [] && forall i: nat | i < |names| - 1 :: i in a <==> i in b
    ensures var n := |names| - 1;
      var more := n in b && HasScript(files, dir, names[n], newIface);
      && LastScript(files, dir, names, newIface, b)
         == (if more then n else LastScript(files, dir, names[..n], newIface, a))
      && Scripts(files, dir, names, newIface, b)
         == Scripts(files, dir, names[..n], newIface, a) + (if more then {IfcfgName(dir, names[n])} else {})
  {
    hide HasScript, IfcfgName;
    var n := |names| - 1;
    SameLast(files, files, dir, names[..n], newIface, a, b);
    forall x | x in Scripts(files, dir, names, newIface, b)
      ensures x in Scripts(files, dir, names[..n], newIface, b) || x == IfcfgName(dir, names[n])
    {
      var i :| 0 <= i < |names| && i in b && HasScript(files, dir, names[i], newIface) && x == IfcfgName(dir, names[i]);
      if i < n { assert names[..n][i] == names[i]; }
    }
    forall x | x in Scripts(files, dir, names[..n], newIface, b) ensures x in Scripts(files, dir, names, newIface, b) {
      var i :| 0 <= i < n && i in b && HasScript(files, dir, names[..n][i], newIface)
               && x == IfcfgName(dir, names[..n][i]);
      assert names[..n][i] == names[i];
    }
  }

  /** Which scripts there are is all that counts. */
  lemma SameLast(files: Files, files': Files, dir: string, names: seq<string>, newIface: string,
                 a: set<nat>, b: set<nat>)
    requires forall i: nat | i < |names| ::
      i in a && HasScript(files, dir, names[i], newIface) <==> i in b && HasScript(files', dir, names[i], newIface)
    ensures LastScript(files, dir, names, newIface, a) == LastScript(files', dir, names, newIface, b)
    ensures Scripts(files, dir, names, newIface, a) == Scripts(files', dir, names, newIface, b)
  {
    hide HasScript, IfcfgName;
  }

  lemma ScriptNames(files: Files, dir: string, names: seq<string>, newIface: string, chosen: set<nat>, m: string)
    ensures IfcfgName(dir, m) in Scripts(files, dir, names, newIface, chosen) <==>
      exists i: nat | i < |names| :: i in chosen && HasScript(files, dir, names[i], newIface) && names[i] == m
  {
    hide HasScript, IfcfgName;
    forall i | 0 <= i < |names| ensures IfcfgName(dir, names[i]) == IfcfgName(dir, m) <==> names[i] == m {
      IfcfgNameInjective(dir, names[i], m);
    }
  }

  /** The target is none of the scripts, and one of them is there when one is last. */
  lemma TargetIsNoScript(files: Files, dir: string, names: seq<string>, newIface: string, chosen: set<nat>)
    ensures IfcfgName(dir, newIface) !in Scripts(files, dir, names, newIface, chosen)
    ensures LastScript(files, dir, names, newIface, chosen) < 0 <==> Scripts(files, dir, names, newIface, chosen) == {}
  {
    ScriptNames(files, dir, names, newIface, chosen, newIface);
    var k := LastScript(files, dir, names, newIface, chosen);
    hide IfcfgName;
    if k >= 0 { assert IfcfgName(dir, names[k]) in Scripts(files, dir, names, newIface, chosen); }
  }

  /** However far each script got, the loop leaves what `PartlyRenamed` says: every
      other file keeps its place and its text. A new name that is itself in the list
      makes no difference. */
  lemma {:induction false} MovesAreRenamed(files: Files, dir: string, names: seq<string>, stages: seq<nat>,
                                           newIface: string)
    requires Distinct(names) && |stages| == |names|
    ensures MoveStages(files, dir, names, stages, newIface) == PartlyRenamed(files, dir, names, stages, newIface)
    decreases |names|
  {
    hide MoveEffect, PartlyRenamed;
    if names == [] {
      assert PartlyRenamed(files, dir, names, stages, newIface) == files by { NoneMoved(files, dir, newIface); }
    } else {
      var n := |names| - 1;
      MovesAreRenamed(files, dir, names[..n], stages[..n], newIface);
      MoveLast(files, dir, names, stages, newIface);
    }
  }

  lemma NoneMoved(files: Files, dir: string, newIface: string)
    ensures PartlyRenamed(files, dir, [], [], newIface) == files
  {
  }

  lemma MoveLast(files: Files, dir: string, names: seq<string>, stages: seq<nat>, newIface: string)
    requires Distinct(names) && |stages| == |names| > 0
    ensures var n := |names| - 1;
      MoveEffect(PartlyRenamed(files, dir, names[..n], stages[..n], newIface), dir, names[n], newIface, stages[n])
      == PartlyRenamed(files, dir, names, stages, newIface)
  {
    hide MoveEffect, IfcfgName, LastScript, Scripts, Partly;
    var n := |names| - 1;
    var m, stage, before := names[n], stages[n], PartlyRenamed(files, dir, names[..n], stages[..n], newIface);
    OneMore(files, dir, names, newIface, Busy(stages[..n]), Busy(stages));
    if m == newIface {
      SelfMove(before, dir, m, stage);
    } else {
      var src, dst := IfcfgName(dir, m), IfcfgName(dir, newIface);
      UntouchedBefore(files, dir, names[..n], stages[..n], newIface, m);
      MoveOne(before, dir, m, newIface, stage);
      if src in files && stage > 0 {
        RemoveAgain(files, before, Scripts(files, dir, names[..n], newIface, Busy(stages[..n])), {src}, dst,
                    Partly(files[src], m, newIface, stage));
      }
    }
  }

  /** The script of a name that is not listed. */
  lemma UntouchedBefore(files: Files, dir: string, names: seq<string>, stages: seq<nat>, newIface: string, m: string)
    requires |stages| == |names| && m !in names && m != newIface
    ensures var before := PartlyRenamed(files, dir, names, stages, newIface);
      var s := Scripts(files, dir, names, newIface, Busy(stages));
      var src, dst := IfcfgName(dir, m), IfcfgName(dir, newIface);
      && dst !in s && src != dst
      && (src in before <==> src in files) && (src in files ==> before[src] == files[src])
      && ((s == {} && before == files) || (dst in before && before == (files - s)[dst := before[dst]]))
  {
    IfcfgNameInjective(dir, m, newIface);
    ScriptNames(files, dir, names, newIface, Busy(stages), m);
    TargetIsNoScript(files, dir, names, newIface, Busy(stages));
    hide IfcfgName, LastScript, Scripts, Partly, Busy;
  }

  lemma RemoveAgain(files: Files, before: Files, s: set<string>, more: set<string>, dst: string, text: string)
    requires dst !in s && dst !in more
    requires (s == {} && before == files) || (dst in before && before == (files - s)[dst := before[dst]])
    ensures (before - more)[dst := text] == (files - (s + more))[dst := text]
  {
  }

  /** A script is left under its old name exactly when it was there and its call did
      nothing, and then it keeps its text. */
  lemma ScriptLeftIff(files: Files, dir: string, names: seq<string>, stages: seq<nat>, newIface: string, i: nat)
    requires Distinct(names) && |stages| == |names| && i < |names| && names[i] != newIface
    ensures var after, src := PartlyRenamed(files, dir, names, stages, newIface), IfcfgName(dir, names[i]);
      && (src in after <==> src in files && stages[i] == 0)
      && (src in after ==> after[src] == files[src])
  {
    IfcfgNameInjective(dir, names[i], newIface);
    ScriptNames(files, dir, names, newIface, Busy(stages), names[i]);
    TargetIsNoScript(files, dir, names, newIface, Busy(stages));
    hide IfcfgName, Scripts, LastScript, Partly;
  }

  // ---------------------------------------------------------------------
  // The whole fixup
  // ---------------------------------------------------------------------

  /** Every list the program uses names each interface once. */
  lemma ListsAreDistinct(oldIface: string)
    ensures Distinct(IfacesToReplace(oldIface))
  {
    PlainNames();
  }

  /** The whole network fixup of a guest with ifcfg scripts, when no call fails: it
      reports success, and all it does to the files is to remove the stale ones and
      to rename the scripts, none of which is stale. */
  lemma GuestMoved(files: Files, log: seq<Command>, oldIface: string, newIface: string, oracle: nat -> Outcome)
    requires DoneFrom(oracle, |log|)
    requires ProbeAnswer(CONFIG_CHECKS, oracle, |log| + 1) == "ifcfg"
    ensures var w := NetworkRun(files, log, oldIface, newIface, oracle);
      && w.success
      && w.files == Renamed(Purged(files), IFCFG_DIR, IfacesToReplace(oldIface), newIface)
    ensures forall n :: !Stale(IfcfgName(IFCFG_DIR, n))
  {
    hide *;
    var names := IfacesToReplace(oldIface);
    UndisturbedSucceeds(files, log, oldIface, newIface, oracle);
    ListsAreDistinct(oldIface);
    var w2 := MovesRun(files, log, oldIface, newIface, oracle);
    AllDoneFrom(oracle, |log|, |w2.log|, |names|);
    RunIsMoveAll(w2, IFCFG_DIR, names, newIface, oracle);
    AllMoved(w2.files, IFCFG_DIR, names, newIface);
    ScriptsAreNotStale();
    PurgedRenamed(files, UDEV_NET_RULES, names, newIface);
  }

  /** Without failures. */
  lemma AllMoved(files: Files, dir: string, names: seq<string>, newIface: string)
    requires Distinct(names)
    ensures MoveAll(files, dir, names, newIface) == Renamed(files, dir, names, newIface)
  {
    hide MoveStages, PartlyRenamed;
    MovesAreRenamed(files, dir, names, Whole(|names|), newIface);
  }

  lemma MovesRun(files: Files, log: seq<Command>, oldIface: string, newIface: string, oracle: nat -> Outcome)
    returns (w2: World)
    requires DoneFrom(oracle, |log|)
    requires ProbeAnswer(CONFIG_CHECKS, oracle, |log| + 1) == "ifcfg"
    ensures |w2.log| >= |log| && w2.files == files - {UDEV_NET_RULES} && Stale(UDEV_NET_RULES)
    ensures NetworkRun(files, log, oldIface, newIface, oracle).files
         == Purged(RunPlan(w2, MovePlan(IFCFG_DIR, IfacesToReplace(oldIface), newIface), oracle).files)
  {
    w2 := UntilFix(files, log, oldIface, newIface, oracle);
    hide NetworkRun, RunPlan, MovePlan, ProbeAnswer, IfacesToReplace, FixStage, Purged, DoneFrom;
    MovesStage(w2, oldIface, newIface, oracle);
    PlanCalls(w2, MovePlan(IFCFG_DIR, IfacesToReplace(oldIface), newIface), oracle);
    var w3 := FixStage(w2, "ifcfg", oldIface, newIface, oracle);
    AllDoneFrom(oracle, |log|, |w3.log|, |STATE_PATHS|);
    CleanupPurges(w3, oracle);
  }

  lemma MovesStage(w: World, oldIface: string, newIface: string, oracle: nat -> Outcome)
    ensures FixStage(w, "ifcfg", oldIface, newIface, oracle)
         == RunPlan(w, MovePlan(IFCFG_DIR, IfacesToReplace(oldIface), newIface), oracle)
  {
    hide RunPlan, MovePlan;
  }

  lemma ScriptsAreNotStale()
    ensures forall n :: !Stale(IfcfgName(IFCFG_DIR, n))
  {
    hide Stale;
    forall n ensures !Stale(IfcfgName(IFCFG_DIR, n)) {
      var f := IfcfgName(IFCFG_DIR, n);
      assert f == (IFCFG_DIR + "/") + ("ifcfg-" + n);
      ConfigIsNotStale(IFCFG_DIR, f);
    }
  }

  /** It makes no difference when the stale files are removed. */
  lemma PurgedRenamed(files: Files, g: string, names: seq<string>, newIface: string)
    requires Stale(g) && forall n :: !Stale(IfcfgName(IFCFG_DIR, n))
    ensures Purged(Renamed(files - {g}, IFCFG_DIR, names, newIface))
         == Renamed(Purged(files), IFCFG_DIR, names, newIface)
  {
    hide Stale, IfcfgName, Partly;
    var chosen := All(|names|);
    assert forall n :: IfcfgName(IFCFG_DIR, n) in files - {g} <==> IfcfgName(IFCFG_DIR, n) in Purged(files);
    SameLast(files - {g}, Purged(files), IFCFG_DIR, names, newIface, chosen, chosen);
    hide LastScript;
  }

  // ---------------------------------------------------------------------
  // Counting
  // ---------------------------------------------------------------------

  /** How many files there are afterwards: every listed script but one, and an
      earlier target, are lost. */
  lemma {:induction false} FileCount(files: Files, dir: string, names: seq<string>, newIface: string)
    requires Distinct(names)
    ensures var dst, listed := IfcfgName(dir, newIface), Scripts(files, dir, names, newIface, All(|names|));
      |MoveAll(files, dir, names, newIface)| ==
        if listed == {} then |files| else |files| - |listed + if dst in files then {dst} else {}| + 1
  {
    AllMoved(files, dir, names, newIface);
    TargetIsNoScript(files, dir, names, newIface, All(|names|));
    hide MoveAll, IfcfgName, LastScript, Partly, Whole, Distinct;
    var dst, p, k := IfcfgName(dir, newIface), Scripts(files, dir, names, newIface, All(|names|)),
                     LastScript(files, dir, names, newIface, All(|names|));
    if k >= 0 {
      assert p <= files.Keys;
      CountAfter(files, p, dst, Partly(files[IfcfgName(dir, names[k])], names[k], newIface, Whole(|names|)[k]));
    }
  }

  lemma CountAfter<K, V>(m: map<K, V>, p: set<K>, k: K, v: V)
    requires p <= m.Keys
    ensures |(m - p)[k := v]| == |m| - |p + if k in m then {k} else {}| + 1
  {
    KeysAfter(m, p, k, v);
    SetSizes(m.Keys, p, k);
    assert |(m - p)[k := v]| == |(m - p)[k := v].Keys|;
  }

  lemma KeysAfter<K, V>(m: map<K, V>, p: set<K>, k: K, v: V)
    ensures (m - p)[k := v].Keys == (m.Keys - p) + {k}
  {
  }

  lemma SetSizes<K>(a: set<K>, p: set<K>, k: K)
    requires p <= a
    ensures |(a - p) + {k}| == |a| - |p + if k in a then {k} else {}| + 1
  {
    var gone := p + if k in a then {k} else {};
    assert (a - p) + {k} == (a - gone) + {k};
    assert a == (a - gone) + gone;
  }

  /** No script is lost exactly when none of the listed names but the target has
      one, or one has and the target has none. */
  lemma {:induction false} NothingLostIff(files: Files, dir: string, names: seq<string>, newIface: string)
    requires Distinct(names)
    ensures var listed := Scripts(files, dir, names, newIface, All(|names|));
      |MoveAll(files, dir, names, newIface)| == |files| <==>
      (|listed| == 0 || (|listed| == 1 && IfcfgName(dir, newIface) !in files))
  {
    var dst, p := IfcfgName(dir, newIface), Scripts(files, dir, names, newIface, All(|names|));
    FileCount(files, dir, names, newIface);
    TargetIsNoScript(files, dir, names, newIface, All(|names|));
    hide MoveAll, IfcfgName, Scripts, LastScript;
    assert |p + {dst}| == |p| + 1;
    if |p| == 0 { assert p == {}; }
  }

  /** Two scripts of one guest: the fixup loses the first. */
  lemma ScriptLost()
    ensures var d := IFCFG_DIR;
      var files: Files := map[IfcfgName(d, "ens160") := "IPADDR=10.0.0.1\n",
                              IfcfgName(d, "ens192") := "IPADDR=10.0.0.2\n"];
      && |files| == 2
      && |MoveAll(files, d, VMWARE_IFACE_NAMES, KVM_DEFAULT_IFACE)| == 1
  {
    var d, names := IFCFG_DIR, VMWARE_IFACE_NAMES;
    TwoNames();
    hide *;
    var x, y := IfcfgName(d, "ens160"), IfcfgName(d, "ens192");
    var files: Files := map[x := "IPADDR=10.0.0.1\n", y := "IPADDR=10.0.0.2\n"];
    IfcfgNameInjective(d, "ens160", "ens192");
    IfcfgNameInjective(d, "ens160", KVM_DEFAULT_IFACE);
    IfcfgNameInjective(d, "ens192", KVM_DEFAULT_IFACE);
    TwoScripts(files, d, names, KVM_DEFAULT_IFACE, 0, 1);
    FileCount(files, d, names, KVM_DEFAULT_IFACE);
    assert files.Keys == {x, y};
  }

  lemma TwoNames()
    ensures Distinct(VMWARE_IFACE_NAMES) && |VMWARE_IFACE_NAMES| == 6
    ensures VMWARE_IFACE_NAMES[0] == "ens160" && VMWARE_IFACE_NAMES[1] == "ens192"
    ensures KVM_DEFAULT_IFACE != "ens160" && KVM_DEFAULT_IFACE != "ens192" && "ens160" != "ens192"
  {
    PlainNames();
    hide Distinct, Uniform, HeadOnly;
    assert |KVM_DEFAULT_IFACE| == 5 && "ens160"[4] != "ens192"[4];
  }

  lemma TwoScripts(files: Files, dir: string, names: seq<string>, newIface: string, i: nat, j: nat)
    requires i < |names| && j < |names| && names[i] != newIface && names[j] != newIface
    requires files.Keys == {IfcfgName(dir, names[i]), IfcfgName(dir, names[j])}
    ensures Scripts(files, dir, names, newIface, All(|names|)) == files.Keys
  {
    hide IfcfgName;
    assert HasScript(files, dir, names[i], newIface) && HasScript(files, dir, names[j], newIface);
    assert i in All(|names|) && j in All(|names|);
  }

  // ---------------------------------------------------------------------
  // Second runs
  // ---------------------------------------------------------------------

  lemma {:induction false} NothingToMove(files: Files, dir: string, names: seq<string>, stages: seq<nat>,
                                         newIface: string)
    requires |stages| == |names| && forall i | 0 <= i < |names| :: !HasScript(files, dir, names[i], newIface)
    ensures MoveStages(files, dir, names, stages, newIface) == files
    decreases |names|
  {
    hide MoveEffect, IfcfgName, Partly;
    if names != [] {
      var n := |names| - 1;
      NothingToMove(files, dir, names[..n], stages[..n], newIface);
      if names[n] == newIface { SelfMove(files, dir, newIface, stages[n]); }
      MoveOne(files, dir, names[n], newIface, stages[n]);
    }
  }

  lemma {:induction false} NoneLeftListed(files: Files, dir: string, names: seq<string>, newIface: string)
    ensures forall i | 0 <= i < |names| :: !HasScript(MoveAll(files, dir, names, newIface), dir, names[i], newIface)
    decreases |names|
  {
    hide MoveEffect, IfcfgName, Partly;
    if names != [] {
      var n := |names| - 1;
      var before := MoveAll(files, dir, names[..n], newIface);
      assert Whole(|names|)[..n] == Whole(|names[..n]|);
      NoneLeftListed(files, dir, names[..n], newIface);
      MoveOne(before, dir, names[n], newIface, 3);
      forall i | 0 <= i < |names| ensures !HasScript(MoveAll(files, dir, names, newIface), dir, names[i], newIface) {
        IfcfgNameInjective(dir, names[i], newIface);
        if i < n { assert names[..n][i] == names[i]; }
      }
    }
  }

  /** A second run finds nothing to do. */
  lemma MoveAllTwice(files: Files, dir: string, names: seq<string>, newIface: string)
    ensures MoveAll(MoveAll(files, dir, names, newIface), dir, names, newIface) == MoveAll(files, dir, names, newIface)
  {
    NoneLeftListed(files, dir, names, newIface);
    NothingToMove(MoveAll(files, dir, names, newIface), dir, names, Whole(|names|), newIface);
  }

  lemma {:induction false} OthersKept(files: Files, dir: string, names: seq<string>, stages: seq<nat>,
                                      newIface: string, f: string)
    requires |stages| == |names|
    requires f != IfcfgName(dir, newIface) && forall i | 0 <= i < |names| :: f != IfcfgName(dir, names[i])
    ensures var after := MoveStages(files, dir, names, stages, newIface);
      (f in after <==> f in files) && (f in files ==> after[f] == files[f])
    decreases |names|
  {
    hide MoveEffect, IfcfgName, Partly;
    if names != [] {
      var n := |names| - 1;
      OthersKept(files, dir, names[..n], stages[..n], newIface, f);
      MoveOne(MoveStages(files, dir, names[..n], stages[..n], newIface), dir, names[n], newIface, stages[n]);
    }
  }

  /** Under every oracle, files outside the listed names and the target keep
      their place and their text. */
  lemma OthersUntouched(w: World, dir: string, names: seq<string>, newIface: string, oracle: nat -> Outcome, f: string)
    requires f != IfcfgName(dir, newIface) && forall i | 0 <= i < |names| :: f != IfcfgName(dir, names[i])
    ensures var w' := RunPlan(w, MovePlan(dir, names, newIface), oracle);
      (f in w'.files <==> f in w.files) && (f in w.files ==> w'.files[f] == w.files[f])
  {
    hide *;
    RunIsMoveStages(w, dir, names, newIface, oracle);
    OthersKept(w.files, dir, names, Stages(|names|, oracle, |w.log|), newIface, f);
  }

  /** A rename script that stopped after the move has nothing left to rewrite. */
  predicate NothingToRewrite(text: string, n: string, newIface: string, stage: nat) {
    if stage == 1 then !Occurs("DEVICE=" + n, text) && !Occurs("NAME=" + n, text)
    else !Occurs("NAME=" + n, ReplaceAll(text, "DEVICE=" + n, "DEVICE=" + newIface))
  }

  lemma PartlyIff(text: string, n: string, newIface: string, stage: nat)
    requires n != newIface && stage > 0
    ensures Partly(text, n, newIface, stage) == Rewritten(text, n, newIface)
      <==> stage >= 3 || NothingToRewrite(text, n, newIface, stage)
  {
    hide ReplaceAll, Occurs;
    var device := ReplaceAll(text, "DEVICE=" + n, "DEVICE=" + newIface);
    ReplacedTwiceIff(text, "DEVICE=", "NAME=", n, newIface);
    BehindEqual("NAME=", n, newIface);
    ReplacedIff(device, "NAME=" + n, "NAME=" + newIface);
  }

  /** What the scripts must be like for a second run to complete a first one. Let `k`
      be the last listed script and `r` the last one whose call did nothing. The
      second run moves `r` over the target, which must be the text an undisturbed
      run gives; and when it finds no script any more, that of `k` must have been
      complete. */
  predicate Resumable(files: Files, dir: string, names: seq<string>, stages: seq<nat>, newIface: string)
    requires |stages| == |names|
  {
    var k := LastScript(files, dir, names, newIface, All(|names|));
    var r := LastScript(files, dir, names, newIface, Idle(stages));
    k >= 0 ==>
      var last := files[IfcfgName(dir, names[k])];
      if r >= 0 then
        Rewritten(files[IfcfgName(dir, names[r])], names[r], newIface) == Rewritten(last, names[k], newIface)
      else stages[k] >= 3 || NothingToRewrite(last, names[k], newIface, stages[k])
  }

  /** What a first run leaves for a second one. */
  lemma LeftToMove(files: Files, dir: string, names: seq<string>, stages: seq<nat>, newIface: string)
    requires Distinct(names) && |stages| == |names|
    ensures var after := PartlyRenamed(files, dir, names, stages, newIface);
      && LastScript(after, dir, names, newIface, All(|names|)) == LastScript(files, dir, names, newIface, Idle(stages))
      && Scripts(after, dir, names, newIface, All(|names|)) == Scripts(files, dir, names, newIface, Idle(stages))
  {
    hide Distinct, PartlyRenamed, LastScript, Scripts, IfcfgName;
    var after := PartlyRenamed(files, dir, names, stages, newIface);
    forall i: nat | i < |names|
      ensures HasScript(after, dir, names[i], newIface)
        <==> i in Idle(stages) && HasScript(files, dir, names[i], newIface)
    {
      if names[i] != newIface { ScriptLeftIff(files, dir, names, stages, newIface, i); }
    }
    SameLast(after, files, dir, names, newIface, All(|names|), Idle(stages));
  }

  lemma AllScripts(files: Files, dir: string, names: seq<string>, stages: seq<nat>, newIface: string)
    requires |stages| == |names|
    ensures Scripts(files, dir, names, newIface, All(|names|))
         == Scripts(files, dir, names, newIface, Busy(stages)) + Scripts(files, dir, names, newIface, Idle(stages))
  {
    hide HasScript, IfcfgName;
  }

  /** Every script is one that got somewhere when none is idle. */
  lemma NoneIdle(files: Files, dir: string, names: seq<string>, stages: seq<nat>, newIface: string)
    requires |stages| == |names| && LastScript(files, dir, names, newIface, Idle(stages)) < 0
    ensures LastScript(files, dir, names, newIface, Busy(stages))
         == LastScript(files, dir, names, newIface, All(|names|))
    ensures Scripts(files, dir, names, newIface, Busy(stages)) == Scripts(files, dir, names, newIface, All(|names|))
  {
    hide HasScript, Scripts, IfcfgName;
    SameLast(files, files, dir, names, newIface, Busy(stages), All(|names|));
  }

  lemma SecondMove(files: Files, dir: string, names: seq<string>, stages: seq<nat>, newIface: string)
    requires Distinct(names) && |stages| == |names|
    ensures var after := PartlyRenamed(files, dir, names, stages, newIface);
      Renamed(after, dir, names, newIface) == Renamed(files, dir, names, newIface)
      <==> Resumable(files, dir, names, stages, newIface)
  {
    LeftToMove(files, dir, names, stages, newIface);
    if LastScript(files, dir, names, newIface, Idle(stages)) >= 0 {
      MovedAgain(files, dir, names, stages, newIface);
    } else {
      NoneIdle(files, dir, names, stages, newIface);
      NothingMovedAgain(files, dir, names, stages, newIface);
    }
  }

  /** The second run finds a script. */
  lemma MovedAgain(files: Files, dir: string, names: seq<string>, stages: seq<nat>, newIface: string)
    requires Distinct(names) && |stages| == |names|
    requires LastScript(files, dir, names, newIface, Idle(stages)) >= 0
    ensures var after := PartlyRenamed(files, dir, names, stages, newIface);
      Renamed(after, dir, names, newIface) == Renamed(files, dir, names, newIface)
      <==> Resumable(files, dir, names, stages, newIface)
  {
    var after, dst := PartlyRenamed(files, dir, names, stages, newIface), IfcfgName(dir, newIface);
    var r := LastScript(files, dir, names, newIface, Idle(stages));
    var k := LastScript(files, dir, names, newIface, All(|names|));
    var busy := Scripts(files, dir, names, newIface, Busy(stages));
    var idle := Scripts(files, dir, names, newIface, Idle(stages));
    LeftToMove(files, dir, names, stages, newIface);
    ScriptLeftIff(files, dir, names, stages, newIface, r);
    TargetIsNoScript(files, dir, names, newIface, Busy(stages));
    TargetIsNoScript(files, dir, names, newIface, Idle(stages));
    AllScripts(files, dir, names, stages, newIface);
    assert k >= 0 by { assert r in All(|names|); }
    hide Distinct, IfcfgName, Scripts, LastScript, Partly, Idle, Busy, NothingToRewrite;
    var first := Rewritten(files[IfcfgName(dir, names[r])], names[r], newIface);
    RemoveAgain(files, after, busy, idle, dst, first);
    SameTarget(files - (busy + idle), dst, first, Rewritten(files[IfcfgName(dir, names[k])], names[k], newIface));
  }

  /** The second run finds none. */
  lemma NothingMovedAgain(files: Files, dir: string, names: seq<string>, stages: seq<nat>, newIface: string)
    requires Distinct(names) && |stages| == |names|
    requires LastScript(files, dir, names, newIface, Idle(stages)) < 0
    ensures var after := PartlyRenamed(files, dir, names, stages, newIface);
      Renamed(after, dir, names, newIface) == Renamed(files, dir, names, newIface)
      <==> Resumable(files, dir, names, stages, newIface)
  {
    LeftToMove(files, dir, names, stages, newIface);
    NoneIdle(files, dir, names, stages, newIface);
    var k, dst := LastScript(files, dir, names, newIface, All(|names|)), IfcfgName(dir, newIface);
    hide Distinct, IfcfgName, Scripts, LastScript, Partly, NothingToRewrite;
    if k >= 0 {
      var text := files[IfcfgName(dir, names[k])];
      PartlyIff(text, names[k], newIface, stages[k]);
      SameTarget(files - Scripts(files, dir, names, newIface, All(|names|)), dst,
                 Partly(text, names[k], newIface, stages[k]), Rewritten(text, names[k], newIface));
    }
  }

  lemma SameTarget(files: Files, dst: string, a: string, b: string)
    ensures files[dst := a] == files[dst := b] <==> a == b
  {
    assert files[dst := a][dst] == a && files[dst := b][dst] == b;
  }

  /** A second run without failures gives what one undisturbed run would have given,
      after ANY first run, exactly for scripts that are resumable. */
  lemma ResumeIff(w: World, dir: string, names: seq<string>, newIface: string, oracle: nat -> Outcome)
    requires Distinct(names)
    requires AllDone(oracle, |RunPlan(w, MovePlan(dir, names, newIface), oracle).log|, |names|)
    ensures var plan := MovePlan(dir, names, newIface);
      RunPlan(RunPlan(w, plan, oracle), plan, oracle).files == MoveAll(w.files, dir, names, newIface)
      <==> Resumable(w.files, dir, names, Stages(|names|, oracle, |w.log|), newIface)
  {
    hide *;
    var stages, w1 := Stages(|names|, oracle, |w.log|), RunPlan(w, MovePlan(dir, names, newIface), oracle);
    RunIsMoveStages(w, dir, names, newIface, oracle);
    RunIsMoveAll(w1, dir, names, newIface, oracle);
    MovesAreRenamed(w.files, dir, names, stages, newIface);
    AllMoved(w.files, dir, names, newIface);
    AllMoved(w1.files, dir, names, newIface);
    SecondMove(w.files, dir, names, stages, newIface);
  }

  // ---------------------------------------------------------------------
  // Scripts that a second run does not put right
  // ---------------------------------------------------------------------

  /** The first call stops early and all others are complete. */
  function FirstStops(stage: nat): nat -> Outcome {
    k => if k == 0 then NonZero({}, stage, map[]) else Done("", map[])
  }

  lemma FirstStopsRun(files: Files, dir: string, names: seq<string>, newIface: string, stage: nat)
    requires names != []
    ensures var w, oracle := World(files, [], true, [], []), FirstStops(stage);
      && AllDone(oracle, |RunPlan(w, MovePlan(dir, names, newIface), oracle).log|, |names|)
      && Stages(|names|, oracle, 0) == [stage] + Whole(|names| - 1)
  {
    hide RunPlan, MovePlan;
    PlanCalls(World(files, [], true, [], []), MovePlan(dir, names, newIface), FirstStops(stage));
    DoneIsWhole(|names| - 1, FirstStops(stage), 1);
  }

  lemma {:induction false} LetterMissing(s: string, p: string, r: string, c: char)
    requires c in p && c !in s
    ensures ReplaceAll(s, p, r) == s
    decreases |s|
  {
    if s != "" { LetterMissing(s[1..], p, r, c); }
  }

  lemma LastOf(files: Files, dir: string, names: seq<string>, newIface: string, chosen: set<nat>, k: nat)
    requires k < |names| && k in chosen && HasScript(files, dir, names[k], newIface)
    requires forall i: nat | k < i < |names| && i in chosen :: !HasScript(files, dir, names[i], newIface)
    ensures LastScript(files, dir, names, newIface, chosen) == k
  {
    hide HasScript;
  }

  lemma FirstIdle(n: nat)
    ensures Idle([0] + Whole(n)) == {0} && Idle([1] + Whole(n)) == {}
  {
  }

  /** Two scripts, for the first two names. */
  lemma FirstTwo(files: Files, dir: string, names: seq<string>, newIface: string)
    requires Distinct(names) && |names| >= 2 && names[0] != newIface && names[1] != newIface
    requires files.Keys == {IfcfgName(dir, names[0]), IfcfgName(dir, names[1])}
    ensures LastScript(files, dir, names, newIface, All(|names|)) == 1
    ensures LastScript(files, dir, names, newIface, {0}) == 0
  {
    hide IfcfgName, LastScript;
    forall i | 1 < i < |names| ensures !HasScript(files, dir, names[i], newIface) {
      IfcfgNameInjective(dir, names[i], names[0]);
      IfcfgNameInjective(dir, names[i], names[1]);
    }
    LastOf(files, dir, names, newIface, All(|names|), 1);
    LastOf(files, dir, names, newIface, {0}, 0);
  }

  /** When the first of two scripts could not be moved at first, the second run
      moves it over the target, where an undisturbed run leaves the other one. */
  lemma EarlierWins(files: Files, dir: string, names: seq<string>, newIface: string)
    requires Distinct(names) && |names| >= 2 && names[0] != newIface && names[1] != newIface
    requires files.Keys == {IfcfgName(dir, names[0]), IfcfgName(dir, names[1])}
    requires Rewritten(files[IfcfgName(dir, names[0])], names[0], newIface)
          != Rewritten(files[IfcfgName(dir, names[1])], names[1], newIface)
    ensures var w, plan, oracle := World(files, [], true, [], []), MovePlan(dir, names, newIface), FirstStops(0);
      RunPlan(RunPlan(w, plan, oracle), plan, oracle).files != MoveAll(files, dir, names, newIface)
  {
    FirstStopsRun(files, dir, names, newIface, 0);
    FirstIdle(|names| - 1);
    FirstTwo(files, dir, names, newIface);
    ResumeIff(World(files, [], true, [], []), dir, names, newIface, FirstStops(0));
    hide RunPlan, MovePlan, LastScript, IfcfgName, Rewritten, MoveAll, Idle, All, Distinct, AllDone;
  }

  lemma PlainText(text: string, n: string, newIface: string)
    requires 'V' !in text && 'N' !in text
    ensures Rewritten(text, n, newIface) == text
  {
    assert ("DEVICE=" + n)[2] == 'V' && ("NAME=" + n)[0] == 'N';
    LetterMissing(text, "DEVICE=" + n, "DEVICE=" + newIface, 'V');
    LetterMissing(text, "NAME=" + n, "NAME=" + newIface, 'N');
  }

  /** Two scripts of a guest, and a first run that could not move the first one. */
  lemma EarlierScriptWins()
    ensures var d, names, oracle := IFCFG_DIR, VMWARE_IFACE_NAMES, FirstStops(0);
      var files: Files := map[IfcfgName(d, "ens160") := "IPADDR=10.0.0.1\n",
                              IfcfgName(d, "ens192") := "IPADDR=10.0.0.2\n"];
      var w, plan := World(files, [], true, [], []), MovePlan(d, names, KVM_DEFAULT_IFACE);
      RunPlan(RunPlan(w, plan, oracle), plan, oracle).files != MoveAll(files, d, names, KVM_DEFAULT_IFACE)
  {
    var x, y := "IPADDR=10.0.0.1\n", "IPADDR=10.0.0.2\n";
    assert x[14] != y[14];
    PlainText(x, "ens160", KVM_DEFAULT_IFACE);
    PlainText(y, "ens192", KVM_DEFAULT_IFACE);
    TwoNames();
    hide *;
    IfcfgNameInjective(IFCFG_DIR, "ens160", "ens192");
    EarlierWins(map[IfcfgName(IFCFG_DIR, "ens160") := x, IfcfgName(IFCFG_DIR, "ens192") := y], IFCFG_DIR,
                VMWARE_IFACE_NAMES, KVM_DEFAULT_IFACE);
  }

  /** One script whose call stopped after the move: the second run does not find it
      under its old name, and its lines are never rewritten. */
  lemma HalfMovedStays()
    ensures var d, names, oracle := IFCFG_DIR, VMWARE_IFACE_NAMES, FirstStops(1);
      var files: Files := map[IfcfgName(d, "ens160") := "DEVICE=ens160\n"];
      var w, plan := World(files, [], true, [], []), MovePlan(d, names, KVM_DEFAULT_IFACE);
      RunPlan(RunPlan(w, plan, oracle), plan, oracle).files != MoveAll(files, d, names, KVM_DEFAULT_IFACE)
  {
    var x := "DEVICE=ens160\n";
    assert Occurs("DEVICE=" + "ens160", x) by { assert OccursAt("DEVICE=" + "ens160", x, 0); }
    TwoNames();
    hide Distinct, IfcfgName, Occurs, OccursAt, RunPlan, MovePlan, MoveAll;
    HalfMoved(map[IfcfgName(IFCFG_DIR, "ens160") := x], IFCFG_DIR, VMWARE_IFACE_NAMES, KVM_DEFAULT_IFACE);
  }

  lemma HalfMoved(files: Files, dir: string, names: seq<string>, newIface: string)
    requires Distinct(names) && names != [] && names[0] != newIface && files.Keys == {IfcfgName(dir, names[0])}
    requires !NothingToRewrite(files[IfcfgName(dir, names[0])], names[0], newIface, 1)
    ensures var w, plan, oracle := World(files, [], true, [], []), MovePlan(dir, names, newIface), FirstStops(1);
      RunPlan(RunPlan(w, plan, oracle), plan, oracle).files != MoveAll(files, dir, names, newIface)
  {
    FirstStopsRun(files, dir, names, newIface, 1);
    FirstIdle(|names| - 1);
    forall i | 0 < i < |names| ensures !HasScript(files, dir, names[i], newIface) {
      IfcfgNameInjective(dir, names[i], names[0]);
    }
    hide IfcfgName;
    LastOf(files, dir, names, newIface, All(|names|), 0);
    ResumeIff(World(files, [], true, [], []), dir, names, newIface, FirstStops(1));
    hide RunPlan, MovePlan, LastScript, Rewritten, MoveAll, Idle, All, Distinct, AllDone;
  }
}
