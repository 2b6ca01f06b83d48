/** What the passes over the interface names do to the files of a guest, for the
    VMware names and for a name given by the user, with any new name. */
module NetworkNames {
  import opened Substitution
  import opened Interference
  import opened Guest
  import opened NetworkFixup

  /** The three texts that precede an interface name in the edited files. */
  predicate EditPrefix(pre: string) { pre == "" || pre == "Name=" || pre == "interface-name=" }

  function HeadOf(pre: string): char { if pre == "" then 'e' else pre[0] }

  // ---------------------------------------------------------------------
  // The names
  // ---------------------------------------------------------------------

  lemma PlainNames()
    ensures Uniform('e', 6, VMWARE_IFACE_NAMES) && Distinct(VMWARE_IFACE_NAMES) && |VMWARE_IFACE_NAMES| == 6
    ensures HeadOnly('e', KVM_DEFAULT_IFACE)
    ensures forall i, k | 0 <= i < 6 && 0 <= k < 6 :: VMWARE_IFACE_NAMES[i][k] in "ens0123456789"
  {
    var ns := VMWARE_IFACE_NAMES;
    assert forall i | 0 <= i < 6 :: |ns[i]| == 6 && HeadOnly('e', ns[i]);
    forall i, j | 0 <= i < j < 6 ensures ns[i] != ns[j] {
      assert ns[i][3] != ns[j][3] || ns[i][4] != ns[j][4] || ns[i][5] != ns[j][5];
    }
  }

  lemma PrefixHead(pre: string)
    requires EditPrefix(pre) && pre != ""
    ensures HeadOnly(pre[0], pre) && pre[0] !in "ens0123456789"
  {
  }

  lemma HeadBehind(pre: string, n: string)
    requires pre != "" && HeadOnly(pre[0], pre) && forall k | 0 <= k < |n| :: n[k] != pre[0]
    ensures HeadOnly(pre[0], pre + n)
  {
  }

  /** Behind each of the prefixes the VMware names keep their shape. */
  lemma VmwareUniform(pre: string)
    requires EditPrefix(pre)
    ensures var ns := Prefixed(pre, VMWARE_IFACE_NAMES);
      Uniform(HeadOf(pre), |pre| + 6, ns) && Distinct(ns) && HeadOnly(HeadOf(pre), pre + KVM_DEFAULT_IFACE)
  {
    hide HeadOnly;
    var names := VMWARE_IFACE_NAMES;
    var ns := Prefixed(pre, names);
    PlainNames();
    if pre == "" {
      PrefixedEmpty(names);
      assert pre + KVM_DEFAULT_IFACE == KVM_DEFAULT_IFACE;
    } else {
      PrefixHead(pre);
      forall i | 0 <= i < 6 ensures HeadOnly(HeadOf(pre), ns[i]) { HeadBehind(pre, names[i]); }
      HeadBehind(pre, KVM_DEFAULT_IFACE);
    }
    forall i, j | 0 <= i < j < 6 ensures ns[i] != ns[j] { BehindEqual(pre, names[i], names[j]); }
  }

  lemma BehindEqual(pre: string, m: string, n: string)
    ensures pre + m == pre + n <==> m == n
  {
    assert (pre + m)[|pre|..] == m && (pre + n)[|pre|..] == n;
  }

  /** No two names of a list that the program uses overlap each other. */
  lemma ListsAreApart(pre: string, oldIface: string)
    requires EditPrefix(pre)
    ensures NonEmpty(Prefixed(pre, IfacesToReplace(oldIface))) && Apart(Prefixed(pre, IfacesToReplace(oldIface)))
  {
    if oldIface == "" {
      VmwareUniform(pre);
      UniformApart(HeadOf(pre), |pre| + 6, Prefixed(pre, VMWARE_IFACE_NAMES));
    }
  }

  /** Texts with the same head letter overlap only where one continues the other. */
  lemma HeadsClear(c: char, p: string, q: string)
    requires HeadOnly(c, p) && HeadOnly(c, q)
    ensures Clear(p, q) <==> p == q || (!(p <= q) && !(q <= p))
  {
    forall d | -|p| < d < |q| && OverlapAt(p, q, d) ensures d == 0 && (p <= q || q <= p) {
      var k := if d > 0 then d else 0;
      assert p[k - d] == q[k];
      assert forall k | 0 <= k < |p| && k < |q| :: p[k - 0] == q[k];
    }
    if p <= q || q <= p { assert OverlapAt(p, q, 0); }
  }

  /** The default new name is clear of all VMware names, behind each prefix. */
  lemma DefaultIsClear(pre: string)
    requires EditPrefix(pre)
    ensures ClearOf(Prefixed(pre, VMWARE_IFACE_NAMES), pre + KVM_DEFAULT_IFACE)
    ensures KVM_DEFAULT_IFACE !in VMWARE_IFACE_NAMES
  {
    var ns, r := Prefixed(pre, VMWARE_IFACE_NAMES), pre + KVM_DEFAULT_IFACE;
    VmwareUniform(pre);
    hide HeadOnly, Clear;
    forall i | 0 <= i < 6 ensures Clear(ns[i], r) {
      var n := VMWARE_IFACE_NAMES[i];
      assert n[3] != KVM_DEFAULT_IFACE[3] || n[4] != KVM_DEFAULT_IFACE[4];
      assert forall k | 0 <= k < 5 :: ns[i][|pre| + k] == n[k] && r[|pre| + k] == KVM_DEFAULT_IFACE[k];
      HeadsClear(HeadOf(pre), ns[i], r);
    }
  }

  // ---------------------------------------------------------------------
  // Which new names are safe
  // ---------------------------------------------------------------------

  /** For EVERY new name and behind each prefix. The six passes equal one
      simultaneous substitution on all texts if and only if the later five names
      are clear of the new one; a second run changes no text if and only if all
      six are; and no text keeps a VMware name if and only if all six are and the
      new name is none of them. */
  lemma {:induction false} NewNameIff(pre: string, newIface: string)
    requires EditPrefix(pre)
    ensures var ns, r := Prefixed(pre, VMWARE_IFACE_NAMES), pre + newIface;
      && NonEmpty(ns)
      && ((forall s :: ReplaceEach(s, ns, r) == ReplaceAny(s, ns, r)) <==>
          forall i | 1 <= i < 6 :: Clear(pre + VMWARE_IFACE_NAMES[i], pre + newIface))
      && ((forall s :: ReplaceEach(ReplaceEach(s, ns, r), ns, r) == ReplaceEach(s, ns, r)) <==>
          forall i | 0 <= i < 6 :: Clear(pre + VMWARE_IFACE_NAMES[i], pre + newIface))
      && ((forall s :: NoneIn(ns, ReplaceEach(s, ns, r))) <==>
          newIface !in VMWARE_IFACE_NAMES
          && forall i | 0 <= i < 6 :: Clear(pre + VMWARE_IFACE_NAMES[i], pre + newIface))
  {
    hide HeadOnly, Uniform, Clear, ReplaceEach, ReplaceAny, NoneIn, Distinct;
    var names := VMWARE_IFACE_NAMES;
    var ns, r, c := Prefixed(pre, names), pre + newIface, HeadOf(pre);
    VmwareUniform(pre);
    InterferenceIff(c, |pre| + 6, ns, r);
    SecondRunIff(c, |pre| + 6, ns, r);
    NoneLeftIff(c, |pre| + 6, ns, r);
    MemberBehind(pre, newIface, names);
    assert forall i | 1 <= i < 6 :: ns[1..][i - 1] == ns[i];
  }

  /** With one name given by the user there is one pass, which nothing can
      interfere with. For EVERY such name and every new one, a second run changes no
      text if and only if the names are the same or the old one cannot come back;
      and no text keeps the old name if and only if it cannot come back. */
  lemma OldNameIff(pre: string, oldIface: string, newIface: string)
    requires oldIface != ""
    ensures var ns, p, r := Prefixed(pre, IfacesToReplace(oldIface)), pre + oldIface, pre + newIface;
      && NonEmpty(ns)
      && (forall s :: ReplaceEach(s, ns, r) == ReplaceAny(s, ns, r) == ReplaceAll(s, p, r))
      && ((forall s :: ReplaceAll(ReplaceAll(s, p, r), p, r) == ReplaceAll(s, p, r))
          <==> oldIface == newIface || !ComesBack(p, r))
      && ((forall s :: !Occurs(p, ReplaceAll(s, p, r))) <==> !ComesBack(p, r))
  {
    hide ComesBack, ReplaceAll, ReplaceAny, Occurs;
    var ns, p, r := Prefixed(pre, IfacesToReplace(oldIface)), pre + oldIface, pre + newIface;
    assert ns == [p];
    forall s ensures ReplaceEach(s, [p], r) == ReplaceAny(s, [p], r) == ReplaceAll(s, p, r) {
      SingleIsAny(s, p, r);
      EachOfOne(s, p, r);
    }
    BehindEqual(pre, oldIface, newIface);
    OneNameIff(p, r);
  }

  /** A name that overlaps itself and the new one, and yet never comes back. */
  lemma OverlappingOldName()
    ensures !Clear("aa", "aa") && !Clear("aa", "ab") && !ComesBack("aa", "ab")
    ensures forall s :: !Occurs("aa", ReplaceAll(s, "aa", "ab"))
  {
    assert OverlapAt("aa", "aa", 1) && OverlapAt("aa", "ab", -1);
    forall d | -2 < d < 2 && OverlapAt("aa", "ab", d) ensures !FoundLast("aa", Before("aa", "ab", d)) {
      assert "aa"[0] != "ab"[1] && d == -1;
      assert Before("aa", "ab", -1) == "a" && ("a" + "aa")[0..] == "aaa" && OccursAt("aa", "a" + "aa", 0);
    }
    hide Occurs, ReplaceAll, ComesBack;
    OneNameIff("aa", "ab");
  }

  lemma EachOfOne(s: string, p: string, r: string)
    requires p != ""
    ensures ReplaceEach(s, [p], r) == ReplaceAll(s, p, r)
  {
    hide ReplaceAll;
    assert [p][1..] == [];
  }

  /** New names for which the passes interfere: one that starts a later name, and
      one whose end does. */
  lemma {:induction false} InterferingNewNames()
    ensures var ns := VMWARE_IFACE_NAMES;
      && NonEmpty(ns)
      && ReplaceEach("ens16092", ns, "ens1") != ReplaceAny("ens16092", ns, "ens1")
      && ReplaceEach("ens16061", ns, "pens1") != ReplaceAny("ens16061", ns, "pens1")
  {
    PlainNames();
    StartingWitness();
    EndingWitness();
    hide *;
    InterferenceAt('e', 6, VMWARE_IFACE_NAMES, "ens192", "ens1", 0);
    InterferenceAt('e', 6, VMWARE_IFACE_NAMES, "ens161", "pens1", 1);
  }

  lemma StartingWitness()
    ensures "ens192" in VMWARE_IFACE_NAMES[1..] && OverlapAt("ens192", "ens1", 0)
    ensures VMWARE_IFACE_NAMES != [] && Witness(VMWARE_IFACE_NAMES[0], "ens192", "ens1", 0) == "ens16092"
  {
    assert VMWARE_IFACE_NAMES[1..][0] == "ens192";
    assert Behind("ens192", "ens1", 0) == "92";
  }

  lemma EndingWitness()
    ensures "ens161" in VMWARE_IFACE_NAMES[1..] && OverlapAt("ens161", "pens1", 1)
    ensures VMWARE_IFACE_NAMES != [] && Witness(VMWARE_IFACE_NAMES[0], "ens161", "pens1", 1) == "ens16061"
  {
    assert VMWARE_IFACE_NAMES[1..][3] == "ens161";
    assert Behind("ens161", "pens1", 1) == "61";
  }

  /** A new name that the first name starts: every run rewrites it again. */
  lemma GrowingNewName()
    ensures var ns, once := VMWARE_IFACE_NAMES, ReplaceEach("ens193", VMWARE_IFACE_NAMES, "ens1601");
      NonEmpty(ns) && ReplaceEach(once, ns, "ens1601") != once
  {
    var ns := VMWARE_IFACE_NAMES;
    PlainNames();
    hide HeadOnly, Uniform, ReplaceEach, Distinct, Occurs;
    assert OverlapAt("ens160", "ens1601", 0) && Witness("ens193", "ens160", "ens1601", 0) == "ens193";
    assert ns[0] in ns;
    NameBroughtAbout('e', 6, ns, "ens160", "ens1601", 0);
    EachUnchangedIff('e', 6, ReplaceEach("ens193", ns, "ens1601"), ns, "ens1601");
  }

  // ---------------------------------------------------------------------
  // Runs over a file
  // ---------------------------------------------------------------------

  lemma PrefixedSub(pre: string, ms: seq<string>, names: seq<string>)
    requires forall m | m in ms :: m in names
    ensures forall m | m in Prefixed(pre, ms) :: m in Prefixed(pre, names)
  {
    forall m | m in Prefixed(pre, ms) ensures m in Prefixed(pre, names) {
      var i :| 0 <= i < |ms| && Prefixed(pre, ms)[i] == m;
      assert ms[i] in ms;
      var j :| 0 <= j < |names| && names[j] == ms[i];
      assert Prefixed(pre, names)[j] == m;
    }
  }

  lemma LaterClear(pre: string, reached: seq<string>, names: seq<string>, newIface: string)
    requires ClearOf(Prefixed(pre, names), pre + newIface) && forall m | m in reached :: m in names
    ensures ClearOf(Prefixed(pre, reached), pre + newIface)
    ensures reached != [] ==> ClearOf(Prefixed(pre, reached)[1..], pre + newIface)
  {
    hide Clear;
    PrefixedSub(pre, reached, names);
    ClearSub(Prefixed(pre, reached), Prefixed(pre, names), pre + newIface);
  }

  /** A run without failures turns every selected file into the simultaneous
      substitution of all names, as far as the later ones are clear of the new
      name; and a name that is clear of the new one is not left in it. */
  lemma CleanRun(w: World, dir: string, suffix: string, pre: string, what: string,
                 names: seq<string>, newIface: string, oracle: nat -> Outcome, f: string)
    requires NonEmpty(names) && names != [] && Apart(Prefixed(pre, names))
    requires ClearOf(Prefixed(pre, names)[1..], pre + newIface)
    requires f in w.files && Selected(dir, suffix, f) && AllDone(oracle, |w.log|, |names|)
    ensures var w' := RunPlan(w, EditPlan(dir, suffix, pre, what, names, newIface), oracle);
      && f in w'.files
      && w'.files[f] == ReplaceAny(w.files[f], Prefixed(pre, names), pre + newIface)
      && forall n | n in names && n != newIface && Clear(pre + n, pre + newIface) :: !Occurs(pre + n, w'.files[f])
  {
    hide RunPlan, EditPlan, Selected, ReplaceAny, Clear, Apart, Occurs, Reached;
    var ns, r := Prefixed(pre, names), pre + newIface;
    FileAfter(w, dir, suffix, pre, what, names, newIface, oracle, f);
    AllReached(names, f, oracle, |w.log|);
    EachIsAny(w.files[f], ns, r);
    forall n | n in names && n != newIface && Clear(pre + n, r)
      ensures !Occurs(pre + n, ReplaceAny(w.files[f], ns, r))
    {
      MemberBehind(pre, n, names);
      BehindEqual(pre, n, newIface);
      NoneLeft(w.files[f], ns, r, pre + n);
    }
  }

  /** Whatever went wrong in a first run, a second run without failures gives
      the files that one undisturbed run would have given. */
  lemma Recovery(w: World, dir: string, suffix: string, pre: string, what: string,
                 names: seq<string>, newIface: string, oracle: nat -> Outcome, f: string)
    requires NonEmpty(names) && Apart(Prefixed(pre, names)) && ClearOf(Prefixed(pre, names), pre + newIface)
    requires f in w.files && Selected(dir, suffix, f)
    requires AllDone(oracle, |RunPlan(w, EditPlan(dir, suffix, pre, what, names, newIface), oracle).log|, |names|)
    ensures var plan := EditPlan(dir, suffix, pre, what, names, newIface);
      var w' := RunPlan(RunPlan(w, plan, oracle), plan, oracle);
      f in w'.files && w'.files[f] == ReplaceAny(w.files[f], Prefixed(pre, names), pre + newIface)
  {
    hide RunPlan, EditPlan, Selected, ReplaceAny, ReplaceEach, ClearOf, Apart, Reached;
    var w1 := RunPlan(w, EditPlan(dir, suffix, pre, what, names, newIface), oracle);
    var reached := Reached(names, f, oracle, |w.log|);
    FileAfter(w, dir, suffix, pre, what, names, newIface, oracle, f);
    FileAfter(w1, dir, suffix, pre, what, names, newIface, oracle, f);
    AllReached(names, f, oracle, |w1.log|);
    PrefixedSub(pre, reached, names);
    PartThenAll(w.files[f], Prefixed(pre, reached), Prefixed(pre, names), pre + newIface);
  }

  /** After ANY run a name is left in a file exactly when it was there before
      and its pass did not get to the file. */
  lemma {:induction false} LeftoverIff(w: World, dir: string, suffix: string, pre: string, what: string,
                                       names: seq<string>, newIface: string, oracle: nat -> Outcome,
                                       f: string, n: string)
    requires NonEmpty(names) && Apart(Prefixed(pre, names)) && ClearOf(Prefixed(pre, names), pre + newIface)
    requires f in w.files && Selected(dir, suffix, f) && n in names && n != newIface
    ensures var w' := RunPlan(w, EditPlan(dir, suffix, pre, what, names, newIface), oracle);
      && f in w'.files
      && (Occurs(pre + n, w'.files[f])
          <==> Occurs(pre + n, w.files[f]) && n !in Reached(names, f, oracle, |w.log|))
  {
    hide RunPlan, EditPlan, Selected, ReplaceAny, ReplaceEach, Clear, Apart, Occurs, Reached;
    var ns, r := Prefixed(pre, names), pre + newIface;
    var reached := Reached(names, f, oracle, |w.log|);
    var ms := Prefixed(pre, reached);
    FileAfter(w, dir, suffix, pre, what, names, newIface, oracle, f);
    PrefixedSub(pre, reached, names);
    ApartSub(ms, ns);
    LaterClear(pre, reached, names, newIface);
    EachIsAny(w.files[f], ms, r);
    MemberBehind(pre, n, names);
    MemberBehind(pre, n, reached);
    BehindEqual(pre, n, newIface);
    forall m | m in ms && m != pre + n ensures Clear(pre + n, m) { ApartPair(ns, pre + n, m); }
    ClearMember(ns, r, pre + n);
    SurvivesIff(w.files[f], ms, r, pre + n);
  }

  lemma ClearMember(ns: seq<string>, r: string, n: string)
    requires ClearOf(ns, r) && n in ns
    ensures Clear(n, r) && (NonEmpty(ns) ==> n != "")
  {
    hide Clear;
  }

  lemma MemberBehind(pre: string, n: string, ms: seq<string>)
    ensures pre + n in Prefixed(pre, ms) <==> n in ms
  {
    var ps := Prefixed(pre, ms);
    if n in ms {
      var i :| 0 <= i < |ms| && ms[i] == n;
      assert ps[i] in ps;
    }
    if pre + n in ps {
      var i :| 0 <= i < |ps| && ps[i] == pre + n;
      assert (pre + ms[i])[|pre|..] == ms[i] && (pre + n)[|pre|..] == n;
    }
  }

  // ---------------------------------------------------------------------
  // The whole fixup on an undisturbed guest
  // ---------------------------------------------------------------------

  /** Where each detected configuration keeps interface names. */
  predicate EditSite(configType: string, dir: string, suffix: string, pre: string, what: string) {
    || (configType == "netplan" && dir == NETPLAN_DIR && suffix == ".yaml" && pre == "" && what == "Netplan")
    || (configType == "networkd" && dir == NETWORKD_DIR && suffix == ".network" && pre == "Name=" && what == "networkd")
    || (configType == "nm" && dir == NM_DIR && suffix == "" && pre == "interface-name=" && what == "NetworkManager")
  }

  lemma SiteStage(w: World, configType: string, dir: string, suffix: string, pre: string, what: string,
                  oldIface: string, newIface: string, oracle: nat -> Outcome)
    requires EditSite(configType, dir, suffix, pre, what)
    ensures EditPrefix(pre)
    ensures FixStage(w, configType, oldIface, newIface, oracle)
         == RunPlan(w, EditPlan(dir, suffix, pre, what, IfacesToReplace(oldIface), newIface), oracle)
  {
    hide RunPlan, EditPlan, IfacesToReplace;
  }

  /** The parts of a run without failures. */
  lemma SiteRun(files: Files, log: seq<Command>, oracle: nat -> Outcome, configType: string,
                dir: string, suffix: string, pre: string, what: string,
                oldIface: string, newIface: string) returns (w2: World)
    requires EditSite(configType, dir, suffix, pre, what) && DoneFrom(oracle, |log|)
    requires ProbeAnswer(CONFIG_CHECKS, oracle, |log| + 1) == configType
    ensures |w2.log| >= |log| && w2.files == files - {UDEV_NET_RULES} && Stale(UDEV_NET_RULES)
    ensures NetworkRun(files, log, oldIface, newIface, oracle).files
         == Purged(RunPlan(w2, EditPlan(dir, suffix, pre, what, IfacesToReplace(oldIface), newIface), oracle).files)
  {
    w2 := UntilFix(files, log, oldIface, newIface, oracle);
    hide NetworkRun, RunPlan, EditPlan, EditSite, ProbeAnswer, IfacesToReplace, FixStage, Purged, DoneFrom;
    SiteStage(w2, configType, dir, suffix, pre, what, oldIface, newIface, oracle);
    PlanCalls(w2, EditPlan(dir, suffix, pre, what, IfacesToReplace(oldIface), newIface), oracle);
    var w3 := FixStage(w2, configType, oldIface, newIface, oracle);
    AllDoneFrom(oracle, |log|, |w3.log|, |STATE_PATHS|);
    CleanupPurges(w3, oracle);
  }

  /** The run up to the detection of the configuration. */
  lemma UntilFix(files: Files, log: seq<Command>, oldIface: string, newIface: string, oracle: nat -> Outcome)
    returns (w2: World)
    requires DoneFrom(oracle, |log|)
    ensures w2.log == log + [Remove(UDEV_NET_RULES, false)] + ProbeCalls(CONFIG_CHECKS, oracle, |log| + 1)
    ensures w2.files == files - {UDEV_NET_RULES} && Stale(UDEV_NET_RULES)
    ensures NetworkRun(files, log, oldIface, newIface, oracle)
         == RunPlan(FixStage(w2, ProbeAnswer(CONFIG_CHECKS, oracle, |log| + 1), oldIface, newIface, oracle),
                    CleanupPlan(STATE_PATHS), oracle)
  {
    hide FixStage, ProbeAnswer, ProbeCalls, Stale, Removed, CleanupPlan;
    var w0 := World(files, log, true, [], []);
    var w1 := RunPlan(w0, UdevPlan(), oracle);
    PlanCalls(w0, UdevPlan(), oracle);
    UdevRemoves(w0, oracle);
    assert w1.log == log + [Remove(UDEV_NET_RULES, false)];
    hide RunPlan;
    w2 := Detected(w1, oracle);
  }

  /** No pass over the names creates or removes a file. */
  lemma EditKeepsFiles(w: World, dir: string, suffix: string, pre: string, what: string,
                       names: seq<string>, newIface: string, oracle: nat -> Outcome)
    requires NonEmpty(names)
    ensures RunPlan(w, EditPlan(dir, suffix, pre, what, names, newIface), oracle).files.Keys == w.files.Keys
  {
    hide RunPlan, EditPlan, Removed;
    var plan := EditPlan(dir, suffix, pre, what, names, newIface);
    EditCommands(dir, suffix, pre, what, names, newIface);
    PlanCalls(w, plan, oracle);
    forall f ensures f in RunPlan(w, plan, oracle).files <==> f in w.files { LeftIff(w, plan, oracle, f); }
  }

  lemma AllDoneFrom(oracle: nat -> Outcome, j: nat, k: nat, n: nat)
    requires j <= k && DoneFrom(oracle, j)
    ensures AllDone(oracle, k, n)
  {
  }

  lemma ListNonEmpty(oldIface: string)
    ensures IfacesToReplace(oldIface) != []
  {
  }

  lemma UndisturbedSucceeds(files: Files, log: seq<Command>, oldIface: string, newIface: string, oracle: nat -> Outcome)
    requires DoneFrom(oracle, |log|)
    ensures NetworkRun(files, log, oldIface, newIface, oracle).success
  {
    hide NetworkRun;
    NetworkSuccessIff(files, log, oldIface, newIface, oracle);
  }

  /** With the default names the conditions hold. */
  lemma DefaultsAreSafe(pre: string)
    requires EditPrefix(pre)
    ensures ClearOf(Prefixed(pre, IfacesToReplace("")), pre + KVM_DEFAULT_IFACE)
    ensures ClearOf(Prefixed(pre, IfacesToReplace(""))[1..], pre + KVM_DEFAULT_IFACE)
    ensures forall n | n in IfacesToReplace("") :: n != KVM_DEFAULT_IFACE && Clear(pre + n, pre + KVM_DEFAULT_IFACE)
  {
    hide Clear;
    DefaultIsClear(pre);
    var ns := Prefixed(pre, VMWARE_IFACE_NAMES);
    ClearSub(ns[1..], ns, pre + KVM_DEFAULT_IFACE);
    forall n | n in VMWARE_IFACE_NAMES ensures Clear(pre + n, pre + KVM_DEFAULT_IFACE) {
      MemberBehind(pre, n, VMWARE_IFACE_NAMES);
      ClearMember(ns, pre + KVM_DEFAULT_IFACE, pre + n);
    }
  }
}
