/** Merging VMDK snapshot chains (vmfree/converter/disk.py).

    Modelling assumptions. An image file holds some sectors and may name a
    backing file; a sector it does not hold is read from the backing file, and
    reads as zero when there is none. `qemu-img commit` copies the sectors of an
    image into its backing file and may drop any of them from the image
    afterwards. A commit that fails may have copied any of the sectors and
    leaves the image alone. */
module SnapshotChain {
  import opened Text
  import opened PathNames

  type Block = int

  datatype Layer = Layer(sectors: map<nat, Block>, backing: Option<string>)

  type Layers = map<string, Layer>

  datatype CommitOutcome =
    | Committed(kept: set<nat>)                  // exit code 0
    | Failed(copied: set<nat>, stderr: string)   // non-zero exit code
    | ToolMissing                                // FileNotFoundError

  // ---------------------------------------------------------------------
  // What the guest sees
  // ---------------------------------------------------------------------

  /** The sector as read through a chain, leaf first. */
  function View(layers: Layers, chain: seq<string>, s: nat): Block {
    if chain == [] then 0
    else if chain[0] in layers && s in layers[chain[0]].sectors then layers[chain[0]].sectors[s]
    else View(layers, chain[1..], s)
  }

  /** The sector as read through the backing links, at most `depth` files deep. */
  function Read(layers: Layers, path: string, s: nat, depth: nat): Block
    decreases depth
  {
    if depth == 0 || path !in layers then 0
    else if s in layers[path].sectors then layers[path].sectors[s]
    else match layers[path].backing
      case None => 0
      case Some(parent) => Read(layers, parent, s, depth - 1)
  }

  /** The list names a snapshot chain leaf first: every file exists and is backed
      by the next one, and the last one by nothing. */
  predicate IsChain(layers: Layers, chain: seq<string>) {
    chain != [] && forall i | 0 <= i < |chain| :: LinkAt(layers, chain, i)
  }

  predicate LinkAt(layers: Layers, chain: seq<string>, i: nat)
    requires i < |chain|
  {
    chain[i] in layers && layers[chain[i]].backing == if i + 1 < |chain| then Some(chain[i + 1]) else None
  }

  lemma ChainTail(layers: Layers, chain: seq<string>, k: nat)
    requires IsChain(layers, chain) && k < |chain|
    ensures IsChain(layers, chain[k..])
  {
    forall i | 0 <= i < |chain[k..]| ensures LinkAt(layers, chain[k..], i) { assert LinkAt(layers, chain, k + i); }
  }

  lemma {:induction false} ViewIsRead(layers: Layers, chain: seq<string>, s: nat)
    requires IsChain(layers, chain)
    ensures View(layers, chain, s) == Read(layers, chain[0], s, |chain|)
    decreases |chain|
  {
    assert LinkAt(layers, chain, 0);
    if |chain| > 1 {
      ChainTail(layers, chain, 1);
      ViewIsRead(layers, chain[1..], s);
    } else {
      assert chain[1..] == [];
    }
  }

  /** The files of a chain are pairwise different. */
  lemma {:induction false} ChainDistinct(layers: Layers, chain: seq<string>, i: nat, j: nat)
    requires IsChain(layers, chain) && i < j < |chain|
    ensures chain[i] != chain[j]
    decreases |chain| - j
  {
    assert LinkAt(layers, chain, i) && LinkAt(layers, chain, j);
    if j + 1 < |chain| { ChainDistinct(layers, chain, i + 1, j + 1); }
  }

  // ---------------------------------------------------------------------
  // One commit
  // ---------------------------------------------------------------------

  function Only(m: map<nat, Block>, keys: set<nat>): map<nat, Block> { map s | s in m && s in keys :: m[s] }

  /** `qemu-img commit path`. Without a backing file there is nothing to do. */
  function Commit(layers: Layers, path: string, o: CommitOutcome): Layers {
    if path !in layers || layers[path].backing.None? || layers[path].backing.value !in layers then layers
    else
      var delta, parent := layers[path], layers[path].backing.value;
      match o
      case ToolMissing => layers
      case Failed(copied, _) => CopyInto(layers, parent, Only(delta.sectors, copied))
      case Committed(kept) => Shrink(CopyInto(layers, parent, delta.sectors), path, kept)
  }

  function CopyInto(layers: Layers, path: string, sectors: map<nat, Block>): Layers
    requires path in layers
  {
    layers[path := layers[path].(sectors := layers[path].sectors + sectors)]
  }

  function Shrink(layers: Layers, path: string, kept: set<nat>): Layers
    requires path in layers
  {
    layers[path := layers[path].(sectors := Only(layers[path].sectors, kept))]
  }

  lemma {:induction false} ViewAgrees(a: Layers, b: Layers, chain: seq<string>, s: nat)
    requires forall i | 0 <= i < |chain| ::
      (chain[i] in a <==> chain[i] in b) && (chain[i] in a ==> a[chain[i]] == b[chain[i]])
    ensures View(a, chain, s) == View(b, chain, s)
    decreases |chain|
  {
    if chain != [] {
      assert forall i | 0 <= i < |chain[1..]| :: chain[1..][i] == chain[i + 1];
      ViewAgrees(a, b, chain[1..], s);
    }
  }

  lemma CommitShape(layers: Layers, chain: seq<string>, k: nat, o: CommitOutcome)
    requires IsChain(layers, chain) && k + 1 < |chain|
    ensures IsChain(Commit(layers, chain[k], o), chain)
    ensures Commit(layers, chain[k], o).Keys == layers.Keys
    ensures forall p | p in layers && p != chain[k] && p != chain[k + 1] :: Commit(layers, chain[k], o)[p] == layers[p]
    ensures chain[k] in layers && chain[k] in Commit(layers, chain[k], o)
    ensures !o.Committed? ==> Commit(layers, chain[k], o)[chain[k]] == layers[chain[k]]
  {
    assert LinkAt(layers, chain, k) && LinkAt(layers, chain, k + 1);
    ChainDistinct(layers, chain, k, k + 1);
    var after := Commit(layers, chain[k], o);
    forall i | 0 <= i < |chain| ensures LinkAt(after, chain, i) { assert LinkAt(layers, chain, i); }
  }

  /** However a commit of the k-th file ends, the chain from there on reads as
      before; and when it succeeded, so does the chain below it. */
  lemma CommitKeepsView(layers: Layers, chain: seq<string>, k: nat, o: CommitOutcome, s: nat)
    requires IsChain(layers, chain) && k + 1 < |chain|
    ensures View(Commit(layers, chain[k], o), chain[k..], s) == View(layers, chain[k..], s)
    ensures o.Committed? ==> View(Commit(layers, chain[k], o), chain[k + 1..], s) == View(layers, chain[k..], s)
  {
    var after := Commit(layers, chain[k], o);
    CommitShape(layers, chain, k, o);
    assert LinkAt(layers, chain, k) && LinkAt(layers, chain, k + 1);
    ChainDistinct(layers, chain, k, k + 1);
    assert chain[k..][1..] == chain[k + 1..] && chain[k + 1..][1..] == chain[k + 2..];
    var rest := chain[k + 2..];
    forall i | 0 <= i < |rest| ensures rest[i] in layers && after[rest[i]] == layers[rest[i]] {
      ChainDistinct(layers, chain, k, k + 2 + i);
      ChainDistinct(layers, chain, k + 1, k + 2 + i);
      assert LinkAt(layers, chain, k + 2 + i);
    }
    ViewAgrees(after, layers, rest, s);
    var a0, a1 := after[chain[k]].sectors, after[chain[k + 1]].sectors;
    var b0, b1 := layers[chain[k]].sectors, layers[chain[k + 1]].sectors;
    var below := View(layers, chain[k + 2..], s);
    assert View(layers, chain[k + 1..], s) == if s in b1 then b1[s] else below;
    assert View(after, chain[k + 1..], s) == if s in a1 then a1[s] else below;
    assert View(layers, chain[k..], s) == if s in b0 then b0[s] else View(layers, chain[k + 1..], s);
    assert View(after, chain[k..], s) == if s in a0 then a0[s] else View(after, chain[k + 1..], s);
  }

  // ---------------------------------------------------------------------
  // The merge loop
  // ---------------------------------------------------------------------

  datatype Stop = Finished | NoTool(index: nat) | CommitError(index: nat, stderr: string)

  /** The commits of chain[k..] but the last file, up to the first that fails. */
  function MergeFrom(layers: Layers, chain: seq<string>, k: nat, outcomes: nat -> CommitOutcome): (Layers, Stop)
    decreases |chain| - k
  {
    if k + 1 >= |chain| then (layers, Finished)
    else
      var after := Commit(layers, chain[k], outcomes(k));
      match outcomes(k)
      case ToolMissing => (after, NoTool(k))
      case Failed(_, stderr) => (after, CommitError(k, stderr))
      case Committed(_) => MergeFrom(after, chain, k + 1, outcomes)
  }

  predicate AllCommitted(outcomes: nat -> CommitOutcome, k: nat, m: nat) {
    forall i | k <= i < m :: outcomes(i).Committed?
  }

  /** The merge stops at the first commit that does not succeed. */
  lemma {:induction false} StopIff(layers: Layers, chain: seq<string>, k: nat, outcomes: nat -> CommitOutcome)
    requires k < |chain|
    ensures var stop := MergeFrom(layers, chain, k, outcomes).1;
      && (stop.Finished? <==> AllCommitted(outcomes, k, |chain| - 1))
      && (!stop.Finished? ==>
            && k <= stop.index < |chain| - 1 && AllCommitted(outcomes, k, stop.index)
            && (stop.NoTool? <==> outcomes(stop.index).ToolMissing?)
            && (stop.CommitError? ==>
                  outcomes(stop.index).Failed? && stop.stderr == outcomes(stop.index).stderr))
    decreases |chain| - k
  {
    hide Commit;
    if k + 1 < |chain| && outcomes(k).Committed? {
      StopIff(Commit(layers, chain[k], outcomes(k)), chain, k + 1, outcomes);
    }
  }

  /** What the result promises: the file it names exists, has no backing file, and
      reads at every sector as the leaf did before the merge. */
  ghost predicate NamesTheMerged(r: ConversionResult, before: Layers, after: Layers, chain: seq<string>)
    requires chain != []
  {
    && r.outputPath.Some? && r.outputPath.value in after && after[r.outputPath.value].backing == None
    && forall s: nat :: Read(after, r.outputPath.value, s, 1) == Read(before, chain[0], s, |chain|)
  }

  lemma BaseIsMerged(layers: Layers, chain: seq<string>, outcomes: nat -> CommitOutcome, r: ConversionResult)
    requires IsChain(layers, chain) && MergeFrom(layers, chain, 0, outcomes).1.Finished?
    requires r.outputPath == Some(chain[|chain| - 1])
    ensures NamesTheMerged(r, layers, MergeFrom(layers, chain, 0, outcomes).0, chain)
  {
    var merged, n := MergeFrom(layers, chain, 0, outcomes).0, |chain| - 1;
    MergeKeepsView(layers, chain, 0, outcomes, 0);
    hide MergeFrom;
    assert LinkAt(merged, chain, n);
    hide Read;
    forall s: nat ensures Read(merged, chain[n], s, 1) == Read(layers, chain[0], s, |chain|) {
      MergedBaseReadsAsLeaf(layers, chain, outcomes, s);
    }
  }

  /** The image files and the commits attempted so far. */
  class Store {
    var layers: Layers
    var commits: seq<string>

    constructor (layers: Layers)
      ensures this.layers == layers && commits == []
    {
      this.layers, commits := layers, [];
    }

    method RunCommit(path: string, o: CommitOutcome)
      modifies this
      ensures layers == Commit(old(layers), path, o) && commits == old(commits) + [path]
    {
      layers, commits := Commit(layers, path, o), commits + [path];
    }

    /** Merge from the leaf on. It succeeds exactly when every commit does, and then
        names the base; the report of a failure names the first commit that failed. */
    method MergeSnapshotChain(chain: seq<string>, outcomes: nat -> CommitOutcome) returns (r: ConversionResult)
      modifies this
      ensures r.success <==> chain != [] && AllCommitted(outcomes, 0, |chain| - 1)
      ensures r.outputPath == if r.success then Some(chain[|chain| - 1]) else None
      ensures IsChain(old(layers), chain) && r.success ==> NamesTheMerged(r, old(layers), layers, chain)
      ensures r.success ==> r.errors == [] && commits == old(commits) + chain[..|chain| - 1]
      ensures forall k: nat | k + 1 < |chain| && AllCommitted(outcomes, 0, k) && !outcomes(k).Committed? ::
        && r.errors == [if outcomes(k).Failed?
                        then "Merge failed for " + Name(Parse(chain[k])) + ": " + Strip(outcomes(k).stderr)
                        else "qemu-img not found on PATH"]
        && commits == old(commits) + chain[..k + 1]
      ensures chain == [] ==> r.errors == ["Empty snapshot chain"] && commits == old(commits)
      ensures layers == MergeFrom(old(layers), chain, 0, outcomes).0
    {
      hide Parse, Name, Strip, Commit, IsChain, NamesTheMerged;
      ghost var before := layers;
      if chain == [] {
        return ConversionResult(false, None, ["Empty snapshot chain"]);
      }
      if |chain| == 1 {
        r := ConversionResult(true, Some(chain[0]), []);
        assert commits + chain[..0] == commits;
        if IsChain(before, chain) { BaseIsMerged(before, chain, outcomes, r); }
        return;
      }
      StopIff(before, chain, 0, outcomes);
      var i := 0;
      while i < |chain| - 1
        invariant 0 <= i <= |chain| - 1 && AllCommitted(outcomes, 0, i)
        invariant MergeFrom(layers, chain, i, outcomes) == MergeFrom(before, chain, 0, outcomes)
        invariant commits == old(commits) + chain[..i]
      {
        var o := outcomes(i);
        RunCommit(chain[i], o);
        assert chain[..i + 1] == chain[..i] + [chain[i]];
        match o {
          case ToolMissing =>
            return ConversionResult(false, None, ["qemu-img not found on PATH"]);
          case Failed(_, stderr) =>
            return ConversionResult(false, None, ["Merge failed for " + Name(Parse(chain[i])) + ": " + Strip(stderr)]);
          case Committed(_) =>
        }
        i := i + 1;
      }
      r := ConversionResult(true, Some(chain[|chain| - 1]), []);
      if IsChain(before, chain) { BaseIsMerged(before, chain, outcomes, r); }
    }
  }

  // ---------------------------------------------------------------------
  // Main results
  // ---------------------------------------------------------------------

  /** Loop invariant over any run: wherever the loop stops, the files still form
      the chain, the part not yet committed still reads as the leaf did, the
      whole chain reads as it did, and no file outside the chain changes. */
  lemma {:induction false} MergeKeepsView(layers: Layers, chain: seq<string>, k: nat,
                                          outcomes: nat -> CommitOutcome, s: nat)
    requires IsChain(layers, chain) && k < |chain|
    ensures var (merged, stop) := MergeFrom(layers, chain, k, outcomes);
      && IsChain(merged, chain) && merged.Keys == layers.Keys
      && View(merged, chain[k..], s) == View(layers, chain[k..], s)
      && (stop.Finished? ==> View(merged, chain[|chain| - 1..], s) == View(layers, chain[k..], s))
      && (forall i | 0 <= i < k :: chain[i] in layers && chain[i] in merged && merged[chain[i]] == layers[chain[i]])
      && (forall p | p in layers && p !in chain :: merged[p] == layers[p])
    decreases |chain| - k
  {
    forall i | 0 <= i < |chain| ensures chain[i] in layers { assert LinkAt(layers, chain, i); }
    if k + 1 < |chain| {
      var o := outcomes(k);
      var after := Commit(layers, chain[k], o);
      CommitShape(layers, chain, k, o);
      CommitKeepsView(layers, chain, k, o, s);
      forall i | 0 <= i < k ensures after[chain[i]] == layers[chain[i]] {
        ChainDistinct(layers, chain, i, k);
        ChainDistinct(layers, chain, i, k + 1);
      }
      if o.Committed? {
        MergeKeepsView(after, chain, k + 1, outcomes, s);
        var merged := MergeFrom(after, chain, k + 1, outcomes).0;
        StepBack(after, merged, chain, k, s);
      }
    }
  }

  lemma StepBack(after: Layers, merged: Layers, chain: seq<string>, k: nat, s: nat)
    requires k + 1 < |chain| && chain[k] in after && chain[k] in merged && merged[chain[k]] == after[chain[k]]
    requires View(merged, chain[k + 1..], s) == View(after, chain[k + 1..], s)
    ensures View(merged, chain[k..], s) == View(after, chain[k..], s)
  {
    assert chain[k..][1..] == chain[k + 1..];
  }

  /** A successful merge: the base image alone reads at every sector as the leaf
      did before, and it is the file the result names. */
  lemma MergedBaseReadsAsLeaf(layers: Layers, chain: seq<string>, outcomes: nat -> CommitOutcome, s: nat)
    requires IsChain(layers, chain) && MergeFrom(layers, chain, 0, outcomes).1.Finished?
    ensures var merged := MergeFrom(layers, chain, 0, outcomes).0;
      var base := chain[|chain| - 1];
      Read(merged, base, s, 1) == Read(layers, chain[0], s, |chain|)
  {
    var merged := MergeFrom(layers, chain, 0, outcomes).0;
    MergeKeepsView(layers, chain, 0, outcomes, s);
    assert chain[0..] == chain;
    ViewIsRead(layers, chain, s);
    var last := chain[|chain| - 1..];
    ChainTail(merged, chain, |chain| - 1);
    ViewIsRead(merged, last, s);
  }

  /** Any merge, also one that failed half-way through a commit: reading through
      the chain gives what it gave before. */
  lemma AnyMergeKeepsTheGuest(layers: Layers, chain: seq<string>, outcomes: nat -> CommitOutcome, s: nat)
    requires IsChain(layers, chain)
    ensures var merged := MergeFrom(layers, chain, 0, outcomes).0;
      IsChain(merged, chain) && Read(merged, chain[0], s, |chain|) == Read(layers, chain[0], s, |chain|)
  {
    MergeKeepsView(layers, chain, 0, outcomes, s);
    assert chain[0..] == chain;
    ViewIsRead(layers, chain, s);
    ViewIsRead(MergeFrom(layers, chain, 0, outcomes).0, chain, s);
  }

  /** A failed merge can be run again: when the second run succeeds, the base
      reads as the leaf did before the first. */
  lemma RetryMerges(layers: Layers, chain: seq<string>, first: nat -> CommitOutcome,
                    second: nat -> CommitOutcome, s: nat)
    requires IsChain(layers, chain)
    requires MergeFrom(MergeFrom(layers, chain, 0, first).0, chain, 0, second).1.Finished?
    ensures var merged := MergeFrom(MergeFrom(layers, chain, 0, first).0, chain, 0, second).0;
      Read(merged, chain[|chain| - 1], s, 1) == Read(layers, chain[0], s, |chain|)
  {
    AnyMergeKeepsTheGuest(layers, chain, first, s);
    MergedBaseReadsAsLeaf(MergeFrom(layers, chain, 0, first).0, chain, second, s);
  }

  /** When commit k fails, exactly the commits before it were made: files after
      the parent of file k are untouched, and file k still holds its sectors. */
  lemma {:induction false} FailureStopsThere(layers: Layers, chain: seq<string>, k: nat, outcomes: nat -> CommitOutcome)
    requires IsChain(layers, chain) && k < |chain|
    requires MergeFrom(layers, chain, k, outcomes).1.CommitError?
    ensures var (merged, stop) := MergeFrom(layers, chain, k, outcomes);
      && k <= stop.index < |chain| - 1
      && (forall i | k <= i < stop.index :: outcomes(i).Committed?) && outcomes(stop.index).Failed?
      && (forall j | stop.index + 1 < j < |chain| ::
            chain[j] in layers && chain[j] in merged && merged[chain[j]] == layers[chain[j]])
      && chain[stop.index] in layers && chain[stop.index] in merged
      && layers[chain[stop.index]].sectors.Keys <= merged[chain[stop.index]].sectors.Keys
    decreases |chain| - k
  {
    var o := outcomes(k);
    var after := Commit(layers, chain[k], o);
    CommitShape(layers, chain, k, o);
    forall j | 0 <= j < |chain| ensures chain[j] in layers && chain[j] in after { assert LinkAt(layers, chain, j); }
    if o.Committed? {
      FailureStopsThere(after, chain, k + 1, outcomes);
      CommitGrows(layers, chain, k, o);
      var stop := MergeFrom(after, chain, k + 1, outcomes).1;
      UntouchedAfter(layers, after, chain, k, stop.index + 1);
      if stop.index > k + 1 {
        ChainDistinct(layers, chain, k, stop.index);
        ChainDistinct(layers, chain, k + 1, stop.index);
      }
    } else {
      UntouchedAfter(layers, after, chain, k, k + 1);
    }
  }

  lemma UntouchedAfter(layers: Layers, after: Layers, chain: seq<string>, k: nat, m: nat)
    requires IsChain(layers, chain) && k + 1 <= m && k + 1 < |chain| && after.Keys == layers.Keys
    requires forall p | p in layers && p != chain[k] && p != chain[k + 1] :: after[p] == layers[p]
    ensures forall j | m < j < |chain| :: chain[j] in layers && after[chain[j]] == layers[chain[j]]
  {
    forall j | m < j < |chain| ensures chain[j] in layers && after[chain[j]] == layers[chain[j]] {
      assert LinkAt(layers, chain, j);
      ChainDistinct(layers, chain, k, j);
      ChainDistinct(layers, chain, k + 1, j);
    }
  }

  lemma CommitGrows(layers: Layers, chain: seq<string>, k: nat, o: CommitOutcome)
    requires IsChain(layers, chain) && k + 1 < |chain|
    ensures var after := Commit(layers, chain[k], o);
      chain[k + 1] in layers && chain[k + 1] in after
      && layers[chain[k + 1]].sectors.Keys <= after[chain[k + 1]].sectors.Keys
  {
    assert LinkAt(layers, chain, k) && LinkAt(layers, chain, k + 1);
    ChainDistinct(layers, chain, k, k + 1);
  }

  /** Once the commits before file m have succeeded, the chain from file m on
      reads as the leaf did, however the merge goes on. */
  lemma {:induction false} MergeReaches(layers: Layers, chain: seq<string>, k: nat, m: nat,
                                        outcomes: nat -> CommitOutcome, s: nat)
    requires IsChain(layers, chain) && k <= m < |chain| && AllCommitted(outcomes, k, m)
    ensures View(MergeFrom(layers, chain, k, outcomes).0, chain[m..], s) == View(layers, chain[k..], s)
    decreases m - k
  {
    hide Commit, View;
    if k == m {
      MergeKeepsView(layers, chain, k, outcomes, s);
    } else {
      CommitShape(layers, chain, k, outcomes(k));
      CommitKeepsView(layers, chain, k, outcomes(k), s);
      MergeReaches(Commit(layers, chain[k], outcomes(k)), chain, k + 1, m, outcomes, s);
    }
  }

  /** A commit leaves the chain after its parent alone. */
  lemma UntouchedView(layers: Layers, chain: seq<string>, k: nat, o: CommitOutcome, m: nat, s: nat)
    requires IsChain(layers, chain) && k + 2 <= m <= |chain|
    ensures View(Commit(layers, chain[k], o), chain[m..], s) == View(layers, chain[m..], s)
  {
    hide View, Commit;
    var after, rest := Commit(layers, chain[k], o), chain[m..];
    CommitShape(layers, chain, k, o);
    forall i | 0 <= i < |rest| ensures rest[i] in layers && rest[i] in after && after[rest[i]] == layers[rest[i]] {
      assert LinkAt(layers, chain, m + i);
      ChainDistinct(layers, chain, k, m + i);
      ChainDistinct(layers, chain, k + 1, m + i);
    }
    ViewAgrees(after, layers, rest, s);
  }

  /** A failed commit has changed its parent at the sectors it copied. */
  lemma FailedCopies(layers: Layers, chain: seq<string>, k: nat, o: CommitOutcome, s: nat)
    requires IsChain(layers, chain) && k + 1 < |chain| && o.Failed?
    ensures View(Commit(layers, chain[k], o), chain[k + 1..], s)
         == if s in o.copied then View(layers, chain[k..], s) else View(layers, chain[k + 1..], s)
  {
    assert LinkAt(layers, chain, k) && LinkAt(layers, chain, k + 1);
    ChainDistinct(layers, chain, k, k + 1);
    UntouchedView(layers, chain, k, o, k + 2, s);
    assert chain[k..][1..] == chain[k + 1..] && chain[k + 1..][1..] == chain[k + 2..];
  }

  /** Whether a merge changes file m at the sector: it got as far as this file, or
      failed inside the commit into it after copying the sector. */
  predicate Disturbed(outcomes: nat -> CommitOutcome, k: nat, m: nat, s: nat)
    requires k < m
  {
    || AllCommitted(outcomes, k, m)
    || (AllCommitted(outcomes, k, m - 1) && outcomes(m - 1).Failed? && s in outcomes(m - 1).copied)
  }

  /** How the chain from file m on reads after any merge. */
  lemma {:induction false} MergedBelow(layers: Layers, chain: seq<string>, k: nat, m: nat,
                                       outcomes: nat -> CommitOutcome, s: nat)
    requires IsChain(layers, chain) && k < m < |chain|
    ensures View(MergeFrom(layers, chain, k, outcomes).0, chain[m..], s)
         == View(layers, if Disturbed(outcomes, k, m, s) then chain[k..] else chain[m..], s)
    decreases m - k
  {
    hide Commit, View, IsChain;
    var o := outcomes(k);
    var after := Commit(layers, chain[k], o);
    CommitShape(layers, chain, k, o);
    CommitKeepsView(layers, chain, k, o, s);
    if k + 1 < m {
      UntouchedView(layers, chain, k, o, m, s);
      if o.Committed? { MergedBelow(after, chain, k + 1, m, outcomes, s); }
    } else if o.Committed? {
      MergeKeepsView(after, chain, m, outcomes, s);
    } else if o.Failed? {
      FailedCopies(layers, chain, k, o, s);
    } else {
      assert after == layers by { MissingKeeps(layers, chain[k]); }
    }
  }

  lemma MissingKeeps(layers: Layers, path: string)
    ensures Commit(layers, path, ToolMissing) == layers
  {
  }

  /** Why a snapshot chain must not be merged while other snapshots hang on it.
      Take another snapshot, backed by file m of the chain, and ANY merge: the
      snapshot reads as before exactly at the sectors that it holds itself, at those
      where file m read as the leaf did, and at those the merge did not get to. */
  lemma SiblingViewIff(layers: Layers, chain: seq<string>, m: nat, sibling: string,
                       outcomes: nat -> CommitOutcome, s: nat)
    requires IsChain(layers, chain) && 1 <= m < |chain| && sibling in layers && sibling !in chain
    ensures var merged := MergeFrom(layers, chain, 0, outcomes).0;
      View(merged, [sibling] + chain[m..], s) == View(layers, [sibling] + chain[m..], s) <==>
      (s in layers[sibling].sectors || View(layers, chain, s) == View(layers, chain[m..], s)
       || !Disturbed(outcomes, 0, m, s))
  {
    var merged := MergeFrom(layers, chain, 0, outcomes).0;
    MergeKeepsView(layers, chain, 0, outcomes, s);
    MergedBelow(layers, chain, 0, m, outcomes, s);
    hide MergeFrom, IsChain, Disturbed;
    assert chain[0..] == chain;
    assert sibling in merged && merged[sibling] == layers[sibling];
    assert ([sibling] + chain[m..])[1..] == chain[m..];
  }

  /** Two snapshots of one base: after the first is merged the second reads what
      the first had written. */
  lemma SiblingChanges(layers: Layers, outcomes: nat -> CommitOutcome)
    requires layers == map["base" := Layer(map[7 := 1], None), "a" := Layer(map[7 := 2], Some("base")),
                           "b" := Layer(map[], Some("base"))]
    requires outcomes(0).Committed?
    ensures IsChain(layers, ["a", "base"]) && IsChain(layers, ["b", "base"])
    ensures var merged := MergeFrom(layers, ["a", "base"], 0, outcomes).0;
      View(layers, ["b", "base"], 7) == 1 && View(merged, ["b", "base"], 7) == 2
  {
    var chain := ["a", "base"];
    assert |"a"| == 1 && |"b"| == 1 && |"base"| == 4 && "a"[0] != "b"[0];
    assert LinkAt(layers, chain, 0) && LinkAt(layers, chain, 1);
    assert LinkAt(layers, ["b", "base"], 0) && LinkAt(layers, ["b", "base"], 1);
    MergeReaches(layers, chain, 0, 1, outcomes, 7);
    MergeKeepsView(layers, chain, 0, outcomes, 7);
    var merged := MergeFrom(layers, chain, 0, outcomes).0;
    hide MergeFrom, Commit;
    assert chain[1..] == ["base"] && chain[0..] == chain && ["b", "base"][1..] == ["base"];
    assert merged["b"] == layers["b"];
  }
}
