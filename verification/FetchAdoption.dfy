/** A chain that has been copied into a ledger: when the ledger lists it, and how. */
module FetchAdoption {
  import opened Snapshot
  import opened LedgerSpec
  import opened LedgerProperties
  import opened Fetch

  /** after is the ledger once it has received the downloads. Only ranking keys matter: a download
      may replace a file of the same name, and sizes and times may differ. */
  ghost predicate Gained(local: seq<SnapshotFile>, downloads: seq<SnapshotFile>, after: seq<SnapshotFile>) {
    forall key :: key in Keys(after) <==> key in Keys(local) || key in Keys(downloads)
  }

  ghost predicate IsChain(chain: seq<SnapshotFile>) {
    chain != [] && AllWellFormed(chain) && IsCompleteChain(chain, chain)
  }

  /** The ledger afterwards holds the local files, the chain, and nothing else. */
  ghost predicate Adopts(local: seq<SnapshotFile>, chain: seq<SnapshotFile>, after: seq<SnapshotFile>) {
    && AllWellFormed(local) && AllWellFormed(after)
    && IsChain(chain)
    && (forall i :: 0 <= i < |chain| ==> KeyOf(chain[i]) in Keys(after))
    && (forall key :: key in Keys(local) ==> key in Keys(after))
    && (forall key :: key in Keys(after) ==> key in Keys(local) || key in Keys(chain))
  }

  // ---- Local files that outrank the chain

  /** The best local file at one of the chain's slots outranks the chain's file there. */
  predicate Outranks(local: seq<SnapshotFile>, chain: seq<SnapshotFile>, i: nat)
    requires i < |chain|
  {
    var best := BestAt(local, chain[i].slot);
    best.Some? && Compare(chain[i], best.value) < 0
  }

  /** No local file outranks the chain at a slot it builds on. */
  ghost predicate NotOutranked(local: seq<SnapshotFile>, chain: seq<SnapshotFile>) {
    forall i :: 1 <= i < |chain| ==> !Outranks(local, chain, i)
  }

  /** It does, and it also builds on another slot, so the search leaves the chain there. */
  predicate Detours(local: seq<SnapshotFile>, chain: seq<SnapshotFile>, i: nat)
    requires i < |chain|
  {
    Outranks(local, chain, i) && BestAt(local, chain[i].slot).value.baseSlot != chain[i].baseSlot
  }

  /** The first index from i on at which the search leaves the chain, or the chain's length. */
  function FirstDetour(local: seq<SnapshotFile>, chain: seq<SnapshotFile>, i: nat): (d: nat)
    requires i <= |chain|
    ensures i <= d <= |chain|
    ensures d < |chain| ==> Detours(local, chain, d)
    ensures forall k :: i <= k < d ==> !Detours(local, chain, k)
    decreases |chain| - i
  {
    if i == |chain| || Detours(local, chain, i) then i else FirstDetour(local, chain, i + 1)
  }

  /** The search follows the chain to its end, or leaves it for a local file that, among the local
      files and the chain's, has a complete chain of its own. */
  ghost predicate CanReach(local: seq<SnapshotFile>, chain: seq<SnapshotFile>)
    requires AllWellFormed(local) && IsChain(chain)
  {
    var d := FirstDetour(local, chain, 1);
    d == |chain| || Listed(local + chain, BestAt(local, chain[d].slot).value)
  }

  /** No local file outranks an incremental that the chain builds on. Chains of one or two files, the
      usual ones, build on none. */
  ghost predicate LinksNotOutranked(local: seq<SnapshotFile>, chain: seq<SnapshotFile>) {
    forall i :: 1 <= i < |chain| - 1 ==> !Outranks(local, chain, i)
  }

  /** The full file at the end needs no condition: only a full file of its slot outranks it, and the
      search ends there just as well. */
  lemma ReachesUnlessOutranked(local: seq<SnapshotFile>, chain: seq<SnapshotFile>)
    requires AllWellFormed(local) && IsChain(chain) && LinksNotOutranked(local, chain)
    ensures CanReach(local, chain)
  {
    LinkOfChain(chain, |chain| - 1);
    assert !Detours(local, chain, |chain| - 1);
  }

  // ---- The search in the ledger afterwards

  /** Once the chain is adopted, the best file at one of its slots is the local best if that outranks
      the chain's file, and the chain's file otherwise. */
  lemma BestOnceAdopted(local: seq<SnapshotFile>, chain: seq<SnapshotFile>, after: seq<SnapshotFile>, i: nat)
    requires Adopts(local, chain, after) && i < |chain|
    ensures BestAt(after, chain[i].slot).Some?
    ensures KeyOf(BestAt(after, chain[i].slot).value)
         == if Outranks(local, chain, i) then KeyOf(BestAt(local, chain[i].slot).value) else KeyOf(chain[i])
  {
    var slot := chain[i].slot;
    var own := FileOfKey(after, KeyOf(chain[i]));
    assert own in after && own.slot == slot;
    var best := BestAt(after, slot).value;
    assert Compare(best, own) >= 0;
    CompareKeys(best, own, best, chain[i]);
    var source := Origin(local, chain, after, i, best);
    LocalBestArrives(local, chain, after, slot, best);
    CompareIsTotalPreorder(best, chain[i]);
    if KeyOf(best) != KeyOf(chain[i]) {
      var localBest := BestAt(local, slot).value;
      assert Compare(localBest, source) >= 0;
      CompareKeys(localBest, source, localBest, best);
      CompareIsTotalPreorder(localBest, best);
      CompareKeys(chain[i], localBest, chain[i], best);
    } else if Outranks(local, chain, i) {
      var localBest := BestAt(local, slot).value;
      CompareKeys(best, localBest, chain[i], localBest);
    }
  }

  /** A file of the ledger afterwards at one of the chain's slots is the chain's, or a local one. */
  lemma Origin(local: seq<SnapshotFile>, chain: seq<SnapshotFile>, after: seq<SnapshotFile>, i: nat, f: SnapshotFile)
    returns (source: SnapshotFile)
    requires Adopts(local, chain, after) && i < |chain| && f in after && f.slot == chain[i].slot
    ensures KeyOf(source) == KeyOf(f)
    ensures KeyOf(f) == KeyOf(chain[i]) || source in local
  {
    KeysHold(after, f);
    source := f;
    if KeyOf(f) in Keys(local) {
      source := FileOfKey(local, KeyOf(f));
    } else {
      ChainShape(chain, chain);
      var j :| 0 <= j < |chain| && Keys(chain)[j] == KeyOf(f);
      assert chain[j].slot == chain[i].slot;
    }
  }

  /** The best file afterwards is at least as good as the local best. */
  lemma LocalBestArrives(
    local: seq<SnapshotFile>, chain: seq<SnapshotFile>, after: seq<SnapshotFile>, slot: uint64, best: SnapshotFile)
    requires Adopts(local, chain, after) && IsBest(after, slot, best)
    ensures BestAt(local, slot).Some? ==> Compare(best, BestAt(local, slot).value) >= 0
  {
    if BestAt(local, slot).Some? {
      var localBest := BestAt(local, slot).value;
      KeysHold(local, localBest);
      var copy := FileOfKey(after, KeyOf(localBest));
      assert copy.slot == slot && Compare(best, copy) >= 0;
      CompareKeys(best, copy, best, localBest);
    }
  }

  lemma LinkOfChain(chain: seq<SnapshotFile>, i: nat)
    requires IsChain(chain) && i < |chain|
    ensures chain[i].IsFull() <==> i == |chain| - 1
    ensures i < |chain| - 1 ==> chain[i].baseSlot == chain[i + 1].slot
  {
    ChainShape(chain, chain);
  }

  /** At the chain's slots from i on, the best file afterwards is the chain's. */
  ghost predicate BestFollows(chain: seq<SnapshotFile>, after: seq<SnapshotFile>) {
    forall i :: 1 <= i < |chain| ==>
      BestAt(after, chain[i].slot).Some? && KeyOf(BestAt(after, chain[i].slot).value) == KeyOf(chain[i])
  }

  lemma BestIsChainFile(local: seq<SnapshotFile>, chain: seq<SnapshotFile>, after: seq<SnapshotFile>)
    requires Adopts(local, chain, after) && NotOutranked(local, chain)
    ensures BestFollows(chain, after)
  {
    forall i | 1 <= i < |chain|
      ensures BestAt(after, chain[i].slot).Some? && KeyOf(BestAt(after, chain[i].slot).value) == KeyOf(chain[i])
    {
      BestOnceAdopted(local, chain, after, i);
    }
  }

  lemma KeysStep(f: SnapshotFile, rest: seq<SnapshotFile>, chain: seq<SnapshotFile>, i: nat)
    requires i < |chain| && KeyOf(f) == KeyOf(chain[i]) && Keys(rest) == Keys(chain[i + 1..])
    ensures Keys([f] + rest) == Keys(chain[i..])
  {
    KeysOfConcat([f], rest);
    KeysOfConcat([chain[i]], chain[i + 1..]);
    assert chain[i..] == [chain[i]] + chain[i + 1..];
    assert Keys([f]) == Keys([chain[i]]);
  }

  lemma {:induction false} WalkFollowsChain(chain: seq<SnapshotFile>, after: seq<SnapshotFile>, i: nat, f: SnapshotFile)
    requires IsChain(chain) && AllWellFormed(after) && BestFollows(chain, after)
    requires i < |chain| && WellFormed(f) && KeyOf(f) == KeyOf(chain[i])
    ensures Listed(after, f) && Keys(GreedyChain(after, f).value) == Keys(chain[i..])
    decreases |chain| - i
  {
    LinkOfChain(chain, i);
    if i == |chain| - 1 {
      KeysStep(f, [], chain, i);
    } else {
      var best := BestAt(after, chain[i + 1].slot).value;
      WalkFollowsChain(chain, after, i + 1, best);
      KeysStep(f, GreedyChain(after, best).value, chain, i);
    }
  }

  /** f is listed with a chain that reproduces the given one, file by file. */
  ghost predicate Reproduces(after: seq<SnapshotFile>, f: SnapshotFile, chain: seq<SnapshotFile>)
    requires AllWellFormed(after) && WellFormed(f)
  {
    Listed(after, f) && Keys(GreedyChain(after, f).value) == Keys(chain)
  }

  lemma ReproducedIsNotOutranked(
    local: seq<SnapshotFile>, chain: seq<SnapshotFile>, after: seq<SnapshotFile>, f: SnapshotFile, i: nat)
    requires Adopts(local, chain, after) && WellFormed(f) && Reproduces(after, f, chain)
    requires 1 <= i < |chain|
    ensures !Outranks(local, chain, i)
  {
    var walk := GreedyChain(after, f).value;
    GreedyChainSound(after, f);
    assert KeyOf(walk[i]) == Keys(walk)[i] == Keys(chain)[i] == KeyOf(chain[i]);
    BestOnceAdopted(local, chain, after, i);
    var best := BestAt(after, chain[i].slot).value;
    assert Compare(walk[i], best) >= 0 && Compare(best, walk[i]) >= 0;
    CompareIsTotalPreorder(best, walk[i]);
    if Outranks(local, chain, i) {
      var localBest := BestAt(local, chain[i].slot).value;
      CompareKeys(chain[i], localBest, walk[i], best);
    }
  }

  /** The chain is listed as it is, unless a local file outranks it at a slot it builds on. */
  lemma ReproducedIff(local: seq<SnapshotFile>, chain: seq<SnapshotFile>, after: seq<SnapshotFile>, f: SnapshotFile)
    requires Adopts(local, chain, after) && WellFormed(f) && KeyOf(f) == KeyOf(chain[0])
    ensures Reproduces(after, f, chain) <==> NotOutranked(local, chain)
  {
    if NotOutranked(local, chain) {
      BestIsChainFile(local, chain, after);
      WalkFollowsChain(chain, after, 0, f);
      assert chain[0..] == chain;
    }
    if Reproduces(after, f, chain) {
      forall i | 1 <= i < |chain| ensures !Outranks(local, chain, i) {
        ReproducedIsNotOutranked(local, chain, after, f, i);
      }
    }
  }

  /** Where the search does not leave the chain it finds a file with the chain's base slot. */
  lemma BestKeepsBase(local: seq<SnapshotFile>, chain: seq<SnapshotFile>, after: seq<SnapshotFile>, i: nat)
    requires Adopts(local, chain, after) && i < |chain| && !Detours(local, chain, i)
    ensures BestAt(after, chain[i].slot).Some?
    ensures BestAt(after, chain[i].slot).value.baseSlot == chain[i].baseSlot
  {
    BestOnceAdopted(local, chain, after, i);
  }

  /** A search that has come to a file with the base slot of chain[i] ends well exactly when it ends
      well from the first detour on, if there is one. */
  lemma {:induction false} WalkToDetour(
    local: seq<SnapshotFile>, chain: seq<SnapshotFile>, after: seq<SnapshotFile>, i: nat, f: SnapshotFile)
    requires Adopts(local, chain, after)
    requires i < |chain| && WellFormed(f) && f.baseSlot == chain[i].baseSlot
    ensures
      var d := FirstDetour(local, chain, i + 1);
      if d == |chain| then Listed(after, f)
      else BestAt(after, chain[d].slot).Some?
           && (Listed(after, f) <==> Listed(after, BestAt(after, chain[d].slot).value))
    decreases |chain| - i
  {
    LinkOfChain(chain, i);
    if i < |chain| - 1 {
      if Detours(local, chain, i + 1) {
        BestOnceAdopted(local, chain, after, i + 1);
      } else {
        BestKeepsBase(local, chain, after, i + 1);
        WalkToDetour(local, chain, after, i + 1, BestAt(after, chain[i + 1].slot).value);
      }
    }
  }

  lemma AdoptedKeys(local: seq<SnapshotFile>, chain: seq<SnapshotFile>, after: seq<SnapshotFile>)
    requires Adopts(local, chain, after)
    ensures SameKeys(after, local + chain)
  {
    KeysOfConcat(local, chain);
    forall key | key in Keys(chain) ensures key in Keys(after) {
      var i :| 0 <= i < |chain| && Keys(chain)[i] == key;
      assert KeyOf(chain[i]) in Keys(after);
    }
  }

  /** The file that stands for the chain's snapshot is listed exactly when the search can reach a full
      file, which the local files and the chain decide. */
  lemma AdoptedIsListedIff(
    local: seq<SnapshotFile>, chain: seq<SnapshotFile>, after: seq<SnapshotFile>, f: SnapshotFile)
    requires Adopts(local, chain, after) && WellFormed(f) && KeyOf(f) == KeyOf(chain[0])
    ensures Listed(after, f) <==> CanReach(local, chain)
  {
    WalkToDetour(local, chain, after, 0, f);
    var d := FirstDetour(local, chain, 1);
    if d < |chain| {
      BestOnceAdopted(local, chain, after, d);
      AdoptedKeys(local, chain, after);
      ChainKeysAreUnique(after, local + chain, BestAt(after, chain[d].slot).value, BestAt(local, chain[d].slot).value);
    }
  }

  // ---- What the next decision is

  ghost predicate SlotsFitInt64(files: seq<SnapshotFile>) {
    forall f :: f in files ==> f.slot < TWO_TO_THE_63
  }

  lemma AdoptedFitsInt64(local: seq<SnapshotFile>, chain: seq<SnapshotFile>, after: seq<SnapshotFile>)
    requires Adopts(local, chain, after) && SlotsFitInt64(local) && SlotsFitInt64(chain)
    ensures SlotsFitInt64(after)
  {
    forall f | f in after ensures f.slot < TWO_TO_THE_63 {
      KeysHold(after, f);
      if KeyOf(f) in Keys(local) {
        var g := FileOfKey(local, KeyOf(f));
      } else {
        var g := FileOfKey(chain, KeyOf(f));
      }
    }
  }

  lemma HeadFitsInt64(files: seq<SnapshotFile>)
    requires AllWellFormed(files) && Sorted(files) && SlotsFitInt64(files)
    ensures HeadSlot(Listing(files)) < TWO_TO_THE_63
  {
    ListTargetsSorted(files, files);
    if Listing(files) != [] {
      assert EndsIn(Listing(files)[0], files);
    }
  }

  /** What every adoption of a chain achieves.
      - The files that stand for its snapshot are listed with the very chain if and only if no local
        file outranks it, and listed at all if and only if the search can reach a full file.
      - If they are, the listing has caught up with the chain. This is always so for a chain of one or
        two files, and for longer ones unless a local file outranks an incremental it builds on.
      - The next decision about a remote is "up to date" exactly when the remote is not newer than the
        head of the listing by the minimum age. */
  ghost predicate Converges(
    local: seq<SnapshotFile>, chain: seq<SnapshotFile>, after: seq<SnapshotFile>,
    remote: seq<SnapshotSource>, minAge: uint64, maxAge: uint64)
    requires AllWellFormed(local) && AllWellFormed(after) && IsChain(chain) && remote != []
  {
    && (forall f :: f in after && KeyOf(f) == KeyOf(chain[0]) ==>
          && (Reproduces(after, f, chain) <==> NotOutranked(local, chain))
          && (Listed(after, f) <==> CanReach(local, chain)))
    && (LinksNotOutranked(local, chain) ==> CanReach(local, chain))
    && (CanReach(local, chain) ==> HeadSlot(Listing(after)) >= chain[0].slot)
    && (Decide(Listing(after), remote, minAge, maxAge).1 == AdviceUpToDate
        <==> remote[0].info.slot < HeadSlot(Listing(after)) + minAge)
  }

  lemma AdoptedHead(local: seq<SnapshotFile>, chain: seq<SnapshotFile>, after: seq<SnapshotFile>)
    requires Adopts(local, chain, after) && Sorted(after) && CanReach(local, chain)
    ensures Listing(after) != []
    ensures HeadSlot(Listing(after)) >= chain[0].slot
  {
    var f := FileOfKey(after, KeyOf(chain[0]));
    AdoptedIsListedIff(local, chain, after, f);
    HeadOfListing(after, f);
  }

  /** In ordinary numbers: the decision is to do nothing when the head is recent enough. */
  lemma NextDecisionIff(files: seq<SnapshotFile>, remote: seq<SnapshotSource>, minAge: uint64, maxAge: uint64)
    requires AllWellFormed(files) && Sorted(files) && SlotsFitInt64(files)
    requires remote != [] && remote[0].info.slot < TWO_TO_THE_63 && minAge < TWO_TO_THE_63
    ensures Decide(Listing(files), remote, minAge, maxAge).1 == AdviceUpToDate
            <==> remote[0].info.slot < HeadSlot(Listing(files)) + minAge
  {
    HeadFitsInt64(files);
    AgeTestIsExactIff(remote[0].info.slot, HeadSlot(Listing(files)), minAge);
  }

  lemma AdoptedConverges(
    local: seq<SnapshotFile>, chain: seq<SnapshotFile>, after: seq<SnapshotFile>,
    remote: seq<SnapshotSource>, minAge: uint64, maxAge: uint64)
    requires Adopts(local, chain, after) && Sorted(after)
    requires SlotsFitInt64(local) && SlotsFitInt64(chain)
    requires remote != [] && remote[0].info.slot < TWO_TO_THE_63 && minAge < TWO_TO_THE_63
    ensures Converges(local, chain, after, remote, minAge, maxAge)
  {
    forall f | f in after && KeyOf(f) == KeyOf(chain[0])
      ensures Reproduces(after, f, chain) <==> NotOutranked(local, chain)
      ensures Listed(after, f) <==> CanReach(local, chain)
    {
      ReproducedIff(local, chain, after, f);
      AdoptedIsListedIff(local, chain, after, f);
    }
    if LinksNotOutranked(local, chain) {
      ReachesUnlessOutranked(local, chain);
    }
    if CanReach(local, chain) {
      AdoptedHead(local, chain, after);
    }
    AdoptedFitsInt64(local, chain, after);
    NextDecisionIff(after, remote, minAge, maxAge);
  }

  // ---- How a chain gets into a ledger

  /** The incrementals of a chain on another full file of the same slot. */
  function Rebased(chain: seq<SnapshotFile>, root: SnapshotFile): seq<SnapshotFile>
    requires chain != []
  {
    chain[..|chain| - 1] + [root]
  }

  lemma {:induction false} RebaseChain(
    dir: seq<SnapshotFile>, chain: seq<SnapshotFile>, root: SnapshotFile, all: seq<SnapshotFile>)
    requires IsCompleteChain(dir, chain) && root.IsFull() && root.slot == chain[|chain| - 1].slot
    requires root in all && forall f :: f in chain[..|chain| - 1] ==> f in all
    ensures IsCompleteChain(all, Rebased(chain, root))
    decreases |chain|
  {
    if |chain| == 1 {
      assert Rebased(chain, root) == [root];
    } else {
      var tail := chain[1..];
      assert tail[..|tail| - 1] == chain[..|chain| - 1][1..];
      forall f | f in tail[..|tail| - 1] ensures f in all {
        assert f in chain[..|chain| - 1];
      }
      RebaseChain(dir, tail, root, all);
      assert Rebased(chain, root)[1..] == Rebased(tail, root);
      assert |tail| > 1 ==> chain[1] in chain[..|chain| - 1];
    }
  }

  lemma RebasedIsChain(info: SnapshotInfo, root: SnapshotFile)
    requires IsChainInfo(info) && root.IsFull() && root.slot == info.baseSlot
    ensures IsChain(Rebased(info.files, root))
    ensures Rebased(info.files, root)[0].slot == info.slot
  {
    RebaseChain(info.files, info.files, root, Rebased(info.files, root));
  }

  lemma RebasedKeys(chain: seq<SnapshotFile>, root: SnapshotFile)
    requires chain != []
    ensures Keys(Rebased(chain, root)) == Keys(chain[..|chain| - 1]) + [KeyOf(root)]
    ensures KeyOf(root) == KeyOf(chain[|chain| - 1]) ==> Keys(Rebased(chain, root)) == Keys(chain)
  {
    KeysOfConcat(chain[..|chain| - 1], [root]);
    KeysOfConcat(chain[..|chain| - 1], [chain[|chain| - 1]]);
    assert chain == chain[..|chain| - 1] + [chain[|chain| - 1]];
  }

  lemma AdoptedByKeys(local: seq<SnapshotFile>, chain: seq<SnapshotFile>, after: seq<SnapshotFile>)
    requires AllWellFormed(local) && AllWellFormed(after) && IsChain(chain)
    requires forall key :: key in Keys(after) <==> key in Keys(local) || key in Keys(chain)
    ensures Adopts(local, chain, after)
  {
    forall i | 0 <= i < |chain| ensures KeyOf(chain[i]) in Keys(after) {
      KeysHold(chain, chain[i]);
    }
  }

  /** A chain's incrementals, added to a ledger that has a full file at the chain's base slot. */
  lemma IncrementalsAdopted(local: seq<SnapshotFile>, info: SnapshotInfo, root: SnapshotFile, after: seq<SnapshotFile>)
    requires AllWellFormed(local) && AllWellFormed(after)
    requires IsChainInfo(info) && root.IsFull() && root.slot == info.baseSlot && root in local
    requires Gained(local, info.files[..|info.files| - 1], after)
    ensures Adopts(local, Rebased(info.files, root), after)
  {
    RebasedIsChain(info, root);
    RebasedKeys(info.files, root);
    KeysHold(local, root);
    AdoptedByKeys(local, Rebased(info.files, root), after);
  }

  /** A full file and the incrementals of a chain on its slot. */
  lemma BothPassesAdopted(local: seq<SnapshotFile>, info: SnapshotInfo, root: SnapshotFile, after: seq<SnapshotFile>)
    requires AllWellFormed(local) && AllWellFormed(after)
    requires IsChainInfo(info) && root.IsFull() && root.slot == info.baseSlot
    requires Gained(local, [root] + info.files[..|info.files| - 1], after)
    ensures Adopts(local, Rebased(info.files, root), after)
  {
    RebasedIsChain(info, root);
    RebasedKeys(info.files, root);
    KeysOfConcat([root], info.files[..|info.files| - 1]);
    assert Keys([root]) == [KeyOf(root)];
    AdoptedByKeys(local, Rebased(info.files, root), after);
  }

  lemma RebasedFitsInt64(info: SnapshotInfo, root: SnapshotFile)
    requires IsChainInfo(info) && info.slot < TWO_TO_THE_63 && root.slot == info.baseSlot
    ensures SlotsFitInt64(Rebased(info.files, root))
  {
    ChainShape(info.files, info.files);
  }

  /** A chain of two on the best local full file of its base slot is outranked by nothing local. */
  lemma TwoFileChain(local: seq<SnapshotFile>, chain: seq<SnapshotFile>, root: SnapshotFile)
    requires |chain| == 2 && KeyOf(chain[1]) == KeyOf(root) && IsBest(local, root.slot, root)
    ensures NotOutranked(local, chain)
  {
    var best := BestAt(local, root.slot).value;
    assert Compare(root, best) >= 0;
    CompareKeys(root, best, chain[1], best);
  }
}
