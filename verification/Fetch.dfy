/** Whether to fetch (internal/fetch/fetch.go). */
module Fetch {
  import opened Snapshot
  import opened LedgerSpec
  import LedgerProperties

  datatype Advice =
    | AdviceFetch
    | AdviceFetchFull
    | AdviceFetchIncremental
    | AdviceRemoteIsOlder
    | AdviceNothingFound
    | AdviceUpToDate

  /** The conversion int64(x) of an unsigned 64-bit integer. */
  function Int64(x: uint64): int {
    if x < TWO_TO_THE_63 then x else x - TWO_TO_THE_64
  }

  /** Subtraction of signed 64-bit integers. */
  function SubWrapping(a: int, b: int): int {
    var d := a - b;
    if d >= TWO_TO_THE_63 then d - TWO_TO_THE_64
    else if d < -TWO_TO_THE_63 then d + TWO_TO_THE_64
    else d
  }

  /** The age test as it is computed. */
  predicate NotNewEnough(remoteSlot: uint64, localSlot: uint64, minAge: uint64) {
    SubWrapping(Int64(remoteSlot), Int64(localSlot)) < Int64(minAge)
  }

  ghost predicate ShareFullFile(local: seq<SnapshotFile>, remote: seq<SnapshotFile>) {
    exists l, r :: l in local && r in remote && l.IsFull() && r.IsFull() && l.hash == r.hash
  }

  function HeadSlot(infos: seq<SnapshotInfo>): uint64 {
    if infos == [] then 0 else infos[0].slot
  }

  function HeadBaseSlot(infos: seq<SnapshotInfo>): uint64 {
    if infos == [] then 0 else infos[0].baseSlot
  }

  /** The decision on all inputs, wrap-around included. */
  ghost function Decide(local: seq<SnapshotInfo>, remote: seq<SnapshotSource>, minAge: uint64, maxAge: uint64)
    : (uint64, Advice)
  {
    if remote == [] then (0, AdviceNothingFound)
    else
      var r := remote[0].info;
      if NotNewEnough(r.slot, HeadSlot(local), minAge) then (0, AdviceUpToDate)
      else
        var minSlot := if maxAge < r.slot then r.slot - maxAge else 0;
        var base := HeadBaseSlot(local);
        if base < r.baseSlot then (minSlot, AdviceFetchFull)
        else if local == [] || base != r.baseSlot then (minSlot, AdviceRemoteIsOlder)
        else if ShareFullFile(local[0].files, r.files) then (minSlot, AdviceFetchIncremental)
        else (minSlot, AdviceFetch)
  }

  method ShouldFetchSnapshot(
    local: seq<SnapshotInfo>, remote: seq<SnapshotSource>, minAge: uint64, maxAge: uint64)
    returns (minSlot: uint64, advice: Advice)
    ensures (minSlot, advice) == Decide(local, remote, minAge, maxAge)
  {
    minSlot := 0;
    if |remote| == 0 {
      advice := AdviceNothingFound;
      return;
    }
    var remoteSlot := remote[0].info.slot;
    var localSlot: uint64 := 0;
    var localBaseSlot: uint64 := 0;
    if |local| > 0 {
      localSlot := local[0].slot;
      localBaseSlot := local[0].baseSlot;
    }
    if SubWrapping(Int64(remoteSlot), Int64(localSlot)) < Int64(minAge) {
      advice := AdviceUpToDate;
      return;
    }
    if maxAge < remoteSlot {
      minSlot := remoteSlot - maxAge;
    }
    if localBaseSlot < remote[0].info.baseSlot {
      advice := AdviceFetchFull;
      return;
    } else if |local| > 0 && localBaseSlot == remote[0].info.baseSlot {
      var ls, rs := local[0].files, remote[0].info.files;
      for i := 0 to |ls|
        invariant !ShareFullFile(ls[..i], rs)
      {
        for j := 0 to |rs|
          invariant !ShareFullFile(ls[..i], rs)
          invariant !ShareFullFile([ls[i]], rs[..j])
        {
          if ls[i].baseSlot == 0 && rs[j].baseSlot == 0 {
            if ls[i].hash == rs[j].hash {
              advice := AdviceFetchIncremental;
              return;
            }
          }
        }
        assert rs[..|rs|] == rs;
        assert ls[..i + 1] == ls[..i] + [ls[i]];
      }
      assert ls[..|ls|] == ls;
    } else {
      advice := AdviceRemoteIsOlder;
      return;
    }
    advice := AdviceFetch;
  }

  // ---- What the decision means

  /** The documented age test, "the difference between remote and local is smaller than minAge", is
      computed on signed integers and wraps. It is the documented one exactly in these cases. */
  lemma AgeTestIsExactIff(remoteSlot: uint64, localSlot: uint64, minAge: uint64)
    ensures
      var d := remoteSlot - localSlot;
      (NotNewEnough(remoteSlot, localSlot, minAge) <==> d < minAge)
      <==>
      if minAge < TWO_TO_THE_63
      then -TWO_TO_THE_63 <= d < TWO_TO_THE_63 || d + TWO_TO_THE_64 < minAge
      else d >= TWO_TO_THE_63 || -TWO_TO_THE_63 <= d < minAge - TWO_TO_THE_64
  {
  }

  /** A minimum age of 2^63 is read as negative, so a remote that is one slot newer is fetched. */
  lemma HugeMinAgeFetches()
    ensures !NotNewEnough(101, 100, TWO_TO_THE_63)
    ensures 101 - 100 < TWO_TO_THE_63
  {
  }

  /** On all inputs: which advice is given when, and the minimum slot that comes with it. An empty
      listing counts as slot 0. */
  lemma AdviceTable(local: seq<SnapshotInfo>, remote: seq<SnapshotSource>, minAge: uint64, maxAge: uint64)
    ensures
      var (minSlot, advice) := Decide(local, remote, minAge, maxAge);
      if remote == [] then advice == AdviceNothingFound && minSlot == 0
      else
        var r := remote[0].info;
        var slot, base := if local == [] then 0 else local[0].slot, if local == [] then 0 else local[0].baseSlot;
        && advice != AdviceNothingFound
        && (advice == AdviceUpToDate <==> NotNewEnough(r.slot, slot, minAge))
        && (advice == AdviceUpToDate ==> minSlot == 0)
        && (advice != AdviceUpToDate ==>
              && minSlot == (if r.slot > maxAge then r.slot - maxAge else 0)
              && (advice == AdviceFetchFull <==> base < r.baseSlot)
              && (advice == AdviceRemoteIsOlder <==> base > r.baseSlot || (local == [] && r.baseSlot == 0))
              && (advice == AdviceFetchIncremental <==>
                    && local != [] && base == r.baseSlot
                    && exists f, g ::
                         f in local[0].files && g in r.files && f.IsFull() && g.IsFull() && f.hash == g.hash))
  {
  }

  /** A snapshot as a ledger listing reports it: a complete chain and the summary of that chain. */
  ghost predicate IsChainInfo(info: SnapshotInfo) {
    && info.files != []
    && AllWellFormed(info.files)
    && IsCompleteChain(info.files, info.files)
    && info == InfoOfChain(info.files)
  }

  lemma {:induction false} ChainWithinItself(files: seq<SnapshotFile>, all: seq<SnapshotFile>, chain: seq<SnapshotFile>)
    requires IsCompleteChain(files, chain) && forall f :: f in chain ==> f in all
    ensures IsCompleteChain(all, chain)
    decreases |chain|
  {
    if |chain| > 1 {
      assert forall f :: f in chain[1..] ==> f in chain;
      ChainWithinItself(files, all, chain[1..]);
    }
  }

  lemma ListedInfosAreChains(files: seq<SnapshotFile>, info: SnapshotInfo)
    requires AllWellFormed(files) && info in Listing(files)
    ensures IsChainInfo(info)
  {
    LedgerProperties.ListTargetsContents(files, files, info);
    var t :| t in files && Listed(files, t) && GreedyChain(files, t).value != []
             && info == InfoOfChain(GreedyChain(files, t).value);
    GreedyChainSound(files, t);
    ChainShape(files, info.files);
    ChainWithinItself(files, info.files, info.files);
  }

  lemma FullFileIsLast(info: SnapshotInfo, f: SnapshotFile)
    requires IsChainInfo(info) && f in info.files
    ensures f.IsFull() <==> f == info.files[|info.files| - 1]
    ensures info.slot >= info.baseSlot
    ensures info.slot > info.baseSlot <==> |info.files| > 1
  {
    ChainShape(info.files, info.files);
  }

  function RootHash(info: SnapshotInfo): Hash
    requires info.files != []
  {
    info.files[|info.files| - 1].hash
  }

  /** The decision in plain integers, looking only at the full file each snapshot rests on. */
  ghost function Intended(local: seq<SnapshotInfo>, r: SnapshotInfo, minAge: nat): Advice
    requires r.files != [] && (local != [] ==> local[0].files != [])
  {
    if r.slot < HeadSlot(local) + minAge then AdviceUpToDate
    else if HeadBaseSlot(local) < r.baseSlot then AdviceFetchFull
    else if local == [] || HeadBaseSlot(local) > r.baseSlot then AdviceRemoteIsOlder
    else if RootHash(local[0]) == RootHash(r) then AdviceFetchIncremental
    else AdviceFetch
  }

  /** The nested scan finds a common full file exactly when the last files agree in hash. */
  lemma ShareFullFileIff(l: SnapshotInfo, r: SnapshotInfo)
    requires IsChainInfo(l) && IsChainInfo(r)
    ensures ShareFullFile(l.files, r.files) <==> RootHash(l) == RootHash(r)
  {
    var lRoot, rRoot := l.files[|l.files| - 1], r.files[|r.files| - 1];
    assert lRoot in l.files && rRoot in r.files;
    FullFileIsLast(l, lRoot);
    FullFileIsLast(r, rRoot);
    if ShareFullFile(l.files, r.files) {
      var f, g :| f in l.files && g in r.files && f.IsFull() && g.IsFull() && f.hash == g.hash;
      FullFileIsLast(l, f);
      FullFileIsLast(r, g);
    }
  }

  /** Between ledgers, and below 2^63, the computed decision is the intended one. */
  lemma DecisionIsExact(local: seq<SnapshotInfo>, remote: seq<SnapshotSource>, minAge: uint64, maxAge: uint64)
    requires remote != [] && IsChainInfo(remote[0].info)
    requires local != [] ==> IsChainInfo(local[0])
    requires remote[0].info.slot < TWO_TO_THE_63 && HeadSlot(local) < TWO_TO_THE_63 && minAge < TWO_TO_THE_63
    ensures
      var (minSlot, advice) := Decide(local, remote, minAge, maxAge);
      var r := remote[0].info;
      && advice == Intended(local, r, minAge)
      && (advice != AdviceUpToDate ==> minSlot == if r.slot > maxAge then r.slot - maxAge else 0)
      && (advice == AdviceFetchIncremental && minAge > 0 ==>
            |r.files| > 1 && !r.files[0].IsFull())
  {
    var r := remote[0].info;
    AgeTestIsExactIff(r.slot, HeadSlot(local), minAge);
    assert r.files[0] in r.files;
    FullFileIsLast(r, r.files[0]);
    if local != [] {
      ShareFullFileIff(local[0], r);
      FullFileIsLast(local[0], local[0].files[0]);
    }
  }
}
