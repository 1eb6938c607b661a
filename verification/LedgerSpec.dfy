/** Reference meaning of a ledger directory: which chain belongs to which file, and what a listing
    says (internal/ledger/snapshot.go). Nothing here depends on the binary search or on the order
    in which the directory was read. */
module LedgerSpec {
  import opened Snapshot

  /** What the file name parser guarantees of every file it accepts. */
  predicate WellFormed(f: SnapshotFile) {
    f.baseSlot != 0 ==> f.baseSlot < f.slot
  }

  predicate AllWellFormed(files: seq<SnapshotFile>) {
    forall f :: f in files ==> WellFormed(f)
  }

  /** Best to worst. Files that tie may come in any order. */
  predicate Sorted(files: seq<SnapshotFile>) {
    forall i, j :: 0 <= i < j < |files| ==> Compare(files[i], files[j]) >= 0
  }

  ghost predicate IsBest(files: seq<SnapshotFile>, slot: uint64, f: SnapshotFile) {
    && f in files
    && f.slot == slot
    && forall g :: g in files && g.slot == slot ==> Compare(f, g) >= 0
  }

  /** The highest ranked file at a slot, found by exhaustive scan; the earliest one among ties. */
  function BestAt(files: seq<SnapshotFile>, slot: uint64): (r: Option<SnapshotFile>)
    ensures r.None? ==> forall f :: f in files ==> f.slot != slot
    ensures r.Some? ==> IsBest(files, slot, r.value)
  {
    if files == [] then None
    else
      var rest := files[..|files| - 1];
      var f := files[|files| - 1];
      var r := BestAt(rest, slot);
      assert files == rest + [f];
      if f.slot != slot then r
      else if r.None? then
        CompareIsTotalPreorder(f, f);
        Some(f)
      else
        CompareIsTotalPreorder(f, r.value);
        if Compare(f, r.value) > 0 then
          assert IsBest(files, slot, f) by {
            CompareIsTotalPreorder(f, f);
            forall g | g in rest && g.slot == slot ensures Compare(f, g) >= 0 {
              CompareTransitive(f, r.value, g);
            }
          }
          Some(f)
        else r
  }

  /** The walk from a file down to a full file, taking the highest ranked file at every base slot. */
  function GreedyChain(files: seq<SnapshotFile>, target: SnapshotFile): (r: Option<seq<SnapshotFile>>)
    requires AllWellFormed(files) && WellFormed(target)
    decreases target.baseSlot
  {
    if target.baseSlot == 0 then Some([target])
    else
      var next := BestAt(files, target.baseSlot);
      if next.None? then None
      else
        var rest := GreedyChain(files, next.value);
        if rest.None? then None else Some([target] + rest.value)
  }

  predicate Listed(files: seq<SnapshotFile>, target: SnapshotFile)
    requires AllWellFormed(files) && WellFormed(target)
  {
    GreedyChain(files, target).Some?
  }

  function SumOfSizes(files: seq<SnapshotFile>): nat {
    if files == [] then 0 else SumOfSizes(files[..|files| - 1]) + files[|files| - 1].size
  }

  /** Addition of 64-bit unsigned integers. */
  function AddWrapping(a: uint64, b: uint64): uint64 {
    (a + b) % TWO_TO_THE_64
  }

  /** The sum of the sizes as a 64-bit unsigned integer holds it. */
  function TotalSize(files: seq<SnapshotFile>): uint64 {
    SumOfSizes(files) % TWO_TO_THE_64
  }

  function InfoOfChain(chain: seq<SnapshotFile>): SnapshotInfo
    requires chain != []
  {
    SnapshotInfo(chain[0].slot, chain[|chain| - 1].slot, chain[0].hash, chain,
                 TotalSize(chain))
  }

  function ListTargets(files: seq<SnapshotFile>, targets: seq<SnapshotFile>): seq<SnapshotInfo>
    requires AllWellFormed(files) && AllWellFormed(targets)
  {
    if targets == [] then []
    else
      var t := targets[|targets| - 1];
      var before := targets[..|targets| - 1];
      assert targets == before + [t];
      var chain := GreedyChain(files, t);
      GreedyChainSound(files, t);
      if chain.None? then ListTargets(files, before)
      else ListTargets(files, before) + [InfoOfChain(chain.value)]
  }

  /** Every file that has a chain, with that chain, in the order of the files. */
  function Listing(files: seq<SnapshotFile>): seq<SnapshotInfo>
    requires AllWellFormed(files)
  {
    ListTargets(files, files)
  }

  // ---- Chains in general, complete or not greedy

  /** chain is a way to restore chain[0]: each file builds on the next, the last one on nothing. */
  predicate IsCompleteChain(files: seq<SnapshotFile>, chain: seq<SnapshotFile>) {
    && chain != []
    && if chain[0].IsFull() then |chain| == 1
       else
         && |chain| > 1
         && chain[1] in files
         && chain[1].slot == chain[0].baseSlot
         && IsCompleteChain(files, chain[1..])
  }

  ghost predicate HasCompleteChain(files: seq<SnapshotFile>, target: SnapshotFile) {
    exists chain :: IsCompleteChain(files, chain) && chain[0] == target
  }

  lemma {:induction false} GreedyChainSound(files: seq<SnapshotFile>, target: SnapshotFile)
    requires AllWellFormed(files) && WellFormed(target)
    ensures
      var r := GreedyChain(files, target);
      r.Some? ==>
        && IsCompleteChain(files, r.value)
        && r.value[0] == target
        && (forall i :: 1 <= i < |r.value| ==> IsBest(files, r.value[i].slot, r.value[i]))
    decreases target.baseSlot
  {
    if target.baseSlot != 0 {
      var next := BestAt(files, target.baseSlot);
      if next.Some? {
        GreedyChainSound(files, next.value);
        var rest := GreedyChain(files, next.value);
        if rest.Some? {
          assert ([target] + rest.value)[1..] == rest.value;
        }
      }
    }
  }

  /** Along a complete chain of well-formed files: every link joins base slot to slot, slots fall
      strictly, the last file is full and no other one is. */
  lemma {:induction false} ChainShape(files: seq<SnapshotFile>, chain: seq<SnapshotFile>)
    requires AllWellFormed(files) && IsCompleteChain(files, chain) && WellFormed(chain[0])
    ensures forall i, j :: 0 <= i && j == i + 1 && j < |chain| ==> chain[i].baseSlot == chain[j].slot
    ensures forall i, j :: 0 <= i < j < |chain| ==> chain[i].slot > chain[j].slot
    ensures forall i :: 0 <= i < |chain| ==> (chain[i].IsFull() <==> i == |chain| - 1)
    ensures forall i :: 0 <= i < |chain| ==> WellFormed(chain[i])
    ensures forall i :: 1 <= i < |chain| ==> chain[i] in files
    decreases |chain|
  {
    if |chain| > 1 {
      ChainShape(files, chain[1..]);
      assert forall i :: 1 <= i < |chain| ==> chain[i] == chain[1..][i - 1];
    }
  }
}
