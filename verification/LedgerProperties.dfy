/** What a ledger listing promises, whatever the directory holds. */
module LedgerProperties {
  import opened Snapshot
  import opened LedgerSpec

  // ---- Shape and closure of a listing

  /** Every file further down a greedy chain has, on its own, exactly the remaining chain. */
  lemma {:induction false} SuffixOfChainIsChain(files: seq<SnapshotFile>, target: SnapshotFile, i: nat)
    requires AllWellFormed(files) && WellFormed(target) && Listed(files, target)
    requires i < |GreedyChain(files, target).value|
    ensures
      var chain := GreedyChain(files, target).value;
      && WellFormed(chain[i])
      && GreedyChain(files, chain[i]) == Some(chain[i..])
      && (i > 0 ==> chain[i] in files)
    decreases i
  {
    var chain := GreedyChain(files, target).value;
    GreedyChainSound(files, target);
    if i == 0 {
      assert chain[0..] == chain;
    } else {
      var next := BestAt(files, target.baseSlot).value;
      assert chain == [target] + GreedyChain(files, next).value;
      GreedyChainSound(files, next);
      SuffixOfChainIsChain(files, next, i - 1);
    }
  }

  /** A listing holds exactly the files that have a chain, each with its own chain. */
  lemma {:induction false} ListTargetsContents(files: seq<SnapshotFile>, targets: seq<SnapshotFile>, info: SnapshotInfo)
    requires AllWellFormed(files) && AllWellFormed(targets)
    ensures info in ListTargets(files, targets) <==>
            exists t :: t in targets && Listed(files, t) && GreedyChain(files, t).value != []
                        && info == InfoOfChain(GreedyChain(files, t).value)
    decreases |targets|
  {
    if targets != [] {
      var before, t := targets[..|targets| - 1], targets[|targets| - 1];
      assert targets == before + [t];
      GreedyChainSound(files, t);
      ListTargetsContents(files, before, info);
    }
  }

  predicate EndsIn(info: SnapshotInfo, targets: seq<SnapshotFile>) {
    info.files != [] && info.files[0] in targets && info.slot == info.files[0].slot
  }

  /** Best to worst, each snapshot ending in one of the targets. */
  ghost predicate Ranked(infos: seq<SnapshotInfo>, targets: seq<SnapshotFile>) {
    && (forall i :: 0 <= i < |infos| ==> EndsIn(infos[i], targets))
    && (forall i, j :: 0 <= i < j < |infos| ==> Compare(infos[i].files[0], infos[j].files[0]) >= 0)
  }

  /** A listing of sorted files is sorted: the files that the snapshots end in keep their ranking. */
  lemma {:induction false} ListTargetsSorted(files: seq<SnapshotFile>, targets: seq<SnapshotFile>)
    requires AllWellFormed(files) && AllWellFormed(targets) && Sorted(targets)
    ensures Ranked(ListTargets(files, targets), targets)
    decreases |targets|
  {
    if targets != [] {
      var before, t := targets[..|targets| - 1], targets[|targets| - 1];
      assert targets == before + [t];
      GreedyChainSound(files, t);
      ListTargetsSorted(files, before);
      var infos, earlier := ListTargets(files, targets), ListTargets(files, before);
      forall i | 0 <= i < |infos| ensures EndsIn(infos[i], targets) {
        assert i < |earlier| ==> EndsIn(earlier[i], before);
      }
      forall i, j | 0 <= i < j < |infos| ensures Compare(infos[i].files[0], infos[j].files[0]) >= 0 {
        assert EndsIn(earlier[i], before);
        if j < |earlier| {
          assert EndsIn(earlier[j], before);
        } else {
          var k :| 0 <= k < |before| && before[k] == infos[i].files[0];
          assert Compare(targets[k], targets[|targets| - 1]) >= 0;
        }
      }
    }
  }

  /** The files that some snapshots end in. */
  function Ends(infos: seq<SnapshotInfo>): seq<SnapshotFile>
    requires forall info :: info in infos ==> info.files != []
  {
    seq(|infos|, i requires 0 <= i < |infos| => infos[i].files[0])
  }

  lemma EndsStep(infos: seq<SnapshotInfo>, info: SnapshotInfo)
    requires info.files != [] && forall i :: i in infos ==> i.files != []
    ensures Ends(infos + [info]) == Ends(infos) + [info.files[0]]
  {
  }

  /** Every file with a chain is listed as often as it occurs, that is once in a directory, and no other
      file is listed. */
  lemma {:induction false} EachFileIsListedOnce(files: seq<SnapshotFile>, targets: seq<SnapshotFile>, f: SnapshotFile)
    requires AllWellFormed(files) && AllWellFormed(targets)
    ensures forall info :: info in ListTargets(files, targets) ==> info.files != []
    ensures multiset(Ends(ListTargets(files, targets)))[f]
         == if f in targets && Listed(files, f) then multiset(targets)[f] else 0
    decreases |targets|
  {
    if targets != [] {
      var before, t := targets[..|targets| - 1], targets[|targets| - 1];
      assert targets == before + [t];
      EachFileIsListedOnce(files, before, f);
      GreedyChainSound(files, t);
      if Listed(files, t) {
        EndsStep(ListTargets(files, before), InfoOfChain(GreedyChain(files, t).value));
      }
    }
  }

  /** A listing keeps the order of the files: what the first k of them contribute comes first. */
  lemma {:induction false} ListingKeepsOrder(files: seq<SnapshotFile>, targets: seq<SnapshotFile>, k: nat)
    requires AllWellFormed(files) && AllWellFormed(targets) && k <= |targets|
    ensures ListTargets(files, targets[..k]) <= ListTargets(files, targets)
    decreases |targets|
  {
    if k == |targets| {
      assert targets[..k] == targets;
    } else {
      var before := targets[..|targets| - 1];
      ListingKeepsOrder(files, before, k);
      assert before[..k] == targets[..k];
    }
  }

  /** What a listed snapshot says: slot and hash of the file it ends in, the slot of the full file it rests
      on, and the sizes of all its files. */
  lemma ListedInfoSays(files: seq<SnapshotFile>, info: SnapshotInfo) returns (t: SnapshotFile)
    requires AllWellFormed(files) && info in Listing(files)
    ensures t in files && info.files != [] && info.files[0] == t
    ensures info.slot == t.slot && info.hash == t.hash
    ensures info.files[|info.files| - 1].IsFull() && info.baseSlot == info.files[|info.files| - 1].slot
    ensures forall i :: 1 <= i < |info.files| ==> IsBest(files, info.files[i - 1].baseSlot, info.files[i])
    ensures info.totalSize == TotalSize(info.files)
  {
    ListTargetsContents(files, files, info);
    t :| t in files && Listed(files, t) && GreedyChain(files, t).value != []
         && info == InfoOfChain(GreedyChain(files, t).value);
    GreedyChainSound(files, t);
    ChainShape(files, info.files);
    forall i | 1 <= i < |info.files| ensures IsBest(files, info.files[i - 1].baseSlot, info.files[i]) {
      assert info.files[i - 1].baseSlot == info.files[i].slot;
    }
  }

  lemma {:induction false} SizesAddUp(a: seq<SnapshotFile>, b: seq<SnapshotFile>)
    ensures SumOfSizes(a + b) == SumOfSizes(a) + SumOfSizes(b)
    decreases |b|
  {
    if b == [] {
      assert a + b == a;
    } else {
      assert (a + b)[..|a + b| - 1] == a + b[..|b| - 1];
      SizesAddUp(a, b[..|b| - 1]);
    }
  }

  lemma RemaindersAddUp(x: nat, y: nat)
    ensures (x + y) % TWO_TO_THE_64 == (x % TWO_TO_THE_64 + y % TWO_TO_THE_64) % TWO_TO_THE_64
  {
  }

  /** The total size is the sum of the sizes, as a 64-bit unsigned integer holds it. */
  lemma TotalSizeIsSum(a: seq<SnapshotFile>, b: seq<SnapshotFile>, f: SnapshotFile)
    ensures TotalSize([]) == 0 && TotalSize([f]) == f.size
    ensures TotalSize(a + b) == (TotalSize(a) + TotalSize(b)) % TWO_TO_THE_64
  {
    assert [f][..0] == [];
    assert SumOfSizes([f]) == f.size;
    SizesAddUp(a, b);
    RemaindersAddUp(SumOfSizes(a), SumOfSizes(b));
  }

  /** The first snapshot of a listing ends in the highest ranked file that has a chain at all. */
  lemma HeadOfListing(files: seq<SnapshotFile>, t: SnapshotFile)
    requires AllWellFormed(files) && Sorted(files)
    requires t in files && Listed(files, t)
    ensures
      var infos := Listing(files);
      && infos != [] && infos[0].files != []
      && Compare(infos[0].files[0], t) >= 0
      && infos[0].slot >= t.slot
  {
    GreedyChainSound(files, t);
    var info := InfoOfChain(GreedyChain(files, t).value);
    ListTargetsContents(files, files, info);
    ListTargetsSorted(files, files);
    var k :| 0 <= k < |Listing(files)| && Listing(files)[k] == info;
    CompareIsTotalPreorder(t, t);
  }

  /** The snapshot that heads a listing rests on the highest ranked file at its base slot. */
  lemma RootOfHeadIsBest(files: seq<SnapshotFile>)
    requires AllWellFormed(files) && Sorted(files) && Listing(files) != []
    ensures
      var head := Listing(files)[0];
      && IsCompleteChain(files, head.files)
      && WellFormed(head.files[0])
      && head.files[|head.files| - 1].IsFull()
      && IsBest(files, head.baseSlot, head.files[|head.files| - 1])
  {
    var head := Listing(files)[0];
    assert head in Listing(files);
    ListTargetsContents(files, files, head);
    var t :| t in files && Listed(files, t) && GreedyChain(files, t).value != []
             && head == InfoOfChain(GreedyChain(files, t).value);
    GreedyChainSound(files, t);
    ChainShape(files, head.files);
    if |head.files| == 1 {
      forall g | g in files && g.slot == t.slot ensures Compare(t, g) >= 0 {
        if Compare(t, g) < 0 {
          CompareIsTotalPreorder(t, g);
          assert g.IsFull() && Listed(files, g);
          HeadOfListing(files, g);
        }
      }
    }
  }

  /** The first snapshot of a listing belongs to a listed file of the directory. */
  lemma HeadIsListed(files: seq<SnapshotFile>) returns (t: SnapshotFile)
    requires AllWellFormed(files) && Listing(files) != []
    ensures t in files && Listed(files, t) && GreedyChain(files, t).value != []
    ensures Listing(files)[0] == InfoOfChain(GreedyChain(files, t).value) && Listing(files)[0].files[0] == t
  {
    var head := Listing(files)[0];
    assert head in Listing(files);
    ListTargetsContents(files, files, head);
    t :| t in files && Listed(files, t) && GreedyChain(files, t).value != []
         && head == InfoOfChain(GreedyChain(files, t).value);
    GreedyChainSound(files, t);
  }

  // ---- Length of a chain

  ghost function SlotsBelow(files: seq<SnapshotFile>, slot: uint64): set<uint64> {
    set f | f in files && f.slot < slot :: f.slot
  }

  /** A chain cannot be longer than the number of distinct slots below its end. */
  lemma {:induction false} ChainLengthBound(files: seq<SnapshotFile>, target: SnapshotFile)
    requires AllWellFormed(files) && WellFormed(target) && Listed(files, target)
    ensures |GreedyChain(files, target).value| <= 1 + |SlotsBelow(files, target.slot)|
    decreases target.baseSlot
  {
    if target.baseSlot != 0 {
      var next := BestAt(files, target.baseSlot).value;
      ChainLengthBound(files, next);
      var smaller := SlotsBelow(files, next.slot);
      CardinalityOfSubset(smaller + {next.slot}, SlotsBelow(files, target.slot));
    }
  }

  lemma {:induction false} CardinalityOfSubset<T>(a: set<T>, b: set<T>)
    requires a <= b
    ensures |a| <= |b|
    decreases a
  {
    if a != {} {
      var x :| x in a;
      CardinalityOfSubset(a - {x}, b - {x});
    }
  }

  // ---- Directory order does not matter

  function Keys(files: seq<SnapshotFile>): (r: seq<FileKey>)
    ensures |r| == |files|
    ensures forall i :: 0 <= i < |r| ==> r[i] == KeyOf(files[i])
  {
    seq(|files|, i requires 0 <= i < |files| => KeyOf(files[i]))
  }

  lemma KeysOfConcat(a: seq<SnapshotFile>, b: seq<SnapshotFile>)
    ensures Keys(a + b) == Keys(a) + Keys(b)
  {
  }

  lemma KeysHold(files: seq<SnapshotFile>, f: SnapshotFile)
    requires f in files
    ensures KeyOf(f) in Keys(files)
  {
    var i :| 0 <= i < |files| && files[i] == f;
    assert Keys(files)[i] == KeyOf(f);
  }

  lemma FileOfKey(files: seq<SnapshotFile>, key: FileKey) returns (f: SnapshotFile)
    requires key in Keys(files)
    ensures f in files && KeyOf(f) == key
  {
    var i :| 0 <= i < |files| && Keys(files)[i] == key;
    f := files[i];
  }

  /** Two directories whose files agree up to name, extension, size and time. */
  ghost predicate SameKeys(a: seq<SnapshotFile>, b: seq<SnapshotFile>) {
    forall key :: key in Keys(a) <==> key in Keys(b)
  }

  /** Ranking looks at keys only. */
  lemma CompareKeys(f: SnapshotFile, g: SnapshotFile, f': SnapshotFile, g': SnapshotFile)
    requires KeyOf(f) == KeyOf(f') && KeyOf(g) == KeyOf(g')
    ensures Compare(f, g) == Compare(f', g')
  {
  }

  lemma BestKeyDominates(a: seq<SnapshotFile>, b: seq<SnapshotFile>, slot: uint64)
    requires SameKeys(a, b) && BestAt(b, slot).Some?
    ensures BestAt(a, slot).Some?
    ensures Compare(BestAt(a, slot).value, BestAt(b, slot).value) >= 0
  {
    var best := BestAt(b, slot).value;
    KeysHold(b, best);
    var f := FileOfKey(a, KeyOf(best));
    assert f.slot == slot;
    var best' := BestAt(a, slot).value;
    assert Compare(best', f) >= 0;
    CompareKeys(best', f, best', best);
  }

  lemma BestKeyIsUnique(a: seq<SnapshotFile>, b: seq<SnapshotFile>, slot: uint64)
    requires SameKeys(a, b)
    ensures BestAt(a, slot).Some? <==> BestAt(b, slot).Some?
    ensures BestAt(a, slot).Some? ==> KeyOf(BestAt(a, slot).value) == KeyOf(BestAt(b, slot).value)
  {
    if BestAt(a, slot).Some? {
      BestKeyDominates(b, a, slot);
    }
    if BestAt(b, slot).Some? {
      BestKeyDominates(a, b, slot);
      CompareIsTotalPreorder(BestAt(a, slot).value, BestAt(b, slot).value);
    }
  }

  lemma {:induction false} ChainKeysAreUnique(
    a: seq<SnapshotFile>, b: seq<SnapshotFile>, s: SnapshotFile, t: SnapshotFile)
    requires AllWellFormed(a) && AllWellFormed(b) && WellFormed(s) && WellFormed(t)
    requires SameKeys(a, b) && KeyOf(s) == KeyOf(t)
    ensures Listed(a, s) <==> Listed(b, t)
    ensures Listed(a, s) ==> Keys(GreedyChain(a, s).value) == Keys(GreedyChain(b, t).value)
    decreases s.baseSlot
  {
    if s.baseSlot != 0 {
      BestKeyIsUnique(a, b, s.baseSlot);
      var na, nb := BestAt(a, s.baseSlot), BestAt(b, s.baseSlot);
      if na.Some? {
        ChainKeysAreUnique(a, b, na.value, nb.value);
        if Listed(a, s) {
          var ra, rb := GreedyChain(a, na.value).value, GreedyChain(b, nb.value).value;
          KeysOfConcat([s], ra);
          KeysOfConcat([t], rb);
          assert Keys([s]) == Keys([t]);
        }
      }
    }
  }

  /** What a snapshot says once names, sizes and times are ignored. */
  datatype InfoKey = InfoKey(slot: uint64, baseSlot: uint64, hash: Hash, files: seq<FileKey>)

  function InfoKeys(infos: seq<SnapshotInfo>): (r: seq<InfoKey>)
    ensures |r| == |infos|
  {
    seq(|infos|, i requires 0 <= i < |infos| =>
      InfoKey(infos[i].slot, infos[i].baseSlot, infos[i].hash, Keys(infos[i].files)))
  }

  lemma InfoKeysOfConcat(a: seq<SnapshotInfo>, b: seq<SnapshotInfo>)
    ensures InfoKeys(a + b) == InfoKeys(a) + InfoKeys(b)
  {
  }

  lemma InfoKeyOfChain(a: seq<SnapshotFile>, b: seq<SnapshotFile>)
    requires a != [] && b != [] && Keys(a) == Keys(b)
    ensures InfoKeys([InfoOfChain(a)]) == InfoKeys([InfoOfChain(b)])
  {
    var n := |Keys(a)| - 1;
    assert Keys(a)[0] == Keys(b)[0] && Keys(a)[n] == Keys(b)[n];
    assert |b| == |Keys(b)| == |a|;
  }

  lemma {:induction false} ListTargetsKeys(
    a: seq<SnapshotFile>, b: seq<SnapshotFile>, s: seq<SnapshotFile>, t: seq<SnapshotFile>)
    requires AllWellFormed(a) && AllWellFormed(b) && AllWellFormed(s) && AllWellFormed(t)
    requires SameKeys(a, b) && Keys(s) == Keys(t)
    ensures InfoKeys(ListTargets(a, s)) == InfoKeys(ListTargets(b, t))
    decreases |s|
  {
    assert |s| == |Keys(s)| == |t|;
    if s != [] {
      var n := |s| - 1;
      var s0, t0, f, g := s[..n], t[..n], s[n], t[n];
      assert KeyOf(f) == Keys(s)[n] == Keys(t)[n] == KeyOf(g);
      assert s == s0 + [f] && t == t0 + [g];
      assert Keys(s0) == Keys(s)[..n] == Keys(t)[..n] == Keys(t0);
      ListTargetsKeys(a, b, s0, t0);
      ChainKeysAreUnique(a, b, f, g);
      GreedyChainSound(a, f);
      GreedyChainSound(b, g);
      if Listed(a, f) {
        var ca, cb := GreedyChain(a, f).value, GreedyChain(b, g).value;
        InfoKeyOfChain(ca, cb);
        InfoKeysOfConcat(ListTargets(a, s0), [InfoOfChain(ca)]);
        InfoKeysOfConcat(ListTargets(b, t0), [InfoOfChain(cb)]);
      }
    }
  }

  lemma KeysAroundFile(before: seq<SnapshotFile>, x: SnapshotFile, after: seq<SnapshotFile>)
    ensures multiset(Keys(before + ([x] + after))) == multiset{KeyOf(x)} + multiset(Keys(before + after))
  {
    KeysOfConcat(before, after);
    KeysOfConcat(before, [x] + after);
    KeysOfConcat([x], after);
    assert Keys([x]) == [KeyOf(x)];
  }

  /** The files without one occurrence of x, and what that does to the keys. */
  lemma Without(files: seq<SnapshotFile>, x: SnapshotFile) returns (rest: seq<SnapshotFile>)
    requires x in files
    ensures multiset(rest) == multiset(files) - multiset{x}
    ensures multiset(Keys(files)) == multiset(Keys(rest)) + multiset{KeyOf(x)}
  {
    var k :| 0 <= k < |files| && files[k] == x;
    var before, after := files[..k], files[k + 1..];
    rest := before + after;
    assert files == before + ([x] + after);
    KeysAroundFile(before, x, after);
  }

  lemma {:induction false} PermutationOfKeys(a: seq<SnapshotFile>, b: seq<SnapshotFile>)
    requires multiset(a) == multiset(b)
    ensures multiset(Keys(a)) == multiset(Keys(b))
    decreases |multiset(a)|
  {
    if a == [] {
      assert |multiset(b)| == |b|;
    } else {
      assert a[0] in multiset(b);
      var ra := Without(a, a[0]);
      var rb := Without(b, a[0]);
      PermutationOfKeys(ra, rb);
    }
  }

  lemma {:induction false} HeadKeyDominates(a: seq<SnapshotFile>, b: seq<SnapshotFile>)
    requires Sorted(a) && a != [] && b != [] && SameKeys(a, b)
    ensures Compare(a[0], b[0]) >= 0
  {
    KeysHold(b, b[0]);
    var f := FileOfKey(a, KeyOf(b[0]));
    var j :| 0 <= j < |a| && a[j] == f;
    CompareIsTotalPreorder(a[0], a[0]);
    assert Compare(a[0], a[j]) >= 0;
    CompareKeys(a[0], a[j], a[0], b[0]);
  }

  lemma HeadKeysAgree(a: seq<SnapshotFile>, b: seq<SnapshotFile>)
    requires Sorted(a) && Sorted(b) && a != [] && b != [] && multiset(Keys(a)) == multiset(Keys(b))
    ensures Keys(a)[0] == Keys(b)[0]
  {
    assert forall k :: k in Keys(a) <==> k in multiset(Keys(a));
    assert forall k :: k in Keys(b) <==> k in multiset(Keys(b));
    HeadKeyDominates(a, b);
    HeadKeyDominates(b, a);
    CompareIsTotalPreorder(a[0], b[0]);
  }

  lemma KeysOfTail(a: seq<SnapshotFile>)
    requires a != []
    ensures Keys(a) == [KeyOf(a[0])] + Keys(a[1..])
    ensures multiset(Keys(a[1..])) == multiset(Keys(a)) - multiset{KeyOf(a[0])}
  {
    assert a == [a[0]] + a[1..];
    KeysOfConcat([a[0]], a[1..]);
    assert Keys([a[0]]) == [KeyOf(a[0])];
  }

  /** However an unstable sort orders files that tie, position by position the keys are the same. */
  lemma {:induction false} SortedKeysAreUnique(a: seq<SnapshotFile>, b: seq<SnapshotFile>)
    requires Sorted(a) && Sorted(b) && multiset(Keys(a)) == multiset(Keys(b))
    ensures Keys(a) == Keys(b)
    decreases |a|
  {
    assert |a| == |multiset(Keys(a))| == |multiset(Keys(b))| == |b|;
    if a != [] {
      HeadKeysAgree(a, b);
      KeysOfTail(a);
      KeysOfTail(b);
      SortedKeysAreUnique(a[1..], b[1..]);
    }
  }

  /** Two listings of the same files agree, whatever order the directory was read in and whichever
      way the sort placed files that tie. */
  lemma ListingIgnoresDirectoryOrder(a: seq<SnapshotFile>, b: seq<SnapshotFile>)
    requires AllWellFormed(a) && AllWellFormed(b)
    requires Sorted(a) && Sorted(b) && multiset(a) == multiset(b)
    ensures InfoKeys(Listing(a)) == InfoKeys(Listing(b))
  {
    PermutationOfKeys(a, b);
    SortedKeysAreUnique(a, b);
    ListTargetsKeys(a, b, a, b);
  }

  // ---- Adding files

  /** A new full file leaves every complete chain complete and never moves its root back. */
  lemma {:induction false} AddingFullFileNeverHurts(
    files: seq<SnapshotFile>, more: seq<SnapshotFile>, full: SnapshotFile, target: SnapshotFile)
    requires AllWellFormed(files) && AllWellFormed(more) && WellFormed(target)
    requires full.IsFull() && forall f :: f in more <==> f in files || f == full
    requires Listed(files, target)
    ensures Listed(more, target)
    ensures
      var before, after := GreedyChain(files, target).value, GreedyChain(more, target).value;
      before != [] && after != [] && after[|after| - 1].slot >= before[|before| - 1].slot
    decreases target.baseSlot
  {
    GreedyChainSound(files, target);
    if target.baseSlot != 0 {
      var next := BestAt(files, target.baseSlot).value;
      var next' := BestAt(more, target.baseSlot).value;
      GreedyChainSound(files, next);
      ChainShape(files, GreedyChain(files, next).value);
      if next' == full || next'.IsFull() {
        assert GreedyChain(more, next') == Some([next']);
      } else {
        assert next' in files && Compare(next, next') >= 0 && Compare(next', next) >= 0;
        CompareIsTotalPreorder(next, next');
        SameBaseSameFate(files, next, next');
        AddingFullFileNeverHurts(files, more, full, next');
        GreedyChainSound(files, next');
        GreedyChainSound(more, next');
      }
    }
  }

  /** Only the base slot of a file matters to the rest of its chain. */
  lemma SameBaseSameFate(files: seq<SnapshotFile>, s: SnapshotFile, t: SnapshotFile)
    requires AllWellFormed(files) && WellFormed(s) && WellFormed(t)
    requires s.baseSlot == t.baseSlot
    ensures Listed(files, s) <==> Listed(files, t)
    ensures Listed(files, s) ==> GreedyChain(files, s).value[1..] == GreedyChain(files, t).value[1..]
  {
  }

  // ---- Greedy search against exhaustive search

  /** At the base slot of every incremental file: if any file there can be restored at all, so can
      the highest ranked one. This speaks of the files only, not of how the listing searches. */
  ghost predicate NoDeadFork(files: seq<SnapshotFile>) {
    forall t, f :: t in files && !t.IsFull() && f in files && f.slot == t.baseSlot && HasCompleteChain(files, f) ==>
      BestIsRestorable(files, t.baseSlot)
  }

  ghost predicate BestIsRestorable(files: seq<SnapshotFile>, slot: uint64) {
    BestAt(files, slot).Some? && HasCompleteChain(files, BestAt(files, slot).value)
  }

  lemma {:induction false} NoDeadForkSuffices(files: seq<SnapshotFile>, t: SnapshotFile)
    requires AllWellFormed(files) && NoDeadFork(files)
    requires t in files && HasCompleteChain(files, t)
    ensures Listed(files, t)
    decreases t.slot
  {
    if !t.IsFull() {
      var chain :| IsCompleteChain(files, chain) && chain[0] == t;
      assert IsCompleteChain(files, chain[1..]) && chain[1..][0] == chain[1];
      assert HasCompleteChain(files, chain[1]);
      assert BestIsRestorable(files, t.baseSlot);
      NoDeadForkSuffices(files, BestAt(files, t.baseSlot).value);
    }
  }

  /** Every file that can be restored from the directory is listed, and no other. */
  ghost predicate ListsAllRestorable(files: seq<SnapshotFile>)
    requires AllWellFormed(files)
  {
    forall t :: t in files ==> (Listed(files, t) <==> HasCompleteChain(files, t))
  }

  lemma NoDeadForkIsNeeded(files: seq<SnapshotFile>, t: SnapshotFile, f: SnapshotFile)
    requires AllWellFormed(files) && ListsAllRestorable(files)
    requires t in files && !t.IsFull() && f in files && f.slot == t.baseSlot && HasCompleteChain(files, f)
    ensures BestIsRestorable(files, t.baseSlot)
  {
    var rest :| IsCompleteChain(files, rest) && rest[0] == f;
    var chain := [t] + rest;
    assert chain[1..] == rest;
    assert IsCompleteChain(files, chain) && chain[0] == t;
    assert Listed(files, t);
    GreedyChainSound(files, BestAt(files, t.baseSlot).value);
  }

  /** The listing misses no restorable file exactly when the directory has no dead fork. */
  lemma GreedyIsCompleteIff(files: seq<SnapshotFile>)
    requires AllWellFormed(files)
    ensures NoDeadFork(files) <==> ListsAllRestorable(files)
  {
    if NoDeadFork(files) {
      forall t | t in files ensures Listed(files, t) <==> HasCompleteChain(files, t) {
        GreedyChainSound(files, t);
        if HasCompleteChain(files, t) {
          NoDeadForkSuffices(files, t);
        }
      }
    }
    if ListsAllRestorable(files) {
      forall t, f | t in files && !t.IsFull() && f in files && f.slot == t.baseSlot && HasCompleteChain(files, f)
        ensures BestIsRestorable(files, t.baseSlot)
      {
        NoDeadForkIsNeeded(files, t, f);
      }
    }
  }

  ghost predicate HasFullAt(files: seq<SnapshotFile>, slot: uint64) {
    exists h :: h in files && h.slot == slot && h.IsFull()
  }

  /** A condition on the files alone: where a slot has no full file, its files share one base slot. */
  ghost predicate OneBasePerSlot(files: seq<SnapshotFile>) {
    forall f, g :: f in files && g in files && f.slot == g.slot ==>
      f.baseSlot == g.baseSlot || HasFullAt(files, f.slot)
  }

  lemma OneBaseKeepsBestRestorable(files: seq<SnapshotFile>, f: SnapshotFile)
    requires OneBasePerSlot(files) && f in files && HasCompleteChain(files, f)
    ensures BestIsRestorable(files, f.slot)
  {
    var best := BestAt(files, f.slot).value;
    if HasFullAt(files, f.slot) {
      var h :| h in files && h.slot == f.slot && h.IsFull();
      assert Compare(best, h) >= 0;
      assert IsCompleteChain(files, [best]);
    } else {
      var chain :| IsCompleteChain(files, chain) && chain[0] == f;
      assert best.baseSlot == f.baseSlot;
      var swapped := [best] + chain[1..];
      assert swapped[1..] == chain[1..];
      assert IsCompleteChain(files, swapped) && swapped[0] == best;
    }
  }

  lemma OneBasePerSlotIsEnough(files: seq<SnapshotFile>)
    requires AllWellFormed(files) && OneBasePerSlot(files)
    ensures ListsAllRestorable(files)
  {
    forall t, f | t in files && !t.IsFull() && f in files && f.slot == t.baseSlot && HasCompleteChain(files, f)
      ensures BestIsRestorable(files, t.baseSlot)
    {
      OneBaseKeepsBestRestorable(files, f);
    }
    GreedyIsCompleteIff(files);
  }

  // ---- A directory in which the greedy search loses

  function Example(slot: uint64, base: uint64, hash: Hash): SnapshotFile {
    SnapshotFile("", "", slot, base, hash, "", None, 0)
  }

  /** Two incrementals end at slot 20; the one with the higher base has no base file. */
  function DeadFork(h: Hash): (files: seq<SnapshotFile>)
    ensures forall f :: f in files <==>
              f == Example(30, 20, h) || f == Example(20, 10, h) || f == Example(20, 5, h) || f == Example(5, 0, h)
  {
    [Example(30, 20, h), Example(20, 10, h), Example(20, 5, h), Example(5, 0, h)]
  }

  lemma DeadForkChain(h: Hash)
    ensures IsCompleteChain(DeadFork(h), [Example(30, 20, h), Example(20, 5, h), Example(5, 0, h)])
  {
    var chain := [Example(30, 20, h), Example(20, 5, h), Example(5, 0, h)];
    assert chain[1..] == [Example(20, 5, h), Example(5, 0, h)];
    assert chain[1..][1..] == [Example(5, 0, h)];
  }

  /** The snapshot at slot 30 can be restored from this directory and is not listed. */
  lemma DeadForkExample(h: Hash)
    ensures
      var files, top := DeadFork(h), Example(30, 20, h);
      && AllWellFormed(files) && Sorted(files) && top in files
      && HasCompleteChain(files, top) && !Listed(files, top)
  {
    var files := DeadFork(h);
    DeadForkChain(h);
    assert Compare(BestAt(files, 20).value, Example(20, 10, h)) >= 0;
    assert BestAt(files, 10).None?;
    assert !Listed(files, Example(20, 10, h));
  }
}
