/** Listing a ledger directory, in the loops of internal/ledger/snapshot.go. */
module Ledger {
  import opened Snapshot
  import opened LedgerSpec
  import LedgerProperties
  import FileName

  datatype FileStat = FileStat(size: uint64, modTime: Option<int>)

  /** A directory entry; stat is what fs.Stat would answer for it, None being an error. */
  datatype DirEntry = DirEntry(name: string, regular: bool, stat: Option<FileStat>)

  datatype Result<+T> = Ok(value: T) | Err(error: string)

  function SnapshotStat(snap: SnapshotFile, stat: FileStat): SnapshotFile {
    snap.(size := stat.size, modTime := stat.modTime)
  }

  /** What a directory entry contributes: a regular file with a snapshot name that can be examined. */
  function FileOf(e: DirEntry, decode: FileName.Decoder): Option<SnapshotFile> {
    var file := FileName.Parsed(e.name, decode);
    if e.regular && file.Some? && e.stat.Some? then Some(SnapshotStat(file.value, e.stat.value)) else None
  }

  function SnapshotFilesOf(entries: seq<DirEntry>, decode: FileName.Decoder): seq<SnapshotFile> {
    if entries == [] then []
    else
      var before, file := entries[..|entries| - 1], FileOf(entries[|entries| - 1], decode);
      if file.None? then SnapshotFilesOf(before, decode)
      else SnapshotFilesOf(before, decode) + [file.value]
  }

  lemma SnapshotFilesOfStep(entries: seq<DirEntry>, k: nat, decode: FileName.Decoder)
    requires k < |entries|
    ensures
      var file := FileOf(entries[k], decode);
      SnapshotFilesOf(entries[..k + 1], decode)
      == if file.None? then SnapshotFilesOf(entries[..k], decode)
         else SnapshotFilesOf(entries[..k], decode) + [file.value]
  {
    assert entries[..k + 1][..k] == entries[..k];
  }

  /** The first n files are in order, but for the file at j against those before it. */
  ghost predicate SortedButFor(files: seq<SnapshotFile>, n: nat, j: nat) {
    n <= |files| && forall p, q :: 0 <= p < q < n && q != j ==> Compare(files[p], files[q]) >= 0
  }

  function Swapped(files: seq<SnapshotFile>, j: nat): seq<SnapshotFile>
    requires 0 < j < |files|
  {
    files[j - 1 := files[j]][j := files[j - 1]]
  }

  lemma SwapStep(files: seq<SnapshotFile>, n: nat, j: nat)
    requires SortedButFor(files, n, j) && 0 < j < n && Compare(files[j], files[j - 1]) > 0
    ensures SortedButFor(Swapped(files, j), n, j - 1)
    ensures multiset(Swapped(files, j)) == multiset(files)
  {
  }

  lemma SwapsDone(files: seq<SnapshotFile>, n: nat, j: nat)
    requires SortedButFor(files, n, j) && j < n
    requires j > 0 ==> Compare(files[j], files[j - 1]) <= 0
    ensures Sorted(files[..n])
  {
    forall p | 0 <= p < j ensures Compare(files[p], files[j]) >= 0 {
      CompareIsTotalPreorder(files[j - 1], files[j]);
      if p < j - 1 {
        CompareTransitive(files[p], files[j - 1], files[j]);
      }
    }
  }

  method SiftUp(a: array<SnapshotFile>, i: nat)
    requires i < a.Length && Sorted(a[..i])
    modifies a
    ensures Sorted(a[..i + 1])
    ensures multiset(a[..]) == multiset(old(a[..]))
  {
    var j := i;
    ghost var now := a[..];
    assert SortedButFor(now, i + 1, j) by {
      assert forall k :: 0 <= k < i ==> now[k] == a[..i][k];
    }
    while j > 0 && Compare(a[j], a[j - 1]) > 0
      invariant 0 <= j <= i
      invariant a[..] == now && |now| == a.Length
      invariant SortedButFor(now, i + 1, j)
      invariant multiset(now) == multiset(old(a[..]))
    {
      SwapStep(now, i + 1, j);
      now := Swapped(now, j);
      a[j - 1], a[j] := a[j], a[j - 1];
      j := j - 1;
    }
    SwapsDone(now, i + 1, j);
    assert now[..i + 1] == a[..i + 1];
  }

  /** sort.Slice with the ordering Compare(a, b) > 0. It promises order and a permutation only. */
  method SortFiles(a: array<SnapshotFile>)
    modifies a
    ensures Sorted(a[..])
    ensures multiset(a[..]) == multiset(old(a[..]))
  {
    var i := 0;
    while i < a.Length
      invariant 0 <= i <= a.Length
      invariant Sorted(a[..i])
      invariant multiset(a[..]) == multiset(old(a[..]))
    {
      SiftUp(a, i);
      i := i + 1;
    }
    assert a[..a.Length] == a[..];
  }

  lemma PermutationKeepsWellFormed(a: seq<SnapshotFile>, b: seq<SnapshotFile>)
    requires AllWellFormed(a) && multiset(a) == multiset(b)
    ensures AllWellFormed(b)
  {
    forall f | f in b ensures WellFormed(f) {
      assert f in multiset(b);
    }
  }

  method Sort(files: seq<SnapshotFile>) returns (sorted: seq<SnapshotFile>)
    requires AllWellFormed(files)
    ensures Sorted(sorted) && AllWellFormed(sorted)
    ensures multiset(sorted) == multiset(files)
  {
    var slice := new SnapshotFile[|files|](i requires 0 <= i < |files| => files[i]);
    assert slice[..] == files;
    SortFiles(slice);
    PermutationKeepsWellFormed(files, slice[..]);
    return slice[..];
  }

  method ListSnapshotFiles(dir: Result<seq<DirEntry>>, decode: FileName.Decoder)
    returns (r: Result<seq<SnapshotFile>>)
    ensures r.Ok? <==> dir.Ok?
    ensures r.Ok? ==>
      && Sorted(r.value)
      && AllWellFormed(r.value)
      && multiset(r.value) == multiset(SnapshotFilesOf(dir.value, decode))
  {
    if dir.Err? {
      return Err("failed to list ledger dir: " + dir.error);
    }
    var files: seq<SnapshotFile> := [];
    for i := 0 to |dir.value|
      invariant files == SnapshotFilesOf(dir.value[..i], decode)
      invariant AllWellFormed(files)
    {
      var entry := dir.value[i];
      SnapshotFilesOfStep(dir.value, i, decode);
      if !entry.regular {
        continue;
      }
      var info := FileName.ParseSnapshotFileName(entry.name, decode);
      if info.None? {
        continue;
      }
      if entry.stat.None? {
        continue;
      }
      files := files + [SnapshotStat(info.value, entry.stat.value)];
    }
    assert dir.value[..|dir.value|] == dir.value;
    files := Sort(files);
    return Ok(files);
  }

  /** sort.Search for the first file at or below a slot. */
  method SearchAtOrBelow(files: seq<SnapshotFile>, base: uint64) returns (index: nat)
    requires Sorted(files)
    ensures index <= |files|
    ensures forall k :: 0 <= k < index ==> files[k].slot > base
    ensures forall k :: index <= k < |files| ==> files[k].slot <= base
  {
    var i, j := 0, |files|;
    while i < j
      invariant 0 <= i <= j <= |files|
      invariant forall k :: 0 <= k < i ==> files[k].slot > base
      invariant forall k :: j <= k < |files| ==> files[k].slot <= base
    {
      var h := (i + j) / 2;
      if !(files[h].slot <= base) {
        assert forall k :: 0 <= k < h ==> Compare(files[k], files[h]) >= 0;
        i := h + 1;
      } else {
        assert forall k :: h < k < |files| ==> Compare(files[h], files[k]) >= 0;
        j := h;
      }
    }
    return i;
  }

  /** In a sorted ledger the first file at or below a slot is the highest ranked file of that slot,
      if the slot has a file at all. */
  lemma {:induction false} FirstHitIsBest(files: seq<SnapshotFile>, base: uint64, index: nat)
    requires Sorted(files) && index <= |files|
    requires forall k :: 0 <= k < index ==> files[k].slot > base
    requires forall k :: index <= k < |files| ==> files[k].slot <= base
    ensures BestAt(files, base) ==
            if index < |files| && files[index].slot == base then Some(files[index]) else None
    decreases |files|
  {
    if files != [] {
      var n := |files| - 1;
      if index <= n {
        FirstHitIsBest(files[..n], base, index);
        if index < n && files[n].slot == base {
          assert Compare(files[index], files[n]) >= 0;
          CompareIsTotalPreorder(files[index], files[n]);
        }
      } else {
        FirstHitIsBest(files[..n], base, n);
      }
    }
  }

  ghost function Onto(prefix: seq<SnapshotFile>, rest: Option<seq<SnapshotFile>>): Option<seq<SnapshotFile>> {
    if rest.None? then None else Some(prefix + rest.value)
  }

  lemma OntoStep(prefix: seq<SnapshotFile>, f: SnapshotFile, rest: Option<seq<SnapshotFile>>)
    ensures Onto(prefix, Onto([f], rest)) == Onto(prefix + [f], rest)
  {
    if rest.Some? {
      assert prefix + ([f] + rest.value) == prefix + [f] + rest.value;
    }
  }

  lemma StartOfChain(files: seq<SnapshotFile>, target: SnapshotFile)
    requires AllWellFormed(files) && WellFormed(target)
    ensures [target] == [] + [target]
    ensures TotalSize([target]) == target.size
    ensures GreedyChain(files, target) == Onto([], GreedyChain(files, target))
  {
    assert SumOfSizes([target]) == SumOfSizes([target][..0]) + target.size;
    if Listed(files, target) {
      assert [] + GreedyChain(files, target).value == GreedyChain(files, target).value;
    }
  }

  /** The chain that ends in the target, if the directory completes it. The files must be sorted;
      that they come from the parser is what makes the loop end. */
  method BuildSnapshotInfo(files: seq<SnapshotFile>, target: SnapshotFile) returns (info: Option<SnapshotInfo>)
    requires Sorted(files) && AllWellFormed(files) && WellFormed(target)
    ensures info.Some? <==> Listed(files, target)
    ensures info.Some? ==>
      var chain := GreedyChain(files, target).value;
      && chain != [] && info.value == InfoOfChain(chain)
      && info.value.files == chain && info.value.slot == target.slot && info.value.hash == target.hash
      && info.value.baseSlot == chain[|chain| - 1].slot && chain[|chain| - 1].IsFull()
      && info.value.totalSize == SumOfSizes(chain) % TWO_TO_THE_64
  {
    var chain := [target];
    var totalSize := target.size;
    ghost var prefix: seq<SnapshotFile> := [];
    StartOfChain(files, target);
    while true
      invariant chain != [] && chain[0] == target && chain == prefix + [chain[|chain| - 1]]
      invariant WellFormed(chain[|chain| - 1])
      invariant totalSize == TotalSize(chain)
      invariant GreedyChain(files, target) == Onto(prefix, GreedyChain(files, chain[|chain| - 1]))
      decreases chain[|chain| - 1].baseSlot
    {
      var base := chain[|chain| - 1].baseSlot;
      if base == 0 {
        break;
      }
      var index := SearchAtOrBelow(files, base);
      FirstHitIsBest(files, base, index);
      if index >= |files| || files[index].slot != base {
        return None;
      }
      OntoStep(prefix, chain[|chain| - 1], GreedyChain(files, files[index]));
      prefix := chain;
      TotalSizeStep(chain, files[index]);
      chain := chain + [files[index]];
      totalSize := AddWrapping(totalSize, files[index].size);
    }
    return Some(SnapshotInfo(target.slot, chain[|chain| - 1].slot, target.hash, chain, totalSize));
  }

  lemma TotalSizeStep(chain: seq<SnapshotFile>, f: SnapshotFile)
    ensures TotalSize(chain + [f]) == AddWrapping(TotalSize(chain), f.size)
  {
    assert (chain + [f])[..|chain|] == chain;
  }

  /** What listing a directory with these entries may return; an unstable sort leaves a choice. */
  ghost predicate IsListingOf(infos: seq<SnapshotInfo>, entries: seq<DirEntry>, decode: FileName.Decoder) {
    exists files ::
      && Sorted(files) && AllWellFormed(files)
      && multiset(files) == multiset(SnapshotFilesOf(entries, decode))
      && infos == Listing(files)
  }

  method ListSnapshots(dir: Result<seq<DirEntry>>, decode: FileName.Decoder)
    returns (r: Result<seq<SnapshotInfo>>)
    ensures r.Ok? <==> dir.Ok?
    ensures r.Ok? ==> IsListingOf(r.value, dir.value, decode)
  {
    var listed := ListSnapshotFiles(dir, decode);
    if listed.Err? {
      return Err(listed.error);
    }
    var infos := SnapshotsOf(listed.value);
    return Ok(infos);
  }

  method SnapshotsOf(files: seq<SnapshotFile>) returns (infos: seq<SnapshotInfo>)
    requires Sorted(files) && AllWellFormed(files)
    ensures infos == Listing(files)
  {
    infos := [];
    for i := 0 to |files|
      invariant infos == ListTargets(files, files[..i])
    {
      assert files[..i + 1][..i] == files[..i];
      var info := BuildSnapshotInfo(files, files[i]);
      if info.Some? {
        infos := infos + [info.value];
      }
    }
    assert files[..|files|] == files;
  }

  // ---- The order of the directory

  lemma {:induction false} FilesOfConcat(a: seq<DirEntry>, b: seq<DirEntry>, decode: FileName.Decoder)
    ensures SnapshotFilesOf(a + b, decode) == SnapshotFilesOf(a, decode) + SnapshotFilesOf(b, decode)
    decreases |b|
  {
    if b == [] {
      assert a + b == a;
    } else {
      assert (a + b)[..|a + b| - 1] == a + b[..|b| - 1];
      FilesOfConcat(a, b[..|b| - 1], decode);
    }
  }

  /** A regular file with a snapshot name that can be examined contributes one snapshot file, with the
      name's fields and the size and time that examining it gave; no other entry contributes any. */
  lemma EntryContributes(e: DirEntry, decode: FileName.Decoder)
    ensures
      var named := FileName.Parsed(e.name, decode);
      SnapshotFilesOf([e], decode) ==
        if e.regular && named.Some? && e.stat.Some?
        then [SnapshotFile(e.name, "", named.value.slot, named.value.baseSlot, named.value.hash, named.value.ext,
                           e.stat.value.modTime, e.stat.value.size)]
        else []
  {
    assert [e][..0] == [];
  }

  lemma WithoutEntry(entries: seq<DirEntry>, e: DirEntry, decode: FileName.Decoder) returns (rest: seq<DirEntry>)
    requires e in entries
    ensures |rest| == |entries| - 1 && multiset(rest) == multiset(entries) - multiset{e}
    ensures multiset(SnapshotFilesOf(entries, decode))
         == multiset(SnapshotFilesOf(rest, decode)) + multiset(SnapshotFilesOf([e], decode))
  {
    var k :| 0 <= k < |entries| && entries[k] == e;
    var before, after := entries[..k], entries[k + 1..];
    rest := before + after;
    assert entries == before + ([e] + after);
    FilesOfConcat(before, [e] + after, decode);
    FilesOfConcat([e], after, decode);
    FilesOfConcat(before, after, decode);
  }

  lemma {:induction false} PermutationOfFiles(a: seq<DirEntry>, b: seq<DirEntry>, decode: FileName.Decoder)
    requires multiset(a) == multiset(b)
    ensures multiset(SnapshotFilesOf(a, decode)) == multiset(SnapshotFilesOf(b, decode))
    decreases |a|
  {
    if a == [] {
      assert |multiset(b)| == |b|;
    } else {
      assert a[0] in multiset(b);
      var ra := WithoutEntry(a, a[0], decode);
      var rb := WithoutEntry(b, a[0], decode);
      PermutationOfFiles(ra, rb, decode);
    }
  }

  /** Whatever order a directory is read in and whichever way the sort places files that tie, any two
      listings of the same entries agree up to names, extensions, sizes and times. */
  lemma ListSnapshotsIgnoresOrder(
    a: seq<DirEntry>, b: seq<DirEntry>, decode: FileName.Decoder, r: seq<SnapshotInfo>, s: seq<SnapshotInfo>)
    requires multiset(a) == multiset(b)
    requires IsListingOf(r, a, decode) && IsListingOf(s, b, decode)
    ensures LedgerProperties.InfoKeys(r) == LedgerProperties.InfoKeys(s)
  {
    PermutationOfFiles(a, b, decode);
    var f :| Sorted(f) && AllWellFormed(f) && multiset(f) == multiset(SnapshotFilesOf(a, decode)) && r == Listing(f);
    var g :| Sorted(g) && AllWellFormed(g) && multiset(g) == multiset(SnapshotFilesOf(b, decode)) && s == Listing(g);
    LedgerProperties.ListingIgnoresDirectoryOrder(f, g);
  }
}
