/** Ledgers and answers for which a fetch never comes to rest. Each is a fixed point: the run
    downloads files that the ledger already has, so every further run is the same. */
module FetchExamples {
  import opened Snapshot
  import opened LedgerSpec
  import opened LedgerProperties
  import opened Fetch
  import opened FetchAdoption
  import opened FetchCommand
  import opened FetchConvergence

  /** The run on local downloads exactly these files, and so does the run on the ledger they give. */
  ghost predicate Repeats(
    flags: Flags, world: World, local: seq<SnapshotFile>, downloads: seq<SnapshotFile>, after: seq<SnapshotFile>)
  {
    && AllWellFormed(local) && Sorted(local) && AllWellFormed(after) && Sorted(after)
    && downloads != []
    && RunPlan(flags, Listing(local), world).downloads == downloads
    && Gained(local, downloads, after)
    && RunPlan(flags, Listing(after), world).downloads == downloads
    && Gained(after, downloads, after)
  }

  /** If only one file from a slot on is listed, the listing begins with it. */
  lemma OnlyTarget(files: seq<SnapshotFile>, t: SnapshotFile)
    requires AllWellFormed(files) && Sorted(files) && t in files && Listed(files, t)
    requires forall f :: f in files && Listed(files, f) && f.slot >= t.slot ==> f == t
    ensures Listing(files) != []
    ensures GreedyChain(files, t).value != [] && Listing(files)[0] == InfoOfChain(GreedyChain(files, t).value)
  {
    HeadOfListing(files, t);
    var u := HeadIsListed(files);
  }

  lemma FullAlone(files: seq<SnapshotFile>, full: SnapshotFile)
    requires AllWellFormed(files) && Sorted(files) && full in files && full.IsFull()
    requires forall f :: f in files && Listed(files, f) && f.slot >= full.slot ==> f == full
    ensures Listing(files) != [] && Listing(files)[0] == InfoOfChain([full])
  {
    OnlyTarget(files, full);
  }

  /** An incremental at the top, resting directly on the one full file of its base slot. */
  lemma IncrementalOnFull(files: seq<SnapshotFile>, top: SnapshotFile, full: SnapshotFile)
    requires AllWellFormed(files) && Sorted(files) && top in files && full in files
    requires !top.IsFull() && full.IsFull() && top.baseSlot == full.slot
    requires forall f :: f in files && f.slot == full.slot ==> f == full
    requires forall f :: f in files && Listed(files, f) && f.slot >= top.slot ==> f == top
    ensures Listing(files) != [] && Listing(files)[0] == InfoOfChain([top, full])
  {
    assert BestAt(files, full.slot) == Some(full);
    assert GreedyChain(files, full) == Some([full]);
    assert [top] + [full] == [top, full];
    OnlyTarget(files, top);
  }

  lemma ChainOfTwo(top: SnapshotFile, full: SnapshotFile)
    requires WellFormed(top) && !top.IsFull() && full.IsFull() && top.baseSlot == full.slot
    ensures IsChainInfo(InfoOfChain([top, full]))
  {
    assert [top, full][1..] == [full];
    assert [full][0] in [top, full];
    assert [top, full][1] in [top, full];
  }

  // ---- A stale incremental on another base where the remote chain has a link

  function StuckLedger(h: Hash): (files: seq<SnapshotFile>)
    ensures forall f :: f in files <==> f == Example(20, 10, h) || f == Example(5, 0, h)
  {
    [Example(20, 10, h), Example(5, 0, h)]
  }

  function StuckChain(h: Hash): seq<SnapshotFile> {
    [Example(30, 20, h), Example(20, 5, h), Example(5, 0, h)]
  }

  lemma StuckBefore(h: Hash)
    ensures
      var files := StuckLedger(h);
      AllWellFormed(files) && Sorted(files) && Listing(files) != []
      && Listing(files)[0] == InfoOfChain([Example(5, 0, h)])
  {
    var files := StuckLedger(h);
    assert BestAt(files, 10).None?;
    FullAlone(files, Example(5, 0, h));
  }

  lemma StuckAfter(h: Hash)
    ensures
      var files := DeadFork(h);
      AllWellFormed(files) && Sorted(files) && Listing(files) != []
      && Listing(files)[0] == InfoOfChain([Example(20, 5, h), Example(5, 0, h)])
  {
    var files := DeadFork(h);
    DeadForkExample(h);
    assert BestAt(files, 10).None?;
    IncrementalOnFull(files, Example(20, 5, h), Example(5, 0, h));
  }

  lemma StuckRemote(h: Hash)
    ensures IsChainInfo(InfoOfChain(StuckChain(h)))
  {
    DeadForkChain(h);
    ChainWithinItself(DeadFork(h), StuckChain(h), StuckChain(h));
  }

  lemma StuckGain(h: Hash)
    ensures Gained(StuckLedger(h), StuckChain(h)[..2], DeadFork(h))
    ensures Gained(DeadFork(h), StuckChain(h)[..2], DeadFork(h))
  {
    var a, b, c, d := Example(30, 20, h), Example(20, 10, h), Example(20, 5, h), Example(5, 0, h);
    assert DeadFork(h) == [a, b, c, d] && StuckLedger(h) == [b, d] && StuckChain(h)[..2] == [a, c];
    assert Keys([a, b, c, d]) == [KeyOf(a), KeyOf(b), KeyOf(c), KeyOf(d)];
    assert Keys([b, d]) == [KeyOf(b), KeyOf(d)];
    assert Keys([a, c]) == [KeyOf(a), KeyOf(c)];
  }

  lemma StuckPlan(h: Hash, infos: seq<SnapshotInfo>, files: seq<SnapshotFile>, world: World)
    requires Healthy(world) && world.best.Found() && world.best.Head() == InfoOfChain(StuckChain(h))
    requires files != [] && files[0].slot <= 20 && files[|files| - 1] == Example(5, 0, h)
    requires infos != [] && infos[0] == InfoOfChain(files)
    ensures RunPlan(Flags(true, true, 0, 1, 0), infos, world).downloads == StuckChain(h)[..2]
  {
    StuckRemote(h);
    var full := Example(5, 0, h);
    assert StuckChain(h)[2] == full && full in StuckChain(h) && full in files;
    assert ShareFullFile(files, StuckChain(h));
    HealthyDownload(false, true, world.best, world);
  }

  /** Both flags on: the advice is to fetch incrementals, they all arrive, the local detour hides
      them, and the run repeats. */
  lemma FetchMayRepeatForever(h: Hash, world: World)
    requires Healthy(world) && world.best.Found() && world.best.Head() == InfoOfChain(StuckChain(h))
    ensures Repeats(Flags(true, true, 0, 1, 0), world, StuckLedger(h), StuckChain(h)[..2], DeadFork(h))
    ensures IsChain(StuckChain(h)) && !CanReach(StuckLedger(h), StuckChain(h))
  {
    var local, after, flags := StuckLedger(h), DeadFork(h), Flags(true, true, 0, 1, 0);
    StuckBefore(h);
    StuckAfter(h);
    StuckRemote(h);
    StuckGain(h);
    StuckPlan(h, Listing(local), [Example(5, 0, h)], world);
    StuckPlan(h, Listing(after), [Example(20, 5, h), Example(5, 0, h)], world);
    StuckCannotReach(h);
  }

  lemma StuckCannotReach(h: Hash)
    ensures IsChain(StuckChain(h)) && !CanReach(StuckLedger(h), StuckChain(h))
  {
    StuckRemote(h);
    var local, chain := StuckLedger(h), StuckChain(h);
    var dead := Example(20, 10, h);
    assert IsBest(local, 20, BestAt(local, 20).value);
    assert BestAt(local, 20).value == dead;
    assert Detours(local, chain, 1);
    assert FirstDetour(local, chain, 1) == 1;
    assert BestAt(local + chain, 10).None?;
  }

  // ---- Without --full, and the remote has a newer full snapshot

  lemma FallbackGain(h: Hash)
    ensures
      var top, full := Example(20, 5, h), Example(5, 0, h);
      Gained([full], [top], [top, full]) && Gained([top, full], [top], [top, full])
  {
    var top, full := Example(20, 5, h), Example(5, 0, h);
    assert Keys([full]) == [KeyOf(full)] && Keys([top]) == [KeyOf(top)];
    assert Keys([top, full]) == [KeyOf(top), KeyOf(full)];
  }

  lemma FallbackListings(h: Hash)
    ensures
      var top, full := Example(20, 5, h), Example(5, 0, h);
      && AllWellFormed([full]) && Sorted([full]) && AllWellFormed([top, full]) && Sorted([top, full])
      && Listing([full]) != [] && Listing([full])[0] == InfoOfChain([full])
      && Listing([top, full]) != [] && Listing([top, full])[0] == InfoOfChain([top, full])
  {
    var top, full := Example(20, 5, h), Example(5, 0, h);
    FullAlone([full], full);
    assert forall f :: f in [top, full] <==> f == top || f == full;
    IncrementalOnFull([top, full], top, full);
  }

  /** The run falls back on the local full snapshot, fetches what there is for it, and compares with
      the newer full snapshot again: the same incrementals are downloaded by every run. */
  lemma IncrementalOnlyMayRepeatForever(h: Hash, world: World)
    requires Healthy(world)
    requires world.best.Found() && world.best.Head() == InfoOfChain([Example(1000, 0, h)])
    requires world.atSlot(5).Found()
             && world.atSlot(5).Head() == InfoOfChain([Example(20, 5, h), Example(5, 0, h)])
    ensures
      Repeats(Flags(false, true, 0, 500, 0), world,
              [Example(5, 0, h)], [Example(20, 5, h)], [Example(20, 5, h), Example(5, 0, h)])
  {
    var top, full := Example(20, 5, h), Example(5, 0, h);
    FallbackListings(h);
    FallbackGain(h);
    ChainOfTwo(top, full);
    HealthyDownload(false, true, world.atSlot(5), world);
    assert Incrementals(world.atSlot(5).Head()) == [top];
  }

  // ---- Without --incremental, and the head of the listing stays on an older full file

  lemma OlderRootGain(h: Hash)
    ensures
      var top, mid, full := Example(50, 5, h), Example(40, 0, h), Example(5, 0, h);
      Gained([top, full], [mid], [top, mid, full]) && Gained([top, mid, full], [mid], [top, mid, full])
  {
    var top, mid, full := Example(50, 5, h), Example(40, 0, h), Example(5, 0, h);
    assert Keys([top, full]) == [KeyOf(top), KeyOf(full)] && Keys([mid]) == [KeyOf(mid)];
    assert Keys([top, mid, full]) == [KeyOf(top), KeyOf(mid), KeyOf(full)];
  }

  lemma OlderRootListings(h: Hash)
    ensures
      var top, mid, full := Example(50, 5, h), Example(40, 0, h), Example(5, 0, h);
      var local, after := [top, full], [top, mid, full];
      && AllWellFormed(local) && Sorted(local) && AllWellFormed(after) && Sorted(after)
      && Listing(local) != [] && Listing(local)[0] == InfoOfChain([top, full])
      && Listing(after) != [] && Listing(after)[0] == InfoOfChain([top, full])
  {
    var top, mid, full := Example(50, 5, h), Example(40, 0, h), Example(5, 0, h);
    var local, after := [top, full], [top, mid, full];
    assert forall f :: f in local <==> f == top || f == full;
    assert forall f :: f in after <==> f == top || f == mid || f == full;
    IncrementalOnFull(local, top, full);
    IncrementalOnFull(after, top, full);
  }

  /** The remote full file lies between the local full file and the local head: it is downloaded, the
      head still rests on the older full file, and the full file is downloaded by every run. */
  lemma FullOnlyMayRepeatForever(h: Hash, world: World)
    requires Healthy(world)
    requires world.best.Found() && world.best.Head() == InfoOfChain([Example(1000, 40, h), Example(40, 0, h)])
    ensures
      Repeats(Flags(true, false, 0, 500, 0), world,
              [Example(50, 5, h), Example(5, 0, h)], [Example(40, 0, h)],
              [Example(50, 5, h), Example(40, 0, h), Example(5, 0, h)])
  {
    OlderRootListings(h);
    OlderRootGain(h);
    ChainOfTwo(Example(1000, 40, h), Example(40, 0, h));
    HealthyDownload(true, false, world.best, world);
  }
}
