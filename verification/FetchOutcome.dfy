/** How a run of the fetch command ends and what it has brought in by then, whatever fails. */
module FetchOutcome {
  import opened Snapshot
  import opened LedgerSpec
  import opened Fetch
  import opened FetchCommand

  // ---- Up to the choice of a snapshot

  /** The run can look at the tracker's answer for the requested slot, or at the best snapshots. */
  predicate Begins(flags: Flags, world: World) {
    && (flags.full || flags.incremental) && world.ledgerReadable
    && (flags.baseSlot == 0 ==> world.best.Sources?)
  }

  /** The run is given this advice. */
  ghost predicate IsAdvised(flags: Flags, local: seq<SnapshotInfo>, world: World, advice: Advice) {
    Begins(flags, world) && flags.baseSlot == 0
    && Decide(local, world.best.sources, flags.minAge, flags.maxAge).1 == advice
  }

  /** The run downloads from this answer, with or without a full pass. */
  ghost predicate DownloadsFrom(flags: Flags, local: seq<SnapshotInfo>, world: World, remote: Answer, full: bool) {
    || (Begins(flags, world) && flags.baseSlot != 0 && remote == world.atSlot(flags.baseSlot) && full == flags.full)
    || (IsAdvised(flags, local, world, AdviceFetch) && remote == world.best && full == flags.full)
    || (IsAdvised(flags, local, world, AdviceFetchFull) && flags.full && remote == world.best && full)
    || (IsAdvised(flags, local, world, AdviceFetchFull) && !flags.full && local != []
        && remote == world.atSlot(local[0].baseSlot) && !full)
    || (IsAdvised(flags, local, world, AdviceFetchIncremental) && flags.incremental && remote == world.best && !full)
  }

  /** Every end of a run that downloads nothing because of what it was told, and the only reasons for it. */
  lemma EndsWithoutDownloadIff(flags: Flags, local: seq<SnapshotInfo>, world: World)
    ensures
      var plan := RunPlan(flags, local, world);
      && (plan.outcome == NothingFound <==> Begins(flags, world) && flags.baseSlot == 0 && world.best.sources == [])
      && (plan.outcome == UpToDate <==> IsAdvised(flags, local, world, AdviceUpToDate) && local != [])
      && (plan.outcome == RemoteIsOlder <==> IsAdvised(flags, local, world, AdviceRemoteIsOlder))
      && (plan.outcome == OnlyFullRequested <==>
            IsAdvised(flags, local, world, AdviceFetchIncremental) && !flags.incremental)
      && (plan.outcome == Panic <==>
            local == [] && (|| IsAdvised(flags, local, world, AdviceUpToDate)
                            || (IsAdvised(flags, local, world, AdviceFetchFull) && !flags.full)))
      && (plan.outcome != Done && plan.outcome != Fatal ==> plan.downloads == [])
      && plan.full == (flags.full && !IsAdvised(flags, local, world, AdviceFetchIncremental))
  {
    AdviceTable(local, if world.best.Sources? then world.best.sources else [], flags.minAge, flags.maxAge);
  }

  // ---- The passes, file by file

  ghost predicate AllDelivered(files: seq<SnapshotFile>, full: bool, world: World) {
    forall f :: f in files && (f.IsFull() <==> full) ==> world.delivers(f)
  }

  lemma {:induction false} PassCounts(files: seq<SnapshotFile>, full: bool, f: SnapshotFile)
    ensures multiset(Pass(files, full, !full))[f] == if f.IsFull() <==> full then multiset(files)[f] else 0
    decreases |files|
  {
    if files != [] {
      var before, last := files[..|files| - 1], files[|files| - 1];
      assert files == before + [last];
      PassCounts(before, full, f);
    }
  }

  lemma {:induction false} ArrivingCounts(files: seq<SnapshotFile>, delivers: SnapshotFile -> bool, f: SnapshotFile)
    ensures multiset(Arriving(files, delivers))[f] == if delivers(f) then multiset(files)[f] else 0
    decreases |files|
  {
    if files != [] {
      var before, last := files[..|files| - 1], files[|files| - 1];
      assert files == before + [last];
      ArrivingCounts(before, delivers, f);
    }
  }

  /** How often a file of one pass over these files arrives. */
  function Arrivals(files: seq<SnapshotFile>, full: bool, world: World, f: SnapshotFile): nat {
    if (f.IsFull() <==> full) && world.delivers(f) then multiset(files)[f] else 0
  }

  lemma PassArrives(files: seq<SnapshotFile>, full: bool, world: World, f: SnapshotFile)
    ensures multiset(Arriving(Pass(files, full, !full), world.delivers))[f] == Arrivals(files, full, world, f)
  {
    ArrivingCounts(Pass(files, full, !full), world.delivers, f);
    PassCounts(files, full, f);
  }

  lemma PassCompletesIff(files: seq<SnapshotFile>, full: bool, world: World)
    ensures AllArrive(Pass(files, full, !full), world.delivers) <==> AllDelivered(files, full, world)
  {
    var wanted := Pass(files, full, !full);
    forall f ensures f in wanted <==> f in files && (f.IsFull() <==> full) {
      PassCounts(files, full, f);
      assert f in wanted <==> multiset(wanted)[f] > 0;
      assert f in files <==> multiset(files)[f] > 0;
    }
  }

  // ---- The downloads of a run

  /** The full pass, if there is one, has a snapshot to work on and all its full files arrive. */
  ghost predicate FullPassCompletes(remote: Answer, full: bool, world: World) {
    remote.Found() && (full ==> AllDelivered(remote.Head().files, true, world))
  }

  /** The answer that the incremental pass works on: asked for again after a full pass. */
  function LastAnswer(remote: Answer, full: bool, world: World): Answer
    requires remote.Found()
  {
    if full then world.refreshed(remote.Head().baseSlot) else remote
  }

  ghost predicate IncrementalPassStarts(flags: Flags, remote: Answer, full: bool, world: World) {
    flags.incremental && FullPassCompletes(remote, full, world) && LastAnswer(remote, full, world).Found()
  }

  /** Nothing is missing that the run wants. */
  ghost predicate Completes(flags: Flags, remote: Answer, full: bool, world: World) {
    && FullPassCompletes(remote, full, world)
    && (flags.incremental ==>
          && LastAnswer(remote, full, world).Found()
          && AllDelivered(LastAnswer(remote, full, world).Head().files, false, world))
  }

  /** A run that comes to download ends with success exactly when there is a snapshot, all its full
      files arrive if there is a full pass, and, if incrementals are asked for, there is a snapshot for
      the incremental pass and all its incrementals arrive. */
  lemma DoneIff(flags: Flags, local: seq<SnapshotInfo>, world: World, remote: Answer, full: bool)
    requires DownloadsFrom(flags, local, world, remote, full)
    ensures
      var plan := RunPlan(flags, local, world);
      && (plan.outcome == Done || plan.outcome == Fatal) && plan.full == full
      && (plan.outcome == Done <==> Completes(flags, remote, full, world))
  {
    assert RunPlan(flags, local, world) == DownloadPlan(full, flags.incremental, remote, world);
    if remote.Found() {
      PassCompletesIff(remote.Head().files, true, world);
      if flags.incremental && LastAnswer(remote, full, world).Found() {
        PassCompletesIff(LastAnswer(remote, full, world).Head().files, false, world);
      }
    }
  }

  /** However it ends, each full file of the snapshot that is delivered has arrived if there is a full
      pass, each incremental of the last snapshot that is delivered has arrived if the incremental pass
      was started, and nothing else. */
  lemma DownloadsCount(
    flags: Flags, local: seq<SnapshotInfo>, world: World, remote: Answer, full: bool, f: SnapshotFile)
    requires DownloadsFrom(flags, local, world, remote, full)
    ensures multiset(RunPlan(flags, local, world).downloads)[f] ==
      if f.IsFull() then (if full && remote.Found() then Arrivals(remote.Head().files, true, world, f) else 0)
      else if IncrementalPassStarts(flags, remote, full, world)
        then Arrivals(LastAnswer(remote, full, world).Head().files, false, world, f)
      else 0
  {
    assert RunPlan(flags, local, world) == DownloadPlan(full, flags.incremental, remote, world);
    if remote.Found() {
      PassCompletesIff(remote.Head().files, true, world);
      PassArrives(remote.Head().files, true, world, f);
      if LastAnswer(remote, full, world).Found() {
        PassArrives(LastAnswer(remote, full, world).Head().files, false, world, f);
      }
    }
  }

  /** The run ends with an error exactly when no part was asked for, the ledger cannot be read, the first
      request fails, or it comes to download and one of the conditions for success is not met. */
  lemma FatalIff(flags: Flags, local: seq<SnapshotInfo>, world: World)
    ensures
      RunPlan(flags, local, world).outcome == Fatal <==>
        || !Begins(flags, world)
        || exists remote, full ::
             DownloadsFrom(flags, local, world, remote, full) && !Completes(flags, remote, full, world)
    ensures !Begins(flags, world) ==> RunPlan(flags, local, world).downloads == []
  {
    EndsWithoutDownloadIff(flags, local, world);
    var remote, full := Choice(flags, local, world);
    if DownloadsFrom(flags, local, world, remote, full) {
      DoneIff(flags, local, world, remote, full);
    }
    if Begins(flags, world) && exists r, b :: DownloadsFrom(flags, local, world, r, b) {
      var r, b :| DownloadsFrom(flags, local, world, r, b);
      DoneIff(flags, local, world, r, b);
    }
  }

  /** What the run downloads from, if anything. */
  lemma Choice(flags: Flags, local: seq<SnapshotInfo>, world: World) returns (remote: Answer, full: bool)
    ensures Begins(flags, world) && RunPlan(flags, local, world).outcome in {Done, Fatal} ==>
              DownloadsFrom(flags, local, world, remote, full)
  {
    full := flags.full && !IsAdvised(flags, local, world, AdviceFetchIncremental);
    remote :=
      if flags.baseSlot != 0 then world.atSlot(flags.baseSlot)
      else if IsAdvised(flags, local, world, AdviceFetchFull) && !flags.full && local != []
        then world.atSlot(local[0].baseSlot)
      else world.best;
  }

  /** A wanted full file that does not arrive ends the run with an error and without incrementals. */
  lemma LostFullFileIsFatal(
    flags: Flags, local: seq<SnapshotInfo>, world: World, remote: Answer, lost: SnapshotFile)
    requires DownloadsFrom(flags, local, world, remote, true) && remote.Found()
    requires lost in remote.Head().files && lost.IsFull() && !world.delivers(lost)
    ensures RunPlan(flags, local, world).outcome == Fatal
    ensures forall f :: f in RunPlan(flags, local, world).downloads ==> f.IsFull() && f in remote.Head().files
  {
    DoneIff(flags, local, world, remote, true);
    var downloads := RunPlan(flags, local, world).downloads;
    forall f | f in downloads ensures f.IsFull() && f in remote.Head().files {
      assert multiset(downloads)[f] > 0;
      DownloadsCount(flags, local, world, remote, true, f);
    }
  }
}
