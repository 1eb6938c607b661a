/** Runs of the fetch command: what they download, what the ledger lists afterwards, and when the
    next run has nothing left to do. */
module FetchConvergence {
  import opened Snapshot
  import opened LedgerSpec
  import opened LedgerProperties
  import opened Fetch
  import opened FetchAdoption
  import opened FetchCommand

  // ---- The two passes

  lemma {:induction false} PassesPartition(files: seq<SnapshotFile>)
    ensures multiset(Pass(files, true, false)) + multiset(Pass(files, false, true)) == multiset(files)
    ensures forall f :: f in Pass(files, true, false) <==> f in files && f.IsFull()
    ensures forall f :: f in Pass(files, false, true) <==> f in files && !f.IsFull()
    decreases |files|
  {
    if files != [] {
      var before, f := files[..|files| - 1], files[|files| - 1];
      assert files == before + [f];
      PassesPartition(before);
    }
  }

  lemma {:induction false} ArrivingFiles(files: seq<SnapshotFile>, delivers: SnapshotFile -> bool)
    ensures forall f :: f in Arriving(files, delivers) <==> f in files && delivers(f)
    ensures AllArrive(files, delivers) ==> Arriving(files, delivers) == files
    decreases |files|
  {
    if files != [] {
      var before, f := files[..|files| - 1], files[|files| - 1];
      assert files == before + [f];
      ArrivingFiles(before, delivers);
      assert AllArrive(files, delivers) ==> AllArrive(before, delivers) && delivers(f);
    }
  }

  /** What is true of every file that the full pass and the incremental pass bring in. */
  lemma FilesOfPass(files: seq<SnapshotFile>, full: bool, delivers: SnapshotFile -> bool, f: SnapshotFile)
    requires f in Arriving(Pass(files, full, !full), delivers)
    ensures f in files && delivers(f) && (f.IsFull() <==> full)
  {
    ArrivingFiles(Pass(files, full, !full), delivers);
    PassesPartition(files);
  }

  /** The tracker speaks only of snapshots that some ledger has listed. */
  ghost predicate TellsOfChains(world: World) {
    && (world.best.Found() ==> IsChainInfo(world.best.Head()))
    && (forall slot: uint64 :: world.atSlot(slot).Found() ==> IsChainInfo(world.atSlot(slot).Head()))
    && (forall slot: uint64 :: world.refreshed(slot).Found() ==> IsChainInfo(world.refreshed(slot).Head()))
  }

  /** All slots it speaks of are below 2^63. */
  ghost predicate TellsOfSmallSlots(world: World) {
    && (world.best.Found() ==> world.best.Head().slot < TWO_TO_THE_63)
    && (forall slot: uint64 :: world.atSlot(slot).Found() ==> world.atSlot(slot).Head().slot < TWO_TO_THE_63)
    && (forall slot: uint64 :: world.refreshed(slot).Found() ==> world.refreshed(slot).Head().slot < TWO_TO_THE_63)
  }

  lemma FileOfChain(info: SnapshotInfo, f: SnapshotFile)
    requires f in info.files
    ensures IsChainInfo(info) ==> WellFormed(f) && f.slot <= info.slot
  {
    if IsChainInfo(info) {
      ChainShape(info.files, info.files);
    }
  }

  lemma FilesOfDownload(full: bool, incremental: bool, remote: Answer, world: World, f: SnapshotFile)
    requires f in DownloadPlan(full, incremental, remote, world).downloads
    ensures remote.Found()
    ensures world.delivers(f) && (if f.IsFull() then full else incremental)
    ensures f in remote.Head().files
            || (world.refreshed(remote.Head().baseSlot).Found()
                && f in world.refreshed(remote.Head().baseSlot).Head().files)
  {
    var snap := remote.Head();
    if !full {
      FilesOfPass(snap.files, false, world.delivers, f);
    } else if f in Arriving(Pass(snap.files, true, false), world.delivers) {
      FilesOfPass(snap.files, true, world.delivers, f);
    } else {
      FilesOfPass(world.refreshed(snap.baseSlot).Head().files, false, world.delivers, f);
    }
  }

  /** Every file that a run brings in was delivered and asked for: no full file without --full, no
      incremental one without --incremental, whatever the tracker answers and however the run ends. */
  lemma DownloadsOnlyWhatIsAsked(flags: Flags, local: seq<SnapshotInfo>, world: World, f: SnapshotFile)
    requires f in RunPlan(flags, local, world).downloads
    ensures world.delivers(f) && (if f.IsFull() then flags.full else flags.incremental)
    ensures TellsOfChains(world) ==> WellFormed(f)
    ensures TellsOfChains(world) && TellsOfSmallSlots(world) ==> f.slot < TWO_TO_THE_63
  {
    var advice :=
      if world.best.Sources? then Decide(local, world.best.sources, flags.minAge, flags.maxAge).1
      else AdviceFetch;
    var full := flags.full && (flags.baseSlot != 0 || advice != AdviceFetchIncremental);
    var remote :=
      if flags.baseSlot != 0 then world.atSlot(flags.baseSlot)
      else if advice == AdviceFetchFull && !flags.full then world.atSlot(local[0].baseSlot)
      else world.best;
    FilesOfDownload(full, flags.incremental, remote, world, f);
    var again := world.refreshed(remote.Head().baseSlot);
    if f in remote.Head().files {
      FileOfChain(remote.Head(), f);
    } else {
      FileOfChain(again.Head(), f);
    }
  }

  /** The run indexes an empty local listing, and so crashes, exactly in these cases. */
  lemma RunPanicsIff(flags: Flags, local: seq<SnapshotInfo>, world: World)
    ensures RunPlan(flags, local, world).outcome == Panic <==>
            && (flags.full || flags.incremental) && world.ledgerReadable && flags.baseSlot == 0
            && local == [] && world.best.Found()
            && (|| NotNewEnough(world.best.Head().slot, 0, flags.minAge)
                || (!flags.full && world.best.Head().baseSlot > 0))
  {
  }

  // ---- Runs in which nothing fails

  ghost predicate Healthy(world: World) {
    world.ledgerReadable && forall f :: world.delivers(f)
  }

  lemma {:induction false} PassOfIncrementals(files: seq<SnapshotFile>)
    requires forall f :: f in files ==> !f.IsFull()
    ensures Pass(files, false, true) == files && Pass(files, true, false) == []
    decreases |files|
  {
    if files != [] {
      var before, f := files[..|files| - 1], files[|files| - 1];
      assert files == before + [f];
      assert f in files;
      PassOfIncrementals(before);
    }
  }

  function Incrementals(info: SnapshotInfo): seq<SnapshotFile>
    requires info.files != []
  {
    info.files[..|info.files| - 1]
  }

  function Root(info: SnapshotInfo): SnapshotFile
    requires info.files != []
  {
    info.files[|info.files| - 1]
  }

  lemma PassesOfChain(info: SnapshotInfo, world: World)
    requires IsChainInfo(info) && Healthy(world)
    ensures Pass(info.files, false, true) == Incrementals(info)
    ensures Pass(info.files, true, false) == [Root(info)]
    ensures AllArrive(Incrementals(info), world.delivers)
    ensures Arriving(Incrementals(info), world.delivers) == Incrementals(info)
    ensures AllArrive([Root(info)], world.delivers) && Arriving([Root(info)], world.delivers) == [Root(info)]
  {
    ChainShape(info.files, info.files);
    PassOfIncrementals(Incrementals(info));
    ArrivingFiles(Incrementals(info), world.delivers);
    ArrivingFiles([Root(info)], world.delivers);
  }

  /** What a download of a listed snapshot brings in when nothing fails: its full file, its
      incrementals, or its full file and the incrementals of the second answer. */
  lemma HealthyDownload(full: bool, incremental: bool, remote: Answer, world: World)
    requires Healthy(world) && remote.Found() && IsChainInfo(remote.Head())
    requires
      var again := world.refreshed(remote.Head().baseSlot);
      full && incremental && again.Found() ==> IsChainInfo(again.Head())
    ensures
      var again := world.refreshed(remote.Head().baseSlot);
      DownloadPlan(full, incremental, remote, world) ==
        if !full then Plan(Done, if incremental then Incrementals(remote.Head()) else [], full)
        else if !incremental then Plan(Done, [Root(remote.Head())], full)
        else if !again.Found() then Plan(Fatal, [Root(remote.Head())], full)
        else Plan(Done, [Root(remote.Head())] + Incrementals(again.Head()), full)
  {
    PassesOfChain(remote.Head(), world);
    var again := world.refreshed(remote.Head().baseSlot);
    if full && incremental && again.Found() {
      PassesOfChain(again.Head(), world);
    }
  }

  /** A ledger directory as listed, and the tracker's best snapshot, below 2^63. */
  ghost predicate Setting(local: seq<SnapshotFile>, flags: Flags, world: World) {
    && AllWellFormed(local) && Sorted(local) && SlotsFitInt64(local)
    && Healthy(world) && TellsOfChains(world)
    && world.best.Found() && world.best.Head().slot < TWO_TO_THE_63
    && flags.baseSlot == 0 && 0 < flags.minAge < TWO_TO_THE_63
  }

  ghost function AdviceFor(flags: Flags, local: seq<SnapshotFile>, world: World): Advice
    requires AllWellFormed(local) && world.best.Sources?
  {
    Decide(Listing(local), world.best.sources, flags.minAge, flags.maxAge).1
  }

  /** The advice in plain integers, looking only at what the listing begins with. */
  ghost function PlainAdvice(flags: Flags, listing: seq<SnapshotInfo>, world: World): Advice
    requires world.best.Found() && world.best.Head().files != []
    requires listing != [] ==> listing[0].files != []
  {
    Intended(listing, world.best.Head(), flags.minAge)
  }

  lemma AdviceIsPlain(local: seq<SnapshotFile>, flags: Flags, world: World)
    requires Setting(local, flags, world)
    ensures Listing(local) != [] ==> IsChainInfo(Listing(local)[0])
    ensures AdviceFor(flags, local, world) == PlainAdvice(flags, Listing(local), world)
    ensures AdviceFor(flags, local, world) == AdviceFetchIncremental ==> |world.best.Head().files| > 1
  {
    var infos := Listing(local);
    if infos != [] {
      assert infos[0] in infos;
      ListedInfosAreChains(local, infos[0]);
    }
    HeadFitsInt64(local);
    DecisionIsExact(infos, world.best.sources, flags.minAge, flags.maxAge);
  }

  /** The full file that the head of the local listing rests on. */
  lemma LocalRoot(local: seq<SnapshotFile>) returns (root: SnapshotFile)
    requires AllWellFormed(local) && Sorted(local) && Listing(local) != []
    ensures
      var head := Listing(local)[0];
      && IsChainInfo(head) && root == Root(head)
      && root.IsFull() && root.slot == head.baseSlot && IsBest(local, root.slot, root)
  {
    RootOfHeadIsBest(local);
    var head := Listing(local)[0];
    assert head in Listing(local);
    ListedInfosAreChains(local, head);
    root := Root(head);
  }

  /** A run ends with "up to date" exactly when the local listing is not empty and the best snapshot is
      not newer than its head by the minimum age; it then downloads nothing. */
  lemma UpToDateIff(files: seq<SnapshotFile>, flags: Flags, world: World)
    requires Setting(files, flags, world) && (flags.full || flags.incremental)
    ensures
      var plan, recent := RunPlan(flags, Listing(files), world),
                          world.best.Head().slot < HeadSlot(Listing(files)) + flags.minAge;
      && (plan.outcome == UpToDate <==> recent && Listing(files) != [])
      && (recent ==> plan.downloads == [])
  {
    NextDecisionIff(files, world.best.sources, flags.minAge, flags.maxAge);
  }

  /** The run after a chain was adopted: if the search can reach a full file from it, and the best
      snapshot is not newer than it by the minimum age, that run finds the ledger up to date. */
  lemma AdoptedRunSettles(
    local: seq<SnapshotFile>, chain: seq<SnapshotFile>, after: seq<SnapshotFile>, flags: Flags, world: World)
    requires Setting(local, flags, world) && (flags.full || flags.incremental)
    requires Adopts(local, chain, after) && Sorted(after) && SlotsFitInt64(chain)
    requires CanReach(local, chain) && world.best.Head().slot < chain[0].slot + flags.minAge
    ensures
      var plan := RunPlan(flags, Listing(after), world);
      plan.outcome == UpToDate && plan.downloads == []
  {
    AdoptedHead(local, chain, after);
    AdoptedFitsInt64(local, chain, after);
    UpToDateIff(after, flags, world);
  }

  // ---- The convergence theorems

  /** If the search can reach a full file from the chain, as it always can from one or two files, and
      the best snapshot is not newer than the chain by the minimum age, the next decision is to do
      nothing. */
  ghost predicate CatchesUp(
    local: seq<SnapshotFile>, chain: seq<SnapshotFile>, after: seq<SnapshotFile>, flags: Flags, world: World)
    requires AllWellFormed(local) && AllWellFormed(after) && IsChain(chain) && world.best.Found()
  {
    (CanReach(local, chain) || |chain| <= 2) && world.best.Head().slot < chain[0].slot + flags.minAge ==>
      AdviceFor(flags, after, world) == AdviceUpToDate
  }

  lemma AdoptedCatchesUp(
    local: seq<SnapshotFile>, chain: seq<SnapshotFile>, after: seq<SnapshotFile>, flags: Flags, world: World)
    requires Setting(local, flags, world)
    requires Adopts(local, chain, after) && Sorted(after) && SlotsFitInt64(chain)
    ensures CatchesUp(local, chain, after, flags, world)
  {
    if |chain| <= 2 {
      ReachesUnlessOutranked(local, chain);
    }
    if CanReach(local, chain) {
      AdoptedHead(local, chain, after);
    }
    AdoptedFitsInt64(local, chain, after);
    NextDecisionIff(after, world.best.sources, flags.minAge, flags.maxAge);
  }

  /** Advice "incremental": the run downloads exactly the incrementals of the remote chain, and the
      ledger converges to that chain. For the usual remote chain of two, no local file can outrank it, and
      the next decision is always "up to date". */
  lemma IncrementalFetchConverges(local: seq<SnapshotFile>, flags: Flags, world: World, after: seq<SnapshotFile>)
    requires Setting(local, flags, world) && flags.incremental
    requires AdviceFor(flags, local, world) == AdviceFetchIncremental
    requires AllWellFormed(after) && Sorted(after)
    requires Gained(local, RunPlan(flags, Listing(local), world).downloads, after)
    ensures
      var r := world.best.Head();
      && RunPlan(flags, Listing(local), world) == Plan(Done, Incrementals(r), false) && |r.files| > 1
      && Adopts(local, r.files, after)
      && Converges(local, r.files, after, world.best.sources, flags.minAge, flags.maxAge)
      && (CanReach(local, r.files) ==> AdviceFor(flags, after, world) == AdviceUpToDate)
      && (|r.files| == 2 ==> NotOutranked(local, r.files) && AdviceFor(flags, after, world) == AdviceUpToDate)
  {
    var r := world.best.Head();
    AdviceIsPlain(local, flags, world);
    HealthyDownload(false, true, world.best, world);
    var root := LocalRoot(local);
    SameRoot(local, r, root);
    RebasedKeys(r.files, root);
    IncrementalsAdopted(local, r, root, after);
    AdoptedByTwin(local, Rebased(r.files, root), r.files, after);
    ChainFitsInt64(r);
    AdoptedConverges(local, r.files, after, world.best.sources, flags.minAge, flags.maxAge);
    if |r.files| == 2 {
      TwoFileChain(local, r.files, root);
    }
  }

  lemma SameRoot(local: seq<SnapshotFile>, r: SnapshotInfo, root: SnapshotFile)
    requires IsChainInfo(r) && root.IsFull() && root.slot == r.baseSlot && root.hash == RootHash(r)
    ensures KeyOf(root) == KeyOf(Root(r))
  {
    ChainShape(r.files, r.files);
  }

  lemma ChainFitsInt64(info: SnapshotInfo)
    requires IsChainInfo(info) && info.slot < TWO_TO_THE_63
    ensures SlotsFitInt64(info.files)
  {
    ChainShape(info.files, info.files);
  }

  /** Adopting a chain is a matter of its keys. */
  lemma AdoptedByTwin(local: seq<SnapshotFile>, a: seq<SnapshotFile>, b: seq<SnapshotFile>, after: seq<SnapshotFile>)
    requires Adopts(local, a, after) && IsChain(b) && Keys(a) == Keys(b)
    ensures Adopts(local, b, after)
  {
    forall i | 0 <= i < |b| ensures KeyOf(b[i]) in Keys(after) {
      assert KeyOf(b[i]) == Keys(b)[i] == Keys(a)[i] == KeyOf(a[i]);
    }
  }

  /** Advice "fetch" or "fetch full", with both passes on. The first pass brings in the full file of
      the best snapshot, the second the incrementals of the tracker's second answer, if there is one.
      All that is known of that answer is its base slot; the ledger converges to its incrementals on
      the full file that was downloaded. With at most one incremental, as is usual, and an answer that
      is recent enough, the next decision is always "up to date". */
  lemma FullFetchConverges(local: seq<SnapshotFile>, flags: Flags, world: World, after: seq<SnapshotFile>)
    requires Setting(local, flags, world) && flags.full && flags.incremental
    requires AdviceFor(flags, local, world) == AdviceFetch || AdviceFor(flags, local, world) == AdviceFetchFull
    requires AllWellFormed(after) && Sorted(after)
    requires Gained(local, RunPlan(flags, Listing(local), world).downloads, after)
    ensures
      var first, again := world.best.Head(), world.refreshed(world.best.Head().baseSlot);
      var plan := RunPlan(flags, Listing(local), world);
      if !again.Found() then plan == Plan(Fatal, [Root(first)], true)
      else
        && plan == Plan(Done, [Root(first)] + Incrementals(again.Head()), true)
        && (again.Head().baseSlot == first.baseSlot && again.Head().slot < TWO_TO_THE_63 ==>
              var chain := Rebased(again.Head().files, Root(first));
              && Adopts(local, chain, after) && chain[0].slot == again.Head().slot
              && (KeyOf(Root(again.Head())) == KeyOf(Root(first)) ==> Keys(chain) == Keys(again.Head().files))
              && Converges(local, chain, after, world.best.sources, flags.minAge, flags.maxAge)
              && CatchesUp(local, chain, after, flags, world))
  {
    var first, again := world.best.Head(), world.refreshed(world.best.Head().baseSlot);
    FullFetchPlan(local, flags, world);
    if again.Found() && again.Head().baseSlot == first.baseSlot && again.Head().slot < TWO_TO_THE_63 {
      BothPassesConverge(local, again.Head(), Root(first), after, flags, world);
    }
  }

  lemma FullFetchPlan(local: seq<SnapshotFile>, flags: Flags, world: World)
    requires Setting(local, flags, world) && flags.full && flags.incremental
    requires AdviceFor(flags, local, world) == AdviceFetch || AdviceFor(flags, local, world) == AdviceFetchFull
    ensures
      var first, again := world.best.Head(), world.refreshed(world.best.Head().baseSlot);
      && first.files != [] && Root(first).IsFull() && Root(first).slot == first.baseSlot
      && (again.Found() ==> IsChainInfo(again.Head()))
      && RunPlan(flags, Listing(local), world) ==
           if again.Found() then Plan(Done, [Root(first)] + Incrementals(again.Head()), true)
           else Plan(Fatal, [Root(first)], true)
  {
    HealthyDownload(true, true, world.best, world);
    FullFileIsLast(world.best.Head(), Root(world.best.Head()));
  }

  lemma BothPassesConverge(
    local: seq<SnapshotFile>, info: SnapshotInfo, root: SnapshotFile, after: seq<SnapshotFile>,
    flags: Flags, world: World)
    requires Setting(local, flags, world) && AllWellFormed(after) && Sorted(after)
    requires IsChainInfo(info) && info.slot < TWO_TO_THE_63 && root.IsFull() && root.slot == info.baseSlot
    requires Gained(local, [root] + Incrementals(info), after)
    ensures
      var chain := Rebased(info.files, root);
      && Adopts(local, chain, after) && chain[0].slot == info.slot
      && (KeyOf(Root(info)) == KeyOf(root) ==> Keys(chain) == Keys(info.files))
      && Converges(local, chain, after, world.best.sources, flags.minAge, flags.maxAge)
      && CatchesUp(local, chain, after, flags, world)
  {
    BothPassesAdopted(local, info, root, after);
    RebasedIsChain(info, root);
    RebasedKeys(info.files, root);
    RebasedFitsInt64(info, root);
    AdoptedCatchesUp(local, Rebased(info.files, root), after, flags, world);
    AdoptedConverges(local, Rebased(info.files, root), after, world.best.sources, flags.minAge, flags.maxAge);
  }

  /** Without --full, when the remote has a newer full snapshot: the run falls back on the tracker's
      answer for the local base slot, downloads exactly its incrementals, and the ledger converges to
      them on the local full file. The next decision is still about the best snapshot: it is "up to
      date" exactly when that is not newer than the new head by the minimum age. */
  lemma IncrementalOnlyCatchesUp(local: seq<SnapshotFile>, flags: Flags, world: World, after: seq<SnapshotFile>)
    requires Setting(local, flags, world) && !flags.full && flags.incremental && Listing(local) != []
    requires AdviceFor(flags, local, world) == AdviceFetchFull
    requires AllWellFormed(after) && Sorted(after)
    requires Gained(local, RunPlan(flags, Listing(local), world).downloads, after)
    ensures
      var head := Listing(local)[0];
      var answer, plan := world.atSlot(head.baseSlot), RunPlan(flags, Listing(local), world);
      if !answer.Found() then plan == Plan(Fatal, [], false)
      else
        && plan == Plan(Done, Incrementals(answer.Head()), false)
        && (answer.Head().baseSlot == head.baseSlot && answer.Head().slot < TWO_TO_THE_63 ==>
              && head.files != []
              && var chain := Rebased(answer.Head().files, Root(head));
              && Adopts(local, chain, after) && chain[0].slot == answer.Head().slot
              && Converges(local, chain, after, world.best.sources, flags.minAge, flags.maxAge)
              && CatchesUp(local, chain, after, flags, world)
              && (|chain| == 2 ==> NotOutranked(local, chain)))
  {
    var head := Listing(local)[0];
    var answer := world.atSlot(head.baseSlot);
    var root := LocalRoot(local);
    if answer.Found() {
      HealthyDownload(false, true, answer, world);
      if answer.Head().baseSlot == head.baseSlot && answer.Head().slot < TWO_TO_THE_63 {
        FallbackConverges(local, answer.Head(), root, after, flags, world);
      }
    }
  }

  lemma FallbackConverges(
    local: seq<SnapshotFile>, info: SnapshotInfo, root: SnapshotFile, after: seq<SnapshotFile>,
    flags: Flags, world: World)
    requires Setting(local, flags, world) && AllWellFormed(after) && Sorted(after)
    requires IsChainInfo(info) && info.slot < TWO_TO_THE_63
    requires root.IsFull() && root.slot == info.baseSlot && IsBest(local, root.slot, root)
    requires Gained(local, Incrementals(info), after)
    ensures
      var chain := Rebased(info.files, root);
      && Adopts(local, chain, after) && chain[0].slot == info.slot
      && Converges(local, chain, after, world.best.sources, flags.minAge, flags.maxAge)
      && CatchesUp(local, chain, after, flags, world)
      && (|chain| == 2 ==> NotOutranked(local, chain))
  {
    var chain := Rebased(info.files, root);
    IncrementalsAdopted(local, info, root, after);
    RebasedIsChain(info, root);
    RebasedFitsInt64(info, root);
    AdoptedCatchesUp(local, chain, after, flags, world);
    AdoptedConverges(local, chain, after, world.best.sources, flags.minAge, flags.maxAge);
    if |chain| == 2 {
      TwoFileChain(local, chain, root);
    }
  }

  /** With a base slot on the command line neither the ledger nor the best snapshot has a say: the
      tracker's answer for that slot is fetched, its full file and then the incrementals of the second
      answer, or just the one part that was asked for. Every further run fetches the same again. */
  lemma RequestedSlotIsFetched(flags: Flags, local: seq<SnapshotInfo>, other: seq<SnapshotInfo>, world: World)
    requires flags.baseSlot != 0 && (flags.full || flags.incremental)
    requires Healthy(world) && TellsOfChains(world) && world.atSlot(flags.baseSlot).Found()
    ensures
      var answer := world.atSlot(flags.baseSlot).Head();
      var again, plan := world.refreshed(answer.baseSlot), RunPlan(flags, local, world);
      && plan.full == flags.full && plan == RunPlan(flags, other, world)
      && (plan.outcome == Done <==> !flags.full || !flags.incremental || again.Found())
      && plan.downloads ==
         if !flags.full then Incrementals(answer)
         else if flags.incremental && again.Found() then [Root(answer)] + Incrementals(again.Head())
         else [Root(answer)]
  {
    HealthyDownload(flags.full, flags.incremental, world.atSlot(flags.baseSlot), world);
  }

  // ---- When a run downloads nothing

  /** There is no incremental to be had for the local base slot. */
  ghost predicate NoFallback(listing: seq<SnapshotInfo>, world: World) {
    listing == [] ||
    var answer := world.atSlot(listing[0].baseSlot);
    !answer.Found() || |answer.Head().files| == 1
  }

  /** Read off the flags, the first snapshot of the listing and the tracker's answers. */
  ghost predicate NothingToFetch(flags: Flags, listing: seq<SnapshotInfo>, world: World)
    requires world.best.Found() && world.best.Head().files != []
    requires listing != [] ==> listing[0].files != []
  {
    match PlainAdvice(flags, listing, world)
    case AdviceUpToDate => true
    case AdviceRemoteIsOlder => true
    case AdviceNothingFound => true
    case AdviceFetchFull => !flags.full && (!flags.incremental || NoFallback(listing, world))
    case AdviceFetchIncremental => !flags.incremental
    case AdviceFetch => !flags.full && (!flags.incremental || |world.best.Head().files| == 1)
  }

  lemma DownloadsNothingWithFull(local: seq<SnapshotFile>, flags: Flags, world: World)
    requires Setting(local, flags, world) && flags.full
    requires Listing(local) != [] ==> Listing(local)[0].files != []
    ensures RunPlan(flags, Listing(local), world).downloads == [] <==> NothingToFetch(flags, Listing(local), world)
  {
    AdviceIsPlain(local, flags, world);
    if AdviceFor(flags, local, world) == AdviceFetchIncremental {
      HealthyDownload(false, true, world.best, world);
    } else {
      HealthyDownload(true, flags.incremental, world.best, world);
    }
  }

  lemma DownloadsNothingWithoutFull(local: seq<SnapshotFile>, flags: Flags, world: World)
    requires Setting(local, flags, world) && !flags.full
    requires Listing(local) != [] ==> Listing(local)[0].files != []
    ensures RunPlan(flags, Listing(local), world).downloads == [] <==> NothingToFetch(flags, Listing(local), world)
  {
    var infos := Listing(local);
    AdviceIsPlain(local, flags, world);
    HealthyDownload(false, flags.incremental, world.best, world);
    if infos != [] && world.atSlot(infos[0].baseSlot).Found() {
      HealthyDownload(false, flags.incremental, world.atSlot(infos[0].baseSlot), world);
    }
  }

  /** For every combination of flags: exactly when a run leaves the ledger as it is. */
  lemma DownloadsNothingIff(local: seq<SnapshotFile>, flags: Flags, world: World)
    requires Setting(local, flags, world)
    ensures Listing(local) != [] ==> Listing(local)[0].files != []
    ensures RunPlan(flags, Listing(local), world).downloads == [] <==> NothingToFetch(flags, Listing(local), world)
  {
    AdviceIsPlain(local, flags, world);
    if flags.full {
      DownloadsNothingWithFull(local, flags, world);
    } else {
      DownloadsNothingWithoutFull(local, flags, world);
    }
  }

  /** With both flags on, in numbers. */
  lemma BothFlagsNothingIff(local: seq<SnapshotFile>, flags: Flags, world: World)
    requires Setting(local, flags, world) && flags.full && flags.incremental
    ensures
      var r, infos := world.best.Head(), Listing(local);
      RunPlan(flags, infos, world).downloads == [] <==>
        || r.slot < HeadSlot(infos) + flags.minAge
        || HeadBaseSlot(infos) > r.baseSlot
        || (infos == [] && r.baseSlot == 0)
  {
    AdviceIsPlain(local, flags, world);
    DownloadsNothingIff(local, flags, world);
  }

  // ---- Before the first run: what the second will find

  /** Some file has a complete chain among all, and remote is not newer than it by the minimum age. */
  ghost predicate HoldsRecent(all: seq<SnapshotFile>, remote: uint64, minAge: uint64)
    requires AllWellFormed(all)
  {
    exists t :: t in all && Listed(all, t) && remote < t.slot + minAge
  }

  lemma HeadIsRecentIff(files: seq<SnapshotFile>, all: seq<SnapshotFile>, remote: uint64, minAge: uint64)
    requires AllWellFormed(files) && Sorted(files) && AllWellFormed(all) && SameKeys(files, all)
    ensures Listing(files) != [] && remote < HeadSlot(Listing(files)) + minAge <==> HoldsRecent(all, remote, minAge)
  {
    if Listing(files) != [] && remote < HeadSlot(Listing(files)) + minAge {
      var h := HeadIsListed(files);
      KeysHold(files, h);
      var t := FileOfKey(all, KeyOf(h));
      ChainKeysAreUnique(files, all, h, t);
    }
    if HoldsRecent(all, remote, minAge) {
      var t :| t in all && Listed(all, t) && remote < t.slot + minAge;
      KeysHold(all, t);
      var f := FileOfKey(files, KeyOf(t));
      ChainKeysAreUnique(files, all, f, t);
      HeadOfListing(files, f);
    }
  }

  /** All that a run brings in is well-formed and below 2^63. */
  lemma DownloadsAreSound(flags: Flags, local: seq<SnapshotInfo>, world: World)
    requires TellsOfChains(world) && TellsOfSmallSlots(world)
    ensures AllWellFormed(RunPlan(flags, local, world).downloads)
    ensures SlotsFitInt64(RunPlan(flags, local, world).downloads)
  {
    forall f | f in RunPlan(flags, local, world).downloads ensures WellFormed(f) && f.slot < TWO_TO_THE_63 {
      DownloadsOnlyWhatIsAsked(flags, local, world, f);
    }
  }

  lemma GainedFitsInt64(local: seq<SnapshotFile>, downloads: seq<SnapshotFile>, after: seq<SnapshotFile>)
    requires Gained(local, downloads, after) && SlotsFitInt64(local) && SlotsFitInt64(downloads)
    ensures SameKeys(after, local + downloads) && SlotsFitInt64(after)
  {
    KeysOfConcat(local, downloads);
    forall f | f in after ensures f.slot < TWO_TO_THE_63 {
      KeysHold(after, f);
      var g := FileOfKey(local + downloads, KeyOf(f));
    }
  }

  /** Whatever the flags: the second run ends "up to date" exactly when, among the local files and the
      downloads of the first, some file with a complete chain is recent enough. */
  lemma SecondRunUpToDateIff(local: seq<SnapshotFile>, flags: Flags, world: World, after: seq<SnapshotFile>)
    requires Setting(local, flags, world) && TellsOfSmallSlots(world) && (flags.full || flags.incremental)
    requires AllWellFormed(after) && Sorted(after)
    requires Gained(local, RunPlan(flags, Listing(local), world).downloads, after)
    ensures
      var downloads := RunPlan(flags, Listing(local), world).downloads;
      && AllWellFormed(downloads)
      && (RunPlan(flags, Listing(after), world).outcome == UpToDate
          <==> HoldsRecent(local + downloads, world.best.Head().slot, flags.minAge))
  {
    var downloads := RunPlan(flags, Listing(local), world).downloads;
    DownloadsAreSound(flags, Listing(local), world);
    GainedFitsInt64(local, downloads, after);
    UpToDateIff(after, flags, world);
    HeadIsRecentIff(after, local + downloads, world.best.Head().slot, flags.minAge);
  }

  lemma LedgerAfterRun(local: seq<SnapshotFile>, downloads: seq<SnapshotFile>, after: seq<SnapshotFile>)
    requires multiset(after) == multiset(local) + multiset(downloads)
    ensures Gained(local, downloads, after)
    ensures forall f :: f in after <==> f in local || f in downloads
  {
    assert forall f :: f in after <==> f in multiset(after);
    forall key ensures key in Keys(after) <==> key in Keys(local) || key in Keys(downloads) {
      if key in Keys(after) {
        var f := FileOfKey(after, key);
        if f in local {
          KeysHold(local, f);
        } else {
          KeysHold(downloads, f);
        }
      }
      if key in Keys(local) {
        var f := FileOfKey(local, key);
        KeysHold(after, f);
      }
      if key in Keys(downloads) {
        var f := FileOfKey(downloads, key);
        KeysHold(after, f);
      }
    }
  }

  /** The command run twice on a ledger, with the same flags and the same answers. between is the
      ledger that the second run finds; what the theorems above say about the ledger after a run is
      true of it. The second run downloads nothing exactly when NothingToFetch says so. */
  method FetchTwice(ledger: seq<SnapshotFile>, flags: Flags, world: World)
    returns (first: Outcome, second: Outcome, final: seq<SnapshotFile>,
             ghost local: seq<SnapshotFile>, ghost between: seq<SnapshotFile>)
    requires AllWellFormed(ledger) && TellsOfChains(world)
    ensures ledger <= final
    ensures forall f :: f in final ==>
      f in ledger || (world.delivers(f) && if f.IsFull() then flags.full else flags.incremental)
    ensures Sorted(local) && AllWellFormed(local) && multiset(local) == multiset(ledger)
    ensures Sorted(between) && AllWellFormed(between)
    ensures
      var one, two := RunPlan(flags, Listing(local), world), RunPlan(flags, Listing(between), world);
      && first == one.outcome && second == two.outcome
      && Gained(local, one.downloads, between)
      && (forall f :: f in between <==> f in local || f in one.downloads)
      && final == ledger + one.downloads + two.downloads
      && (Setting(local, flags, world) && TellsOfSmallSlots(world) ==>
            && Setting(between, flags, world)
            && (Listing(between) != [] ==> Listing(between)[0].files != [])
            && (final == ledger + one.downloads <==> NothingToFetch(flags, Listing(between), world))
            && AllWellFormed(local + one.downloads)
            && (flags.full || flags.incremental ==>
                  (second == UpToDate
                   <==> HoldsRecent(local + one.downloads, world.best.Head().slot, flags.minAge))))
  {
    var command := new Command(ledger, flags);
    first, local := command.Run(world);
    ghost var one := RunPlan(flags, Listing(local), world);
    forall f | f in command.ledger
      ensures WellFormed(f)
      ensures f in one.downloads && TellsOfSmallSlots(world) ==> f.slot < TWO_TO_THE_63
      ensures f in ledger || (world.delivers(f) && if f.IsFull() then flags.full else flags.incremental)
    {
      if f in one.downloads {
        DownloadsOnlyWhatIsAsked(flags, Listing(local), world, f);
      }
    }
    var again := new Command(command.ledger, flags);
    second, between := again.Run(world);
    final := again.ledger;
    ghost var two := RunPlan(flags, Listing(between), world);
    forall f | f in two.downloads
      ensures world.delivers(f) && if f.IsFull() then flags.full else flags.incremental
    {
      DownloadsOnlyWhatIsAsked(flags, Listing(between), world, f);
    }
    LedgerAfterRun(local, one.downloads, between);
    if Setting(between, flags, world) {
      DownloadsNothingIff(between, flags, world);
    }
    if Setting(local, flags, world) && TellsOfSmallSlots(world) && (flags.full || flags.incremental) {
      SecondRunUpToDateIff(local, flags, world, between);
    }
    if TellsOfSmallSlots(world) {
      DownloadsAreSound(flags, Listing(local), world);
    }
  }
}
