/** The fetch command (internal/cmd/fetch/fetch.go): decide, then download in two passes. */
module FetchCommand {
  import opened Snapshot
  import opened LedgerSpec
  import opened Fetch
  import Ledger

  datatype Outcome =
    | Done                // everything that was asked for has been downloaded
    | NothingFound
    | UpToDate
    | RemoteIsOlder
    | OnlyFullRequested   // a newer incremental exists, but incrementals were not asked for
    | Fatal               // logged and exited
    | Panic               // index out of range on an empty local listing

  datatype Flags = Flags(full: bool, incremental: bool, baseSlot: uint64, minAge: uint64, maxAge: uint64)

  /** An answer of the tracker. */
  datatype Answer = Sources(sources: seq<SnapshotSource>) | RequestFailed
  {
    predicate Found() {
      Sources? && sources != []
    }

    /** The snapshot that the command works with. */
    function Head(): SnapshotInfo
      requires Found()
    {
      sources[0].info
    }
  }

  /** What the command cannot choose. best answers GetBestSnapshots; atSlot answers GetSnapshotAtSlot
      before the first pass and refreshed answers it after that pass; a file arrives in the ledger
      directory if and only if its download succeeds. */
  datatype World = World(
    ledgerReadable: bool,
    best: Answer,
    atSlot: uint64 -> Answer,
    refreshed: uint64 -> Answer,
    delivers: SnapshotFile -> bool)

  /** How a run ends, what has arrived by then, and the value it leaves in the full flag. */
  datatype Plan = Plan(outcome: Outcome, downloads: seq<SnapshotFile>, full: bool)

  predicate Wanted(f: SnapshotFile, full: bool, incremental: bool) {
    if f.baseSlot != 0 then incremental else full
  }

  /** The files that one download pass asks for. */
  function Pass(files: seq<SnapshotFile>, full: bool, incremental: bool): seq<SnapshotFile> {
    if files == [] then []
    else
      var before, f := files[..|files| - 1], files[|files| - 1];
      if Wanted(f, full, incremental) then Pass(before, full, incremental) + [f]
      else Pass(before, full, incremental)
  }

  /** The files among these that arrive. */
  function Arriving(files: seq<SnapshotFile>, delivers: SnapshotFile -> bool): seq<SnapshotFile> {
    if files == [] then []
    else
      var before, f := files[..|files| - 1], files[|files| - 1];
      if delivers(f) then Arriving(before, delivers) + [f] else Arriving(before, delivers)
  }

  predicate AllArrive(files: seq<SnapshotFile>, delivers: SnapshotFile -> bool) {
    forall f :: f in files ==> delivers(f)
  }

  function DownloadPlan(full: bool, incremental: bool, remote: Answer, world: World): Plan {
    if !remote.Found() then Plan(Fatal, [], full)
    else
      var snap := remote.Head();
      if !full then
        var only := if incremental then Pass(snap.files, false, true) else [];
        Plan(if AllArrive(only, world.delivers) then Done else Fatal, Arriving(only, world.delivers), full)
      else
        var first := Pass(snap.files, true, false);
        var got := Arriving(first, world.delivers);
        if !AllArrive(first, world.delivers) then Plan(Fatal, got, full)
        else if !incremental then Plan(Done, got, full)
        else
          var again := world.refreshed(snap.baseSlot);
          if !again.Found() then Plan(Fatal, got, full)
          else
            var second := Pass(again.Head().files, false, true);
            Plan(if AllArrive(second, world.delivers) then Done else Fatal,
                 got + Arriving(second, world.delivers), full)
  }

  ghost function RunPlan(flags: Flags, local: seq<SnapshotInfo>, world: World): Plan {
    if (!flags.full && !flags.incremental) || !world.ledgerReadable then Plan(Fatal, [], flags.full)
    else if flags.baseSlot != 0 then
      DownloadPlan(flags.full, flags.incremental, world.atSlot(flags.baseSlot), world)
    else if world.best.RequestFailed? then Plan(Fatal, [], flags.full)
    else
      match Decide(local, world.best.sources, flags.minAge, flags.maxAge).1
      case AdviceNothingFound => Plan(NothingFound, [], flags.full)
      case AdviceUpToDate => Plan(if local == [] then Panic else UpToDate, [], flags.full)
      case AdviceRemoteIsOlder => Plan(RemoteIsOlder, [], flags.full)
      case AdviceFetchFull =>
        if flags.full then DownloadPlan(true, flags.incremental, world.best, world)
        else if local == [] then Plan(Panic, [], flags.full)
        else DownloadPlan(false, flags.incremental, world.atSlot(local[0].baseSlot), world)
      case AdviceFetchIncremental =>
        if flags.incremental then DownloadPlan(false, true, world.best, world)
        else Plan(OnlyFullRequested, [], false)
      case AdviceFetch => DownloadPlan(flags.full, flags.incremental, world.best, world)
  }

  class Command {
    var ledger: seq<SnapshotFile>  // the snapshot files in the ledger directory, in any order
    var fullSnap: bool
    const incrementalSnap: bool
    const baseSlot: uint64
    const minSnapAge: uint64
    const maxSnapAge: uint64

    constructor (ledger: seq<SnapshotFile>, flags: Flags)
      ensures this.ledger == ledger && CurrentFlags() == flags
    {
      this.ledger := ledger;
      fullSnap, incrementalSnap, baseSlot := flags.full, flags.incremental, flags.baseSlot;
      minSnapAge, maxSnapAge := flags.minAge, flags.maxAge;
    }

    ghost function CurrentFlags(): Flags
      reads this
    {
      Flags(fullSnap, incrementalSnap, baseSlot, minSnapAge, maxSnapAge)
    }

    /** Starts a download for every wanted file and waits for all of them. */
    method DownloadSnapshot(snap: SnapshotInfo, full: bool, incremental: bool, delivers: SnapshotFile -> bool)
      returns (ok: bool)
      modifies this`ledger
      ensures ledger == old(ledger) + Arriving(Pass(snap.files, full, incremental), delivers)
      ensures ok <==> AllArrive(Pass(snap.files, full, incremental), delivers)
    {
      ghost var before := ledger;
      ghost var arrived: seq<SnapshotFile> := [];
      ok := true;
      for i := 0 to |snap.files|
        invariant arrived == Arriving(Pass(snap.files[..i], full, incremental), delivers)
        invariant ledger == before + arrived
        invariant ok <==> AllArrive(Pass(snap.files[..i], full, incremental), delivers)
      {
        var file := snap.files[i];
        PassStep(snap.files, i, full, incremental, delivers);
        if file.baseSlot != 0 && !incremental {
          continue;
        }
        if file.baseSlot == 0 && !full {
          continue;
        }
        if delivers(file) {
          ledger := ledger + [file];
          assert before + arrived + [file] == before + (arrived + [file]);
          arrived := arrived + [file];
        } else {
          ok := false;
        }
      }
      assert snap.files[..|snap.files|] == snap.files;
    }

    method Run(world: World) returns (outcome: Outcome, ghost localFiles: seq<SnapshotFile>)
      requires AllWellFormed(ledger)
      modifies this
      ensures Sorted(localFiles) && AllWellFormed(localFiles) && multiset(localFiles) == multiset(old(ledger))
      ensures
        var plan := RunPlan(old(CurrentFlags()), Listing(localFiles), world);
        && outcome == plan.outcome
        && ledger == old(ledger) + plan.downloads
        && fullSnap == plan.full
    {
      var files := Ledger.Sort(ledger);
      localFiles := files;
      if !fullSnap && !incrementalSnap {
        return Fatal, localFiles;
      }
      if !world.ledgerReadable {
        return Fatal, localFiles;
      }
      var localSnaps := Ledger.SnapshotsOf(files);
      var remoteSnaps: seq<SnapshotSource>;
      if baseSlot != 0 {
        var answer := world.atSlot(baseSlot);
        if answer.RequestFailed? {
          return Fatal, localFiles;
        }
        remoteSnaps := answer.sources;
      } else {
        if world.best.RequestFailed? {
          return Fatal, localFiles;
        }
        remoteSnaps := world.best.sources;
        var _, advice := ShouldFetchSnapshot(localSnaps, remoteSnaps, minSnapAge, maxSnapAge);
        match advice {
          case AdviceNothingFound =>
            return NothingFound, localFiles;
          case AdviceUpToDate =>
            if |localSnaps| == 0 {
              return Panic, localFiles;
            }
            return UpToDate, localFiles;
          case AdviceRemoteIsOlder =>
            return RemoteIsOlder, localFiles;
          case AdviceFetchFull =>
            if !fullSnap {
              if |localSnaps| == 0 {
                return Panic, localFiles;
              }
              var answer := world.atSlot(localSnaps[0].baseSlot);
              if answer.RequestFailed? {
                return Fatal, localFiles;
              }
              remoteSnaps := answer.sources;
            }
          case AdviceFetchIncremental =>
            fullSnap := false;
            if !incrementalSnap {
              return OnlyFullRequested, localFiles;
            }
          case AdviceFetch =>
        }
      }
      if |remoteSnaps| == 0 {
        return Fatal, localFiles;
      }
      outcome := Download(remoteSnaps[0].info, world);
    }

    /** The part of the run from the choice of a snapshot on. */
    method Download(chosen: SnapshotInfo, world: World) returns (outcome: Outcome)
      modifies this`ledger
      ensures
        forall remote: Answer :: remote.Found() && remote.Head() == chosen ==>
          var plan := DownloadPlan(fullSnap, incrementalSnap, remote, world);
          outcome == plan.outcome && ledger == old(ledger) + plan.downloads
    {
      var snap := chosen;
      if fullSnap {
        var ok := DownloadSnapshot(snap, true, false, world.delivers);
        if !ok {
          return Fatal;
        }
        if incrementalSnap {
          var again := world.refreshed(snap.baseSlot);
          if again.RequestFailed? {
            return Fatal;
          }
          if |again.sources| == 0 {
            return Fatal;
          }
          snap := again.sources[0].info;
        } else {
          return Done;
        }
      }
      if incrementalSnap {
        var ok := DownloadSnapshot(snap, false, true, world.delivers);
        if !ok {
          return Fatal;
        }
      }
      return Done;
    }
  }

  lemma PassStep(files: seq<SnapshotFile>, i: nat, full: bool, incremental: bool, delivers: SnapshotFile -> bool)
    requires i < |files|
    ensures
      var before, next := Pass(files[..i], full, incremental), Pass(files[..i + 1], full, incremental);
      && (Wanted(files[i], full, incremental) ==>
            && (AllArrive(next, delivers) <==> AllArrive(before, delivers) && delivers(files[i]))
            && Arriving(next, delivers)
               == if delivers(files[i]) then Arriving(before, delivers) + [files[i]] else Arriving(before, delivers))
      && (!Wanted(files[i], full, incremental) ==> next == before)
  {
    assert files[..i + 1][..i] == files[..i];
    var before := Pass(files[..i], full, incremental);
    assert (before + [files[i]])[..|before|] == before;
  }
}
