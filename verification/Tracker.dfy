/** The tracker's answers (internal/tracker/tracker.go), and what the fetch command can rely on when
    they come from the index that the collector fills. */
module Tracker {
  import opened Snapshot
  import opened LedgerSpec
  import opened Index
  import opened Collector
  import opened Fetch
  import opened FetchAdoption
  import opened FetchCommand
  import opened FetchConvergence

  const MAX_ITEMS := 25

  function SourceOf(e: SnapshotEntry): SnapshotSource {
    SnapshotSource(e.info, e.key.target, e.key.group, e.updatedAt)
  }

  function SourcesOf(entries: seq<SnapshotEntry>): (r: seq<SnapshotSource>)
    ensures |r| == |entries| && forall i :: 0 <= i < |r| ==> r[i] == SourceOf(entries[i])
  {
    seq(|entries|, i requires 0 <= i < |entries| => SourceOf(entries[i]))
  }

  /** The entries that a request for a slot is about; slot 0 asks for all. */
  function AtSlot(slot: uint64): Condition {
    if slot == 0 then InGroup("") else RestingOn(slot)
  }

  function Limit(max: int): nat {
    if max < 0 || max > MAX_ITEMS then MAX_ITEMS else max
  }

  /** What a request for a slot answers: its entries by group and target, newest first. */
  ghost predicate AnswersSlot(sources: seq<SnapshotSource>, m: Table, slot: uint64) {
    exists all :: Answers(Id, all, m, AtSlot(slot)) && sources == SourcesOf(all)
  }

  /** What a request for the best snapshots of a group answers: the newest ones, in slot order. */
  ghost predicate AnswersBest(sources: seq<SnapshotSource>, m: Table, group: string, max: int) {
    exists all :: Answers(Slot, all, m, InGroup(group))
                  && sources == SourcesOf(all[..BestCount(Limit(max), |all|)])
  }

  class Handler {
    const db: DB

    constructor (db: DB)
      ensures this.db == db
    {
      this.db := db;
    }

    method CreateJson(entries: seq<SnapshotEntry>) returns (sources: seq<SnapshotSource>)
      ensures sources == SourcesOf(entries)
    {
      sources := [];
      for i := 0 to |entries|
        invariant sources == SourcesOf(entries)[..i]
      {
        var entry := entries[i];
        sources := sources + [SnapshotSource(entry.info, entry.key.target, entry.key.group, entry.updatedAt)];
      }
    }

    /** A request without a group. */
    method GetSnapshots(slot: uint64) returns (sources: seq<SnapshotSource>)
      requires db.Valid()
      ensures AnswersSlot(sources, db.table, slot)
    {
      var entries;
      if slot == 0 {
        entries := db.GetAllSnapshotsByGroup("");
      } else {
        entries := db.GetSnapshotsAtSlot(slot);
      }
      assert Answers(Id, entries, db.table, AtSlot(slot));
      sources := CreateJson(entries);
    }

    method GetBestSnapshots(group: string, max: int) returns (sources: seq<SnapshotSource>)
      requires db.Valid()
      ensures AnswersBest(sources, db.table, group, max)
    {
      var count := max;
      if count < 0 || count > MAX_ITEMS {
        count := MAX_ITEMS;
      }
      var entries := db.GetBestSnapshotsByGroup(group, count);
      sources := CreateJson(entries);
    }
  }

  // ---- What the answers say

  /** A source repeats an entry, field by field. */
  predicate Says(source: SnapshotSource, e: SnapshotEntry) {
    && source.info == e.info && source.updatedAt == e.updatedAt
    && source.target == e.key.target && source.group == e.key.group
  }

  /** A request for a slot answers every entry with that base slot, or every entry there is for slot 0:
      one source for each, and nothing else. */
  lemma SlotAnswerIsComplete(sources: seq<SnapshotSource>, m: Table, slot: uint64)
    requires AnswersSlot(sources, m, slot) && Keyed(m)
    ensures forall source :: source in sources ==>
              exists e :: Has(m, e) && (slot == 0 || e.key.baseSlot == slot) && Says(source, e)
    ensures forall e :: Has(m, e) && (slot == 0 || e.key.baseSlot == slot) ==>
              exists source :: source in sources && Says(source, e)
    ensures slot == 0 ==> |sources| == |m|
  {
    var all :| Answers(Id, all, m, AtSlot(slot)) && sources == SourcesOf(all);
    forall source | source in sources
      ensures exists e :: Has(m, e) && (slot == 0 || e.key.baseSlot == slot) && Says(source, e)
    {
      var i :| 0 <= i < |sources| && sources[i] == source;
      assert all[i] in all && Says(source, all[i]);
    }
    forall e | Has(m, e) && (slot == 0 || e.key.baseSlot == slot)
      ensures exists source :: source in sources && Says(source, e)
    {
      assert e in all;
      var i :| 0 <= i < |all| && all[i] == e;
      assert sources[i] in sources && Says(sources[i], e);
    }
    if slot == 0 {
      MirrorSize(Id, all, m);
    }
  }

  /** A request for the best snapshots answers entries of the group, at most 26 of them and never more
      than one above what was asked for. An entry of the group that is left out is not newer than any
      of those answered, and there are then 26 of these, or one more than was asked for. */
  lemma BestAnswerIsCapped(sources: seq<SnapshotSource>, m: Table, group: string, max: int, e: SnapshotEntry)
    requires AnswersBest(sources, m, group, max) && Has(m, e) && (group == "" || e.key.group == group)
    ensures |sources| <= 26 && (max >= 0 ==> |sources| <= max + 1)
    ensures
      || (exists source :: source in sources && Says(source, e))
      || (|sources| == (if 0 <= max <= 25 then max + 1 else 26)
          && forall source :: source in sources ==> NotOlder(source, e, m, group))
  {
    var all :| Answers(Slot, all, m, InGroup(group)) && sources == SourcesOf(all[..BestCount(Limit(max), |all|)]);
    var r := all[..BestCount(Limit(max), |all|)];
    BestAnswerIsCut(all, m, group, Limit(max));
    if e in r {
      var i :| 0 <= i < |r| && r[i] == e;
      assert sources[i] in sources && Says(sources[i], e);
    } else {
      forall source | source in sources ensures NotOlder(source, e, m, group) {
        var i :| 0 <= i < |sources| && sources[i] == source;
        assert r[i] in r && Says(source, r[i]);
      }
    }
  }

  ghost predicate NotOlder(source: SnapshotSource, e: SnapshotEntry, m: Table, group: string) {
    exists x :: Has(m, x) && (group == "" || x.key.group == group) && Says(source, x) && x.key.Slot() >= e.key.Slot()
  }

  // ---- Answers hold what was probed

  /** Every entry of the table was reported by a successful probe and is stored under its own key. */
  ghost predicate Reported(m: Table, results: seq<ProbeResult>) {
    forall id :: id in m ==> IdOf(m[id]) == id && WasReported(m[id], results)
  }

  ghost predicate WasReported(e: SnapshotEntry, results: seq<ProbeResult>) {
    exists res :: res in results && res.err.None? && e.info in res.infos && e == EntryOf(res, e.info)
  }

  /** Whatever a reader can see was reported. */
  lemma ObservedIsReported(results: seq<ProbeResult>, k: nat)
    requires k < |Observed(map[], results)|
    ensures Reported(Observed(map[], results)[k], results)
  {
    var m := Observed(map[], results)[k];
    forall id | id in m ensures IdOf(m[id]) == id && WasReported(m[id], results) {
      ReadersSeeOneProbe(results, k, id.group, id.target);
      var probe: Option<ProbeResult> :|
        && Matches(m, probe, id.group, id.target)
        && (probe.Some? ==> probe.value in results && Succeeds(probe.value, id.group, id.target));
      assert Lookup(m, PrimaryKey(id.group, id.target, id.inverseSlot)) == Shown(probe, id);
      EntriesAreTheTargets(probe.value, EntriesOf(probe.value), id);
    }
  }

  /** Dropping entries, as for their age, changes nothing about that. */
  lemma ExpiredIsReported(m: Table, results: seq<ProbeResult>, minTime: int)
    requires Reported(m, results)
    ensures Reported(Expired(m, minTime), results)
  {
  }

  /** Every successful probe has received the listing of some ledger. */
  ghost predicate ReportsListings(results: seq<ProbeResult>) {
    forall res :: res in results && res.err.None? ==> IsListing(res.infos)
  }

  ghost predicate IsListing(infos: seq<SnapshotInfo>) {
    exists files :: AllWellFormed(files) && infos == Listing(files)
  }

  lemma ReportedIsChain(e: SnapshotEntry, results: seq<ProbeResult>)
    requires WasReported(e, results) && ReportsListings(results)
    ensures IsChainInfo(e.info) && e.key.Slot() == e.info.slot && e.key.baseSlot == e.info.baseSlot
  {
    var res :| res in results && res.err.None? && e.info in res.infos && e == EntryOf(res, e.info);
    assert IsListing(res.infos);
    var files :| AllWellFormed(files) && res.infos == Listing(files);
    ListedInfosAreChains(files, e.info);
  }

  /** A request for a slot answers complete chains only, and for another slot than 0 only such as rest
      on a full file of that slot. */
  lemma SlotAnswersAreChains(
    sources: seq<SnapshotSource>, m: Table, slot: uint64, results: seq<ProbeResult>, source: SnapshotSource)
    requires AnswersSlot(sources, m, slot) && Reported(m, results) && ReportsListings(results)
    requires source in sources
    ensures IsChainInfo(source.info) && (slot != 0 ==> source.info.baseSlot == slot)
  {
    var all :| Answers(Id, all, m, AtSlot(slot)) && sources == SourcesOf(all);
    var i :| 0 <= i < |sources| && sources[i] == source;
    assert all[i] in all && Has(m, all[i]);
    ReportedIsChain(all[i], results);
  }

  /** The first of the best snapshots is a complete chain, and no entry of the group has a greater slot. */
  lemma BestAnswerIsNewest(
    sources: seq<SnapshotSource>, m: Table, group: string, max: int, results: seq<ProbeResult>, e: SnapshotEntry)
    requires AnswersBest(sources, m, group, max) && Reported(m, results) && ReportsListings(results)
    requires Has(m, e) && InGroup(group)(e)
    ensures sources != [] && IsChainInfo(sources[0].info) && sources[0].info.slot >= e.info.slot
  {
    var all :| Answers(Slot, all, m, InGroup(group)) && sources == SourcesOf(all[..BestCount(Limit(max), |all|)]);
    HeadOfAnswerIsNewest(all, m, InGroup(group), e);
    assert all[0] in all;
    ReportedIsChain(all[0], results);
    ReportedIsChain(e, results);
  }

  // ---- What the fetch command hears

  /** Every answer is a failed request or comes from an index that holds only what was reported. The
      index may change between any two requests. */
  ghost predicate AnsweredBy(world: World, results: seq<ProbeResult>) {
    && (world.best.Sources? ==>
          exists m, group, max :: Reported(m, results) && AnswersBest(world.best.sources, m, group, max))
    && (forall slot :: SlotAnsweredBy(world.atSlot(slot), slot, results))
    && (forall slot :: SlotAnsweredBy(world.refreshed(slot), slot, results))
  }

  ghost predicate SlotAnsweredBy(answer: Answer, slot: uint64, results: seq<ProbeResult>) {
    answer.Sources? ==> exists m :: Reported(m, results) && AnswersSlot(answer.sources, m, slot)
  }

  /** It starts with a complete chain, and for another slot than 0 with one that rests on it. */
  ghost predicate KeepsSlot(answer: Answer, slot: uint64) {
    answer.Found() ==> IsChainInfo(answer.Head()) && (slot != 0 ==> answer.Head().baseSlot == slot)
  }

  lemma SlotAnswerIsSound(answer: Answer, slot: uint64, results: seq<ProbeResult>)
    requires SlotAnsweredBy(answer, slot, results) && ReportsListings(results)
    ensures KeepsSlot(answer, slot)
  {
    if answer.Found() {
      var m :| Reported(m, results) && AnswersSlot(answer.sources, m, slot);
      SlotAnswersAreChains(answer.sources, m, slot, results, answer.sources[0]);
    }
  }

  lemma BestAnswerIsSound(best: seq<SnapshotSource>, m: Table, group: string, max: int, results: seq<ProbeResult>)
    requires AnswersBest(best, m, group, max) && Reported(m, results) && ReportsListings(results) && best != []
    ensures IsChainInfo(best[0].info)
  {
    var all :| Answers(Slot, all, m, InGroup(group)) && best == SourcesOf(all[..BestCount(Limit(max), |all|)]);
    assert all[0] in all && Has(m, all[0]);
    ReportedIsChain(all[0], results);
  }

  /** If probes report ledger listings, the tracker tells of complete chains only, and answers a
      request for a slot with snapshots that rest on it. */
  lemma TrackerTellsOfChains(world: World, results: seq<ProbeResult>)
    requires AnsweredBy(world, results) && ReportsListings(results)
    ensures TellsOfChains(world)
    ensures forall slot: uint64 :: KeepsSlot(world.atSlot(slot), slot) && KeepsSlot(world.refreshed(slot), slot)
  {
    if world.best.Found() {
      var m, group, max :| Reported(m, results) && AnswersBest(world.best.sources, m, group, max);
      BestAnswerIsSound(world.best.sources, m, group, max, results);
    }
    forall slot: uint64
      ensures KeepsSlot(world.atSlot(slot), slot) && KeepsSlot(world.refreshed(slot), slot)
    {
      SlotAnswerIsSound(world.atSlot(slot), slot, results);
      SlotAnswerIsSound(world.refreshed(slot), slot, results);
    }
  }

  /** From the probes to the second run: with both flags on and a newer full snapshot at the remote, if
      the second answer has at most one incremental and is recent enough, the next decision is to do
      nothing. Nothing is assumed of the answers but where they come from. */
  lemma FetchFromTracker(
    local: seq<SnapshotFile>, flags: Flags, world: World, results: seq<ProbeResult>, after: seq<SnapshotFile>)
    requires AnsweredBy(world, results) && ReportsListings(results)
    requires AllWellFormed(local) && Sorted(local) && SlotsFitInt64(local) && Healthy(world)
    requires flags.full && flags.incremental && flags.baseSlot == 0 && 0 < flags.minAge < TWO_TO_THE_63
    requires world.best.Found() && world.best.Head().slot < TWO_TO_THE_63
    requires AdviceFor(flags, local, world) == AdviceFetchFull
    requires AllWellFormed(after) && Sorted(after)
    requires Gained(local, RunPlan(flags, Listing(local), world).downloads, after)
    ensures
      var first, again := world.best.Head(), world.refreshed(world.best.Head().baseSlot);
      && again.Found() && |again.Head().files| <= 2
      && again.Head().slot < TWO_TO_THE_63 && first.slot < again.Head().slot + flags.minAge ==>
        AdviceFor(flags, after, world) == AdviceUpToDate
  {
    TrackerTellsOfChains(world, results);
    AdviceIsPlain(local, flags, world);
    FullFetchConverges(local, flags, world, after);
  }

  // ---- The second answer is not always the newest

  /** The first answer for a slot is the newest of its own target, and no other target comes before it. */
  lemma FirstForSlot(sources: seq<SnapshotSource>, m: Table, slot: uint64, e: SnapshotEntry)
    returns (h: SnapshotEntry)
    requires AnswersSlot(sources, m, slot) && Has(m, e) && (slot == 0 || e.key.baseSlot == slot)
    ensures sources != [] && Says(sources[0], h) && Has(m, h) && (slot == 0 || h.key.baseSlot == slot)
    ensures h == e || NamedBefore(h, e) || (SameTarget(h, e) && h.key.Slot() > e.key.Slot())
  {
    var all :| Answers(Id, all, m, AtSlot(slot)) && sources == SourcesOf(all);
    assert e in all;
    var k :| 0 <= k < |all| && all[k] == e;
    h := all[0];
    assert h in all;
    if k > 0 {
      AnswerOrder(Id, all, m, AtSlot(slot), 0, k);
    }
  }

  function TwoProbes(a: SnapshotInfo, b: SnapshotInfo): seq<ProbeResult> {
    [ProbeResult(0, "a", "g", [a], None), ProbeResult(1, "b", "g", [b], None)]
  }

  lemma TwoEntries(a: SnapshotInfo, b: SnapshotInfo)
    ensures
      var probes := TwoProbes(a, b);
      var ea, eb := EntryOf(probes[0], a), EntryOf(probes[1], b);
      && Collected(map[], probes) == map[IdOf(ea) := ea, IdOf(eb) := eb]
      && IdBefore(IdOf(ea), IdOf(eb))
  {
    var probes := TwoProbes(a, b);
    assert probes[..1] == [probes[0]] && [probes[0]][..0] == [];
    var ea, eb := EntryOf(probes[0], a), EntryOf(probes[1], b);
    assert EntriesOf(probes[0]) == [ea] && EntriesOf(probes[1]) == [eb];
    assert Upserted(map[], [ea]) == map[IdOf(ea) := ea];
    assert Deleted(map[], "g", "a") == map[];
    assert Collected(map[], probes[..1]) == map[IdOf(ea) := ea];
    assert "b"[0] != "a"[0] && !("b" <= "a");
    var first := map[IdOf(ea) := ea];
    assert Deleted(first, "g", "b") == first;
    assert [eb][..0] == [] && Upserted(first, [eb]) == Upserted(first, [])[IdOf(eb) := eb];
    CompareStringsIsOrder("g", "g");
  }

  lemma BestOfTwo(a: SnapshotInfo, b: SnapshotInfo, best: seq<SnapshotSource>)
    requires a.slot < b.slot && AnswersBest(best, Collected(map[], TwoProbes(a, b)), "", -1)
    ensures best != [] && best[0].info == b
  {
    var m := Collected(map[], TwoProbes(a, b));
    var eb := EntryOf(TwoProbes(a, b)[1], b);
    TwoEntries(a, b);
    var all :| Answers(Slot, all, m, InGroup("")) && best == SourcesOf(all[..BestCount(Limit(-1), |all|)]);
    HeadOfAnswerIsNewest(all, m, InGroup(""), eb);
    assert all[0] in all;
  }

  lemma FirstOfTwo(a: SnapshotInfo, b: SnapshotInfo, again: seq<SnapshotSource>)
    requires 0 < a.baseSlot == b.baseSlot
    requires AnswersSlot(again, Collected(map[], TwoProbes(a, b)), b.baseSlot)
    ensures again != [] && again[0].info == a
  {
    var m := Collected(map[], TwoProbes(a, b));
    var ea := EntryOf(TwoProbes(a, b)[0], a);
    TwoEntries(a, b);
    var h := FirstForSlot(again, m, b.baseSlot, ea);
    if h.key.target == "b" {
      NothingBeforeItself("g");
      assert false;
    }
  }

  /** Targets "a" and "b" report snapshots on the same full file. The best snapshot is the newer one of
      "b", but the answer for their base slot starts with the older one of "a". */
  lemma SecondAnswerMayBeOlder(
    a: SnapshotInfo, b: SnapshotInfo, best: seq<SnapshotSource>, again: seq<SnapshotSource>)
    requires 0 < a.baseSlot == b.baseSlot && a.slot < b.slot
    requires AnswersBest(best, Collected(map[], TwoProbes(a, b)), "", -1)
    requires AnswersSlot(again, Collected(map[], TwoProbes(a, b)), b.baseSlot)
    ensures best != [] && again != [] && best[0].info == b && again[0].info == a
  {
    BestOfTwo(a, b, best);
    FirstOfTwo(a, b, again);
  }
}
