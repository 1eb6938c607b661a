/** The collector that streams probe results into the index (internal/scraper/collector.go). */
module Collector {
  import opened Snapshot
  import opened Index

  datatype ProbeResult = ProbeResult(
    time: int, target: string, group: string, infos: seq<SnapshotInfo>, err: Option<string>)

  function EntryOf(res: ProbeResult, info: SnapshotInfo): SnapshotEntry {
    SnapshotEntry(NewSnapshotKey(res.group, res.target, info.slot, info.baseSlot), info, res.time)
  }

  function EntriesOf(res: ProbeResult): (entries: seq<SnapshotEntry>)
    ensures |entries| == |res.infos|
    ensures forall i :: 0 <= i < |entries| ==> entries[i] == EntryOf(res, res.infos[i])
  {
    seq(|res.infos|, i requires 0 <= i < |res.infos| => EntryOf(res, res.infos[i]))
  }

  /** The index stores no entry without a group or a target. */
  predicate Acceptable(res: ProbeResult) {
    res.err.Some? || res.infos == [] || (res.group != "" && res.target != "")
  }

  ghost function AfterProbe(m: Table, res: ProbeResult): Table {
    if res.err.Some? then m else Upserted(Deleted(m, res.group, res.target), EntriesOf(res))
  }

  ghost function Collected(start: Table, results: seq<ProbeResult>): Table {
    if results == [] then start
    else AfterProbe(Collected(start, results[..|results| - 1]), results[|results| - 1])
  }

  /** Every state a reader can see: a successful probe is stored in two transactions. */
  ghost function Observed(start: Table, results: seq<ProbeResult>): seq<Table> {
    if results == [] then [start]
    else
      var before, res := results[..|results| - 1], results[|results| - 1];
      if res.err.Some? then Observed(start, before)
      else
        Observed(start, before)
        + [Deleted(Collected(start, before), res.group, res.target), Collected(start, results)]
  }

  class Collector {
    const db: DB

    constructor (db: DB)
      ensures this.db == db
    {
      this.db := db;
    }

    /** Consumes the results in the order in which the channel delivers them. */
    method Run(results: seq<ProbeResult>) returns (ghost observed: seq<Table>)
      requires db.Valid()
      requires forall res :: res in results ==> Acceptable(res)
      modifies db
      ensures db.Valid() && db.table == Collected(old(db.table), results)
      ensures observed == Observed(old(db.table), results)
    {
      observed := [db.table];
      for k := 0 to |results|
        invariant db.Valid() && db.table == Collected(old(db.table), results[..k])
        invariant observed == Observed(old(db.table), results[..k])
      {
        var res := results[k];
        assert results[..k + 1][..k] == results[..k];
        if res.err.Some? {
          continue;
        }
        var _ := db.DeleteSnapshotsByTarget(res.group, res.target);
        observed := observed + [db.table];
        var entries: seq<SnapshotEntry> := [];
        for i := 0 to |res.infos|
          invariant entries == EntriesOf(res)[..i]
        {
          var info := res.infos[i];
          var key := NewSnapshotKey(res.group, res.target, info.slot, info.baseSlot);
          entries := entries + [SnapshotEntry(key, info, res.time)];
        }
        assert entries == EntriesOf(res);
        assert Acceptable(res) by { assert res in results; }
        db.UpsertSnapshots(entries);
        observed := observed + [db.table];
      }
      assert results[..|results|] == results;
    }
  }

  // ---- What the index shows for a target

  ghost function Lookup(m: Table, id: PrimaryKey): Option<SnapshotEntry> {
    if id in m then Some(m[id]) else None
  }

  /** The last of some entries with a given primary key. */
  function LastEntry(entries: seq<SnapshotEntry>, id: PrimaryKey): Option<SnapshotEntry> {
    if entries == [] then None
    else
      var e := entries[|entries| - 1];
      if IdOf(e) == id then Some(e) else LastEntry(entries[..|entries| - 1], id)
  }

  /** The entry at k is the last one with that key. */
  predicate LastFor(entries: seq<SnapshotEntry>, id: PrimaryKey, k: nat) {
    k < |entries| && IdOf(entries[k]) == id && forall j :: k < j < |entries| ==> IdOf(entries[j]) != id
  }

  lemma {:induction false} LastEntryIs(entries: seq<SnapshotEntry>, id: PrimaryKey) returns (k: nat)
    ensures
      var e := LastEntry(entries, id);
      if e.Some? then LastFor(entries, id, k) && entries[k] == e.value
      else forall j :: 0 <= j < |entries| ==> IdOf(entries[j]) != id
    decreases |entries|
  {
    k := 0;
    if entries != [] {
      var n := |entries| - 1;
      if IdOf(entries[n]) == id {
        k := n;
      } else {
        k := LastEntryIs(entries[..n], id);
        forall j | 0 <= j < n ensures entries[..n][j] == entries[j] {}
      }
    }
  }

  predicate Succeeds(res: ProbeResult, group: string, target: string) {
    res.err.None? && res.group == group && res.target == target
  }

  /** A successful probe of a target clears every target whose name its own name starts. */
  predicate Clears(res: ProbeResult, group: string, target: string) {
    res.err.None? && res.group == group && res.target <= target
  }

  /** The last successful probe of a target. */
  function LastProbe(results: seq<ProbeResult>, group: string, target: string): (r: Option<ProbeResult>)
    ensures r.Some? ==> r.value in results && Succeeds(r.value, group, target)
  {
    if results == [] then None
    else
      var res := results[|results| - 1];
      if Succeeds(res, group, target) then Some(res) else LastProbe(results[..|results| - 1], group, target)
  }

  /** The last successful probe of a target, provided nothing has cleared the target since. */
  function StandingProbe(results: seq<ProbeResult>, group: string, target: string): (r: Option<ProbeResult>)
    ensures r.Some? ==> r.value in results && Succeeds(r.value, group, target)
  {
    if results == [] then None
    else
      var res := results[|results| - 1];
      if Succeeds(res, group, target) then Some(res)
      else if Clears(res, group, target) then None
      else StandingProbe(results[..|results| - 1], group, target)
  }

  /** It is the result at k, and no later one is a success for the target or clears it. */
  predicate StandsAt(results: seq<ProbeResult>, group: string, target: string, k: nat) {
    k < |results| && Succeeds(results[k], group, target)
    && forall j :: k < j < |results| ==> !Clears(results[j], group, target)
  }

  lemma {:induction false} StandingProbeIs(results: seq<ProbeResult>, group: string, target: string) returns (k: nat)
    ensures
      var probe := StandingProbe(results, group, target);
      if probe.Some? then StandsAt(results, group, target, k) && results[k] == probe.value
      else forall j: nat :: !StandsAt(results, group, target, j)
    decreases |results|
  {
    k := 0;
    if results != [] {
      var n := |results| - 1;
      var before := results[..n];
      if Succeeds(results[n], group, target) {
        k := n;
      } else if !Clears(results[n], group, target) {
        k := StandingProbeIs(before, group, target);
        forall j: nat | StandsAt(results, group, target, j) ensures StandsAt(before, group, target, j) {
          assert before[j] == results[j];
        }
      }
    }
  }

  /** Likewise for the last successful probe. */
  predicate LastAt(results: seq<ProbeResult>, group: string, target: string, k: nat) {
    k < |results| && Succeeds(results[k], group, target)
    && forall j :: k < j < |results| ==> !Succeeds(results[j], group, target)
  }

  lemma {:induction false} LastProbeIs(results: seq<ProbeResult>, group: string, target: string) returns (k: nat)
    ensures
      var probe := LastProbe(results, group, target);
      if probe.Some? then LastAt(results, group, target, k) && results[k] == probe.value
      else forall j :: 0 <= j < |results| ==> !Succeeds(results[j], group, target)
    decreases |results|
  {
    k := 0;
    if results != [] {
      var n := |results| - 1;
      if Succeeds(results[n], group, target) {
        k := n;
      } else {
        k := LastProbeIs(results[..n], group, target);
        forall j | 0 <= j < n && Succeeds(results[j], group, target)
          ensures Succeeds(results[..n][j], group, target) {}
      }
    }
  }

  function Shown(probe: Option<ProbeResult>, id: PrimaryKey): Option<SnapshotEntry> {
    if probe.None? then None else LastEntry(EntriesOf(probe.value), id)
  }

  lemma {:induction false} UpsertedLookup(m: Table, entries: seq<SnapshotEntry>, id: PrimaryKey)
    ensures Lookup(Upserted(m, entries), id)
         == if LastEntry(entries, id).Some? then LastEntry(entries, id) else Lookup(m, id)
    decreases |entries|
  {
    if entries != [] {
      UpsertedLookup(m, entries[..|entries| - 1], id);
    }
  }

  /** All entries of a probe are the probed target's. */
  lemma {:induction false} EntriesAreTheTargets(res: ProbeResult, entries: seq<SnapshotEntry>, id: PrimaryKey)
    requires entries <= EntriesOf(res) && LastEntry(entries, id).Some?
    ensures id.group == res.group && id.target == res.target
    ensures
      var e := LastEntry(entries, id).value;
      IdOf(e) == id && e.info in res.infos && e == EntryOf(res, e.info)
    decreases |entries|
  {
    var n := |entries| - 1;
    assert entries[n] == EntriesOf(res)[n] == EntryOf(res, res.infos[n]);
    if IdOf(entries[n]) != id {
      EntriesAreTheTargets(res, entries[..n], id);
    }
  }

  /** No successful probe has cleared the target. */
  predicate Untouched(results: seq<ProbeResult>, group: string, target: string) {
    results == [] ||
    (!Clears(results[|results| - 1], group, target) && Untouched(results[..|results| - 1], group, target))
  }

  /** Whatever targets there are and whatever the index held at first: it shows, for each target, the
      last entries per slot of its last successful probe, unless a probe of a shorter name has cleared
      them, and what it held at first for the targets that nothing has cleared. */
  lemma {:induction false} IndexShowsStandingProbes(start: Table, results: seq<ProbeResult>, id: PrimaryKey)
    ensures
      Lookup(Collected(start, results), id) ==
        if Untouched(results, id.group, id.target) then Lookup(start, id)
        else Shown(StandingProbe(results, id.group, id.target), id)
    ensures Untouched(results, id.group, id.target) ==> StandingProbe(results, id.group, id.target).None?
    decreases |results|
  {
    if results != [] {
      var before, res := results[..|results| - 1], results[|results| - 1];
      IndexShowsStandingProbes(start, before, id);
      if res.err.None? {
        var entries := EntriesOf(res);
        UpsertedLookup(Deleted(Collected(start, before), res.group, res.target), entries, id);
        if LastEntry(entries, id).Some? {
          EntriesAreTheTargets(res, entries, id);
        }
      }
    }
  }

  /** A tracker starts with an empty index. */
  lemma FreshIndexShowsStandingProbes(results: seq<ProbeResult>, id: PrimaryKey)
    ensures Lookup(Collected(map[], results), id) == Shown(StandingProbe(results, id.group, id.target), id)
  {
    IndexShowsStandingProbes(map[], results, id);
  }

  /** A stored entry carries what the standing probe of its target reported, last for its slot: group,
      target and time are the probe's, and slot and base slot are the snapshot's. */
  lemma StoredEntryIs(results: seq<ProbeResult>, id: PrimaryKey) returns (k: nat)
    requires id in Collected(map[], results)
    ensures
      var e, probe := Collected(map[], results)[id], StandingProbe(results, id.group, id.target);
      && probe.Some? && LastFor(EntriesOf(probe.value), id, k) && e.info == probe.value.infos[k]
      && e.updatedAt == probe.value.time && e.key.inverseSlot == id.inverseSlot
      && e.key.group == probe.value.group == id.group && e.key.target == probe.value.target == id.target
      && e.key.Slot() == e.info.slot && e.key.baseSlot == e.info.baseSlot
  {
    FreshIndexShowsStandingProbes(results, id);
    k := LastEntryIs(EntriesOf(StandingProbe(results, id.group, id.target).value), id);
  }

  /** A stored entry sits at the slot and base slot of the snapshot it describes. */
  lemma StoredKeysAgree(results: seq<ProbeResult>, id: PrimaryKey)
    requires id in Collected(map[], results)
    ensures
      var e := Collected(map[], results)[id];
      IdOf(e) == id && e.key.Slot() == e.info.slot && e.key.baseSlot == e.info.baseSlot
  {
    FreshIndexShowsStandingProbes(results, id);
    var probe := StandingProbe(results, id.group, id.target).value;
    EntriesAreTheTargets(probe, EntriesOf(probe), id);
  }

  // ---- Against "the latest successful probe of each target"

  /** The index is what one would expect: the last successful probe of every target, last entry per slot. */
  ghost predicate ShowsLatest(results: seq<ProbeResult>) {
    forall id: PrimaryKey :: Lookup(Collected(map[], results), id) == Shown(LastProbe(results, id.group, id.target), id)
  }

  /** Whenever the last successful probe of a target reported snapshots, that target has not been
      cleared since. */
  ghost predicate NothingCleared(results: seq<ProbeResult>) {
    forall group, target :: StillStands(results, group, target)
  }

  predicate StillStands(results: seq<ProbeResult>, group: string, target: string) {
    var last := LastProbe(results, group, target);
    last.Some? && last.value.infos != [] ==> !ClearedSince(results, group, target)
  }

  /** A probe of a proper prefix of the target's name has succeeded after the target's own last one. */
  predicate ClearedSince(results: seq<ProbeResult>, group: string, target: string) {
    results != [] &&
    var res := results[|results| - 1];
    !Succeeds(res, group, target)
    && (Clears(res, group, target) || ClearedSince(results[..|results| - 1], group, target))
  }

  lemma {:induction false} StandingOrCleared(results: seq<ProbeResult>, group: string, target: string)
    ensures StandingProbe(results, group, target)
         == if ClearedSince(results, group, target) then None else LastProbe(results, group, target)
    decreases |results|
  {
    if results != [] {
      StandingOrCleared(results[..|results| - 1], group, target);
    }
  }

  lemma LastEntryOfLast(res: ProbeResult)
    requires res.infos != []
    ensures LastEntry(EntriesOf(res), IdOf(EntriesOf(res)[|res.infos| - 1])).Some?
    ensures var id := IdOf(EntriesOf(res)[|res.infos| - 1]); id.group == res.group && id.target == res.target
  {
  }

  /** The index refines "latest successful probe per target" exactly when no probe of a shorter name
      has cleared a target that still had snapshots to show. */
  lemma CollectorRefinesLatestIff(results: seq<ProbeResult>)
    ensures ShowsLatest(results) <==> NothingCleared(results)
  {
    if NothingCleared(results) {
      forall id: PrimaryKey
        ensures Lookup(Collected(map[], results), id) == Shown(LastProbe(results, id.group, id.target), id)
      {
        FreshIndexShowsStandingProbes(results, id);
        StandingOrCleared(results, id.group, id.target);
        assert StillStands(results, id.group, id.target);
      }
    }
    if ShowsLatest(results) {
      forall group, target ensures StillStands(results, group, target) {
        var last := LastProbe(results, group, target);
        if last.Some? && last.value.infos != [] {
          LastEntryOfLast(last.value);
          var id := IdOf(EntriesOf(last.value)[|last.value.infos| - 1]);
          FreshIndexShowsStandingProbes(results, id);
          StandingOrCleared(results, group, target);
          assert Lookup(Collected(map[], results), id) == Shown(LastProbe(results, id.group, id.target), id);
        }
      }
    }
  }

  /** No target's name starts another target's name of the same group. */
  ghost predicate PrefixFree(results: seq<ProbeResult>) {
    forall r, s :: r in results && s in results && r.group == s.group && r.target <= s.target ==> r.target == s.target
  }

  lemma {:induction false} PrefixFreeNeverClears(
    results: seq<ProbeResult>, some: seq<ProbeResult>, group: string, target: string)
    requires PrefixFree(results) && forall r :: r in some ==> r in results
    requires exists s :: s in results && s.group == group && s.target == target
    ensures !ClearedSince(some, group, target)
    decreases |some|
  {
    if some != [] {
      var res := some[|some| - 1];
      assert res in some;
      PrefixFreeNeverClears(results, some[..|some| - 1], group, target);
    }
  }

  /** With targets of which none starts another, the index always shows the latest probes. */
  lemma PrefixFreeShowsLatest(results: seq<ProbeResult>)
    requires PrefixFree(results)
    ensures ShowsLatest(results)
  {
    forall group, target ensures StillStands(results, group, target) {
      if LastProbe(results, group, target).Some? {
        PrefixFreeNeverClears(results, results, group, target);
      }
    }
    CollectorRefinesLatestIff(results);
  }

  /** Probing "a" after "ab" loses the snapshots of "ab". */
  lemma ShorterNameClears(info: SnapshotInfo)
    ensures !ShowsLatest([ProbeResult(0, "ab", "g", [info], None), ProbeResult(1, "a", "g", [], None)])
  {
    var ab, a := ProbeResult(0, "ab", "g", [info], None), ProbeResult(1, "a", "g", [], None);
    var results := [ab, a];
    assert results[..1] == [ab];
    assert LastProbe(results, "g", "ab") == LastProbe([ab], "g", "ab") == Some(ab);
    assert "a" <= "ab";
    assert ClearedSince(results, "g", "ab");
    assert !StillStands(results, "g", "ab");
    CollectorRefinesLatestIff(results);
  }

  // ---- What readers see

  /** What the table holds for a target is what the probe shows. */
  ghost predicate Matches(m: Table, probe: Option<ProbeResult>, group: string, target: string) {
    forall inverseSlot ::
      Lookup(m, PrimaryKey(group, target, inverseSlot)) == Shown(probe, PrimaryKey(group, target, inverseSlot))
  }

  /** The entries of a target are all those of one successful probe, or there are none. */
  ghost predicate FromOneProbe(m: Table, results: seq<ProbeResult>, group: string, target: string) {
    exists probe: Option<ProbeResult> ::
      && Matches(m, probe, group, target)
      && (probe.Some? ==> probe.value in results && Succeeds(probe.value, group, target))
  }

  /** The entries of a target are all those that the index held at first. */
  ghost predicate AsAtFirst(start: Table, m: Table, group: string, target: string) {
    forall inverseSlot ::
      Lookup(m, PrimaryKey(group, target, inverseSlot)) == Lookup(start, PrimaryKey(group, target, inverseSlot))
  }

  lemma CollectedFromOneSource(
    start: Table, results: seq<ProbeResult>, all: seq<ProbeResult>, group: string, target: string)
    requires forall r :: r in results ==> r in all
    ensures FromOneProbe(Collected(start, results), all, group, target)
            || AsAtFirst(start, Collected(start, results), group, target)
  {
    var probe := StandingProbe(results, group, target);
    forall inverseSlot
      ensures Lookup(Collected(start, results), PrimaryKey(group, target, inverseSlot)) ==
              if Untouched(results, group, target) then Lookup(start, PrimaryKey(group, target, inverseSlot))
              else Shown(probe, PrimaryKey(group, target, inverseSlot))
    {
      IndexShowsStandingProbes(start, results, PrimaryKey(group, target, inverseSlot));
    }
    assert Matches(Collected(start, results), probe, group, target)
           || AsAtFirst(start, Collected(start, results), group, target);
  }

  lemma DeletedFromOneSource(
    start: Table, m: Table, g: string, t: string, results: seq<ProbeResult>, group: string, target: string)
    requires FromOneProbe(m, results, group, target) || AsAtFirst(start, m, group, target)
    ensures FromOneProbe(Deleted(m, g, t), results, group, target)
            || AsAtFirst(start, Deleted(m, g, t), group, target)
  {
    var rest := Deleted(m, g, t);
    if g == group && t <= target {
      assert Matches(rest, None, group, target);
    } else {
      forall inverseSlot
        ensures Lookup(rest, PrimaryKey(group, target, inverseSlot))
             == Lookup(m, PrimaryKey(group, target, inverseSlot)) {}
      if AsAtFirst(start, m, group, target) {
        assert AsAtFirst(start, rest, group, target);
      } else {
        var probe: Option<ProbeResult> :|
          && Matches(m, probe, group, target)
          && (probe.Some? ==> probe.value in results && Succeeds(probe.value, group, target));
        assert Matches(rest, probe, group, target);
      }
    }
  }

  /** At every moment, even between the two transactions of a probe and whatever the targets are
      called, a reader never sees a mix of two probes of one target, or of a probe and what the index
      held at first. */
  lemma {:induction false} ReadersSeeOneSource(
    start: Table, results: seq<ProbeResult>, all: seq<ProbeResult>, k: nat, group: string, target: string)
    requires k < |Observed(start, results)| && forall r :: r in results ==> r in all
    ensures FromOneProbe(Observed(start, results)[k], all, group, target)
            || AsAtFirst(start, Observed(start, results)[k], group, target)
    decreases |results|
  {
    if results == [] {
      CollectedFromOneSource(start, [], all, group, target);
    } else {
      var before, res := results[..|results| - 1], results[|results| - 1];
      if k < |Observed(start, before)| {
        ReadersSeeOneSource(start, before, all, k, group, target);
      } else if k == |Observed(start, before)| {
        CollectedFromOneSource(start, before, all, group, target);
        DeletedFromOneSource(start, Collected(start, before), res.group, res.target, all, group, target);
      } else {
        CollectedFromOneSource(start, results, all, group, target);
      }
    }
  }

  /** Between the two transactions of a probe a reader sees nothing of its target. */
  lemma ReadersMaySeeNothing(start: Table, before: seq<ProbeResult>, res: ProbeResult, id: PrimaryKey)
    requires res.err.None?
    ensures
      var observed := Observed(start, before + [res]);
      && |observed| == |Observed(start, before)| + 2
      && observed[|observed| - 1] == Collected(start, before + [res])
      && (id in observed[|observed| - 2] <==>
            id in Collected(start, before) && !(id.group == res.group && res.target <= id.target))
  {
    assert (before + [res])[..|before|] == before;
  }

  /** With an index that is empty at first, always one probe or none. */
  lemma ReadersSeeOneProbe(results: seq<ProbeResult>, k: nat, group: string, target: string)
    requires k < |Observed(map[], results)|
    ensures FromOneProbe(Observed(map[], results)[k], results, group, target)
  {
    ReadersSeeOneSource(map[], results, results, k, group, target);
    var m := Observed(map[], results)[k];
    if AsAtFirst(map[], m, group, target) {
      assert Matches(m, None, group, target);
    }
  }

  /** One probe means one time stamp. */
  lemma OneProbeOneTime(m: Table, results: seq<ProbeResult>, a: PrimaryKey, b: PrimaryKey)
    requires FromOneProbe(m, results, a.group, a.target)
    requires a in m && b in m && a.group == b.group && a.target == b.target
    ensures m[a].updatedAt == m[b].updatedAt
  {
    var probe: Option<ProbeResult> :|
      && Matches(m, probe, a.group, a.target)
      && (probe.Some? ==> probe.value in results && Succeeds(probe.value, a.group, a.target));
    assert Lookup(m, PrimaryKey(a.group, a.target, a.inverseSlot)) == Shown(probe, a);
    assert Lookup(m, PrimaryKey(a.group, a.target, b.inverseSlot)) == Shown(probe, b);
    EntriesAreTheTargets(probe.value, EntriesOf(probe.value), a);
    EntriesAreTheTargets(probe.value, EntriesOf(probe.value), b);
  }

  // ---- From a probe to the best-snapshot query

  lemma {:induction false} EveryInfoHasEntry(entries: seq<SnapshotEntry>, i: nat)
    requires i < |entries|
    ensures LastEntry(entries, IdOf(entries[i])).Some?
    decreases |entries|
  {
    if i < |entries| - 1 {
      EveryInfoHasEntry(entries[..|entries| - 1], i);
    }
  }

  /** The best-snapshot query of a group starts with a slot at least as high as any slot reported by
      the last successful probe of any of the group's targets that has not been cleared. */
  lemma BestSnapshotIsNewestReported(
    results: seq<ProbeResult>, group: string, target: string, i: nat, answer: seq<SnapshotEntry>)
    requires Answers(Slot, answer, Collected(map[], results), InGroup(group))
    requires StandingProbe(results, group, target).Some?
    requires i < |StandingProbe(results, group, target).value.infos|
    ensures answer != [] && answer[0].info.slot >= StandingProbe(results, group, target).value.infos[i].slot
  {
    var probe := StandingProbe(results, group, target).value;
    var id := IdOf(EntriesOf(probe)[i]);
    EveryInfoHasEntry(EntriesOf(probe), i);
    FreshIndexShowsStandingProbes(results, id);
    StoredKeysAgree(results, id);
    var e := Collected(map[], results)[id];
    HeadOfAnswerIsNewest(answer, Collected(map[], results), InGroup(group), e);
    assert answer[0] in answer;
    StoredKeysAgree(results, IdOf(answer[0]));
  }
}
