/** The tracker's in-memory index (internal/index). An index is a sequence kept in the order of its
    key; the key of every index ends in the primary key, as in the underlying store. */
module Index {
  import opened Snapshot
  import Lexicographic

  datatype SnapshotKey = SnapshotKey(group: string, target: string, inverseSlot: uint64, baseSlot: uint64)
  {
    function Slot(): uint64 {
      Complement(inverseSlot)
    }
  }

  datatype SnapshotEntry = SnapshotEntry(key: SnapshotKey, info: SnapshotInfo, updatedAt: int)

  /** The bitwise complement of a 64-bit unsigned integer. */
  function Complement(x: uint64): uint64 {
    TWO_TO_THE_64 - 1 - x
  }

  function NewSnapshotKey(group: string, target: string, slot: uint64, baseSlot: uint64): (k: SnapshotKey)
    ensures k.Slot() == slot
  {
    SnapshotKey(group, target, Complement(slot), baseSlot)
  }

  // ---- Keys and their order

  datatype PrimaryKey = PrimaryKey(group: string, target: string, inverseSlot: uint64)

  datatype IndexName = Id | Slot | BaseSlot

  function IdOf(e: SnapshotEntry): PrimaryKey {
    PrimaryKey(e.key.group, e.key.target, e.key.inverseSlot)
  }

  /** What an index sorts by before it falls back on the primary key. */
  function Major(ix: IndexName, e: SnapshotEntry): nat {
    match ix
    case Id => 0
    case Slot => e.key.inverseSlot
    case BaseSlot => e.key.baseSlot
  }

  function CharRank(c: char): int {
    c as int
  }

  function CompareStrings(a: string, b: string): int {
    Lexicographic.Compare(a, b, CharRank)
  }

  /** a comes before b in the index. */
  predicate Before(ix: IndexName, a: SnapshotEntry, b: SnapshotEntry) {
    || Major(ix, a) < Major(ix, b)
    || (Major(ix, a) == Major(ix, b) && IdBefore(IdOf(a), IdOf(b)))
  }

  predicate IdBefore(a: PrimaryKey, b: PrimaryKey) {
    var g, t := CompareStrings(a.group, b.group), CompareStrings(a.target, b.target);
    g < 0 || (g == 0 && (t < 0 || (t == 0 && a.inverseSlot < b.inverseSlot)))
  }

  lemma CompareStringsIsOrder(a: string, b: string)
    ensures CompareStrings(a, b) == -CompareStrings(b, a)
    ensures CompareStrings(a, b) == 0 <==> a == b
  {
    Lexicographic.IsOrder(a, b, CharRank);
  }

  /** At the first character in which they differ, a has the smaller one, or a ends there. */
  ghost predicate StringBefore(a: string, b: string) {
    exists k: nat :: k <= |a| && k < |b| && a[..k] == b[..k] && (k == |a| || a[k] < b[k])
  }

  lemma CompareStringsIff(a: string, b: string)
    ensures CompareStrings(a, b) < 0 <==> StringBefore(a, b)
  {
    var k := Lexicographic.FirstDifference(a, b, CharRank);
    if StringBefore(a, b) {
      var j: nat :| j <= |a| && j < |b| && a[..j] == b[..j] && (j == |a| || a[j] < b[j]);
      Lexicographic.DifferenceIsUnique(a, b, j, k);
    }
  }

  lemma CompareStringsTransitive(a: string, b: string, c: string)
    requires CompareStrings(a, b) < 0 && CompareStrings(b, c) < 0
    ensures CompareStrings(a, c) < 0
  {
    CompareStringsIsOrder(a, b);
    CompareStringsIsOrder(b, c);
    CompareStringsIsOrder(a, c);
    Lexicographic.Transitive(c, b, a, CharRank);
  }

  lemma BeforeIsOrder(ix: IndexName, a: SnapshotEntry, b: SnapshotEntry)
    ensures Before(ix, a, b) ==> !Before(ix, b, a)
    ensures Before(ix, a, b) || Before(ix, b, a) || IdOf(a) == IdOf(b)
    ensures !Before(ix, a, a)
  {
    CompareStringsIsOrder(a.key.group, b.key.group);
    CompareStringsIsOrder(a.key.target, b.key.target);
    CompareStringsIsOrder(a.key.group, a.key.group);
    CompareStringsIsOrder(a.key.target, a.key.target);
  }

  lemma BeforeTransitive(ix: IndexName, a: SnapshotEntry, b: SnapshotEntry, c: SnapshotEntry)
    requires Before(ix, a, b) && Before(ix, b, c)
    ensures Before(ix, a, c)
  {
    CompareStringsIsOrder(a.key.group, b.key.group);
    CompareStringsIsOrder(b.key.group, c.key.group);
    CompareStringsIsOrder(a.key.target, b.key.target);
    CompareStringsIsOrder(b.key.target, c.key.target);
    if CompareStrings(a.key.group, b.key.group) < 0 && CompareStrings(b.key.group, c.key.group) < 0 {
      CompareStringsTransitive(a.key.group, b.key.group, c.key.group);
    }
    if CompareStrings(a.key.target, b.key.target) < 0 && CompareStrings(b.key.target, c.key.target) < 0 {
      CompareStringsTransitive(a.key.target, b.key.target, c.key.target);
    }
  }

  // ---- Ordered sequences of entries

  type Table = map<PrimaryKey, SnapshotEntry>

  predicate Ordered(ix: IndexName, s: seq<SnapshotEntry>) {
    forall i, j :: 0 <= i < j < |s| ==> Before(ix, s[i], s[j])
  }

  ghost predicate Has(m: Table, e: SnapshotEntry) {
    IdOf(e) in m && m[IdOf(e)] == e
  }

  ghost predicate Keyed(m: Table) {
    forall id :: id in m ==> IdOf(m[id]) == id
  }

  /** The index lists exactly the entries of the table, in its own order. */
  ghost predicate Mirrors(ix: IndexName, s: seq<SnapshotEntry>, m: Table) {
    Ordered(ix, s) && forall e :: e in s <==> Has(m, e)
  }

  function InsertOrdered(ix: IndexName, s: seq<SnapshotEntry>, e: SnapshotEntry): (r: seq<SnapshotEntry>)
    ensures forall x :: x in r <==> x in s || x == e
  {
    if s == [] then [e]
    else if Before(ix, e, s[0]) then [e] + s
    else
      assert s == [s[0]] + s[1..];
      [s[0]] + InsertOrdered(ix, s[1..], e)
  }

  function Select(s: seq<SnapshotEntry>, p: Condition): (r: seq<SnapshotEntry>)
    ensures forall x :: x in r <==> x in s && p(x)
  {
    if s == [] then []
    else
      assert s == [s[0]] + s[1..];
      if p(s[0]) then [s[0]] + Select(s[1..], p) else Select(s[1..], p)
  }

  type Condition = SnapshotEntry -> bool

  function OtherThan(id: PrimaryKey): Condition {
    e => IdOf(e) != id
  }

  function Without(s: seq<SnapshotEntry>, id: PrimaryKey): seq<SnapshotEntry> {
    Select(s, OtherThan(id))
  }

  lemma {:induction false} SelectOrdered(ix: IndexName, s: seq<SnapshotEntry>, p: Condition)
    requires Ordered(ix, s)
    ensures Ordered(ix, Select(s, p))
    decreases |s|
  {
    if s != [] {
      SelectOrdered(ix, s[1..], p);
      var r := Select(s[1..], p);
      forall j | 0 <= j < |r| ensures Before(ix, s[0], r[j]) {
        assert r[j] in s[1..];
        var k :| 0 <= k < |s[1..]| && s[1..][k] == r[j];
        assert Before(ix, s[0], s[k + 1]);
      }
    }
  }

  lemma {:induction false} InsertKeepsOrder(ix: IndexName, s: seq<SnapshotEntry>, e: SnapshotEntry)
    requires Ordered(ix, s) && forall x :: x in s ==> IdOf(x) != IdOf(e)
    ensures Ordered(ix, InsertOrdered(ix, s, e))
    decreases |s|
  {
    if s != [] {
      if Before(ix, e, s[0]) {
        forall j | 0 <= j < |s| ensures Before(ix, e, s[j]) {
          if j > 0 {
            BeforeTransitive(ix, e, s[0], s[j]);
          }
        }
      } else {
        BeforeIsOrder(ix, e, s[0]);
        assert s[0] in s;
        var r := InsertOrdered(ix, s[1..], e);
        InsertKeepsOrder(ix, s[1..], e);
        forall j | 0 <= j < |r| ensures Before(ix, s[0], r[j]) {
          assert r[j] in r;
          if r[j] != e {
            var k :| 0 <= k < |s[1..]| && s[1..][k] == r[j];
            assert Before(ix, s[0], s[k + 1]);
          }
        }
      }
    }
  }

  lemma UpsertMirrors(ix: IndexName, s: seq<SnapshotEntry>, m: Table, e: SnapshotEntry)
    requires Mirrors(ix, s, m)
    ensures Mirrors(ix, InsertOrdered(ix, Without(s, IdOf(e)), e), m[IdOf(e) := e])
  {
    SelectOrdered(ix, s, OtherThan(IdOf(e)));
    InsertKeepsOrder(ix, Without(s, IdOf(e)), e);
  }

  lemma DeleteMirrors(ix: IndexName, s: seq<SnapshotEntry>, m: Table, id: PrimaryKey)
    requires Mirrors(ix, s, m)
    ensures Mirrors(ix, Without(s, id), m - {id})
  {
    SelectOrdered(ix, s, OtherThan(id));
  }

  /** An index holds each entry of the table once. */
  lemma {:induction false} MirrorSize(ix: IndexName, s: seq<SnapshotEntry>, m: Table)
    requires Mirrors(ix, s, m) && Keyed(m)
    ensures |s| == |m|
    decreases |s|
  {
    forall id | id in m ensures s != [] {
      assert Has(m, m[id]);
    }
    if s == [] {
      assert m == map[];
    } else {
      var id := IdOf(s[0]);
      assert s[0] in s && Has(m, s[0]);
      var rest := m - {id};
      forall e ensures e in s[1..] <==> Has(rest, e) {
        if e in s[1..] {
          assert e in s;
          var k :| 0 <= k < |s[1..]| && s[1..][k] == e;
          assert Before(ix, s[0], s[k + 1]);
          if IdOf(e) == id {
            BeforeIsOrder(ix, s[0], s[0]);
          }
        }
        if Has(rest, e) {
          assert e in s && e != s[0];
        }
      }
      assert Mirrors(ix, s[1..], rest);
      MirrorSize(ix, s[1..], rest);
      assert m.Keys == rest.Keys + {id};
    }
  }

  /** There is only one way to put given entries in the order of an index. */
  lemma {:induction false} OrderIsUnique(ix: IndexName, s: seq<SnapshotEntry>, t: seq<SnapshotEntry>)
    requires Ordered(ix, s) && Ordered(ix, t) && forall e :: e in s <==> e in t
    ensures s == t
    decreases |s|
  {
    assert s != [] ==> s[0] in s;
    assert t != [] ==> t[0] in t;
    if s != [] && t != [] {
      var i :| 0 <= i < |t| && t[i] == s[0];
      var j :| 0 <= j < |s| && s[j] == t[0];
      BeforeIsOrder(ix, s[0], t[0]);
      assert s[0] == t[0];
      BeforeIsOrder(ix, s[0], s[0]);
      forall e ensures e in s[1..] <==> e in t[1..] {
        assert s == [s[0]] + s[1..] && t == [t[0]] + t[1..];
        assert forall k :: 0 <= k < |s[1..]| ==> Before(ix, s[0], s[1..][k]);
        assert forall k :: 0 <= k < |t[1..]| ==> Before(ix, t[0], t[1..][k]);
        assert e in s <==> e in t;
      }
      OrderIsUnique(ix, s[1..], t[1..]);
      assert s == [s[0]] + s[1..] && t == [t[0]] + t[1..];
    }
  }

  // ---- What the operations mean

  function InGroup(group: string): Condition {
    (e: SnapshotEntry) => group == "" || e.key.group == group
  }

  function OfTarget(group: string, target: string): Condition {
    e => Covers(group, target, IdOf(e))
  }

  function RestingOn(baseSlot: uint64): Condition {
    (e: SnapshotEntry) => e.key.baseSlot == baseSlot
  }

  /** The primary keys that a prefix lookup of (group, target) finds. */
  predicate Covers(group: string, target: string, id: PrimaryKey) {
    id.group == group && target <= id.target
  }

  /** The answer to a query: every entry of the table that satisfies p, once, in index order. */
  ghost predicate Answers(ix: IndexName, r: seq<SnapshotEntry>, m: Table, p: Condition) {
    Ordered(ix, r) && forall e :: e in r <==> Has(m, e) && p(e)
  }

  lemma SelectAnswers(ix: IndexName, s: seq<SnapshotEntry>, m: Table, p: Condition)
    requires Mirrors(ix, s, m)
    ensures Answers(ix, Select(s, p), m, p)
  {
    SelectOrdered(ix, s, p);
  }

  lemma AnswerIsUnique(ix: IndexName, r: seq<SnapshotEntry>, s: seq<SnapshotEntry>, m: Table, p: Condition)
    requires Answers(ix, r, m, p) && Answers(ix, s, m, p)
    ensures r == s
  {
    OrderIsUnique(ix, r, s);
  }

  /** a's group comes before b's, or they are in one group and a's target comes before b's. */
  ghost predicate NamedBefore(a: SnapshotEntry, b: SnapshotEntry) {
    || StringBefore(a.key.group, b.key.group)
    || (a.key.group == b.key.group && StringBefore(a.key.target, b.key.target))
  }

  predicate SameTarget(a: SnapshotEntry, b: SnapshotEntry) {
    a.key.group == b.key.group && a.key.target == b.key.target
  }

  lemma BeforeInNumbers(ix: IndexName, a: SnapshotEntry, b: SnapshotEntry)
    requires Before(ix, a, b)
    ensures
      match ix
      case Id => NamedBefore(a, b) || (SameTarget(a, b) && a.key.Slot() > b.key.Slot())
      case Slot => a.key.Slot() > b.key.Slot() || (a.key.Slot() == b.key.Slot() && NamedBefore(a, b))
      case BaseSlot =>
        || a.key.baseSlot < b.key.baseSlot
        || (a.key.baseSlot == b.key.baseSlot
            && (NamedBefore(a, b) || (SameTarget(a, b) && a.key.Slot() > b.key.Slot())))
  {
    CompareStringsIff(a.key.group, b.key.group);
    CompareStringsIff(a.key.target, b.key.target);
    CompareStringsIsOrder(a.key.group, b.key.group);
    CompareStringsIsOrder(a.key.target, b.key.target);
  }

  /** What the order of an answer means. By primary key: group by group and target by target, the
      snapshots of a target newest first. By slot: newest first, ties by group and target. */
  lemma AnswerOrder(ix: IndexName, r: seq<SnapshotEntry>, m: Table, p: Condition, i: nat, j: nat)
    requires Answers(ix, r, m, p) && ix != BaseSlot && i < j < |r|
    ensures
      if ix == Id then NamedBefore(r[i], r[j]) || (SameTarget(r[i], r[j]) && r[i].key.Slot() > r[j].key.Slot())
      else r[i].key.Slot() > r[j].key.Slot() || (r[i].key.Slot() == r[j].key.Slot() && NamedBefore(r[i], r[j]))
    ensures SameTarget(r[i], r[j]) ==> r[i].key.Slot() > r[j].key.Slot()
  {
    BeforeInNumbers(ix, r[i], r[j]);
    if SameTarget(r[i], r[j]) && NamedBefore(r[i], r[j]) {
      NothingBeforeItself(r[i].key.group);
      NothingBeforeItself(r[i].key.target);
    }
  }

  lemma NothingBeforeItself(a: string)
    ensures !StringBefore(a, a)
  {
  }

  /** The head of an answer in slot order has the greatest slot of all entries that satisfy p. */
  lemma HeadOfAnswerIsNewest(r: seq<SnapshotEntry>, m: Table, p: Condition, e: SnapshotEntry)
    requires Answers(Slot, r, m, p) && Has(m, e) && p(e)
    ensures r != [] && r[0].key.Slot() >= e.key.Slot()
  {
    assert e in r;
    var k :| 0 <= k < |r| && r[k] == e;
    assert k > 0 ==> Before(Slot, r[0], r[k]);
  }

  /** Later entries replace earlier ones of the same group, target and slot. */
  ghost function Upserted(m: Table, entries: seq<SnapshotEntry>): Table {
    if entries == [] then m
    else
      var e := entries[|entries| - 1];
      Upserted(m, entries[..|entries| - 1])[IdOf(e) := e]
  }

  ghost function Deleted(m: Table, group: string, target: string): Table {
    map id | id in m && !Covers(group, target, id) :: m[id]
  }

  ghost function Expired(m: Table, minTime: int): Table {
    map id | id in m && m[id].updatedAt >= minTime :: m[id]
  }

  /** A prefix delete drops what it covers and touches nothing else. */
  lemma DeletedKeeps(m: Table, group: string, target: string, id: PrimaryKey)
    ensures id in Deleted(m, group, target) <==> id in m && !(id.group == group && target <= id.target)
    ensures id in Deleted(m, group, target) ==> Deleted(m, group, target)[id] == m[id]
  {
  }

  lemma ExpiredKeeps(m: Table, minTime: int, id: PrimaryKey)
    ensures id in Expired(m, minTime) <==> id in m && m[id].updatedAt >= minTime
    ensures id in Expired(m, minTime) ==> Expired(m, minTime)[id] == m[id]
  {
  }

  /** How many entries the best-snapshots query returns when n are in the group: all of them for a
      negative max, else one more than max says. */
  function BestCount(max: int, n: nat): nat {
    if max < 0 || max + 1 > n then n else max + 1
  }

  predicate Storable(e: SnapshotEntry) {
    e.key.group != "" && e.key.target != ""
  }

  class DB {
    var byId: seq<SnapshotEntry>
    var bySlot: seq<SnapshotEntry>
    var byBaseSlot: seq<SnapshotEntry>
    ghost var table: Table

    /** All indexes describe one and the same table. */
    ghost predicate Valid()
      reads this
    {
      && Keyed(table)
      && Mirrors(Id, byId, table)
      && Mirrors(Slot, bySlot, table)
      && Mirrors(BaseSlot, byBaseSlot, table)
    }

    constructor ()
      ensures Valid() && table == map[]
    {
      byId, bySlot, byBaseSlot, table := [], [], [], map[];
    }

    method Insert(e: SnapshotEntry)
      requires Valid() && Storable(e)
      modifies this
      ensures Valid() && table == old(table)[IdOf(e) := e]
    {
      UpsertMirrors(Id, byId, table, e);
      UpsertMirrors(Slot, bySlot, table, e);
      UpsertMirrors(BaseSlot, byBaseSlot, table, e);
      byId := InsertOrdered(Id, Without(byId, IdOf(e)), e);
      bySlot := InsertOrdered(Slot, Without(bySlot, IdOf(e)), e);
      byBaseSlot := InsertOrdered(BaseSlot, Without(byBaseSlot, IdOf(e)), e);
      table := table[IdOf(e) := e];
    }

    method Delete(e: SnapshotEntry)
      requires Valid()
      modifies this
      ensures Valid() && table == old(table) - {IdOf(e)}
    {
      DeleteMirrors(Id, byId, table, IdOf(e));
      DeleteMirrors(Slot, bySlot, table, IdOf(e));
      DeleteMirrors(BaseSlot, byBaseSlot, table, IdOf(e));
      byId := Without(byId, IdOf(e));
      bySlot := Without(bySlot, IdOf(e));
      byBaseSlot := Without(byBaseSlot, IdOf(e));
      table := table - {IdOf(e)};
    }

    method UpsertSnapshots(entries: seq<SnapshotEntry>)
      requires Valid() && forall e :: e in entries ==> Storable(e)
      modifies this
      ensures Valid() && table == Upserted(old(table), entries)
    {
      for i := 0 to |entries|
        invariant Valid() && table == Upserted(old(table), entries[..i])
      {
        assert entries[..i + 1][..i] == entries[..i];
        Insert(entries[i]);
      }
      assert entries[..|entries|] == entries;
    }

    /** Every snapshot of the targets whose name starts with target, by target, newest first. */
    method GetSnapshotsByTarget(group: string, target: string) returns (entries: seq<SnapshotEntry>)
      requires Valid()
      ensures Answers(Id, entries, table, OfTarget(group, target))
      ensures forall e :: e in entries <==> Has(table, e) && e.key.group == group && target <= e.key.target
    {
      var res := Select(byId, OfTarget(group, target));
      SelectAnswers(Id, byId, table, OfTarget(group, target));
      entries := [];
      for i := 0 to |res|
        invariant entries == res[..i]
      {
        entries := entries + [res[i]];
      }
      assert entries == res;
    }

    method GetAllSnapshotsByGroup(group: string) returns (entries: seq<SnapshotEntry>)
      requires Valid()
      ensures Answers(Id, entries, table, InGroup(group))
      ensures forall e :: e in entries <==> Has(table, e) && (group == "" || e.key.group == group)
    {
      ghost var p := InGroup(group);
      entries := [];
      for i := 0 to |byId|
        invariant entries == Select(byId[..i], p)
      {
        GroupStep(byId, i, group);
        if group != "" && byId[i].key.group != group {
          continue;
        }
        entries := entries + [byId[i]];
      }
      assert byId[..|byId|] == byId;
      SelectAnswers(Id, byId, table, p);
    }

    /** The newest snapshots of a group, ties ordered by group and target. One more than max. */
    method GetBestSnapshotsByGroup(group: string, max: int) returns (entries: seq<SnapshotEntry>)
      requires Valid()
      ensures exists all :: Answers(Slot, all, table, InGroup(group))
                            && entries == all[..BestCount(max, |all|)]
    {
      ghost var p := InGroup(group);
      ghost var all := Select(bySlot, p);
      SelectAnswers(Slot, bySlot, table, p);
      entries := [];
      var i := 0;
      while max < 0 || |entries| <= max
        invariant 0 <= i <= |bySlot|
        invariant entries == Select(bySlot[..i], p)
        invariant max < 0 || |entries| <= max + 1
        decreases |bySlot| - i
      {
        if i == |bySlot| {
          break;  // the iterator is exhausted
        }
        GroupStep(bySlot, i, group);
        var entry := bySlot[i];
        i := i + 1;
        if group != "" && entry.key.group != group {
          continue;
        }
        entries := entries + [entry];
      }
      StoppedInTime(bySlot, i, p, max);
    }

    /** The snapshots that rest on a full snapshot of a slot, by group and target, newest first. */
    method GetSnapshotsAtSlot(slot: uint64) returns (entries: seq<SnapshotEntry>)
      requires Valid()
      ensures Answers(Id, entries, table, RestingOn(slot))
      ensures forall e :: e in entries <==> Has(table, e) && e.key.baseSlot == slot
    {
      var res := Select(byBaseSlot, RestingOn(slot));
      SelectAnswers(BaseSlot, byBaseSlot, table, RestingOn(slot));
      entries := [];
      for i := 0 to |res|
        invariant entries == res[..i]
      {
        entries := entries + [res[i]];
      }
      assert entries == res;
      forall i, j | 0 <= i < j < |res| ensures Before(Id, res[i], res[j]) {
        assert res[i] in res && res[j] in res;
      }
    }

    method DeleteOldSnapshots(minTime: int) returns (n: nat)
      requires Valid()
      modifies this
      ensures Valid() && table == Expired(old(table), minTime)
      ensures n == |old(table)| - |table|
    {
      var res := byId;
      ghost var before := table;
      ExpiredBounds(before, res, minTime);
      n := 0;
      for i := 0 to |res|
        invariant Valid()
        invariant table == ExpiredAmong(before, res[..i], minTime)
        invariant n == |before| - |table|
      {
        ExpiredStep(before, res, i, minTime);
        if res[i].updatedAt < minTime {
          Delete(res[i]);
          n := n + 1;
        }
      }
      assert res[..|res|] == res;
    }

    method DeleteSnapshotsByTarget(group: string, target: string) returns (n: nat)
      requires Valid()
      modifies this
      ensures Valid() && table == Deleted(old(table), group, target)
      ensures n == |old(table)| - |table|
    {
      var doomed := Select(byId, OfTarget(group, target));
      ghost var before := table;
      n := 0;
      SelectOrdered(Id, byId, OfTarget(group, target));
      for i := 0 to |doomed|
        invariant Valid()
        invariant table == Dropped(before, doomed[..i])
        invariant n == |before| - |table|
      {
        DroppedStep(before, doomed, i);
        Delete(doomed[i]);
        n := n + 1;
      }
      assert doomed[..|doomed|] == doomed;
    }
  }

  ghost function Dropped(m: Table, s: seq<SnapshotEntry>): Table {
    map id | id in m && m[id] !in s :: m[id]
  }

  ghost function ExpiredAmong(m: Table, s: seq<SnapshotEntry>, minTime: int): Table {
    map id | id in m && !(m[id] in s && m[id].updatedAt < minTime) :: m[id]
  }

  /** Dropping the next of several distinct entries takes exactly one away. */
  lemma DroppedStep(m: Table, s: seq<SnapshotEntry>, i: nat)
    requires Keyed(m) && i < |s| && Ordered(Id, s) && forall e :: e in s ==> Has(m, e)
    ensures Dropped(m, s[..i + 1]) == Dropped(m, s[..i]) - {IdOf(s[i])}
    ensures |Dropped(m, s[..i + 1])| == |Dropped(m, s[..i])| - 1
  {
    var id := IdOf(s[i]);
    assert s[i] in s && Has(m, s[i]);
    assert s[..i + 1] == s[..i] + [s[i]];
    assert s[i] !in s[..i] by {
      forall k | 0 <= k < i ensures s[k] != s[i] {
        assert Before(Id, s[k], s[i]);
        BeforeIsOrder(Id, s[i], s[i]);
      }
    }
    var a, b := Dropped(m, s[..i]), Dropped(m, s[..i + 1]);
    assert b == a - {id};
    assert a.Keys == b.Keys + {id};
  }

  lemma ExpiredBounds(m: Table, s: seq<SnapshotEntry>, minTime: int)
    requires Keyed(m) && Mirrors(Id, s, m)
    ensures ExpiredAmong(m, s[..0], minTime) == m
    ensures ExpiredAmong(m, s, minTime) == Expired(m, minTime)
  {
    assert s[..0] == [];
    forall id | id in m ensures m[id] in s {
      assert Has(m, m[id]);
    }
  }

  lemma ExpiredStep(m: Table, s: seq<SnapshotEntry>, i: nat, minTime: int)
    requires Keyed(m) && i < |s| && Ordered(Id, s) && forall e :: e in s ==> Has(m, e)
    ensures
      var a, b := ExpiredAmong(m, s[..i], minTime), ExpiredAmong(m, s[..i + 1], minTime);
      if s[i].updatedAt < minTime then b == a - {IdOf(s[i])} && |b| == |a| - 1 else b == a
  {
    var id := IdOf(s[i]);
    assert s[i] in s && Has(m, s[i]);
    assert s[..i + 1] == s[..i] + [s[i]];
    assert s[i] !in s[..i] by {
      forall k | 0 <= k < i ensures s[k] != s[i] {
        assert Before(Id, s[k], s[i]);
        BeforeIsOrder(Id, s[i], s[i]);
      }
    }
    var a, b := ExpiredAmong(m, s[..i], minTime), ExpiredAmong(m, s[..i + 1], minTime);
    if s[i].updatedAt < minTime {
      assert b == a - {id};
      assert a.Keys == b.Keys + {id};
    }
  }

  lemma {:induction false} SelectOfConcat(s: seq<SnapshotEntry>, t: seq<SnapshotEntry>, p: Condition)
    ensures Select(s + t, p) == Select(s, p) + Select(t, p)
    decreases |s|
  {
    if s == [] {
      assert s + t == t;
    } else {
      assert (s + t)[1..] == s[1..] + t;
      SelectOfConcat(s[1..], t, p);
    }
  }

  lemma SelectStep(s: seq<SnapshotEntry>, i: nat, p: Condition)
    requires i < |s|
    ensures Select(s[..i + 1], p) == Select(s[..i], p) + if p(s[i]) then [s[i]] else []
  {
    assert s[..i + 1] == s[..i] + [s[i]];
    SelectOfConcat(s[..i], [s[i]], p);
  }

  lemma GroupStep(s: seq<SnapshotEntry>, i: nat, group: string)
    requires i < |s|
    ensures
      var before := Select(s[..i], InGroup(group));
      Select(s[..i + 1], InGroup(group))
      == if group != "" && s[i].key.group != group then before else before + [s[i]]
  {
    SelectStep(s, i, InGroup(group));
  }

  lemma SelectPrefix(s: seq<SnapshotEntry>, i: nat, p: Condition)
    requires i <= |s|
    ensures Select(s[..i], p) <= Select(s, p)
  {
    assert s == s[..i] + s[i..];
    SelectOfConcat(s[..i], s[i..], p);
  }

  /** What the best-snapshots query leaves out is not newer than what it answers, and nothing is left
      out unless it answers one entry more than max. */
  lemma BestAnswerIsCut(all: seq<SnapshotEntry>, m: Table, group: string, max: int)
    requires Answers(Slot, all, m, InGroup(group))
    ensures
      var r := all[..BestCount(max, |all|)];
      && (max >= 0 ==> |r| <= max + 1)
      && (forall e :: e in r ==> Has(m, e) && (group == "" || e.key.group == group))
      && (forall e :: Has(m, e) && (group == "" || e.key.group == group) && e !in r ==>
            |r| == max + 1 && forall x :: x in r ==> x.key.Slot() >= e.key.Slot())
  {
    var r := all[..BestCount(max, |all|)];
    forall e | e in r ensures Has(m, e) && (group == "" || e.key.group == group) {
      assert e in all;
    }
    forall e | Has(m, e) && (group == "" || e.key.group == group) && e !in r
      ensures |r| == max + 1 && forall x :: x in r ==> x.key.Slot() >= e.key.Slot()
    {
      var rest := all[|r|..];
      assert all == r + rest && e in all;
      var j :| 0 <= j < |rest| && rest[j] == e;
      forall x | x in r ensures x.key.Slot() >= e.key.Slot() {
        var i :| 0 <= i < |r| && r[i] == x;
        assert Before(Slot, all[i], all[|r| + j]);
      }
    }
  }

  /** Scanning stops at the end of the index or with one entry more than max. */
  lemma StoppedInTime(s: seq<SnapshotEntry>, i: nat, p: Condition, max: int)
    requires i <= |s|
    requires max < 0 || |Select(s[..i], p)| <= max + 1
    requires i == |s| || (max >= 0 && |Select(s[..i], p)| == max + 1)
    ensures Select(s[..i], p) == Select(s, p)[..BestCount(max, |Select(s, p)|)]
  {
    SelectPrefix(s, i, p);
    assert s[..|s|] == s;
  }
}
