/** The fetch command without --incremental: when the run after a fetch has nothing left to do. */
module FetchFullOnly {
  import opened Snapshot
  import opened LedgerSpec
  import opened LedgerProperties
  import opened Fetch
  import opened FetchAdoption
  import opened FetchCommand
  import opened FetchConvergence

  // ---- Where a listed file rests

  /** The slot of the full file that a listed file rests on. */
  function RootSlot(files: seq<SnapshotFile>, t: SnapshotFile): uint64
    requires AllWellFormed(files) && WellFormed(t) && Listed(files, t)
  {
    GreedyChainSound(files, t);
    var chain := GreedyChain(files, t).value;
    chain[|chain| - 1].slot
  }

  lemma RootSlotStep(files: seq<SnapshotFile>, t: SnapshotFile)
    requires AllWellFormed(files) && WellFormed(t)
    ensures t.IsFull() ==> Listed(files, t) && RootSlot(files, t) == t.slot
    ensures
      !t.IsFull() ==>
        var next := BestAt(files, t.baseSlot);
        && (Listed(files, t) <==> next.Some? && Listed(files, next.value))
        && (Listed(files, t) ==> RootSlot(files, t) == RootSlot(files, next.value))
  {
    if !t.IsFull() && BestAt(files, t.baseSlot).Some? {
      GreedyChainSound(files, BestAt(files, t.baseSlot).value);
    }
  }

  /** A listed file that heads its listing, at the slot and base slot of the head. */
  lemma HeadRests(files: seq<SnapshotFile>) returns (t: SnapshotFile)
    requires AllWellFormed(files) && Sorted(files) && Listing(files) != []
    ensures t in files && Listed(files, t) && RootSlot(files, t) == HeadBaseSlot(Listing(files))
    ensures t.slot == HeadSlot(Listing(files))
    ensures forall u :: u in files && Listed(files, u) ==> Compare(t, u) >= 0
  {
    t := HeadIsListed(files);
    var root := LocalRoot(files);
    forall u | u in files && Listed(files, u) ensures Compare(t, u) >= 0 {
      HeadOfListing(files, u);
    }
  }

  // ---- What is downloaded, and what stays listed

  lemma FullOnlyDownloads(local: seq<SnapshotFile>, flags: Flags, world: World)
    requires Setting(local, flags, world) && flags.full && !flags.incremental
    ensures
      var plan, advice := RunPlan(flags, Listing(local), world), AdviceFor(flags, local, world);
      && (plan.outcome == Done <==> advice == AdviceFetch || advice == AdviceFetchFull)
      && plan.downloads == (if plan.outcome == Done then [Root(world.best.Head())] else [])
  {
    HealthyDownload(true, false, world.best, world);
  }

  lemma SameFilesSameFate(a: seq<SnapshotFile>, b: seq<SnapshotFile>, t: SnapshotFile)
    requires AllWellFormed(a) && AllWellFormed(b) && WellFormed(t)
    requires forall f :: f in a <==> f in b
    ensures Listed(a, t) <==> Listed(b, t)
  {
    forall key ensures key in Keys(a) <==> key in Keys(b) {
      if key in Keys(a) {
        var f := FileOfKey(a, key);
        KeysHold(b, f);
      }
      if key in Keys(b) {
        var f := FileOfKey(b, key);
        KeysHold(a, f);
      }
    }
    ChainKeysAreUnique(a, b, t, t);
  }

  /** Nothing but the remote full file is ever downloaded, and not even that under the advice that it is
      already there. Once downloaded it is listed, and nothing that was listed before is lost. */
  lemma FullOnlyFetch(local: seq<SnapshotFile>, flags: Flags, world: World, after: seq<SnapshotFile>)
    requires Setting(local, flags, world) && flags.full && !flags.incremental
    requires AllWellFormed(after)
    requires
      var downloads := RunPlan(flags, Listing(local), world).downloads;
      forall g :: g in after <==> g in local || g in downloads
    ensures
      var plan, root := RunPlan(flags, Listing(local), world), Root(world.best.Head());
      var advice := AdviceFor(flags, local, world);
      && (plan.outcome == Done <==> advice == AdviceFetch || advice == AdviceFetchFull)
      && plan.downloads == (if plan.outcome == Done then [root] else [])
      && (plan.outcome == Done ==> Listed(after, root))
      && (forall t :: t in local && Listed(local, t) ==> Listed(after, t))
  {
    var root := Root(world.best.Head());
    FullOnlyDownloads(local, flags, world);
    FullFileIsLast(world.best.Head(), root);
    var downloads := RunPlan(flags, Listing(local), world).downloads;
    forall t | t in local && Listed(local, t) ensures Listed(after, t) {
      if downloads == [root] {
        AddingFullFileNeverHurts(local, after, root, t);
      } else {
        SameFilesSameFate(local, after, t);
      }
    }
    if downloads == [root] {
      RootSlotStep(after, root);
    }
  }

  // ---- A full file at a slot that has one

  lemma BestWithSecondFullFile(local: seq<SnapshotFile>, after: seq<SnapshotFile>, twin: SnapshotFile, slot: uint64)
    requires twin.IsFull() && forall f :: f in after <==> f in local || f == twin
    requires BestAt(local, twin.slot).Some? && BestAt(local, twin.slot).value.IsFull()
    ensures BestAt(local, slot).Some? <==> BestAt(after, slot).Some?
    ensures BestAt(local, slot).Some? ==>
              var m, n := BestAt(local, slot).value, BestAt(after, slot).value;
              KeyOf(m) == KeyOf(n) || (m.IsFull() && n.IsFull() && m.slot == n.slot)
  {
    var m, n := BestAt(local, slot), BestAt(after, slot);
    if m.Some? {
      assert m.value in after && Compare(n.value, m.value) >= 0;
      if n.value in local {
        CompareIsTotalPreorder(m.value, n.value);
      }
    }
  }

  /** A second full file at a slot that has one changes neither which files are listed nor where
      their chains end. */
  lemma {:induction false} SecondFullFile(
    local: seq<SnapshotFile>, after: seq<SnapshotFile>, twin: SnapshotFile, t: SnapshotFile, u: SnapshotFile)
    requires AllWellFormed(local) && AllWellFormed(after) && WellFormed(t) && WellFormed(u)
    requires twin.IsFull() && forall f :: f in after <==> f in local || f == twin
    requires BestAt(local, twin.slot).Some? && BestAt(local, twin.slot).value.IsFull()
    requires KeyOf(t) == KeyOf(u) || (t.IsFull() && u.IsFull() && t.slot == u.slot)
    ensures Listed(local, t) <==> Listed(after, u)
    ensures Listed(local, t) ==> RootSlot(local, t) == RootSlot(after, u)
    decreases t.baseSlot
  {
    RootSlotStep(local, t);
    RootSlotStep(after, u);
    if !t.IsFull() {
      BestWithSecondFullFile(local, after, twin, t.baseSlot);
      if BestAt(local, t.baseSlot).Some? {
        SecondFullFile(local, after, twin, BestAt(local, t.baseSlot).value, BestAt(after, t.baseSlot).value);
      }
    }
  }

  /** The head of the listing stays at its slot and base slot when its full file gets a twin. */
  lemma HeadWithSecondFullFile(local: seq<SnapshotFile>, after: seq<SnapshotFile>, twin: SnapshotFile)
    requires AllWellFormed(local) && Sorted(local) && Listing(local) != []
    requires AllWellFormed(after) && Sorted(after)
    requires twin.IsFull() && twin.slot == Listing(local)[0].baseSlot
    requires forall f :: f in after <==> f in local || f == twin
    ensures Listing(after) != []
    ensures Listing(after)[0].slot == Listing(local)[0].slot
    ensures Listing(after)[0].baseSlot == Listing(local)[0].baseSlot
  {
    var root := LocalRoot(local);
    assert Compare(BestAt(local, twin.slot).value, root) >= 0;
    var h := HeadIsListed(local);
    FullFileIsLast(Listing(local)[0], h);
    SecondFullFile(local, after, twin, h, h);
    HeadOfListing(after, h);
    var a := HeadIsListed(after);
    if a in local {
      SecondFullFile(local, after, twin, a, a);
      HeadOfListing(local, a);
      CompareIsTotalPreorder(a, h);
      SecondFullFile(local, after, twin, h, a);
    } else {
      assert a == twin;
    }
  }

  /** The best of two full files at the base slot of the head decides what the head rests on. */
  lemma RootWithSecondFullFile(local: seq<SnapshotFile>, after: seq<SnapshotFile>, twin: SnapshotFile)
    returns (before: SnapshotFile, now: SnapshotFile)
    requires AllWellFormed(local) && Sorted(local) && Listing(local) != []
    requires AllWellFormed(after) && Sorted(after)
    requires twin.IsFull() && twin.slot == Listing(local)[0].baseSlot
    requires forall f :: f in after <==> f in local || f == twin
    ensures Listing(local)[0].files != [] && before == Root(Listing(local)[0])
    ensures Listing(after) != [] && Listing(after)[0].files != [] && now == Root(Listing(after)[0])
    ensures now.hash == if Compare(twin, before) > 0 then twin.hash else before.hash
  {
    HeadWithSecondFullFile(local, after, twin);
    before := LocalRoot(local);
    now := LocalRoot(after);
    assert before in after && twin in after;
    assert Compare(now, before) >= 0 && Compare(now, twin) >= 0;
    CompareIsTotalPreorder(now, before);
    CompareIsTotalPreorder(now, twin);
    CompareIsTotalPreorder(twin, before);
    if now in local {
      assert Compare(before, now) >= 0;
      CompareKeys(twin, before, twin, now);
    }
  }

  lemma TwinArrives(local: seq<SnapshotFile>, flags: Flags, world: World)
    requires Setting(local, flags, world) && flags.full && !flags.incremental
    requires AdviceFor(flags, local, world) == AdviceFetch
    ensures Listing(local) != [] && Listing(local)[0].files != []
    ensures
      var head, twin := Listing(local)[0], Root(world.best.Head());
      && RunPlan(flags, Listing(local), world) == Plan(Done, [twin], true)
      && twin.IsFull() && twin.slot == head.baseSlot == world.best.Head().baseSlot
      && twin.slot < TWO_TO_THE_63 && twin.hash != Root(head).hash
      && world.best.Head().slot >= head.slot + flags.minAge
  {
    AdviceIsPlain(local, flags, world);
    HealthyDownload(true, false, world.best, world);
    FileOfChain(world.best.Head(), Root(world.best.Head()));
    FullFileIsLast(world.best.Head(), Root(world.best.Head()));
  }

  lemma SettledByRoot(files: seq<SnapshotFile>, flags: Flags, world: World)
    requires Setting(files, flags, world) && flags.full && !flags.incremental
    requires Listing(files) != [] && Listing(files)[0].files != []
    requires Listing(files)[0].baseSlot == world.best.Head().baseSlot
    requires world.best.Head().slot >= Listing(files)[0].slot + flags.minAge
    ensures RunPlan(flags, Listing(files), world).downloads == []
            <==> Root(Listing(files)[0]).hash == Root(world.best.Head()).hash
  {
    DownloadsNothingIff(files, flags, world);
  }

  /** Without --incremental, when the remote has another full file at the local base slot: that file
      is downloaded, and it is downloaded again by every further run unless it outranks the local one. */
  lemma FullOnlySettlesIff(local: seq<SnapshotFile>, flags: Flags, world: World, after: seq<SnapshotFile>)
    requires Setting(local, flags, world) && flags.full && !flags.incremental
    requires AdviceFor(flags, local, world) == AdviceFetch
    requires AllWellFormed(after) && Sorted(after)
    requires forall f :: f in after <==> f in local || f == Root(world.best.Head())
    ensures Listing(local) != [] && Listing(local)[0].files != []
    ensures RunPlan(flags, Listing(local), world) == Plan(Done, [Root(world.best.Head())], true)
    ensures RunPlan(flags, Listing(after), world).downloads == []
            <==> Compare(Root(world.best.Head()), Root(Listing(local)[0])) > 0
  {
    var twin := Root(world.best.Head());
    TwinArrives(local, flags, world);
    var before, now := RootWithSecondFullFile(local, after, twin);
    HeadWithSecondFullFile(local, after, twin);
    assert SlotsFitInt64(after);
    CompareIsTotalPreorder(twin, before);
    SettledByRoot(after, flags, world);
  }

  // ---- A newer full file

  /** A file that is listed once a full file has arrived, and does not rest on its slot, was listed
      before. */
  lemma {:induction false} RestsElsewhere(
    local: seq<SnapshotFile>, after: seq<SnapshotFile>, twin: SnapshotFile, t: SnapshotFile, u: SnapshotFile)
    requires AllWellFormed(local) && AllWellFormed(after) && WellFormed(t) && WellFormed(u)
    requires twin.IsFull() && forall f :: f in after <==> f in local || f == twin
    requires KeyOf(t) == KeyOf(u)
    requires Listed(after, u) && RootSlot(after, u) != twin.slot
    ensures Listed(local, t) && RootSlot(local, t) == RootSlot(after, u)
    decreases t.baseSlot
  {
    RootSlotStep(local, t);
    RootSlotStep(after, u);
    if !t.IsFull() {
      var next := BestAt(after, u.baseSlot).value;
      RootSlotStep(after, next);
      assert next.slot == twin.slot ==> Compare(next, twin) >= 0;
      BestElsewhere(local, after, twin, t.baseSlot);
      RestsElsewhere(local, after, twin, BestAt(local, t.baseSlot).value, next);
    }
  }

  lemma BestElsewhere(local: seq<SnapshotFile>, after: seq<SnapshotFile>, twin: SnapshotFile, slot: uint64)
    requires slot != twin.slot && forall f :: f in after <==> f in local || f == twin
    requires BestAt(after, slot).Some?
    ensures BestAt(local, slot).Some? && KeyOf(BestAt(local, slot).value) == KeyOf(BestAt(after, slot).value)
  {
    var n := BestAt(after, slot).value;
    assert n in local;
    var m := BestAt(local, slot).value;
    assert Compare(m, n) >= 0 && Compare(n, m) >= 0;
    CompareIsTotalPreorder(m, n);
  }

  /** Unless the head of the listing comes to rest on the slot of the new full file, it stays. */
  lemma HeadStays(local: seq<SnapshotFile>, after: seq<SnapshotFile>, twin: SnapshotFile)
    requires AllWellFormed(local) && Sorted(local) && AllWellFormed(after) && Sorted(after)
    requires twin.IsFull() && forall f :: f in after <==> f in local || f == twin
    ensures Listing(after) != []
    ensures
      HeadBaseSlot(Listing(after)) != twin.slot ==>
        && twin.slot < HeadSlot(Listing(after)) == HeadSlot(Listing(local))
        && HeadBaseSlot(Listing(after)) == HeadBaseSlot(Listing(local))
  {
    RootSlotStep(after, twin);
    HeadOfListing(after, twin);
    var a := HeadRests(after);
    RootSlotStep(after, a);
    if RootSlot(after, a) != twin.slot {
      assert Compare(a, twin) >= 0;
      RestsElsewhere(local, after, twin, a, a);
      HeadOfListing(local, a);
      var h := HeadRests(local);
      AddingFullFileNeverHurts(local, after, twin, h);
      CompareIsTotalPreorder(a, h);
      HeadOfSameKey(local, a, h);
    }
  }

  lemma HeadOfSameKey(files: seq<SnapshotFile>, t: SnapshotFile, u: SnapshotFile)
    requires AllWellFormed(files) && WellFormed(t) && WellFormed(u) && KeyOf(t) == KeyOf(u)
    requires Listed(files, t) && Listed(files, u)
    ensures RootSlot(files, t) == RootSlot(files, u)
  {
    RootSlotStep(files, t);
    RootSlotStep(files, u);
  }

  /** If it does come to rest there, it is on the new full file itself. */
  lemma HeadMoves(local: seq<SnapshotFile>, after: seq<SnapshotFile>, twin: SnapshotFile)
    requires AllWellFormed(local) && Sorted(local) && AllWellFormed(after) && Sorted(after)
    requires twin.IsFull() && forall f :: f in after <==> f in local || f == twin
    requires HeadBaseSlot(Listing(local)) < twin.slot
    requires Listing(after) != [] && HeadBaseSlot(Listing(after)) == twin.slot
    ensures Listing(after)[0].files != [] && Root(Listing(after)[0]).hash == twin.hash
  {
    var now := LocalRoot(after);
    assert Compare(now, twin) >= 0;
    CompareIsTotalPreorder(now, twin);
    if now.hash != twin.hash {
      assert now in local;
      RootSlotStep(local, now);
      HeadOfListing(local, now);
      assert Compare(BestAt(local, twin.slot).value, now) >= 0;
      var a := HeadRests(after);
      var h := HeadRests(local);
      SecondFullFile(local, after, twin, h, h);
      if a in local {
        SecondFullFile(local, after, twin, a, a);
        CompareIsTotalPreorder(a, h);
        HeadOfSameKey(local, a, h);
      } else {
        assert Compare(a, now) >= 0;
        CompareIsTotalPreorder(a, now);
      }
    }
  }

  /** The highest ranked file with a complete chain, of all given in any order, rests on this slot. */
  ghost predicate TopRestsOn(all: seq<SnapshotFile>, slot: uint64)
    requires AllWellFormed(all)
  {
    exists t :: IsTop(all, t) && RootSlot(all, t) == slot
  }

  ghost predicate IsTop(all: seq<SnapshotFile>, t: SnapshotFile)
    requires AllWellFormed(all)
  {
    t in all && Listed(all, t) && forall u :: u in all && Listed(all, u) ==> Compare(t, u) >= 0
  }

  lemma SameFilesSameRoot(a: seq<SnapshotFile>, b: seq<SnapshotFile>, t: SnapshotFile)
    requires AllWellFormed(a) && AllWellFormed(b) && WellFormed(t) && Listed(a, t) && Listed(b, t)
    requires forall f :: f in a <==> f in b
    ensures RootSlot(a, t) == RootSlot(b, t)
    decreases t.baseSlot
  {
    RootSlotStep(a, t);
    RootSlotStep(b, t);
    if !t.IsFull() {
      var m, n := BestAt(a, t.baseSlot).value, BestAt(b, t.baseSlot).value;
      CompareIsTotalPreorder(m, n);
      HeadOfSameKey(b, m, n);
      SameFilesSameRoot(a, b, m);
    }
  }

  lemma HeadRestsOnIff(files: seq<SnapshotFile>, all: seq<SnapshotFile>, slot: uint64)
    requires AllWellFormed(files) && Sorted(files) && AllWellFormed(all) && Listing(files) != []
    requires forall f :: f in files <==> f in all
    ensures HeadBaseSlot(Listing(files)) == slot <==> TopRestsOn(all, slot)
  {
    var a := HeadRests(files);
    forall u | u in all ensures Listed(files, u) <==> Listed(all, u) {
      SameFilesSameFate(files, all, u);
    }
    SameFilesSameRoot(files, all, a);
    assert IsTop(all, a);
    if TopRestsOn(all, slot) {
      var t :| IsTop(all, t) && RootSlot(all, t) == slot;
      CompareIsTotalPreorder(a, t);
      HeadOfSameKey(all, a, t);
    }
  }

  lemma NewFullFileArrives(local: seq<SnapshotFile>, flags: Flags, world: World)
    requires Setting(local, flags, world) && flags.full && !flags.incremental
    requires AdviceFor(flags, local, world) == AdviceFetchFull
    ensures
      var r := world.best.Head();
      && r.files != [] && RunPlan(flags, Listing(local), world) == Plan(Done, [Root(r)], true)
      && WellFormed(Root(r)) && Root(r).IsFull() && Root(r).slot == r.baseSlot < TWO_TO_THE_63
      && HeadBaseSlot(Listing(local)) < r.baseSlot
      && r.slot >= HeadSlot(Listing(local)) + flags.minAge
  {
    AdviceIsPlain(local, flags, world);
    HealthyDownload(true, false, world.best, world);
    FileOfChain(world.best.Head(), Root(world.best.Head()));
    FullFileIsLast(world.best.Head(), Root(world.best.Head()));
  }

  lemma FullOnlyAdvances(local: seq<SnapshotFile>, flags: Flags, world: World, after: seq<SnapshotFile>)
    requires Setting(local, flags, world) && flags.full && !flags.incremental
    requires AdviceFor(flags, local, world) == AdviceFetchFull
    requires AllWellFormed(after) && Sorted(after)
    requires forall f :: f in after <==> f in local || f == Root(world.best.Head())
    ensures RunPlan(flags, Listing(local), world) == Plan(Done, [Root(world.best.Head())], true)
    ensures RunPlan(flags, Listing(after), world).downloads == []
            <==> HeadBaseSlot(Listing(after)) == world.best.Head().baseSlot
    ensures Listing(after) != [] && AllWellFormed([Root(world.best.Head())])
    ensures world.best.Head().baseSlot >= HeadSlot(Listing(local)) ==>
              HeadBaseSlot(Listing(after)) == world.best.Head().baseSlot
  {
    var twin := Root(world.best.Head());
    NewFullFileArrives(local, flags, world);
    HeadStays(local, after, twin);
    assert SlotsFitInt64(after);
    DownloadsNothingIff(after, flags, world);
    if HeadBaseSlot(Listing(after)) == twin.slot {
      HeadMoves(local, after, twin);
    }
  }

  /** Without --incremental, when the remote has a newer full snapshot: its full file is downloaded,
      and the next run downloads nothing exactly when the head of the listing has come to rest on it.
      Before the run that is to say: when of the local files and this one, the highest ranked with a
      complete chain rests on it. It always does if the full file is not older than the local head. */
  lemma FullOnlyAdvancesIff(local: seq<SnapshotFile>, flags: Flags, world: World, after: seq<SnapshotFile>)
    requires Setting(local, flags, world) && flags.full && !flags.incremental
    requires AdviceFor(flags, local, world) == AdviceFetchFull
    requires AllWellFormed(after) && Sorted(after)
    requires forall f :: f in after <==> f in local || f == Root(world.best.Head())
    ensures RunPlan(flags, Listing(local), world) == Plan(Done, [Root(world.best.Head())], true)
    ensures RunPlan(flags, Listing(after), world).downloads == []
            <==> HeadBaseSlot(Listing(after)) == world.best.Head().baseSlot
    ensures AllWellFormed(local + [Root(world.best.Head())])
    ensures RunPlan(flags, Listing(after), world).downloads == []
            <==> TopRestsOn(local + [Root(world.best.Head())], world.best.Head().baseSlot)
    ensures world.best.Head().baseSlot >= HeadSlot(Listing(local)) ==>
              HeadBaseSlot(Listing(after)) == world.best.Head().baseSlot
  {
    FullOnlyAdvances(local, flags, world, after);
    HeadRestsOnIff(after, local + [Root(world.best.Head())], world.best.Head().baseSlot);
  }
}
