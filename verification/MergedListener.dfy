/** The merged listener (internal/netx/netx.go) as a protocol: for every listener one goroutine that
    accepts and one that closes, an error group, an unbuffered channel, and callers of Accept and
    Close. A run is any interleaving of their atomic steps. */
module MergedListener {
  import opened Snapshot

  type Conn = nat
  type Error = string

  const ERR_CLOSED: Error := "use of closed network connection"

  datatype Acceptor =
    | Accepting            // in Accept of its own listener
    | Failed(err: Error)   // Accept has failed, the context is still to be looked at
    | Returning(err: Error) // about to hand the error to the group
    | Holding(conn: Conn)  // in the select between the channel and cancellation
    | Exited

  datatype Closer =
    | Waiting              // for the context to be done
    | Storing(err: Error)  // its listener's Close has failed
    | Finished

  datatype State = State(
    acceptors: seq<Acceptor>,
    closers: seq<Closer>,
    open: seq<bool>,                // whether a listener can still accept
    cancelled: bool,                // the context is done
    groupErr: Option<Error>,        // the first error recorded by the group
    storedErr: Option<Error>,       // m.err
    accepting: nat,                 // callers blocked in Accept
    closing: nat,                   // callers blocked in Close
    accepted: seq<seq<Conn>>,       // history, per listener
    dropped: seq<seq<Conn>>,        // history, per listener
    delivered: seq<(nat, Conn)>)    // history: listener and connection, in order

  /** A Close that returns no error has closed its listener; one that fails may or may not have. */
  datatype Event =
    | ConnArrives(i: nat, conn: Conn)
    | AcceptFails(i: nat, err: Error)
    | CheckContext(i: nat)
    | RecordError(i: nat)
    | Deliver(i: nat)
    | Drop(i: nat)
    | CloserRuns(i: nat, closeErr: Option<Error>, closes: bool)
    | CloserStores(i: nat)
    | ListenerBreaks(i: nat)        // closed from outside
    | CallAccept
    | AcceptReturns(err: Error)     // a caller of Accept gives up
    | CallClose
    | CloseReturns(result: Option<Error>)

  function Init(n: nat): State {
    State(seq(n, _ => Accepting), seq(n, _ => Waiting), seq(n, _ => true), false, None, None, 0, 0,
          seq(n, _ => []), seq(n, _ => []), [])
  }

  predicate Shaped(s: State) {
    |s.acceptors| == |s.closers| == |s.open| == |s.accepted| == |s.dropped|
  }

  predicate AllExited(s: State) {
    forall i :: 0 <= i < |s.acceptors| ==> s.acceptors[i].Exited?
  }

  predicate Enabled(s: State, ev: Event)
    requires Shaped(s)
  {
    var n := |s.acceptors|;
    match ev
    case ConnArrives(i, _) => i < n && s.acceptors[i].Accepting? && s.open[i]
    case AcceptFails(i, _) => i < n && s.acceptors[i].Accepting?
    case CheckContext(i) => i < n && s.acceptors[i].Failed?
    case RecordError(i) => i < n && s.acceptors[i].Returning?
    case Deliver(i) => i < n && s.acceptors[i].Holding? && s.accepting > 0
    case Drop(i) => i < n && s.acceptors[i].Holding? && s.cancelled
    case CloserRuns(i, closeErr, closes) =>
      i < n && s.closers[i].Waiting? && s.cancelled && (closeErr.None? ==> closes)
    case CloserStores(i) => i < n && s.closers[i].Storing?
    case ListenerBreaks(i) => i < n
    case CallAccept => true
    case AcceptReturns(err) =>
      s.accepting > 0 && s.cancelled && err == if s.storedErr.Some? then s.storedErr.value else ERR_CLOSED
    case CallClose => true
    case CloseReturns(result) => s.closing > 0 && AllExited(s) && result == s.groupErr
  }

  function Apply(s: State, ev: Event): (t: State)
    requires Shaped(s) && Enabled(s, ev)
    ensures Shaped(t) && |t.acceptors| == |s.acceptors|
  {
    match ev
    case ConnArrives(i, conn) =>
      s.(acceptors := s.acceptors[i := Holding(conn)], accepted := s.accepted[i := s.accepted[i] + [conn]])
    case AcceptFails(i, err) => s.(acceptors := s.acceptors[i := Failed(err)])
    case CheckContext(i) =>
      s.(acceptors := s.acceptors[i := if s.cancelled then Exited else Returning(s.acceptors[i].err)])
    case RecordError(i) =>
      s.(acceptors := s.acceptors[i := Exited],
         groupErr := if s.groupErr.Some? then s.groupErr else Some(s.acceptors[i].err),
         cancelled := true)
    case Deliver(i) =>
      s.(acceptors := s.acceptors[i := Accepting],
         delivered := s.delivered + [(i, s.acceptors[i].conn)],
         accepting := s.accepting - 1)
    case Drop(i) =>
      s.(acceptors := s.acceptors[i := Exited],
         dropped := s.dropped[i := s.dropped[i] + [s.acceptors[i].conn]])
    case CloserRuns(i, closeErr, closes) =>
      s.(open := s.open[i := s.open[i] && !closes],
         closers := s.closers[i := if closeErr.Some? then Storing(closeErr.value) else Finished])
    case CloserStores(i) =>
      s.(closers := s.closers[i := Finished], storedErr := Some(s.closers[i].err))
    case ListenerBreaks(i) => s.(open := s.open[i := false])
    case CallAccept => s.(accepting := s.accepting + 1)
    case AcceptReturns(_) => s.(accepting := s.accepting - 1)
    case CallClose => s.(closing := s.closing + 1, cancelled := true)
    case CloseReturns(_) => s.(closing := s.closing - 1)
  }

  /** Where a run from s leads; nothing when some step was not possible. */
  function RunFrom(s: State, run: seq<Event>): (r: Option<State>)
    requires Shaped(s)
    ensures r.Some? ==> Shaped(r.value) && |r.value.acceptors| == |s.acceptors|
  {
    if run == [] then Some(s)
    else
      var before := RunFrom(s, run[..|run| - 1]);
      if before.Some? && Enabled(before.value, run[|run| - 1])
      then Some(Apply(before.value, run[|run| - 1]))
      else None
  }

  function Run(n: nat, run: seq<Event>): Option<State> {
    RunFrom(Init(n), run)
  }

  lemma LastStep(s: State, run: seq<Event>)
    requires Shaped(s) && run != [] && RunFrom(s, run).Some?
    ensures
      var before := RunFrom(s, run[..|run| - 1]);
      && before.Some? && Enabled(before.value, run[|run| - 1])
      && RunFrom(s, run) == Some(Apply(before.value, run[|run| - 1]))
  {
  }

  // ---- No connection is lost, doubled or overtaken

  function DeliveredFrom(log: seq<(nat, Conn)>, i: nat): seq<Conn> {
    if log == [] then []
    else
      var (j, conn) := log[|log| - 1];
      DeliveredFrom(log[..|log| - 1], i) + if j == i then [conn] else []
  }

  function InHand(a: Acceptor): seq<Conn> {
    if a.Holding? then [a.conn] else []
  }

  /** In accept order: what a listener has accepted was delivered, then at most one connection is
      still in hand or was dropped on exit, and dropping takes a cancelled context. */
  ghost predicate Conserved(s: State, i: nat)
    requires Shaped(s) && i < |s.acceptors|
  {
    && s.accepted[i] == DeliveredFrom(s.delivered, i) + InHand(s.acceptors[i]) + s.dropped[i]
    && (s.dropped[i] != [] ==> |s.dropped[i]| == 1 && s.acceptors[i].Exited? && s.cancelled)
  }

  lemma DeliveredFromStep(log: seq<(nat, Conn)>, j: nat, conn: Conn, i: nat)
    ensures DeliveredFrom(log + [(j, conn)], i) == DeliveredFrom(log, i) + if j == i then [conn] else []
  {
    assert (log + [(j, conn)])[..|log|] == log;
  }

  lemma ConservedByDelivery(s: State, j: nat, i: nat)
    requires Shaped(s) && Enabled(s, Deliver(j)) && i < |s.acceptors| && Conserved(s, i)
    ensures Conserved(Apply(s, Deliver(j)), i)
  {
    var t, log, conn := Apply(s, Deliver(j)), DeliveredFrom(s.delivered, i), s.acceptors[j].conn;
    DeliveredFromStep(s.delivered, j, conn, i);
    if i == j {
      assert s.dropped[i] == [];
      assert s.accepted[i] == log + [conn];
      assert InHand(t.acceptors[i]) == [];
      assert log + [conn] + [] + [] == log + [conn];
    } else {
      assert log + [] == log;
      assert InHand(t.acceptors[i]) == InHand(s.acceptors[i]);
    }
  }

  /** Every step but a delivery leaves the log as it is. */
  lemma ConservedElsewhere(s: State, ev: Event, i: nat)
    requires Shaped(s) && Enabled(s, ev) && !ev.Deliver? && i < |s.acceptors| && Conserved(s, i)
    ensures Conserved(Apply(s, ev), i)
  {
    var t, log := Apply(s, ev), DeliveredFrom(s.delivered, i);
    assert t.delivered == s.delivered;
    if ev.ConnArrives? && ev.i == i {
      assert t.accepted[i] == log + [ev.conn] + [];
    } else if ev.Drop? && ev.i == i {
      assert t.dropped[i] == [s.acceptors[i].conn];
      assert t.accepted[i] == log + [] + t.dropped[i];
    } else {
      assert t.accepted[i] == s.accepted[i] && t.dropped[i] == s.dropped[i];
      assert InHand(t.acceptors[i]) == InHand(s.acceptors[i]);
    }
  }

  lemma ConservedByStep(s: State, ev: Event, i: nat)
    requires Shaped(s) && Enabled(s, ev) && i < |s.acceptors| && Conserved(s, i)
    ensures Conserved(Apply(s, ev), i)
  {
    if ev.Deliver? {
      ConservedByDelivery(s, ev.i, i);
    } else {
      ConservedElsewhere(s, ev, i);
    }
  }

  /** The connections that listener i's Accept has returned, in order. */
  function ArrivedAt(run: seq<Event>, i: nat): seq<Conn> {
    if run == [] then []
    else
      var ev := run[|run| - 1];
      ArrivedAt(run[..|run| - 1], i) + if ev.ConnArrives? && ev.i == i then [ev.conn] else []
  }

  function CountOf(run: seq<Event>, ev: Event): nat {
    if run == [] then 0 else CountOf(run[..|run| - 1], ev) + if run[|run| - 1] == ev then 1 else 0
  }

  function DeliveryOrder(run: seq<Event>): seq<nat> {
    if run == [] then []
    else
      var ev := run[|run| - 1];
      DeliveryOrder(run[..|run| - 1]) + if ev.Deliver? then [ev.i] else []
  }

  /** The log of deliveries names their listeners in the order of the run. */
  lemma {:induction false} LogKeepsOrder(n: nat, run: seq<Event>)
    requires Run(n, run).Some?
    ensures
      var log := Run(n, run).value.delivered;
      |log| == |DeliveryOrder(run)| && forall k :: 0 <= k < |log| ==> log[k].0 == DeliveryOrder(run)[k]
    decreases |run|
  {
    if run != [] {
      LastStep(Init(n), run);
      LogKeepsOrder(n, run[..|run| - 1]);
    }
  }

  /** The histories in the state are those of the run. */
  lemma {:induction false} HistoriesAreOfRun(n: nat, run: seq<Event>, i: nat)
    requires Run(n, run).Some? && i < n
    ensures
      var s := Run(n, run).value;
      && s.accepted[i] == ArrivedAt(run, i)
      && |DeliveredFrom(s.delivered, i)| == CountOf(run, Deliver(i))
      && |s.dropped[i]| == CountOf(run, Drop(i))
    decreases |run|
  {
    if run != [] {
      LastStep(Init(n), run);
      var before, ev := run[..|run| - 1], run[|run| - 1];
      HistoriesAreOfRun(n, before, i);
      if ev.Deliver? {
        var s := Run(n, before).value;
        DeliveredFromStep(s.delivered, ev.i, s.acceptors[ev.i].conn, i);
      }
    }
  }

  /** Conservation over every interleaving. What has been delivered from a listener is a prefix of
      what it has accepted, so nothing is delivered twice or overtakes, and at most one is missing. */
  lemma {:induction false} ConnectionsAreConserved(n: nat, run: seq<Event>, i: nat)
    requires Run(n, run).Some? && i < n
    ensures
      var s := Run(n, run).value;
      && Conserved(s, i)
      && s.accepted[i] == ArrivedAt(run, i)
      && DeliveredFrom(s.delivered, i) <= ArrivedAt(run, i)
      && |ArrivedAt(run, i)| <= |DeliveredFrom(s.delivered, i)| + 1
    decreases |run|
  {
    HistoriesAreOfRun(n, run, i);
    if run != [] {
      LastStep(Init(n), run);
      ConnectionsAreConserved(n, run[..|run| - 1], i);
      ConservedByStep(Run(n, run[..|run| - 1]).value, run[|run| - 1], i);
    }
  }

  // ---- What has happened, read off the run

  predicate Cancels(ev: Event) {
    ev.CallClose? || ev.RecordError?
  }

  predicate StepOf(ev: Event, i: nat) {
    IsAcceptorStep(ev) && ev.i == i
  }

  /** No step of acceptor i lies strictly between the two places. */
  predicate Idle(run: seq<Event>, i: nat, from: nat, to: nat) {
    forall x :: from < x < to && x < |run| ==> !StepOf(run[x], i)
  }

  /** The context is done once Close was called or an error was recorded. */
  lemma {:induction false} CancelledIff(n: nat, run: seq<Event>)
    requires Run(n, run).Some?
    ensures Run(n, run).value.cancelled <==> exists x :: 0 <= x < |run| && Cancels(run[x])
    decreases |run|
  {
    if run != [] {
      LastStep(Init(n), run);
      var before := run[..|run| - 1];
      CancelledIff(n, before);
      assert forall x :: 0 <= x < |before| ==> before[x] == run[x];
    }
  }

  /** The last step of acceptor i was a failure of its listener's Accept with this error. */
  predicate HasFailed(run: seq<Event>, i: nat, err: Error, j: nat) {
    j < |run| && run[j] == AcceptFails(i, err) && Idle(run, i, j, |run|)
  }

  lemma {:induction false} FailedHistory(n: nat, run: seq<Event>, i: nat) returns (j: nat)
    requires Run(n, run).Some? && i < n && Run(n, run).value.acceptors[i].Failed?
    ensures HasFailed(run, i, Run(n, run).value.acceptors[i].err, j)
    decreases |run|
  {
    LastStep(Init(n), run);
    var before, ev := run[..|run| - 1], run[|run| - 1];
    if StepOf(ev, i) {
      j := |run| - 1;
    } else {
      j := FailedHistory(n, before, i);
      forall x | j < x < |before| ensures !StepOf(run[x], i) {
        assert before[x] == run[x];
      }
    }
  }

  /** Accept of listener i failed, then its acceptor looked at the context and found it not done. */
  predicate SawFailureAt(run: seq<Event>, i: nat, err: Error, j: nat, k: nat) {
    && j < k < |run| && run[j] == AcceptFails(i, err) && run[k] == CheckContext(i)
    && Idle(run, i, j, k) && forall x :: 0 <= x < k ==> !Cancels(run[x])
  }

  /** That was the last step of acceptor i. */
  predicate IsReturning(run: seq<Event>, i: nat, err: Error, j: nat, k: nat) {
    SawFailureAt(run, i, err, j, k) && Idle(run, i, k, |run|)
  }

  lemma FailureSeen(n: nat, run: seq<Event>, i: nat) returns (j: nat)
    requires run != [] && Run(n, run).Some? && i < n && run[|run| - 1] == CheckContext(i)
    requires Run(n, run).value.acceptors[i].Returning?
    ensures SawFailureAt(run, i, Run(n, run).value.acceptors[i].err, j, |run| - 1)
  {
    LastStep(Init(n), run);
    var before := run[..|run| - 1];
    j := FailedHistory(n, before, i);
    CancelledIff(n, before);
    assert forall x :: 0 <= x < |before| ==> before[x] == run[x];
  }

  lemma {:induction false} ReturningHistory(n: nat, run: seq<Event>, i: nat) returns (j: nat, k: nat)
    requires Run(n, run).Some? && i < n && Run(n, run).value.acceptors[i].Returning?
    ensures IsReturning(run, i, Run(n, run).value.acceptors[i].err, j, k)
    decreases |run|
  {
    LastStep(Init(n), run);
    var before, ev := run[..|run| - 1], run[|run| - 1];
    if StepOf(ev, i) {
      k := |run| - 1;
      j := FailureSeen(n, run, i);
    } else {
      j, k := ReturningHistory(n, before, i);
      assert run == before + [ev];
      ReturningStays(before, ev, i, Run(n, run).value.acceptors[i].err, j, k);
    }
  }

  lemma ReturningStays(before: seq<Event>, ev: Event, i: nat, err: Error, j: nat, k: nat)
    requires IsReturning(before, i, err, j, k) && !StepOf(ev, i)
    ensures IsReturning(before + [ev], i, err, j, k)
  {
  }

  // ---- What Close returns

  /** Acceptor i saw its listener's Accept fail with this error before the context was done, and its
      recording of it is the first of all. */
  predicate FirstRecordedAt(run: seq<Event>, i: nat, err: Error, j: nat, k: nat, l: nat) {
    && SawFailureAt(run, i, err, j, k)
    && k < l < |run| && run[l] == RecordError(i) && Idle(run, i, k, l)
    && forall x :: 0 <= x < l ==> !run[x].RecordError?
  }

  lemma {:induction false} NoErrorYetIff(n: nat, run: seq<Event>)
    requires Run(n, run).Some?
    ensures Run(n, run).value.groupErr.None? <==> forall x :: 0 <= x < |run| ==> !run[x].RecordError?
    decreases |run|
  {
    if run != [] {
      LastStep(Init(n), run);
      var before := run[..|run| - 1];
      NoErrorYetIff(n, before);
      assert forall x :: 0 <= x < |before| ==> before[x] == run[x];
    }
  }

  /** The error that the group holds is the one that a listener's Accept returned: the first to be
      recorded of those seen before the context was done. */
  lemma {:induction false} GroupErrorHistory(n: nat, run: seq<Event>) returns (i: nat, j: nat, k: nat, l: nat)
    requires Run(n, run).Some? && Run(n, run).value.groupErr.Some?
    ensures i < n && FirstRecordedAt(run, i, Run(n, run).value.groupErr.value, j, k, l)
    decreases |run|
  {
    LastStep(Init(n), run);
    var before, ev := run[..|run| - 1], run[|run| - 1];
    assert run == before + [ev];
    if Run(n, before).value.groupErr.Some? {
      i, j, k, l := GroupErrorHistory(n, before);
      FirstRecordedStays(before, ev, i, Run(n, run).value.groupErr.value, j, k, l);
    } else {
      i, l := ev.i, |run| - 1;
      j, k := ReturningHistory(n, before, i);
      NoErrorYetIff(n, before);
      FirstRecording(before, i, Run(n, run).value.groupErr.value, j, k);
    }
  }

  lemma FirstRecordedStays(before: seq<Event>, ev: Event, i: nat, err: Error, j: nat, k: nat, l: nat)
    requires FirstRecordedAt(before, i, err, j, k, l)
    ensures FirstRecordedAt(before + [ev], i, err, j, k, l)
  {
  }

  lemma FirstRecording(before: seq<Event>, i: nat, err: Error, j: nat, k: nat)
    requires IsReturning(before, i, err, j, k) && forall x :: 0 <= x < |before| ==> !before[x].RecordError?
    ensures FirstRecordedAt(before + [RecordError(i)], i, err, j, k, |before|)
  {
  }

  /** The last step of acceptor i was one with which it leaves: it recorded an error, or the context was
      done and it dropped a connection or gave up on a failure. */
  predicate HasLeft(run: seq<Event>, i: nat, k: nat) {
    && k < |run| && (run[k] == Drop(i) || run[k] == RecordError(i) || run[k] == CheckContext(i))
    && (run[k].RecordError? || exists x :: 0 <= x < k && Cancels(run[x]))
    && Idle(run, i, k, |run|)
  }

  ghost predicate Left(run: seq<Event>, i: nat) {
    exists k: nat :: HasLeft(run, i, k)
  }

  lemma {:induction false} ExitHistory(n: nat, run: seq<Event>, i: nat) returns (k: nat)
    requires Run(n, run).Some? && i < n && Run(n, run).value.acceptors[i].Exited?
    ensures HasLeft(run, i, k)
    decreases |run|
  {
    LastStep(Init(n), run);
    var before, ev := run[..|run| - 1], run[|run| - 1];
    assert forall x :: 0 <= x < |before| ==> before[x] == run[x];
    if StepOf(ev, i) {
      k := |run| - 1;
      CancelledIff(n, before);
    } else {
      k := ExitHistory(n, before, i);
    }
  }

  /** Somebody saw a failure of Accept before the context was done: that acceptor is about to record it,
      or an error has been recorded. */
  lemma {:induction false} SeenFailureIsKept(n: nat, run: seq<Event>, i: nat, err: Error, j: nat, k: nat)
    requires Run(n, run).Some? && i < n && SawFailureAt(run, i, err, j, k)
    ensures Run(n, run).value.groupErr.Some? || Run(n, run).value.acceptors[i].Returning?
    decreases |run|
  {
    LastStep(Init(n), run);
    var before := run[..|run| - 1];
    assert forall x :: 0 <= x < |before| ==> before[x] == run[x];
    if k < |before| {
      SeenFailureIsKept(n, before, i, err, j, k);
    } else {
      CancelledIff(n, before);
    }
  }

  /** Close returns once every acceptor has left. If it returns an error, that is one which a listener's
      Accept returned, seen before the context was done and recorded before any other. If it returns
      none, no acceptor has seen such a failure. */
  lemma CloseReturnsFirstError(n: nat, run: seq<Event>, result: Option<Error>)
    requires Run(n, run).Some? && Enabled(Run(n, run).value, CloseReturns(result))
    ensures forall i: nat :: i < n ==> Left(run, i)
    ensures
      if result.Some?
      then exists i: nat, j: nat, k: nat, l: nat :: i < n && FirstRecordedAt(run, i, result.value, j, k, l)
      else forall i: nat, err, j: nat, k: nat :: i < n ==> !SawFailureAt(run, i, err, j, k)
  {
    forall i: nat | i < n ensures Left(run, i) {
      var k := ExitHistory(n, run, i);
    }
    if result.Some? {
      var i, j, k, l := GroupErrorHistory(n, run);
    } else {
      forall i: nat, err, j: nat, k: nat | i < n ensures !SawFailureAt(run, i, err, j, k) {
        if SawFailureAt(run, i, err, j, k) {
          SeenFailureIsKept(n, run, i, err, j, k);
        }
      }
    }
  }

  // ---- What Accept returns

  predicate CloserStepOf(ev: Event, i: nat) {
    (ev.CloserRuns? || ev.CloserStores?) && ev.i == i
  }

  /** Close of listener i failed with this error, and its closer has done nothing since, up to some place. */
  predicate CloseFailedAt(run: seq<Event>, i: nat, err: Error, j: nat, to: nat) {
    && j < to <= |run| && run[j].CloserRuns? && run[j].i == i && run[j].closeErr == Some(err)
    && forall x :: j < x < to ==> !CloserStepOf(run[x], i)
  }

  lemma {:induction false} CloseFailedHistory(n: nat, run: seq<Event>, i: nat) returns (j: nat)
    requires Run(n, run).Some? && i < n && Run(n, run).value.closers[i].Storing?
    ensures CloseFailedAt(run, i, Run(n, run).value.closers[i].err, j, |run|)
    decreases |run|
  {
    LastStep(Init(n), run);
    var before, ev := run[..|run| - 1], run[|run| - 1];
    if CloserStepOf(ev, i) {
      j := |run| - 1;
    } else {
      j := CloseFailedHistory(n, before, i);
      assert forall x :: 0 <= x < |before| ==> before[x] == run[x];
    }
  }

  /** The closer of listener i has stored the error with which Close failed, and no closer has stored
      another one since. */
  predicate LastStoredAt(run: seq<Event>, i: nat, err: Error, j: nat, k: nat) {
    && j < k < |run| && CloseFailedAt(run, i, err, j, k) && run[k] == CloserStores(i)
    && forall x :: k < x < |run| ==> !run[x].CloserStores?
  }

  lemma LastStoredStays(before: seq<Event>, ev: Event, i: nat, err: Error, j: nat, k: nat)
    requires LastStoredAt(before, i, err, j, k) && !ev.CloserStores?
    ensures LastStoredAt(before + [ev], i, err, j, k)
  {
  }

  lemma LastStoring(before: seq<Event>, i: nat, err: Error, j: nat)
    requires CloseFailedAt(before, i, err, j, |before|)
    ensures LastStoredAt(before + [CloserStores(i)], i, err, j, |before|)
  {
  }

  ghost predicate SomeStored(run: seq<Event>) {
    exists x :: 0 <= x < |run| && run[x].CloserStores?
  }

  lemma {:induction false} StoredErrorHistory(n: nat, run: seq<Event>) returns (i: nat, j: nat, k: nat)
    requires Run(n, run).Some?
    ensures Run(n, run).value.storedErr.Some? <==> SomeStored(run)
    ensures Run(n, run).value.storedErr.Some? ==>
              i < n && LastStoredAt(run, i, Run(n, run).value.storedErr.value, j, k)
    decreases |run|
  {
    i, j, k := 0, 0, 0;
    if run != [] {
      LastStep(Init(n), run);
      var before, ev := run[..|run| - 1], run[|run| - 1];
      assert run == before + [ev];
      i, j, k := StoredErrorHistory(n, before);
      if ev.CloserStores? {
        i, k := ev.i, |before|;
        j := CloseFailedHistory(n, before, i);
        LastStoring(before, i, Run(n, run).value.storedErr.value, j);
      } else if SomeStored(before) {
        LastStoredStays(before, ev, i, Run(n, run).value.storedErr.value, j, k);
      }
    }
  }

  /** Accept gives up only once the merged listener is shutting down. It then reports the error of a
      listener that failed to close, the last to be stored if any has been, and otherwise that it is
      closed. */
  lemma AcceptErrorOrigin(n: nat, run: seq<Event>, err: Error)
    requires Run(n, run).Some? && Enabled(Run(n, run).value, AcceptReturns(err))
    ensures exists x :: 0 <= x < |run| && Cancels(run[x])
    ensures
      if SomeStored(run)
      then exists i: nat, j: nat, k: nat :: i < n && LastStoredAt(run, i, err, j, k)
      else err == "use of closed network connection"
  {
    CancelledIff(n, run);
    var i, j, k := StoredErrorHistory(n, run);
  }

  function CallsOfAccept(run: seq<Event>): nat {
    if run == [] then 0 else CallsOfAccept(run[..|run| - 1]) + if run[|run| - 1].CallAccept? then 1 else 0
  }

  function FailuresOfAccept(run: seq<Event>): nat {
    if run == [] then 0 else FailuresOfAccept(run[..|run| - 1]) + if run[|run| - 1].AcceptReturns? then 1 else 0
  }

  function CallsOfClose(run: seq<Event>): nat {
    if run == [] then 0 else CallsOfClose(run[..|run| - 1]) + if run[|run| - 1].CallClose? then 1 else 0
  }

  function ReturnsOfClose(run: seq<Event>): nat {
    if run == [] then 0 else ReturnsOfClose(run[..|run| - 1]) + if run[|run| - 1].CloseReturns? then 1 else 0
  }

  lemma {:induction false} CloseCallsAreAnsweredOnce(n: nat, run: seq<Event>)
    requires Run(n, run).Some?
    ensures CallsOfClose(run) == Run(n, run).value.closing + ReturnsOfClose(run)
    decreases |run|
  {
    if run != [] {
      LastStep(Init(n), run);
      CloseCallsAreAnsweredOnce(n, run[..|run| - 1]);
    }
  }

  /** Every call of Accept is still waiting or was answered once, by a connection or by an error. */
  lemma {:induction false} AcceptCallsAreAnsweredOnce(n: nat, run: seq<Event>)
    requires Run(n, run).Some?
    ensures
      var s := Run(n, run).value;
      CallsOfAccept(run) == s.accepting + |s.delivered| + FailuresOfAccept(run)
    decreases |run|
  {
    if run != [] {
      LastStep(Init(n), run);
      AcceptCallsAreAnsweredOnce(n, run[..|run| - 1]);
    }
  }

  // ---- Shutting down

  function Rank(a: Acceptor): nat {
    match a
    case Holding(_) => 4
    case Accepting => 3
    case Failed(_) => 2
    case Returning(_) => 1
    case Exited => 0
  }

  function TotalRank(acceptors: seq<Acceptor>): nat {
    if acceptors == [] then 0 else Rank(acceptors[0]) + TotalRank(acceptors[1..])
  }

  lemma {:induction false} RankOfUpdate(acceptors: seq<Acceptor>, i: nat, a: Acceptor)
    requires i < |acceptors|
    ensures TotalRank(acceptors[i := a]) == TotalRank(acceptors) - Rank(acceptors[i]) + Rank(a)
    decreases i
  {
    if i > 0 {
      assert acceptors[i := a][1..] == acceptors[1..][i - 1 := a];
      RankOfUpdate(acceptors[1..], i - 1, a);
    } else {
      assert acceptors[0 := a][1..] == acceptors[1..];
    }
  }

  lemma {:induction false} RankBound(acceptors: seq<Acceptor>)
    ensures TotalRank(acceptors) <= 4 * |acceptors|
    decreases |acceptors|
  {
    if acceptors != [] {
      RankBound(acceptors[1..]);
    }
  }

  predicate IsAcceptorStep(ev: Event) {
    ev.ConnArrives? || ev.AcceptFails? || ev.CheckContext? || ev.RecordError? || ev.Deliver? || ev.Drop?
  }

  function AcceptorSteps(run: seq<Event>): nat {
    if run == [] then 0
    else AcceptorSteps(run[..|run| - 1]) + if IsAcceptorStep(run[|run| - 1]) then 1 else 0
  }

  predicate AllClosed(s: State) {
    forall i :: 0 <= i < |s.open| ==> !s.open[i]
  }

  lemma StepOnceClosed(s: State, ev: Event)
    requires Shaped(s) && Enabled(s, ev) && AllClosed(s)
    ensures
      var t := Apply(s, ev);
      && AllClosed(t) && (s.cancelled ==> t.cancelled)
      && TotalRank(t.acceptors) + (if IsAcceptorStep(ev) then 1 else 0) <= TotalRank(s.acceptors)
  {
    if IsAcceptorStep(ev) {
      RankOfUpdate(s.acceptors, ev.i, Apply(s, ev).acceptors[ev.i]);
    }
  }

  /** Once every listener is closed, a run takes at most four more steps per acceptor, even if
      nobody ever calls Accept. */
  lemma {:induction false} FewStepsOnceClosed(s: State, run: seq<Event>)
    requires Shaped(s) && AllClosed(s) && RunFrom(s, run).Some?
    ensures
      var t := RunFrom(s, run).value;
      && AllClosed(t) && (s.cancelled ==> t.cancelled)
      && AcceptorSteps(run) + TotalRank(t.acceptors) <= TotalRank(s.acceptors) <= 4 * |s.acceptors|
    decreases |run|
  {
    RankBound(s.acceptors);
    if run != [] {
      LastStep(s, run);
      FewStepsOnceClosed(s, run[..|run| - 1]);
      StepOnceClosed(RunFrom(s, run[..|run| - 1]).value, run[|run| - 1]);
    }
  }

  /** Steps that depend on no caller of Accept and on no new connection. */
  predicate IsInternal(ev: Event) {
    ev.CheckContext? || ev.RecordError? || ev.Drop? || ev.CloserRuns? || ev.CloserStores?
  }

  /** A step that shutdown can count on: an internal one, or the failure of Accept on a listener
      that is closed. */
  predicate IsReliable(s: State, ev: Event)
    requires Shaped(s)
  {
    Enabled(s, ev) && (IsInternal(ev) || (ev.AcceptFails? && !s.open[ev.i]))
  }

  ghost predicate CanProceed(s: State)
    requires Shaped(s)
  {
    exists ev :: IsReliable(s, ev)
  }

  /** An acceptor waits on a listener that is still open although its closer has been and gone. */
  predicate Stranded(s: State, i: nat)
    requires Shaped(s) && i < |s.acceptors|
  {
    s.acceptors[i].Accepting? && s.open[i] && !s.closers[i].Waiting?
  }

  predicate NoneStranded(s: State)
    requires Shaped(s)
  {
    forall i :: 0 <= i < |s.acceptors| ==> !Stranded(s, i)
  }

  /** The listener's Close has failed and left it open. */
  ghost predicate FailedToClose(run: seq<Event>, i: nat) {
    exists err :: CloserRuns(i, Some(err), false) in run
  }

  /** A listener that is open after its closer has run is one whose Close failed. */
  lemma {:induction false} OpenMeansFailedToClose(n: nat, run: seq<Event>, i: nat)
    requires Run(n, run).Some? && i < n
    requires !Run(n, run).value.closers[i].Waiting? && Run(n, run).value.open[i]
    ensures FailedToClose(run, i)
    decreases |run|
  {
    if run != [] {
      LastStep(Init(n), run);
      var before, ev := run[..|run| - 1], run[|run| - 1];
      assert run == before + [ev];
      if Run(n, before).value.closers[i].Waiting? {
        assert ev == CloserRuns(i, ev.closeErr, false);
        assert CloserRuns(i, Some(ev.closeErr.value), false) in run;
      } else {
        OpenMeansFailedToClose(n, before, i);
        var err :| CloserRuns(i, Some(err), false) in before;
        assert CloserRuns(i, Some(err), false) in run;
      }
    }
  }

  predicate Closes(ev: Event, i: nat) {
    ev == ListenerBreaks(i) || (ev.CloserRuns? && ev.i == i && ev.closes)
  }

  /** A listener is open until its Close, or somebody else, has closed it. */
  lemma {:induction false} OpenIff(n: nat, run: seq<Event>, i: nat)
    requires Run(n, run).Some? && i < n
    ensures Run(n, run).value.open[i] <==> forall x :: 0 <= x < |run| ==> !Closes(run[x], i)
    decreases |run|
  {
    if run != [] {
      LastStep(Init(n), run);
      var before := run[..|run| - 1];
      OpenIff(n, before, i);
      assert forall x :: 0 <= x < |before| ==> before[x] == run[x];
    }
  }

  predicate RunsCloser(ev: Event, i: nat) {
    ev.CloserRuns? && ev.i == i
  }

  /** A closer runs once. */
  lemma {:induction false} CloserRunsOnce(n: nat, run: seq<Event>, i: nat)
    requires Run(n, run).Some? && i < n
    ensures Run(n, run).value.closers[i].Waiting? <==> forall x :: 0 <= x < |run| ==> !RunsCloser(run[x], i)
    ensures forall x, y :: 0 <= x < y < |run| && RunsCloser(run[x], i) ==> !RunsCloser(run[y], i)
    decreases |run|
  {
    if run != [] {
      LastStep(Init(n), run);
      var before := run[..|run| - 1];
      CloserRunsOnce(n, before, i);
      assert forall x :: 0 <= x < |before| ==> before[x] == run[x];
    }
  }

  /** And not before the context is done. */
  lemma {:induction false} CloserWaits(n: nat, run: seq<Event>, y: nat)
    requires Run(n, run).Some? && y < |run| && run[y].CloserRuns?
    ensures exists x :: 0 <= x < y && Cancels(run[x])
    decreases |run|
  {
    LastStep(Init(n), run);
    var before := run[..|run| - 1];
    assert forall x :: 0 <= x < |before| ==> before[x] == run[x];
    if y < |before| {
      CloserWaits(n, before, y);
    } else {
      CancelledIff(n, before);
    }
  }

  lemma {:induction false} ClosingCancels(n: nat, run: seq<Event>)
    requires Run(n, run).Some? && Run(n, run).value.closing > 0
    ensures Run(n, run).value.cancelled
    decreases |run|
  {
    LastStep(Init(n), run);
    var before := run[..|run| - 1];
    if Run(n, before).value.closing > 0 {
      ClosingCancels(n, before);
    }
  }

  /** A step for an acceptor that has not left yet and is not stranded. */
  function NextStep(s: State, i: nat): (ev: Event)
    requires Shaped(s) && i < |s.acceptors| && s.cancelled
    requires !s.acceptors[i].Exited? && !Stranded(s, i)
    ensures IsReliable(s, ev)
  {
    match s.acceptors[i]
    case Holding(_) => Drop(i)
    case Failed(_) => CheckContext(i)
    case Returning(_) => RecordError(i)
    case Accepting => if s.open[i] then CloserRuns(i, None, true) else AcceptFails(i, ERR_CLOSED)
  }

  /** From the moment Close is called, in every reachable state Close can return, or some goroutine can
      take a step without help from a caller of Accept, or an acceptor is stranded on a listener whose
      Close has failed. */
  lemma CloseNeverDeadlocks(n: nat, run: seq<Event>)
    requires Run(n, run).Some? && Run(n, run).value.closing > 0
    ensures
      var s := Run(n, run).value;
      CanProceed(s) || Enabled(s, CloseReturns(s.groupErr))
      || exists i :: 0 <= i < n && Stranded(s, i) && FailedToClose(run, i)
  {
    var s := Run(n, run).value;
    ClosingCancels(n, run);
    if !AllExited(s) {
      var i :| 0 <= i < |s.acceptors| && !s.acceptors[i].Exited?;
      if Stranded(s, i) {
        OpenMeansFailedToClose(n, run, i);
      } else {
        assert IsReliable(s, NextStep(s, i));
      }
    }
  }

  /** When nothing can proceed any more, Close can return exactly when no acceptor is stranded. */
  lemma ShutdownCompletesIff(n: nat, run: seq<Event>)
    requires Run(n, run).Some? && Run(n, run).value.closing > 0
    requires !CanProceed(Run(n, run).value)
    ensures
      var s := Run(n, run).value;
      Enabled(s, CloseReturns(s.groupErr)) <==> NoneStranded(s)
  {
    CloseNeverDeadlocks(n, run);
  }

  // ---- A completing run

  /** Every step of the run is one that shutdown can count on. */
  ghost predicate ReliableRun(s: State, run: seq<Event>)
    requires Shaped(s)
  {
    RunFrom(s, run).Some? &&
    (run == [] ||
     (LastStep(s, run);
      var before := run[..|run| - 1];
      ReliableRun(s, before) && IsReliable(RunFrom(s, before).value, run[|run| - 1])))
  }

  function OpenCount(open: seq<bool>): nat {
    if open == [] then 0 else (if open[0] then 1 else 0) + OpenCount(open[1..])
  }

  lemma {:induction false} OpenCountOfClose(open: seq<bool>, i: nat)
    requires i < |open| && open[i]
    ensures OpenCount(open[i := false]) == OpenCount(open) - 1
    decreases i
  {
    if i > 0 {
      assert open[i := false][1..] == open[1..][i - 1 := false];
      OpenCountOfClose(open[1..], i - 1);
    } else {
      assert open[0 := false][1..] == open[1..];
    }
  }

  lemma {:induction false} OpenCountBound(open: seq<bool>)
    ensures OpenCount(open) <= |open|
    decreases |open|
  {
    if open != [] {
      OpenCountBound(open[1..]);
    }
  }

  /** Steps that are left until every acceptor has gone. */
  function Work(s: State): nat {
    TotalRank(s.acceptors) + OpenCount(s.open)
  }

  lemma NextStepWorks(s: State, i: nat)
    requires Shaped(s) && i < |s.acceptors| && s.cancelled && !s.acceptors[i].Exited? && NoneStranded(s)
    ensures
      var t := Apply(s, NextStep(s, i));
      Work(t) < Work(s) && NoneStranded(t) && t.cancelled && t.closing == s.closing
  {
    var ev := NextStep(s, i);
    var t := Apply(s, ev);
    if ev.CloserRuns? {
      OpenCountOfClose(s.open, i);
    } else {
      RankOfUpdate(s.acceptors, i, t.acceptors[i]);
    }
    forall k | 0 <= k < |t.acceptors| ensures !Stranded(t, k) {
      assert !Stranded(s, k);
    }
  }

  lemma {:induction false} FinishFrom(s: State, sofar: seq<Event>) returns (run: seq<Event>)
    requires Shaped(s) && ReliableRun(s, sofar)
    requires RunFrom(s, sofar).value.cancelled && NoneStranded(RunFrom(s, sofar).value)
    ensures ReliableRun(s, run) && AllExited(RunFrom(s, run).value)
    ensures RunFrom(s, run).value.closing == RunFrom(s, sofar).value.closing
    ensures |run| <= |sofar| + Work(RunFrom(s, sofar).value)
    decreases Work(RunFrom(s, sofar).value)
  {
    var t := RunFrom(s, sofar).value;
    run := sofar;
    if !AllExited(t) {
      var i :| 0 <= i < |t.acceptors| && !t.acceptors[i].Exited?;
      var ev := NextStep(t, i);
      NextStepWorks(t, i);
      assert (sofar + [ev])[..|sofar|] == sofar;
      run := FinishFrom(s, sofar + [ev]);
    }
  }

  /** A stranded acceptor stays stranded whatever reliable steps are taken. */
  lemma {:induction false} StrandedStays(s: State, run: seq<Event>, i: nat)
    requires Shaped(s) && i < |s.acceptors| && Stranded(s, i) && ReliableRun(s, run)
    ensures Stranded(RunFrom(s, run).value, i)
    decreases |run|
  {
    if run != [] {
      LastStep(s, run);
      StrandedStays(s, run[..|run| - 1], i);
    }
  }

  /** A run of reliable steps after which Close can return. */
  ghost predicate Finishes(s: State, run: seq<Event>)
    requires Shaped(s)
  {
    ReliableRun(s, run) && Enabled(RunFrom(s, run).value, CloseReturns(RunFrom(s, run).value.groupErr))
  }

  ghost predicate CloseCanFinish(s: State, bound: nat)
    requires Shaped(s)
  {
    exists run :: Finishes(s, run) && |run| <= bound
  }

  lemma StrandedNeverFinishes(s: State, run: seq<Event>, i: nat)
    requires Shaped(s) && i < |s.acceptors| && Stranded(s, i)
    ensures !Finishes(s, run)
  {
    if ReliableRun(s, run) {
      StrandedStays(s, run, i);
      assert !RunFrom(s, run).value.acceptors[i].Exited?;
    }
  }

  lemma StrandedCannotFinish(s: State, i: nat, bound: nat)
    requires Shaped(s) && i < |s.acceptors| && Stranded(s, i)
    ensures !CloseCanFinish(s, bound)
  {
    forall run ensures !Finishes(s, run) {
      StrandedNeverFinishes(s, run, i);
    }
  }

  lemma UnstrandedCanFinish(s: State)
    requires Shaped(s) && s.cancelled && s.closing > 0 && NoneStranded(s)
    ensures CloseCanFinish(s, 5 * |s.acceptors|)
  {
    var run := FinishFrom(s, []);
    RankBound(s.acceptors);
    OpenCountBound(s.open);
    assert Finishes(s, run);
  }

  /** From every reachable state in which Close has been called, a run of at most five steps per
      listener, none of which needs a caller of Accept, lets Close return; this is so if and only if no
      acceptor is stranded, and in particular as long as no listener has failed to close. */
  lemma CloseCanFinishIff(n: nat, run: seq<Event>)
    requires Run(n, run).Some? && Run(n, run).value.closing > 0
    ensures
      var s := Run(n, run).value;
      && (CloseCanFinish(s, 5 * n) <==> NoneStranded(s))
      && ((forall i :: 0 <= i < n ==> !FailedToClose(run, i)) ==> NoneStranded(s))
  {
    var s := Run(n, run).value;
    ClosingCancels(n, run);
    if NoneStranded(s) {
      UnstrandedCanFinish(s);
    } else {
      var i :| 0 <= i < |s.acceptors| && Stranded(s, i);
      StrandedCannotFinish(s, i, 5 * n);
      OpenMeansFailedToClose(n, run, i);
    }
  }

  // ---- Every run of reliable steps

  function CloserRank(c: Closer): nat {
    match c
    case Waiting => 2
    case Storing(_) => 1
    case Finished => 0
  }

  function TotalCloserRank(closers: seq<Closer>): nat {
    if closers == [] then 0 else CloserRank(closers[0]) + TotalCloserRank(closers[1..])
  }

  lemma {:induction false} CloserRankOfUpdate(closers: seq<Closer>, i: nat, c: Closer)
    requires i < |closers|
    ensures TotalCloserRank(closers[i := c]) == TotalCloserRank(closers) - CloserRank(closers[i]) + CloserRank(c)
    decreases i
  {
    if i > 0 {
      assert closers[i := c][1..] == closers[1..][i - 1 := c];
      CloserRankOfUpdate(closers[1..], i - 1, c);
    } else {
      assert closers[0 := c][1..] == closers[1..];
    }
  }

  lemma {:induction false} CloserRankBound(closers: seq<Closer>)
    ensures TotalCloserRank(closers) <= 2 * |closers|
    decreases |closers|
  {
    if closers != [] {
      CloserRankBound(closers[1..]);
    }
  }

  /** Reliable steps that are left, however they are scheduled and however the listeners' Close goes. */
  function StepsLeft(s: State): nat {
    TotalRank(s.acceptors) + TotalCloserRank(s.closers)
  }

  lemma ReliableStepCounts(s: State, ev: Event)
    requires Shaped(s) && IsReliable(s, ev)
    ensures StepsLeft(Apply(s, ev)) < StepsLeft(s) && Apply(s, ev).closing == s.closing
  {
    if ev.CloserRuns? || ev.CloserStores? {
      CloserRankOfUpdate(s.closers, ev.i, Apply(s, ev).closers[ev.i]);
    } else {
      RankOfUpdate(s.acceptors, ev.i, Apply(s, ev).acceptors[ev.i]);
    }
  }

  lemma {:induction false} ReliableRunsAreShort(s: State, more: seq<Event>)
    requires Shaped(s) && ReliableRun(s, more)
    ensures |more| + StepsLeft(RunFrom(s, more).value) <= StepsLeft(s)
    ensures RunFrom(s, more).value.closing == s.closing
    decreases |more|
  {
    if more != [] {
      LastStep(s, more);
      ReliableRunsAreShort(s, more[..|more| - 1]);
      ReliableStepCounts(RunFrom(s, more[..|more| - 1]).value, more[|more| - 1]);
    }
  }

  lemma {:induction false} RunOfConcat(s: State, run: seq<Event>, more: seq<Event>)
    requires Shaped(s) && RunFrom(s, run).Some?
    ensures RunFrom(s, run + more) == RunFrom(RunFrom(s, run).value, more)
    decreases |more|
  {
    if more == [] {
      assert run + more == run;
    } else {
      assert (run + more)[..|run + more| - 1] == run + more[..|more| - 1];
      RunOfConcat(s, run, more[..|more| - 1]);
    }
  }

  /** From every reachable state in which Close has been called, every run of reliable steps ends after
      at most six per listener, in whatever order they are taken. Where none is left, Close can return
      if and only if no acceptor is stranded, and so it can if no listener has failed to close. */
  lemma EveryShutdownEnds(n: nat, run: seq<Event>, more: seq<Event>)
    requires Run(n, run).Some? && Run(n, run).value.closing > 0
    requires ReliableRun(Run(n, run).value, more)
    ensures |more| <= 6 * n
    ensures
      var t := RunFrom(Run(n, run).value, more).value;
      !CanProceed(t) ==>
        && (Enabled(t, CloseReturns(t.groupErr)) <==> NoneStranded(t))
        && ((forall i :: 0 <= i < n ==> !FailedToClose(run + more, i)) ==> Enabled(t, CloseReturns(t.groupErr)))
  {
    var s := Run(n, run).value;
    ReliableRunsAreShort(s, more);
    RankBound(s.acceptors);
    CloserRankBound(s.closers);
    RunOfConcat(Init(n), run, more);
    var t := RunFrom(s, more).value;
    if !CanProceed(t) {
      ShutdownCompletesIff(n, run + more);
      if i :| 0 <= i < n && Stranded(t, i) {
        OpenMeansFailedToClose(n, run + more, i);
      }
    }
  }

  /** One listener whose Close fails and leaves it open: Close of the merged listener never returns. */
  lemma StrandedExample(err: Error)
    ensures
      var run := [CallClose, CloserRuns(0, Some(err), false), CloserStores(0)];
      && Run(1, run).Some? && Run(1, run).value.closing > 0
      && Stranded(Run(1, run).value, 0) && !CanProceed(Run(1, run).value)
  {
    var run := [CallClose, CloserRuns(0, Some(err), false), CloserStores(0)];
    assert run[..2][..1] == run[..1] && run[..1][..0] == [];
    assert RunFrom(Init(1), run[..1]) == Some(Apply(Init(1), CallClose));
    assert RunFrom(Init(1), run[..2]).Some?;
  }
}
