/**
 The pipeline keeps the order of arrival.  Every run of the Ingestion machine moves the
 buffer and the flushes of the current process as a run of the queue of BufferOrder does.
 */
module IngestionOrder {
  import opened Common
  import opened Ingestion
  import B = BufferOrder
  import W = IngestionWatermark

  /** The messages the current process has put into the buffer, in order. */
  function Accepted(log: Log, en: bool, acts: seq<Action>): seq<Rec> {
    if acts == [] then [] else
      var before, a := acts[..|acts| - 1], acts[|acts| - 1];
      var s := Exec(log, en, before);
      if a.Crash? then []
      else if a.AddToBuffer? && s.held.Some? && IsValid(log, s.held.value.rec)
        then Accepted(log, en, before) + [s.held.value.rec]
      else Accepted(log, en, before)
  }

  /** The last step takes flush i out of the flights for good. */
  predicate Ends(s: State, a: Action) {
    || (a.CommitFlight? && !a.ok && a.i < |s.flights| && s.flights[a.i].phase.Inserted?)
    || (a.CountFlight? && a.i < |s.flights| && s.flights[a.i].phase.Committed?)
  }

  /** The messages of the flushes the current process has finished, in the order they finished. */
  function Finished(log: Log, en: bool, acts: seq<Action>): seq<Rec> {
    if acts == [] then [] else
      var before, a := acts[..|acts| - 1], acts[|acts| - 1];
      var s := Exec(log, en, before);
      if a.Crash? then []
      else if Ends(s, a) then Finished(log, en, before) + s.flights[a.i].batch
      else Finished(log, en, before)
  }

  function Batches(flights: seq<Flight>): (b: seq<seq<Rec>>)
    ensures |b| == |flights| && forall i :: 0 <= i < |b| ==> b[i] == flights[i].batch
  {
    seq(|flights|, i requires 0 <= i < |flights| => flights[i].batch)
  }

  /** The move of the queue that one step makes, if it makes one. */
  function MoveOf(log: Log, s: State, a: Action): (m: Option<B.Move<Rec>>) {
    if Ends(s, a) then Some(B.Finish(a.i))
    else match a
      case AddToBuffer => if s.held.Some? && IsValid(log, s.held.value.rec) then Some(B.Arrive(s.held.value.rec))
        else None
      case StartFlush => if s.buffer != [] then Some(B.Take) else None
      case PutBack(i) =>
        if i < |s.flights| && s.flights[i].phase.Inserting? && s.flights[i].phase.failures > 0 then Some(B.Fail(i))
          else None
      case _ => None
  }

  function MovesOf(log: Log, en: bool, acts: seq<Action>): seq<B.Move<Rec>> {
    if acts == [] then [] else
      var before, a := acts[..|acts| - 1], acts[|acts| - 1];
      if a.Crash? then []
      else
        var m := MoveOf(log, Exec(log, en, before), a);
        MovesOf(log, en, before) + if m.Some? then [m.value] else []
  }

  function QueueOf(s: State, accepted: seq<Rec>, finished: seq<Rec>): B.Queue<Rec> {
    B.Queue(accepted, finished, Batches(s.flights), s.buffer)
  }

  lemma BatchesRemove(flights: seq<Flight>, i: nat)
    requires i < |flights|
    ensures Batches(RemoveAt(flights, i)) == RemoveAt(Batches(flights), i)
  {
    hide Batches, RemoveAt;
    var a, b := Batches(RemoveAt(flights, i)), RemoveAt(Batches(flights), i);
    assert |a| == |b| && forall k :: 0 <= k < |a| ==> a[k] == b[k];
  }

  lemma BatchesPhase(flights: seq<Flight>, i: nat, phase: Phase)
    requires i < |flights|
    ensures Batches(flights[i := flights[i].(phase := phase)]) == Batches(flights)
  {
    hide Batches;
    var a, b := Batches(flights[i := flights[i].(phase := phase)]), Batches(flights);
    assert |a| == |b| && forall k :: 0 <= k < |a| ==> a[k] == b[k];
  }

  /** What a step does to the buffer and the flushes' batches, as a move. */
  ghost predicate Moves(s: State, t: State, m: Option<B.Move<Rec>>) {
    match m
    case None => t.buffer == s.buffer && Batches(t.flights) == Batches(s.flights)
    case Some(Arrive(msg)) => t.buffer == s.buffer + [msg] && Batches(t.flights) == Batches(s.flights)
    case Some(Take) => s.buffer != [] && t.buffer == [] && Batches(t.flights) == Batches(s.flights) + [s.buffer]
    case Some(Fail(i)) =>
      i < |s.flights| && t.buffer == s.flights[i].batch + s.buffer
        && Batches(t.flights) == RemoveAt(Batches(s.flights), i)
    case Some(Finish(i)) =>
      i < |s.flights| && t.buffer == s.buffer && Batches(t.flights) == RemoveAt(Batches(s.flights), i)
  }

  lemma StepMoves(log: Log, en: bool, s: State, a: Action)
    requires !a.Crash?
    ensures Moves(s, Step(log, en, s, a), MoveOf(log, s, a))
  {
    hide Batches, Step, IsValid;
    match a
    case InsertAttempt(i, ok, applied) => InsertMoves(log, en, s, i, ok, applied);
    case PutBack(i) => PutBackMoves(log, en, s, i);
    case CommitFlight(i, ok, partitions) => CommitMoves(log, en, s, i, ok, partitions);
    case CountFlight(i) => CountMoves(log, en, s, i);
    case StartFlush => StartMoves(log, en, s);
    case _ => LoopMoves(log, en, s, a);
  }

  lemma InsertMoves(log: Log, en: bool, s: State, i: nat, ok: bool, applied: seq<Rec>)
    ensures Moves(s, Step(log, en, s, InsertAttempt(i, ok, applied)), None)
  {
    hide Batches;
    if CanInsert(s, i, applied) {
      BatchesPhase(s.flights, i, if ok then Inserted else Inserting(s.flights[i].phase.failures + 1));
    }
  }

  lemma PutBackMoves(log: Log, en: bool, s: State, i: nat)
    ensures Moves(s, Step(log, en, s, PutBack(i)), MoveOf(log, s, PutBack(i)))
  {
    hide Batches;
    if i < |s.flights| { BatchesRemove(s.flights, i); }
  }

  lemma CommitMoves(log: Log, en: bool, s: State, i: nat, ok: bool, partitions: set<nat>)
    ensures Moves(s, Step(log, en, s, CommitFlight(i, ok, partitions)), MoveOf(log, s, CommitFlight(i, ok, partitions)))
  {
    hide Batches, CommitBatch;
    if i < |s.flights| {
      BatchesRemove(s.flights, i);
      BatchesPhase(s.flights, i, Committed);
    }
  }

  lemma CountMoves(log: Log, en: bool, s: State, i: nat)
    ensures Moves(s, Step(log, en, s, CountFlight(i)), MoveOf(log, s, CountFlight(i)))
  {
    hide Batches;
    if i < |s.flights| { BatchesRemove(s.flights, i); }
  }

  lemma StartMoves(log: Log, en: bool, s: State)
    ensures Moves(s, Step(log, en, s, StartFlush), MoveOf(log, s, StartFlush))
  {
    hide Batches;
    var t := s.flights + [Flight(s.buffer, Inserting(0))];
    assert Batches(t) == Batches(s.flights) + [s.buffer];
  }

  lemma LoopMoves(log: Log, en: bool, s: State, a: Action)
    requires a.Fetch? || a.AddToBuffer? || a.SendDlq? || a.RecordError? || a.CommitDlq?
    ensures Moves(s, Step(log, en, s, a), MoveOf(log, s, a))
  {
    hide IsValid, CommitBatch, Batches;
  }

  lemma FinishEnds(log: Log, s: State, a: Action)
    ensures
      var m := MoveOf(log, s, a);
      if Ends(s, a) then m == Some(B.Finish(a.i)) && a.i < |s.flights| else m.None? || !m.value.Finish?
  {
    hide IsValid;
  }

  /** One step of the pipeline is at most one move of its queue. */
  lemma StepIsMove(log: Log, en: bool, s: State, a: Action, accepted: seq<Rec>, finished: seq<Rec>)
    requires !a.Crash?
    ensures
      var t, m, q := Step(log, en, s, a), MoveOf(log, s, a), QueueOf(s, accepted, finished);
      var accepted' := if m.Some? && m.value.Arrive? then accepted + [m.value.msg] else accepted;
      var finished' := if Ends(s, a) then finished + s.flights[a.i].batch else finished;
      QueueOf(t, accepted', finished') == if m.Some? then B.Step(q, m.value) else q
  {
    hide Step, IsValid, Batches, RemoveAt, MoveOf;
    StepMoves(log, en, s, a);
    FinishEnds(log, s, a);
  }

  lemma {:induction false} RunIsQueue(log: Log, en: bool, acts: seq<Action>)
    ensures B.Exec(MovesOf(log, en, acts))
      == QueueOf(Exec(log, en, acts), Accepted(log, en, acts), Finished(log, en, acts))
  {
    hide Step, IsValid, B.Step, MoveOf, Ends, Batches;
    if acts == [] {
      assert Batches([]) == [];
    } else {
      var before, a := acts[..|acts| - 1], acts[|acts| - 1];
      RunIsQueue(log, en, before);
      if a.Crash? {
        CrashEmpties(log, en, Exec(log, en, before));
        assert Batches([]) == [];
      } else {
        LastMove(log, en, acts);
      }
    }
  }

  lemma LastMove(log: Log, en: bool, acts: seq<Action>)
    requires acts != [] && !acts[|acts| - 1].Crash?
    requires
      var before := acts[..|acts| - 1];
      B.Exec(MovesOf(log, en, before))
        == QueueOf(Exec(log, en, before), Accepted(log, en, before), Finished(log, en, before))
    ensures B.Exec(MovesOf(log, en, acts))
      == QueueOf(Exec(log, en, acts), Accepted(log, en, acts), Finished(log, en, acts))
  {
    hide Step, IsValid, B.Step, MoveOf, Ends, QueueOf;
    var before, a := acts[..|acts| - 1], acts[|acts| - 1];
    var s := Exec(log, en, before);
    StepIsMove(log, en, s, a, Accepted(log, en, before), Finished(log, en, before));
    ArrivalIsAdd(log, s, a);
    var moves, m := MovesOf(log, en, before), MoveOf(log, s, a);
    if m.Some? { assert (moves + [m.value])[..|moves|] == moves; } else { assert moves + [] == moves; }
  }

  lemma ArrivalIsAdd(log: Log, s: State, a: Action)
    ensures
      var m := MoveOf(log, s, a);
      if a.AddToBuffer? && s.held.Some? && IsValid(log, s.held.value.rec) then m == Some(B.Arrive(s.held.value.rec))
      else m.None? || !m.value.Arrive?
  {
    hide IsValid;
  }

  lemma CrashEmpties(log: Log, en: bool, s: State)
    ensures Step(log, en, s, Crash).buffer == [] && Step(log, en, s, Crash).flights == []
  {
  }

  lemma {:induction false} OneFlusherTakesAlone(log: Log, en: bool, acts: seq<Action>)
    requires W.OneFlusher(log, en, acts)
    ensures B.TakesAlone(MovesOf(log, en, acts))
  {
    hide Step, IsValid, B.Exec, Exec;
    if acts != [] {
      var before, a := acts[..|acts| - 1], acts[|acts| - 1];
      assert forall n: nat :: n < |before| ==> before[n] == acts[n] && before[..n] == acts[..n];
      OneFlusherTakesAlone(log, en, before);
      var s := Exec(log, en, before);
      var moves, all := MovesOf(log, en, before), MovesOf(log, en, acts);
      if !a.Crash? && MoveOf(log, s, a).Some? {
        var m := MoveOf(log, s, a).value;
        assert all == moves + [m] && acts[|acts| - 1] == a;
        assert m.Take? ==> a.StartFlush? && s.flights == [];
        RunIsQueue(log, en, before);
        forall n: nat | n < |all| && all[n].Take? ensures B.Exec(all[..n]).flights == [] {
          if n < |moves| { assert all[n] == moves[n] && all[..n] == moves[..n]; } else { assert all[..n] == moves; }
        }
      } else if !a.Crash? {
        assert moves + [] == moves;
      }
    }
  }

  /**
   With one flusher, what the process has finished, what it is flushing and what it still
   buffers are together exactly what it accepted, in the order it accepted it, whatever failed
   and was put back.
   */
  lemma PipelineKeepsOrder(log: Log, en: bool, acts: seq<Action>)
    requires W.OneFlusher(log, en, acts)
    ensures
      var s := Exec(log, en, acts);
      && |s.flights| <= 1
      && Accepted(log, en, acts) == Finished(log, en, acts) + (if s.flights == [] then [] else s.flights[0].batch)
        + s.buffer
  {
    hide Exec, B.Exec, MovesOf, Accepted, Finished;
    OneFlusherTakesAlone(log, en, acts);
    RunIsQueue(log, en, acts);
    B.OneFlusherKeepsOrder(MovesOf(log, en, acts));
    var s := Exec(log, en, acts);
    if s.flights == [] {
      B.FlatNone<Rec>();
    } else {
      assert Batches(s.flights) == [s.flights[0].batch];
      B.FlatOne(s.flights[0].batch);
    }
  }

  /** With any number of flushers they are the same messages, each as often, in some order. */
  lemma PipelineKeepsMessages(log: Log, en: bool, acts: seq<Action>)
    ensures
      var s := Exec(log, en, acts);
      multiset(Accepted(log, en, acts))
        == multiset(Finished(log, en, acts)) + multiset(B.Flat(Batches(s.flights))) + multiset(s.buffer)
  {
    hide Exec, B.Exec, MovesOf, Accepted, Finished;
    RunIsQueue(log, en, acts);
    B.ManyFlushersKeepMessages(MovesOf(log, en, acts));
  }

  // ---------------------------------------------------------------- order with many flushers

  lemma {:induction false} AcceptedIsValid(log: Log, en: bool, acts: seq<Action>)
    ensures forall r :: r in Accepted(log, en, acts) ==> IsValid(log, r)
  {
    hide IsValid, Exec;
    if acts != [] { AcceptedIsValid(log, en, acts[..|acts| - 1]); }
  }

  lemma {:induction false} AcceptedGrows(log: Log, en: bool, acts: seq<Action>, n: nat)
    requires n <= |acts| && forall a :: a in acts ==> !a.Crash?
    ensures Accepted(log, en, acts[..n]) <= Accepted(log, en, acts)
    decreases |acts|
  {
    hide IsValid, Exec;
    if n == |acts| {
      assert acts[..n] == acts;
    } else {
      var before := acts[..|acts| - 1];
      assert before[..n] == acts[..n] && acts[|acts| - 1] in acts;
      AcceptedGrows(log, en, before, n);
    }
  }

  lemma {:induction false} NothingFinished(log: Log, en: bool, acts: seq<Action>)
    requires forall a :: a in acts ==> !a.CountFlight? && (a.CommitFlight? ==> a.ok)
    ensures Finished(log, en, acts) == []
  {
    hide Exec;
    if acts != [] {
      assert acts[|acts| - 1] in acts;
      NothingFinished(log, en, acts[..|acts| - 1]);
    }
  }

  /** What a process buffers first, it has accepted in that order. */
  lemma FirstIsAccepted(log: Log, en: bool, r: Rec)
    requires IsValid(log, r)
    ensures
      var one := W.Feed(log, r.partition, 0, r.offset + 1);
      Accepted(log, en, one) == Exec(log, en, one).buffer
  {
    hide Exec, IsValid, Accepted, Finished;
    var one := W.Feed(log, r.partition, 0, r.offset + 1);
    W.BatchUpTo(log, en, r);
    W.FeedDoesNotFlush(log, r.partition, 0, r.offset + 1);
    W.NoFlushNoOverlap(log, en, one);
    NothingFinished(log, en, one);
    PipelineKeepsOrder(log, en, one);
  }

  /** Inserting, committing and counting the second of two flushes. */
  lemma FinishSecond(log: Log, en: bool, acts: seq<Action>) returns (more: seq<Action>)
    requires
      var s := Exec(log, en, acts);
      |s.flights| == 2 && s.flights[1].phase == Inserting(0)
    requires forall a :: a in acts ==> !a.Crash? && !a.CountFlight? && !a.CommitFlight?
    ensures acts <= more && Finished(log, en, more) == Exec(log, en, acts).flights[1].batch
    ensures forall a :: a in more ==> !a.Crash?
  {
    hide Exec, CommitBatch, Ends, IsValid;
    var s := Exec(log, en, acts);
    var a1 := acts + [InsertAttempt(1, true, [])];
    W.ExecSnoc(log, en, acts, InsertAttempt(1, true, []));
    assert Exec(log, en, a1).flights == [s.flights[0], Flight(s.flights[1].batch, Inserted)];
    var a2 := a1 + [CommitFlight(1, true, {})];
    W.ExecSnoc(log, en, a1, CommitFlight(1, true, {}));
    assert Exec(log, en, a2).flights == [s.flights[0], Flight(s.flights[1].batch, Committed)];
    NothingFinished(log, en, a2);
    more := a2 + [CountFlight(1)];
    assert more[..|more| - 1] == a2;
    CountEnds(Exec(log, en, a2));
  }

  lemma CountEnds(s: State)
    requires |s.flights| == 2 && s.flights[1].phase.Committed?
    ensures Ends(s, CountFlight(1))
  {
  }

  /** Two batches, of which the later one finishes first. */
  lemma LaterFinishesFirst(log: Log, en: bool, r: Rec, q: Rec) returns (acts: seq<Action>)
    requires IsValid(log, r) && IsValid(log, q) && r != q && (r.partition == q.partition ==> r.offset < q.offset)
    ensures !(Finished(log, en, acts) <= Accepted(log, en, acts))
  {
    hide Exec, IsValid, Accepted, Finished;
    var one, both := W.Feed(log, r.partition, 0, r.offset + 1), W.TwoFeeds(log, r, q);
    W.StartTwo(log, en, r, q);
    W.TwoFeedsOnlyFeed(log, r, q);
    acts := FinishSecond(log, en, both);
    FirstIsAccepted(log, en, r);
    AcceptedGrows(log, en, acts, |one|);
    assert both[..|one|] == one && acts[..|one|] == one;
    var first, second := Exec(log, en, both).flights[0].batch, Exec(log, en, both).flights[1].batch;
    assert first[0] in first && second[0] in second && first[0] != second[0];
  }

  /**
   With overlapping flushes, over all runs, what a process has finished is in the order it
   accepted it if and only if there is at most one valid message.
   */
  lemma PipelineOrderExactly(log: Log, en: bool)
    ensures
      (forall acts :: Finished(log, en, acts) <= Accepted(log, en, acts))
      <==> forall r, q :: IsValid(log, r) && IsValid(log, q) ==> r == q
  {
    hide Exec, IsValid, Accepted, Finished;
    if forall r, q :: IsValid(log, r) && IsValid(log, q) ==> r == q {
      forall acts ensures Finished(log, en, acts) <= Accepted(log, en, acts) {
        PipelineKeepsMessages(log, en, acts);
        AcceptedIsValid(log, en, acts);
        var xs := Accepted(log, en, acts);
        forall i, j | 0 <= i < j < |xs| ensures xs[i] == xs[j] {
          assert xs[i] in xs && xs[j] in xs;
        }
        B.SomeOfTheSame(xs, Finished(log, en, acts));
      }
    } else {
      var r, q :| IsValid(log, r) && IsValid(log, q) && r != q;
      var acts;
      if r.partition == q.partition && q.offset < r.offset {
        acts := LaterFinishesFirst(log, en, q, r);
      } else {
        acts := LaterFinishesFirst(log, en, r, q);
      }
    }
  }
}
