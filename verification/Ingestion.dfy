/**
 The page view pipeline: the fetch loop, any number of overlapping flushes of the
 shared buffer, and the blocking dead-letter path, against Kafka offsets and ClickHouse
 tables that may fail, or fail after having applied the request.
 */
module Ingestion {
  import opened Common
  import opened PageView

  /** A message is named by where it sits in the topic. */
  datatype Rec = Rec(partition: nat, offset: nat)

  /** The topic's content; a message that has not been produced yet is simply never fetched. */
  type Log = Rec -> Payload

  predicate IsValid(log: Log, r: Rec) {
    ParseAndValidate(log(r)).Valid?
  }

  /** Where the message held by Run is on the dead-letter path. */
  datatype Stage = Fetched | Sent | Recorded

  datatype Held = Held(rec: Rec, stage: Stage)

  /** A flush between GetAndClear and its end: inserting, inserted, or committed but not yet counted. */
  datatype Phase = Inserting(failures: nat) | Inserted | Committed

  datatype Flight = Flight(batch: seq<Rec>, phase: Phase)

  datatype State = State(
    // Kafka and ClickHouse: these survive a crash.
    committed: map<nat, nat>,
    raw: multiset<Rec>,
    errors: multiset<Rec>,
    dlqAcked: multiset<Rec>,
    dlqTopic: multiset<Rec>,
    // The process: next offset to fetch, the message Run holds, buffer, flushes, metrics.
    next: map<nat, nat>,
    held: Option<Held>,
    buffer: seq<Rec>,
    flights: seq<Flight>,
    consumed: nat,
    insertedRaw: nat,
    dlqCount: nat,
    // Rows inserted by this process whose offset commit reported failure.
    uncommitted: nat)

  datatype Action =
    | Fetch(partition: nat)
    | AddToBuffer
    | SendDlq(io: IO)
    | RecordError(io: IO)
    | CommitDlq(io: IO)
    | StartFlush
    | InsertAttempt(i: nat, ok: bool, applied: seq<Rec>)
    | PutBack(i: nat)
    | CommitFlight(i: nat, ok: bool, partitions: set<nat>)
    | CountFlight(i: nat)
    | Crash

  const INSERT_ATTEMPTS := 5

  function At(m: map<nat, nat>, p: nat): nat {
    if p in m then m[p] else 0
  }

  /** One past the highest offset of a batch in a partition; 0 when the batch has none there. */
  function PastLast(batch: seq<Rec>, p: nat): (n: nat)
  {
    if batch == [] then 0 else
      var before := PastLast(batch[..|batch| - 1], p);
      var r := batch[|batch| - 1];
      if r.partition == p && r.offset + 1 > before then r.offset + 1 else before
  }

  /**
   CommitMessages on a batch, taking effect for the given partitions: each gets max + 1, even if
   that moves it back.
   */
  function CommitBatch(committed: map<nat, nat>, batch: seq<Rec>, applied: set<nat>): (m: map<nat, nat>)
  {
    map p | p in committed.Keys + applied ::
      if p in applied && PastLast(batch, p) > 0 then PastLast(batch, p) else At(committed, p)
  }

  function PartitionsOf(batch: seq<Rec>): set<nat> {
    set r | r in batch :: r.partition
  }

  /** Everything the process has fetched and still holds in memory. */
  function Pending(s: State): set<Rec> {
    (set r | r in s.buffer)
    + (set f, r | f in s.flights && r in f.batch :: r)
    + (if s.held.Some? then {s.held.value.rec} else {})
  }

  predicate CanInsert(s: State, i: nat, applied: seq<Rec>) {
    && i < |s.flights| && s.flights[i].phase.Inserting? && s.flights[i].phase.failures < INSERT_ATTEMPTS
    && forall r :: r in applied ==> r in s.flights[i].batch
  }

  /** One step; an action that is not possible changes nothing. */
  function Step(log: Log, dlqEnabled: bool, s: State, a: Action): State {
    match a
    case Fetch(p) =>
      if s.held.None? then
        s.(held := Some(Held(Rec(p, At(s.next, p)), Fetched)), next := s.next[p := At(s.next, p) + 1],
          consumed := s.consumed + 1)
      else s
    case AddToBuffer =>
      if s.held.Some? && IsValid(log, s.held.value.rec) then
        s.(held := None, buffer := s.buffer + [s.held.value.rec])
      else s
    case SendDlq(io) =>
      if s.held.Some? && !IsValid(log, s.held.value.rec) && s.held.value.stage.Fetched? then
        var r := s.held.value.rec;
        if !dlqEnabled then s.(held := Some(Held(r, Sent)))
        else if io.Ok? then s.(held := Some(Held(r, Sent)), dlqAcked := s.dlqAcked + multiset{r},
          dlqTopic := s.dlqTopic + multiset{r})
        else if io.FailedButApplied? then s.(dlqTopic := s.dlqTopic + multiset{r})
        else s
      else s
    case RecordError(io) =>
      if s.held.Some? && s.held.value.stage.Sent? then
        var r := s.held.value.rec;
        if io.Ok? then s.(held := Some(Held(r, Recorded)), errors := s.errors + multiset{r}, dlqCount := s.dlqCount + 1)
        else if io.FailedButApplied? then s.(held := Some(Held(r, Fetched)), errors := s.errors + multiset{r})
        else s.(held := Some(Held(r, Fetched)))
      else s
    case CommitDlq(io) =>
      if s.held.Some? && s.held.value.stage.Recorded? then
        var r := s.held.value.rec;
        s.(held := None, committed := if io.Failed? then s.committed else CommitBatch(s.committed, [r], {r.partition}))
      else s
    case StartFlush =>
      if s.buffer != [] then s.(buffer := [], flights := s.flights + [Flight(s.buffer, Inserting(0))]) else s
    case InsertAttempt(i, ok, applied) =>
      if CanInsert(s, i, applied) then
        var f := s.flights[i];
        if ok then s.(raw := s.raw + multiset(f.batch), flights := s.flights[i := f.(phase := Inserted)])
        else s.(raw := s.raw + multiset(applied),
          flights := s.flights[i := f.(phase := Inserting(f.phase.failures + 1))])
      else s
    case PutBack(i) =>
      if i < |s.flights| && s.flights[i].phase.Inserting? && s.flights[i].phase.failures > 0 then
        s.(buffer := s.flights[i].batch + s.buffer, flights := RemoveAt(s.flights, i))
      else s
    case CommitFlight(i, ok, partitions) =>
      if i < |s.flights| && s.flights[i].phase.Inserted? then
        var f := s.flights[i];
        if ok then
          s.(committed := CommitBatch(s.committed, f.batch, PartitionsOf(f.batch)),
            flights := s.flights[i := f.(phase := Committed)])
        else
          s.(committed := CommitBatch(s.committed, f.batch, partitions * PartitionsOf(f.batch)),
             flights := RemoveAt(s.flights, i), uncommitted := s.uncommitted + |f.batch|)
      else s
    case CountFlight(i) =>
      if i < |s.flights| && s.flights[i].phase.Committed? then
        s.(flights := RemoveAt(s.flights, i), insertedRaw := s.insertedRaw + |s.flights[i].batch|)
      else s
    case Crash => Restart(s)
  }

  /** The process is gone; a new one starts fetching at the committed offsets. */
  function Restart(s: State): State {
    s.(next := s.committed, held := None, buffer := [], flights := [], consumed := 0, insertedRaw := 0, dlqCount := 0,
      uncommitted := 0)
  }

  function Start(): State {
    State(map[], multiset{}, multiset{}, multiset{}, multiset{}, map[], None, [], [], 0, 0, 0, 0)
  }

  function Exec(log: Log, dlqEnabled: bool, acts: seq<Action>): State {
    if acts == [] then Start()
    else Step(log, dlqEnabled, Exec(log, dlqEnabled, acts[..|acts| - 1]), acts[|acts| - 1])
  }

  /** The valid messages a crash in this state would lose: in memory only, yet already below the committed offset. */
  function AtRisk(log: Log, s: State): set<Rec> {
    set r | r in Pending(s) && IsValid(log, r) && r.offset < At(s.committed, r.partition) && r !in s.raw
  }

  /** Everything the crashes of a run lost. */
  function DroppedBy(log: Log, dlqEnabled: bool, acts: seq<Action>): set<Rec> {
    if acts == [] then {} else
      var before := acts[..|acts| - 1];
      DroppedBy(log, dlqEnabled, before)
      + if acts[|acts| - 1].Crash? then AtRisk(log, Exec(log, dlqEnabled, before)) else {}
  }

  // ---------------------------------------------------------------- committing

  lemma {:induction false} PastLastBound(batch: seq<Rec>, p: nat, bound: nat)
    ensures PastLast(batch, p) <= bound <==> forall r :: r in batch && r.partition == p ==> r.offset < bound
  {
    if batch != [] {
      PastLastBound(batch[..|batch| - 1], p, bound);
      assert batch[|batch| - 1] in batch;
      assert forall r :: r in batch[..|batch| - 1] ==> r in batch;
    }
  }

  lemma CommitBatchAt(committed: map<nat, nat>, batch: seq<Rec>, applied: set<nat>, p: nat)
    ensures At(CommitBatch(committed, batch, applied), p) == At(committed, p)
      || (p in applied && At(CommitBatch(committed, batch, applied), p) == PastLast(batch, p))
  {
  }

  /**
   Committing a batch: each of its partitions for which the request takes effect moves to one past the
   batch's highest offset there, forward or back, and every other partition stays.
   */
  lemma CommitBatchExactly(committed: map<nat, nat>, batch: seq<Rec>, applied: set<nat>, p: nat)
    ensures
      var n := At(CommitBatch(committed, batch, applied * PartitionsOf(batch)), p);
      if p in applied && exists r :: r in batch && r.partition == p then
        && (exists r :: r in batch && r.partition == p && n == r.offset + 1)
        && (forall r :: r in batch && r.partition == p ==> r.offset < n)
      else n == At(committed, p)
    ensures
      At(CommitBatch(committed, batch, PartitionsOf(batch)), p)
        == At(CommitBatch(committed, batch, {p} * PartitionsOf(batch)), p)
  {
    hide PastLast;
    PastLastBound(batch, p, 0);
    PastLastBound(batch, p, PastLast(batch, p));
    if PastLast(batch, p) > 0 { PastLastBound(batch, p, PastLast(batch, p) - 1); }
  }

  // ---------------------------------------------------------------- what every step keeps

  ghost predicate Bounded(s: State) {
    && (forall p :: At(s.committed, p) <= At(s.next, p))
    && (forall r :: r in Pending(s) ==> r.offset < At(s.next, r.partition))
  }

  ghost predicate FlightsSound(log: Log, s: State) {
    && (forall r :: r in s.buffer ==> IsValid(log, r))
    && (forall f, r :: f in s.flights && r in f.batch ==> IsValid(log, r) && (!f.phase.Inserting? ==> r in s.raw))
    && (s.held.Some? && !s.held.value.stage.Fetched? ==> !IsValid(log, s.held.value.rec))
  }

  /** Every valid message below the fetch position is accounted for. */
  ghost predicate NothingForgotten(log: Log, s: State, dropped: set<Rec>) {
    forall r :: IsValid(log, r) && r.offset < At(s.next, r.partition) ==>
      r in s.raw || r in Pending(s) || r in dropped
  }

  predicate HoldsUnrecorded(s: State) {
    s.held.Some? && !s.held.value.stage.Recorded?
  }

  /** Every invalid message below the fetch position has an error row, except the one Run is still blocked on. */
  ghost predicate ErrorsKept(log: Log, s: State) {
    forall r :: !IsValid(log, r) && r.offset < At(s.next, r.partition) ==>
      r in s.errors || (HoldsUnrecorded(s) && s.held.value.rec == r)
  }

  /** While Run holds a message nothing later in its partition is in memory, and nothing past it is committed. */
  ghost predicate HeldIsLatest(s: State) {
    s.held.Some? ==>
      var h := s.held.value.rec;
      && At(s.next, h.partition) == h.offset + 1
      && At(s.committed, h.partition) <= h.offset
      && (forall r :: r in s.buffer && r.partition == h.partition ==> r.offset < h.offset)
      && (forall f, r :: f in s.flights && r in f.batch && r.partition == h.partition ==> r.offset < h.offset)
  }

  ghost predicate Inv(log: Log, s: State, dropped: set<Rec>) {
    && Bounded(s)
    && FlightsSound(log, s)
    && NothingForgotten(log, s, dropped)
    && ErrorsKept(log, s)
    && HeldIsLatest(s)
    && (forall r :: r in dropped ==> IsValid(log, r))
  }

  // ---------------------------------------------------------------- each step keeps it

  /** Membership in memory, spelled out. */
  lemma PendingMember(s: State, r: Rec)
    ensures r in Pending(s) <==>
      r in s.buffer || (exists f :: f in s.flights && r in f.batch) || (s.held.Some? && s.held.value.rec == r)
  {
  }

  lemma FetchKeeps(log: Log, en: bool, s: State, dropped: set<Rec>, p: nat)
    requires Inv(log, s, dropped)
    ensures Inv(log, Step(log, en, s, Fetch(p)), dropped)
  {
    hide IsValid, Pending, NothingForgotten, ErrorsKept, HeldIsLatest, Bounded;
    if s.held.None? {
      var fetched := Rec(p, At(s.next, p));
      var s' := s.(held := Some(Held(fetched, Fetched)), next := s.next[p := At(s.next, p) + 1]);
      FetchIsLatest(log, s, s', dropped, fetched);
      FetchIsHeld(log, s, s', dropped, fetched);
      CountersDoNotMatter(log, s', Step(log, en, s, Fetch(p)), dropped);
    }
  }

  lemma FetchIsLatest(log: Log, s: State, s': State, dropped: set<Rec>, fetched: Rec)
    requires Inv(log, s, dropped) && s.held.None? && fetched.offset == At(s.next, fetched.partition)
    requires s' == s.(held := Some(Held(fetched, Fetched)), next := s.next[fetched.partition := fetched.offset + 1])
    ensures Bounded(s') && HeldIsLatest(s')
  {
    hide IsValid, Pending, NothingForgotten, ErrorsKept, FlightsSound;
    forall r ensures r in Pending(s') <==> r in Pending(s) || r == fetched {
      PendingMember(s, r);
      PendingMember(s', r);
    }
    forall f, r | f in s'.flights && r in f.batch ensures r in Pending(s) { PendingMember(s, r); }
    forall r | r in s'.buffer ensures r in Pending(s) { PendingMember(s, r); }
  }

  lemma FetchIsHeld(log: Log, s: State, s': State, dropped: set<Rec>, fetched: Rec)
    requires Inv(log, s, dropped) && s.held.None? && fetched.offset == At(s.next, fetched.partition)
    requires s' == s.(held := Some(Held(fetched, Fetched)), next := s.next[fetched.partition := fetched.offset + 1])
    ensures NothingForgotten(log, s', dropped) && ErrorsKept(log, s')
  {
    hide IsValid, Pending, HeldIsLatest, Bounded, FlightsSound;
    assert forall r: Rec :: r.offset < At(s'.next, r.partition) ==> r == fetched || r.offset < At(s.next, r.partition);
    forall r ensures r in Pending(s) || r == fetched ==> r in Pending(s') {
      PendingMember(s, r);
      PendingMember(s', r);
    }
  }

  lemma AddKeeps(log: Log, en: bool, s: State, dropped: set<Rec>)
    requires Inv(log, s, dropped)
    ensures Inv(log, Step(log, en, s, AddToBuffer), dropped)
  {
    hide IsValid;
    if s.held.Some? && IsValid(log, s.held.value.rec) {
      var s' := Step(log, en, s, AddToBuffer);
      assert s.held.value.stage.Fetched?;
      assert Pending(s') == Pending(s);
    }
  }

  /** The held message moves along the dead-letter path, and at its end has an error row. */
  lemma StageKeeps(log: Log, s: State, s': State, dropped: set<Rec>)
    requires Inv(log, s, dropped) && HoldsUnrecorded(s) && s'.held.Some? && s'.held.value.rec == s.held.value.rec
    requires s' == s.(held := s'.held, errors := s'.errors, dlqAcked := s'.dlqAcked, dlqTopic := s'.dlqTopic)
    requires !IsValid(log, s.held.value.rec) && s.errors <= s'.errors
    requires HoldsUnrecorded(s') || s.held.value.rec in s'.errors
    ensures Inv(log, s', dropped)
  {
    hide IsValid;
    assert Pending(s') == Pending(s);
  }

  lemma DlqSendKeeps(log: Log, en: bool, s: State, dropped: set<Rec>, io: IO)
    requires Inv(log, s, dropped)
    ensures Inv(log, Step(log, en, s, SendDlq(io)), dropped)
  {
    hide IsValid, Inv;
    var s' := Step(log, en, s, SendDlq(io));
    if s' != s { StageKeeps(log, s, s', dropped); }
  }

  lemma DlqRecordKeeps(log: Log, en: bool, s: State, dropped: set<Rec>, io: IO)
    requires Inv(log, s, dropped)
    ensures Inv(log, Step(log, en, s, RecordError(io)), dropped)
  {
    hide IsValid, Inv;
    if s.held.Some? && s.held.value.stage.Sent? {
      SentIsInvalid(log, s, dropped);
      var s' := Step(log, en, s, RecordError(io));
      var t := s'.(dlqCount := s.dlqCount);
      StageKeeps(log, s, t, dropped);
      CountersDoNotMatter(log, t, s', dropped);
    }
  }

  lemma SentIsInvalid(log: Log, s: State, dropped: set<Rec>)
    requires Inv(log, s, dropped) && s.held.Some? && !s.held.value.stage.Fetched?
    ensures !IsValid(log, s.held.value.rec)
  {
  }

  lemma DlqCommitKeeps(log: Log, en: bool, s: State, dropped: set<Rec>, io: IO)
    requires Inv(log, s, dropped)
    ensures Inv(log, Step(log, en, s, CommitDlq(io)), dropped)
  {
    hide IsValid, CommitBatch;
    if s.held.Some? && s.held.value.stage.Recorded? {
      var s' := Step(log, en, s, CommitDlq(io));
      var h := s.held.value.rec;
      forall r ensures r in Pending(s) <==> r in Pending(s') || r == h {
        PendingMember(s, r);
        PendingMember(s', r);
      }
      PastLastOne(h, h.partition);
      forall p ensures At(s'.committed, p) <= At(s.next, p) {
        CommitBatchAt(s.committed, [h], {h.partition}, p);
      }
    }
  }

  lemma PastLastOne(r: Rec, p: nat)
    ensures PastLast([r], p) == if r.partition == p then r.offset + 1 else 0
  {
    assert [r][..0] == [];
  }

  lemma StartFlushKeeps(log: Log, en: bool, s: State, dropped: set<Rec>)
    requires Inv(log, s, dropped)
    ensures Inv(log, Step(log, en, s, StartFlush), dropped)
  {
    hide IsValid;
    if s.buffer != [] {
      var s' := Step(log, en, s, StartFlush);
      var f := Flight(s.buffer, Inserting(0));
      assert f in s'.flights && forall g :: g in s'.flights <==> g in s.flights || g == f;
      forall r ensures r in Pending(s') <==> r in Pending(s) {
        PendingMember(s, r);
        PendingMember(s', r);
      }
    }
  }

  lemma PhasePending(s: State, s': State, i: nat, phase: Phase)
    requires i < |s.flights| && s'.flights == s.flights[i := s.flights[i].(phase := phase)]
    requires s'.buffer == s.buffer && s'.held == s.held
    ensures forall r :: r in Pending(s') <==> r in Pending(s)
    ensures s.flights[i] in s.flights
    ensures forall x :: x in s'.flights ==> x == s.flights[i].(phase := phase) || x in s.flights
  {
    var f, g := s.flights[i], s.flights[i].(phase := phase);
    assert s'.flights[i] == g && g in s'.flights;
    forall x | x in s.flights ensures x == f || x in s'.flights {
      var k :| 0 <= k < |s.flights| && s.flights[k] == x;
      assert x != f ==> s'.flights[k] == x;
    }
    forall r ensures r in Pending(s') <==> r in Pending(s) {
      PendingMember(s, r);
      PendingMember(s', r);
    }
  }

  /** A flush's highest offset lies below the fetch position, and below the held message. */
  lemma PastLastWithin(log: Log, s: State, dropped: set<Rec>, i: nat, p: nat)
    requires Inv(log, s, dropped) && i < |s.flights|
    ensures PastLast(s.flights[i].batch, p) <= At(s.next, p)
    ensures s.held.Some? && s.held.value.rec.partition == p ==>
      PastLast(s.flights[i].batch, p) <= s.held.value.rec.offset
  {
    hide IsValid, Pending, NothingForgotten, ErrorsKept, FlightsSound, PastLast;
    var f := s.flights[i];
    assert f in s.flights;
    forall r | r in f.batch && r.partition == p ensures r.offset < At(s.next, p) { PendingMember(s, r); }
    PastLastBound(f.batch, p, At(s.next, p));
    if s.held.Some? { PastLastBound(f.batch, p, s.held.value.rec.offset); }
  }

  /** Replacing one flush by the same batch in another phase, with the raw table at least as full. */
  lemma PhaseKeeps(log: Log, s: State, dropped: set<Rec>, i: nat, phase: Phase, raw: multiset<Rec>,
      committed: map<nat, nat>)
    requires Inv(log, s, dropped) && i < |s.flights| && s.raw <= raw
    requires !phase.Inserting? ==> forall r :: r in s.flights[i].batch ==> r in raw
    requires forall p :: At(committed, p) <= At(s.committed, p) || At(committed, p) == PastLast(s.flights[i].batch, p)
    ensures Inv(log, s.(raw := raw, committed := committed, flights := s.flights[i := s.flights[i].(phase := phase)]),
      dropped)
  {
    hide IsValid, Pending, PastLast;
    var s' := s.(raw := raw, committed := committed, flights := s.flights[i := s.flights[i].(phase := phase)]);
    PhasePending(s, s', i, phase);
    forall p ensures At(committed, p) <= At(s.next, p) {
      PastLastWithin(log, s, dropped, i, p);
    }
    if s.held.Some? { PastLastWithin(log, s, dropped, i, s.held.value.rec.partition); }
  }

  /** Ending one flush whose rows are all in the raw table. */
  lemma EndFlightKeeps(log: Log, s: State, dropped: set<Rec>, i: nat)
    requires Inv(log, s, dropped) && i < |s.flights| && !s.flights[i].phase.Inserting?
    ensures Inv(log, s.(flights := RemoveAt(s.flights, i)), dropped)
  {
    hide IsValid;
    var f := s.flights[i];
    var s' := s.(flights := RemoveAt(s.flights, i));
    assert f in s.flights;
    assert forall x :: x in s.flights ==> x == f || x in s'.flights by {
      forall x | x in s.flights && x != f ensures x in s'.flights {
        var k :| 0 <= k < |s.flights| && s.flights[k] == x;
        assert s.flights[k] in s'.flights;
      }
    }
    forall r ensures (r in Pending(s') ==> r in Pending(s)) && (r in Pending(s) ==> r in Pending(s') || r in s.raw) {
      PendingMember(s, r);
      PendingMember(s', r);
    }
  }

  lemma InsertKeeps(log: Log, en: bool, s: State, dropped: set<Rec>, i: nat, ok: bool, applied: seq<Rec>)
    requires Inv(log, s, dropped)
    ensures Inv(log, Step(log, en, s, InsertAttempt(i, ok, applied)), dropped)
  {
    hide IsValid, Inv, Pending;
    if CanInsert(s, i, applied) {
      var f := s.flights[i];
      if ok {
        PhaseKeeps(log, s, dropped, i, Inserted, s.raw + multiset(f.batch), s.committed);
      } else {
        PhaseKeeps(log, s, dropped, i, Inserting(f.phase.failures + 1), s.raw + multiset(applied), s.committed);
      }
    }
  }

  lemma PutBackPending(s: State, s': State, i: nat)
    requires i < |s.flights|
    requires s' == s.(buffer := s.flights[i].batch + s.buffer, flights := RemoveAt(s.flights, i))
    ensures forall r :: r in Pending(s') <==> r in Pending(s)
    ensures forall f :: f in s'.flights ==> f in s.flights
    ensures s.flights[i] in s.flights
  {
    var f := s.flights[i];
    assert forall x :: x in s.flights ==> x == f || x in s'.flights by {
      forall x | x in s.flights && x != f ensures x in s'.flights {
        var k :| 0 <= k < |s.flights| && s.flights[k] == x;
        assert s.flights[k] in s'.flights;
      }
    }
    forall r ensures r in Pending(s') <==> r in Pending(s) {
      PendingMember(s, r);
      PendingMember(s', r);
    }
  }

  lemma PutBackKeeps(log: Log, en: bool, s: State, dropped: set<Rec>, i: nat)
    requires Inv(log, s, dropped)
    ensures Inv(log, Step(log, en, s, PutBack(i)), dropped)
  {
    hide IsValid, Pending;
    if i < |s.flights| && s.flights[i].phase.Inserting? && s.flights[i].phase.failures > 0 {
      PutBackPending(s, Step(log, en, s, PutBack(i)), i);
    }
  }

  lemma CommitKeeps(log: Log, en: bool, s: State, dropped: set<Rec>, i: nat, ok: bool, partitions: set<nat>)
    requires Inv(log, s, dropped)
    ensures Inv(log, Step(log, en, s, CommitFlight(i, ok, partitions)), dropped)
  {
    hide IsValid, Pending, NothingForgotten, ErrorsKept, HeldIsLatest, Bounded;
    if i < |s.flights| && s.flights[i].phase.Inserted? {
      var f := s.flights[i];
      assert f in s.flights;
      var applied := if ok then PartitionsOf(f.batch) else partitions * PartitionsOf(f.batch);
      var committed := CommitBatch(s.committed, f.batch, applied);
      forall p ensures At(committed, p) <= At(s.committed, p) || At(committed, p) == PastLast(f.batch, p) {
        CommitBatchAt(s.committed, f.batch, applied, p);
      }
      PhaseKeeps(log, s, dropped, i, Committed, s.raw, committed);
      if !ok {
        var t := s.(committed := committed, flights := s.flights[i := f.(phase := Committed)]);
        assert s.(raw := s.raw) == s;
        EndFlightKeeps(log, t, dropped, i);
        assert RemoveAt(t.flights, i) == RemoveAt(s.flights, i);
        CountersDoNotMatter(log, t.(flights := RemoveAt(t.flights, i)),
          Step(log, en, s, CommitFlight(i, ok, partitions)), dropped);
      }
    }
  }

  lemma CountersDoNotMatter(log: Log, s: State, s': State, dropped: set<Rec>)
    requires Inv(log, s, dropped)
    requires s' == s.(consumed := s'.consumed, insertedRaw := s'.insertedRaw, dlqCount := s'.dlqCount,
      uncommitted := s'.uncommitted)
    ensures Inv(log, s', dropped)
  {
    hide IsValid;
    assert Pending(s') == Pending(s);
  }

  lemma CountKeeps(log: Log, en: bool, s: State, dropped: set<Rec>, i: nat)
    requires Inv(log, s, dropped)
    ensures Inv(log, Step(log, en, s, CountFlight(i)), dropped)
  {
    hide IsValid, Inv, Pending;
    if i < |s.flights| && s.flights[i].phase.Committed? {
      EndFlightKeeps(log, s, dropped, i);
      CountersDoNotMatter(log, s.(flights := RemoveAt(s.flights, i)), Step(log, en, s, CountFlight(i)), dropped);
    }
  }

  lemma CrashKeeps(log: Log, s: State, dropped: set<Rec>)
    requires Inv(log, s, dropped)
    ensures Inv(log, Restart(s), dropped + AtRisk(log, s))
  {
    hide IsValid;
    var s' := Restart(s);
    assert Pending(s') == {};
    forall r | IsValid(log, r) && r.offset < At(s'.next, r.partition)
      ensures r in s'.raw || r in dropped + AtRisk(log, s)
    {
      assert r.offset < At(s.next, r.partition);
    }
  }

  lemma StepKeeps(log: Log, en: bool, s: State, dropped: set<Rec>, a: Action)
    requires Inv(log, s, dropped)
    ensures Inv(log, Step(log, en, s, a), dropped + if a.Crash? then AtRisk(log, s) else {})
  {
    hide Inv;
    assert dropped + {} == dropped;
    match a
    case Fetch(p) => FetchKeeps(log, en, s, dropped, p);
    case AddToBuffer => AddKeeps(log, en, s, dropped);
    case SendDlq(io) => DlqSendKeeps(log, en, s, dropped, io);
    case RecordError(io) => DlqRecordKeeps(log, en, s, dropped, io);
    case CommitDlq(io) => DlqCommitKeeps(log, en, s, dropped, io);
    case StartFlush => StartFlushKeeps(log, en, s, dropped);
    case InsertAttempt(i, ok, applied) => InsertKeeps(log, en, s, dropped, i, ok, applied);
    case PutBack(i) => PutBackKeeps(log, en, s, dropped, i);
    case CommitFlight(i, ok, partitions) => CommitKeeps(log, en, s, dropped, i, ok, partitions);
    case CountFlight(i) => CountKeeps(log, en, s, dropped, i);
    case Crash => CrashKeeps(log, s, dropped);
  }

  lemma {:induction false} ExecKeeps(log: Log, en: bool, acts: seq<Action>)
    ensures Inv(log, Exec(log, en, acts), DroppedBy(log, en, acts))
  {
    if acts != [] {
      ExecKeeps(log, en, acts[..|acts| - 1]);
      StepKeeps(log, en, Exec(log, en, acts[..|acts| - 1]), DroppedBy(log, en, acts[..|acts| - 1]), acts[|acts| - 1]);
    }
  }
}
