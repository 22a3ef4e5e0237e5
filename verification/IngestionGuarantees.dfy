/** What the pipeline guarantees over all its runs, and the runs that show why it guarantees no more. */
module IngestionGuarantees {
  import opened Common
  import opened PageView
  import opened Ingestion

  /** Below the committed offset, so never to be fetched again, yet neither stored nor in memory. */
  predicate Missing(log: Log, s: State, r: Rec) {
    IsValid(log, r) && r.offset < At(s.committed, r.partition) && r !in s.raw && r !in Pending(s)
  }

  /** The n-th action of the run is a crash that catches r in memory only, already below the committed offset. */
  predicate CaughtAt(log: Log, en: bool, acts: seq<Action>, n: nat, r: Rec) {
    n < |acts| && acts[n].Crash? && r in AtRisk(log, Exec(log, en, acts[..n]))
  }

  lemma {:induction false} DroppedWasCaught(log: Log, en: bool, acts: seq<Action>, r: Rec) returns (n: nat)
    requires r in DroppedBy(log, en, acts)
    ensures CaughtAt(log, en, acts, n, r)
  {
    hide AtRisk;
    var m := |acts| - 1;
    if r in DroppedBy(log, en, acts[..m]) {
      n := DroppedWasCaught(log, en, acts[..m], r);
      assert acts[..m][..n] == acts[..n];
    } else {
      n := m;
    }
  }

  lemma {:induction false} CaughtIsDropped(log: Log, en: bool, acts: seq<Action>, n: nat, r: Rec)
    requires CaughtAt(log, en, acts, n, r)
    ensures r in DroppedBy(log, en, acts)
  {
    hide AtRisk, Exec;
    var m := |acts| - 1;
    if n < m {
      assert acts[..m][..n] == acts[..n];
      CaughtIsDropped(log, en, acts[..m], n, r);
    }
  }

  /** Where the current process started fetching: the committed offsets at the last crash. */
  function StartedAt(log: Log, en: bool, acts: seq<Action>): map<nat, nat> {
    if acts == [] then map[]
    else if acts[|acts| - 1].Crash? then Exec(log, en, acts[..|acts| - 1]).committed
    else StartedAt(log, en, acts[..|acts| - 1])
  }

  /**
   Commits may move back, but never below where the process started; and what earlier
   crashes dropped lies below that, so it can be neither fetched nor stored again.
   */
  ghost predicate AboveStart(s: State, start: map<nat, nat>, dropped: set<Rec>) {
    && (forall p :: At(start, p) <= At(s.committed, p) && At(start, p) <= At(s.next, p))
    && (forall r :: r in Pending(s) ==> At(start, r.partition) <= r.offset)
    && (forall r :: r in dropped ==> r.offset < At(start, r.partition) && r !in s.raw)
  }

  lemma {:induction false} PastLastWitness(batch: seq<Rec>, p: nat) returns (r: Rec)
    requires PastLast(batch, p) > 0
    ensures r in batch && r.partition == p && r.offset + 1 == PastLast(batch, p)
  {
    var last := batch[|batch| - 1];
    if last.partition == p && last.offset + 1 == PastLast(batch, p) {
      r := last;
    } else {
      r := PastLastWitness(batch[..|batch| - 1], p);
    }
  }

  /** A commit of messages at or above the start stays at or above it. */
  lemma CommitAboveStart(s: State, start: map<nat, nat>, dropped: set<Rec>, batch: seq<Rec>, applied: set<nat>, p: nat)
    requires AboveStart(s, start, dropped) && forall r :: r in batch ==> r in Pending(s)
    ensures At(start, p) <= At(CommitBatch(s.committed, batch, applied), p)
  {
    hide Pending;
    if p in applied && PastLast(batch, p) > 0 {
      var r := PastLastWitness(batch, p);
      assert r in Pending(s);
    }
  }

  lemma FlightPending(s: State, i: nat)
    requires i < |s.flights|
    ensures forall r :: r in s.flights[i].batch ==> r in Pending(s)
  {
    assert s.flights[i] in s.flights;
  }

  /** Only fetching brings a message into memory. */
  lemma PendingShrinks(log: Log, en: bool, s: State, a: Action)
    requires !a.Fetch?
    ensures forall r :: r in Pending(Step(log, en, s, a)) ==> r in Pending(s)
  {
    if a.AddToBuffer? || a.SendDlq? || a.RecordError? || a.CommitDlq? || a.StartFlush? || a.Crash? {
      RunLoopPending(log, en, s, a);
    } else {
      FlushPending(log, en, s, a);
    }
  }

  lemma RunLoopPending(log: Log, en: bool, s: State, a: Action)
    requires a.AddToBuffer? || a.SendDlq? || a.RecordError? || a.CommitDlq? || a.StartFlush? || a.Crash?
    ensures forall r :: r in Pending(Step(log, en, s, a)) ==> r in Pending(s)
  {
    hide IsValid, CommitBatch;
  }

  /** What these steps leave in memory: the same buffer or one batch more, and the same batches or one less. */
  lemma FlushShape(log: Log, en: bool, s: State, a: Action)
    requires (a.InsertAttempt? || a.PutBack? || a.CommitFlight? || a.CountFlight?) && Step(log, en, s, a) != s
    ensures
      var s' := Step(log, en, s, a);
      && a.i < |s.flights| && s'.held == s.held
      && (s'.buffer == s.buffer || s'.buffer == s.flights[a.i].batch + s.buffer)
      && forall f :: f in s'.flights ==> f in s.flights || f.batch == s.flights[a.i].batch
  {
    hide IsValid, CommitBatch;
    var s' := Step(log, en, s, a);
    forall f | f in s'.flights ensures f in s.flights || f.batch == s.flights[a.i].batch {
      var k :| 0 <= k < |s'.flights| && s'.flights[k] == f;
    }
  }

  lemma FlushPending(log: Log, en: bool, s: State, a: Action)
    requires a.InsertAttempt? || a.PutBack? || a.CommitFlight? || a.CountFlight?
    ensures forall r :: r in Pending(Step(log, en, s, a)) ==> r in Pending(s)
  {
    hide Step, Pending;
    var s' := Step(log, en, s, a);
    if s' != s {
      FlushShape(log, en, s, a);
      FlightPending(s, a.i);
      forall r | r in Pending(s') ensures r in Pending(s) {
        PendingMember(s, r);
        PendingMember(s', r);
      }
    }
  }

  lemma RawGrowsFromPending(log: Log, en: bool, s: State, a: Action)
    ensures forall r :: r in Step(log, en, s, a).raw ==> r in s.raw || r in Pending(s)
  {
    hide IsValid, CommitBatch, Pending;
    if a.InsertAttempt? && CanInsert(s, a.i, a.applied) {
      FlightPending(s, a.i);
      forall r | r in Step(log, en, s, a).raw ensures r in s.raw || r in s.flights[a.i].batch {
        assert r in s.raw || r in multiset(s.flights[a.i].batch) || r in multiset(a.applied);
      }
    }
  }

  lemma CommittedAboveStart(log: Log, en: bool, s: State, start: map<nat, nat>, dropped: set<Rec>, a: Action, p: nat)
    requires AboveStart(s, start, dropped) && !a.Crash?
    ensures At(start, p) <= At(Step(log, en, s, a).committed, p)
  {
    hide IsValid, Pending, CommitBatch;
    if a.CommitDlq? && s.held.Some? {
      HeldPending(s);
      CommitAboveStart(s, start, dropped, [s.held.value.rec], {s.held.value.rec.partition}, p);
    } else if a.CommitFlight? && a.i < |s.flights| {
      var f := s.flights[a.i];
      FlightPending(s, a.i);
      var applied := if a.ok then PartitionsOf(f.batch) else a.partitions * PartitionsOf(f.batch);
      CommitAboveStart(s, start, dropped, f.batch, applied, p);
    }
  }

  lemma StartStep(log: Log, en: bool, s: State, start: map<nat, nat>, dropped: set<Rec>, a: Action)
    requires AboveStart(s, start, dropped) && !a.Crash?
    ensures AboveStart(Step(log, en, s, a), start, dropped)
  {
    hide IsValid, Pending, CommitBatch;
    var s' := Step(log, en, s, a);
    RawGrowsFromPending(log, en, s, a);
    if a.Fetch? {
      FetchPending(log, en, s, a.partition);
    } else {
      PendingShrinks(log, en, s, a);
    }
    forall p ensures At(start, p) <= At(s'.committed, p) {
      CommittedAboveStart(log, en, s, start, dropped, a, p);
    }
  }

  lemma FetchPending(log: Log, en: bool, s: State, p: nat)
    ensures forall r :: r in Pending(Step(log, en, s, Fetch(p))) ==> r in Pending(s) || r == Rec(p, At(s.next, p))
  {
  }

  lemma HeldPending(s: State)
    requires s.held.Some?
    ensures s.held.value.rec in Pending(s)
  {
  }

  lemma {:induction false} StartInvariant(log: Log, en: bool, acts: seq<Action>)
    ensures AboveStart(Exec(log, en, acts), StartedAt(log, en, acts), DroppedBy(log, en, acts))
  {
    hide IsValid, Step;
    if acts != [] {
      var before, a := acts[..|acts| - 1], acts[|acts| - 1];
      StartInvariant(log, en, before);
      if a.Crash? {
        CrashAboveStart(log, Exec(log, en, before), StartedAt(log, en, before), DroppedBy(log, en, before));
        CrashIsRestart(log, en, Exec(log, en, before));
      } else {
        StartStep(log, en, Exec(log, en, before), StartedAt(log, en, before), DroppedBy(log, en, before), a);
      }
    }
  }

  lemma CrashIsRestart(log: Log, en: bool, s: State)
    ensures Step(log, en, s, Crash) == Restart(s)
  {
  }

  lemma CrashAboveStart(log: Log, s: State, start: map<nat, nat>, dropped: set<Rec>)
    requires AboveStart(s, start, dropped)
    ensures AboveStart(Restart(s), s.committed, dropped + AtRisk(log, s))
  {
    hide IsValid;
    assert Pending(Restart(s)) == {};
  }

  /**
   The exact loss.  Over every run with crashes, restarts, ambiguous inserts and
   commits, and overlapping flushes: a message is missing exactly when some crash of the
   run caught it in memory only, already below the committed offset.
   */
  lemma LossExactly(log: Log, en: bool, acts: seq<Action>, r: Rec)
    ensures Missing(log, Exec(log, en, acts), r) <==> exists n :: CaughtAt(log, en, acts, n, r)
  {
    hide Pending, AtRisk, Exec, DroppedBy, IsValid, CaughtAt, StartedAt;
    ExecKeeps(log, en, acts);
    StartInvariant(log, en, acts);
    var s := Exec(log, en, acts);
    assert At(s.committed, r.partition) <= At(s.next, r.partition);
    if Missing(log, s, r) {
      var n := DroppedWasCaught(log, en, acts, r);
    }
    if n :| CaughtAt(log, en, acts, n, r) {
      CaughtIsDropped(log, en, acts, n, r);
      assert At(StartedAt(log, en, acts), r.partition) <= At(s.committed, r.partition);
    }
  }

  /** What one crash does to the missing messages. */
  lemma CrashLosesExactly(log: Log, s: State, r: Rec)
    ensures Missing(log, Restart(s), r) <==> Missing(log, s, r) || r in AtRisk(log, s)
  {
    assert Pending(Restart(s)) == {};
  }

  lemma {:induction false} NoCrashNoLoss(log: Log, en: bool, acts: seq<Action>)
    requires forall a :: a in acts ==> !a.Crash?
    ensures DroppedBy(log, en, acts) == {}
  {
    if acts != [] {
      assert acts[|acts| - 1] in acts;
      NoCrashNoLoss(log, en, acts[..|acts| - 1]);
    }
  }

  /** A run without a crash loses nothing. */
  lemma CrashFreeRunIsComplete(log: Log, en: bool, acts: seq<Action>, r: Rec)
    requires forall a :: a in acts ==> !a.Crash?
    ensures !Missing(log, Exec(log, en, acts), r)
  {
    hide Pending, Exec, DroppedBy, IsValid;
    ExecKeeps(log, en, acts);
    NoCrashNoLoss(log, en, acts);
    var s := Exec(log, en, acts);
    assert At(s.committed, r.partition) <= At(s.next, r.partition);
  }

  /** Invalid messages are never lost, crashes or not: below the committed offset each has its processing_errors row. */
  lemma InvalidNeverLost(log: Log, en: bool, acts: seq<Action>, r: Rec)
    requires !IsValid(log, r) && r.offset < At(Exec(log, en, acts).committed, r.partition)
    ensures r in Exec(log, en, acts).errors
  {
    hide Pending, Exec, DroppedBy, IsValid;
    ExecKeeps(log, en, acts);
    var s := Exec(log, en, acts);
    assert At(s.committed, r.partition) <= At(s.next, r.partition);
  }

  ghost predicate SendsCoverErrors(s: State) {
    forall r :: s.errors[r] + (if s.held == Some(Held(r, Sent)) then 1 else 0) <= s.dlqAcked[r] <= s.dlqTopic[r]
  }

  /** With the dead-letter queue enabled, a message never has more error rows than acknowledged dead-letter sends. */
  lemma {:induction false} ErrorsNeverOutnumberSends(log: Log, acts: seq<Action>)
    ensures SendsCoverErrors(Exec(log, true, acts))
  {
    hide IsValid;
    if acts != [] {
      ErrorsNeverOutnumberSends(log, acts[..|acts| - 1]);
      SendsStep(log, Exec(log, true, acts[..|acts| - 1]), acts[|acts| - 1]);
    }
  }

  lemma SendsStep(log: Log, s: State, a: Action)
    requires SendsCoverErrors(s)
    ensures SendsCoverErrors(Step(log, true, s, a))
  {
    hide IsValid, Step;
    var s' := Step(log, true, s, a);
    match a
    case SendDlq(io) => SendStep(log, s, io);
    case RecordError(io) => RecordStep(log, s, io);
    case _ =>
      OtherSteps(log, s, a);
      assert forall r :: s'.held == Some(Held(r, Sent)) ==> s.held == s'.held;
  }

  lemma SendStep(log: Log, s: State, io: IO)
    requires SendsCoverErrors(s)
    ensures SendsCoverErrors(Step(log, true, s, SendDlq(io)))
  {
    hide IsValid;
  }

  lemma RecordStep(log: Log, s: State, io: IO)
    requires SendsCoverErrors(s)
    ensures SendsCoverErrors(Step(log, true, s, RecordError(io)))
  {
  }

  lemma OtherSteps(log: Log, s: State, a: Action)
    requires !a.SendDlq? && !a.RecordError?
    ensures
      var s' := Step(log, true, s, a);
      && s'.errors == s.errors && s'.dlqAcked == s.dlqAcked && s'.dlqTopic == s.dlqTopic
      && (s'.held == s.held || s'.held.None? || s'.held.value.stage.Fetched?)
  {
    hide IsValid, CommitBatch, CanInsert;
  }

  // ---------------------------------------------------------------- accounting

  function InFlight(flights: seq<Flight>): nat {
    if flights == [] then 0 else InFlight(flights[..|flights| - 1]) + |flights[|flights| - 1].batch|
  }

  lemma {:induction false} InFlightConcat(a: seq<Flight>, b: seq<Flight>)
    ensures InFlight(a + b) == InFlight(a) + InFlight(b)
  {
    if b == [] {
      assert a + b == a;
    } else {
      assert (a + b)[..|a + b| - 1] == a + b[..|b| - 1];
      InFlightConcat(a, b[..|b| - 1]);
    }
  }

  lemma InFlightAt(fs: seq<Flight>, i: nat)
    requires i < |fs|
    ensures InFlight(fs) == InFlight(fs[..i]) + |fs[i].batch| + InFlight(fs[i + 1..])
  {
    hide InFlight;
    assert fs == fs[..i] + [fs[i]] + fs[i + 1..];
    InFlightConcat(fs[..i] + [fs[i]], fs[i + 1..]);
    InFlightConcat(fs[..i], [fs[i]]);
    InFlightOne(fs[i]);
  }

  lemma InFlightSplit(fs: seq<Flight>, i: nat)
    requires i < |fs|
    ensures InFlight(RemoveAt(fs, i)) + |fs[i].batch| == InFlight(fs)
    ensures forall phase :: InFlight(fs[i := fs[i].(phase := phase)]) == InFlight(fs)
  {
    hide InFlight;
    InFlightAt(fs, i);
    InFlightConcat(fs[..i], fs[i + 1..]);
    assert RemoveAt(fs, i) == fs[..i] + fs[i + 1..];
    forall phase ensures InFlight(fs[i := fs[i].(phase := phase)]) == InFlight(fs) {
      var gs := fs[i := fs[i].(phase := phase)];
      InFlightAt(gs, i);
      assert gs[..i] == fs[..i] && gs[i + 1..] == fs[i + 1..];
    }
  }

  lemma InFlightOne(f: Flight)
    ensures InFlight([f]) == |f.batch|
  {
    assert [f][..0] == [];
  }

  /** The message Run holds counts until it is recorded in the dead-letter counter or put in the buffer. */
  function HeldCount(held: Option<Held>): nat {
    if held.Some? && !held.value.stage.Recorded? then 1 else 0
  }

  predicate Balanced(s: State) {
    s.consumed == s.dlqCount + s.insertedRaw + |s.buffer| + InFlight(s.flights) + s.uncommitted + HeldCount(s.held)
  }

  /** Every message the process has consumed is in exactly one place, in every reachable state. */
  lemma {:induction false} Accounting(log: Log, en: bool, acts: seq<Action>)
    ensures Balanced(Exec(log, en, acts))
    ensures
      var s := Exec(log, en, acts);
      s.consumed == s.dlqCount + s.insertedRaw + |s.buffer| + InFlight(s.flights) + s.uncommitted
        + if s.held.Some? && !s.held.value.stage.Recorded? then 1 else 0
  {
    if acts != [] {
      Accounting(log, en, acts[..|acts| - 1]);
      ExecKeeps(log, en, acts[..|acts| - 1]);
      AccountingStep(log, en, Exec(log, en, acts[..|acts| - 1]), acts[|acts| - 1]);
    }
  }

  lemma AccountingStep(log: Log, en: bool, s: State, a: Action)
    requires Balanced(s) && FlightsSound(log, s)
    ensures Balanced(Step(log, en, s, a))
  {
    if a.Fetch? || a.AddToBuffer? || a.SendDlq? || a.RecordError? || a.CommitDlq? {
      RunLoopAccounting(log, en, s, a);
    } else {
      FlushAccounting(log, en, s, a);
    }
  }

  lemma RunLoopAccounting(log: Log, en: bool, s: State, a: Action)
    requires Balanced(s) && FlightsSound(log, s)
    requires a.Fetch? || a.AddToBuffer? || a.SendDlq? || a.RecordError? || a.CommitDlq?
    ensures Balanced(Step(log, en, s, a))
  {
    hide IsValid, CommitBatch, InFlight;
  }

  lemma FlushAccounting(log: Log, en: bool, s: State, a: Action)
    requires Balanced(s)
    requires a.StartFlush? || a.InsertAttempt? || a.PutBack? || a.CommitFlight? || a.CountFlight? || a.Crash?
    ensures Balanced(Step(log, en, s, a))
  {
    hide IsValid, CommitBatch, InFlight;
    match a
    case StartFlush =>
      InFlightConcat(s.flights, [Flight(s.buffer, Inserting(0))]);
      InFlightOne(Flight(s.buffer, Inserting(0)));
    case InsertAttempt(i, _, _) => if i < |s.flights| { InFlightSplit(s.flights, i); }
    case PutBack(i) => if i < |s.flights| { InFlightSplit(s.flights, i); }
    case CommitFlight(i, _, _) => if i < |s.flights| { InFlightSplit(s.flights, i); }
    case CountFlight(i) => if i < |s.flights| { InFlightSplit(s.flights, i); }
    case Crash => NothingInFlight();
  }

  lemma NothingInFlight()
    ensures InFlight([]) == 0
  {
  }
}
