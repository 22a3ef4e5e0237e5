/**
 The aggregator's consumer as it runs: each method does its work on the buffer, the
 stores and the counters, and is proved to take steps of the Ingestion machine only.
 Outcomes of the external stores and the cancellation of the context are parameters.
 The methods run between two actions of other flushes; those are in the field flights.
 */
module AggregatorConsumer {
  import opened Common
  import opened PageView
  import opened Ingestion
  import IngestionGuarantees
  import W = IngestionWatermark
  import R = Runs
  import Buffers = Buffer

  /** One InsertRawBatch call: it succeeds, or fails after some first rows were written. */
  datatype InsertOutcome = Inserts | Breaks(written: nat)

  /** One handleError call: the dead-letter send, then the processing_errors insert. */
  datatype DlqOutcome = DlqOutcome(send: IO, record: IO)
  {
    predicate Succeeds(dlqEnabled: bool) {
      (!dlqEnabled || send.Ok?) && record.Ok?
    }
  }

  const DLQ_ATTEMPTS := 10

  /** The pipeline machine as a step function. */
  function Machine(log: Log, en: bool): (State, Action) -> State {
    (s, a) => Step(log, en, s, a)
  }

  ghost predicate NoCrash(acts: seq<Action>) {
    forall a :: a in acts ==> !a.Crash?
  }

  ghost predicate NoFlush(acts: seq<Action>) {
    forall a :: a in acts ==> !a.StartFlush?
  }

  /** A flush of the trace starts only when no flush but those already running at its beginning is under way. */
  ghost predicate Serial(log: Log, en: bool, from: State, trace: seq<Action>) {
    forall n: nat {:trigger trace[n]} :: n < |trace| && trace[n].StartFlush? ==>
      R.Steps(Machine(log, en), from, trace[..n]).flights == from.flights
  }

  /**
   The trace takes the machine from one state to the other without a crash, and without overlapping
   its own flushes.
   */
  ghost predicate Path(log: Log, en: bool, from: State, trace: seq<Action>, to: State) {
    R.Path(Machine(log, en), from, trace, to) && NoCrash(trace) && Serial(log, en, from, trace)
  }

  lemma PathExtend(log: Log, en: bool, from: State, trace: seq<Action>, mid: State, a: Action, to: State)
    requires Path(log, en, from, trace, mid) && !a.Crash? && to == Step(log, en, mid, a)
    requires a.StartFlush? ==> mid.flights == from.flights
    ensures Path(log, en, from, trace + [a], to)
  {
    hide Step;
    R.PathExtend(Machine(log, en), from, trace, mid, a, to);
    var longer := trace + [a];
    forall n: nat | n < |longer| && longer[n].StartFlush?
      ensures R.Steps(Machine(log, en), from, longer[..n]).flights == from.flights
    {
      if n < |trace| {
        assert longer[n] == trace[n] && longer[..n] == trace[..n];
      } else {
        assert longer[..n] == trace;
      }
    }
  }

  lemma PathJoin(log: Log, en: bool, from: State, t1: seq<Action>, mid: State, t2: seq<Action>, to: State)
    requires Path(log, en, from, t1, mid) && Path(log, en, mid, t2, to)
    requires mid.flights == from.flights || NoFlush(t2)
    ensures Path(log, en, from, t1 + t2, to)
  {
    hide Step, R.Steps;
    R.PathJoin(Machine(log, en), from, t1, mid, t2, to);
    var t := t1 + t2;
    forall n: nat | n < |t| && t[n].StartFlush?
      ensures R.Steps(Machine(log, en), from, t[..n]).flights == from.flights
    {
      if n < |t1| {
        assert t[n] == t1[n] && t[..n] == t1[..n];
      } else {
        var m := n - |t1|;
        assert t[n] == t2[m] && t2[m] in t2 && t[..n] == t1 + t2[..m];
        PrefixJoin(log, en, from, t1, mid, t2[..m]);
      }
    }
  }

  lemma PrefixJoin(log: Log, en: bool, from: State, t1: seq<Action>, mid: State, t2: seq<Action>)
    requires R.Path(Machine(log, en), from, t1, mid)
    ensures R.Steps(Machine(log, en), from, t1 + t2) == R.Steps(Machine(log, en), mid, t2)
  {
    hide Step;
    R.PathJoin(Machine(log, en), from, t1, mid, t2, R.Steps(Machine(log, en), mid, t2));
  }

  lemma PathEmpty(log: Log, en: bool, s: State)
    ensures Path(log, en, s, [], s) && NoFlush([])
  {
  }

  /** The rows one InsertRawBatch call leaves in the table. */
  function RowsWritten(rows: seq<Rec>, outcome: InsertOutcome): seq<Rec> {
    match outcome
    case Inserts => rows
    case Breaks(written) => rows[..if written < |rows| then written else |rows|]
  }

  lemma InsertIsStep(log: Log, en: bool, s: State, i: nat, outcome: InsertOutcome)
    requires i < |s.flights| && s.flights[i].phase.Inserting? && s.flights[i].phase.failures < INSERT_ATTEMPTS
    ensures
      var f := s.flights[i];
      var phase := if outcome.Inserts? then Inserted else Inserting(f.phase.failures + 1);
      Step(log, en, s, InsertAttempt(i, outcome.Inserts?, RowsWritten(f.batch, outcome)))
        == s.(raw := s.raw + multiset(RowsWritten(f.batch, outcome)), flights := s.flights[i := Flight(f.batch, phase)])
  {
    assert CanInsert(s, i, RowsWritten(s.flights[i].batch, outcome));
  }

  lemma StartFlushIsStep(log: Log, en: bool, s: State)
    requires s.buffer != []
    ensures Step(log, en, s, StartFlush) == s.(buffer := [], flights := s.flights + [Flight(s.buffer, Inserting(0))])
  {
  }

  lemma PutBackIsStep(log: Log, en: bool, s: State, others: seq<Flight>, f: Flight)
    requires s.flights == others + [f] && f.phase.Inserting? && f.phase.failures > 0
    ensures Step(log, en, s, PutBack(|others|)) == s.(buffer := f.batch + s.buffer, flights := others)
  {
    assert RemoveAt(s.flights, |others|) == others;
  }

  lemma CommitIsStep(log: Log, en: bool, s: State, others: seq<Flight>, f: Flight, ok: bool, applied: set<nat>)
    requires s.flights == others + [f] && f.phase.Inserted?
    ensures
      var t := Step(log, en, s, CommitFlight(|others|, ok, applied));
      t == if ok
           then s.(committed := CommitBatch(s.committed, f.batch, PartitionsOf(f.batch)),
             flights := others + [Flight(f.batch, Committed)])
           else s.(committed := CommitBatch(s.committed, f.batch, applied * PartitionsOf(f.batch)), flights := others,
                   uncommitted := s.uncommitted + |f.batch|)
  {
    assert RemoveAt(s.flights, |others|) == others;
    assert s.flights[|others| := Flight(f.batch, Committed)] == others + [Flight(f.batch, Committed)];
  }

  lemma CountIsStep(log: Log, en: bool, s: State, others: seq<Flight>, f: Flight)
    requires s.flights == others + [f] && f.phase.Committed?
    ensures Step(log, en, s, CountFlight(|others|)) == s.(flights := others, insertedRaw := s.insertedRaw + |f.batch|)
  {
    assert RemoveAt(s.flights, |others|) == others;
  }

  lemma DlqIsStep(log: Log, en: bool, s: State, r: Rec)
    requires s.held.Some? && s.held.value.rec == r && !IsValid(log, r)
    ensures s.held.value.stage.Fetched? ==>
      && (!en ==> forall io :: Step(log, en, s, SendDlq(io)) == s.(held := Some(Held(r, Sent))))
      && (en ==>
            Step(log, en, s, SendDlq(Ok))
              == s.(held := Some(Held(r, Sent)), dlqAcked := s.dlqAcked + multiset{r},
                dlqTopic := s.dlqTopic + multiset{r}))
      && (en ==> Step(log, en, s, SendDlq(FailedButApplied)) == s.(dlqTopic := s.dlqTopic + multiset{r}))
      && (en ==> Step(log, en, s, SendDlq(Failed)) == s)
    ensures s.held.value.stage.Sent? ==>
      && Step(log, en, s, RecordError(Ok)) ==
           s.(held := Some(Held(r, Recorded)), errors := s.errors + multiset{r}, dlqCount := s.dlqCount + 1)
      && Step(log, en, s, RecordError(FailedButApplied))
        == s.(held := Some(Held(r, Fetched)), errors := s.errors + multiset{r})
      && Step(log, en, s, RecordError(Failed)) == s.(held := Some(Held(r, Fetched)))
    ensures s.held.value.stage.Recorded? ==>
      forall io :: Step(log, en, s, CommitDlq(io)) ==
        s.(held := None, committed := if io.Failed? then s.committed else CommitBatch(s.committed, [r], {r.partition}))
  {
    hide IsValid, CommitBatch;
  }

  lemma FetchIsStep(log: Log, en: bool, s: State, p: nat)
    requires s.held.None?
    ensures Step(log, en, s, Fetch(p)) ==
      s.(held := Some(Held(Rec(p, At(s.next, p)), Fetched)), next := s.next[p := At(s.next, p) + 1],
        consumed := s.consumed + 1)
  {
  }

  lemma AddIsStep(log: Log, en: bool, s: State, r: Rec)
    requires s.held.Some? && s.held.value.rec == r && IsValid(log, r)
    ensures Step(log, en, s, AddToBuffer) == s.(held := None, buffer := s.buffer + [r])
  {
    hide IsValid;
  }

  /** The outcome of one CommitMessages call: acknowledged, or an error after some partitions took it. */
  datatype CommitOutcome = Acked | Errored(applied: set<nat>)

  /** One handleErrorWithRetry call: up to ten attempts, given up before attempt cancelAt when the context ends. */
  datatype DlqRound = DlqRound(attempts: seq<DlqOutcome>, cancelAt: nat)
  {
    predicate Sound() {
      |attempts| == DLQ_ATTEMPTS && 0 < cancelAt
    }

    predicate Succeeds(dlqEnabled: bool)
      requires Sound()
    {
      exists k :: 0 <= k < DLQ_ATTEMPTS && k < cancelAt && attempts[k].Succeeds(dlqEnabled)
    }
  }

  /** Everything the environment decides about one flush. */
  datatype FlushEnv = FlushEnv(inserts: seq<InsertOutcome>, cancelAt: nat, commit: CommitOutcome)
  {
    predicate Sound() {
      |inserts| == INSERT_ATTEMPTS && 0 < cancelAt
    }

    predicate InsertSucceeds()
      requires Sound()
    {
      exists k :: 0 <= k < INSERT_ATTEMPTS && k < cancelAt && inserts[k].Inserts?
    }
  }

  /**
   Everything the environment decides about one message: its partition, the rounds of
   the dead-letter path before the context ends, its commit, and the flush it may trigger.
   */
  datatype MessageEnv = MessageEnv(partition: nat, rounds: seq<DlqRound>, dlqCommit: IO, flush: FlushEnv, spare: nat)
  {
    predicate Sound() {
      flush.Sound() && forall k :: 0 <= k < |rounds| ==> rounds[k].Sound()
    }
  }

  /** The machine's side of committing an inserted flush. */
  lemma CommitPath(log: Log, en: bool, s: State, others: seq<Flight>, rows: seq<Rec>, outcome: CommitOutcome)
    returns (trace: seq<Action>, to: State)
    requires s.flights == others + [Flight(rows, Inserted)]
    ensures Path(log, en, s, trace, to) && NoFlush(trace)
    ensures to == match outcome
      case Acked => s.(committed := CommitBatch(s.committed, rows, PartitionsOf(rows)), flights := others,
        insertedRaw := s.insertedRaw + |rows|)
      case Errored(applied) =>
        s.(committed := CommitBatch(s.committed, rows, applied * PartitionsOf(rows)), flights := others,
          uncommitted := s.uncommitted + |rows|)
  {
    hide Step, Path, CommitBatch, PartitionsOf;
    var f, n := Flight(rows, Inserted), |others|;
    PathEmpty(log, en, s);
    if outcome.Errored? {
      CommitIsStep(log, en, s, others, f, false, outcome.applied);
      trace := [] + [CommitFlight(n, false, outcome.applied)];
      to := Step(log, en, s, CommitFlight(n, false, outcome.applied));
      PathExtend(log, en, s, [], s, CommitFlight(n, false, outcome.applied), to);
    } else {
      CommitIsStep(log, en, s, others, f, true, {});
      var mid := Step(log, en, s, CommitFlight(n, true, {}));
      PathExtend(log, en, s, [], s, CommitFlight(n, true, {}), mid);
      CountIsStep(log, en, mid, others, Flight(rows, Committed));
      to := Step(log, en, mid, CountFlight(n));
      PathExtend(log, en, s, [] + [CommitFlight(n, true, {})], mid, CountFlight(n), to);
      trace := [] + [CommitFlight(n, true, {})] + [CountFlight(n)];
    }
  }

  lemma AllWritten(rows: seq<Rec>, raw: multiset<Rec>, before: multiset<Rec>)
    requires raw == before + multiset(RowsWritten(rows, Inserts))
    ensures multiset(rows) <= raw
  {
  }

  /** A commit of one message. */
  lemma CommitOne(committed: map<nat, nat>, r: Rec)
    ensures CommitBatch(committed, [r], {r.partition}) == committed[r.partition := r.offset + 1]
  {
    assert [r][..0] == [];
    assert PastLast([r], r.partition) == r.offset + 1;
  }

  /** One flush, from state to state. */
  ghost predicate Flushed(s: State, env: FlushEnv, t: State)
    requires env.Sound()
  {
    if s.buffer == [] then t == s
    else if env.InsertSucceeds() then
      && t.buffer == [] && multiset(s.buffer) <= t.raw
      && t.committed == CommitBatch(s.committed, s.buffer,
           if env.commit.Acked? then PartitionsOf(s.buffer) else env.commit.applied * PartitionsOf(s.buffer))
      && t.insertedRaw == s.insertedRaw + if env.commit.Acked? then |s.buffer| else 0
    else t.buffer == s.buffer && t.committed == s.committed && t.insertedRaw == s.insertedRaw
  }

  ghost predicate SignalsSound(signals: seq<FlushEnv>) {
    forall k :: 0 <= k < |signals| ==> signals[k].Sound()
  }

  /** k flushes one after the other; first is the first of them that succeeds, and k if none does. */
  ghost predicate FlushedInTurn(s: State, signals: seq<FlushEnv>, k: nat, first: nat, t: State)
    requires SignalsSound(signals)
  {
    && first <= k <= |signals| && (forall j :: 0 <= j < first ==> !signals[j].InsertSucceeds())
    && (first < k ==> signals[first].InsertSucceeds() && t.buffer == [] && Flushed(s, signals[first], t))
    && (first == k ==> t.buffer == s.buffer && t.committed == s.committed && t.insertedRaw == s.insertedRaw)
  }

  lemma FlushOnce(s: State, signals: seq<FlushEnv>, k: nat, first: nat, mid: State, t: State) returns (first': nat)
    requires SignalsSound(signals) && k < |signals|
    requires FlushedInTurn(s, signals, k, first, mid) && Flushed(mid, signals[k], t)
    requires s.buffer == [] ==> mid == s
    ensures FlushedInTurn(s, signals, k + 1, first', t) && (s.buffer == [] ==> t == s)
  {
    hide CommitBatch, PartitionsOf, FlushEnv.InsertSucceeds;
    first' := if first < k || signals[k].InsertSucceeds() then first else k + 1;
  }

  lemma FlushesSpelled(s: State, signals: seq<FlushEnv>, first: nat, t: State)
    requires SignalsSound(signals) && FlushedInTurn(s, signals, |signals|, first, t)
    ensures
      if exists k :: 0 <= k < |signals| && signals[k].InsertSucceeds() then
        t.buffer == [] && (s.buffer != [] ==> multiset(s.buffer) <= t.raw)
      else t.buffer == s.buffer && t.committed == s.committed && t.insertedRaw == s.insertedRaw
    ensures forall k ::
      s.buffer != [] && 0 <= k < |signals| && signals[k].InsertSucceeds() ==>
      (forall j :: 0 <= j < k ==> !signals[j].InsertSucceeds()) ==>
      && t.committed == CommitBatch(s.committed, s.buffer, if signals[k].commit.Acked?
           then PartitionsOf(s.buffer) else signals[k].commit.applied * PartitionsOf(s.buffer))
      && t.insertedRaw == s.insertedRaw + if signals[k].commit.Acked? then |s.buffer| else 0
  {
    hide CommitBatch, PartitionsOf, FlushEnv.InsertSucceeds;
    forall k |
      0 <= k < |signals| && signals[k].InsertSucceeds() && forall j :: 0 <= j < k ==> !signals[j].InsertSucceeds()
      ensures k == first
    {
    }
  }

  lemma NoFlushYet(s: State, signals: seq<FlushEnv>)
    requires SignalsSound(signals)
    ensures FlushedInTurn(s, signals, 0, 0, s)
  {
  }

  // ---------------------------------------------------------------- turns of the fetch loop

  /** What buffering a valid message leaves: the message last in the buffer, or at the size limit perhaps a flush. */
  ghost predicate Accepted(maxSize: nat, s: State, r: Rec, flush: FlushEnv, t: State)
    requires flush.Sound()
  {
    var batch := s.buffer + [r];
    && t.held == None && t.dlqCount == s.dlqCount && t.errors == s.errors && s.raw <= t.raw
    && if |batch| >= maxSize && flush.InsertSucceeds() then
         && t.buffer == [] && multiset(batch) <= t.raw
         && t.committed == CommitBatch(s.committed, batch,
              if flush.commit.Acked? then PartitionsOf(batch) else flush.commit.applied * PartitionsOf(batch))
         && t.insertedRaw == s.insertedRaw + if flush.commit.Acked? then |batch| else 0
       else
         t.buffer == batch && t.committed == s.committed && t.insertedRaw == s.insertedRaw
  }

  lemma AcceptedIs(maxSize: nat, s: State, r: Rec, flush: FlushEnv, mid: State, shouldFlush: bool, t: State)
    requires flush.Sound() && mid.buffer == s.buffer + [r] && (shouldFlush <==> |mid.buffer| >= maxSize)
    requires mid.held == None && mid.dlqCount == s.dlqCount && mid.errors == s.errors && mid.raw == s.raw
      && mid.committed == s.committed && mid.insertedRaw == s.insertedRaw
    requires t.held == mid.held && t.dlqCount == mid.dlqCount && t.errors == mid.errors && mid.raw <= t.raw
    requires if shouldFlush then Flushed(mid, flush, t) else t == mid
    ensures Accepted(maxSize, s, r, flush, t)
  {
    hide FlushEnv.InsertSucceeds, CommitBatch, PartitionsOf;
    assert mid.buffer[|s.buffer|] == r;
  }

  /** What the dead-letter path leaves: a recorded message and its commit, or the message still held. */
  ghost predicate DeadLettered(en: bool, s: State, r: Rec, rounds: seq<DlqRound>, commit: IO, t: State)
    requires forall k :: 0 <= k < |rounds| ==> rounds[k].Sound()
  {
    && t.buffer == s.buffer && t.raw == s.raw && t.insertedRaw == s.insertedRaw && s.errors <= t.errors
    && if exists k :: 0 <= k < |rounds| && rounds[k].Succeeds(en) then
         && t.held == None && t.dlqCount == s.dlqCount + 1 && r in t.errors
         && t.committed == if commit.Failed? then s.committed else s.committed[r.partition := r.offset + 1]
       else
         t.held == Some(Held(r, Fetched)) && t.dlqCount == s.dlqCount && t.committed == s.committed
  }

  /** One turn of the fetch loop, from state to state. */
  ghost predicate Turned(log: Log, en: bool, maxSize: nat, s: State, env: MessageEnv, t: State)
    requires env.Sound()
  {
    var r := Rec(env.partition, At(s.next, env.partition));
    && t.next == s.next[r.partition := r.offset + 1] && t.consumed == s.consumed + 1
    && if IsValid(log, r) then Accepted(maxSize, s, r, env.flush, t)
       else DeadLettered(en, s, r, env.rounds, env.dlqCommit, t)
  }

  /** A turn is a fetch and what follows it. */
  lemma TurnIs(log: Log, en: bool, maxSize: nat, s: State, env: MessageEnv, mid: State, t: State)
    requires env.Sound() && t.next == mid.next && t.consumed == mid.consumed
    requires
      var r := Rec(env.partition, At(s.next, env.partition));
      && mid == s.(held := Some(Held(r, Fetched)), next := s.next[r.partition := r.offset + 1],
           consumed := s.consumed + 1)
      && if IsValid(log, r) then Accepted(maxSize, mid, r, env.flush, t)
         else DeadLettered(en, mid, r, env.rounds, env.dlqCommit, t)
    ensures Turned(log, en, maxSize, s, env, t)
  {
    hide IsValid, CommitBatch, PartitionsOf, DlqRound.Succeeds, FlushEnv.InsertSucceeds;
  }

  /** A turn, spelled out. */
  lemma TurnSpelled(log: Log, en: bool, maxSize: nat, s: State, env: MessageEnv, t: State)
    requires env.Sound() && Turned(log, en, maxSize, s, env, t)
    ensures
      var r := Rec(env.partition, At(s.next, env.partition));
      var batch := s.buffer + [r];
      IsValid(log, r) ==>
        && t.held == None && t.dlqCount == s.dlqCount && t.errors == s.errors
        && if |batch| >= maxSize && env.flush.InsertSucceeds() then
             && t.buffer == [] && multiset(batch) <= t.raw
             && t.committed == CommitBatch(s.committed, batch, if env.flush.commit.Acked?
                  then PartitionsOf(batch) else env.flush.commit.applied * PartitionsOf(batch))
             && t.insertedRaw == s.insertedRaw + if env.flush.commit.Acked? then |batch| else 0
           else
             t.buffer == batch && t.committed == s.committed && t.insertedRaw == s.insertedRaw
    ensures
      var r := Rec(env.partition, At(s.next, env.partition));
      !IsValid(log, r) ==>
        && t.buffer == s.buffer && t.raw == s.raw && t.insertedRaw == s.insertedRaw
        && if exists k :: 0 <= k < |env.rounds| && env.rounds[k].Succeeds(en) then
             && t.held == None && t.dlqCount == s.dlqCount + 1 && r in t.errors
             && t.committed == if env.dlqCommit.Failed? then s.committed else s.committed[r.partition := r.offset + 1]
           else
             t.held == Some(Held(r, Fetched)) && t.dlqCount == s.dlqCount && t.committed == s.committed
  {
    hide IsValid, CommitBatch, PartitionsOf, DlqRound.Succeeds, FlushEnv.InsertSucceeds;
  }

  /** How many of the first k messages come from partition p. */
  function FetchedBefore(envs: seq<MessageEnv>, k: nat, p: nat): nat
    requires k <= |envs|
  {
    if k == 0 then 0 else FetchedBefore(envs, k - 1, p) + if envs[k - 1].partition == p then 1 else 0
  }

  /** The k-th message a loop that starts at next fetches. */
  function RecAt(next: map<nat, nat>, envs: seq<MessageEnv>, k: nat): Rec
    requires k < |envs|
  {
    var p := envs[k].partition;
    Rec(p, At(next, p) + FetchedBefore(envs, k, p))
  }

  /** How many of the first k messages are invalid. */
  function InvalidBefore(log: Log, next: map<nat, nat>, envs: seq<MessageEnv>, k: nat): nat
    requires k <= |envs|
  {
    if k == 0 then 0 else
      InvalidBefore(log, next, envs, k - 1) + if IsValid(log, RecAt(next, envs, k - 1)) then 0 else 1
  }

  ghost predicate AllSound(envs: seq<MessageEnv>) {
    forall k :: 0 <= k < |envs| ==> envs[k].Sound()
  }

  /** The states between the turns: every turn but the last has ended without holding on to its message. */
  ghost predicate Chain(log: Log, en: bool, maxSize: nat, envs: seq<MessageEnv>, states: seq<State>) {
    && 1 <= |states| <= |envs| + 1 && AllSound(envs)
    && forall i :: 0 <= i < |states| - 1 ==>
      states[i].held.None? && Turned(log, en, maxSize, states[i], envs[i], states[i + 1])
  }

  lemma ChainMore(log: Log, en: bool, maxSize: nat, envs: seq<MessageEnv>, states: seq<State>, t: State)
    requires Chain(log, en, maxSize, envs, states) && |states| <= |envs| && states[|states| - 1].held.None?
    requires Turned(log, en, maxSize, states[|states| - 1], envs[|states| - 1], t)
    ensures Chain(log, en, maxSize, envs, states + [t])
  {
    hide Turned;
  }

  /** Where the reader is after i turns, and which message the next one fetches. */
  lemma {:induction false} ChainPosition(log: Log, en: bool, maxSize: nat, envs: seq<MessageEnv>, states: seq<State>,
      i: nat)
    requires Chain(log, en, maxSize, envs, states) && i < |states|
    ensures forall p: nat :: At(states[i].next, p) == At(states[0].next, p) + FetchedBefore(envs, i, p)
    ensures states[i].consumed == states[0].consumed + i
  {
    hide Accepted, DeadLettered, IsValid;
    if i > 0 {
      ChainPosition(log, en, maxSize, envs, states, i - 1);
      assert Turned(log, en, maxSize, states[i - 1], envs[i - 1], states[i]);
    }
  }

  /** One turn on the message the loop is at. */
  lemma ChainTurn(log: Log, en: bool, maxSize: nat, envs: seq<MessageEnv>, states: seq<State>, i: nat)
    requires Chain(log, en, maxSize, envs, states) && i < |states| - 1
    ensures envs[i].Sound()
    ensures
      var s, r, t := states[i], RecAt(states[0].next, envs, i), states[i + 1];
      if IsValid(log, r) then Accepted(maxSize, s, r, envs[i].flush, t)
      else DeadLettered(en, s, r, envs[i].rounds, envs[i].dlqCommit, t)
  {
    hide Accepted, DeadLettered, IsValid;
    ChainPosition(log, en, maxSize, envs, states, i);
    assert Turned(log, en, maxSize, states[i], envs[i], states[i + 1]);
  }

  /** What has become of the messages of the first i turns, all of which have ended. */
  ghost predicate Handled(log: Log, envs: seq<MessageEnv>, from: State, i: nat, now: State)
    requires i <= |envs|
  {
    && now.dlqCount == from.dlqCount + InvalidBefore(log, from.next, envs, i)
    && from.errors <= now.errors
    && forall k :: 0 <= k < i ==>
      var r := RecAt(from.next, envs, k);
      if IsValid(log, r) then r in now.raw || r in now.buffer else r in now.errors
  }

  lemma {:induction false} ChainHandled(log: Log, en: bool, maxSize: nat, envs: seq<MessageEnv>, states: seq<State>,
      i: nat)
    requires Chain(log, en, maxSize, envs, states) && i < |states| && (i == |states| - 1 ==> states[i].held.None?)
    ensures Handled(log, envs, states[0], i, states[i])
  {
    hide IsValid, Turned, Accepted, DeadLettered, RecAt;
    if i > 0 {
      ChainHandled(log, en, maxSize, envs, states, i - 1);
      ChainTurn(log, en, maxSize, envs, states, i - 1);
      TurnHandles(log, en, maxSize, envs, states[0], i - 1, states[i - 1], states[i]);
    }
  }

  lemma TurnHandles(log: Log, en: bool, maxSize: nat, envs: seq<MessageEnv>, from: State, i: nat, s: State, t: State)
    requires i < |envs| && envs[i].Sound() && Handled(log, envs, from, i, s) && t.held.None?
    requires
      var r := RecAt(from.next, envs, i);
      if IsValid(log, r) then Accepted(maxSize, s, r, envs[i].flush, t)
      else DeadLettered(en, s, r, envs[i].rounds, envs[i].dlqCommit, t)
    ensures Handled(log, envs, from, i + 1, t)
  {
    hide IsValid, RecAt, CommitBatch, PartitionsOf, DlqRound.Succeeds, FlushEnv.InsertSucceeds;
    var batch := s.buffer + [RecAt(from.next, envs, i)];
    assert forall x :: x in batch ==> x in multiset(batch);
    assert forall x :: x in s.buffer ==> x in batch;
    assert batch[|s.buffer|] in batch;
  }

  lemma ChainStart(log: Log, en: bool, maxSize: nat, envs: seq<MessageEnv>, s: State)
    requires AllSound(envs)
    ensures Chain(log, en, maxSize, envs, [s])
  {
  }

  lemma NextIs(log: Log, en: bool, maxSize: nat, envs: seq<MessageEnv>, states: seq<State>, k: nat)
    requires Chain(log, en, maxSize, envs, states) && k == |states| - 1 < |envs|
    ensures Rec(envs[k].partition, At(states[k].next, envs[k].partition)) == RecAt(states[0].next, envs, k)
    ensures envs[k].Sound()
  {
    ChainPosition(log, en, maxSize, envs, states, k);
  }

  /** The facts about a finished loop that its turns add up to. */
  lemma RunSpelled(log: Log, en: bool, maxSize: nat, envs: seq<MessageEnv>, states: seq<State>)
    requires Chain(log, en, maxSize, envs, states)
    ensures
      var from, now, n := states[0], states[|states| - 1], |states| - 1;
      var done := if now.held.None? then n else n - 1;
      && now.consumed == from.consumed + n
      && (forall p: nat :: At(now.next, p) == At(from.next, p) + FetchedBefore(envs, n, p))
      && (done >= 0 ==> Handled(log, envs, from, done, now))
    ensures AllSound(envs)
    ensures forall k :: 0 <= k < |states| - 1 && IsValid(log, RecAt(states[0].next, envs, k)) ==>
      var s, t, batch := states[k], states[k + 1], states[k].buffer + [RecAt(states[0].next, envs, k)];
      if |batch| >= maxSize && envs[k].flush.InsertSucceeds() then
        && t.buffer == [] && multiset(batch) <= t.raw
        && t.committed == CommitBatch(s.committed, batch, if envs[k].flush.commit.Acked?
             then PartitionsOf(batch) else envs[k].flush.commit.applied * PartitionsOf(batch))
      else
        t.buffer == batch && t.committed == s.committed
    ensures forall k :: 0 <= k < |states| - 1 && !IsValid(log, RecAt(states[0].next, envs, k)) ==>
      var s, t, r := states[k], states[k + 1], RecAt(states[0].next, envs, k);
      && t.buffer == s.buffer
      && t.committed == if t.held.None? && !envs[k].dlqCommit.Failed? then s.committed[r.partition := r.offset + 1]
           else s.committed
  {
    hide IsValid, Turned, Chain, Accepted, DeadLettered, RecAt, InvalidBefore, FetchedBefore;
    assert 1 <= |states| <= |envs| + 1 && AllSound(envs) by { ChainIs(log, en, maxSize, envs, states); }
    var n := |states| - 1;
    ChainPosition(log, en, maxSize, envs, states, n);
    forall k | 0 <= k < n
      ensures
        var s, t, r := states[k], states[k + 1], RecAt(states[0].next, envs, k);
        if IsValid(log, r) then Accepted(maxSize, s, r, envs[k].flush, t)
        else DeadLettered(en, s, r, envs[k].rounds, envs[k].dlqCommit, t)
    {
      ChainTurn(log, en, maxSize, envs, states, k);
    }
    TurnsSpelled(log, en, maxSize, envs, states);
    if states[n].held.None? {
      ChainHandled(log, en, maxSize, envs, states, n);
    } else if n > 0 {
      HeldHandled(log, en, maxSize, envs, states);
    }
  }

  lemma TurnsSpelled(log: Log, en: bool, maxSize: nat, envs: seq<MessageEnv>, states: seq<State>)
    requires AllSound(envs) && 1 <= |states| <= |envs| + 1
    requires forall k :: 0 <= k < |states| - 1 ==>
      var s, t, r := states[k], states[k + 1], RecAt(states[0].next, envs, k);
      if IsValid(log, r) then Accepted(maxSize, s, r, envs[k].flush, t)
      else DeadLettered(en, s, r, envs[k].rounds, envs[k].dlqCommit, t)
    ensures forall k :: 0 <= k < |states| - 1 && IsValid(log, RecAt(states[0].next, envs, k)) ==>
      var s, t, batch := states[k], states[k + 1], states[k].buffer + [RecAt(states[0].next, envs, k)];
      if |batch| >= maxSize && envs[k].flush.InsertSucceeds() then
        && t.buffer == [] && multiset(batch) <= t.raw
        && t.committed == CommitBatch(s.committed, batch, if envs[k].flush.commit.Acked?
             then PartitionsOf(batch) else envs[k].flush.commit.applied * PartitionsOf(batch))
      else
        t.buffer == batch && t.committed == s.committed
    ensures forall k :: 0 <= k < |states| - 1 && !IsValid(log, RecAt(states[0].next, envs, k)) ==>
      var s, t, r := states[k], states[k + 1], RecAt(states[0].next, envs, k);
      && t.buffer == s.buffer
      && t.committed == if t.held.None? && !envs[k].dlqCommit.Failed? then s.committed[r.partition := r.offset + 1]
           else s.committed
  {
    hide IsValid, RecAt, CommitBatch, PartitionsOf, DlqRound.Succeeds, FlushEnv.InsertSucceeds;
  }

  lemma ChainIs(log: Log, en: bool, maxSize: nat, envs: seq<MessageEnv>, states: seq<State>)
    requires Chain(log, en, maxSize, envs, states)
    ensures 1 <= |states| <= |envs| + 1 && AllSound(envs)
  {
  }

  /** The turn that holds on to its message leaves the earlier ones as they were. */
  lemma HeldHandled(log: Log, en: bool, maxSize: nat, envs: seq<MessageEnv>, states: seq<State>)
    requires Chain(log, en, maxSize, envs, states) && |states| >= 2 && states[|states| - 1].held.Some?
    ensures Handled(log, envs, states[0], |states| - 2, states[|states| - 1])
  {
    hide IsValid, RecAt, CommitBatch, PartitionsOf, DlqRound.Succeeds, FlushEnv.InsertSucceeds;
    var n := |states| - 2;
    ChainHandled(log, en, maxSize, envs, states, n);
    ChainTurn(log, en, maxSize, envs, states, n);
  }

  class Consumer {
    const log: Log
    const dlqEnabled: bool
    const buffer: Buffers.Buffer<Rec>
    // The stores.
    var committed: map<nat, nat>
    var raw: multiset<Rec>
    var errors: multiset<Rec>
    var dlqAcked: multiset<Rec>
    var dlqTopic: multiset<Rec>
    // The reader's position, the message Run is working on, and the metrics.
    var next: map<nat, nat>
    var held: Option<Held>
    var consumed: nat
    var insertedRaw: nat
    var dlqCount: nat
    var chErrors: nat
    // Bookkeeping of the proof: flushes under way, and inserted rows whose commit failed.
    ghost var flights: seq<Flight>
    ghost var uncommitted: nat

    ghost predicate Valid()
      reads this, buffer
    {
      buffer.Valid()
    }

    /** The state of the machine this object is in. */
    ghost function Abs(): State
      requires Valid()
      reads this, buffer, buffer.data
    {
      State(committed, raw, errors, dlqAcked, dlqTopic, next, held, buffer.Contents(), flights,
        consumed, insertedRaw, dlqCount, uncommitted)
    }

    constructor (log: Log, dlqEnabled: bool, maxSize: nat)
      ensures Valid() && Abs() == Start() && fresh(buffer) && fresh(buffer.data)
      ensures this.log == log && this.dlqEnabled == dlqEnabled && buffer.maxSize == maxSize && chErrors == 0
    {
      this.log := log;
      this.dlqEnabled := dlqEnabled;
      buffer := new Buffers.Buffer(maxSize);
      committed, next, held := map[], map[], None;
      raw, errors, dlqAcked, dlqTopic := multiset{}, multiset{}, multiset{}, multiset{};
      consumed, insertedRaw, dlqCount, chErrors := 0, 0, 0, 0;
      flights, uncommitted := [], 0;
    }

    /** One insert of the flush's rows; some first rows may stay behind when it fails. */
    method InsertRawBatch(rows: seq<Rec>, outcome: InsertOutcome) returns (ok: bool, ghost a: Action)
      requires Valid() && flights != []
      requires
        var f := flights[|flights| - 1];
        f.batch == rows && f.phase.Inserting? && f.phase.failures < INSERT_ATTEMPTS
      modifies this`raw, this`flights
      ensures ok == outcome.Inserts? && a.InsertAttempt? && Abs() == Step(log, dlqEnabled, old(Abs()), a)
      ensures raw == old(raw) + multiset(RowsWritten(rows, outcome))
      ensures
        var i := |old(flights)| - 1;
        flights == old(flights)[i :=
          Flight(rows, if ok then Inserted else Inserting(old(flights)[i].phase.failures + 1))]
    {
      ghost var i := |flights| - 1;
      ok := outcome.Inserts?;
      a := InsertAttempt(i, ok, RowsWritten(rows, outcome));
      InsertIsStep(log, dlqEnabled, Abs(), i, outcome);
      raw := raw + multiset(RowsWritten(rows, outcome));
      flights := flights[i := Flight(rows, if ok then Inserted else Inserting(flights[i].phase.failures + 1))];
    }

    /**
     Up to five attempts; cancelAt is the attempt before which the context ends, if
     it does.  The flush is the last of the flights.
     */
    method InsertWithRetry(rows: seq<Rec>, env: FlushEnv)
      returns (ok: bool, ghost failures: nat, ghost trace: seq<Action>)
      requires Valid() && env.Sound()
      requires flights != [] && flights[|flights| - 1] == Flight(rows, Inserting(0))
      modifies this`raw, this`flights
      ensures Path(log, dlqEnabled, old(Abs()), trace, Abs()) && NoFlush(trace)
      ensures ok <==> env.InsertSucceeds()
      ensures failures <= 5 && forall k :: 0 <= k < failures ==> !env.inserts[k].Inserts?
      ensures ok ==> failures < 5 && failures < env.cancelAt && env.inserts[failures].Inserts?
      ensures !ok ==> failures == if env.cancelAt < 5 then env.cancelAt else 5
      ensures old(raw) <= raw && (ok ==> multiset(rows) <= raw)
      ensures flights == old(flights)[..|old(flights)| - 1]
        + [Flight(rows, if ok then Inserted else Inserting(failures))]
    {
      hide Step, Path, Buffers.Buffer.Contents, Buffers.Buffer.Valid, RowsWritten;
      trace, failures := [], 0;
      ghost var start := Abs();
      PathEmpty(log, dlqEnabled, start);
      ghost var others := flights[..|flights| - 1];
      assert flights == others + [Flight(rows, Inserting(0))];
      ok := false;
      var attempt := 0;
      while attempt < INSERT_ATTEMPTS
        invariant 0 <= attempt <= INSERT_ATTEMPTS && attempt <= env.cancelAt && failures == attempt
        invariant flights == others + [Flight(rows, Inserting(attempt))]
        invariant Path(log, dlqEnabled, start, trace, Abs()) && NoFlush(trace)
        invariant old(raw) <= raw && !ok
        invariant forall k :: 0 <= k < attempt ==> !env.inserts[k].Inserts?
      {
        if attempt > 0 && attempt == env.cancelAt {
          return;
        }
        ghost var mid := Abs();
        ghost var a: Action;
        ok, a := InsertRawBatch(rows, env.inserts[attempt]);
        assert flights == others + [Flight(rows, if ok then Inserted else Inserting(attempt + 1))];
        PathExtend(log, dlqEnabled, start, trace, mid, a, Abs());
        trace := trace + [a];
        if ok {
          AllWritten(rows, raw, mid.raw);
          return;
        }
        attempt, failures := attempt + 1, failures + 1;
      }
    }

    /** The offsets of an inserted flush are committed, and it is counted when that is acknowledged. */
    method CommitOffsets(rows: seq<Rec>, outcome: CommitOutcome) returns (ghost trace: seq<Action>)
      requires Valid() && flights != [] && flights[|flights| - 1] == Flight(rows, Inserted)
      modifies this`committed, this`flights, this`uncommitted, this`insertedRaw
      ensures Path(log, dlqEnabled, old(Abs()), trace, Abs()) && NoFlush(trace)
      ensures flights == old(flights)[..|old(flights)| - 1]
      ensures committed == CommitBatch(old(committed), rows,
        if outcome.Acked? then PartitionsOf(rows) else outcome.applied * PartitionsOf(rows))
      ensures insertedRaw == old(insertedRaw) + if outcome.Acked? then |rows| else 0
    {
      hide Step, Path, CommitBatch, PartitionsOf;
      ghost var others := flights[..|flights| - 1];
      assert flights == others + [Flight(rows, Inserted)];
      ghost var to;
      trace, to := CommitPath(log, dlqEnabled, Abs(), others, rows, outcome);
      match outcome {
        case Errored(applied) =>
          committed := CommitBatch(committed, rows, applied * PartitionsOf(rows));
          flights, uncommitted := others, uncommitted + |rows|;
          assert Abs() == to;
        case Acked =>
          committed := CommitBatch(committed, rows, PartitionsOf(rows));
          flights, insertedRaw := others, insertedRaw + |rows|;
          assert Abs() == to;
      }
    }

    /** Takes the buffered messages and lists their rows. */
    method BeginFlush() returns (messages: array?<Rec>, rows: seq<Rec>, ghost trace: seq<Action>)
      requires Valid()
      modifies this`flights, buffer
      ensures Valid() && buffer.data == old(buffer.data)
      ensures Path(log, dlqEnabled, old(Abs()), trace, Abs())
      ensures rows == old(buffer.Contents()) && buffer.Contents() == []
      ensures messages == null <==> rows == []
      ensures messages == null ==> Abs() == old(Abs())
      ensures messages != null ==>
        fresh(messages) && messages[..] == rows && flights == old(flights) + [Flight(rows, Inserting(0))]
    {
      hide Step, Path;
      ghost var start := Abs();
      PathEmpty(log, dlqEnabled, start);
      trace, rows := [], [];
      messages := buffer.GetAndClear();
      if messages == null {
        return;
      }
      for k := 0 to messages.Length
        invariant rows == messages[..k]
      {
        rows := rows + [messages[k]];
      }
      assert rows == start.buffer;
      StartFlushIsStep(log, dlqEnabled, start);
      flights := flights + [Flight(rows, Inserting(0))];
      assert buffer.Contents() == [];
      PathExtend(log, dlqEnabled, start, [], start, StartFlush, Abs());
      trace := [] + [StartFlush];
    }

    /** A flush whose insert failed puts its batch back in front of what arrived meanwhile. */
    method AbandonFlush(messages: array<Rec>, spare: nat) returns (ghost trace: seq<Action>)
      requires Valid() && flights != []
      requires var f := flights[|flights| - 1]; f.batch == messages[..] && f.phase.Inserting? && f.phase.failures > 0
      modifies this`flights, this`chErrors, buffer
      ensures Valid() && (buffer.data == old(buffer.data) || buffer.data == messages || fresh(buffer.data))
      ensures Path(log, dlqEnabled, old(Abs()), trace, Abs()) && NoFlush(trace)
      ensures flights == old(flights)[..|old(flights)| - 1] && chErrors == old(chErrors) + 1
      ensures buffer.Contents() == messages[..] + old(buffer.Contents())
    {
      hide Step, Path;
      ghost var start, others := Abs(), flights[..|flights| - 1];
      ghost var f := flights[|flights| - 1];
      assert flights == others + [f];
      PathEmpty(log, dlqEnabled, start);
      PutBackIsStep(log, dlqEnabled, start, others, f);
      chErrors := chErrors + 1;
      buffer.PutBack(messages, spare);
      flights := others;
      PathExtend(log, dlqEnabled, start, [], start, PutBack(|others|), Abs());
      trace := [] + [PutBack(|others|)];
    }

    /** One flush: take everything, insert with retries, then commit; a failed insert puts the batch back in front. */
    method Flush(env: FlushEnv, spare: nat) returns (ghost trace: seq<Action>)
      requires Valid() && env.Sound()
      modifies this`flights, this`raw, this`committed, this`uncommitted, this`insertedRaw, this`chErrors, buffer
      ensures Valid() && (buffer.data == old(buffer.data) || fresh(buffer.data))
      ensures Path(log, dlqEnabled, old(Abs()), trace, Abs())
      ensures flights == old(flights) && old(raw) <= raw
      ensures old(buffer.Contents()) == [] ==> Abs() == old(Abs())
      ensures
        var batch := old(buffer.Contents());
        batch != [] ==>
          if env.InsertSucceeds() then
            && buffer.Contents() == [] && multiset(batch) <= raw
            && committed == CommitBatch(old(committed), batch,
                 if env.commit.Acked? then PartitionsOf(batch) else env.commit.applied * PartitionsOf(batch))
            && insertedRaw == old(insertedRaw) + if env.commit.Acked? then |batch| else 0
          else
            && buffer.Contents() == batch && committed == old(committed)
            && insertedRaw == old(insertedRaw) && chErrors == old(chErrors) + 1
      ensures Flushed(old(Abs()), env, Abs())
    {
      hide Step, Path, CommitBatch, PartitionsOf, FlushEnv.InsertSucceeds;
      ghost var start := Abs();
      var messages, rows;
      messages, rows, trace := BeginFlush();
      if messages == null {
        return;
      }
      ghost var mid := Abs();
      ghost var t := FinishFlush(messages, rows, env, spare);
      PathJoin(log, dlqEnabled, start, trace, mid, t, Abs());
      trace := trace + t;
    }

    /** The rest of a flush: insert with retries, then commit or put the batch back. */
    method FinishFlush(messages: array<Rec>, rows: seq<Rec>, env: FlushEnv, spare: nat)
      returns (ghost trace: seq<Action>)
      requires Valid() && env.Sound() && messages[..] == rows
      requires flights != [] && flights[|flights| - 1] == Flight(rows, Inserting(0))
      modifies this`flights, this`raw, this`committed, this`uncommitted, this`insertedRaw, this`chErrors, buffer
      ensures Valid() && (buffer.data == old(buffer.data) || buffer.data == messages || fresh(buffer.data))
      ensures Path(log, dlqEnabled, old(Abs()), trace, Abs()) && NoFlush(trace)
      ensures flights == old(flights)[..|old(flights)| - 1] && old(raw) <= raw
      ensures env.InsertSucceeds() ==>
        && buffer.Contents() == old(buffer.Contents()) && multiset(rows) <= raw
        && committed == CommitBatch(old(committed), rows,
             if env.commit.Acked? then PartitionsOf(rows) else env.commit.applied * PartitionsOf(rows))
        && insertedRaw == old(insertedRaw) + if env.commit.Acked? then |rows| else 0
      ensures !env.InsertSucceeds() ==>
        && buffer.Contents() == rows + old(buffer.Contents()) && committed == old(committed)
        && insertedRaw == old(insertedRaw) && chErrors == old(chErrors) + 1
    {
      hide Step, Path, CommitBatch, PartitionsOf, FlushEnv.InsertSucceeds;
      ghost var start := Abs();
      var ok;
      ghost var failures;
      ok, failures, trace := InsertWithRetry(rows, env);
      ghost var mid := Abs();
      ghost var t;
      if ok {
        t := CommitOffsets(rows, env.commit);
      } else {
        t := AbandonFlush(messages, spare);
      }
      PathJoin(log, dlqEnabled, start, trace, mid, t, Abs());
      trace := trace + t;
    }

    /**
     The timer loop: one flush per tick or signal, none without a timer.  What was
     buffered is stored by the first of them whose insert succeeds, and stays buffered in order otherwise.
     */
    method FlushLoop(ticker: bool, signals: seq<FlushEnv>, spare: nat) returns (ghost trace: seq<Action>)
      requires Valid() && SignalsSound(signals)
      modifies this`flights, this`raw, this`committed, this`uncommitted, this`insertedRaw, this`chErrors, buffer
      ensures Valid() && (buffer.data == old(buffer.data) || fresh(buffer.data))
      ensures Path(log, dlqEnabled, old(Abs()), trace, Abs()) && flights == old(flights)
      ensures
        var batch := old(buffer.Contents());
        if ticker && exists k :: 0 <= k < |signals| && signals[k].InsertSucceeds()
        then buffer.Contents() == [] && multiset(batch) <= raw
        else buffer.Contents() == batch && committed == old(committed) && insertedRaw == old(insertedRaw)
      // The first flush that succeeds commits it; those after it find nothing.
      ensures forall k ::
        ticker && old(buffer.Contents()) != [] && 0 <= k < |signals| && signals[k].InsertSucceeds() ==>
        (forall j :: 0 <= j < k ==> !signals[j].InsertSucceeds()) ==>
        CommittedBy(old(buffer.Contents()), signals[k].commit, old(committed), old(insertedRaw))
    {
      hide Step, Path, CommitBatch, PartitionsOf, FlushEnv.InsertSucceeds, Flushed, FlushedInTurn,
        Buffers.Buffer.Contents;
      ghost var start := Abs();
      trace := [];
      PathEmpty(log, dlqEnabled, start);
      if !ticker {
        return;
      }
      ghost var first: nat := 0;
      NoFlushYet(start, signals);
      for k := 0 to |signals|
        invariant Valid() && (buffer.data == old(buffer.data) || fresh(buffer.data)) && flights == old(flights)
        invariant Path(log, dlqEnabled, start, trace, Abs())
        invariant FlushedInTurn(start, signals, k, first, Abs()) && (start.buffer == [] ==> Abs() == start)
      {
        ghost var mid := Abs();
        ghost var t := Flush(signals[k], spare);
        PathJoin(log, dlqEnabled, start, trace, mid, t, Abs());
        trace := trace + t;
        first := FlushOnce(start, signals, k, first, mid, Abs());
      }
      FlushesSpelled(start, signals, first, Abs());
    }

    /** The batch's offsets are committed as the broker's answer says, and counted when it is acknowledged. */
    ghost predicate CommittedBy(batch: seq<Rec>, outcome: CommitOutcome, before: map<nat, nat>, counted: nat)
      reads this
    {
      && committed == CommitBatch(before, batch,
           if outcome.Acked? then PartitionsOf(batch) else outcome.applied * PartitionsOf(batch))
      && insertedRaw == counted + if outcome.Acked? then |batch| else 0
    }

    /** The final flush, outside any context that could end; a batch it cannot insert stays in memory only. */
    method Close(env: FlushEnv, spare: nat) returns (ghost trace: seq<Action>)
      requires Valid() && env.Sound() && env.cancelAt >= INSERT_ATTEMPTS
      modifies this`flights, this`raw, this`committed, this`uncommitted, this`insertedRaw, this`chErrors, buffer
      ensures Valid() && Path(log, dlqEnabled, old(Abs()), trace, Abs()) && flights == old(flights)
      ensures
        var batch := old(buffer.Contents());
        if batch == [] then Abs() == old(Abs())
        else if exists k :: 0 <= k < INSERT_ATTEMPTS && env.inserts[k].Inserts? then
          && buffer.Contents() == [] && multiset(batch) <= raw
          && committed == CommitBatch(old(committed), batch,
               if env.commit.Acked? then PartitionsOf(batch) else env.commit.applied * PartitionsOf(batch))
          && insertedRaw == old(insertedRaw) + if env.commit.Acked? then |batch| else 0
        else
          && buffer.Contents() == batch && committed == old(committed)
          && insertedRaw == old(insertedRaw) && chErrors == old(chErrors) + 1
    {
      hide Step, Path, CommitBatch, PartitionsOf;
      trace := Flush(env, spare);
    }

    /** The dead-letter send; without a dead-letter queue it succeeds and writes nothing. */
    method SendToDlq(io: IO) returns (ok: bool, ghost a: Action)
      requires Valid() && held.Some? && held.value.stage.Fetched? && !IsValid(log, held.value.rec)
      modifies this`held, this`dlqAcked, this`dlqTopic
      ensures a.SendDlq? && Abs() == Step(log, dlqEnabled, old(Abs()), a)
      ensures ok <==> !dlqEnabled || io.Ok?
      ensures held == if ok then Some(Held(old(held).value.rec, Sent)) else old(held)
      ensures ok && dlqEnabled ==> held.value.rec in dlqAcked
    {
      hide Step, IsValid;
      var r := held.value.rec;
      a := SendDlq(io);
      DlqIsStep(log, dlqEnabled, Abs(), r);
      ok := !dlqEnabled || io.Ok?;
      if dlqEnabled {
        if !io.Failed? { dlqTopic := dlqTopic + multiset{r}; }
        if io.Ok? { dlqAcked := dlqAcked + multiset{r}; }
      }
      if ok { held := Some(Held(r, Sent)); }
      assert io.Ok? || io.Failed? || io.FailedButApplied?;
    }

    /** The processing_errors insert that follows a dead-letter send. */
    method InsertError(io: IO) returns (ok: bool, ghost a: Action)
      requires Valid() && held.Some? && held.value.stage.Sent? && !IsValid(log, held.value.rec)
      modifies this`held, this`errors, this`dlqCount
      ensures a.RecordError? && Abs() == Step(log, dlqEnabled, old(Abs()), a)
      ensures ok <==> io.Ok?
      ensures held == Some(Held(old(held).value.rec, if ok then Recorded else Fetched))
      ensures dlqCount == old(dlqCount) + (if ok then 1 else 0) && (ok ==> held.value.rec in errors)
      ensures errors == if io.Failed? then old(errors) else old(errors) + multiset{held.value.rec}
    {
      hide Step, IsValid;
      var r := held.value.rec;
      a := RecordError(io);
      DlqIsStep(log, dlqEnabled, Abs(), r);
      ok := io.Ok?;
      if !io.Failed? { errors := errors + multiset{r}; }
      if ok { dlqCount := dlqCount + 1; }
      held := Some(Held(r, if ok then Recorded else Fetched));
      assert io.Ok? || io.Failed? || io.FailedButApplied?;
    }

    /** Both writes, in order; the counter moves only when both succeed. */
    method HandleError(outcome: DlqOutcome) returns (ok: bool, ghost trace: seq<Action>)
      requires Valid() && held.Some? && held.value.stage.Fetched? && !IsValid(log, held.value.rec)
      modifies this`held, this`errors, this`dlqAcked, this`dlqTopic, this`dlqCount
      ensures Path(log, dlqEnabled, old(Abs()), trace, Abs())
      ensures ok == outcome.Succeeds(dlqEnabled)
      ensures ok <==> (dlqEnabled ==> outcome.send.Ok?) && outcome.record.Ok?
      ensures old(errors) <= errors
      ensures held == Some(Held(old(held).value.rec, if ok then Recorded else Fetched))
      ensures dlqCount == old(dlqCount) + if ok then 1 else 0
      ensures ok ==> held.value.rec in errors && (dlqEnabled ==> held.value.rec in dlqAcked)
    {
      hide Step, Path, Buffers.Buffer.Contents, IsValid;
      ghost var start := Abs();
      PathEmpty(log, dlqEnabled, start);
      ghost var a;
      ok, a := SendToDlq(outcome.send);
      ghost var mid := Abs();
      PathExtend(log, dlqEnabled, start, [], start, a, mid);
      trace := [] + [a];
      if !ok {
        return;
      }
      ok, a := InsertError(outcome.record);
      PathExtend(log, dlqEnabled, start, trace, mid, a, Abs());
      trace := trace + [a];
    }

    /** Up to ten attempts of both writes. */
    method HandleErrorWithRetry(round: DlqRound) returns (ok: bool, ghost trace: seq<Action>)
      requires Valid() && round.Sound()
      requires held.Some? && held.value.stage.Fetched? && !IsValid(log, held.value.rec)
      modifies this`held, this`errors, this`dlqAcked, this`dlqTopic, this`dlqCount
      ensures Path(log, dlqEnabled, old(Abs()), trace, Abs())
      ensures ok <==> round.Succeeds(dlqEnabled)
      ensures ok <==> exists k ::
        0 <= k < 10 && k < round.cancelAt && (dlqEnabled ==> round.attempts[k].send.Ok?) && round.attempts[k].record.Ok?
      ensures old(errors) <= errors
      ensures held == Some(Held(old(held).value.rec, if ok then Recorded else Fetched))
      ensures dlqCount == old(dlqCount) + if ok then 1 else 0
      ensures ok ==> held.value.rec in errors
    {
      hide Step, Path, Buffers.Buffer.Contents, IsValid;
      ghost var start := Abs();
      trace := [];
      PathEmpty(log, dlqEnabled, start);
      ok := false;
      var attempt := 0;
      while attempt < DLQ_ATTEMPTS
        invariant 0 <= attempt <= DLQ_ATTEMPTS && attempt <= round.cancelAt
        invariant Path(log, dlqEnabled, start, trace, Abs())
        invariant !ok && held == Some(Held(start.held.value.rec, Fetched)) && dlqCount == start.dlqCount
        invariant start.errors <= errors
        invariant forall k :: 0 <= k < attempt ==> !round.attempts[k].Succeeds(dlqEnabled)
      {
        if attempt > 0 && attempt == round.cancelAt {
          return;
        }
        ghost var mid := Abs();
        ghost var t;
        ok, t := HandleError(round.attempts[attempt]);
        PathJoin(log, dlqEnabled, start, trace, mid, t, Abs());
        trace := trace + t;
        if ok {
          return;
        }
        attempt := attempt + 1;
      }
    }

    /** Rounds of the dead-letter path until one succeeds; they run out when the context ends. */
    method DeadLetterRounds(rounds: seq<DlqRound>) returns (done: bool, ghost trace: seq<Action>)
      requires Valid() && forall k :: 0 <= k < |rounds| ==> rounds[k].Sound()
      requires held.Some? && held.value.stage.Fetched? && !IsValid(log, held.value.rec)
      modifies this`held, this`errors, this`dlqAcked, this`dlqTopic, this`dlqCount
      ensures Path(log, dlqEnabled, old(Abs()), trace, Abs())
      ensures done <==> exists k :: 0 <= k < |rounds| && rounds[k].Succeeds(dlqEnabled)
      ensures held == Some(Held(old(held).value.rec, if done then Recorded else Fetched))
      ensures dlqCount == old(dlqCount) + (if done then 1 else 0) && (done ==> held.value.rec in errors)
      ensures old(errors) <= errors
    {
      hide Step, Path, Buffers.Buffer.Contents, Buffers.Buffer.Valid, IsValid, DlqRound.Succeeds, DlqRound.Sound;
      ghost var start := Abs();
      trace := [];
      PathEmpty(log, dlqEnabled, start);
      var k := 0;
      done := false;
      while k < |rounds| && !done
        invariant 0 <= k <= |rounds|
        invariant Path(log, dlqEnabled, start, trace, Abs())
        invariant held == Some(Held(start.held.value.rec, if done then Recorded else Fetched))
        invariant dlqCount == start.dlqCount + (if done then 1 else 0) && (done ==> held.value.rec in errors)
        invariant start.errors <= errors
        invariant forall j :: 0 <= j < (if done then k - 1 else k) ==> !rounds[j].Succeeds(dlqEnabled)
        invariant done ==> k > 0 && rounds[k - 1].Succeeds(dlqEnabled)
      {
        ghost var mid := Abs();
        ghost var t;
        done, t := HandleErrorWithRetry(rounds[k]);
        PathJoin(log, dlqEnabled, start, trace, mid, t, Abs());
        trace := trace + t;
        k := k + 1;
      }
    }

    /** The blocking dead-letter path: rounds until one succeeds, then the commit. */
    method DeadLetter(rounds: seq<DlqRound>, commit: IO) returns (done: bool, ghost trace: seq<Action>)
      requires Valid() && forall k :: 0 <= k < |rounds| ==> rounds[k].Sound()
      requires held.Some? && held.value.stage.Fetched? && !IsValid(log, held.value.rec)
      modifies this`held, this`errors, this`dlqAcked, this`dlqTopic, this`dlqCount, this`committed
      ensures Path(log, dlqEnabled, old(Abs()), trace, Abs())
      ensures done <==> exists k :: 0 <= k < |rounds| && rounds[k].Succeeds(dlqEnabled)
      ensures !done ==> held == old(held) && committed == old(committed) && dlqCount == old(dlqCount)
      ensures done ==> held == None && dlqCount == old(dlqCount) + 1 && old(held).value.rec in errors
      ensures done ==>
        var r := old(held).value.rec;
        committed == if commit.Failed? then old(committed) else old(committed)[r.partition := r.offset + 1]
      ensures old(errors) <= errors
      ensures DeadLettered(dlqEnabled, old(Abs()), old(held).value.rec, rounds, commit, Abs())
    {
      hide Step, Path, Buffers.Buffer.Contents, IsValid, DlqRound.Succeeds, CommitBatch;
      ghost var start := Abs();
      var r := held.value.rec;
      done, trace := DeadLetterRounds(rounds);
      if !done {
        return;
      }
      ghost var mid := Abs();
      DlqIsStep(log, dlqEnabled, mid, r);
      CommitOne(committed, r);
      if !commit.Failed? {
        committed := CommitBatch(committed, [r], {r.partition});
      }
      held := None;
      PathExtend(log, dlqEnabled, start, trace, mid, CommitDlq(commit), Abs());
      trace := trace + [CommitDlq(commit)];
    }

    /** One turn of Run: fetch a message, then either the dead-letter path or the buffer and perhaps a flush. */
    method HandleNext(env: MessageEnv) returns (running: bool, ghost trace: seq<Action>)
      requires Valid() && env.Sound() && held.None?
      modifies this, buffer, buffer.data
      ensures Valid() && (buffer.data == old(buffer.data) || fresh(buffer.data))
      ensures Path(log, dlqEnabled, old(Abs()), trace, Abs()) && flights == old(flights)
      ensures Turned(log, dlqEnabled, buffer.maxSize, old(Abs()), env, Abs())
      ensures consumed == old(consumed) + 1 && next == old(next)[env.partition := At(old(next), env.partition) + 1]
      ensures running <==>
        IsValid(log, Rec(env.partition, At(old(next), env.partition)))
        || exists k :: 0 <= k < |env.rounds| && env.rounds[k].Succeeds(dlqEnabled)
      ensures held == if running then None else Some(Held(Rec(env.partition, At(old(next), env.partition)), Fetched))
      // A valid message is buffered last, and flushed with the rest at the size limit.
      ensures
        var r := Rec(env.partition, At(old(next), env.partition));
        var batch := old(buffer.Contents()) + [r];
        IsValid(log, r) ==>
          && dlqCount == old(dlqCount) && errors == old(errors)
          && if |batch| >= buffer.maxSize && env.flush.InsertSucceeds() then
               buffer.Contents() == [] && multiset(batch) <= raw
                 && CommittedBy(batch, env.flush.commit, old(committed), old(insertedRaw))
             else
               buffer.Contents() == batch && committed == old(committed) && insertedRaw == old(insertedRaw)
      // An invalid one is recorded and committed, or held.
      ensures
        var r := Rec(env.partition, At(old(next), env.partition));
        !IsValid(log, r) ==>
          && buffer.Contents() == old(buffer.Contents()) && raw == old(raw) && insertedRaw == old(insertedRaw)
          && if running then
               && dlqCount == old(dlqCount) + 1 && r in errors
               && committed == if env.dlqCommit.Failed? then old(committed)
                    else old(committed)[r.partition := r.offset + 1]
             else
               dlqCount == old(dlqCount) && committed == old(committed)
    {
      hide Step, Path, IsValid, FlushEnv.InsertSucceeds, DlqRound.Succeeds, CommitBatch, PartitionsOf, Accepted,
        DeadLettered, Turned, Buffers.Buffer.Contents, Buffers.Buffer.Valid;
      ghost var start := Abs();
      PathEmpty(log, dlqEnabled, start);
      FetchIsStep(log, dlqEnabled, start, env.partition);
      var r := Rec(env.partition, At(next, env.partition));
      held, next, consumed := Some(Held(r, Fetched)), next[env.partition := r.offset + 1], consumed + 1;
      ghost var mid := Abs();
      PathExtend(log, dlqEnabled, start, [], start, Fetch(env.partition), mid);
      trace := [] + [Fetch(env.partition)];
      ghost var t;
      if !IsValid(log, r) {
        running, t := DeadLetter(env.rounds, env.dlqCommit);
      } else {
        running, t := Accept(r, env);
      }
      PathJoin(log, dlqEnabled, start, trace, mid, t, Abs());
      trace := trace + t;
      TurnIs(log, dlqEnabled, buffer.maxSize, start, env, mid, Abs());
      TurnSpelled(log, dlqEnabled, buffer.maxSize, start, env, Abs());
    }

    /** Putting the held message into the buffer. */
    method AddHeld(r: Rec, spare: nat) returns (shouldFlush: bool, ghost trace: seq<Action>)
      requires Valid() && held.Some? && held.value.rec == r && IsValid(log, r)
      modifies this`held, buffer, buffer.data
      ensures Valid() && (buffer.data == old(buffer.data) || fresh(buffer.data)) && held == None
      ensures buffer.Contents() == old(buffer.Contents()) + [r]
        && (shouldFlush <==> |buffer.Contents()| >= buffer.maxSize)
      ensures Path(log, dlqEnabled, old(Abs()), trace, Abs())
    {
      hide Step, Path, IsValid;
      ghost var start := Abs();
      PathEmpty(log, dlqEnabled, start);
      AddIsStep(log, dlqEnabled, start, r);
      held := None;
      shouldFlush := buffer.Add(r, spare);
      PathExtend(log, dlqEnabled, start, [], start, AddToBuffer, Abs());
      trace := [] + [AddToBuffer];
    }

    /** Buffering a valid message, and flushing when the buffer says so. */
    method Accept(r: Rec, env: MessageEnv) returns (running: bool, ghost trace: seq<Action>)
      requires Valid() && env.Sound() && held.Some? && held.value.rec == r && IsValid(log, r)
      modifies this, buffer, buffer.data
      ensures Valid() && (buffer.data == old(buffer.data) || fresh(buffer.data))
      ensures Path(log, dlqEnabled, old(Abs()), trace, Abs())
      ensures running && consumed == old(consumed) && next == old(next) && flights == old(flights)
      ensures Accepted(buffer.maxSize, old(Abs()), r, env.flush, Abs())
    {
      hide Step, Path, Buffers.Buffer.Contents, Buffers.Buffer.Valid, IsValid, FlushEnv.InsertSucceeds, CommitBatch,
        PartitionsOf, Accepted, Flushed, At;
      ghost var start := Abs();
      var shouldFlush;
      shouldFlush, trace := AddHeld(r, env.spare);
      ghost var mid := Abs();
      running := true;
      if shouldFlush {
        ghost var t := Flush(env.flush, env.spare);
        PathJoin(log, dlqEnabled, start, trace, mid, t, Abs());
        trace := trace + t;
      }
      AcceptedIs(buffer.maxSize, start, r, env.flush, mid, shouldFlush, Abs());
    }

    /**
     The fetch loop, over any sequence of messages and any behaviour of the stores.  past
     is what happened before this process: if a message is missing now, a crash in the past lost it.
     */
    method Run(envs: seq<MessageEnv>, ghost past: seq<Action>)
      returns (ghost states: seq<State>, ghost trace: seq<Action>)
      requires Valid() && held.None? && Abs() == Exec(log, dlqEnabled, past) && AllSound(envs)
      modifies this, buffer, buffer.data
      ensures Valid() && Path(log, dlqEnabled, old(Abs()), trace, Abs()) && flights == old(flights)
      // states are those between the turns; the loop stops early exactly at a message that stays held.
      ensures 1 <= |states| <= |envs| + 1 && states[0] == old(Abs()) && states[|states| - 1] == Abs()
      ensures consumed == old(consumed) + |states| - 1
      ensures forall p: nat :: At(next, p) == At(old(next), p) + FetchedBefore(envs, |states| - 1, p)
      ensures held.None? <==> forall k :: 0 <= k < |envs| ==> Passes(old(next), envs, k)
      ensures held.None? ==> |states| == |envs| + 1
      ensures held.Some? ==>
        && |states| >= 2 && held == Some(Held(RecAt(old(next), envs, |states| - 2), Fetched))
        && !Passes(old(next), envs, |states| - 2)
        && forall k :: 0 <= k < |states| - 2 ==> Passes(old(next), envs, k)
      // Every message that was not held: an invalid one is recorded, a valid one stored or buffered.
      ensures
        var done := if held.None? then |states| - 1 else |states| - 2;
        && dlqCount == old(dlqCount) + InvalidBefore(log, old(next), envs, done)
        && forall k :: 0 <= k < done ==>
          var r := RecAt(old(next), envs, k);
          if IsValid(log, r) then r in raw || r in buffer.Contents() else r in errors
      // Each turn flushes, commits and buffers as its own environment says.
      ensures Chain(log, dlqEnabled, buffer.maxSize, envs, states)
      ensures forall k :: 0 <= k < |states| - 1 && IsValid(log, RecAt(old(next), envs, k)) ==>
        var s, t, batch := states[k], states[k + 1], states[k].buffer + [RecAt(old(next), envs, k)];
        if |batch| >= buffer.maxSize && envs[k].flush.InsertSucceeds() then
          && t.buffer == [] && multiset(batch) <= t.raw
          && t.committed == CommitBatch(s.committed, batch, if envs[k].flush.commit.Acked?
               then PartitionsOf(batch) else envs[k].flush.commit.applied * PartitionsOf(batch))
        else
          t.buffer == batch && t.committed == s.committed
      ensures forall k :: 0 <= k < |states| - 1 && !IsValid(log, RecAt(old(next), envs, k)) ==>
        var s, t, r := states[k], states[k + 1], RecAt(old(next), envs, k);
        && t.buffer == s.buffer
        && t.committed == if t.held.None? && !envs[k].dlqCommit.Failed? then s.committed[r.partition := r.offset + 1]
             else s.committed
      ensures Abs() == Exec(log, dlqEnabled, past + trace) && IngestionGuarantees.Balanced(Abs())
      ensures forall r :: IngestionGuarantees.Missing(log, Abs(), r) ==>
        exists n :: IngestionGuarantees.CaughtAt(log, dlqEnabled, past, n, r)
    {
      hide Step, Path, IsValid, Exec, Turned, Chain, Accepted, DeadLettered, RecAt, InvalidBefore, FetchedBefore, At,
        Passes, CommitBatch, PartitionsOf, DlqRound.Succeeds, FlushEnv.InsertSucceeds, IngestionGuarantees.Missing,
        IngestionGuarantees.CaughtAt, IngestionGuarantees.Balanced, Buffers.Buffer.Contents;
      ghost var start := Abs();
      states, trace := FetchLoop(envs);
      RunSpelled(log, dlqEnabled, buffer.maxSize, envs, states);
      ProcessLosesNothing(log, dlqEnabled, past, trace, Abs());
    }

    /** The loop itself: turns until the messages run out or one of them stays held. */
    method FetchLoop(envs: seq<MessageEnv>) returns (ghost states: seq<State>, ghost trace: seq<Action>)
      requires Valid() && held.None? && AllSound(envs)
      modifies this, buffer, buffer.data
      ensures Valid() && Path(log, dlqEnabled, old(Abs()), trace, Abs()) && flights == old(flights)
      ensures Chain(log, dlqEnabled, buffer.maxSize, envs, states) && 1 <= |states| <= |envs| + 1
      ensures states[0] == old(Abs()) && states[|states| - 1] == Abs()
      ensures if held.None? then |states| == |envs| + 1 && forall j :: 0 <= j < |envs| ==> Passes(old(next), envs, j)
        else
          && |states| >= 2 && held == Some(Held(RecAt(old(next), envs, |states| - 2), Fetched))
          && !Passes(old(next), envs, |states| - 2)
          && forall j :: 0 <= j < |states| - 2 ==> Passes(old(next), envs, j)
    {
      hide Step, Path, IsValid, Turned, Chain, Accepted, DeadLettered, DlqRound.Succeeds, RecAt, InvalidBefore,
        FetchedBefore, FlushEnv.InsertSucceeds, CommitBatch, PartitionsOf, Buffers.Buffer.Contents;
      ghost var start := Abs();
      trace, states := [], [start];
      PathEmpty(log, dlqEnabled, start);
      ChainStart(log, dlqEnabled, buffer.maxSize, envs, start);
      var k := 0;
      var running := true;
      while k < |envs| && running
        invariant 0 <= k <= |envs| && Valid() && (running <==> held.None?)
        invariant buffer.data == old(buffer.data) || fresh(buffer.data)
        invariant Path(log, dlqEnabled, start, trace, Abs()) && flights == old(flights)
        invariant |states| == k + 1 && states[0] == start && states[k] == Abs()
        invariant Chain(log, dlqEnabled, buffer.maxSize, envs, states)
        invariant forall j :: 0 <= j < (if running then k else k - 1) ==> Passes(start.next, envs, j)
        invariant held.Some? ==>
          k > 0 && held == Some(Held(RecAt(start.next, envs, k - 1), Fetched)) && !Passes(start.next, envs, k - 1)
      {
        ghost var mid := Abs();
        ghost var t;
        NextIs(log, dlqEnabled, buffer.maxSize, envs, states, k);
        running, t := HandleNext(envs[k]);
        PathJoin(log, dlqEnabled, start, trace, mid, t, Abs());
        trace := trace + t;
        ChainMore(log, dlqEnabled, buffer.maxSize, envs, states, Abs());
        states := states + [Abs()];
        k := k + 1;
      }
    }

    /** The k-th message does not block the loop: it is valid, or some round of its dead-letter path succeeds. */
    ghost predicate Passes(from: map<nat, nat>, envs: seq<MessageEnv>, k: nat)
      requires AllSound(envs) && k < |envs|
    {
      || IsValid(log, RecAt(from, envs, k))
      || exists j :: 0 <= j < |envs[k].rounds| && envs[k].rounds[j].Succeeds(dlqEnabled)
    }

    /**
     A whole process without a flush timer: Run, and after it has returned, Close.  If no two
     flushes overlapped before, none do now, so in every partition whose invalid messages all
     come first, every valid message below the committed offset is stored.
     */
    method RunThenClose(envs: seq<MessageEnv>, last: FlushEnv, spare: nat, ghost past: seq<Action>)
      returns (ghost states: seq<State>, ghost trace: seq<Action>)
      requires Valid() && held.None? && Abs() == Exec(log, dlqEnabled, past) && flights == []
        && W.OneFlusher(log, dlqEnabled, past)
      requires last.Sound() && last.cancelAt >= INSERT_ATTEMPTS && AllSound(envs)
      modifies this, buffer, buffer.data
      ensures Valid() && flights == [] && Abs() == Exec(log, dlqEnabled, past + trace)
      ensures W.OneFlusher(log, dlqEnabled, past + trace)
      ensures forall p: nat :: W.InvalidFirst(log, p) ==> W.Stored(log, Abs(), p)
      // What Run did, turn by turn; then the final flush of what it left buffered.
      ensures Chain(log, dlqEnabled, buffer.maxSize, envs, states) && states[0] == old(Abs())
      ensures held.None? <==> forall k :: 0 <= k < |envs| ==> Passes(old(next), envs, k)
      ensures
        var ran := states[|states| - 1];
        && held == ran.held && next == ran.next && consumed == ran.consumed && dlqCount == ran.dlqCount
        && errors == ran.errors && (held.None? ==> |states| == |envs| + 1)
        && if ran.buffer == [] then Abs() == ran
           else if exists k :: 0 <= k < 5 && last.inserts[k].Inserts? then
             && buffer.Contents() == [] && multiset(ran.buffer) <= raw
             && CommittedBy(ran.buffer, last.commit, ran.committed, ran.insertedRaw)
           else
             buffer.Contents() == ran.buffer && committed == ran.committed && insertedRaw == ran.insertedRaw
    {
      hide Step, Path, IsValid, Exec, W.OneFlusher, W.InvalidFirst, W.Stored, CommitBatch, PartitionsOf, Chain, RecAt,
        InvalidBefore, FetchedBefore, DlqRound.Succeeds, FlushEnv.InsertSucceeds, Passes, At, Buffers.Buffer.Contents,
        Buffers.Buffer.Valid, IngestionGuarantees.Missing, IngestionGuarantees.CaughtAt, IngestionGuarantees.Balanced,
        AllSound;
      ghost var start := Abs();
      states, trace := Run(envs, past);
      ghost var mid := Abs();
      ghost var t := Close(last, spare);
      PathJoin(log, dlqEnabled, start, trace, mid, t, Abs());
      trace := trace + t;
      ProcessKeepsWatermark(log, dlqEnabled, past, trace, Abs());
    }
  }

  /** A process whose flushes do not overlap continues a run in which none did. */
  lemma ProcessKeepsWatermark(log: Log, en: bool, past: seq<Action>, trace: seq<Action>, now: State)
    requires Path(log, en, Exec(log, en, past), trace, now)
    requires Exec(log, en, past).flights == [] && W.OneFlusher(log, en, past)
    ensures now == Exec(log, en, past + trace) && W.OneFlusher(log, en, past + trace)
    ensures forall p: nat :: W.InvalidFirst(log, p) ==> W.Stored(log, now, p)
  {
    hide Exec, Step, R.Steps, IsValid;
    StepsAfter(log, en, past, trace);
    var all := past + trace;
    forall n: nat | n < |all| && all[n].StartFlush? ensures Exec(log, en, all[..n]).flights == [] {
      if n < |past| {
        assert all[n] == past[n] && all[..n] == past[..n];
      } else {
        var m := n - |past|;
        assert all[n] == trace[m] && all[..n] == past + trace[..m];
        StepsAfter(log, en, past, trace[..m]);
      }
    }
    forall p: nat | W.InvalidFirst(log, p) ensures W.Stored(log, now, p) {
      W.WatermarkInvariant(log, en, all, p);
    }
  }

  lemma {:induction false} StepsAfter(log: Log, en: bool, past: seq<Action>, trace: seq<Action>)
    ensures R.Steps(Machine(log, en), Exec(log, en, past), trace) == Exec(log, en, past + trace)
  {
    if trace == [] {
      assert past + trace == past;
    } else {
      assert (past + trace)[..|past + trace| - 1] == past + trace[..|trace| - 1];
      StepsAfter(log, en, past, trace[..|trace| - 1]);
    }
  }

  lemma CrashIsInPast(past: seq<Action>, trace: seq<Action>, n: nat)
    requires NoCrash(trace) && n < |past + trace| && (past + trace)[n].Crash?
    ensures n < |past|
  {
    assert forall k :: 0 <= k < |trace| ==> (past + trace)[|past| + k] == trace[k] && trace[k] in trace;
  }

  /** A process that has not crashed has lost nothing itself. */
  lemma ProcessLosesNothing(log: Log, en: bool, past: seq<Action>, trace: seq<Action>, now: State)
    requires Path(log, en, Exec(log, en, past), trace, now)
    ensures now == Exec(log, en, past + trace) && IngestionGuarantees.Balanced(now)
    ensures forall r :: IngestionGuarantees.Missing(log, now, r) ==>
      exists n :: IngestionGuarantees.CaughtAt(log, en, past, n, r)
  {
    hide Exec, Step, R.Steps, IngestionGuarantees.Missing, AtRisk;
    StepsAfter(log, en, past, trace);
    IngestionGuarantees.Accounting(log, en, past + trace);
    forall r | IngestionGuarantees.Missing(log, now, r)
      ensures exists n :: IngestionGuarantees.CaughtAt(log, en, past, n, r)
    {
      IngestionGuarantees.LossExactly(log, en, past + trace, r);
      var n: nat :| IngestionGuarantees.CaughtAt(log, en, past + trace, n, r);
      CrashIsInPast(past, trace, n);
      assert (past + trace)[..n] == past[..n];
      assert IngestionGuarantees.CaughtAt(log, en, past, n, r);
    }
  }
}
