/**
 When "committed" means "stored".  With one flush at a time it does so for a partition
 exactly when none of its valid messages precedes an invalid one; with overlapping flushes
 exactly when it has no valid message at all.  And what a single commit puts at risk.
 */
module IngestionWatermark {
  import opened Common
  import opened PageView
  import opened Ingestion
  import opened IngestionGuarantees

  /** Run is the only flusher (flush interval 0), and Close flushes after Run has returned. */
  ghost predicate OneFlusher(log: Log, en: bool, acts: seq<Action>) {
    forall n: nat {:trigger acts[n]} :: n < |acts| && acts[n].StartFlush? ==> Exec(log, en, acts[..n]).flights == []
  }

  /** No valid message of the partition precedes an invalid one. */
  ghost predicate InvalidFirst(log: Log, p: nat) {
    forall i: nat, j: nat :: i < j && IsValid(log, Rec(p, i)) ==> IsValid(log, Rec(p, j))
  }

  /** Every valid message of the partition below the committed offset is in the raw table. */
  ghost predicate Stored(log: Log, s: State, p: nat) {
    forall r: Rec :: r.partition == p && IsValid(log, r) && r.offset < At(s.committed, p) ==> r in s.raw
  }

  /** A flush holds older messages of the partition than the buffer does. */
  ghost predicate FlushIsOlder(s: State, p: nat) {
    && |s.flights| <= 1
    && (forall f, r, q :: f in s.flights && r in f.batch && q in s.buffer && r.partition == q.partition == p ==>
      r.offset < q.offset)
  }

  lemma OlderStep(log: Log, en: bool, s: State, dropped: set<Rec>, p: nat, a: Action)
    requires Inv(log, s, dropped) && FlushIsOlder(s, p)
    requires a.StartFlush? ==> s.flights == []
    ensures FlushIsOlder(Step(log, en, s, a), p)
  {
    hide Inv, Step, FlushIsOlder;
    if a.AddToBuffer? {
      OlderAdd(log, en, s, dropped, p);
    } else if a.InsertAttempt? || a.PutBack? || a.CommitFlight? || a.CountFlight? {
      OlderFlush(log, en, s, p, a);
    } else {
      OlderLoop(log, en, s, p, a);
    }
  }

  lemma OlderLoop(log: Log, en: bool, s: State, p: nat, a: Action)
    requires FlushIsOlder(s, p) && (a.StartFlush? ==> s.flights == [])
    requires a.Fetch? || a.SendDlq? || a.RecordError? || a.CommitDlq? || a.StartFlush? || a.Crash?
    ensures FlushIsOlder(Step(log, en, s, a), p)
  {
    hide IsValid, CommitBatch;
  }

  /** A flush changes phase, or is gone: then there is none left. */
  lemma OlderFlush(log: Log, en: bool, s: State, p: nat, a: Action)
    requires FlushIsOlder(s, p) && (a.InsertAttempt? || a.PutBack? || a.CommitFlight? || a.CountFlight?)
    ensures FlushIsOlder(Step(log, en, s, a), p)
  {
    hide IsValid, CommitBatch, FlushIsOlder;
    AtMostOne(s, p);
    var s' := Step(log, en, s, a);
    if s'.flights == [] { NothingOlder(s', p); } else { SameBatches(s, s', p); }
  }

  lemma AtMostOne(s: State, p: nat)
    requires FlushIsOlder(s, p)
    ensures |s.flights| <= 1
  {
  }

  lemma NothingOlder(s: State, p: nat)
    requires s.flights == []
    ensures FlushIsOlder(s, p)
  {
  }

  lemma SameBatches(s: State, s': State, p: nat)
    requires FlushIsOlder(s, p) && s'.buffer == s.buffer && |s'.flights| == |s.flights|
    requires forall i :: 0 <= i < |s.flights| ==> s'.flights[i].batch == s.flights[i].batch
    ensures FlushIsOlder(s', p)
  {
    if |s.flights| == 1 { assert s.flights[0] in s.flights; }
  }

  lemma OlderAdd(log: Log, en: bool, s: State, dropped: set<Rec>, p: nat)
    requires Inv(log, s, dropped) && FlushIsOlder(s, p)
    ensures FlushIsOlder(Step(log, en, s, AddToBuffer), p)
  {
    hide IsValid, NothingForgotten, ErrorsKept, Bounded, FlightsSound;
  }

  /** In memory there is nothing of the partition as old as the newest message of the flush, but the flush itself. */
  lemma OnlyInFlight(log: Log, s: State, dropped: set<Rec>, p: nat, r: Rec, top: Rec)
    requires Inv(log, s, dropped) && FlushIsOlder(s, p) && |s.flights| == 1
    requires top in s.flights[0].batch && top.partition == r.partition == p && r.offset <= top.offset
    requires r in Pending(s)
    ensures r in s.flights[0].batch
  {
    hide IsValid, ErrorsKept, NothingForgotten, Bounded, FlightsSound, Pending;
    var f := s.flights[0];
    assert f in s.flights;
    PendingMember(s, r);
    if g :| g in s.flights && r in g.batch {
      assert g == f;
    }
  }

  /** Committing the only flush commits nothing that is still in memory. */
  lemma CommitStored(log: Log, s: State, dropped: set<Rec>, p: nat, r: Rec)
    requires Inv(log, s, dropped) && FlushIsOlder(s, p) && IsValid(log, r)
    requires |s.flights| == 1 && s.flights[0].phase.Inserted?
    requires r.partition == p && r !in dropped && r.offset < PastLast(s.flights[0].batch, p)
    ensures r in s.raw
  {
    hide IsValid, ErrorsKept, Pending, FlushIsOlder, HeldIsLatest;
    var f := s.flights[0];
    assert f in s.flights;
    var top := PastLastWitness(f.batch, p);
    PendingMember(s, top);
    if r in Pending(s) {
      OnlyInFlight(log, s, dropped, p, r, top);
    }
  }

  lemma StoredStep(log: Log, en: bool, s: State, dropped: set<Rec>, p: nat, a: Action)
    requires Inv(log, s, dropped) && FlushIsOlder(s, p) && Stored(log, s, p) && InvalidFirst(log, p)
    requires forall r :: r in dropped ==> r.partition != p
    ensures Stored(log, Step(log, en, s, a), p)
  {
    hide IsValid, Inv, Step, FlushIsOlder, InvalidFirst, Stored;
    if a.CommitDlq? {
      DlqCommitStored(log, en, s, dropped, p, a.io);
    } else if a.CommitFlight? {
      FlushCommitStored(log, en, s, dropped, p, a);
    } else {
      SameCommitted(log, en, s, a);
      StillStored(log, s, Step(log, en, s, a), p);
    }
  }

  lemma SameCommitted(log: Log, en: bool, s: State, a: Action)
    requires !a.CommitDlq? && !a.CommitFlight?
    ensures Step(log, en, s, a).committed == s.committed && s.raw <= Step(log, en, s, a).raw
  {
    hide Step;
    if a.InsertAttempt? {
      InsertCommitsNothing(log, en, s, a);
    } else {
      OthersCommitNothing(log, en, s, a);
    }
  }

  lemma InsertCommitsNothing(log: Log, en: bool, s: State, a: Action)
    requires a.InsertAttempt?
    ensures Step(log, en, s, a).committed == s.committed && s.raw <= Step(log, en, s, a).raw
  {
  }

  lemma OthersCommitNothing(log: Log, en: bool, s: State, a: Action)
    requires !a.CommitDlq? && !a.CommitFlight? && !a.InsertAttempt?
    ensures Step(log, en, s, a).committed == s.committed && s.raw == Step(log, en, s, a).raw
  {
    hide IsValid, RemoveAt;
  }

  lemma StillStored(log: Log, s: State, s': State, p: nat)
    requires Stored(log, s, p) && At(s'.committed, p) <= At(s.committed, p) && s.raw <= s'.raw
    ensures Stored(log, s', p)
  {
    hide IsValid;
  }

  /** A dead-letter commit passes only invalid messages. */
  lemma DlqCommitStored(log: Log, en: bool, s: State, dropped: set<Rec>, p: nat, io: IO)
    requires Inv(log, s, dropped) && Stored(log, s, p) && InvalidFirst(log, p)
    ensures Stored(log, Step(log, en, s, CommitDlq(io)), p)
  {
    hide IsValid, Inv, CommitBatch;
    if s.held.Some? && s.held.value.stage.Recorded? {
      var h := s.held.value.rec;
      RecordedIsInvalid(log, s, dropped);
      CommitBatchAt(s.committed, [h], {h.partition}, p);
      PastLastOne(h, p);
      if h.partition == p {
        assert h == Rec(p, h.offset);
        forall r: Rec | r.partition == p && r.offset <= h.offset ensures !IsValid(log, r) {
          assert r == Rec(p, r.offset);
        }
      }
    }
  }

  lemma FlushCommitStored(log: Log, en: bool, s: State, dropped: set<Rec>, p: nat, a: Action)
    requires Inv(log, s, dropped) && FlushIsOlder(s, p) && Stored(log, s, p) && a.CommitFlight?
    requires forall r :: r in dropped ==> r.partition != p
    ensures Stored(log, Step(log, en, s, a), p)
  {
    hide IsValid, Inv, CommitBatch, FlushIsOlder;
    if a.i < |s.flights| && s.flights[a.i].phase.Inserted? {
      var f, s' := s.flights[a.i], Step(log, en, s, a);
      var applied := if a.ok then PartitionsOf(f.batch) else a.partitions * PartitionsOf(f.batch);
      CommitBatchAt(s.committed, f.batch, applied, p);
      AtMostOne(s, p);
      forall r: Rec | r.partition == p && IsValid(log, r) && r.offset < At(s'.committed, p) ensures r in s'.raw {
        if r.offset >= At(s.committed, p) { CommitStored(log, s, dropped, p, r); }
      }
    }
  }

  lemma RecordedIsInvalid(log: Log, s: State, dropped: set<Rec>)
    requires Inv(log, s, dropped) && s.held.Some? && s.held.value.stage.Recorded?
    ensures !IsValid(log, s.held.value.rec)
  {
  }

  lemma {:induction false} WatermarkInvariant(log: Log, en: bool, acts: seq<Action>, p: nat)
    requires OneFlusher(log, en, acts) && InvalidFirst(log, p)
    ensures FlushIsOlder(Exec(log, en, acts), p) && Stored(log, Exec(log, en, acts), p)
    ensures forall r :: r in DroppedBy(log, en, acts) ==> r.partition != p
  {
    hide Inv, IsValid, FlushIsOlder, Step, AtRisk;
    if acts == [] {
      NothingFlushed(p);
    } else {
      var m := |acts| - 1;
      var before := acts[..m];
      forall n: nat | n < |before| && before[n].StartFlush? ensures Exec(log, en, before[..n]).flights == [] {
        assert before[n] == acts[n] && before[..n] == acts[..n];
      }
      WatermarkInvariant(log, en, before, p);
      ExecKeeps(log, en, before);
      var s, dropped := Exec(log, en, before), DroppedBy(log, en, before);
      assert acts[m].StartFlush? ==> s.flights == [];
      OlderStep(log, en, s, dropped, p, acts[m]);
      StoredStep(log, en, s, dropped, p, acts[m]);
      StoredIsSafe(log, s, p);
    }
  }

  lemma NothingFlushed(p: nat)
    ensures FlushIsOlder(Start(), p)
  {
  }

  lemma StoredIsSafe(log: Log, s: State, p: nat)
    requires Stored(log, s, p)
    ensures forall r :: r in AtRisk(log, s) ==> r.partition != p
  {
  }

  /**
   At-least-once.  With one flusher and a partition whose invalid messages all come first,
   over all crashes, restarts and ambiguous requests, every valid message below the committed
   offset is stored.
   */
  lemma WatermarkAtLeastOnce(log: Log, en: bool, acts: seq<Action>, r: Rec)
    requires OneFlusher(log, en, acts) && InvalidFirst(log, r.partition)
    requires IsValid(log, r) && r.offset < At(Exec(log, en, acts).committed, r.partition)
    ensures r in Exec(log, en, acts).raw
  {
    WatermarkInvariant(log, en, acts, r.partition);
  }

  // ---------------------------------------------------------------- what one commit puts at risk

  lemma ExecSnoc(log: Log, en: bool, acts: seq<Action>, a: Action)
    ensures Exec(log, en, acts + [a]) == Step(log, en, Exec(log, en, acts), a)
  {
    assert (acts + [a])[..|acts|] == acts;
  }

  lemma RestartForgets(s: State)
    ensures Pending(Restart(s)) == {}
  {
  }

  /**
   A commit followed by a crash: besides what was missing already, exactly the messages in memory
   only that the new offset has passed.
   */
  lemma CommitThenCrash(log: Log, s: State, committed: map<nat, nat>, t: State, dropped: set<Rec>,
      start: map<nat, nat>, r: Rec)
    requires Inv(log, s, dropped) && AboveStart(s, start, dropped)
    requires t.committed == committed && t.raw == s.raw
    requires At(start, r.partition) <= At(committed, r.partition) <= At(s.next, r.partition)
    requires Missing(log, s, r) ==> r.offset < At(start, r.partition)
    ensures Missing(log, Restart(t), r) <==>
      Missing(log, s, r) || (IsValid(log, r) && r in Pending(s) && r !in s.raw && r.offset < At(committed, r.partition))
  {
    hide IsValid, Pending, ErrorsKept;
    RestartForgets(t);
    assert At(start, r.partition) <= At(s.committed, r.partition);
  }

  /** What is missing was dropped by a crash, so it lies below where the process started. */
  lemma MissingIsBelowStart(log: Log, en: bool, acts: seq<Action>, r: Rec)
    requires Missing(log, Exec(log, en, acts), r)
    ensures r.offset < At(StartedAt(log, en, acts), r.partition)
  {
    hide IsValid, Pending, AtRisk, Exec, DroppedBy, StartedAt;
    ExecKeeps(log, en, acts);
    StartInvariant(log, en, acts);
    var s := Exec(log, en, acts);
    assert At(s.committed, r.partition) <= At(s.next, r.partition);
  }

  /**
   A dead-letter commit followed by a crash adds to the missing messages exactly the valid
   ones of its partition that were still only in memory, and those of other partitions that were
   at risk before.
   */
  lemma DlqCommitLosesExactly(log: Log, en: bool, acts: seq<Action>, r: Rec)
    requires Exec(log, en, acts).held.Some? && Exec(log, en, acts).held.value.stage.Recorded?
    ensures
      var s := Exec(log, en, acts);
      Missing(log, Exec(log, en, acts + [CommitDlq(Ok), Crash]), r) <==>
        || Missing(log, s, r)
        || (IsValid(log, r) && r in Pending(s) && r !in s.raw
            && (r.partition == s.held.value.rec.partition || r.offset < At(s.committed, r.partition)))
  {
    hide IsValid, Exec, DroppedBy, AtRisk, StartedAt, Missing, Pending, Inv, AboveStart;
    var s := Exec(log, en, acts);
    var t := Step(log, en, s, CommitDlq(Ok));
    ExecKeeps(log, en, acts);
    StartInvariant(log, en, acts);
    TwoMore(log, en, acts, CommitDlq(Ok));
    CrashIsRestart(log, en, t);
    if Missing(log, s, r) { MissingIsBelowStart(log, en, acts, r); }
    DlqCommitPasses(log, en, s, DroppedBy(log, en, acts), StartedAt(log, en, acts), r);
    CommitThenCrash(log, s, t.committed, t, DroppedBy(log, en, acts), StartedAt(log, en, acts), r);
  }

  lemma TwoMore(log: Log, en: bool, acts: seq<Action>, a: Action)
    ensures Exec(log, en, acts + [a, Crash]) == Step(log, en, Step(log, en, Exec(log, en, acts), a), Crash)
  {
    hide Exec, Step;
    assert acts + [a, Crash] == acts + [a] + [Crash];
    ExecSnoc(log, en, acts, a);
    ExecSnoc(log, en, acts + [a], Crash);
  }

  /** A dead-letter commit passes everything its partition has in memory. */
  lemma DlqCommitPasses(log: Log, en: bool, s: State, dropped: set<Rec>, start: map<nat, nat>, r: Rec)
    requires Inv(log, s, dropped) && AboveStart(s, start, dropped) && s.held.Some? && s.held.value.stage.Recorded?
    ensures
      var c := Step(log, en, s, CommitDlq(Ok)).committed;
      var p := r.partition;
      && At(start, p) <= At(c, p) <= At(s.next, p)
      && At(c, p) == (if p == s.held.value.rec.partition then At(s.next, p) else At(s.committed, p))
    ensures r in Pending(s) ==> r.offset < At(s.next, r.partition)
  {
    hide IsValid, Pending, ErrorsKept, NothingForgotten;
    var h := s.held.value.rec;
    PastLastOne(h, h.partition);
  }

  /**
   Committing one flush and then crashing adds to the missing messages exactly the valid ones
   in memory only below one past the flush's highest offset in their partition, or, where the flush
   has none, below the offset committed before.
   */
  lemma FlushCommitLosesExactly(log: Log, en: bool, acts: seq<Action>, i: nat, r: Rec)
    requires i < |Exec(log, en, acts).flights| && Exec(log, en, acts).flights[i].phase.Inserted?
    ensures
      var s := Exec(log, en, acts);
      var last := PastLast(s.flights[i].batch, r.partition);
      Missing(log, Exec(log, en, acts + [CommitFlight(i, true, {}), Crash]), r) <==>
        || Missing(log, s, r)
        || (IsValid(log, r) && r in Pending(s) && r !in s.raw
            && r.offset < if last > 0 then last else At(s.committed, r.partition))
  {
    hide IsValid, Exec, DroppedBy, AtRisk, StartedAt, Missing, Pending, Inv, AboveStart, PastLast, CommitBatch;
    var s := Exec(log, en, acts);
    var t := Step(log, en, s, CommitFlight(i, true, {}));
    ExecKeeps(log, en, acts);
    StartInvariant(log, en, acts);
    TwoMore(log, en, acts, CommitFlight(i, true, {}));
    CrashIsRestart(log, en, t);
    if Missing(log, s, r) { MissingIsBelowStart(log, en, acts, r); }
    FlushCommitPasses(log, s, DroppedBy(log, en, acts), StartedAt(log, en, acts), i, r.partition);
    CommitThenCrash(log, s, t.committed, t, DroppedBy(log, en, acts), StartedAt(log, en, acts), r);
  }

  lemma FlushCommitPasses(log: Log, s: State, dropped: set<Rec>, start: map<nat, nat>, i: nat, p: nat)
    requires Inv(log, s, dropped) && AboveStart(s, start, dropped) && i < |s.flights|
    ensures
      var batch := s.flights[i].batch;
      var c := CommitBatch(s.committed, batch, PartitionsOf(batch));
      && At(start, p) <= At(c, p) <= At(s.next, p)
      && At(c, p) == if PastLast(batch, p) > 0 then PastLast(batch, p) else At(s.committed, p)
  {
    hide IsValid, Pending, ErrorsKept, NothingForgotten, FlightsSound, HeldIsLatest;
    var batch := s.flights[i].batch;
    FlightPending(s, i);
    CommitAboveStart(s, start, dropped, batch, PartitionsOf(batch), p);
    if PastLast(batch, p) > 0 {
      var w := PastLastWitness(batch, p);
      assert w in Pending(s) && p in PartitionsOf(batch);
    }
  }

  // ---------------------------------------------------------------- why not more

  const DEAD_LETTER: seq<Action> := [SendDlq(Ok), RecordError(Ok), CommitDlq(Ok)]

  /** What Run does with one message while nothing fails and nothing is flushed. */
  function HandleOne(log: Log, r: Rec): seq<Action> {
    [Fetch(r.partition)] + if IsValid(log, r) then [AddToBuffer] else DEAD_LETTER
  }

  /** The messages of partition p from offset m up to n. */
  function Feed(log: Log, p: nat, m: nat, n: nat): seq<Action>
    requires m <= n
  {
    if m == n then [] else Feed(log, p, m, n - 1) + HandleOne(log, Rec(p, n - 1))
  }

  lemma {:induction false} FeedDoesNotFlush(log: Log, p: nat, m: nat, n: nat)
    requires m <= n
    ensures forall a :: a in Feed(log, p, m, n) ==>
      !a.StartFlush? && !a.Crash? && !a.CommitFlight? && !a.CountFlight?
  {
    hide IsValid;
    if m < n { FeedDoesNotFlush(log, p, m, n - 1); }
  }

  lemma ValidOne(log: Log, en: bool, acts: seq<Action>, p: nat)
    requires
      var s := Exec(log, en, acts);
      s.held.None? && IsValid(log, Rec(p, At(s.next, p)))
    ensures
      var s := Exec(log, en, acts);
      Exec(log, en, acts + [Fetch(p)] + [AddToBuffer]) ==
        s.(next := s.next[p := At(s.next, p) + 1], buffer := s.buffer + [Rec(p, At(s.next, p))],
          consumed := s.consumed + 1)
  {
    hide IsValid, Exec;
    ExecSnoc(log, en, acts, Fetch(p));
    ExecSnoc(log, en, acts + [Fetch(p)], AddToBuffer);
  }

  lemma InvalidOne(log: Log, en: bool, acts: seq<Action>, p: nat)
    requires
      var s := Exec(log, en, acts);
      s.held.None? && !IsValid(log, Rec(p, At(s.next, p)))
    ensures
      var s, t := Exec(log, en, acts), Exec(log, en, acts + [Fetch(p)] + DEAD_LETTER);
      && t.held.None? && t.raw == s.raw && t.flights == s.flights && t.buffer == s.buffer
      && t.next == s.next[p := At(s.next, p) + 1] && At(t.committed, p) == At(s.next, p) + 1
  {
    hide IsValid, Exec, CommitBatch, Step;
    var s := Exec(log, en, acts);
    var a1 := acts + [Fetch(p)];
    var a2 := a1 + [SendDlq(Ok)];
    var a3 := a2 + [RecordError(Ok)];
    ExecSnoc(log, en, acts, Fetch(p));
    ExecSnoc(log, en, a1, SendDlq(Ok));
    ExecSnoc(log, en, a2, RecordError(Ok));
    ExecSnoc(log, en, a3, CommitDlq(Ok));
    assert a1 + DEAD_LETTER == a3 + [CommitDlq(Ok)];
    FetchAndRecord(log, en, s, p);
    CommitRecorded(log, en, Exec(log, en, a3));
  }

  /** An invalid message is fetched, sent and recorded. */
  lemma FetchAndRecord(log: Log, en: bool, s: State, p: nat)
    requires s.held.None? && !IsValid(log, Rec(p, At(s.next, p)))
    ensures
      var t := Step(log, en, Step(log, en, Step(log, en, s, Fetch(p)), SendDlq(Ok)), RecordError(Ok));
      && t.held == Some(Held(Rec(p, At(s.next, p)), Recorded)) && t.raw == s.raw && t.flights == s.flights
        && t.buffer == s.buffer
      && t.next == s.next[p := At(s.next, p) + 1]
  {
    hide IsValid, CommitBatch, PastLast;
  }

  lemma CommitRecorded(log: Log, en: bool, s: State)
    requires s.held.Some? && s.held.value.stage.Recorded?
    ensures
      var t, r := Step(log, en, s, CommitDlq(Ok)), s.held.value.rec;
      && t.held.None? && t.raw == s.raw && t.flights == s.flights && t.buffer == s.buffer && t.next == s.next
      && At(t.committed, r.partition) == r.offset + 1
  {
    hide IsValid, CommitBatch;
    CommitOneAt(s.committed, s.held.value.rec);
  }

  lemma CommitOneAt(committed: map<nat, nat>, r: Rec)
    ensures At(CommitBatch(committed, [r], {r.partition}), r.partition) == r.offset + 1
  {
    PastLastOne(r, r.partition);
  }

  /** After feeding the messages m to n, the valid ones are buffered, and an invalid last one is committed. */
  ghost predicate Fed(log: Log, s: State, t: State, p: nat, m: nat, n: nat) {
    && t.held.None? && t.raw == s.raw && t.flights == s.flights && At(t.next, p) == n
    && s.buffer <= t.buffer
    && (forall k :: m <= k < n && IsValid(log, Rec(p, k)) ==> Rec(p, k) in t.buffer)
    && (forall q :: q != p ==> At(t.next, q) == At(s.next, q))
    && (forall r :: r in t.buffer ==> r in s.buffer || (r.partition == p && m <= r.offset < n))
    && (m < n && !IsValid(log, Rec(p, n - 1)) ==> At(t.committed, p) == n)
  }

  lemma {:induction false} FeedRuns(log: Log, en: bool, acts: seq<Action>, p: nat, m: nat, n: nat)
    requires m <= n && Exec(log, en, acts).held.None? && At(Exec(log, en, acts).next, p) == m
    ensures Fed(log, Exec(log, en, acts), Exec(log, en, acts + Feed(log, p, m, n)), p, m, n)
  {
    hide IsValid, Exec, Fed;
    if m == n {
      assert acts + Feed(log, p, m, n) == acts;
      FedNothing(log, Exec(log, en, acts), p, m);
    } else {
      FeedRuns(log, en, acts, p, m, n - 1);
      FeedLast(log, en, acts, p, m, n);
    }
  }

  lemma FedNothing(log: Log, s: State, p: nat, m: nat)
    requires s.held.None? && At(s.next, p) == m
    ensures Fed(log, s, s, p, m, m)
  {
  }

  lemma FeedLast(log: Log, en: bool, acts: seq<Action>, p: nat, m: nat, n: nat)
    requires m < n && Fed(log, Exec(log, en, acts), Exec(log, en, acts + Feed(log, p, m, n - 1)), p, m, n - 1)
    ensures Fed(log, Exec(log, en, acts), Exec(log, en, acts + Feed(log, p, m, n)), p, m, n)
  {
    hide IsValid, Exec;
    var before, r := acts + Feed(log, p, m, n - 1), Rec(p, n - 1);
    if IsValid(log, r) {
      ValidOne(log, en, before, p);
      assert acts + Feed(log, p, m, n) == before + [Fetch(p)] + [AddToBuffer];
    } else {
      InvalidOne(log, en, before, p);
      assert acts + Feed(log, p, m, n) == before + [Fetch(p)] + DEAD_LETTER;
    }
    FedOneMore(log, Exec(log, en, acts), Exec(log, en, before), Exec(log, en, acts + Feed(log, p, m, n)), p, m, n);
  }

  lemma FedOneMore(log: Log, s: State, mid: State, t: State, p: nat, m: nat, n: nat)
    requires m < n && Fed(log, s, mid, p, m, n - 1)
    requires t.held.None? && t.raw == mid.raw && t.flights == mid.flights && At(t.next, p) == n
    requires forall q :: q != p ==> At(t.next, q) == At(mid.next, q)
    requires t.buffer == mid.buffer + if IsValid(log, Rec(p, n - 1)) then [Rec(p, n - 1)] else []
    requires !IsValid(log, Rec(p, n - 1)) ==> At(t.committed, p) == n
    ensures Fed(log, s, t, p, m, n)
  {
    hide IsValid;
    if IsValid(log, Rec(p, n - 1)) { assert t.buffer[|mid.buffer|] == Rec(p, n - 1); }
    assert forall r :: r in mid.buffer ==> r in t.buffer;
  }

  lemma ExecNothing(log: Log, en: bool)
    ensures Exec(log, en, []) == Start()
  {
  }

  lemma CrashLeavesMissing(log: Log, en: bool, acts: seq<Action>, r: Rec)
    requires IsValid(log, r) && r.offset < At(Exec(log, en, acts).committed, r.partition)
      && r !in Exec(log, en, acts).raw
    ensures Missing(log, Exec(log, en, acts + [Crash]), r)
  {
    hide IsValid, Exec, Step, Pending;
    var s := Exec(log, en, acts);
    ExecSnoc(log, en, acts, Crash);
    CrashIsRestart(log, en, s);
    RestartForgets(s);
  }

  /** A run that crashes once, at its end, having fetched partition p up to n. */
  ghost predicate CrashesAtEnd(log: Log, en: bool, acts: seq<Action>, p: nat, n: nat) {
    && acts != [] && (forall a :: a in acts[..|acts| - 1] ==> !a.Crash?) && acts[|acts| - 1] == Crash
    && At(Exec(log, en, acts[..|acts| - 1]).next, p) == n
  }

  /**
   The dead-letter path alone: with a valid message before an invalid one, a run without a single
   flush loses the valid one.
   */
  lemma EarlierValidIsLost(log: Log, en: bool, p: nat, i: nat, j: nat) returns (acts: seq<Action>)
    requires i < j && IsValid(log, Rec(p, i)) && !IsValid(log, Rec(p, j))
    ensures OneFlusher(log, en, acts) && Missing(log, Exec(log, en, acts), Rec(p, i))
    ensures CrashesAtEnd(log, en, acts, p, j + 1)
  {
    hide IsValid, Exec, Missing;
    ExecNothing(log, en);
    FeedRuns(log, en, [], p, 0, j + 1);
    var feed := Feed(log, p, 0, j + 1);
    assert [] + feed == feed;
    acts := feed + [Crash];
    CrashLeavesMissing(log, en, feed, Rec(p, i));
    FeedDoesNotFlush(log, p, 0, j + 1);
    NoFlushNoOverlap(log, en, acts);
    assert acts[..|acts| - 1] == feed;
  }

  lemma NoFlushNoOverlap(log: Log, en: bool, acts: seq<Action>)
    requires forall a :: a in acts ==> !a.StartFlush?
    ensures OneFlusher(log, en, acts)
  {
    hide Exec;
    assert forall n: nat :: n < |acts| ==> acts[n] in acts;
  }

  /**
   The exact condition under one flusher: over all its runs, "below the committed offset"
   means "stored" for the valid messages of a partition if and only if none of them precedes
   an invalid one.
   */
  lemma AtLeastOnceExactly(log: Log, en: bool, p: nat)
    ensures (forall acts :: OneFlusher(log, en, acts) ==> Stored(log, Exec(log, en, acts), p)) <==> InvalidFirst(log, p)
  {
    hide IsValid, Exec, Step;
    if InvalidFirst(log, p) {
      forall acts | OneFlusher(log, en, acts) ensures Stored(log, Exec(log, en, acts), p) {
        WatermarkInvariant(log, en, acts, p);
      }
    } else {
      var i: nat, j: nat :| i < j && IsValid(log, Rec(p, i)) && !IsValid(log, Rec(p, j));
      var acts := EarlierValidIsLost(log, en, p, i, j);
      assert !Stored(log, Exec(log, en, acts), p);
    }
  }

  lemma StartFlushNow(log: Log, en: bool, acts: seq<Action>)
    requires Exec(log, en, acts).buffer != []
    ensures
      var s := Exec(log, en, acts);
      Exec(log, en, acts + [StartFlush]) == s.(buffer := [], flights := s.flights + [Flight(s.buffer, Inserting(0))])
  {
    hide Exec;
    ExecSnoc(log, en, acts, StartFlush);
  }

  /** The first batch: message r with everything before it in its partition. */
  lemma BatchUpTo(log: Log, en: bool, r: Rec)
    requires IsValid(log, r)
    ensures
      var s := Exec(log, en, Feed(log, r.partition, 0, r.offset + 1));
      Fed(log, Start(), s, r.partition, 0, r.offset + 1) && r in s.buffer
  {
    hide IsValid, Exec;
    var feed := Feed(log, r.partition, 0, r.offset + 1);
    ExecNothing(log, en);
    FeedRuns(log, en, [], r.partition, 0, r.offset + 1);
    assert [] + feed == feed && r == Rec(r.partition, r.offset);
  }

  /** Where the second batch starts reading. */
  function After(r: Rec, q: Rec): nat {
    if r.partition == q.partition then r.offset + 1 else 0
  }

  function TwoFeeds(log: Log, r: Rec, q: Rec): seq<Action>
    requires r.partition == q.partition ==> r.offset < q.offset
  {
    Feed(log, r.partition, 0, r.offset + 1) + [StartFlush] + Feed(log, q.partition, After(r, q), q.offset + 1)
      + [StartFlush]
  }

  /** Two flushes under way: one up to message r, and one after it up to message q. */
  ghost predicate TwoBatches(log: Log, en: bool, s: State, r: Rec, q: Rec) {
    && |s.flights| == 2 && s.flights[0].phase == s.flights[1].phase == Inserting(0)
    && s.flights[0].batch == Exec(log, en, Feed(log, r.partition, 0, r.offset + 1)).buffer
    && r in s.flights[0].batch && q in s.flights[1].batch && s.raw == multiset{}
    && (forall x :: x in s.flights[0].batch ==> x.partition == r.partition && x.offset <= r.offset)
    && (forall x :: x in s.flights[1].batch ==> x.partition == q.partition && After(r, q) <= x.offset)
    && At(s.next, q.partition) == q.offset + 1
  }

  lemma StartTwo(log: Log, en: bool, r: Rec, q: Rec)
    requires IsValid(log, r) && IsValid(log, q) && (r.partition == q.partition ==> r.offset < q.offset)
    ensures TwoBatches(log, en, Exec(log, en, TwoFeeds(log, r, q)), r, q)
  {
    hide IsValid, Exec;
    var one := Feed(log, r.partition, 0, r.offset + 1);
    BatchUpTo(log, en, r);
    StartFlushNow(log, en, one);
    FeedRuns(log, en, one + [StartFlush], q.partition, After(r, q), q.offset + 1);
    var two := one + [StartFlush] + Feed(log, q.partition, After(r, q), q.offset + 1);
    assert q == Rec(q.partition, q.offset) && q in Exec(log, en, two).buffer;
    StartFlushNow(log, en, two);
  }

  lemma TwoFeedsOnlyFeed(log: Log, r: Rec, q: Rec)
    requires r.partition == q.partition ==> r.offset < q.offset
    ensures forall a :: a in TwoFeeds(log, r, q) ==> !a.Crash? && !a.CommitFlight? && !a.CountFlight?
  {
    FeedDoesNotFlush(log, r.partition, 0, r.offset + 1);
    FeedDoesNotFlush(log, q.partition, After(r, q), q.offset + 1);
  }

  /** Two overlapping flushes: the one of message j commits past message i, whose own flush is still inserting. */
  lemma OverlappedValidIsLost(log: Log, en: bool, p: nat, i: nat, j: nat) returns (acts: seq<Action>)
    requires i < j && IsValid(log, Rec(p, i)) && IsValid(log, Rec(p, j))
    ensures Missing(log, Exec(log, en, acts), Rec(p, i))
    ensures CrashesAtEnd(log, en, acts, p, j + 1)
  {
    hide IsValid, Exec, Missing, TwoFeeds;
    var a, b := Rec(p, i), Rec(p, j);
    StartTwo(log, en, a, b);
    TwoFeedsOnlyFeed(log, a, b);
    acts := CommitSecond(log, en, TwoFeeds(log, a, b), a, b);
  }

  lemma CommitSecond(log: Log, en: bool, acts: seq<Action>, a: Rec, b: Rec) returns (lost: seq<Action>)
    requires
      var s := Exec(log, en, acts);
      && |s.flights| == 2 && s.flights[1].phase == Inserting(0) && a in s.flights[0].batch
      && b in s.flights[1].batch && a !in s.flights[1].batch && a !in s.raw
    requires IsValid(log, a) && a.partition == b.partition && a.offset < b.offset
    requires forall x :: x in acts ==> !x.Crash?
    ensures Missing(log, Exec(log, en, lost), a)
    ensures CrashesAtEnd(log, en, lost, a.partition, At(Exec(log, en, acts).next, a.partition))
  {
    hide IsValid, Exec, Missing, PastLast, CommitBatch, Step, Pending;
    var s := Exec(log, en, acts);
    var mid := acts + [InsertAttempt(1, true, [])];
    ExecSnoc(log, en, acts, InsertAttempt(1, true, []));
    SecondInserted(log, en, s);
    FlightPending(Exec(log, en, mid), 0);
    PastLastBound(s.flights[1].batch, a.partition, a.offset);
    lost := mid + [CommitFlight(1, true, {}), Crash];
    FlushCommitLosesExactly(log, en, mid, 1, a);
    ExecSnoc(log, en, mid, CommitFlight(1, true, {}));
    CommitFetchesNothing(log, en, Exec(log, en, mid));
    assert lost[..|lost| - 1] == mid + [CommitFlight(1, true, {})];
  }

  lemma SecondInserted(log: Log, en: bool, s: State)
    requires |s.flights| == 2 && s.flights[1].phase == Inserting(0)
    ensures Step(log, en, s, InsertAttempt(1, true, []))
      == s.(raw := s.raw + multiset(s.flights[1].batch),
        flights := [s.flights[0], Flight(s.flights[1].batch, Inserted)])
  {
    assert s.flights[1 := Flight(s.flights[1].batch, Inserted)] == [s.flights[0], Flight(s.flights[1].batch, Inserted)];
  }

  lemma CommitFetchesNothing(log: Log, en: bool, s: State)
    ensures Step(log, en, s, CommitFlight(1, true, {})).next == s.next
  {
  }

  /**
   And without the restriction to one flusher: over all runs, "below the committed offset"
   means "stored" for a partition if and only if it has no valid message at all.
   */
  lemma OverlapNeverSafe(log: Log, en: bool, p: nat)
    ensures (forall acts :: Stored(log, Exec(log, en, acts), p)) <==> forall i: nat :: !IsValid(log, Rec(p, i))
  {
    hide IsValid, Exec, Step;
    if forall i: nat :: !IsValid(log, Rec(p, i)) {
      forall acts ensures Stored(log, Exec(log, en, acts), p) {
        assert forall r: Rec :: r.partition == p ==> r == Rec(p, r.offset);
      }
    } else {
      var i: nat :| IsValid(log, Rec(p, i));
      var acts;
      if IsValid(log, Rec(p, i + 1)) {
        acts := OverlappedValidIsLost(log, en, p, i, i + 1);
      } else {
        acts := EarlierValidIsLost(log, en, p, i, i + 1);
      }
      assert !Stored(log, Exec(log, en, acts), p);
    }
  }
}
