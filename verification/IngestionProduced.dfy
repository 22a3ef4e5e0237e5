/**
 The exact conditions of IngestionWatermark for a partition that holds n messages so far: runs
 in which nothing from offset n on is ever fetched, and conditions on the first n messages only.
 */
module IngestionProduced {
  import opened Common
  import opened PageView
  import opened Ingestion
  import opened IngestionGuarantees
  import opened IngestionWatermark

  /** At no time of the run has partition p been fetched past n. */
  ghost predicate Within(log: Log, en: bool, acts: seq<Action>, p: nat, n: nat) {
    forall k: nat {:trigger acts[..k]} :: k <= |acts| ==> At(Exec(log, en, acts[..k]).next, p) <= n
  }

  lemma WithinPrefix(log: Log, en: bool, acts: seq<Action>, p: nat, n: nat)
    requires Within(log, en, acts, p, n)
    ensures At(Exec(log, en, acts).next, p) <= n
    ensures acts != [] ==> Within(log, en, acts[..|acts| - 1], p, n)
  {
    hide Exec;
    assert acts[..|acts|] == acts;
    if acts != [] {
      var before := acts[..|acts| - 1];
      forall k: nat | k <= |before| ensures At(Exec(log, en, before[..k]).next, p) <= n {
        assert before[..k] == acts[..k];
      }
    }
  }

  // ---------------------------------------------------------------- what is not fetched does not matter

  const GOOD: Payload := Some(Event("home", "u1", 6000, Some(1_700_000_000_000), "EU", false))

  /** The same log up to offset n of partition p, with valid messages from there on. */
  function ValidFrom(log: Log, p: nat, n: nat): Log {
    (r: Rec) => if r.partition == p && r.offset >= n then GOOD else log(r)
  }

  lemma SameBelow(log: Log, p: nat, n: nat, r: Rec)
    ensures IsValid(ValidFrom(log, p, n), r) == ((r.partition == p && r.offset >= n) || IsValid(log, r))
  {
  }

  /** A step looks at the log only through the message Run holds. */
  lemma StepSame(log: Log, log': Log, en: bool, s: State, a: Action)
    requires s.held.Some? ==> IsValid(log, s.held.value.rec) == IsValid(log', s.held.value.rec)
    ensures Step(log, en, s, a) == Step(log', en, s, a)
  {
    hide IsValid, CommitBatch, CanInsert;
  }

  lemma HeldIsBelow(log: Log, s: State, dropped: set<Rec>)
    requires Inv(log, s, dropped) && s.held.Some?
    ensures s.held.value.rec.offset < At(s.next, s.held.value.rec.partition)
  {
    hide IsValid;
  }

  lemma {:induction false} ExecSame(log: Log, en: bool, acts: seq<Action>, p: nat, n: nat)
    requires Within(log, en, acts, p, n)
    ensures Exec(log, en, acts) == Exec(ValidFrom(log, p, n), en, acts)
  {
    hide Step, Within, Inv, IsValid;
    if acts != [] {
      WithinPrefix(log, en, acts, p, n);
      var before := acts[..|acts| - 1];
      ExecSame(log, en, before, p, n);
      WithinPrefix(log, en, before, p, n);
      var s := Exec(log, en, before);
      if s.held.Some? {
        ExecKeeps(log, en, before);
        HeldIsBelow(log, s, DroppedBy(log, en, before));
        SameBelow(log, p, n, s.held.value.rec);
      }
      StepSame(log, ValidFrom(log, p, n), en, s, acts[|acts| - 1]);
    }
  }

  /** A run that crashes only at its end has never fetched past where it was then. */
  lemma {:induction false} NextGrows(log: Log, en: bool, acts: seq<Action>, p: nat, k: nat)
    requires k <= |acts| && forall a :: a in acts ==> !a.Crash?
    ensures At(Exec(log, en, acts[..k]).next, p) <= At(Exec(log, en, acts).next, p)
    decreases |acts|
  {
    hide Step;
    if k == |acts| {
      assert acts[..k] == acts;
    } else {
      var before := acts[..|acts| - 1];
      NextGrows(log, en, before, p, k);
      assert before[..k] == acts[..k] && acts[|acts| - 1] in acts;
      NextGrowsOnce(log, en, Exec(log, en, before), acts[|acts| - 1], p);
    }
  }

  lemma NextGrowsOnce(log: Log, en: bool, s: State, a: Action, p: nat)
    requires !a.Crash?
    ensures At(s.next, p) <= At(Step(log, en, s, a).next, p)
  {
    hide IsValid, CommitBatch, CanInsert;
  }

  lemma CrashAtEndIsWithin(log: Log, en: bool, acts: seq<Action>, p: nat, n: nat)
    requires CrashesAtEnd(log, en, acts, p, n)
    ensures Within(log, en, acts, p, n)
  {
    hide Exec, Step, Inv;
    var body := acts[..|acts| - 1];
    forall k: nat | k <= |acts| ensures At(Exec(log, en, acts[..k]).next, p) <= n {
      if k < |acts| {
        NextGrows(log, en, body, p, k);
        assert body[..k] == acts[..k];
      } else {
        assert acts[..k] == acts == body + [Crash];
        ExecSnoc(log, en, body, Crash);
        CrashIsRestart(log, en, Exec(log, en, body));
        ExecKeeps(log, en, body);
        CommittedBelowNext(log, Exec(log, en, body), DroppedBy(log, en, body), p);
      }
    }
  }

  lemma CommittedBelowNext(log: Log, s: State, dropped: set<Rec>, p: nat)
    requires Inv(log, s, dropped)
    ensures At(s.committed, p) <= At(s.next, p)
  {
    hide IsValid;
  }

  // ---------------------------------------------------------------- one flusher

  /** Among the first n messages of the partition no valid one precedes an invalid one. */
  ghost predicate InvalidFirstBelow(log: Log, p: nat, n: nat) {
    forall i: nat, j: nat :: i < j < n && IsValid(log, Rec(p, i)) ==> IsValid(log, Rec(p, j))
  }

  lemma StoredBelow(log: Log, en: bool, acts: seq<Action>, p: nat, n: nat)
    requires OneFlusher(log, en, acts) && Within(log, en, acts, p, n) && InvalidFirstBelow(log, p, n)
    ensures Stored(log, Exec(log, en, acts), p)
  {
    hide Exec, IsValid, Inv;
    var log' := ValidFrom(log, p, n);
    forall r ensures IsValid(log', r) == ((r.partition == p && r.offset >= n) || IsValid(log, r)) {
      SameBelow(log, p, n, r);
    }
    assert InvalidFirst(log', p);
    forall k: nat | k <= |acts| ensures Exec(log', en, acts[..k]) == Exec(log, en, acts[..k]) {
      WithinFirst(log, en, acts, p, n, k);
      ExecSame(log, en, acts[..k], p, n);
    }
    assert acts[..|acts|] == acts;
    assert OneFlusher(log', en, acts);
    WatermarkInvariant(log', en, acts, p);
  }

  lemma WithinFirst(log: Log, en: bool, acts: seq<Action>, p: nat, n: nat, k: nat)
    requires Within(log, en, acts, p, n) && k <= |acts|
    ensures Within(log, en, acts[..k], p, n)
  {
    hide Exec;
    forall m: nat | m <= k ensures At(Exec(log, en, acts[..k][..m]).next, p) <= n {
      assert acts[..k][..m] == acts[..m];
    }
  }

  /**
   One flusher and n messages: over all runs, "below the committed offset" means "stored" for
   the valid ones if and only if none of them precedes an invalid one.
   */
  lemma AtLeastOnceExactlyBelow(log: Log, en: bool, p: nat, n: nat)
    ensures
      (forall acts :: OneFlusher(log, en, acts) && Within(log, en, acts, p, n) ==> Stored(log, Exec(log, en, acts), p))
      <==> InvalidFirstBelow(log, p, n)
  {
    hide Exec, IsValid, Within, Inv;
    if InvalidFirstBelow(log, p, n) {
      forall acts | OneFlusher(log, en, acts) && Within(log, en, acts, p, n)
        ensures Stored(log, Exec(log, en, acts), p)
      {
        StoredBelow(log, en, acts, p, n);
      }
    } else {
      var i: nat, j: nat :| i < j < n && IsValid(log, Rec(p, i)) && !IsValid(log, Rec(p, j));
      var acts := EarlierValidIsLost(log, en, p, i, j);
      CrashAtEndIsWithin(log, en, acts, p, j + 1);
      WithinMore(log, en, acts, p, j + 1, n);
      assert !Stored(log, Exec(log, en, acts), p);
    }
  }

  lemma WithinMore(log: Log, en: bool, acts: seq<Action>, p: nat, m: nat, n: nat)
    requires Within(log, en, acts, p, m) && m <= n
    ensures Within(log, en, acts, p, n)
  {
    hide Exec;
  }

  // ---------------------------------------------------------------- any flushers

  /** Among the first n messages of the partition no valid one precedes any other. */
  ghost predicate OnlyLastValid(log: Log, p: nat, n: nat) {
    forall i: nat :: i + 1 < n ==> !IsValid(log, Rec(p, i))
  }

  /** The last message can be committed only by the flush that has inserted it. */
  ghost predicate LastSafe(log: Log, s: State, p: nat, n: nat) {
    n > 0 && IsValid(log, Rec(p, n - 1)) && At(s.committed, p) >= n ==> Rec(p, n - 1) in s.raw
  }

  lemma LastStaysSafe(log: Log, en: bool, s: State, dropped: set<Rec>, a: Action, p: nat, n: nat)
    requires Inv(log, s, dropped) && LastSafe(log, s, p, n) && At(s.next, p) <= n
    ensures LastSafe(log, Step(log, en, s, a), p, n)
  {
    hide Inv, Step, IsValid;
    if a.CommitDlq? {
      DlqLeavesLast(log, en, s, dropped, a.io, p, n);
    } else if a.CommitFlight? {
      FlushLeavesLast(log, en, s, dropped, a, p, n);
    } else {
      SameCommitted(log, en, s, a);
    }
  }

  lemma DlqLeavesLast(log: Log, en: bool, s: State, dropped: set<Rec>, io: IO, p: nat, n: nat)
    requires Inv(log, s, dropped) && LastSafe(log, s, p, n) && At(s.next, p) <= n
    ensures LastSafe(log, Step(log, en, s, CommitDlq(io)), p, n)
  {
    hide Inv, IsValid, CommitBatch;
    if s.held.Some? && s.held.value.stage.Recorded? {
      var h := s.held.value.rec;
      RecordedIsInvalid(log, s, dropped);
      HeldIsBelow(log, s, dropped);
      CommitBatchAt(s.committed, [h], {h.partition}, p);
      PastLastOne(h, p);
      assert h == Rec(h.partition, h.offset);
    }
  }

  lemma FlushLeavesLast(log: Log, en: bool, s: State, dropped: set<Rec>, a: Action, p: nat, n: nat)
    requires Inv(log, s, dropped) && LastSafe(log, s, p, n) && At(s.next, p) <= n && a.CommitFlight?
    ensures LastSafe(log, Step(log, en, s, a), p, n)
  {
    hide Inv, IsValid, CommitBatch, PastLast;
    if a.i < |s.flights| && s.flights[a.i].phase.Inserted? {
      var f := s.flights[a.i];
      var applied := if a.ok then PartitionsOf(f.batch) else a.partitions * PartitionsOf(f.batch);
      CommitBatchAt(s.committed, f.batch, applied, p);
      if PastLast(f.batch, p) >= n > 0 {
        var top := PastLastWitness(f.batch, p);
        InsertedIsStored(log, s, dropped, a.i, top);
        assert top == Rec(p, n - 1);
      }
    }
  }

  lemma InsertedIsStored(log: Log, s: State, dropped: set<Rec>, i: nat, r: Rec)
    requires Inv(log, s, dropped) && i < |s.flights| && s.flights[i].phase.Inserted? && r in s.flights[i].batch
    ensures r in s.raw && r.offset < At(s.next, r.partition)
  {
    hide IsValid, Pending;
    assert s.flights[i] in s.flights;
    PendingMember(s, r);
  }

  lemma {:induction false} LastIsSafe(log: Log, en: bool, acts: seq<Action>, p: nat, n: nat)
    requires Within(log, en, acts, p, n)
    ensures LastSafe(log, Exec(log, en, acts), p, n) && At(Exec(log, en, acts).committed, p) <= n
  {
    hide Step, Within, Inv, IsValid;
    WithinPrefix(log, en, acts, p, n);
    ExecKeeps(log, en, acts);
    CommittedBelowNext(log, Exec(log, en, acts), DroppedBy(log, en, acts), p);
    if acts != [] {
      var before := acts[..|acts| - 1];
      LastIsSafe(log, en, before, p, n);
      WithinPrefix(log, en, before, p, n);
      ExecKeeps(log, en, before);
      LastStaysSafe(log, en, Exec(log, en, before), DroppedBy(log, en, before), acts[|acts| - 1], p, n);
    }
  }

  /**
   Any flushers and n messages: over all runs, "below the committed offset" means "stored" for
   the valid ones if and only if none of them precedes any other message.
   */
  lemma OverlapSafeExactlyBelow(log: Log, en: bool, p: nat, n: nat)
    ensures (forall acts :: Within(log, en, acts, p, n) ==> Stored(log, Exec(log, en, acts), p)) <==>
      OnlyLastValid(log, p, n)
  {
    hide Exec, IsValid, Within, Inv;
    if OnlyLastValid(log, p, n) {
      forall acts | Within(log, en, acts, p, n) ensures Stored(log, Exec(log, en, acts), p) {
        LastIsSafe(log, en, acts, p, n);
        assert forall r: Rec :: r.partition == p ==> r == Rec(p, r.offset);
      }
    } else {
      var i: nat :| i + 1 < n && IsValid(log, Rec(p, i));
      var acts;
      if IsValid(log, Rec(p, i + 1)) {
        acts := OverlappedValidIsLost(log, en, p, i, i + 1);
      } else {
        acts := EarlierValidIsLost(log, en, p, i, i + 1);
      }
      CrashAtEndIsWithin(log, en, acts, p, i + 2);
      WithinMore(log, en, acts, p, i + 2, n);
      assert !Stored(log, Exec(log, en, acts), p);
    }
  }
}
