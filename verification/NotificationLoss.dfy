/**
 What the notification consumer does not promise, exactly: which entries of a topic can be
 lost, when the saved offset can move back, and what can still store an id afterwards.
 */
module NotificationLoss {
  import opened Consumption
  import opened Notification

  type Action = Notification.Action

  // ---------------------------------------------------------------- continuing a run

  /** A run goes on with one step of the consumer. */
  lemma Then(w: World, acts: seq<Action>, b: Consumption.Action) returns (more: seq<Action>)
    ensures more == acts + [Consume(b)]
    ensures
      var s := Exec(w, acts);
      Exec(w, more) == s.(consumer := Consumption.Step(s.log, s.consumer, b))
  {
    hide Consumption.Step;
    more := acts + [Consume(b)];
    assert more[..|acts|] == acts;
  }

  /** The consumer reads on at n, and nothing else of interest has changed. */
  ghost predicate ReadsOn(s: Sys, t: Sys, n: nat) {
    && t.log == s.log && t.consumer.phase == Reading(n)
    && t.consumer.docs == s.consumer.docs && t.consumer.saved == s.consumer.saved
  }

  /** Failed attempts on the entry being saved, as many as do not exhaust it. */
  lemma {:induction false} FailInserts(w: World, acts: seq<Action>, o: nat, n: nat) returns (more: seq<Action>)
    requires n < INSERT_ATTEMPTS && o < |Exec(w, acts).log| && Exec(w, acts).log[o].Message?
    requires Exec(w, acts).consumer.phase == Saving(o, 0)
    ensures acts <= more
    ensures
      var s, t := Exec(w, acts), Exec(w, more);
      && t.log == s.log && t.consumer.phase == Saving(o, n)
      && t.consumer.docs == s.consumer.docs && t.consumer.saved == s.consumer.saved
  {
    hide Exec;
    more := acts;
    if n > 0 {
      more := FailInserts(w, acts, o, n - 1);
      more := Then(w, more, Insert(false));
    }
  }

  /** An entry is passed without being stored: skipped, or given up. */
  lemma PassOne(w: World, acts: seq<Action>, o: nat) returns (more: seq<Action>)
    requires Exec(w, acts).consumer.phase == Reading(o) && o < |Exec(w, acts).log|
    ensures acts <= more && ReadsOn(Exec(w, acts), Exec(w, more), o + 1)
  {
    hide Exec;
    more := Then(w, acts, Fetch);
    if Exec(w, acts).log[o].Message? {
      more := FailInserts(w, more, o, INSERT_ATTEMPTS - 1);
      more := Then(w, more, Insert(false));
    }
  }

  lemma {:induction false} PassUntil(w: World, acts: seq<Action>, o: nat, n: nat) returns (more: seq<Action>)
    requires Exec(w, acts).consumer.phase == Reading(o) && o <= n <= |Exec(w, acts).log|
    ensures acts <= more && ReadsOn(Exec(w, acts), Exec(w, more), n)
    decreases n - o
  {
    hide Exec;
    more := acts;
    if o < n {
      more := PassOne(w, acts, o);
      more := PassUntil(w, more, o + 1, n);
    }
  }

  /** An entry is stored at once and the offset after it is saved. */
  lemma SaveOne(w: World, acts: seq<Action>, j: nat) returns (more: seq<Action>)
    requires Exec(w, acts).consumer.phase == Reading(j) && j < |Exec(w, acts).log| && Exec(w, acts).log[j].Message?
    ensures acts <= more
    ensures
      var s, t := Exec(w, acts), Exec(w, more);
      && t.log == s.log && t.consumer.saved == j + 1
      && t.consumer.docs == InsertUnique(s.consumer.docs, s.log[j].event)
  {
    hide Exec, InsertUnique;
    more := Then(w, acts, Fetch);
    more := Then(w, more, Insert(true));
    more := Then(w, more, SaveOffset(true));
  }

  /** A run that fills the topic before anything else happens. */
  lemma {:induction false} Fill(w: World, log: seq<Entry>) returns (acts: seq<Action>)
    ensures Exec(w, acts) == Notification.Start().(log := log)
  {
    if log == [] {
      acts := [];
    } else {
      acts := Fill(w, log[..|log| - 1]);
      var a := Foreign(log[|log| - 1]);
      assert (acts + [a])[..|acts|] == acts;
      acts := acts + [a];
    }
  }

  // ---------------------------------------------------------------- which entries can be lost

  /**
   From any reachable state about to read an entry that is not stored, with an entry of another
   id anywhere later, the saved offset can pass it with its event not stored.
   */
  lemma GivenUpEntryIsLost(w: World, acts: seq<Action>, o: nat, j: nat) returns (more: seq<Action>)
    requires Exec(w, acts).consumer.phase == Reading(o) && o < j < |Exec(w, acts).log|
    requires Exec(w, acts).log[o].Message? && Exec(w, acts).log[j].Message?
    requires Exec(w, acts).log[j].event.id != Exec(w, acts).log[o].event.id
    requires !Has(Exec(w, acts).consumer.docs, Exec(w, acts).log[o].event.id)
    ensures acts <= more
    ensures
      var s := Exec(w, more);
      s.log == Exec(w, acts).log && s.consumer.saved == j + 1 && !Has(s.consumer.docs, s.log[o].event.id)
  {
    hide Exec, Has, InsertUnique;
    more := PassUntil(w, acts, o, j);
    HasAfter(Exec(w, more).consumer.docs, Exec(w, more).log[j].event, Exec(w, more).log[o].event.id);
    more := SaveOne(w, more, j);
  }

  /** An offset to save lies just past an entry that decodes and is stored. */
  ghost predicate JustStored(log: seq<Entry>, docs: seq<Event>, n: nat) {
    n == 0 || (n <= |log| && log[n - 1].Message? && Has(docs, log[n - 1].event.id))
  }

  /** The saved offset, every late one, and the one about to be saved. */
  ghost predicate OffsetsJustStored(log: seq<Entry>, s: Consumption.State) {
    && JustStored(log, s.docs, s.saved)
    && (forall n :: n in s.lateOffsets ==> JustStored(log, s.docs, n) && n > 0)
    && (s.phase.Storing? ==> JustStored(log, s.docs, s.phase.offset + 1))
  }

  lemma JustStoredGrows(log: seq<Entry>, docs: seq<Event>, log': seq<Entry>, d: Event, n: nat)
    requires JustStored(log, docs, n) && log <= log'
    ensures JustStored(log', docs, n) && JustStored(log', InsertUnique(docs, d), n)
  {
    InsertUniqueHas(docs, d);
  }

  lemma ConsumerStepStores(log: seq<Entry>, s: Consumption.State, b: Consumption.Action)
    requires OffsetsJustStored(log, s)
    ensures OffsetsJustStored(log, Consumption.Step(log, s, b))
    ensures
      var t := Consumption.Step(log, s, b);
      t.saved == s.saved || (t.saved > 0 && JustStored(log, t.docs, t.saved))
  {
    hide Has, InsertUnique, JustStored;
    JustZero(log, s.docs);
    if b == Insert(true) && s.phase.Saving? && s.phase.offset < |log| && log[s.phase.offset].Message? {
      StoreKeepsOffsets(log, s, log[s.phase.offset].event);
      NowJustStored(log, s.docs, s.phase.offset);
    } else if b.LateInsert? {
      StoreKeepsOffsets(log, s, b.doc);
    }
  }

  lemma JustZero(log: seq<Entry>, docs: seq<Event>)
    ensures JustStored(log, docs, 0)
  {
  }

  lemma NowJustStored(log: seq<Entry>, docs: seq<Event>, o: nat)
    requires o < |log| && log[o].Message?
    ensures JustStored(log, InsertUnique(docs, log[o].event), o + 1)
  {
    InsertUniqueHas(docs, log[o].event);
  }

  lemma StoreKeepsOffsets(log: seq<Entry>, s: Consumption.State, d: Event)
    requires OffsetsJustStored(log, s)
    ensures OffsetsJustStored(log, s.(docs := InsertUnique(s.docs, d)))
  {
    hide Has, InsertUnique, JustStored;
    forall n | JustStored(log, s.docs, n) ensures JustStored(log, InsertUnique(s.docs, d), n) {
      JustStoredGrows(log, s.docs, log, d, n);
    }
  }

  lemma GrowKeepsOffsets(log: seq<Entry>, log': seq<Entry>, s: Consumption.State)
    requires OffsetsJustStored(log, s) && log <= log'
    ensures OffsetsJustStored(log', s)
  {
    hide Has;
    assert forall n: nat :: JustStored(log, s.docs, n) ==> JustStored(log', s.docs, n);
  }

  lemma {:induction false} SavedIsJustStored(w: World, acts: seq<Action>)
    ensures OffsetsJustStored(Exec(w, acts).log, Exec(w, acts).consumer)
  {
    hide OffsetsJustStored, Consumption.Step;
    if acts == [] {
      StartStores();
    } else {
      var before, a := Exec(w, acts[..|acts| - 1]), acts[|acts| - 1];
      SavedIsJustStored(w, acts[..|acts| - 1]);
      if a.Consume? {
        ConsumerStepStores(before.log, before.consumer, a.a);
      } else {
        GrowKeepsOffsets(before.log, Notification.Step(w, before, a).log, before.consumer);
      }
    }
  }

  lemma StartStores()
    ensures OffsetsJustStored([], Consumption.Start())
  {
  }

  /** Below the saved offset every run has the entry's id stored. */
  ghost predicate NeverLost(w: World, log: seq<Entry>, o: nat)
    requires o < |log| && log[o].Message?
  {
    forall acts :: Exec(w, acts).log == log && o < Exec(w, acts).consumer.saved ==>
      Has(Exec(w, acts).consumer.docs, log[o].event.id)
  }

  /** Every later entry that decodes is a copy of this one. */
  ghost predicate OnlyCopiesFollow(log: seq<Entry>, o: nat)
    requires o < |log| && log[o].Message?
  {
    forall j :: o < j < |log| && log[j].Message? ==> log[j].event.id == log[o].event.id
  }

  /**
   The exact condition for an entry of a topic: "below the saved offset" means "stored" over
   all runs if and only if every later entry that decodes carries the same id.
   */
  lemma NeverLostExactly(w: World, log: seq<Entry>, o: nat)
    requires o < |log| && log[o].Message?
    ensures NeverLost(w, log, o) <==> OnlyCopiesFollow(log, o)
  {
    hide Exec, Has;
    if OnlyCopiesFollow(log, o) {
      forall acts | Exec(w, acts).log == log && o < Exec(w, acts).consumer.saved
        ensures Has(Exec(w, acts).consumer.docs, log[o].event.id)
      {
        SavedIsJustStored(w, acts);
        assert JustStored(log, Exec(w, acts).consumer.docs, Exec(w, acts).consumer.saved);
      }
    } else {
      var j :| o < j < |log| && log[j].Message? && log[j].event.id != log[o].event.id;
      var acts := ReadFirst(w, log);
      acts := PassUntil(w, acts, 0, o);
      NothingStored(log[o].event.id);
      var lost := GivenUpEntryIsLost(w, acts, o, j);
      assert !Has(Exec(w, lost).consumer.docs, log[o].event.id);
    }
  }

  /** A run on a topic filled beforehand, up to its first read. */
  lemma ReadFirst(w: World, log: seq<Entry>) returns (acts: seq<Action>)
    ensures ReadsOn(Notification.Start().(log := log), Exec(w, acts), 0)
  {
    hide Exec;
    acts := Fill(w, log);
    acts := Then(w, acts, Connect(true));
  }

  lemma NothingStored(id: string)
    ensures !Has([], id)
  {
  }

  /**
   For a whole topic: no run ever leaves a decodable entry behind unstored if and only if all its
   decodable entries carry one id.
   */
  lemma TopicNeverLostExactly(w: World, log: seq<Entry>)
    ensures
      (forall o: nat :: o < |log| && log[o].Message? ==> NeverLost(w, log, o))
      <==> (forall i, j :: 0 <= i < j < |log| && log[i].Message? && log[j].Message? ==>
        log[i].event.id == log[j].event.id)
  {
    hide NeverLost;
    forall o: nat | o < |log| && log[o].Message? ensures NeverLost(w, log, o) <==> OnlyCopiesFollow(log, o) {
      NeverLostExactly(w, log, o);
    }
    if forall o: nat :: o < |log| && log[o].Message? ==> NeverLost(w, log, o) {
      forall i, j | 0 <= i < j < |log| && log[i].Message? && log[j].Message?
        ensures log[i].event.id == log[j].event.id
      {
        assert NeverLost(w, log, i) && OnlyCopiesFollow(log, i);
      }
    }
  }

  // ---------------------------------------------------------------- the saved offset

  /**
   The saved offset is overwritten, not maximised: from any reachable state it can become the one
   after any decodable entry.
   */
  lemma SavedOffsetCanBecome(w: World, acts: seq<Action>, i: nat) returns (more: seq<Action>)
    requires i < |Exec(w, acts).log| && Exec(w, acts).log[i].Message?
    ensures acts <= more && Exec(w, more).log == Exec(w, acts).log && Exec(w, more).consumer.saved == i + 1
  {
    hide Exec, InsertUnique;
    more := Then(w, acts, Stop);
    more := Then(w, more, Connect(false));
    more := PassUntil(w, more, 0, i);
    more := SaveOne(w, more, i);
  }

  /** Over the runs on a topic the saved offset never decreases. */
  ghost predicate NeverMovesBack(w: World, log: seq<Entry>) {
    forall acts, n: nat {:trigger acts[..n]} :: n <= |acts| && Exec(w, acts).log == log ==>
      Exec(w, acts[..n]).consumer.saved <= Exec(w, acts).consumer.saved
  }

  /** Growing only: the topic, and the saved offset away from 0. */
  ghost predicate Grows(s: Sys, t: Sys) {
    s.log <= t.log && (s.consumer.saved > 0 ==> t.consumer.saved > 0)
  }

  lemma StepGrows(w: World, s: Sys, a: Action)
    requires OffsetsJustStored(s.log, s.consumer)
    ensures Grows(s, Notification.Step(w, s, a))
  {
    hide Consumption.Step, OffsetsJustStored;
    if a.Consume? { ConsumerStepStores(s.log, s.consumer, a.a); }
  }

  lemma {:induction false} RunGrows(w: World, acts: seq<Action>, n: nat)
    requires n <= |acts|
    ensures Grows(Exec(w, acts[..n]), Exec(w, acts))
    decreases |acts|
  {
    hide Notification.Step;
    if n == |acts| {
      assert acts[..n] == acts;
    } else {
      var g := acts[..|acts| - 1];
      RunGrows(w, g, n);
      assert g[..n] == acts[..n];
      SavedIsJustStored(w, g);
      StepGrows(w, Exec(w, g), acts[|acts| - 1]);
    }
  }

  /**
   The exact condition: over all runs on a topic the saved offset never decreases if and only if
   the topic has at most one entry that decodes.
   */
  lemma NeverMovesBackExactly(w: World, log: seq<Entry>)
    ensures NeverMovesBack(w, log) <==> forall i, j :: 0 <= i < j < |log| ==> log[i].Garbage? || log[j].Garbage?
  {
    hide Exec, Has;
    if forall i, j :: 0 <= i < j < |log| ==> log[i].Garbage? || log[j].Garbage? {
      forall acts, n: nat {:trigger acts[..n]} | n <= |acts| && Exec(w, acts).log == log
        ensures Exec(w, acts[..n]).consumer.saved <= Exec(w, acts).consumer.saved
      {
        RunGrows(w, acts, n);
        SavedIsJustStored(w, acts[..n]);
        SavedIsJustStored(w, acts);
        OneOffset(log, Exec(w, acts[..n]), Exec(w, acts));
      }
    } else {
      var i, j :| 0 <= i < j < |log| && log[i].Message? && log[j].Message?;
      var first := ReadFirst(w, log);
      first := SavedOffsetCanBecome(w, first, j);
      var acts := SavedOffsetCanBecome(w, first, i);
      assert acts[..|first|] == first;
    }
  }

  lemma OneOffset(log: seq<Entry>, s: Sys, t: Sys)
    requires forall i, j :: 0 <= i < j < |log| ==> log[i].Garbage? || log[j].Garbage?
    requires s.log <= log && t.log == log && (s.consumer.saved > 0 ==> t.consumer.saved > 0)
    requires JustStored(s.log, s.consumer.docs, s.consumer.saved) && JustStored(log, t.consumer.docs, t.consumer.saved)
    ensures s.consumer.saved <= t.consumer.saved
  {
    hide Has;
    if s.consumer.saved > 0 {
      var i, j := s.consumer.saved - 1, t.consumer.saved - 1;
      assert log[i] == s.log[i] && log[i].Message? && log[j].Message?;
    }
  }

  // ---------------------------------------------------------------- what can still store an id

  /**
   What can still store an id afterwards: a failed request for it that takes effect late, or an
   answered insert of an entry with that id, which the consumer has to reach again.
   */
  lemma StoredOnlyBy(w: World, s: Sys, a: Action, id: string)
    requires !Has(s.consumer.docs, id)
    ensures
      var c := s.consumer;
      Has(Notification.Step(w, s, a).consumer.docs, id) <==>
        || (a.Consume? && a.a.LateInsert? && a.a.doc in c.lateDocs && a.a.doc.id == id)
        || (a == Consume(Insert(true)) && c.phase.Saving? && c.phase.offset < |s.log|
            && s.log[c.phase.offset].Message? && s.log[c.phase.offset].event.id == id)
  {
    hide Has;
    var c := s.consumer;
    if a.Consume? && a.a.LateInsert? {
      HasAfter(c.docs, a.a.doc, id);
    } else if a == Consume(Insert(true)) && c.phase.Saving? && c.phase.offset < |s.log| {
      if s.log[c.phase.offset].Message? { HasAfter(c.docs, s.log[c.phase.offset].event, id); }
    }
  }

  lemma HasAfter(docs: seq<Event>, d: Event, id: string)
    ensures Has(InsertUnique(docs, d), id) <==> Has(docs, id) || d.id == id
  {
    InsertUniqueHas(docs, d);
    if Has(InsertUnique(docs, d), id) && !Has(docs, id) {
      var i :| 0 <= i < |InsertUnique(docs, d)| && InsertUnique(docs, d)[i].id == id;
      assert InsertUnique(docs, d)[i] in InsertUnique(docs, d);
    }
  }

  /**
   Within one connection the consumer only moves forward: what it has passed is reached again only
   by reconnecting.
   */
  lemma PassedOnlyByReconnecting(log: seq<Entry>, s: Consumption.State, a: Consumption.Action)
    requires !s.phase.Down? && a != Stop
    ensures
      var t := Consumption.Step(log, s, a);
      !t.phase.Down? && PositionOf(s.phase) <= PositionOf(t.phase)
  {
    hide Has, InsertUnique;
  }

  function PositionOf(p: Phase): nat
    requires !p.Down?
  {
    match p
    case Reading(pos) => pos
    case Saving(o, _) => o
    case Storing(o) => o
  }
}
