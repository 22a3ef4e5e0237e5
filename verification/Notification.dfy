/**
 From the wallet's handlers through Kafka to Mongo: any number of concurrent calls, each of
 which changes the ledger and then publishes at most one event under one id, together
 with the consumer of Consumption.  A written event may reach the topic any number of
 times, at any time after the first write began; an acknowledged one has reached it.
 */
module Notification {
  import opened Consumption

  /** The transaction id drawn for each call, the publishing threshold, and the number of write attempts. */
  datatype World = World(ids: nat -> string, threshold: real, retries: nat)

  datatype Call = Call(user: int, kind: string, currency: string, amount: real)

  /** How far a call has come; Quiet is the end of a call that publishes nothing. */
  datatype Progress =
    | Asked
    | Applied
    | Quiet
    | Publishing(event: Event, attempts: nat)
    | Ended(event: Event, attempts: nat, acked: bool)

  datatype Sys = Sys(calls: seq<Call>, progress: seq<Progress>, log: seq<Entry>, consumer: Consumption.State)

  datatype Action =
    | Request(call: Call)
    | LedgerOk(c: nat)
    | LedgerFails(c: nat)
    | StartPublish(c: nat, createdAt: string)
    | Write(c: nat)
    | Arrive(c: nat)
    | Ack(c: nat)
    | Abandon(c: nat)
    | Foreign(entry: Entry)
    | Consume(a: Consumption.Action)

  function EventOf(w: World, c: nat, call: Call, createdAt: string): Event {
    Event(w.ids(c), call.user, call.kind, call.amount, call.currency, createdAt)
  }

  predicate Written(p: Progress) {
    (p.Publishing? || p.Ended?) && p.attempts > 0
  }

  function Move(s: Sys, c: nat, p: Progress): Sys
    requires c < |s.progress|
  {
    s.(progress := s.progress[c := p])
  }

  /** One step of one call, of the topic, or of the consumer; an action that is not possible changes nothing. */
  function Step(w: World, s: Sys, a: Action): Sys {
    match a
    case Request(call) => s.(calls := s.calls + [call], progress := s.progress + [Asked])
    case LedgerOk(c) => if c < |s.progress| && s.progress[c].Asked? then Move(s, c, Applied) else s
    case LedgerFails(c) => if c < |s.progress| && s.progress[c].Asked? then Move(s, c, Quiet) else s
    case StartPublish(c, createdAt) =>
      if c < |s.progress| && c < |s.calls| && s.progress[c].Applied? then
        Move(s, c, if s.calls[c].amount < w.threshold then Quiet
          else Publishing(EventOf(w, c, s.calls[c], createdAt), 0))
      else s
    case Write(c) =>
      if c < |s.progress| && s.progress[c].Publishing? && s.progress[c].attempts < w.retries then
        Move(s, c, Publishing(s.progress[c].event, s.progress[c].attempts + 1))
      else s
    case Arrive(c) =>
      if c < |s.progress| && Written(s.progress[c]) then s.(log := s.log + [Message(s.progress[c].event)]) else s
    case Ack(c) =>
      if c < |s.progress| && s.progress[c].Publishing? && Written(s.progress[c])
        && Message(s.progress[c].event) in s.log
      then
        Move(s, c, Ended(s.progress[c].event, s.progress[c].attempts, true))
      else s
    case Abandon(c) =>
      if c < |s.progress| && s.progress[c].Publishing? then
        Move(s, c, Ended(s.progress[c].event, s.progress[c].attempts, false))
      else s
    case Foreign(entry) => s.(log := s.log + [entry])
    case Consume(b) => s.(consumer := Consumption.Step(s.log, s.consumer, b))
  }

  function Start(): Sys {
    Sys([], [], [], Consumption.Start())
  }

  function Exec(w: World, acts: seq<Action>): Sys {
    if acts == [] then Start() else Step(w, Exec(w, acts[..|acts| - 1]), acts[|acts| - 1])
  }

  // ---------------------------------------------------------------- the consumer's side

  lemma {:induction false} ConsumerSound(w: World, acts: seq<Action>)
    ensures Consumption.Inv(Exec(w, acts).log, Exec(w, acts).consumer)
  {
    hide Consumption.Inv, Consumption.Step;
    if acts == [] {
      StartKeeps([]);
    } else {
      var before, a := Exec(w, acts[..|acts| - 1]), acts[|acts| - 1];
      ConsumerSound(w, acts[..|acts| - 1]);
      if a.Consume? {
        StepKeeps(before.log, before.consumer, a.a);
      } else {
        GrowKeeps(before.log, Step(w, before, a).log, before.consumer);
      }
    }
  }

  /** The n-th step of a run is the fifth failed insert attempt on entry o. */
  ghost predicate GaveUpAt(w: World, acts: seq<Action>, n: nat, o: nat) {
    n < |acts| && acts[n] == Consume(Insert(false))
      && Exec(w, acts[..n]).consumer.phase == Saving(o, INSERT_ATTEMPTS - 1)
  }

  ghost predicate NeverGivenUp(w: World, acts: seq<Action>, o: nat) {
    !exists n: nat :: GaveUpAt(w, acts, n, o)
  }

  lemma {:induction false} GivenUpExactly(w: World, acts: seq<Action>, o: nat)
    ensures o in Exec(w, acts).consumer.givenUp <==> exists n: nat :: GaveUpAt(w, acts, n, o)
  {
    hide Step;
    if acts != [] {
      var g, last := acts[..|acts| - 1], |acts| - 1;
      GivenUpExactly(w, g, o);
      assert forall n: nat :: n < last ==> g[..n] == acts[..n] && g[n] == acts[n];
      assert forall n: nat :: n < last ==> (GaveUpAt(w, g, n, o) <==> GaveUpAt(w, acts, n, o));
      GivesUpNow(w, g, acts[last], o);
      if n: nat :| GaveUpAt(w, acts, n, o) {
        if n < last { assert GaveUpAt(w, g, n, o); }
      }
      if o in Exec(w, acts).consumer.givenUp && o !in Exec(w, g).consumer.givenUp {
        assert GaveUpAt(w, acts, last, o);
      }
    }
  }

  /** What one step adds to the given-up entries. */
  lemma GivesUpNow(w: World, g: seq<Action>, a: Action, o: nat)
    ensures
      var s := Exec(w, g);
      o in Step(w, s, a).consumer.givenUp <==>
        o in s.consumer.givenUp || (a == Consume(Insert(false)) && s.consumer.phase == Saving(o, INSERT_ATTEMPTS - 1))
  {
    hide Exec, Has, InsertUnique, Consumption.Inv;
    ConsumerSound(w, g);
    var s := Exec(w, g);
    if s.consumer.phase.Saving? { SavingIsSound(s.log, s.consumer); }
  }

  lemma SavingIsSound(log: seq<Entry>, s: Consumption.State)
    requires Consumption.Inv(log, s) && s.phase.Saving?
    ensures s.phase.offset < |log| && log[s.phase.offset].Message? && s.phase.failures < INSERT_ATTEMPTS
  {
  }

  /**
   Effectively-once storage: over every run, with reconnects, crashes, failed or late
   inserts and failed or late offset saves, each entry below the saved offset has its id
   stored exactly once, or does not decode, or used up its five attempts at some step.
   */
  lemma EffectivelyOnce(w: World, acts: seq<Action>, o: nat)
    requires o < Exec(w, acts).consumer.saved
    ensures
      var s := Exec(w, acts);
      && o < |s.log|
      && (|| s.log[o].Garbage?
          || Count(s.consumer.docs, s.log[o].event.id) == 1
          || exists n: nat :: GaveUpAt(w, acts, n, o))
  {
    hide Exec, Step, Count;
    ConsumerSound(w, acts);
    GivenUpExactly(w, acts, o);
    var s := Exec(w, acts);
    assert Settled(s.log, s.consumer, o);
    if s.log[o].Message? { CountUnique(s.consumer.docs, s.log[o].event.id); }
  }

  // ---------------------------------------------------------------- the publisher's side

  /** A call that may have put something into the topic. */
  predicate Owns(w: World, s: Sys, c: nat, e: Event) {
    c < |s.progress| && Written(s.progress[c]) && s.progress[c].event == e
  }

  ghost predicate CallsSound(w: World, s: Sys) {
    && |s.calls| == |s.progress|
    && forall c: nat {:trigger s.progress[c]} ::
      c < |s.progress| && (s.progress[c].Publishing? || s.progress[c].Ended?) ==>
         && s.calls[c].amount >= w.threshold
         && s.progress[c].attempts <= w.retries
         && s.progress[c].event == EventOf(w, c, s.calls[c], s.progress[c].event.createdAt)
  }

  /** Every event in the topic was put there by a call, or by another hand. */
  ghost predicate LogSound(w: World, s: Sys, foreign: set<Event>) {
    forall e :: Message(e) in s.log ==> e in foreign || exists c :: Owns(w, s, c, e)
  }

  ghost predicate AckedArrived(s: Sys) {
    forall c: nat {:trigger s.progress[c]} :: c < |s.progress| && s.progress[c].Ended? && s.progress[c].acked ==>
      Message(s.progress[c].event) in s.log
  }

  ghost predicate Inv(w: World, s: Sys, foreign: set<Event>) {
    CallsSound(w, s) && LogSound(w, s, foreign) && AckedArrived(s)
  }

  function ForeignEvents(acts: seq<Action>): set<Event> {
    set a | a in acts && a.Foreign? && a.entry.Message? :: a.entry.event
  }

  lemma OwnsGrows(w: World, s: Sys, a: Action, c: nat, e: Event)
    requires Owns(w, s, c, e)
    ensures Owns(w, Step(w, s, a), c, e)
  {
    hide Consumption.Step;
  }

  /** An event that one step adds to the topic is the caller's own, or comes from another hand. */
  lemma ArrivesFromOwner(w: World, s: Sys, a: Action, e: Event)
    requires Message(e) !in s.log && Message(e) in Step(w, s, a).log
    ensures (a.Arrive? && Owns(w, Step(w, s, a), a.c, e)) || (a.Foreign? && a.entry == Message(e))
  {
    hide Consumption.Step;
  }

  lemma StepKeepsCalls(w: World, s: Sys, a: Action)
    requires CallsSound(w, s)
    ensures CallsSound(w, Step(w, s, a))
  {
    hide Consumption.Step;
  }

  lemma StepKeepsAcked(w: World, s: Sys, a: Action)
    requires AckedArrived(s)
    ensures AckedArrived(Step(w, s, a))
  {
    hide Consumption.Step;
    var s' := Step(w, s, a);
    assert forall e :: e in s.log ==> e in s'.log;
  }

  lemma StepKeepsLog(w: World, s: Sys, a: Action, foreign: set<Event>)
    requires LogSound(w, s, foreign) && (a.Foreign? && a.entry.Message? ==> a.entry.event in foreign)
    ensures LogSound(w, Step(w, s, a), foreign)
  {
    hide Consumption.Step, Owns;
    var s' := Step(w, s, a);
    forall e | Message(e) in s'.log && e !in foreign ensures exists c :: Owns(w, s', c, e) {
      if Message(e) in s.log {
        var c :| Owns(w, s, c, e);
        OwnsGrows(w, s, a, c, e);
      } else {
        ArrivesFromOwner(w, s, a, e);
      }
    }
  }

  lemma {:induction false} ExecKeeps(w: World, acts: seq<Action>, foreign: set<Event>)
    requires ForeignEvents(acts) <= foreign
    ensures Inv(w, Exec(w, acts), foreign)
  {
    hide CallsSound, LogSound, AckedArrived, Step;
    if acts == [] {
      StartSound(w, foreign);
    } else {
      var g, a := acts[..|acts| - 1], acts[|acts| - 1];
      assert a in acts && forall b :: b in g ==> b in acts;
      assert ForeignEvents(g) <= ForeignEvents(acts);
      assert a.Foreign? && a.entry.Message? ==> a.entry.event in ForeignEvents(acts);
      ExecKeeps(w, g, foreign);
      StepKeepsCalls(w, Exec(w, g), a);
      StepKeepsLog(w, Exec(w, g), a, foreign);
      StepKeepsAcked(w, Exec(w, g), a);
    }
  }

  lemma StartSound(w: World, foreign: set<Event>)
    ensures Inv(w, Start(), foreign)
  {
  }

  /** Different calls draw different ids, and nobody else puts a call's id into the topic. */
  ghost predicate IdsAreOwn(w: World, acts: seq<Action>) {
    && (forall c: nat, d: nat :: w.ids(c) == w.ids(d) ==> c == d)
    && (forall e, c: nat {:trigger e.id, w.ids(c)} :: e in ForeignEvents(acts) ==> e.id != w.ids(c))
  }

  /** The n-th step of a run is the success of call c's ledger operation. */
  ghost predicate LedgerDoneAt(w: World, acts: seq<Action>, n: nat, c: nat) {
    n < |acts| && acts[n] == LedgerOk(c) && c < |Exec(w, acts[..n]).progress| && Exec(w, acts[..n]).progress[c].Asked?
  }

  predicate PastLedger(p: Progress) {
    !p.Asked? && !p.Quiet?
  }

  lemma {:induction false} LedgerCameFirst(w: World, acts: seq<Action>, c: nat)
    requires c < |Exec(w, acts).progress| && PastLedger(Exec(w, acts).progress[c])
    ensures exists n: nat :: LedgerDoneAt(w, acts, n, c)
  {
    hide Consumption.Step;
    if acts != [] {
      var g, last := acts[..|acts| - 1], |acts| - 1;
      var before := Exec(w, g);
      if c < |before.progress| && PastLedger(before.progress[c]) {
        LedgerCameFirst(w, g, c);
        var n: nat :| LedgerDoneAt(w, g, n, c);
        assert g[..n] == acts[..n] && g[n] == acts[n];
        assert LedgerDoneAt(w, acts, n, c);
      } else {
        assert acts[last] == LedgerOk(c);
        assert LedgerDoneAt(w, acts, last, c);
      }
    }
  }

  /** Until a call has begun its first write, its id is in no topic entry and no document. */
  lemma NothingBeforeWrite(w: World, acts: seq<Action>, c: nat)
    requires IdsAreOwn(w, acts)
    requires c < |Exec(w, acts).progress| ==> !Written(Exec(w, acts).progress[c])
    ensures forall e :: Message(e) in Exec(w, acts).log ==> e.id != w.ids(c)
    ensures Count(Exec(w, acts).consumer.docs, w.ids(c)) == 0
  {
    hide Exec, Step;
    var s := Exec(w, acts);
    ExecKeeps(w, acts, ForeignEvents(acts));
    forall e | Message(e) in s.log ensures e.id != w.ids(c) {
      if e !in ForeignEvents(acts) {
        var d :| Owns(w, s, d, e);
        assert e.id == w.ids(d);
      }
    }
    ConsumerSound(w, acts);
    CountUnique(s.consumer.docs, w.ids(c));
  }

  /**
   End to end: however many writes, redeliveries and restarts there are, a call
   yields at most one document; that document is the published event, which carries the
   call's own data; and it exists only for an amount that reached the threshold, after at
   most the configured number of attempts, and after the ledger operation succeeded, when
   neither the topic nor the collection held the id yet.
   */
  lemma EndToEnd(w: World, acts: seq<Action>, c: nat)
    requires IdsAreOwn(w, acts)
    ensures
      var s := Exec(w, acts);
      && Count(s.consumer.docs, w.ids(c)) <= 1
      && forall d :: d in s.consumer.docs && d.id == w.ids(c) ==>
           && c < |s.calls| && s.calls[c].amount >= w.threshold
           && d.user == s.calls[c].user && d.kind == s.calls[c].kind
           && d.amount == s.calls[c].amount && d.currency == s.calls[c].currency
           && Owns(w, s, c, d) && 0 < s.progress[c].attempts <= w.retries
           && exists n: nat :: LedgerDoneAt(w, acts, n, c) && Count(Exec(w, acts[..n]).consumer.docs, w.ids(c)) == 0
  {
    hide Exec, Step, Count;
    var s := Exec(w, acts);
    ExecKeeps(w, acts, ForeignEvents(acts));
    ConsumerSound(w, acts);
    CountUnique(s.consumer.docs, w.ids(c));
    forall d | d in s.consumer.docs && d.id == w.ids(c)
      ensures c < |s.calls| && s.calls[c].amount >= w.threshold && d.user == s.calls[c].user
      ensures d.kind == s.calls[c].kind && d.amount == s.calls[c].amount && d.currency == s.calls[c].currency
      ensures Owns(w, s, c, d) && 0 < s.progress[c].attempts <= w.retries
      ensures exists n: nat :: LedgerDoneAt(w, acts, n, c) && Count(Exec(w, acts[..n]).consumer.docs, w.ids(c)) == 0
    {
      assert Message(d) in s.log && d !in ForeignEvents(acts);
      var e :| Owns(w, s, e, d);
      assert d.id == w.ids(e) && e == c;
      LedgerCameFirst(w, acts, c);
      var n: nat :| LedgerDoneAt(w, acts, n, c);
      assert forall a :: a in acts[..n] ==> a in acts;
      assert ForeignEvents(acts[..n]) <= ForeignEvents(acts);
      NothingBeforeWrite(w, acts[..n], c);
    }
  }

  /**
   The two sides together: an acknowledged event is in the topic, and once the saved
   offset is past an entry that holds it and that never used up its attempts, the collection
   holds that event and no other document with its id.
   */
  lemma AckedEventIsStoredOnce(w: World, acts: seq<Action>, c: nat)
    requires IdsAreOwn(w, acts)
    requires c < |Exec(w, acts).progress| && Exec(w, acts).progress[c].Ended? && Exec(w, acts).progress[c].acked
    ensures
      var s := Exec(w, acts);
      var e := s.progress[c].event;
      && Message(e) in s.log
      && forall o: nat ::
           o < s.consumer.saved && o < |s.log| && s.log[o] == Message(e) && NeverGivenUp(w, acts, o) ==>
           e in s.consumer.docs && Count(s.consumer.docs, w.ids(c)) == 1
  {
    hide Exec, Step, Count;
    var s := Exec(w, acts);
    var e := s.progress[c].event;
    ExecKeeps(w, acts, ForeignEvents(acts));
    assert e.id == w.ids(c);
    ConsumerSound(w, acts);
    forall o: nat | o < s.consumer.saved && o < |s.log| && s.log[o] == Message(e)
      && NeverGivenUp(w, acts, o)
      ensures e in s.consumer.docs && Count(s.consumer.docs, w.ids(c)) == 1
    {
      EffectivelyOnce(w, acts, o);
      CountUnique(s.consumer.docs, w.ids(c));
      var i :| 0 <= i < |s.consumer.docs| && s.consumer.docs[i].id == e.id;
      var d := s.consumer.docs[i];
      assert Message(d) in s.log && d !in ForeignEvents(acts);
      var x :| Owns(w, s, x, d);
      assert x == c && d == e;
    }
  }
}
