/**
 The notification consumer: entries of one partition are fetched in order, inserted into
 a uniquely indexed collection with up to five attempts, and then the offset is saved
 by overwriting.  A request that reported failure may still take effect at any later time.
 The consumer may stop anywhere, and starts again at the saved offset or at the beginning.
 */
module Consumption {

  /** A large-transaction event; the stored document has the same fields. */
  datatype Event = Event(id: string, user: int, kind: string, amount: real, currency: string, createdAt: string)

  /** A topic entry, after the attempt to decode it. */
  datatype Entry = Message(event: Event) | Garbage

  datatype Phase =
    | Down
    | Reading(pos: nat)
    | Saving(offset: nat, failures: nat)
    | Storing(offset: nat)

  datatype State = State(
    // Mongo: these survive a crash.
    docs: seq<Event>,
    saved: nat,
    // Requests that reported failure.
    lateDocs: set<Event>,
    lateOffsets: set<nat>,
    // The process.
    phase: Phase,
    // History: entries that have used up their five attempts at some time.
    givenUp: set<nat>)

  datatype Action =
    | Connect(useSaved: bool)
    | Fetch
    | Insert(ok: bool)
    | SaveOffset(ok: bool)
    | LateInsert(doc: Event)
    | LateOffset(offset: nat)
    | Stop

  const INSERT_ATTEMPTS := 5

  predicate Has(docs: seq<Event>, id: string) {
    exists i :: 0 <= i < |docs| && docs[i].id == id
  }

  function Count(docs: seq<Event>, id: string): nat {
    if docs == [] then 0 else Count(docs[..|docs| - 1], id) + if docs[|docs| - 1].id == id then 1 else 0
  }

  /** InsertOne under the unique index: a second document with the same id is rejected. */
  function InsertUnique(docs: seq<Event>, d: Event): seq<Event> {
    if Has(docs, d.id) then docs else docs + [d]
  }

  /** One step; an action that is not possible changes nothing. */
  function Step(log: seq<Entry>, s: State, a: Action): State {
    match a
    case Connect(useSaved) =>
      if s.phase.Down? then s.(phase := Reading(if useSaved then s.saved else 0)) else s
    case Fetch =>
      if s.phase.Reading? && s.phase.pos < |log| then
        s.(phase := if log[s.phase.pos].Garbage? then Reading(s.phase.pos + 1) else Saving(s.phase.pos, 0))
      else s
    case Insert(ok) =>
      if s.phase.Saving? && s.phase.offset < |log| && log[s.phase.offset].Message? then
        var o, e := s.phase.offset, log[s.phase.offset].event;
        if ok then s.(docs := InsertUnique(s.docs, e), phase := Storing(o))
        else if s.phase.failures + 1 < INSERT_ATTEMPTS then
          s.(lateDocs := s.lateDocs + {e}, phase := Saving(o, s.phase.failures + 1))
        else s.(lateDocs := s.lateDocs + {e}, phase := Reading(o + 1), givenUp := s.givenUp + {o})
      else s
    case SaveOffset(ok) =>
      if s.phase.Storing? then
        var n := s.phase.offset + 1;
        if ok then s.(saved := n, phase := Reading(n)) else s.(lateOffsets := s.lateOffsets + {n}, phase := Reading(n))
      else s
    case LateInsert(d) => if d in s.lateDocs then s.(docs := InsertUnique(s.docs, d)) else s
    case LateOffset(n) => if n in s.lateOffsets then s.(saved := n) else s
    case Stop => s.(phase := Down)
  }

  function Start(): State {
    State([], 0, {}, {}, Down, {})
  }

  // ---------------------------------------------------------------- invariant

  /** An entry the consumer may leave behind. */
  predicate Settled(log: seq<Entry>, s: State, o: nat)
    requires o < |log|
  {
    log[o].Garbage? || Has(s.docs, log[o].event.id) || o in s.givenUp
  }

  ghost predicate Covered(log: seq<Entry>, s: State, n: nat) {
    n <= |log| && forall o: nat {:trigger Settled(log, s, o)} :: o < n ==> Settled(log, s, o)
  }

  ghost predicate PhaseCovered(log: seq<Entry>, s: State) {
    match s.phase
    case Down => true
    case Reading(pos) => Covered(log, s, pos)
    case Saving(o, failures) => Covered(log, s, o) && o < |log| && log[o].Message? && failures < INSERT_ATTEMPTS
    case Storing(o) => Covered(log, s, o + 1)
  }

  ghost predicate UniqueIds(docs: seq<Event>) {
    forall i, j :: 0 <= i < j < |docs| ==> docs[i].id != docs[j].id
  }

  /** Whatever is stored, or may still be stored late, was in the topic. */
  ghost predicate FromTopic(log: seq<Entry>, s: State) {
    (forall d :: d in s.docs ==> Message(d) in log) && (forall d :: d in s.lateDocs ==> Message(d) in log)
  }

  ghost predicate Inv(log: seq<Entry>, s: State) {
    && Covered(log, s, s.saved)
    && (forall n :: n in s.lateOffsets ==> Covered(log, s, n))
    && PhaseCovered(log, s)
    && UniqueIds(s.docs)
    && FromTopic(log, s)
  }

  lemma InsertUniqueHas(docs: seq<Event>, d: Event)
    ensures Has(InsertUnique(docs, d), d.id)
    ensures forall id :: Has(docs, id) ==> Has(InsertUnique(docs, d), id)
    ensures UniqueIds(docs) ==> UniqueIds(InsertUnique(docs, d))
    ensures forall x :: x in InsertUnique(docs, d) ==> x in docs || x == d
  {
    var after := InsertUnique(docs, d);
    if !Has(docs, d.id) { assert after[|docs|] == d; }
    assert docs <= after;
  }

  /** Coverage survives a longer topic, more documents and more given-up entries. */
  lemma CoveredGrows(log: seq<Entry>, s: State, log': seq<Entry>, s': State, n: nat)
    requires Covered(log, s, n) && log <= log' && s.givenUp <= s'.givenUp
    requires forall id :: Has(s.docs, id) ==> Has(s'.docs, id)
    ensures Covered(log', s', n)
  {
    hide Has;
    forall o: nat | o < n ensures Settled(log', s', o) {
      assert Settled(log, s, o);
      assert log'[o] == log[o];
    }
  }

  lemma CoveredNext(log: seq<Entry>, s: State, n: nat)
    requires Covered(log, s, n) && n < |log| && Settled(log, s, n)
    ensures Covered(log, s, n + 1)
  {
  }

  lemma GrowKeeps(log: seq<Entry>, log': seq<Entry>, s: State)
    requires Inv(log, s) && log <= log'
    ensures Inv(log', s)
  {
    hide Covered, Has, UniqueIds;
    CoveredGrows(log, s, log', s, s.saved);
    forall n | n in s.lateOffsets ensures Covered(log', s, n) {
      CoveredGrows(log, s, log', s, n);
    }
    assert forall e :: e in log ==> e in log';
    match s.phase
    case Down =>
    case Reading(pos) => CoveredGrows(log, s, log', s, pos);
    case Saving(o, _) => CoveredGrows(log, s, log', s, o);
    case Storing(o) => CoveredGrows(log, s, log', s, o + 1);
  }

  /** Storing a document that was in the topic, now or late. */
  lemma StoreKeeps(log: seq<Entry>, s: State, d: Event)
    requires Inv(log, s) && Message(d) in log
    ensures
      var s' := s.(docs := InsertUnique(s.docs, d));
      Inv(log, s') && Has(s'.docs, d.id)
  {
    hide Covered, Has, UniqueIds, InsertUnique;
    var s' := s.(docs := InsertUnique(s.docs, d));
    InsertUniqueHas(s.docs, d);
    CoveredGrows(log, s, log, s', s.saved);
    forall n | n in s.lateOffsets ensures Covered(log, s', n) {
      CoveredGrows(log, s, log, s', n);
    }
    match s.phase
    case Down =>
    case Reading(pos) => CoveredGrows(log, s, log, s', pos);
    case Saving(o, _) => CoveredGrows(log, s, log, s', o);
    case Storing(o) => CoveredGrows(log, s, log, s', o + 1);
  }

  /** Giving an entry up. */
  lemma GiveUpKeeps(log: seq<Entry>, s: State)
    requires Inv(log, s) && s.phase.Saving?
    ensures
      var o := s.phase.offset;
      Inv(log, s.(lateDocs := s.lateDocs + {log[o].event}, phase := Reading(o + 1), givenUp := s.givenUp + {o}))
  {
    hide Covered, Has, UniqueIds;
    var o := s.phase.offset;
    var s' := s.(lateDocs := s.lateDocs + {log[o].event}, phase := Reading(o + 1), givenUp := s.givenUp + {o});
    assert log[o] in log;
    CoveredGrows(log, s, log, s', s.saved);
    forall n | n in s.lateOffsets ensures Covered(log, s', n) {
      CoveredGrows(log, s, log, s', n);
    }
    CoveredGrows(log, s, log, s', o);
    CoveredNext(log, s', o);
  }

  lemma StepKeeps(log: seq<Entry>, s: State, a: Action)
    requires Inv(log, s)
    ensures Inv(log, Step(log, s, a))
  {
    hide Has, UniqueIds, InsertUnique, Covered;
    var s' := Step(log, s, a);
    if a.Insert? && s.phase.Saving? {
      var o := s.phase.offset;
      assert log[o] in log;
      if a.ok {
        StoreKeeps(log, s, log[o].event);
        var mid := s.(docs := InsertUnique(s.docs, log[o].event));
        CoveredNext(log, mid, o);
        SamePhaseElsewhere(log, mid, s');
      } else if s'.phase.Reading? {
        GiveUpKeeps(log, s);
      } else {
        SamePhaseElsewhere(log, s, s');
      }
    } else if a.LateInsert? && a.doc in s.lateDocs {
      StoreKeeps(log, s, a.doc);
    } else {
      if a == Fetch && s.phase.Reading? && s.phase.pos < |log| && log[s.phase.pos].Garbage? {
        CoveredNext(log, s, s.phase.pos);
      }
      CoveredZero(log, s);
      SamePhaseElsewhere(log, s, s');
    }
  }

  lemma CoveredZero(log: seq<Entry>, s: State)
    ensures Covered(log, s, 0)
  {
  }

  /** Coverage looks only at the documents and the given-up entries. */
  lemma SamePhaseElsewhere(log: seq<Entry>, s: State, s': State)
    requires s'.docs == s.docs && s'.givenUp == s.givenUp
    ensures forall n: nat :: Covered(log, s, n) ==> Covered(log, s', n)
  {
    forall n: nat | Covered(log, s, n) ensures Covered(log, s', n) {
      CoveredGrows(log, s, log, s', n);
    }
  }

  lemma StartKeeps(log: seq<Entry>)
    ensures Inv(log, Start())
  {
  }

  // ---------------------------------------------------------------- counting

  /** Under the unique index an id is stored at most once. */
  lemma {:induction false} CountUnique(docs: seq<Event>, id: string)
    requires UniqueIds(docs)
    ensures Count(docs, id) == if Has(docs, id) then 1 else 0
  {
    if docs != [] {
      var before, last := docs[..|docs| - 1], docs[|docs| - 1];
      CountUnique(before, id);
      if last.id == id {
        assert !Has(before, id);
      } else if Has(docs, id) {
        var i :| 0 <= i < |docs| && docs[i].id == id;
        assert before[i].id == id;
      }
    }
  }
}
