/**
 The notification consumer as it runs: the Mongo store, the retry loop, the fetch loop and
 the reconnect loop, each proved to take steps of the Consumption machine only.  What the
 broker and the store do, and when the context ends, are parameters.
 */
module NotificationConsumer {
  import opened Common
  import opened Consumption
  import opened Runs

  /** The consumer machine on a given topic as a step function. */
  function Machine(log: seq<Entry>): (State, Action) -> State {
    (s, a) => Step(log, s, a)
  }

  lemma StepsKeep(log: seq<Entry>, from: State, trace: seq<Action>, to: State)
    requires Path(Machine(log), from, trace, to) && Inv(log, from)
    ensures Inv(log, to)
  {
    hide Step, Inv, Path;
    forall s, a | Inv(log, s) ensures Inv(log, Machine(log)(s, a)) {
      StepKeeps(log, s, a);
    }
    PathKeeps(Machine(log), s => Inv(log, s), from, trace, to);
  }

  /** What InsertOne answers. */
  datatype InsertResult = Inserted | DuplicateKey | OtherError

  /** The Mongo database: the uniquely indexed collection and the offset documents. */
  class Store {
    var docs: seq<Event>
    var offsets: map<string, nat>
    // Requests that reported failure.
    ghost var lateDocs: set<Event>
    ghost var lateOffsets: set<nat>

    constructor ()
      ensures docs == [] && offsets == map[] && lateDocs == {} && lateOffsets == {}
    {
      docs, offsets, lateDocs, lateOffsets := [], map[], {}, {};
    }

    /** The offset a reader of this key would start from. */
    function OffsetOf(key: string): nat
      reads this
    {
      if key in offsets then offsets[key] else 0
    }

    method InsertLargeTransaction(ev: Event, io: IO) returns (r: InsertResult)
      modifies this`docs, this`lateDocs
      ensures docs == if io.Failed? then old(docs) else InsertUnique(old(docs), ev)
      ensures r.OtherError? <==> !io.Ok?
      ensures r.DuplicateKey? ==> Has(old(docs), ev.id)
      ensures r.Inserted? ==> !Has(old(docs), ev.id) && docs == old(docs) + [ev]
      ensures lateDocs == if io.Ok? then old(lateDocs) else old(lateDocs) + {ev}
    {
      if !io.Ok? {
        lateDocs := lateDocs + {ev};
      }
      r := if !io.Ok? then OtherError else if Has(docs, ev.id) then DuplicateKey else Inserted;
      if !io.Failed? && !Has(docs, ev.id) {
        docs := docs + [ev];
      }
    }

    method GetConsumerOffset(key: string, ok: bool) returns (offset: Option<nat>)
      ensures offset == if ok then Some(OffsetOf(key)) else None
    {
      if !ok {
        return None;
      }
      offset := Some(if key in offsets then offsets[key] else 0);
    }

    /** $set with upsert: the stored offset is overwritten, whatever it was. */
    method SetConsumerOffset(key: string, offset: nat, io: IO) returns (ok: bool)
      modifies this`offsets, this`lateOffsets
      ensures ok <==> io.Ok?
      ensures offsets == if io.Failed? then old(offsets) else old(offsets)[key := offset]
      ensures lateOffsets == if io.Ok? then old(lateOffsets) else old(lateOffsets) + {offset}
    {
      ok := io.Ok?;
      if !io.Failed? { offsets := offsets[key := offset]; }
      if !ok { lateOffsets := lateOffsets + {offset}; }
    }
  }

  /** What happens to one event: the outcome of each attempt, and the attempt before which the context ends. */
  datatype SaveEnv = SaveEnv(outcomes: seq<IO>, cancelAt: nat)
  {
    predicate Sound() {
      |outcomes| == INSERT_ATTEMPTS
    }

    predicate Succeeds()
      requires Sound()
    {
      exists k :: 0 <= k < INSERT_ATTEMPTS && k < cancelAt && outcomes[k].Ok?
    }
  }

  /** One FetchMessage call and, for a message, what follows. */
  datatype Turn = Eof | Cancelled | FetchError | Arrived(save: SaveEnv, saveOffset: IO)

  /** One connection: whether the saved offset can be read and set, and what the broker delivers. */
  datatype Session = Session(offsetRead: bool, offsetSet: bool, turns: seq<Turn>)

  ghost predicate TurnsSound(turns: seq<Turn>) {
    forall t :: t in turns && t.Arrived? ==> t.save.Sound()
  }

  /** The offset saved at the end of a connection that reads from pos, when saved was stored before. */
  function SavedAfter(log: seq<Entry>, saved: nat, pos: nat, turns: seq<Turn>): nat
    requires TurnsSound(turns)
    decreases |turns|
  {
    if turns == [] then saved else
      assert turns[0] in turns && forall t :: t in turns[1..] ==> t in turns;
      match turns[0]
      case Eof => saved
      case Cancelled => saved
      case FetchError => SavedAfter(log, saved, pos, turns[1..])
      case Arrived(save, saveOffset) =>
        if pos >= |log| then SavedAfter(log, saved, pos, turns[1..])
        else if log[pos].Garbage? then SavedAfter(log, saved, pos + 1, turns[1..])
        else
          var n := if save.Succeeds() && !saveOffset.Failed? then pos + 1 else saved;
          if save.cancelAt >= INSERT_ATTEMPTS || save.Succeeds() then SavedAfter(log, n, pos + 1, turns[1..]) else n
  }

  /** How many of the first k turns delivered an entry, if there was one. */
  function ArrivedBefore(turns: seq<Turn>, k: nat): (n: nat)
    requires k <= |turns|
    ensures n <= k
  {
    if k == 0 then 0 else ArrivedBefore(turns, k - 1) + if turns[k - 1].Arrived? then 1 else 0
  }

  /** The offset saved after a sequence of connections. */
  function SavedOver(log: seq<Entry>, saved: nat, sessions: seq<Session>): nat
    requires forall s :: s in sessions ==> TurnsSound(s.turns)
  {
    if sessions == [] then saved else
      var before, s := SavedOver(log, saved, sessions[..|sessions| - 1]), sessions[|sessions| - 1];
      SavedAfter(log, before, if s.offsetRead && s.offsetSet then before else 0, s.turns)
  }

  /** Connections follow one another: each starts at what the ones before it saved, or at the beginning. */
  lemma {:induction false} SavedOverInTurn(log: seq<Entry>, saved: nat, first: seq<Session>, rest: seq<Session>)
    requires forall s :: s in first + rest ==> TurnsSound(s.turns)
    ensures (forall s :: s in first ==> s in first + rest) && (forall s :: s in rest ==> s in first + rest)
    ensures SavedOver(log, saved, first + rest) == SavedOver(log, SavedOver(log, saved, first), rest)
    ensures forall s :: s in first ==>
      SavedOver(log, saved, [s]) == SavedAfter(log, saved, if s.offsetRead && s.offsetSet then saved else 0, s.turns)
    decreases |rest|
  {
    hide SavedAfter, TurnsSound;
    assert forall s :: s in first ==> s in first + rest;
    assert forall s :: s in rest ==> s in first + rest;
    if rest == [] {
      assert first + rest == first;
    } else {
      var init := rest[..|rest| - 1];
      assert (first + rest)[..|first + rest| - 1] == first + init;
      assert forall s :: s in first + init ==> s in first + rest;
      SavedOverInTurn(log, saved, first, init);
    }
    forall s | s in first
      ensures SavedOver(log, saved, [s])
        == SavedAfter(log, saved, if s.offsetRead && s.offsetSet then saved else 0, s.turns)
    {
      assert [s][..0] == [];
    }
  }

  /** The k-th turn delivers an entry that decodes, and stores it. */
  ghost predicate Stores(log: seq<Entry>, turns: seq<Turn>, from: nat, k: nat)
    requires TurnsSound(turns) && k < |turns|
  {
    assert turns[k] in turns;
    var o := from + ArrivedBefore(turns, k);
    turns[k].Arrived? && o < |log| && log[o].Message? && turns[k].save.Succeeds()
  }

  /** And the request to save the offset after it takes effect. */
  ghost predicate SavesAt(log: seq<Entry>, turns: seq<Turn>, from: nat, k: nat)
    requires TurnsSound(turns) && k < |turns|
  {
    Stores(log, turns, from, k) && !turns[k].saveOffset.Failed?
  }

  /** The k-th turn ends the connection: on EOF, or because the context ends while an event is being saved. */
  ghost predicate Ends(log: seq<Entry>, turns: seq<Turn>, from: nat, k: nat)
    requires TurnsSound(turns) && k < |turns|
  {
    assert turns[k] in turns;
    var o := from + ArrivedBefore(turns, k);
    || turns[k].Eof? || turns[k].Cancelled?
    || (turns[k].Arrived? && o < |log| && log[o].Message? && turns[k].save.cancelAt < INSERT_ATTEMPTS
        && !turns[k].save.Succeeds())
  }

  /** Before the k-th turn the reader is as many entries past its start as turns have delivered. */
  ghost predicate InPlace(log: seq<Entry>, turns: seq<Turn>, from: nat, k: nat, pos: nat)
    requires k <= |turns|
  {
    var o := from + ArrivedBefore(turns, k);
    if o < |log| then pos == o else pos >= |log|
  }

  /** What the turns before reached have left behind; last is the last of them that saved an offset. */
  ghost predicate Kept(log: seq<Entry>, turns: seq<Turn>, from: nat, reached: nat, last: int, before: nat, saved: nat,
      docs: seq<Event>)
  {
    && TurnsSound(turns) && last < reached <= |turns|
    && (forall j: nat :: j < reached ==> !Ends(log, turns, from, j))
    && (forall j: nat :: j < reached && Stores(log, turns, from, j) ==>
      from + ArrivedBefore(turns, j) < |log| && log[from + ArrivedBefore(turns, j)].Message?
        && Has(docs, log[from + ArrivedBefore(turns, j)].event.id))
    && (forall j: nat :: last < j < reached ==> !SavesAt(log, turns, from, j))
    && if last < 0 then saved == before
       else SavesAt(log, turns, from, last) && saved == from + ArrivedBefore(turns, last) + 1
  }

  /** One turn, in terms of the reader's position, the saved offset and the documents before and after it. */
  ghost predicate AfterTurn(log: seq<Entry>, t: Turn, pos: nat, saved: nat, docs: seq<Event>, running: bool, pos': nat,
      saved': nat, docs': seq<Event>)
    requires t.Arrived? ==> t.save.Sound()
  {
    var decodes := t.Arrived? && pos < |log| && log[pos].Message?;
    && docs <= docs'
    && (running <==> !t.Eof? && !t.Cancelled? && (decodes && t.save.cancelAt < INSERT_ATTEMPTS ==> t.save.Succeeds()))
    && pos' == (if t.Arrived? && pos < |log| then pos + 1 else pos)
    && (decodes && t.save.Succeeds() ==> Has(docs', log[pos].event.id))
    && saved' == if decodes && t.save.Succeeds() && !t.saveOffset.Failed? then pos + 1 else saved
  }

  lemma SoundTurn(turns: seq<Turn>, k: nat)
    requires TurnsSound(turns) && k < |turns|
    ensures turns[k].Arrived? ==> turns[k].save.Sound()
  {
    assert turns[k] in turns;
  }

  lemma NothingYet(log: seq<Entry>, turns: seq<Turn>, saved: nat, docs: seq<Event>, pos: nat)
    requires TurnsSound(turns)
    ensures InPlace(log, turns, pos, 0, pos) && Kept(log, turns, pos, 0, -1, saved, saved, docs)
  {
  }

  /** What the turns from k on still make of the saved offset is what the whole connection makes of it. */
  ghost predicate StillToCome(log: seq<Entry>, turns: seq<Turn>, from: nat, before: nat, k: nat, running: bool,
      pos: nat, saved: nat)
  {
    && k <= |turns| && TurnsSound(turns) && TurnsSound(turns[k..])
    && SavedAfter(log, before, from, turns) == if running then SavedAfter(log, saved, pos, turns[k..]) else saved
  }

  lemma AllToCome(log: seq<Entry>, turns: seq<Turn>, from: nat, before: nat)
    requires TurnsSound(turns)
    ensures StillToCome(log, turns, from, before, 0, true, from, before)
  {
    assert turns[0..] == turns;
  }

  lemma NothingToCome(log: seq<Entry>, turns: seq<Turn>, from: nat, before: nat, k: nat, running: bool, pos: nat,
      saved: nat)
    requires StillToCome(log, turns, from, before, k, running, pos, saved) && (running ==> k == |turns|)
    ensures SavedAfter(log, before, from, turns) == saved
  {
  }

  lemma TurnComes(log: seq<Entry>, turns: seq<Turn>, from: nat, before: nat, k: nat, pos: nat, saved: nat,
      docs: seq<Event>, running: bool, pos': nat, saved': nat, docs': seq<Event>)
    requires k < |turns| && StillToCome(log, turns, from, before, k, true, pos, saved)
    requires
      assert turns[k] in turns;
      AfterTurn(log, turns[k], pos, saved, docs, running, pos', saved', docs')
    ensures StillToCome(log, turns, from, before, k + 1, running, pos', saved')
  {
    hide SaveEnv.Succeeds, Has;
    assert turns[k..][0] == turns[k] && turns[k..][1..] == turns[k + 1..] && turns[k] in turns;
    assert forall t :: t in turns[k + 1..] ==> t in turns[k..];
  }

  lemma TurnKeeps(log: seq<Entry>, turns: seq<Turn>, from: nat, k: nat, last: int, before: nat, saved: nat,
      docs: seq<Event>, pos: nat, running: bool, pos': nat, saved': nat, docs': seq<Event>)
    returns (last': int)
    requires k < |turns| && Kept(log, turns, from, k, last, before, saved, docs) && InPlace(log, turns, from, k, pos)
    requires
      assert turns[k] in turns;
      AfterTurn(log, turns[k], pos, saved, docs, running, pos', saved', docs')
    ensures Kept(log, turns, from, if running then k + 1 else k, last', before, saved', docs')
    ensures if running then InPlace(log, turns, from, k + 1, pos') else Ends(log, turns, from, k)
  {
    hide SaveEnv.Succeeds, Has;
    last' := if running && SavesAt(log, turns, from, k) then k else last;
    assert turns[k] in turns;
    forall j: nat | j < k && Stores(log, turns, from, j)
      ensures Has(docs', log[from + ArrivedBefore(turns, j)].event.id)
    {
      HasGrows(docs, docs', log[from + ArrivedBefore(turns, j)].event.id);
    }
  }

  /** An unbroken row of arrivals is delivered without a gap. */
  lemma {:induction false} AllArrived(turns: seq<Turn>, k: nat)
    requires k <= |turns|
    ensures ArrivedBefore(turns, k) == k <==> forall j :: 0 <= j < k ==> turns[j].Arrived?
  {
    if k > 0 { AllArrived(turns, k - 1); }
  }

  lemma Spelled(log: seq<Entry>, turns: seq<Turn>, from: nat, reached: nat, last: int, before: nat, saved: nat,
      docs: seq<Event>, ended: bool)
    requires Kept(log, turns, from, reached, last, before, saved, docs)
    requires if ended then reached < |turns| && Ends(log, turns, from, reached) else reached == |turns|
    ensures forall k :: 0 <= k < reached ==> !turns[k].Eof? && !turns[k].Cancelled?
    ensures forall k :: 0 <= k < reached && turns[k].Arrived? && turns[k].save.cancelAt < 5 ==>
      var o := from + ArrivedBefore(turns, k);
      turns[k].save.Sound() && (o < |log| && log[o].Message? ==> turns[k].save.Succeeds())
    ensures reached < |turns| && turns[reached].Arrived? ==>
      var o := from + ArrivedBefore(turns, reached);
      && o < |log| && log[o].Message? && turns[reached].save.cancelAt < 5
      && turns[reached].save.Sound() && !turns[reached].save.Succeeds()
    ensures reached < |turns| ==> !turns[reached].FetchError?
    ensures forall k :: 0 <= k < reached && turns[k].Arrived? ==>
      var o := from + ArrivedBefore(turns, k);
      turns[k].save.Sound() && (o < |log| && log[o].Message? && turns[k].save.Succeeds() ==>
        Has(docs, log[o].event.id))
    ensures last < reached
    ensures forall k: nat :: last < k < reached && turns[k].Arrived? && !turns[k].saveOffset.Failed? ==>
      var o := from + ArrivedBefore(turns, k);
      turns[k].save.Sound() && (o < |log| && log[o].Message? ==> !turns[k].save.Succeeds())
    ensures last < 0 ==> saved == before
    ensures last >= 0 ==> turns[last].Arrived? && !turns[last].saveOffset.Failed?
    ensures last >= 0 ==>
      var o := from + ArrivedBefore(turns, last);
      && o < |log| && log[o].Message? && turns[last].save.Sound() && turns[last].save.Succeeds() && saved == o + 1
  {
    hide SaveEnv.Succeeds, Has;
    forall k: nat | k < reached ensures !Ends(log, turns, from, k) && (turns[k].Arrived? ==> turns[k].save.Sound()) {
      assert turns[k] in turns;
    }
    forall k: nat | k < reached && turns[k].Arrived? && turns[k].save.Succeeds()
      ensures
        var o := from + ArrivedBefore(turns, k);
        o < |log| && log[o].Message? ==> Has(docs, log[o].event.id)
    {
      var o := from + ArrivedBefore(turns, k);
      if o < |log| && log[o].Message? { assert Stores(log, turns, from, k); }
    }
    if last >= 0 { assert turns[last] in turns && SavesAt(log, turns, from, last); }
    forall k: nat | last < k < reached && turns[k].Arrived? && !turns[k].saveOffset.Failed?
      ensures
        var o := from + ArrivedBefore(turns, k);
        o < |log| && log[o].Message? ==> !turns[k].save.Succeeds()
    {
      assert !SavesAt(log, turns, from, k);
    }
  }

  /** What is stored stays stored. */
  lemma HasGrows(docs: seq<Event>, more: seq<Event>, id: string)
    requires docs <= more && Has(docs, id)
    ensures Has(more, id)
  {
    var i :| 0 <= i < |docs| && docs[i].id == id;
    assert more[i] == docs[i];
  }

  /** A turn in which everything works. */
  predicate Healthy(t: Turn) {
    t.Arrived? && t.save.Sound() && t.save.Succeeds() && t.saveOffset.Ok?
  }

  /**
   Progress: from anywhere, a connection that lives long enough and meets no failure
   saves the end of a topic whose last entry decodes; with the guarantee above, everything in
   it is then stored.
   */
  lemma {:induction false} HealthyConnectionCatchesUp(log: seq<Entry>, saved: nat, pos: nat, turns: seq<Turn>)
    requires forall t :: t in turns ==> Healthy(t)
    requires log != [] && log[|log| - 1].Message? && pos <= |log| && (pos == |log| ==> saved == |log|)
    requires |turns| >= |log| - pos
    ensures TurnsSound(turns) && SavedAfter(log, saved, pos, turns) == |log|
    decreases |turns|
  {
    hide SaveEnv.Succeeds;
    if turns != [] {
      var t, rest := turns[0], turns[1..];
      assert t in turns && Healthy(t) && forall u :: u in rest ==> u in turns;
      if pos == |log| {
        HealthyConnectionCatchesUp(log, saved, pos, rest);
      } else if log[pos].Garbage? {
        HealthyConnectionCatchesUp(log, saved, pos + 1, rest);
      } else {
        HealthyConnectionCatchesUp(log, pos + 1, pos + 1, rest);
      }
    }
  }

  class Consumer {
    const log: seq<Entry>
    const key: string
    const store: Store
    // The reader's next offset.
    var pos: nat
    // Bookkeeping of the proof: the machine's phase and history.
    ghost var phase: Phase
    ghost var givenUp: set<nat>

    /** The state of the machine this object is in. */
    ghost function Abs(): State
      reads this, store
    {
      State(store.docs, store.OffsetOf(key), store.lateDocs, store.lateOffsets, phase, givenUp)
    }

    constructor (log: seq<Entry>, key: string, store: Store)
      requires store.docs == [] && store.offsets == map[] && store.lateDocs == {} && store.lateOffsets == {}
      ensures this.log == log && this.key == key && this.store == store && Abs() == Start()
    {
      this.log, this.key, this.store := log, key, store;
      pos, phase, givenUp := 0, Down, {};
    }

    /** One insert attempt and what the machine makes of it. */
    method Attempt(ev: Event, io: IO) returns (r: InsertResult, ghost trace: seq<Action>)
      requires phase.Saving? && phase.offset < |log| && log[phase.offset] == Message(ev)
        && phase.failures < INSERT_ATTEMPTS
      modifies store`docs, store`lateDocs, this`phase, this`givenUp
      ensures r.OtherError? <==> !io.Ok?
      ensures Path(Machine(log), old(Abs()), trace, Abs())
      ensures
        var o, n := old(phase).offset, old(phase).failures;
        && phase == (if io.Ok? then Storing(o) else if n + 1 < INSERT_ATTEMPTS then Saving(o, n + 1)
          else Reading(o + 1))
        && (phase.Reading? ==> o in givenUp)
      ensures (io.Ok? ==> Has(store.docs, ev.id)) && old(store.docs) <= store.docs
    {
      hide Has, Path;
      ghost var start := Abs();
      ghost var o, n := phase.offset, phase.failures;
      InsertUniqueHas(store.docs, ev);
      r := store.InsertLargeTransaction(ev, io);
      PathStart(Machine(log), start);
      if io.Ok? {
        phase := Storing(o);
      } else if n + 1 < INSERT_ATTEMPTS {
        phase := Saving(o, n + 1);
      } else {
        phase, givenUp := Reading(o + 1), givenUp + {o};
      }
      ghost var mid := Abs().(docs := if io.Ok? then store.docs else start.docs);
      PathExtend(Machine(log), start, [], start, Insert(io.Ok?), mid);
      trace := [] + [Insert(io.Ok?)];
      if io.FailedButApplied? {
        PathExtend(Machine(log), start, trace, mid, LateInsert(ev), Abs());
        trace := trace + [LateInsert(ev)];
      }
    }

    /** Up to five attempts; a duplicate counts as saved. */
    method SaveWithRetrySimple(ev: Event, env: SaveEnv) returns (saved: bool, ghost trace: seq<Action>)
      requires env.Sound() && phase.Saving? && phase.failures == 0 && phase.offset < |log|
        && log[phase.offset] == Message(ev)
      modifies store`docs, store`lateDocs, this`phase, this`givenUp
      ensures Path(Machine(log), old(Abs()), trace, Abs())
      ensures saved <==> env.Succeeds()
      ensures saved <==> exists k :: 0 <= k < 5 && k < env.cancelAt && env.outcomes[k].Ok?
      ensures old(store.docs) <= store.docs
      ensures saved ==> phase == Storing(old(phase).offset) && Has(store.docs, ev.id)
      ensures !saved ==> phase == if env.cancelAt < INSERT_ATTEMPTS then Saving(old(phase).offset, env.cancelAt)
        else Reading(old(phase).offset + 1)
      ensures phase.Reading? ==> old(phase).offset in givenUp
    {
      hide Step, Path, Has;
      ghost var start := Abs();
      trace := [];
      PathStart(Machine(log), start);
      saved := false;
      var attempt := 0;
      while attempt < INSERT_ATTEMPTS
        invariant 0 <= attempt <= INSERT_ATTEMPTS && attempt <= env.cancelAt && !saved
        invariant phase == if attempt < INSERT_ATTEMPTS then Saving(start.phase.offset, attempt)
          else Reading(start.phase.offset + 1)
        invariant phase.Reading? ==> start.phase.offset in givenUp
        invariant Path(Machine(log), start, trace, Abs()) && old(store.docs) <= store.docs
        invariant forall k :: 0 <= k < attempt ==> !env.outcomes[k].Ok?
      {
        if attempt == env.cancelAt {
          return;
        }
        ghost var mid := Abs();
        ghost var t;
        var r;
        r, t := Attempt(ev, env.outcomes[attempt]);
        PathJoin(Machine(log), start, trace, mid, t, Abs());
        trace := trace + t;
        if r != OtherError {
          saved := true;
          return;
        }
        attempt := attempt + 1;
      }
    }

    /** A message that decoded: save it, and save the next offset if that worked. */
    method HandleEvent(ev: Event, env: SaveEnv, saveOffset: IO) returns (ghost trace: seq<Action>)
      requires env.Sound() && phase == Saving(pos, 0) && pos < |log| && log[pos] == Message(ev)
      modifies store, this
      ensures Path(Machine(log), old(Abs()), trace, Abs())
      ensures pos == old(pos) + 1
      ensures env.cancelAt >= INSERT_ATTEMPTS || env.Succeeds() ==> phase == Reading(pos)
      ensures old(store.docs) <= store.docs && (env.Succeeds() ==> Has(store.docs, ev.id))
      ensures store.OffsetOf(key) == if env.Succeeds() && !saveOffset.Failed? then pos else old(store.OffsetOf(key))
    {
      hide Path, Has, InsertUnique;
      ghost var start := Abs();
      var saved;
      saved, trace := SaveWithRetrySimple(ev, env);
      if saved {
        ghost var mid := Abs();
        var ok := store.SetConsumerOffset(key, pos + 1, saveOffset);
        phase := Reading(pos + 1);
        ghost var savedNow := if ok then pos + 1 else mid.saved;
        ghost var after := mid.(phase := phase, saved := savedNow, lateOffsets := store.lateOffsets);
        PathExtend(Machine(log), start, trace, mid, SaveOffset(ok), after);
        trace := trace + [SaveOffset(ok)];
        if saveOffset.FailedButApplied? {
          PathExtend(Machine(log), start, trace, after, LateOffset(pos + 1), Abs());
          trace := trace + [LateOffset(pos + 1)];
        }
      }
      pos := pos + 1;
    }

    /** A fetched entry: skipped when it does not decode.  running is false when the context has ended. */
    method HandleFetched(save: SaveEnv, saveOffset: IO) returns (running: bool, ghost trace: seq<Action>)
      requires save.Sound() && phase == Reading(pos) && pos < |log|
      modifies store, this
      ensures Path(Machine(log), old(Abs()), trace, Abs())
      ensures pos == old(pos) + 1
      ensures running <==> log[old(pos)].Garbage? || save.cancelAt >= INSERT_ATTEMPTS || save.Succeeds()
      ensures running ==> phase == Reading(pos)
      ensures old(store.docs) <= store.docs
      ensures log[old(pos)].Message? && save.Succeeds() ==> Has(store.docs, log[old(pos)].event.id)
      ensures store.OffsetOf(key) ==
        if log[old(pos)].Message? && save.Succeeds() && !saveOffset.Failed? then pos else old(store.OffsetOf(key))
    {
      hide Path;
      ghost var start := Abs();
      PathStart(Machine(log), start);
      match log[pos]
      case Garbage =>
        pos := pos + 1;
        phase := Reading(pos);
        PathExtend(Machine(log), start, [], start, Fetch, Abs());
        trace := [] + [Fetch];
        running := true;
      case Message(ev) =>
        phase := Saving(pos, 0);
        ghost var mid := Abs();
        PathExtend(Machine(log), start, [], start, Fetch, mid);
        ghost var t := HandleEvent(ev, save, saveOffset);
        PathJoin(Machine(log), start, [] + [Fetch], mid, t, Abs());
        trace := [] + [Fetch] + t;
        running := save.cancelAt >= INSERT_ATTEMPTS || save.Succeeds();
    }

    /**
     The fetch loop of one connection; it ends on EOF, with the context, or where the process is killed.
     The first reached turns run to their end; the k-th of them finds the entry ArrivedBefore(turns, k)
     after the first.  An entry that was given up does not end the connection.
     */
    method RunWithReaderAndSaveOffset(turns: seq<Turn>)
      returns (ghost reached: nat, ghost last: int, ghost trace: seq<Action>)
      requires phase == Reading(pos) && TurnsSound(turns)
      modifies store, this
      ensures Path(Machine(log), old(Abs()), trace, Abs()) && phase == Down
      ensures store.OffsetOf(key) == SavedAfter(log, old(store.OffsetOf(key)), old(pos), turns)
      // Where the connection ends, and where it does not.
      ensures reached <= |turns|
      ensures forall k :: 0 <= k < reached ==> !turns[k].Eof? && !turns[k].Cancelled?
      ensures forall k :: 0 <= k < reached && turns[k].Arrived? && turns[k].save.cancelAt < 5 ==>
        var o := old(pos) + ArrivedBefore(turns, k);
        o < |log| && log[o].Message? ==> turns[k].save.Succeeds()
      ensures reached < |turns| && turns[reached].Arrived? ==>
        var o := old(pos) + ArrivedBefore(turns, reached);
        o < |log| && log[o].Message? && turns[reached].save.cancelAt < 5 && !turns[reached].save.Succeeds()
      ensures reached < |turns| ==> !turns[reached].FetchError?
      // What is stored.
      ensures forall k :: 0 <= k < reached && turns[k].Arrived? && turns[k].save.Succeeds() ==>
        var o := old(pos) + ArrivedBefore(turns, k);
        o < |log| && log[o].Message? ==> Has(store.docs, log[o].event.id)
      // The offset left saved: one past the last entry that was saved with an offset request that took effect.
      ensures last < reached
      ensures forall k: nat :: last < k < reached && turns[k].Arrived? && !turns[k].saveOffset.Failed? ==>
        var o := old(pos) + ArrivedBefore(turns, k);
        o < |log| && log[o].Message? ==> !turns[k].save.Succeeds()
      ensures last < 0 ==> store.OffsetOf(key) == old(store.OffsetOf(key))
      ensures last >= 0 ==> turns[last].Arrived? && !turns[last].saveOffset.Failed?
      ensures last >= 0 ==>
        var o := old(pos) + ArrivedBefore(turns, last);
        o < |log| && log[o].Message? && turns[last].save.Succeeds() && store.OffsetOf(key) == o + 1
    {
      hide Path, SaveEnv.Succeeds, SaveEnv.Sound, Has, Ends, SavesAt, Stores, ArrivedBefore, SavedAfter, Kept,
        TurnsSound;
      ghost var start, from := Abs(), pos;
      ghost var ended;
      reached, last, ended, trace := FetchTurns(turns);
      ghost var mid := Abs();
      Spelled(log, turns, from, reached, last, start.saved, mid.saved, mid.docs, ended);
      phase := Down;
      PathExtend(Machine(log), start, trace, mid, Stop, Abs());
      trace := trace + [Stop];
    }

    /** Its turns, up to the one that ends it; last is the last turn that has saved an offset, if any. */
    method FetchTurns(turns: seq<Turn>)
      returns (ghost reached: nat, ghost last: int, ghost ended: bool, ghost trace: seq<Action>)
      requires phase == Reading(pos) && TurnsSound(turns)
      modifies store, this
      ensures Path(Machine(log), old(Abs()), trace, Abs())
      ensures store.OffsetOf(key) == SavedAfter(log, old(store.OffsetOf(key)), old(pos), turns)
      ensures Kept(log, turns, old(pos), reached, last, old(store.OffsetOf(key)), store.OffsetOf(key), store.docs)
      ensures if ended then reached < |turns| && Ends(log, turns, old(pos), reached) else reached == |turns|
    {
      hide Path, SaveEnv.Succeeds, Has, Ends, SavesAt, Stores, ArrivedBefore, SavedAfter, StillToCome, Kept, AfterTurn,
        InPlace, TurnsSound, SaveEnv.Sound;
      ghost var start, from := Abs(), pos;
      trace, reached, last := [], 0, -1;
      PathStart(Machine(log), start);
      var k := 0;
      var running := true;
      NothingYet(log, turns, start.saved, store.docs, pos);
      AllToCome(log, turns, pos, start.saved);
      while k < |turns| && running
        invariant 0 <= k <= |turns| && reached == (if running then k else k - 1)
        invariant running ==> phase == Reading(pos) && InPlace(log, turns, from, k, pos)
        invariant Path(Machine(log), start, trace, Abs())
        invariant StillToCome(log, turns, from, start.saved, k, running, pos, store.OffsetOf(key))
        invariant Kept(log, turns, from, reached, last, start.saved, store.OffsetOf(key), store.docs)
        invariant !running ==> reached >= 0 && Ends(log, turns, from, reached)
      {
        SoundTurn(turns, k);
        ghost var mid, at := Abs(), pos;
        ghost var t;
        running, t := HandleTurn(turns[k]);
        PathJoin(Machine(log), start, trace, mid, t, Abs());
        trace := trace + t;
        TurnComes(log, turns, from, start.saved, k, at, mid.saved, mid.docs, running, pos, store.OffsetOf(key),
          store.docs);
        last := TurnKeeps(log, turns, from, k, last, start.saved, mid.saved, mid.docs, at, running, pos,
          store.OffsetOf(key), store.docs);
        k := k + 1;
        reached := if running then k else k - 1;
      }
      ended := !running;
      NothingToCome(log, turns, from, start.saved, k, running, pos, store.OffsetOf(key));
    }

    /** One FetchMessage call and what follows; running is false when it ends the connection. */
    method HandleTurn(t: Turn) returns (running: bool, ghost trace: seq<Action>)
      requires phase == Reading(pos) && (t.Arrived? ==> t.save.Sound())
      modifies store, this
      ensures Path(Machine(log), old(Abs()), trace, Abs())
      ensures AfterTurn(log, t, old(pos), old(store.OffsetOf(key)), old(store.docs), running, pos, store.OffsetOf(key),
        store.docs)
      ensures running ==> phase == Reading(pos)
    {
      hide Path, SaveEnv.Succeeds, Has;
      running, trace := true, [];
      PathStart(Machine(log), Abs());
      match t {
        case Eof => running := false;
        case Cancelled => running := false;
        case FetchError =>
        case Arrived(save, saveOffset) =>
          if pos < |log| {
            running, trace := HandleFetched(save, saveOffset);
          }
      }
    }

    /**
     One turn of the reconnect loop: a new reader starts at the saved offset, or at the beginning
     when that cannot be had.
     */
    method Connection(session: Session) returns (ghost trace: seq<Action>)
      requires TurnsSound(session.turns) && phase == Down
      modifies store, this
      ensures Path(Machine(log), old(Abs()), trace, Abs()) && phase == Down
      ensures
        var saved := old(store.OffsetOf(key));
        store.OffsetOf(key)
          == SavedAfter(log, saved, if session.offsetRead && session.offsetSet then saved else 0, session.turns)
    {
      hide Path, SavedAfter;
      ghost var start := Abs();
      PathStart(Machine(log), start);
      pos := 0;
      var startOffset := store.GetConsumerOffset(key, session.offsetRead);
      if startOffset.Some? && startOffset.value > 0 && session.offsetSet {
        pos := startOffset.value;
      }
      ghost var useSaved := session.offsetRead && session.offsetSet;
      phase := Reading(pos);
      ghost var mid := Abs();
      PathExtend(Machine(log), start, [], start, Connect(useSaved), mid);
      ghost var reached, last, t := RunWithReaderAndSaveOffset(session.turns);
      PathJoin(Machine(log), start, [] + [Connect(useSaved)], mid, t, Abs());
      trace := [] + [Connect(useSaved)] + t;
    }

    /**
     The consumer over any sequence of connections and any behaviour of broker and store.
     From any state that meets the machine's invariant it takes machine steps only, and whatever
     is below the offset it leaves saved is stored exactly once, undecodable, or given up.
     */
    method RunSimpleConsumer(sessions: seq<Session>) returns (ghost trace: seq<Action>)
      requires phase == Down && Inv(log, Abs()) && forall s :: s in sessions ==> TurnsSound(s.turns)
      modifies store, this
      ensures phase == Down && Path(Machine(log), old(Abs()), trace, Abs()) && Inv(log, Abs())
      ensures store.OffsetOf(key) == SavedOver(log, old(store.OffsetOf(key)), sessions) <= |log|
      ensures forall o: nat :: o < store.OffsetOf(key) ==>
        log[o].Garbage? || Count(store.docs, log[o].event.id) == 1 || o in givenUp
    {
      hide Path, Inv, Step, SavedAfter;
      ghost var start := Abs();
      trace := [];
      PathStart(Machine(log), start);
      for k := 0 to |sessions|
        invariant phase == Down && Path(Machine(log), start, trace, Abs())
        invariant store.OffsetOf(key) == SavedOver(log, start.saved, sessions[..k])
      {
        assert sessions[..k + 1][..k] == sessions[..k];
        ghost var mid := Abs();
        ghost var t := Connection(sessions[k]);
        PathJoin(Machine(log), start, trace, mid, t, Abs());
        trace := trace + t;
      }
      assert sessions[..|sessions|] == sessions;
      StepsKeep(log, start, trace, Abs());
      SavedIsSettled(log, Abs());
    }
  }

  lemma SavedIsSettled(log: seq<Entry>, s: State)
    requires Inv(log, s)
    ensures s.saved <= |log|
    ensures forall o: nat :: o < s.saved ==> log[o].Garbage? || Count(s.docs, log[o].event.id) == 1 || o in s.givenUp
  {
    hide Count, Has;
    forall o: nat | o < s.saved ensures log[o].Garbage? || Count(s.docs, log[o].event.id) == 1 || o in s.givenUp {
      assert Settled(log, s, o);
      if log[o].Message? { CountUnique(s.docs, log[o].event.id); }
    }
  }
}
