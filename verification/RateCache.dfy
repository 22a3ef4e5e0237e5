/**
 The rate cache of the exchanger client under any number of concurrent callers: a
 read-locked check, a write-locked second check, one shared fetch, copies handed out, and
 a fallback to a single-pair lookup.  The clock is monotone.
 */
module RateCache {
  import opened Common
  import opened RateIndex

  /** What the exchanger's table holds at each instant, the cache lifetime, and whether there is a connection at all. */
  datatype World = World(server: int -> seq<RateRow>, ttl: int, hasClient: bool)

  /** Where a rate map came from. */
  datatype Basis =
    | Cached(checked: int)
    | Fetched(started: int, stored: int)
    | Unconnected

  /** A caller inside GetAllRates, then inside GetRateWithSource. */
  datatype Pc =
    | Idle
    | Entered
    | ReadLocked
    | ReadCopying(checked: int)
    | Missed
    | WriteLocked
    | WriteCopying(checked: int)
    | Fetching(started: int)
    | Storing(started: int, read: int)
    | Filled(started: int, stored: int)
    | Got(rates: map<string, real>, basis: Basis)
    | FallingBack(from: string, to: string, started: int)
    | GaveUp

  datatype Fetch = Fetch(started: int, read: int, stored: int)

  /**
   A rate returned by GetRateWithSource to a call that lasted from entered to answered: from a
   rate map, or from a single-pair request that began at started.
   */
  datatype Answer =
    | FromMap(entered: int, from: string, to: string, rate: real, basis: Basis, answered: int)
    | FromCall(entered: int, from: string, to: string, rate: real, started: int, answered: int)

  datatype Sys = Sys(
    clock: int,
    readers: set<nat>,
    writer: Option<nat>,
    pcs: map<nat, Pc>,
    // When each caller's current call began.
    entered: map<nat, int>,
    cacheRates: map<string, real>,
    cacheAt: Option<int>,
    fetches: seq<Fetch>,
    answers: seq<Answer>)

  datatype Action =
    | Tick(elapsed: nat)
    | Enter(c: nat)
    | ReadLock(c: nat)
    | ReadCheck(c: nat)
    | ReadCopy(c: nat)
    | WriteLock(c: nat)
    | WriteCheck(c: nat)
    | WriteCopy(c: nat)
    | FetchOk(c: nat, read: int)
    | FetchFail(c: nat)
    | StoreTime(c: nat)
    | FillCopy(c: nat)
    | LookUp(c: nat, from: string, to: string)
    | CallOk(c: nat, read: int)
    | CallFail(c: nat)
    | Leave(c: nat)

  function PcOf(s: Sys, c: nat): Pc {
    if c in s.pcs then s.pcs[c] else Idle
  }

  function EnteredAt(s: Sys, c: nat): int {
    if c in s.entered then s.entered[c] else s.clock
  }

  predicate Fresh(at: Option<int>, now: int, ttl: int) {
    at.Some? && now - at.value < ttl
  }

  predicate HoldsRead(pc: Pc) {
    pc.ReadLocked? || pc.ReadCopying?
  }

  predicate HoldsWrite(pc: Pc) {
    pc.WriteLocked? || pc.WriteCopying? || pc.Fetching? || pc.Storing? || pc.Filled?
  }

  /** An all-rates request is under way or its reply is being stored. */
  predicate InFetch(pc: Pc) {
    pc.Fetching? || pc.Storing?
  }

  function Goto(s: Sys, c: nat, pc: Pc): Sys {
    s.(pcs := s.pcs[c := pc])
  }

  /** One step of one caller or of the clock; an action that is not possible changes nothing. */
  function Step(w: World, s: Sys, a: Action): Sys {
    match a
    case Tick(elapsed) => s.(clock := s.clock + elapsed)
    case Enter(c) => if PcOf(s, c).Idle? then Goto(s.(entered := s.entered[c := s.clock]), c, Entered) else s
    case ReadLock(c) =>
      if PcOf(s, c).Entered? && s.writer.None? then Goto(s.(readers := s.readers + {c}), c, ReadLocked) else s
    case ReadCheck(c) =>
      if !PcOf(s, c).ReadLocked? then s
      else if Fresh(s.cacheAt, s.clock, w.ttl) then Goto(s, c, ReadCopying(s.clock))
      else Goto(s.(readers := s.readers - {c}), c, Missed)
    case ReadCopy(c) =>
      if PcOf(s, c).ReadCopying? then
        Goto(s.(readers := s.readers - {c}), c, Got(s.cacheRates, Cached(PcOf(s, c).checked)))
      else s
    case WriteLock(c) =>
      if PcOf(s, c).Missed? && s.writer.None? && s.readers == {} then Goto(s.(writer := Some(c)), c, WriteLocked) else s
    case WriteCheck(c) =>
      if !PcOf(s, c).WriteLocked? then s
      else if Fresh(s.cacheAt, s.clock, w.ttl) then Goto(s, c, WriteCopying(s.clock))
      else if !w.hasClient then Goto(s.(writer := None), c, Got(map[], Unconnected))
      else Goto(s, c, Fetching(s.clock))
    case WriteCopy(c) =>
      if PcOf(s, c).WriteCopying? then
        Goto(s.(writer := None), c, Got(s.cacheRates, Cached(PcOf(s, c).checked)))
      else s
    case FetchOk(c, read) =>
      if PcOf(s, c).Fetching? && PcOf(s, c).started <= read <= s.clock then
        Goto(s.(cacheRates := Index(w.server(read))), c, Storing(PcOf(s, c).started, read))
      else s
    case FetchFail(c) =>
      if PcOf(s, c).Fetching? then Goto(s.(writer := None), c, GaveUp) else s
    case StoreTime(c) =>
      if PcOf(s, c).Storing? then
        var pc := PcOf(s, c);
        Goto(s.(cacheAt := Some(s.clock), fetches := s.fetches + [Fetch(pc.started, pc.read, s.clock)]), c,
          Filled(pc.started, s.clock))
      else s
    case FillCopy(c) =>
      if PcOf(s, c).Filled? then
        Goto(s.(writer := None), c, Got(s.cacheRates, Fetched(PcOf(s, c).started, PcOf(s, c).stored)))
      else s
    case LookUp(c, from, to) =>
      if !PcOf(s, c).Got? then s
      else
        var pc := PcOf(s, c);
        var found := Lookup(pc.rates, from, to);
        if found.Some? then
          Goto(s.(answers := s.answers + [FromMap(EnteredAt(s, c), from, to, found.value, pc.basis, s.clock)]), c, Idle)
        else if !w.hasClient then Goto(s, c, GaveUp)
        else Goto(s, c, FallingBack(from, to, s.clock))
    case CallOk(c, read) =>
      if PcOf(s, c).FallingBack? && PcOf(s, c).started <= read <= s.clock then
        var pc := PcOf(s, c);
        var found := Rate(w.server(read), pc.from, pc.to);
        if found.Some? && found.value > 0.0 then
          Goto(s.(answers := s.answers
            + [FromCall(EnteredAt(s, c), pc.from, pc.to, found.value, pc.started, s.clock)]), c, Idle)
        else Goto(s, c, GaveUp)
      else s
    case CallFail(c) => if PcOf(s, c).FallingBack? then Goto(s, c, GaveUp) else s
    case Leave(c) => if PcOf(s, c).GaveUp? || PcOf(s, c).Got? then Goto(s, c, Idle) else s
  }

  function Start(now: int): Sys {
    Sys(now, {}, None, map[], map[], map[], None, [], [])
  }

  function Exec(w: World, now: int, acts: seq<Action>): Sys {
    if acts == [] then Start(now) else Step(w, Exec(w, now, acts[..|acts| - 1]), acts[|acts| - 1])
  }

  // ---------------------------------------------------------------- invariant

  ghost predicate Locks(s: Sys) {
    && (forall c: nat :: HoldsRead(PcOf(s, c)) <==> c in s.readers)
    && (forall c: nat :: HoldsWrite(PcOf(s, c)) <==> s.writer == Some(c))
    && (s.writer.Some? ==> s.readers == {})
  }

  ghost predicate FetchesSpaced(w: World, s: Sys) {
    && (forall i :: 0 <= i < |s.fetches| ==>
      s.fetches[i].started <= s.fetches[i].read <= s.fetches[i].stored <= s.clock)
    && (forall i :: 0 <= i < |s.fetches| - 1 ==> s.fetches[i + 1].started - s.fetches[i].stored >= w.ttl)
  }

  predicate IsStoring(s: Sys) {
    s.writer.Some? && PcOf(s, s.writer.value).Storing?
  }

  /** The cache is the last completed fetch, except between the two assignments that store the next one. */
  ghost predicate CacheIsLastFetch(w: World, s: Sys) {
    && (s.cacheAt.None? <==> s.fetches == [])
    && (s.fetches != [] ==>
      var f := s.fetches[|s.fetches| - 1];
      && s.cacheAt == Some(f.stored)
      && (!IsStoring(s) ==> s.cacheRates == Index(w.server(f.read))))
  }

  /** A check made at this instant against the last fetch came out fresh. */
  predicate CheckedFresh(w: World, s: Sys, checked: int) {
    s.fetches != [] && s.fetches[|s.fetches| - 1].stored <= checked <= s.clock
    && checked - s.fetches[|s.fetches| - 1].stored < w.ttl
  }

  predicate Due(w: World, s: Sys, started: int) {
    started <= s.clock && (s.fetches != [] ==> started - s.fetches[|s.fetches| - 1].stored >= w.ttl)
  }

  /** A rate map handed to a caller is the table at the instant some fetch read it. */
  ghost predicate Snapshot(w: World, s: Sys, rates: map<string, real>, basis: Basis) {
    match basis
    case Unconnected => rates == map[]
    case Cached(checked) =>
      exists f ::
        f in s.fetches && rates == Index(w.server(f.read)) && f.stored <= checked && checked - f.stored < w.ttl
    case Fetched(started, stored) =>
      exists f :: f in s.fetches && rates == Index(w.server(f.read)) && f.started == started && f.stored == stored
  }

  ghost predicate PcSound(w: World, s: Sys, pc: Pc) {
    match pc
    case ReadCopying(checked) => CheckedFresh(w, s, checked)
    case WriteCopying(checked) => CheckedFresh(w, s, checked)
    case Fetching(started) => Due(w, s, started)
    case Storing(started, read) =>
      Due(w, s, started) && started <= read <= s.clock && s.cacheRates == Index(w.server(read))
    case Filled(started, stored) =>
      s.fetches != [] && s.fetches[|s.fetches| - 1].started == started && s.fetches[|s.fetches| - 1].stored == stored
    case Got(rates, basis) => Snapshot(w, s, rates, basis)
    case FallingBack(_, _, started) => started <= s.clock
    case _ => true
  }

  ghost predicate PcsSound(w: World, s: Sys) {
    forall c: nat :: PcSound(w, s, PcOf(s, c))
  }

  ghost predicate AnswerSound(w: World, s: Sys, a: Answer) {
    match a
    case FromMap(_, from, to, rate, basis, _) =>
      exists rates :: Snapshot(w, s, rates, basis) && Lookup(rates, from, to) == Some(rate)
    case FromCall(_, from, to, rate, started, answered) =>
      exists read :: started <= read <= answered && Rate(w.server(read), from, to) == Some(rate) && rate > 0.0
  }

  ghost predicate AnswersSound(w: World, s: Sys) {
    forall a :: a in s.answers ==> AnswerSound(w, s, a)
  }

  ghost predicate Inv(w: World, s: Sys) {
    Locks(s) && FetchesSpaced(w, s) && CacheIsLastFetch(w, s) && PcsSound(w, s) && AnswersSound(w, s)
  }

  // ---------------------------------------------------------------- steps

  lemma SnapshotGrows(w: World, s: Sys, s': Sys, rates: map<string, real>, basis: Basis)
    requires Snapshot(w, s, rates, basis) && s.fetches <= s'.fetches
    ensures Snapshot(w, s', rates, basis)
  {
    assert forall f :: f in s.fetches ==> f in s'.fetches;
  }

  lemma AnswersGrow(w: World, s: Sys, s': Sys)
    requires AnswersSound(w, s) && s.fetches <= s'.fetches
    ensures forall a :: a in s.answers ==> AnswerSound(w, s', a)
  {
    forall a | a in s.answers ensures AnswerSound(w, s', a) {
      assert AnswerSound(w, s, a);
      if a.FromMap? {
        var rates :| Snapshot(w, s, rates, a.basis) && Lookup(rates, a.from, a.to) == Some(a.rate);
        SnapshotGrows(w, s, s', rates, a.basis);
      }
    }
  }

  /** A caller moving on without touching cache, clock or fetches. */
  lemma MoveKeeps(w: World, s: Sys, s': Sys, c: nat)
    requires Inv(w, s) && Locks(s')
    requires s' == s.(pcs := s.pcs[c := PcOf(s', c)], entered := s'.entered, readers := s'.readers,
      writer := s'.writer, answers := s'.answers)
    requires PcSound(w, s, PcOf(s', c)) && IsStoring(s') == IsStoring(s)
    requires forall a :: a in s'.answers ==> a in s.answers || AnswerSound(w, s, a)
    ensures Inv(w, s')
  {
    hide Snapshot, Index, Rate, Lookup, AnswerSound, Locks;
    forall d ensures PcSound(w, s', PcOf(s', d)) {
      assert PcSound(w, s, PcOf(s, d));
      assert PcOf(s', d) == if d == c then PcOf(s', c) else PcOf(s, d);
      SoundElsewhere(w, s, s', PcOf(s', d));
    }
    AnswersElsewhere(w, s, s');
  }

  /** Soundness of a caller or an answer looks only at the cache, the clock and the fetches. */
  lemma SoundElsewhere(w: World, s: Sys, s': Sys, pc: Pc)
    requires PcSound(w, s, pc) && s'.clock == s.clock && s'.cacheRates == s.cacheRates && s'.fetches == s.fetches
    ensures PcSound(w, s', pc)
  {
    if pc.Got? { SnapshotGrows(w, s, s', pc.rates, pc.basis); }
  }

  lemma AnswersElsewhere(w: World, s: Sys, s': Sys)
    requires s'.fetches == s.fetches
    ensures forall a :: AnswerSound(w, s, a) ==> AnswerSound(w, s', a)
  {
    forall a | AnswerSound(w, s, a) ensures AnswerSound(w, s', a) {
      if a.FromMap? {
        var rates :| Snapshot(w, s, rates, a.basis) && Lookup(rates, a.from, a.to) == Some(a.rate);
        SnapshotGrows(w, s, s', rates, a.basis);
      }
    }
  }

  lemma TickKeeps(w: World, s: Sys, elapsed: nat)
    requires Inv(w, s)
    ensures Inv(w, Step(w, s, Tick(elapsed)))
  {
    var s' := Step(w, s, Tick(elapsed));
    assert forall c: nat :: PcOf(s', c) == PcOf(s, c);
    forall c ensures PcSound(w, s', PcOf(s', c)) {
      assert PcSound(w, s, PcOf(s, c));
      if PcOf(s, c).Got? { SnapshotGrows(w, s, s', PcOf(s, c).rates, PcOf(s, c).basis); }
    }
    AnswersGrow(w, s, s');
  }

  lemma LocksMove(s: Sys, s': Sys, c: nat)
    requires Locks(s) && s'.pcs == s.pcs[c := PcOf(s', c)]
    requires s'.readers == (if HoldsRead(PcOf(s', c)) then s.readers + {c} else s.readers - {c})
    requires s'.writer == if HoldsWrite(PcOf(s', c)) then Some(c) else if s.writer == Some(c) then None else s.writer
    requires HoldsRead(PcOf(s', c)) && !HoldsRead(PcOf(s, c)) ==> s.writer.None?
    requires HoldsWrite(PcOf(s', c)) && !HoldsWrite(PcOf(s, c)) ==> s.writer.None? && s.readers == {}
    ensures Locks(s')
  {
    assert forall d: nat :: d != c ==> PcOf(s', d) == PcOf(s, d);
    if s'.writer.Some? {
      var d := s'.writer.value;
      assert HoldsWrite(PcOf(s', d));
    }
  }

  /** The read path: lock, check, copy. */
  lemma ReadKeeps(w: World, s: Sys, c: nat, a: Action)
    requires Inv(w, s) && (a == Enter(c) || a == ReadLock(c) || a == ReadCheck(c) || a == ReadCopy(c))
    ensures Inv(w, Step(w, s, a))
  {
    hide Index, AnswerSound, AnswersSound;
    var s' := Step(w, s, a);
    if s' != s {
      assert PcSound(w, s, PcOf(s, c));
      LocksMove(s, s', c);
      if a.ReadCopy? { FreshSnapshot(w, s, PcOf(s, c).checked); }
      MoveKeeps(w, s, s', c);
    }
  }

  lemma FreshSnapshot(w: World, s: Sys, checked: int)
    requires CacheIsLastFetch(w, s) && !IsStoring(s) && CheckedFresh(w, s, checked)
    ensures Snapshot(w, s, s.cacheRates, Cached(checked))
  {
    assert s.fetches[|s.fetches| - 1] in s.fetches;
  }

  /** The write path up to the fetch, and its failure. */
  lemma WriteKeeps(w: World, s: Sys, c: nat, a: Action)
    requires Inv(w, s) && (a == WriteLock(c) || a == WriteCheck(c) || a == FetchFail(c))
    ensures Inv(w, Step(w, s, a))
  {
    hide Index, AnswerSound, Locks, AnswersSound;
    var s' := Step(w, s, a);
    if s' != s {
      assert PcSound(w, s, PcOf(s, c));
      WriterMoves(w, s, c, a);
      MoveKeeps(w, s, s', c);
    }
  }

  /** What these steps do to the locks. */
  lemma WriterMoves(w: World, s: Sys, c: nat, a: Action)
    requires Locks(s) && Step(w, s, a) != s
    requires a == WriteLock(c) || a == WriteCheck(c) || a == FetchFail(c) || a == WriteCopy(c) || a == FillCopy(c)
    ensures Locks(Step(w, s, a)) && IsStoring(Step(w, s, a)) == IsStoring(s)
  {
    hide Index;
    LocksMove(s, Step(w, s, a), c);
  }

  /** The copies handed out under the write lock. */
  lemma HandOutKeeps(w: World, s: Sys, c: nat, a: Action)
    requires Inv(w, s) && (a == WriteCopy(c) || a == FillCopy(c))
    ensures Inv(w, Step(w, s, a))
  {
    hide Index, AnswerSound, Locks, AnswersSound;
    var s' := Step(w, s, a);
    if s' != s {
      assert PcSound(w, s, PcOf(s, c));
      WriterMoves(w, s, c, a);
      WriterIsNotStoring(s, c);
      if a.WriteCopy? {
        FreshSnapshot(w, s, PcOf(s, c).checked);
      } else {
        assert s.fetches[|s.fetches| - 1] in s.fetches;
      }
      MoveKeeps(w, s, s', c);
    }
  }

  lemma WriterIsNotStoring(s: Sys, c: nat)
    requires Locks(s) && HoldsWrite(PcOf(s, c)) && !PcOf(s, c).Storing?
    ensures !IsStoring(s)
  {
  }

  lemma LocklessMoves(s: Sys, s': Sys, c: nat)
    requires Locks(s) && s'.pcs == s.pcs[c := PcOf(s', c)] && s'.readers == s.readers && s'.writer == s.writer
    requires !HoldsRead(PcOf(s, c)) && !HoldsWrite(PcOf(s, c)) && !HoldsRead(PcOf(s', c)) && !HoldsWrite(PcOf(s', c))
    ensures Locks(s') && IsStoring(s') == IsStoring(s)
  {
    assert c !in s.readers && s.writer != Some(c);
    LocksMove(s, s', c);
  }

  /** Looking a pair up in the map. */
  lemma LookUpKeeps(w: World, s: Sys, c: nat, from: string, to: string)
    requires Inv(w, s)
    ensures Inv(w, Step(w, s, LookUp(c, from, to)))
  {
    hide Index, Lookup, Rate, Locks, Snapshot, CacheIsLastFetch, PcsSound;
    var s' := Step(w, s, LookUp(c, from, to));
    if s' != s {
      PcIsSound(w, s, c);
      LocklessMoves(s, s', c);
      MoveKeeps(w, s, s', c);
    }
  }

  lemma PcIsSound(w: World, s: Sys, c: nat)
    requires PcsSound(w, s)
    ensures PcSound(w, s, PcOf(s, c))
  {
  }

  /** The fallback call. */
  lemma CallOkKeeps(w: World, s: Sys, c: nat, read: int)
    requires Inv(w, s)
    ensures Inv(w, Step(w, s, CallOk(c, read)))
  {
    hide Index, Lookup, Rate, Locks, Snapshot, CacheIsLastFetch, PcsSound;
    var s' := Step(w, s, CallOk(c, read));
    if s' != s {
      LocklessMoves(s, s', c);
      MoveKeeps(w, s, s', c);
    }
  }

  lemma LeaveKeeps(w: World, s: Sys, c: nat, a: Action)
    requires Inv(w, s) && (a == CallFail(c) || a == Leave(c))
    ensures Inv(w, Step(w, s, a))
  {
    hide Index, Lookup, Rate, Locks, Snapshot, CacheIsLastFetch, PcsSound, AnswersSound;
    var s' := Step(w, s, a);
    if s' != s {
      LocklessMoves(s, s', c);
      MoveKeeps(w, s, s', c);
    }
  }

  /** The reply is stored: only the writer sees it until the time is stored too. */
  lemma FetchOkKeeps(w: World, s: Sys, c: nat, read: int)
    requires Inv(w, s)
    ensures Inv(w, Step(w, s, FetchOk(c, read)))
  {
    hide Index, AnswerSound;
    var s' := Step(w, s, FetchOk(c, read));
    if s' != s {
      assert PcSound(w, s, PcOf(s, c));
      LocksMove(s, s', c);
      forall d ensures PcSound(w, s', PcOf(s', d)) {
        assert PcSound(w, s, PcOf(s, d));
        if d != c {
          assert PcOf(s', d) == PcOf(s, d) && !HoldsWrite(PcOf(s, d));
          if PcOf(s, d).Got? { SnapshotGrows(w, s, s', PcOf(s, d).rates, PcOf(s, d).basis); }
        }
      }
      AnswersElsewhere(w, s, s');
    }
  }

  lemma StoreTimeKeeps(w: World, s: Sys, c: nat)
    requires Inv(w, s)
    ensures Inv(w, Step(w, s, StoreTime(c)))
  {
    hide Index, AnswerSound;
    var s' := Step(w, s, StoreTime(c));
    if s' != s {
      assert PcSound(w, s, PcOf(s, c));
      LocksMove(s, s', c);
      forall d ensures PcSound(w, s', PcOf(s', d)) {
        assert PcSound(w, s, PcOf(s, d));
        if d != c {
          assert PcOf(s', d) == PcOf(s, d) && !HoldsWrite(PcOf(s, d)) && !HoldsRead(PcOf(s, d));
          if PcOf(s, d).Got? { SnapshotGrows(w, s, s', PcOf(s, d).rates, PcOf(s, d).basis); }
        }
      }
      AnswersGrow(w, s, s');
    }
  }

  lemma StepKeeps(w: World, s: Sys, a: Action)
    requires Inv(w, s)
    ensures Inv(w, Step(w, s, a))
  {
    hide Inv, Step;
    match a
    case Tick(elapsed) => TickKeeps(w, s, elapsed);
    case Enter(c) => ReadKeeps(w, s, c, a);
    case ReadLock(c) => ReadKeeps(w, s, c, a);
    case ReadCheck(c) => ReadKeeps(w, s, c, a);
    case ReadCopy(c) => ReadKeeps(w, s, c, a);
    case WriteLock(c) => WriteKeeps(w, s, c, a);
    case WriteCheck(c) => WriteKeeps(w, s, c, a);
    case WriteCopy(c) => HandOutKeeps(w, s, c, a);
    case FetchOk(c, read) => FetchOkKeeps(w, s, c, read);
    case FetchFail(c) => WriteKeeps(w, s, c, a);
    case StoreTime(c) => StoreTimeKeeps(w, s, c);
    case FillCopy(c) => HandOutKeeps(w, s, c, a);
    case LookUp(c, from, to) => LookUpKeeps(w, s, c, from, to);
    case CallOk(c, read) => CallOkKeeps(w, s, c, read);
    case CallFail(c) => LeaveKeeps(w, s, c, a);
    case Leave(c) => LeaveKeeps(w, s, c, a);
  }

  lemma {:induction false} ExecKeeps(w: World, now: int, acts: seq<Action>)
    ensures Inv(w, Exec(w, now, acts))
  {
    if acts != [] {
      ExecKeeps(w, now, acts[..|acts| - 1]);
      StepKeeps(w, Exec(w, now, acts[..|acts| - 1]), acts[|acts| - 1]);
    }
  }

  // ---------------------------------------------------------------- theorems

  /**
   Single flight: at any time at most one caller is fetching all rates, and completed fetches are
   at least one TTL apart.
   */
  lemma SingleFlight(w: World, now: int, acts: seq<Action>)
    ensures
      var s := Exec(w, now, acts);
      && (forall c: nat, d: nat :: InFetch(PcOf(s, c)) && InFetch(PcOf(s, d)) ==> c == d)
      && (forall i :: 0 <= i < |s.fetches| - 1 ==> s.fetches[i + 1].stored - s.fetches[i].stored >= w.ttl)
  {
    hide PcSound, AnswersSound, CacheIsLastFetch;
    ExecKeeps(w, now, acts);
    var s := Exec(w, now, acts);
    assert forall c: nat :: InFetch(PcOf(s, c)) ==> s.writer == Some(c);
  }

  // ---------------------------------------------------------------- when things happened

  /** What a caller remembers happened during its own call. */
  predicate PcTimely(entered: int, clock: int, pc: Pc) {
    match pc
    case Idle => true
    case ReadCopying(checked) => entered <= checked <= clock
    case WriteCopying(checked) => entered <= checked <= clock
    case Fetching(started) => entered <= started <= clock
    case Storing(started, _) => entered <= started <= clock
    case Filled(started, stored) => entered <= started <= stored <= clock
    case Got(_, basis) => BasisTimely(entered, clock, basis)
    case FallingBack(_, _, started) => entered <= started <= clock
    case _ => entered <= clock
  }

  predicate BasisTimely(entered: int, upTo: int, basis: Basis) {
    && entered <= upTo
    && match basis
       case Cached(checked) => entered <= checked <= upTo
       case Fetched(started, stored) => entered <= started <= stored <= upTo
       case Unconnected => true
  }

  predicate AnswerTimely(clock: int, a: Answer) {
    && a.answered <= clock
    && match a
       case FromMap(entered, _, _, _, basis, answered) => BasisTimely(entered, answered, basis)
       case FromCall(entered, _, _, _, started, answered) => entered <= started <= answered
  }

  ghost predicate Timely(s: Sys) {
    && (forall c: nat :: PcOf(s, c).Idle? || (c in s.entered && PcTimely(s.entered[c], s.clock, PcOf(s, c))))
    && (forall a :: a in s.answers ==> AnswerTimely(s.clock, a))
  }

  lemma TimelyMove(s: Sys, s': Sys, c: nat)
    requires Timely(s) && s'.clock == s.clock && s'.pcs == s.pcs[c := PcOf(s', c)]
    requires s'.entered == s.entered[c := EnteredAt(s', c)]
    requires PcOf(s', c).Idle? || PcTimely(EnteredAt(s', c), s.clock, PcOf(s', c))
    requires forall a :: a in s'.answers ==> a in s.answers || AnswerTimely(s.clock, a)
    ensures Timely(s')
  {
    hide PcTimely, AnswerTimely;
    forall d: nat ensures PcOf(s', d).Idle? || (d in s'.entered && PcTimely(s'.entered[d], s'.clock, PcOf(s', d))) {
      assert d != c ==> PcOf(s', d) == PcOf(s, d);
    }
  }

  lemma TickIs(w: World, s: Sys, elapsed: nat)
    ensures Step(w, s, Tick(elapsed)) == s.(clock := s.clock + elapsed)
  {
  }

  lemma TimelyStep(w: World, s: Sys, a: Action)
    requires Timely(s)
    ensures Timely(Step(w, s, a))
  {
    hide Index, Lookup, Rate, Step;
    var s' := Step(w, s, a);
    if a.Tick? {
      TickIs(w, s, a.elapsed);
      assert forall c: nat :: PcOf(s', c) == PcOf(s, c);
    } else if s' != s {
      var c := a.c;
      OwnStepTimely(w, s, a);
      TimelyMove(s, s', c);
    }
  }

  /** A caller's step stamps what it remembers within its own call. */
  ghost predicate StampsWell(s: Sys, s': Sys, c: nat) {
    && s'.clock == s.clock && s'.pcs == s.pcs[c := PcOf(s', c)] && s'.entered == s.entered[c := EnteredAt(s', c)]
    && (PcOf(s', c).Idle? || PcTimely(EnteredAt(s', c), s.clock, PcOf(s', c)))
    && (forall x :: x in s'.answers ==> x in s.answers || AnswerTimely(s.clock, x))
  }

  lemma OwnStepTimely(w: World, s: Sys, a: Action)
    requires Timely(s) && !a.Tick? && Step(w, s, a) != s
    ensures StampsWell(s, Step(w, s, a), a.c)
  {
    hide Index, Lookup, Rate, Step, StampsWell;
    var c := a.c;
    assert PcOf(s, c).Idle? || (c in s.entered && PcTimely(s.entered[c], s.clock, PcOf(s, c)));
    assert c in s.entered ==> s.entered[c := s.entered[c]] == s.entered;
    if a.Enter? || a.ReadLock? || a.ReadCheck? || a.ReadCopy? {
      ReadStamps(w, s, a);
    } else if a.LookUp? || a.CallOk? || a.CallFail? || a.Leave? {
      LookupStamps(w, s, a);
    } else {
      WriteStamps(w, s, a);
    }
  }

  lemma ReadStamps(w: World, s: Sys, a: Action)
    requires (a.Enter? || a.ReadLock? || a.ReadCheck? || a.ReadCopy?) && Step(w, s, a) != s
    requires PcOf(s, a.c).Idle? || (a.c in s.entered && PcTimely(s.entered[a.c], s.clock, PcOf(s, a.c)))
    requires a.c in s.entered ==> s.entered[a.c := s.entered[a.c]] == s.entered
    ensures StampsWell(s, Step(w, s, a), a.c)
  {
    hide Index, AnswerTimely;
  }

  lemma LookupStamps(w: World, s: Sys, a: Action)
    requires (a.LookUp? || a.CallOk? || a.CallFail? || a.Leave?) && Step(w, s, a) != s
    requires PcOf(s, a.c).Idle? || (a.c in s.entered && PcTimely(s.entered[a.c], s.clock, PcOf(s, a.c)))
    requires a.c in s.entered ==> s.entered[a.c := s.entered[a.c]] == s.entered
    ensures StampsWell(s, Step(w, s, a), a.c)
  {
    hide Index, Lookup, Rate;
  }

  lemma WriteStamps(w: World, s: Sys, a: Action)
    requires a.WriteLock? || a.WriteCheck? || a.WriteCopy? || a.FetchOk? || a.FetchFail? || a.StoreTime? || a.FillCopy?
    requires PcOf(s, a.c).Idle? || (a.c in s.entered && PcTimely(s.entered[a.c], s.clock, PcOf(s, a.c)))
    requires (a.c in s.entered ==> s.entered[a.c := s.entered[a.c]] == s.entered) && Step(w, s, a) != s
    ensures StampsWell(s, Step(w, s, a), a.c)
  {
    hide Index, AnswerTimely;
  }

  lemma {:induction false} ExecTimely(w: World, now: int, acts: seq<Action>)
    ensures Timely(Exec(w, now, acts))
  {
    hide Step, Timely;
    if acts == [] {
      StartTimely(now);
    } else {
      ExecTimely(w, now, acts[..|acts| - 1]);
      TimelyStep(w, Exec(w, now, acts[..|acts| - 1]), acts[|acts| - 1]);
    }
  }

  lemma StartTimely(now: int)
    ensures Timely(Start(now))
  {
  }

  /** The table held the answer at t, and t is recent as seen from the call. */
  ghost predicate HeldAt(w: World, s: Sys, a: Answer, t: int) {
    && Rate(w.server(t), a.from, a.to) == Some(a.rate)
    && match a
       case FromCall(entered, _, _, _, started, answered) => entered <= started <= t <= answered
       case FromMap(entered, _, _, _, Fetched(started, stored), answered) =>
         entered <= started <= t <= stored <= answered
       case FromMap(entered, _, _, _, Cached(checked), answered) =>
         && entered <= checked <= answered
         && exists f ::
              f in s.fetches && f.started <= t <= f.stored <= checked && checked - t < w.ttl + (f.stored - f.started)
       case FromMap(_, _, _, _, Unconnected, _) => false
  }

  /**
   Bounded staleness: every rate returned is the table's own rate for that pair at some instant
   of the call itself, when the caller fetched or fell back; or less than the TTL plus the filling fetch's
   duration before the check of the cache, which was made during the call.
   */
  lemma BoundedStaleness(w: World, now: int, acts: seq<Action>, a: Answer)
    requires forall t :: UniquePairs(w.server(t)) && PlainCodes(w.server(t))
    requires a in Exec(w, now, acts).answers
    ensures exists t :: HeldAt(w, Exec(w, now, acts), a, t)
  {
    hide Index, Lookup, Rate, Exec;
    ExecKeeps(w, now, acts);
    ExecTimely(w, now, acts);
    var s := Exec(w, now, acts);
    assert AnswerSound(w, s, a) && AnswerTimely(s.clock, a);
    match a
    case FromCall(_, from, to, rate, started, answered) =>
      var read :| started <= read <= answered && Rate(w.server(read), from, to) == Some(rate);
      assert HeldAt(w, s, a, read);
    case FromMap(_, from, to, rate, basis, _) =>
      var rates :| Snapshot(w, s, rates, basis) && Lookup(rates, from, to) == Some(rate);
      MapHeld(w, s, a, rates);
  }

  lemma MapHeld(w: World, s: Sys, a: Answer, rates: map<string, real>)
    requires forall t :: UniquePairs(w.server(t)) && PlainCodes(w.server(t))
    requires Inv(w, s) && a.FromMap? && AnswerTimely(s.clock, a)
    requires Snapshot(w, s, rates, a.basis) && Lookup(rates, a.from, a.to) == Some(a.rate)
    ensures exists t :: HeldAt(w, s, a, t)
  {
    hide Index, Lookup, Rate, PcsSound, AnswersSound, CacheIsLastFetch, Locks;
    match a.basis
    case Unconnected => NothingThere(a.from, a.to);
    case Cached(checked) =>
      var f :| f in s.fetches && rates == Index(w.server(f.read)) && f.stored <= checked && checked - f.stored < w.ttl;
      assert f.started <= f.read <= f.stored;
      IndexAgrees(w.server(f.read), a.from, a.to);
      assert HeldAt(w, s, a, f.read);
    case Fetched(started, stored) =>
      var f :| f in s.fetches && rates == Index(w.server(f.read)) && f.started == started && f.stored == stored;
      assert f.started <= f.read <= f.stored;
      IndexAgrees(w.server(f.read), a.from, a.to);
      assert HeldAt(w, s, a, f.read);
  }

  lemma NothingThere(from: string, to: string)
    ensures Lookup(map[], from, to) == None
  {
  }

  /** Only a successful fetch changes the cache: its map when the reply arrives, its time when that is stored. */
  lemma OnlySuccessfulFetchChangesCache(w: World, s: Sys, a: Action)
    ensures
      var s' := Step(w, s, a);
      && (s'.cacheRates != s.cacheRates ==>
        a.FetchOk? && PcOf(s, a.c).Fetching? && s'.cacheRates == Index(w.server(a.read)))
      && (s'.cacheAt != s.cacheAt ==> a.StoreTime? && PcOf(s, a.c).Storing? && s'.cacheAt == Some(s.clock))
  {
  }

  ghost predicate NobodyStores(s: Sys) {
    forall c: nat :: !PcOf(s, c).Storing?
  }

  lemma StoringComesFromFetch(w: World, s: Sys, a: Action)
    requires NobodyStores(s) && !a.FetchOk?
    ensures NobodyStores(Step(w, s, a))
  {
    hide Index, Lookup, Rate;
    var s' := Step(w, s, a);
    forall c: nat ensures !PcOf(s', c).Storing? {
      assert !PcOf(s, c).Storing?;
    }
  }

  /**
   Failed fetches, hits, misses and lookups leave the cache alone: however a run goes on without a
   successful fetch, and with none half stored, the cache stays exactly as it was.
   */
  lemma {:induction false} CacheStaysWithoutFetch(w: World, now: int, acts: seq<Action>, more: seq<Action>)
    requires NobodyStores(Exec(w, now, acts)) && forall a :: a in more ==> !a.FetchOk?
    ensures
      var s, t := Exec(w, now, acts), Exec(w, now, acts + more);
      t.cacheRates == s.cacheRates && t.cacheAt == s.cacheAt && t.fetches == s.fetches && NobodyStores(t)
    decreases |more|
  {
    hide Step, NobodyStores;
    if more == [] {
      assert acts + more == acts;
    } else {
      var init, a := more[..|more| - 1], more[|more| - 1];
      CacheStaysWithoutFetch(w, now, acts, init);
      assert (acts + more)[..|acts + more| - 1] == acts + init && a in more;
      var s := Exec(w, now, acts + init);
      StoringComesFromFetch(w, s, a);
      NothingToStore(w, s, a);
      OnlySuccessfulFetchChangesCache(w, s, a);
    }
  }

  lemma NothingToStore(w: World, s: Sys, a: Action)
    requires NobodyStores(s) && !a.FetchOk?
    ensures Step(w, s, a).fetches == s.fetches && (a.StoreTime? ==> !PcOf(s, a.c).Storing?)
  {
    hide Index, Lookup, Rate;
  }
}
