/**
 The exchanger client as it runs: the cached map is an object on the heap, callers get
 objects of their own, and each locked section is proved to take steps of the RateCache
 machine only.  Between its two locked sections a call may find that others have run theirs.
 */
module ExchangerClient {
  import opened Common
  import opened RateIndex
  import opened RateCache
  import opened Runs

  /** A Go map: shared by everyone who holds a reference to it. */
  class RateMap {
    var m: map<string, real>

    constructor (m: map<string, real>)
      ensures this.m == m
    {
      this.m := m;
    }

    method Copy() returns (out: RateMap)
      ensures fresh(out) && out.m == m
    {
      out := new RateMap(map[]);
      var keys := m.Keys;
      while keys != {}
        invariant keys <= m.Keys && fresh(out)
        invariant out.m == map k | k in m && k !in keys :: m[k]
        decreases |keys|
      {
        var k :| k in keys;
        out.m := out.m[k := m[k]];
        keys := keys - {k};
      }
    }
  }

  datatype Source = FromCache | FromGrpc

  /** A successful reply carries a map, or none at all. */
  datatype AllReply = AllFailed | AllRates(rates: Option<map<string, real>>)

  /** A write-locked section: the times of its check and of its store, and the exchanger's reply if it is asked. */
  datatype Section = Section(checked: int, reply: AllReply, stored: int)

  datatype Result<T> = Found(value: T, source: Source) | Error

  /** The cached map and the time it was stored, as values. */
  datatype CacheValue = CacheValue(rates: map<string, real>, at: Option<int>)

  function Received(reply: AllReply): map<string, real>
    requires reply.AllRates?
  {
    if reply.rates.Some? then reply.rates.value else map[]
  }

  /** What a write-locked section leaves in the cache. */
  function Refreshed(c: CacheValue, ttl: int, hasClient: bool, e: Section): CacheValue {
    if !Fresh(c.at, e.checked, ttl) && hasClient && e.reply.AllRates?
      then CacheValue(Received(e.reply), Some(e.stored)) else c
  }

  function RefreshedByAll(c: CacheValue, ttl: int, hasClient: bool, es: seq<Section>): CacheValue {
    if es == [] then c else Refreshed(RefreshedByAll(c, ttl, hasClient, es[..|es| - 1]), ttl, hasClient, es[|es| - 1])
  }

  /** What a call that missed on its first check answers, given the cache it finds under the write lock. */
  function Answered(c: CacheValue, ttl: int, hasClient: bool, e: Section): Result<map<string, real>> {
    if Fresh(c.at, e.checked, ttl) then Found(c.rates, FromCache)
    else if !hasClient then Found(map[], FromGrpc)
    else if e.reply.AllFailed? then Error
    else Found(Received(e.reply), FromGrpc)
  }

  /** What a whole GetAllRates leaves in the cache; rivals are others' sections between its two checks. */
  function CacheAfter(c: CacheValue, ttl: int, hasClient: bool, now: int, rivals: seq<Section>,
      e: Section): CacheValue
  {
    if Fresh(c.at, now, ttl) then c else Refreshed(RefreshedByAll(c, ttl, hasClient, rivals), ttl, hasClient, e)
  }

  /** What a whole GetAllRates answers. */
  function AllRatesOf(c: CacheValue, ttl: int, hasClient: bool, now: int, rivals: seq<Section>,
      e: Section): Result<map<string, real>>
  {
    if Fresh(c.at, now, ttl) then Found(c.rates, FromCache)
    else Answered(RefreshedByAll(c, ttl, hasClient, rivals), ttl, hasClient, e)
  }

  /**
   Whoever refreshed first since our miss spares us the fetch: a section after a fresh refresh
   answers from the cache.
   */
  lemma {:induction false} RivalRefreshIsUsed(c: CacheValue, ttl: int, es: seq<Section>, i: nat, e: Section)
    requires i < |es| && es[i].reply.AllRates? && !Fresh(RefreshedByAll(c, ttl, true, es[..i]).at, es[i].checked, ttl)
    requires forall k :: i <= k < |es| ==> es[i].stored <= es[k].stored
    requires e.checked - es[i].stored < ttl
    ensures Answered(RefreshedByAll(c, ttl, true, es), ttl, true, e)
      == Found(RefreshedByAll(c, ttl, true, es).rates, FromCache)
    ensures RefreshedByAll(c, ttl, true, es).at.Some? && RefreshedByAll(c, ttl, true, es).at.value >= es[i].stored
    decreases |es|
  {
    var before, last := es[..|es| - 1], |es| - 1;
    if i < last {
      assert before[..i] == es[..i];
      RivalRefreshIsUsed(c, ttl, before, i, e);
    }
  }

  // ---------------------------------------------------------------- the machine's view

  /** The cache machine as a step function. */
  function Machine(w: World): (Sys, Action) -> Sys {
    (s, a) => Step(w, s, a)
  }

  lemma Take(w: World, from: Sys, trace: seq<Action>, mid: Sys, a: Action) returns (longer: seq<Action>, to: Sys)
    requires Path(Machine(w), from, trace, mid)
    ensures longer == trace + [a] && to == Step(w, mid, a) && Path(Machine(w), from, longer, to)
  {
    hide Path, Step;
    longer, to := trace + [a], Step(w, mid, a);
    PathExtend(Machine(w), from, trace, mid, a, to);
  }

  /** The exchanger's reply to a section, if it is asked, is its table at some instant of the request. */
  predicate RepliesFrom(w: World, e: Section, read: int) {
    e.reply.AllRates? ==> e.checked <= read <= e.stored && Received(e.reply) == Index(w.server(read))
  }

  /** The machine gives its caller this answer: the same rates, and "cache" exactly for cached ones. */
  predicate HandsOver(pc: Pc, a: Result<map<string, real>>) {
    if a.Error? then pc == GaveUp
    else pc.Got? && pc.rates == a.value && (a.source.FromCache? <==> pc.basis.Cached?)
  }

  function EndOf(e: Section): int {
    if e.reply.AllRates? then e.stored else e.checked
  }

  /** The machine's side of a write-locked section. */
  lemma WriteSection(w: World, s: Sys, c: nat, e: Section, read: int) returns (trace: seq<Action>, s': Sys)
    requires s.clock == e.checked && PcOf(s, c).Missed? && s.writer.None? && s.readers == {}
    requires RepliesFrom(w, e, read)
    ensures Path(Machine(w), s, trace, s') && s'.writer.None? && s'.readers == {}
    ensures s'.clock == e.checked || s'.clock == EndOf(e)
    ensures forall d: nat :: d != c ==> PcOf(s', d) == PcOf(s, d)
    ensures CacheValue(s'.cacheRates, s'.cacheAt)
      == Refreshed(CacheValue(s.cacheRates, s.cacheAt), w.ttl, w.hasClient, e)
    ensures
      var a := Answered(CacheValue(s.cacheRates, s.cacheAt), w.ttl, w.hasClient, e);
      HandsOver(PcOf(s', c), a)
  {
    hide Path, Index;
    PathStart(Machine(w), s);
    trace, s' := Take(w, s, [], s, WriteLock(c));
    trace, s' := Take(w, s, trace, s', WriteCheck(c));
    if Fresh(s.cacheAt, e.checked, w.ttl) {
      trace, s' := Take(w, s, trace, s', WriteCopy(c));
    } else if w.hasClient {
      if e.reply.AllFailed? {
        trace, s' := Take(w, s, trace, s', FetchFail(c));
      } else {
        assert s' == Goto(s.(writer := Some(c), pcs := s.pcs[c := WriteLocked]), c, Fetching(e.checked));
        trace, s' := FetchSection(w, s, trace, s', c, e, read);
      }
    }
  }

  lemma FetchSection(w: World, from: Sys, before: seq<Action>, s: Sys, c: nat, e: Section, read: int)
    returns (trace: seq<Action>, s': Sys)
    requires Path(Machine(w), from, before, s) && PcOf(s, c) == Fetching(e.checked) && s.clock == e.checked
      && s.readers == {}
    requires e.reply.AllRates? && RepliesFrom(w, e, read)
    ensures Path(Machine(w), from, trace, s') && s'.writer.None? && s'.readers == {} && s'.clock == e.stored
    ensures forall d: nat :: d != c ==> PcOf(s', d) == PcOf(s, d)
    ensures s'.cacheRates == Received(e.reply) && s'.cacheAt == Some(e.stored)
    ensures PcOf(s', c).Got? && PcOf(s', c).rates == Received(e.reply) && PcOf(s', c).basis.Fetched?
  {
    hide Path, Index;
    trace, s' := Take(w, from, before, s, Tick(e.stored - e.checked));
    trace, s' := Take(w, from, trace, s', FetchOk(c, read));
    trace, s' := Take(w, from, trace, s', StoreTime(c));
    trace, s' := Take(w, from, trace, s', FillCopy(c));
  }

  /** The machine's side of a read-locked section: a hit hands out the cache, a miss changes nothing. */
  lemma ReadSection(w: World, s: Sys, c: nat) returns (trace: seq<Action>, s': Sys)
    requires PcOf(s, c).Idle? && s.writer.None? && c !in s.readers
    ensures Path(Machine(w), s, trace, s')
    ensures s' == Goto(s.(entered := s.entered[c := s.clock]), c,
      if Fresh(s.cacheAt, s.clock, w.ttl) then Got(s.cacheRates, Cached(s.clock)) else Missed)
  {
    hide Path;
    PathStart(Machine(w), s);
    trace, s' := Take(w, s, [], s, Enter(c));
    trace, s' := Take(w, s, trace, s', ReadLock(c));
    trace, s' := Take(w, s, trace, s', ReadCheck(c));
    assert s.readers + {c} - {c} == s.readers;
    if Fresh(s.cacheAt, s.clock, w.ttl) {
      trace, s' := Take(w, s, trace, s', ReadCopy(c));
      assert s'.pcs == s.pcs[c := Got(s.cacheRates, Cached(s.clock))];
    } else {
      assert s'.pcs == s.pcs[c := Missed];
    }
  }

  /** When the last of these sections ended. */
  function Since(start: int, es: seq<Section>): int {
    if es == [] then start else EndOf(es[|es| - 1])
  }

  /** Sections of different callers, one after the other, from the instant start on. */
  ghost predicate InTurn(w: World, start: int, es: seq<Section>, callers: seq<nat>, instants: seq<int>) {
    && |es| == |callers| == |instants|
    && (forall k :: 0 <= k < |es| ==> RepliesFrom(w, es[k], instants[k]))
    && (forall k :: 0 <= k < |es| ==> Since(start, es[..k]) <= es[k].checked <= EndOf(es[k]))
    && (forall j, k :: 0 <= j < k < |callers| ==> callers[j] != callers[k])
  }

  /** The machine's side of any number of write-locked sections, each run by a caller that has missed. */
  lemma {:induction false} WriteSections(w: World, s: Sys, es: seq<Section>, callers: seq<nat>, instants: seq<int>)
    returns (trace: seq<Action>, s': Sys)
    requires s.writer.None? && s.readers == {} && InTurn(w, s.clock, es, callers, instants)
    requires forall k :: 0 <= k < |callers| ==> PcOf(s, callers[k]).Missed?
    ensures Path(Machine(w), s, trace, s') && s'.writer.None? && s'.readers == {}
    ensures s.clock <= s'.clock <= Since(s.clock, es)
    ensures forall d: nat :: d !in callers ==> PcOf(s', d) == PcOf(s, d)
    ensures CacheValue(s'.cacheRates, s'.cacheAt)
      == RefreshedByAll(CacheValue(s.cacheRates, s.cacheAt), w.ttl, w.hasClient, es)
    ensures es != [] ==>
      var a := Answered(RefreshedByAll(CacheValue(s.cacheRates, s.cacheAt), w.ttl, w.hasClient, es[..|es| - 1]),
        w.ttl, w.hasClient, es[|es| - 1]);
      HandsOver(PcOf(s', callers[|es| - 1]), a)
    decreases |es|
  {
    hide Path, Step, Refreshed, Answered, RepliesFrom, InTurn;
    trace, s' := [], s;
    PathStart(Machine(w), s);
    SameLength(w, s.clock, es, callers, instants);
    if es != [] {
      var n := |es| - 1;
      InTurnBefore(w, s.clock, es, callers, instants);
      trace, s' := WriteSections(w, s, es[..n], callers[..n], instants[..n]);
      var waited := s'.(clock := es[n].checked);
      TickIs(w, s', es[n].checked - s'.clock);
      PathExtend(Machine(w), s, trace, s', Tick(es[n].checked - s'.clock), waited);
      var before := trace + [Tick(es[n].checked - s'.clock)];
      var t;
      t, s' := WriteSection(w, waited, callers[n], es[n], instants[n]);
      PathJoin(Machine(w), s, before, waited, t, s');
      trace := before + t;
    }
  }

  /**
   A whole GetAllRates on the machine: the caller checks under the read lock, and on a miss the
   rivals' sections and then its own run under the write lock.  The machine hands the
   caller the rates GetAllRates answers, and leaves the cache it leaves.
   */
  lemma WholeCall(w: World, s: Sys, c: nat, rivals: seq<Section>, callers: seq<nat>, instants: seq<int>, e: Section,
      read: int)
    returns (trace: seq<Action>, s': Sys)
    requires s.writer.None? && s.readers == {} && PcOf(s, c).Idle?
    requires InTurn(w, s.clock, rivals + [e], callers + [c], instants + [read])
    requires forall k :: 0 <= k < |callers| ==> PcOf(s, callers[k]).Missed?
    ensures Path(Machine(w), s, trace, s')
    ensures
      var cache := CacheValue(s.cacheRates, s.cacheAt);
      && CacheValue(s'.cacheRates, s'.cacheAt) == CacheAfter(cache, w.ttl, w.hasClient, s.clock, rivals, e)
      && var a := AllRatesOf(cache, w.ttl, w.hasClient, s.clock, rivals, e);
         var pc := PcOf(s', c);
         if a.Error? then pc == GaveUp
         else pc.Got? && pc.rates == a.value && (a.source == FromCache <==> pc.basis.Cached?)
  {
    hide Path, Refreshed, Answered, Step, InTurn;
    trace, s' := ReadSection(w, s, c);
    if PcOf(s', c).Missed? {
      var es, mid, first := rivals + [e], s', trace;
      assert es[..|es| - 1] == rivals && es[|es| - 1] == e;
      forall k | 0 <= k < |callers| + 1 ensures PcOf(mid, (callers + [c])[k]).Missed? {
        assert k < |callers| ==> (callers + [c])[k] == callers[k];
      }
      SameLength(w, s.clock, es, callers + [c], instants + [read]);
      var t;
      t, s' := WriteSections(w, mid, es, callers + [c], instants + [read]);
      PathJoin(Machine(w), s, first, mid, t, s');
      trace := first + t;
    }
  }

  lemma InTurnBefore(w: World, start: int, es: seq<Section>, callers: seq<nat>, instants: seq<int>)
    requires InTurn(w, start, es, callers, instants) && es != []
    ensures
      var n := |es| - 1;
      && InTurn(w, start, es[..n], callers[..n], instants[..n]) && RepliesFrom(w, es[n], instants[n])
      && Since(start, es[..n]) <= es[n].checked <= EndOf(es[n]) && callers[n] !in callers[..n]
  {
    hide RepliesFrom, Since, EndOf;
    var n := |es| - 1;
    forall k | 0 <= k < n ensures Since(start, es[..n][..k]) <= es[k].checked {
      assert es[..n][..k] == es[..k];
    }
  }

  lemma SameLength(w: World, start: int, es: seq<Section>, callers: seq<nat>, instants: seq<int>)
    requires InTurn(w, start, es, callers, instants)
    ensures |es| == |callers| == |instants|
  {
  }

  /** The reply of the single-pair call; an unknown pair is an error of the call. */
  datatype PairReply = PairFailed | PairRate(rate: real)

  /** What GetRateWithSource answers: the map's rate, of any sign, else a positive one from the single-pair call. */
  function RateOf(c: CacheValue, ttl: int, hasClient: bool, now: int, rivals: seq<Section>, e: Section, from: string,
      to: string, pair: (string, string) -> PairReply): Result<real>
  {
    match AllRatesOf(c, ttl, hasClient, now, rivals, e)
    case Error => Error
    case Found(all, source) =>
      var found := Lookup(all, from, to);
      if found.Some? then Found(found.value, source)
      else if hasClient && pair(from, to).PairRate? && pair(from, to).rate > 0.0 then
        Found(pair(from, to).rate, FromGrpc)
      else Error
  }

  class ExchangerClient {
    const ttl: int
    const hasClient: bool
    var cacheRates: RateMap
    var cacheAt: Option<int>

    constructor (ttl: int, hasClient: bool)
      ensures this.ttl == ttl && this.hasClient == hasClient && fresh(cacheRates)
        && Contents() == CacheValue(map[], None)
    {
      this.ttl, this.hasClient, cacheAt := ttl, hasClient, None;
      cacheRates := new RateMap(map[]);
    }

    function Contents(): CacheValue
      reads this, cacheRates
    {
      CacheValue(cacheRates.m, cacheAt)
    }

    /** The read-locked section: a copy if the cache is fresh. */
    method CheckUnderReadLock(now: int) returns (out: RateMap?)
      ensures out != null <==> Fresh(cacheAt, now, ttl)
      ensures out != null ==> fresh(out) && out.m == cacheRates.m
    {
      out := null;
      if cacheAt.Some? && now - cacheAt.value < ttl {
        out := cacheRates.Copy();
      }
    }

    /** The write-locked section: check again, fetch, store, and hand out a copy. */
    method RefreshUnderWriteLock(e: Section) returns (r: Result<RateMap>)
      modifies this
      ensures Contents() == Refreshed(old(Contents()), ttl, hasClient, e)
      ensures cacheRates == old(cacheRates) || fresh(cacheRates)
      ensures r.Error? <==> Answered(old(Contents()), ttl, hasClient, e).Error?
      ensures r.Found? ==> fresh(r.value) && r.value != cacheRates
      ensures r.Found? ==> Answered(old(Contents()), ttl, hasClient, e) == Found(r.value.m, r.source)
    {
      if cacheAt.Some? && e.checked - cacheAt.value < ttl {
        var out := cacheRates.Copy();
        return Found(out, FromCache);
      }
      if !hasClient {
        var out := new RateMap(map[]);
        return Found(out, FromGrpc);
      }
      if e.reply.AllFailed? {
        return Error;
      }
      var received := if e.reply.rates.Some? then e.reply.rates.value else map[];
      cacheRates := new RateMap(received);
      cacheAt := Some(e.stored);
      var out := cacheRates.Copy();
      r := Found(out, FromGrpc);
    }

    /** rivals are the write-locked sections of other callers that run between this call's two checks. */
    method GetAllRates(now: int, rivals: seq<Section>, e: Section) returns (r: Result<RateMap>)
      modifies this
      ensures cacheRates == old(cacheRates) || fresh(cacheRates)
      ensures r.Found? ==> fresh(r.value) && r.value != cacheRates
      ensures Contents() == CacheAfter(old(Contents()), ttl, hasClient, now, rivals, e)
      ensures match AllRatesOf(old(Contents()), ttl, hasClient, now, rivals, e)
        case Error => r.Error?
        case Found(m, src) => r.Found? && r.value.m == m && r.source == src
      // A hit: the cached map, and nothing changes.
      ensures old(cacheAt.Some? && now - cacheAt.value < ttl) ==>
        r.Found? && r.value.m == old(cacheRates.m) && r.source == FromCache && Contents() == old(Contents())
      // A miss that is alone asks the exchanger.
      ensures old(cacheAt.None? || (now - cacheAt.value >= ttl && e.checked - cacheAt.value >= ttl)) && rivals == [] ==>
        if !hasClient then
          r.Found? && r.value.m == map[] && r.source == FromGrpc && Contents() == old(Contents())
        else if e.reply.AllFailed? then r.Error? && Contents() == old(Contents())
        else
          var received := if e.reply.rates.Some? then e.reply.rates.value else map[];
          && r.Found? && r.value.m == received && r.source == FromGrpc
          && Contents() == CacheValue(received, Some(e.stored))
    {
      var out := CheckUnderReadLock(now);
      if out != null {
        return Found(out, FromCache);
      }
      for k := 0 to |rivals|
        invariant Contents() == RefreshedByAll(old(Contents()), ttl, hasClient, rivals[..k])
        invariant cacheRates == old(cacheRates) || fresh(cacheRates)
      {
        assert rivals[..k + 1][..k] == rivals[..k];
        var theirs := RefreshUnderWriteLock(rivals[k]);
      }
      assert rivals[..|rivals|] == rivals;
      r := RefreshUnderWriteLock(e);
    }

    /** A returned map belongs to the caller: whatever is written into it, the cache stays as the call left it. */
    method ScribbleOnReturnedMap(now: int, rivals: seq<Section>, e: Section, scribble: map<string, real>)
      modifies this
      ensures Contents() == CacheAfter(old(Contents()), ttl, hasClient, now, rivals, e)
    {
      var r := GetAllRates(now, rivals, e);
      if r.Found? {
        r.value.m := scribble;
      }
    }

    /**
     One rate: from the map if it is there, whatever its value; else from a single-pair call that
     must answer a positive rate.
     */
    method GetRateWithSource(from: string, to: string, now: int, rivals: seq<Section>, e: Section,
        pair: (string, string) -> PairReply)
      returns (r: Result<real>)
      modifies this
      ensures Contents() == CacheAfter(old(Contents()), ttl, hasClient, now, rivals, e)
      ensures r == RateOf(old(Contents()), ttl, hasClient, now, rivals, e, from, to, pair)
      ensures
        var all := AllRatesOf(old(Contents()), ttl, hasClient, now, rivals, e);
        if all.Error? then r == Error
        else if from + "_" + to in all.value then r == Found(all.value[from + "_" + to], all.source)
        else if hasClient && pair(from, to).PairRate? && pair(from, to).rate > 0.0 then
          r == Found(pair(from, to).rate, FromGrpc)
        else r == Error
      // On a hit the cached rate of the pair is the answer; without one the single-pair call for it decides.
      ensures old(cacheAt.Some? && now - cacheAt.value < ttl) ==>
        if from + "_" + to in old(cacheRates.m) then r == Found(old(cacheRates.m)[from + "_" + to], FromCache)
        else if hasClient && pair(from, to).PairRate? && pair(from, to).rate > 0.0 then
          r == Found(pair(from, to).rate, FromGrpc)
        else r == Error
    {
      var all := GetAllRates(now, rivals, e);
      if all.Error? {
        return Error;
      }
      var key := KeyOf(from, to);
      if key in all.value.m {
        return Found(all.value.m[key], all.source);
      }
      if !hasClient {
        return Error;
      }
      var reply := pair(from, to);
      if reply.PairFailed? || reply.rate <= 0.0 {
        return Error;
      }
      r := Found(reply.rate, FromGrpc);
    }
  }
}
