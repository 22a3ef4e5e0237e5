/**
 Publishing a large-transaction event: nothing below the threshold; otherwise one event under
 one fresh id, written until a write is acknowledged, with a doubling pause between attempts.
 Every call is proved to take steps of the Notification machine only.
 */
module Publisher {
  import opened Consumption
  import opened Runs
  import N = Notification

  /** One WriteMessages call: how many copies the topic received, and whether that was acknowledged. */
  datatype WriteOutcome = WriteOutcome(acked: bool, copies: nat)
  {
    predicate Sound() {
      acked ==> copies > 0
    }
  }

  /** The outcomes of the attempts, and the attempt before which the context ends while pausing. */
  datatype WriteEnv = WriteEnv(outcomes: seq<WriteOutcome>, cancelAt: nat)
  {
    predicate Sound(retries: nat) {
      |outcomes| == retries && 0 < cancelAt && forall o :: o in outcomes ==> o.Sound()
    }
  }

  function Repeat(e: Entry, n: nat): (s: seq<Entry>)
    ensures |s| == n && forall x :: x in s ==> x == e
  {
    if n == 0 then [] else Repeat(e, n - 1) + [e]
  }

  function Pow2(n: nat): (r: nat)
    ensures r >= 1
  {
    if n == 0 then 1 else 2 * Pow2(n - 1)
  }

  /** Multiplication under a name, so that sums of products can be taken without expanding them. */
  function Times(x: nat, y: nat): nat {
    x * y
  }

  /** The pauses before the second, third, ... attempt. */
  function Pauses(base: nat, n: nat): (p: seq<nat>)
    ensures |p| == n && forall i :: 0 <= i < n ==> p[i] == Times(base, Pow2(i))
  {
    if n == 0 then [] else Pauses(base, n - 1) + [Times(base, Pow2(n - 1))]
  }

  function Sum(p: seq<nat>): nat {
    if p == [] then 0 else Sum(p[..|p| - 1]) + p[|p| - 1]
  }

  /** A call that makes n pauses has paused for base * (2^n - 1) in all. */
  lemma {:induction false} TotalPause(base: nat, n: nat)
    ensures Sum(Pauses(base, n)) == Times(base, Pow2(n) - 1)
  {
    hide Times, Pow2, Sum;
    Powers(n);
    if n == 0 {
      NoPause(base);
    } else {
      TotalPause(base, n - 1);
      SumMore(Pauses(base, n - 1), Times(base, Pow2(n - 1)));
      OneMorePause(base, Pow2(n - 1));
    }
  }

  lemma SumMore(p: seq<nat>, x: nat)
    ensures Sum(p + [x]) == Sum(p) + x
  {
    assert (p + [x])[..|p|] == p;
  }

  lemma Powers(n: nat)
    ensures Pow2(n) >= 1 && Pow2(0) == 1 && (n > 0 ==> Pow2(n) == 2 * Pow2(n - 1))
  {
    if n > 0 { Powers(n - 1); }
  }

  lemma NoPause(base: nat)
    ensures Sum([]) == 0 == Times(base, 0)
  {
  }

  lemma OneMorePause(base: nat, p: nat)
    requires p >= 1
    ensures Times(base, p - 1) + Times(base, p) == Times(base, 2 * p - 1)
  {
  }

  /** How many attempts are made: up to the first acknowledged one, the end of the context, or the configured number. */
  predicate StopsAfter(env: WriteEnv, retries: nat, n: nat)
    requires env.Sound(retries)
  {
    && 1 <= n <= retries && n <= env.cancelAt
    && (forall k :: 0 <= k < n - 1 ==> !env.outcomes[k].acked)
    && (env.outcomes[n - 1].acked || n == env.cancelAt || n == retries)
  }

  /** How many copies the first n attempts left in the topic. */
  function CopiesOf(outcomes: seq<WriteOutcome>, n: nat): nat
    requires n <= |outcomes|
  {
    if n == 0 then 0 else CopiesOf(outcomes, n - 1) + outcomes[n - 1].copies
  }

  /** Every attempt counts: the copies of two stretches of attempts add up, and one attempt leaves its own. */
  lemma {:induction false} CopiesAdd(first: seq<WriteOutcome>, rest: seq<WriteOutcome>)
    ensures CopiesOf(first + rest, |first + rest|) == CopiesOf(first, |first|) + CopiesOf(rest, |rest|)
    ensures forall o :: CopiesOf([o], 1) == o.copies
    decreases |rest|
  {
    SamePrefix(first + rest, first, |first|);
    if rest == [] {
      assert first + rest == first;
    } else {
      var init := rest[..|rest| - 1];
      CopiesAdd(first, init);
      SamePrefix(first + rest, first + init, |first + init|);
      SamePrefix(rest, init, |init|);
    }
  }

  lemma {:induction false} SamePrefix(a: seq<WriteOutcome>, b: seq<WriteOutcome>, n: nat)
    requires n <= |a| && n <= |b| && a[..n] == b[..n]
    ensures CopiesOf(a, n) == CopiesOf(b, n)
  {
    if n > 0 {
      assert a[..n - 1] == a[..n][..n - 1] && b[..n - 1] == b[..n][..n - 1];
      assert a[n - 1] == a[..n][n - 1] && b[n - 1] == b[..n][n - 1];
      SamePrefix(a, b, n - 1);
    }
  }

  // ---------------------------------------------------------------- the machine's view

  /** The end-to-end machine as a step function. */
  function Machine(w: N.World): (N.Sys, N.Action) -> N.Sys {
    (s, a) => N.Step(w, s, a)
  }

  /** n copies of a written event arrive. */
  lemma {:induction false} ArriveCopies(w: N.World, from: N.Sys, trace: seq<N.Action>, mid: N.Sys, c: nat, n: nat)
    returns (longer: seq<N.Action>)
    requires Path(Machine(w), from, trace, mid) && c < |mid.progress| && N.Written(mid.progress[c])
    ensures Path(Machine(w), from, longer, mid.(log := mid.log + Repeat(Message(mid.progress[c].event), n)))
  {
    hide Path;
    longer := trace;
    if n == 0 {
      assert mid.log + Repeat(Message(mid.progress[c].event), 0) == mid.log;
    } else {
      var e := Message(mid.progress[c].event);
      longer := ArriveCopies(w, from, trace, mid, c, n - 1);
      var before := mid.(log := mid.log + Repeat(e, n - 1));
      assert mid.log + Repeat(e, n) == before.log + [e];
      PathExtend(Machine(w), from, longer, before, N.Arrive(c), mid.(log := mid.log + Repeat(e, n)));
      longer := longer + [N.Arrive(c)];
    }
  }

  /** The topic the events go to. */
  class Topic {
    var entries: seq<Entry>

    constructor ()
      ensures entries == []
    {
      entries := [];
    }

    method WriteMessages(e: Entry, outcome: WriteOutcome) returns (ok: bool)
      modifies this
      ensures entries == old(entries) + Repeat(e, outcome.copies) && ok == outcome.acked
    {
      var i := 0;
      assert entries == entries + Repeat(e, 0);
      while i < outcome.copies
        invariant 0 <= i <= outcome.copies && entries == old(entries) + Repeat(e, i)
      {
        entries := entries + [e];
        i := i + 1;
        assert old(entries) + Repeat(e, i) == old(entries) + Repeat(e, i - 1) + [e];
      }
      ok := outcome.acked;
    }
  }

  class Publisher {
    const threshold: real
    const retries: nat
    const backoffMs: nat
    const topic: Topic

    /** Missing or non-positive settings fall back to three attempts and 200 ms. */
    constructor (topic: Topic, threshold: real, retries: int, backoffMs: int)
      ensures this.topic == topic && this.threshold == threshold
      ensures this.retries >= 1 && (retries > 0 ==> this.retries == retries) && (retries <= 0 ==> this.retries == 3)
      ensures this.backoffMs >= 1 && (backoffMs > 0 ==> this.backoffMs == backoffMs)
        && (backoffMs <= 0 ==> this.backoffMs == 200)
    {
      this.topic, this.threshold := topic, threshold;
      this.retries := if retries <= 0 then 3 else retries;
      this.backoffMs := if backoffMs <= 0 then 200 else backoffMs;
    }

    /** This publisher is the one of the machine. */
    predicate Serves(w: N.World) {
      threshold == w.threshold && retries == w.retries && retries >= 1
    }

    /** The pause before an attempt after the first: doubled once for every attempt already repeated. */
    method Backoff(attempt: nat) returns (backoff: nat)
      requires attempt >= 1
      ensures backoff == Times(backoffMs, Pow2(attempt - 1))
    {
      backoff := backoffMs;
      var i := 1;
      while i < attempt
        invariant 1 <= i <= attempt && backoff == Times(backoffMs, Pow2(i - 1))
      {
        backoff := backoff * 2;
        i := i + 1;
      }
    }

    /**
     One call.  s is the machine before it, in which call c has just finished its ledger
     operation; s' is the machine after it.  id is the identifier drawn for the call.
     */
    method Publish(user: int, kind: string, currency: string, amount: real, id: string, createdAt: string,
        env: WriteEnv, ghost w: N.World, ghost s: N.Sys, ghost c: nat)
      returns (published: bool, attempts: nat, pauses: seq<nat>, ghost trace: seq<N.Action>, ghost s': N.Sys)
      requires Serves(w) && env.Sound(retries) && w.ids(c) == id
      requires s.log == topic.entries && c < |s.calls| == |s.progress|
      requires s.calls[c] == N.Call(user, kind, currency, amount) && s.progress[c] == N.Applied
      modifies topic
      ensures Path(Machine(w), s, trace, s') && s'.log == topic.entries && s'.calls == s.calls
        && s'.consumer == s.consumer
      ensures amount < threshold ==>
        && !published && attempts == 0 && pauses == [] && topic.entries == old(topic.entries)
        && s'.progress == s.progress[c := N.Quiet]
      ensures amount >= threshold ==>
        var ev := Event(id, user, kind, amount, currency, createdAt);
        && StopsAfter(env, retries, attempts)
        && (published <==> exists k :: 0 <= k < retries && k < env.cancelAt && env.outcomes[k].acked)
        && (if published then
          env.outcomes[attempts - 1].acked && forall k :: 0 <= k < attempts - 1 ==> !env.outcomes[k].acked
        else
          attempts == if env.cancelAt < retries then env.cancelAt else retries)
        && topic.entries == old(topic.entries) + Repeat(Message(ev), CopiesOf(env.outcomes, attempts))
        && pauses == Pauses(backoffMs, if published || attempts == retries then attempts - 1 else attempts)
        && s'.progress == s.progress[c := N.Ended(ev, attempts, published)]
    {
      hide Path, N.Step;
      published, attempts, pauses, trace, s' := false, 0, [], [], s;
      PathStart(Machine(w), s);
      StartStep(w, s, c, createdAt);
      trace := trace + [N.StartPublish(c, createdAt)];
      if amount < threshold {
        s' := s.(progress := s.progress[c := N.Quiet]);
        PathExtend(Machine(w), s, [], s, N.StartPublish(c, createdAt), s');
        return;
      }
      var ev := Event(id, user, kind, amount, currency, createdAt);
      s' := s.(progress := s.progress[c := N.Publishing(ev, 0)]);
      PathExtend(Machine(w), s, [], s, N.StartPublish(c, createdAt), s');
      published, attempts, pauses, trace, s' := WriteWithRetry(ev, env, w, s, trace, s', c);
    }

    /** The attempt loop: start is the machine before the call, s the machine once the event has been made. */
    method WriteWithRetry(ev: Event, env: WriteEnv, ghost w: N.World, ghost start: N.Sys, ghost before: seq<N.Action>,
        ghost s: N.Sys, ghost c: nat)
      returns (published: bool, attempts: nat, pauses: seq<nat>, ghost trace: seq<N.Action>, ghost s': N.Sys)
      requires Serves(w) && env.Sound(retries) && Path(Machine(w), start, before, s)
      requires s.log == topic.entries && c < |s.progress| && s.progress[c] == N.Publishing(ev, 0)
      modifies topic
      ensures Path(Machine(w), start, trace, s')
      ensures s' == s.(log := topic.entries, progress := s.progress[c := N.Ended(ev, attempts, published)])
      ensures StopsAfter(env, retries, attempts)
      ensures published <==> exists k :: 0 <= k < retries && k < env.cancelAt && env.outcomes[k].acked
      ensures published ==>
        env.outcomes[attempts - 1].acked && forall k :: 0 <= k < attempts - 1 ==> !env.outcomes[k].acked
      ensures !published ==> attempts == if env.cancelAt < retries then env.cancelAt else retries
      ensures topic.entries == old(topic.entries) + Repeat(Message(ev), CopiesOf(env.outcomes, attempts))
      ensures pauses == Pauses(backoffMs, if published || attempts == retries then attempts - 1 else attempts)
    {
      hide Path, N.Step, Repeat, Pow2, Times;
      published, attempts, pauses, trace, s' := false, 0, [], before, s;
      RepeatNone(topic.entries, Message(ev));
      assert s.progress[c := N.Publishing(ev, 0)] == s.progress;
      while attempts < retries
        invariant 0 <= attempts <= retries && attempts <= env.cancelAt && !published
        invariant topic.entries == old(topic.entries) + Repeat(Message(ev), CopiesOf(env.outcomes, attempts))
        invariant pauses == Pauses(backoffMs, if attempts == 0 then 0 else attempts - 1)
        invariant s' == s.(log := topic.entries, progress := s.progress[c := N.Publishing(ev, attempts)])
        invariant Path(Machine(w), start, trace, s')
        invariant forall k :: 0 <= k < attempts ==> !env.outcomes[k].acked
      {
        if attempts > 0 {
          var backoff := Backoff(attempts);
          pauses := pauses + [backoff];
          if attempts == env.cancelAt {
            break;
          }
        }
        ghost var mid := s';
        ghost var copies := env.outcomes[attempts].copies;
        published := topic.WriteMessages(Message(ev), env.outcomes[attempts]);
        s', trace := OneWrite(w, start, trace, mid, c, copies);
        RepeatMore(old(topic.entries), Message(ev), CopiesOf(env.outcomes, attempts), copies);
        assert s'.progress == s.progress[c := N.Publishing(ev, attempts + 1)];
        attempts := attempts + 1;
        if published {
          assert env.outcomes[attempts - 1] in env.outcomes;
          LastIsThere(mid.log, Message(ev), copies);
          break;
        }
      }
      ghost var last := s';
      s' := last.(progress := last.progress[c := N.Ended(ev, attempts, published)]);
      assert s'.progress == s.progress[c := N.Ended(ev, attempts, published)];
      EndStep(w, last, c, ev, attempts, published);
      PathExtend(Machine(w), start, trace, last, if published then N.Ack(c) else N.Abandon(c), s');
      trace := trace + [if published then N.Ack(c) else N.Abandon(c)];
    }
  }

  lemma RepeatNone(s: seq<Entry>, e: Entry)
    ensures s == s + Repeat(e, 0)
  {
  }

  lemma LastIsThere(s: seq<Entry>, e: Entry, n: nat)
    requires n > 0
    ensures e in s + Repeat(e, n)
  {
    var r := Repeat(e, n);
    assert r[n - 1] in r && (s + r)[|s| + n - 1] == r[n - 1];
  }

  lemma StartStep(w: N.World, s: N.Sys, c: nat, createdAt: string)
    requires c < |s.calls| == |s.progress| && s.progress[c] == N.Applied
    ensures
      N.Step(w, s, N.StartPublish(c, createdAt)) == s.(progress := s.progress[c :=
        if s.calls[c].amount < w.threshold then N.Quiet else N.Publishing(N.EventOf(w, c, s.calls[c], createdAt), 0)])
  {
  }

  lemma EndStep(w: N.World, s: N.Sys, c: nat, e: Event, attempts: nat, acked: bool)
    requires c < |s.progress| && s.progress[c] == N.Publishing(e, attempts)
    requires acked ==> attempts > 0 && Message(e) in s.log
    ensures N.Step(w, s, if acked then N.Ack(c) else N.Abandon(c))
      == s.(progress := s.progress[c := N.Ended(e, attempts, acked)])
  {
  }

  lemma RepeatMore(s: seq<Entry>, e: Entry, n: nat, m: nat)
    ensures s + Repeat(e, n) + Repeat(e, m) == s + Repeat(e, n + m)
  {
    forall k | 0 <= k < n + m ensures (Repeat(e, n) + Repeat(e, m))[k] == Repeat(e, n + m)[k] {
      var x, y, z := Repeat(e, n), Repeat(e, m), Repeat(e, n + m);
      assert z[k] in z && (if k < n then x[k] in x else y[k - n] in y);
    }
    assert Repeat(e, n) + Repeat(e, m) == Repeat(e, n + m);
  }

  /** One write: begun, and its copies arrived. */
  lemma OneWrite(w: N.World, from: N.Sys, trace: seq<N.Action>, mid: N.Sys, c: nat, copies: nat)
    returns (s': N.Sys, longer: seq<N.Action>)
    requires Path(Machine(w), from, trace, mid) && c < |mid.progress| && mid.progress[c].Publishing?
      && mid.progress[c].attempts < w.retries
    ensures
      var p := mid.progress[c];
      s' == mid.(log := mid.log + Repeat(Message(p.event), copies),
        progress := mid.progress[c := N.Publishing(p.event, p.attempts + 1)])
    ensures Path(Machine(w), from, longer, s')
  {
    hide Path;
    var p := mid.progress[c];
    var begun := mid.(progress := mid.progress[c := N.Publishing(p.event, p.attempts + 1)]);
    PathExtend(Machine(w), from, trace, mid, N.Write(c), begun);
    longer := ArriveCopies(w, from, trace + [N.Write(c)], begun, c, copies);
    s' := begun.(log := begun.log + Repeat(Message(p.event), copies));
  }
}
