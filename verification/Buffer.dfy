/**
 The aggregator's message buffer: a slice over a reused backing array.  Appending
 writes in place while there is room; clearing keeps the array; putting a batch back
 either builds a new array or, when the buffer is empty, adopts the batch's own array.
 */
module Buffer {

  class Buffer<T(0)> {
    var data: array<T>
    var len: nat
    var signalled: bool
    const maxSize: nat

    ghost predicate Valid()
      reads this
    {
      len <= data.Length
    }

    /** What the slice holds. */
    ghost function Contents(): (s: seq<T>)
      requires Valid()
      reads this, data
      ensures |s| == len
    {
      data[..len]
    }

    constructor (maxSize: nat)
      ensures Valid() && fresh(data) && Contents() == [] && !signalled && this.maxSize == maxSize
    {
      data := new T[maxSize];
      len := 0;
      signalled := false;
      this.maxSize := maxSize;
    }

    /** spare is how much room a growing slice is given beyond what it needs. */
    method Add(msg: T, spare: nat) returns (shouldFlush: bool)
      requires Valid()
      modifies this`data, this`len, this`signalled, data
      ensures Valid() && (data == old(data) || fresh(data))
      ensures Contents() == old(Contents()) + [msg]
      ensures shouldFlush <==> |Contents()| >= maxSize
      ensures signalled == (old(signalled) || shouldFlush)
    {
      if len == data.Length {
        var grown := new T[len + 1 + spare];
        forall i | 0 <= i < len { grown[i] := data[i]; }
        data := grown;
      }
      data[len] := msg;
      len := len + 1;
      shouldFlush := len >= maxSize;
      if shouldFlush { signalled := true; }
    }

    /** Hands out a copy of everything and empties the slice, keeping its array. */
    method GetAndClear() returns (result: array?<T>)
      requires Valid()
      modifies this`len
      ensures Valid() && Contents() == []
      ensures old(Contents()) == [] <==> result == null
      ensures result != null ==> fresh(result) && result[..] == old(Contents())
    {
      if len == 0 {
        return null;
      }
      result := new T[len];
      forall i | 0 <= i < len { result[i] := data[i]; }
      len := 0;
    }

    /** Prepends a failed batch; nothing is written into any existing array. */
    method PutBack(messages: array?<T>, spare: nat)
      requires Valid()
      modifies this`data, this`len
      ensures Valid() && (data == old(data) || data == messages || fresh(data))
      ensures Contents() == (if messages == null then [] else messages[..]) + old(Contents())
      ensures messages != null && messages.Length > 0 && old(Contents()) == [] ==> data == messages
    {
      if messages == null || messages.Length == 0 {
        return;
      }
      if len == 0 {
        data := messages;
        len := messages.Length;
      } else {
        var n := messages.Length;
        var joined := new T[n + len + spare];
        forall i | 0 <= i < n { joined[i] := messages[i]; }
        forall i | 0 <= i < len { joined[n + i] := data[i]; }
        data := joined;
        len := n + len;
      }
    }
  }

  /**
   A batch handed to a flush is never overwritten by later Adds, although they reuse
   the array the batch was copied from.
   */
  method BatchSurvivesAdds<T(0)>(b: Buffer<T>, arriving: seq<T>, spare: nat) returns (batch: array?<T>)
    requires b.Valid()
    modifies b, b.data
    ensures b.Valid() && b.Contents() == arriving
    ensures old(b.Contents()) == [] <==> batch == null
    ensures batch != null ==> batch[..] == old(b.Contents())
  {
    batch := b.GetAndClear();
    var k := 0;
    while k < |arriving|
      invariant 0 <= k <= |arriving|
      invariant b.Valid() && b.Contents() == arriving[..k]
      invariant b.data == old(b.data) || fresh(b.data)
      invariant batch != null ==> fresh(batch) && batch != b.data && batch[..] == old(b.Contents())
    {
      var _ := b.Add(arriving[k], spare);
      k := k + 1;
    }
  }
}

/** The order in which messages leave the buffer, over any sequence of arrivals, flushes and failures. */
module BufferOrder {
  import opened Common

  datatype Queue<T> = Queue(arrived: seq<T>, done: seq<T>, flights: seq<seq<T>>, buffer: seq<T>)

  /** Add, GetAndClear by a flusher, PutBack after a failed insert, and the end of a successful one. */
  datatype Move<T> = Arrive(msg: T) | Take | Fail(i: nat) | Finish(i: nat)

  function Step<T>(q: Queue<T>, m: Move<T>): Queue<T> {
    match m
    case Arrive(msg) => q.(arrived := q.arrived + [msg], buffer := q.buffer + [msg])
    case Take => if q.buffer == [] then q else q.(flights := q.flights + [q.buffer], buffer := [])
    case Fail(i) => if i < |q.flights| then q.(flights := RemoveAt(q.flights, i), buffer := q.flights[i] + q.buffer)
      else q
    case Finish(i) => if i < |q.flights| then q.(flights := RemoveAt(q.flights, i), done := q.done + q.flights[i])
      else q
  }

  function Exec<T>(moves: seq<Move<T>>): Queue<T> {
    if moves == [] then Queue([], [], [], []) else Step(Exec(moves[..|moves| - 1]), moves[|moves| - 1])
  }

  function Flat<T>(flights: seq<seq<T>>): seq<T> {
    if flights == [] then [] else Flat(flights[..|flights| - 1]) + flights[|flights| - 1]
  }

  /** A batch is taken only when none is out. */
  ghost predicate TakesAlone<T>(moves: seq<Move<T>>) {
    forall n: nat {:trigger moves[n]} :: n < |moves| && moves[n].Take? ==> Exec(moves[..n]).flights == []
  }

  /** With one flusher messages leave in arrival order, whatever fails and is put back. */
  lemma {:induction false} OneFlusherKeepsOrder<T>(moves: seq<Move<T>>)
    requires TakesAlone(moves)
    ensures |Exec(moves).flights| <= 1
    ensures Exec(moves).arrived == Exec(moves).done + Flat(Exec(moves).flights) + Exec(moves).buffer
  {
    if moves != [] {
      var m := |moves| - 1;
      var before := moves[..m];
      forall n: nat | n < m && before[n].Take? ensures Exec(before[..n]).flights == [] {
        assert before[n] == moves[n] && before[..n] == moves[..n];
      }
      OneFlusherKeepsOrder(before);
      assert moves[m].Take? ==> Exec(before).flights == [];
      OrderStep(Exec(before), moves[m]);
    }
  }

  lemma OrderStep<T>(q: Queue<T>, m: Move<T>)
    requires |q.flights| <= 1 && q.arrived == q.done + Flat(q.flights) + q.buffer
    requires m.Take? ==> q.flights == []
    ensures
      var r := Step(q, m);
      |r.flights| <= 1 && r.arrived == r.done + Flat(r.flights) + r.buffer
  {
    hide Flat;
    FlatNone<T>();
    match m
    case Arrive(msg) =>
      assert q.done + Flat(q.flights) + (q.buffer + [msg]) == q.done + Flat(q.flights) + q.buffer + [msg];
    case Take =>
      FlatOne(q.buffer);
      assert [] + [q.buffer] == [q.buffer];
      assert q.done + [] + q.buffer == q.done + q.buffer + [];
    case Fail(i) =>
      if i < |q.flights| {
        assert q.flights == [q.flights[0]] && RemoveAt(q.flights, i) == [];
        FlatOne(q.flights[0]);
        assert q.done + [] + (q.flights[0] + q.buffer) == q.done + q.flights[0] + q.buffer;
      }
    case Finish(i) =>
      if i < |q.flights| {
        assert q.flights == [q.flights[0]] && RemoveAt(q.flights, i) == [];
        FlatOne(q.flights[0]);
        assert q.done + q.flights[0] + [] + q.buffer == q.done + q.flights[0] + q.buffer;
      }
  }

  lemma FlatNone<T>()
    ensures Flat<T>([]) == []
  {
  }

  lemma FlatOne<T>(f: seq<T>)
    ensures Flat([f]) == f
  {
    assert [f][..0] == [];
  }

  lemma FlatInit<T>(a: seq<seq<T>>, x: seq<T>)
    ensures Flat(a + [x]) == Flat(a) + x
  {
    InitLast(a, [x]);
    assert [x][..0] == [] && a + [] == a;
  }

  lemma {:induction false} FlatConcat<T>(a: seq<seq<T>>, b: seq<seq<T>>)
    ensures Flat(a + b) == Flat(a) + Flat(b)
    decreases |b|
  {
    hide Flat;
    if b == [] {
      assert a + b == a;
      FlatNone<T>();
      assert Flat(a) + [] == Flat(a);
    } else {
      var init, x := b[..|b| - 1], b[|b| - 1];
      FlatConcat(a, init);
      FlatInit(init, x);
      FlatInit(a + init, x);
      Associate(a, init, [x]);
      assert b == init + [x];
      Associate(Flat(a), Flat(init), x);
    }
  }

  lemma FlatSplit<T>(fs: seq<seq<T>>, i: nat)
    requires i < |fs|
    ensures Flat(fs) == Flat(fs[..i]) + fs[i] + Flat(fs[i + 1..])
  {
    hide Flat;
    SplitAt(fs, i);
    FlatConcat(fs[..i] + [fs[i]], fs[i + 1..]);
    FlatInit(fs[..i], fs[i]);
  }

  lemma FlatRemove<T>(fs: seq<seq<T>>, i: nat)
    requires i < |fs|
    ensures multiset(Flat(RemoveAt(fs, i))) + multiset(fs[i]) == multiset(Flat(fs))
  {
    hide Flat;
    FlatSplit(fs, i);
    assert RemoveAt(fs, i) == fs[..i] + fs[i + 1..];
    FlatConcat(fs[..i], fs[i + 1..]);
    Reassemble(Flat(fs[..i]), fs[i], Flat(fs[i + 1..]));
  }

  lemma Reassemble<T>(x: seq<T>, y: seq<T>, z: seq<T>)
    ensures multiset(x + z) + multiset(y) == multiset(x + y + z)
  {
  }

  ghost predicate Conserved<T>(q: Queue<T>) {
    multiset(q.arrived) == multiset(q.done) + multiset(Flat(q.flights)) + multiset(q.buffer)
  }

  lemma ConservedStep<T>(q: Queue<T>, m: Move<T>)
    requires Conserved(q)
    ensures Conserved(Step(q, m))
  {
    hide Flat;
    match m
    case Arrive(msg) =>
    case Take =>
      FlatConcat(q.flights, [q.buffer]);
      FlatOne(q.buffer);
      assert multiset(Flat(q.flights) + q.buffer) == multiset(Flat(q.flights)) + multiset(q.buffer);
    case Fail(i) => if i < |q.flights| { FlatRemove(q.flights, i); }
    case Finish(i) => if i < |q.flights| { FlatRemove(q.flights, i); }
  }

  /** With any number of flushers no message is lost or duplicated in memory. */
  lemma {:induction false} ManyFlushersKeepMessages<T>(moves: seq<Move<T>>)
    ensures Conserved(Exec(moves))
  {
    hide Step;
    if moves == [] {
      FlatNone<T>();
    } else {
      ManyFlushersKeepMessages(moves[..|moves| - 1]);
      ConservedStep(Exec(moves[..|moves| - 1]), moves[|moves| - 1]);
    }
  }

  // ---------------------------------------------------------------- order with many flushers

  lemma {:induction false} ArriveAll<T>(moves: seq<Move<T>>, xs: seq<T>) returns (more: seq<Move<T>>)
    ensures
      var q := Exec(moves);
      Exec(more) == q.(arrived := q.arrived + xs, buffer := q.buffer + xs)
  {
    var q := Exec(moves);
    if xs == [] {
      more := moves;
      assert q.arrived + [] == q.arrived && q.buffer + [] == q.buffer;
    } else {
      var init, x := xs[..|xs| - 1], xs[|xs| - 1];
      more := ArriveAll(moves, init);
      more := OneMove(more, Arrive(x));
      assert xs == init + [x];
      Associate(q.arrived, init, [x]);
      Associate(q.buffer, init, [x]);
    }
  }

  lemma OneMove<T>(moves: seq<Move<T>>, m: Move<T>) returns (more: seq<Move<T>>)
    ensures Exec(more) == Step(Exec(moves), m)
  {
    hide Step;
    more := moves + [m];
    assert more[..|moves|] == moves;
  }

  /** Two batches of which the second finishes first. */
  lemma SecondFinishesFirst<T>(xs: seq<T>, ys: seq<T>) returns (moves: seq<Move<T>>)
    requires xs != [] && ys != []
    ensures Exec(moves).arrived == xs + ys && Exec(moves).done == ys
  {
    hide Exec;
    NothingYet<T>();
    moves := ArriveAll([], xs);
    moves := OneMove(moves, Take);
    moves := ArriveAll(moves, ys);
    moves := OneMove(moves, Take);
    assert [] + xs == xs && [] + ys == ys;
    assert Exec(moves).flights == [xs, ys];
    moves := OneMove(moves, Finish(1));
  }

  lemma NothingYet<T>()
    ensures Exec<T>([]) == Queue([], [], [], [])
  {
  }

  ghost predicate AllSame<T>(xs: seq<T>) {
    forall i, j :: 0 <= i < j < |xs| ==> xs[i] == xs[j]
  }

  lemma SomeOfTheSame<T>(xs: seq<T>, ys: seq<T>)
    requires AllSame(xs) && multiset(ys) <= multiset(xs)
    ensures ys <= xs
  {
    assert |multiset(ys)| <= |multiset(xs)| by {
      assert multiset(xs) == multiset(ys) + (multiset(xs) - multiset(ys));
    }
    forall k | 0 <= k < |ys| ensures ys[k] == xs[k] {
      assert ys[k] in multiset(ys) && ys[k] in multiset(xs) && ys[k] in xs;
      var i :| 0 <= i < |xs| && xs[i] == ys[k];
      assert i < k ==> xs[i] == xs[k];
      assert k < i ==> xs[k] == xs[i];
    }
  }

  /**
   With many flushers, messages finish in the order they arrived over all runs with these arrivals if
   and only if the messages are all the same.
   */
  lemma FinishInOrderExactly<T(!new)>(xs: seq<T>)
    ensures (forall moves: seq<Move<T>> :: Exec(moves).arrived == xs ==> Exec(moves).done <= xs) <==> AllSame(xs)
  {
    hide Exec;
    if AllSame(xs) {
      forall moves: seq<Move<T>> | Exec(moves).arrived == xs ensures Exec(moves).done <= xs {
        ManyFlushersKeepMessages(moves);
        SomeOfTheSame(xs, Exec(moves).done);
      }
    } else {
      var i, j :| 0 <= i < j < |xs| && xs[i] != xs[j];
      var k := if xs[i] != xs[0] then i else j;
      var moves := SecondFinishesFirst(xs[..k], xs[k..]);
      assert xs[..k] + xs[k..] == xs && xs[k..][0] == xs[k] != xs[0];
      assert !(Exec(moves).done <= xs);
    }
  }
}
