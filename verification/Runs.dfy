/** Traces of a machine given by its step function, and how they are put together. */
module Runs {

  function Steps<S, A>(step: (S, A) -> S, s: S, acts: seq<A>): S {
    if acts == [] then s else step(Steps(step, s, acts[..|acts| - 1]), acts[|acts| - 1])
  }

  /** The trace takes the machine from one state to the other. */
  ghost predicate Path<S, A>(step: (S, A) -> S, from: S, trace: seq<A>, to: S) {
    to == Steps(step, from, trace)
  }

  lemma PathStart<S, A>(step: (S, A) -> S, s: S)
    ensures Path(step, s, [], s)
  {
  }

  lemma PathExtend<S, A>(step: (S, A) -> S, from: S, trace: seq<A>, mid: S, a: A, to: S)
    requires Path(step, from, trace, mid) && to == step(mid, a)
    ensures Path(step, from, trace + [a], to)
  {
    assert (trace + [a])[..|trace|] == trace;
  }

  lemma {:induction false} PathJoin<S, A>(step: (S, A) -> S, from: S, t1: seq<A>, mid: S, t2: seq<A>, to: S)
    requires Path(step, from, t1, mid) && Path(step, mid, t2, to)
    ensures Path(step, from, t1 + t2, to)
    decreases |t2|
  {
    if t2 == [] {
      assert t1 + t2 == t1;
    } else {
      assert (t1 + t2)[..|t1 + t2| - 1] == t1 + t2[..|t2| - 1];
      PathJoin(step, from, t1, mid, t2[..|t2| - 1], Steps(step, mid, t2[..|t2| - 1]));
    }
  }

  /** What every step keeps, every trace keeps. */
  lemma {:induction false} PathKeeps<S(!new), A(!new)>(step: (S, A) -> S, inv: S -> bool, from: S, trace: seq<A>, to: S)
    requires forall s, a :: inv(s) ==> inv(step(s, a))
    requires Path(step, from, trace, to) && inv(from)
    ensures inv(to)
    decreases |trace|
  {
    if trace != [] {
      PathKeeps(step, inv, from, trace[..|trace| - 1], Steps(step, from, trace[..|trace| - 1]));
    }
  }
}
