/** Small vocabulary shared by the models. */
module Common {

  datatype Option<+T> = None | Some(value: T)

  /** The outcome of a request to an external store. */
  datatype IO = Ok | Failed | FailedButApplied

  /** The sequence without its i-th element. */
  function RemoveAt<T>(s: seq<T>, i: nat): (r: seq<T>)
    requires i < |s|
    ensures |r| == |s| - 1
    ensures forall k {:trigger r[k]} :: 0 <= k < |r| ==> r[k] == if k < i then s[k] else s[k + 1]
    ensures forall x :: x in r ==> x in s
    ensures forall k {:trigger s[k]} :: 0 <= k < |s| && k != i ==> s[k] in r
  {
    assert forall k {:trigger s[k]} :: 0 <= k < |s| && k != i ==>
      s[k] == (s[..i] + s[i + 1..])[if k < i then k else k - 1];
    s[..i] + s[i + 1..]
  }

  lemma SplitAt<T>(s: seq<T>, i: nat)
    requires i < |s|
    ensures s == s[..i] + [s[i]] + s[i + 1..]
  {
  }

  /** All but the last element, and the last, of a concatenation. */
  lemma InitLast<T>(a: seq<T>, b: seq<T>)
    requires b != []
    ensures (a + b)[..|a + b| - 1] == a + b[..|b| - 1] && (a + b)[|a + b| - 1] == b[|b| - 1]
  {
  }

  lemma Associate<T>(a: seq<T>, b: seq<T>, c: seq<T>)
    ensures a + (b + c) == a + b + c
  {
  }
}
