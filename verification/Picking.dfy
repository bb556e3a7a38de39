/** What a comprehension with a condition picks from a list. */
module Picking {
  import opened Common

  ghost predicate Ascending(at: seq<int>) {
    forall k, m :: 0 <= k < m < |at| ==> at[k] < at[m]
  }

  /** The positions `at` are exactly those at which `f` has a value. */
  ghost predicate PositionsOf<T, U>(xs: seq<T>, f: T -> Option<U>, at: seq<int>) {
    && Ascending(at)
    && (forall k :: 0 <= k < |at| ==> 0 <= at[k] < |xs|)
    && forall i :: 0 <= i < |xs| ==> (f(xs[i]).Some? <==> i in at)
  }

  /** `ys` are the values at the positions `at`. */
  ghost predicate ValuesAt<T, U>(xs: seq<T>, f: T -> Option<U>, ys: seq<U>, at: seq<int>) {
    |ys| == |at| && forall k :: 0 <= k < |at| ==> 0 <= at[k] < |xs| && f(xs[at[k]]) == Some(ys[k])
  }

  /** `ys` are exactly the values that `f` has on `xs`, in the order of `xs`. */
  ghost predicate Picks<T, U>(xs: seq<T>, f: T -> Option<U>, ys: seq<U>) {
    exists at :: PositionsOf(xs, f, at) && ValuesAt(xs, f, ys, at)
  }

  /** Where the value of the element at `j` was put. */
  lemma PickedAt<T, U>(xs: seq<T>, f: T -> Option<U>, ys: seq<U>, at: seq<int>, j: int) returns (l: int)
    requires PositionsOf(xs, f, at) && ValuesAt(xs, f, ys, at) && 0 <= j < |xs| && f(xs[j]).Some?
    ensures 0 <= l < |ys| && at[l] == j && f(xs[j]) == Some(ys[l])
  {
    l :| 0 <= l < |at| && at[l] == j;
  }

  lemma NothingPicked<T, U>(xs: seq<T>, f: T -> Option<U>)
    requires xs == []
    ensures Picks(xs, f, [])
  {
    assert PositionsOf(xs, f, []) && ValuesAt(xs, f, [], []);
  }

  function LastAt<T, U>(xs: seq<T>, f: T -> Option<U>, at: seq<int>): seq<int>
    requires xs != []
  {
    at + if f(xs[|xs| - 1]).Some? then [|xs| - 1] else []
  }

  lemma LastPosition<T, U>(xs: seq<T>, f: T -> Option<U>, at: seq<int>)
    requires xs != [] && PositionsOf(xs[..|xs| - 1], f, at)
    ensures PositionsOf(xs, f, LastAt(xs, f, at))
  {
    var front := xs[..|xs| - 1];
    assert forall i :: 0 <= i < |front| ==> front[i] == xs[i];
    forall i | 0 <= i < |xs|
      ensures f(xs[i]).Some? <==> i in LastAt(xs, f, at)
    {
      if i == |xs| - 1 {
        assert i !in at;
      }
    }
  }

  lemma LastValue<T, U>(xs: seq<T>, f: T -> Option<U>, ys: seq<U>, at: seq<int>)
    requires xs != [] && ValuesAt(xs[..|xs| - 1], f, ys, at)
    ensures ValuesAt(xs, f, ys + (if f(xs[|xs| - 1]).Some? then [f(xs[|xs| - 1]).value] else []), LastAt(xs, f, at))
  {
    var front := xs[..|xs| - 1];
    assert forall i :: 0 <= i < |front| ==> front[i] == xs[i];
  }

  /** One more element at the end: its value comes last, if it has one. */
  lemma PickLast<T, U>(xs: seq<T>, f: T -> Option<U>, ys: seq<U>)
    requires xs != [] && Picks(xs[..|xs| - 1], f, ys)
    ensures Picks(xs, f, ys + if f(xs[|xs| - 1]).Some? then [f(xs[|xs| - 1]).value] else [])
  {
    var at :| PositionsOf(xs[..|xs| - 1], f, at) && ValuesAt(xs[..|xs| - 1], f, ys, at);
    LastPosition(xs, f, at);
    LastValue(xs, f, ys, at);
  }
}
