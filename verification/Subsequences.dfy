/** Subsequences: what is left of a stream when some of its elements are dropped,
    the others keeping their order and none appearing twice. */
module Subsequences {

  /** `a` can be obtained from `b` by deleting elements. */
  predicate IsSubsequence<T(==)>(a: seq<T>, b: seq<T>)
    decreases |b|
  {
    if a == [] then true
    else if b == [] then false
    else
      || (a[|a| - 1] == b[|b| - 1] && IsSubsequence(a[..|a| - 1], b[..|b| - 1]))
      || IsSubsequence(a, b[..|b| - 1])
  }

  lemma ExtendStream<T>(a: seq<T>, b: seq<T>, x: T)
    requires IsSubsequence(a, b)
    ensures IsSubsequence(a, b + [x])
    ensures IsSubsequence(a + [x], b + [x])
  {
    assert (b + [x])[..|b|] == b;
    assert (a + [x])[..|a|] == a;
  }

  /** Dropping one more element of a subsequence leaves a subsequence. */
  lemma {:induction false} DropOne<T>(a: seq<T>, x: T, c: seq<T>, b: seq<T>)
    requires IsSubsequence(a + [x] + c, b)
    ensures IsSubsequence(a + c, b)
    decreases |b|
  {
    var w := a + [x] + c;
    var b' := b[..|b| - 1];
    if a + c == [] {
    } else if IsSubsequence(w, b') {
      DropOne(a, x, c, b');
    } else if c == [] {
      assert w[..|w| - 1] == a && a + c == a;
      ExtendStream(a, b', b[|b| - 1]);
      assert b' + [b[|b| - 1]] == b;
    } else {
      var c' := c[..|c| - 1];
      assert w[..|w| - 1] == a + [x] + c';
      DropOne(a, x, c', b');
      assert (a + c)[..|a + c| - 1] == a + c';
    }
  }

  /** The definition above, in terms of positions: the elements of `a` sit at
      strictly increasing positions of `b`. */
  lemma {:induction false} Positions<T>(a: seq<T>, b: seq<T>) returns (at: seq<nat>)
    requires IsSubsequence(a, b)
    ensures |at| == |a|
    ensures forall k :: 0 <= k < |a| ==> at[k] < |b| && b[at[k]] == a[k]
    ensures forall j, k :: 0 <= j < k < |a| ==> at[j] < at[k]
    decreases |b|
  {
    if a == [] {
      at := [];
    } else if IsSubsequence(a, b[..|b| - 1]) {
      at := Positions(a, b[..|b| - 1]);
    } else {
      at := Positions(a[..|a| - 1], b[..|b| - 1]);
      at := at + [|b| - 1];
    }
  }
}
