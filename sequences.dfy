/**
 * Lists built by loops that extend a list element by element: the span,
 * line and block loops of the title scan and the file loop of the database
 * build all have this shape.
 */
module Sequences {

  /**
   * The lists `part(x)` of the elements `x` of `xs`, concatenated in order:
   * what a loop that extends a list by `part(x)` for each `x` leaves.
   */
  function Gather<T, X>(xs: seq<T>, part: T -> seq<X>): seq<X> {
    if xs == [] then [] else Gather(xs[..|xs| - 1], part) + part(xs[|xs| - 1])
  }

  /** Two gatherings whose parts have equal lengths element by element have equal lengths. */
  lemma {:induction false} GatherLockstep<T, X, Y>(xs: seq<T>, p: T -> seq<X>, q: T -> seq<Y>)
    requires forall i :: 0 <= i < |xs| ==> |p(xs[i])| == |q(xs[i])|
    ensures |Gather(xs, p)| == |Gather(xs, q)|
  {
    if xs != [] {
      var init := xs[..|xs| - 1];
      assert forall i :: 0 <= i < |init| ==> init[i] == xs[i];
      GatherLockstep(init, p, q);
    }
  }

  /** Entry `k` of the part of element `i` sits right after the parts of the elements before it. */
  lemma {:induction false} GatherAt<T, X>(xs: seq<T>, part: T -> seq<X>, i: nat, k: nat)
    requires i < |xs| && k < |part(xs[i])|
    ensures |Gather(xs[..i], part)| + k < |Gather(xs, part)|
    ensures Gather(xs, part)[|Gather(xs[..i], part)| + k] == part(xs[i])[k]
  {
    var n := |xs| - 1;
    var init := xs[..n];
    var a, b := Gather(init, part), part(xs[n]);
    assert Gather(xs, part) == a + b;
    if i < n {
      assert init[..i] == xs[..i];
      assert init[i] == xs[i];
      GatherAt(init, part, i, k);
    } else {
      assert (a + b)[|a| + k] == b[k];
    }
  }

  /** Where entry `j` of a gathering came from: entry `k` of the part of element `i`. */
  predicate GatheredFrom<T, X>(xs: seq<T>, part: T -> seq<X>, j: int, i: int, k: int) {
    0 <= i < |xs| && 0 <= k < |part(xs[i])| && j == |Gather(xs[..i], part)| + k
  }

  /** Every entry of a gathering came from some entry of some element's part. */
  lemma {:induction false} GatherSource<T, X>(xs: seq<T>, part: T -> seq<X>, j: nat)
    requires j < |Gather(xs, part)|
    ensures exists i, k :: GatheredFrom(xs, part, j, i, k)
  {
    var n := |xs| - 1;
    var init := xs[..n];
    var a := Gather(init, part);
    assert Gather(xs, part) == a + part(xs[n]);
    if j < |a| {
      GatherSource(init, part, j);
      var i, k :| GatheredFrom(init, part, j, i, k);
      assert init[..i] == xs[..i];
      assert init[i] == xs[i];
      assert GatheredFrom(xs, part, j, i, k);
    } else {
      assert xs[..n] == init;
      assert GatheredFrom(xs, part, j, n, j - |a|);
    }
  }

  /** Whatever the part of an element holds is in the gathering. */
  lemma GatherMember<T, X>(xs: seq<T>, part: T -> seq<X>, i: nat, c: X)
    requires i < |xs| && c in part(xs[i])
    ensures c in Gather(xs, part)
  {
    var k :| 0 <= k < |part(xs[i])| && part(xs[i])[k] == c;
    GatherAt(xs, part, i, k);
  }

  /** An element whose part holds `c`, for `c` in the gathering. */
  lemma GatherWitness<T, X>(xs: seq<T>, part: T -> seq<X>, c: X) returns (i: nat)
    requires c in Gather(xs, part)
    ensures i < |xs| && c in part(xs[i])
  {
    var j :| 0 <= j < |Gather(xs, part)| && Gather(xs, part)[j] == c;
    GatherSource(xs, part, j);
    var e, k :| GatheredFrom(xs, part, j, e, k);
    GatherAt(xs, part, e, k);
    i := e;
  }
}
