/**
 * Filter-then-map over a sequence, the shape of a loop that walks a list in
 * order and pushes a converted element for each one that passes a test.
 */
module Filtering {

  /** The images under `f` of the elements of `xs` that satisfy `keep`, in order. */
  function FilterMap<T, U>(xs: seq<T>, keep: T -> bool, f: T -> U): (ys: seq<U>)
    ensures |ys| <= |xs|
  {
    if xs == [] then []
    else
      var rest := FilterMap(xs[..|xs| - 1], keep, f);
      var x := xs[|xs| - 1];
      if keep(x) then rest + [f(x)] else rest
  }

  /** Filtering two stretches gives the results of each, in order. */
  lemma {:induction false} FilterMapAppend<T, U>(xs: seq<T>, ys: seq<T>, keep: T -> bool, f: T -> U)
    ensures FilterMap(xs + ys, keep, f) == FilterMap(xs, keep, f) + FilterMap(ys, keep, f)
    decreases |ys|
  {
    if ys == [] {
      assert xs + ys == xs;
    } else {
      var init := ys[..|ys| - 1];
      assert (xs + ys)[..|xs + ys| - 1] == xs + init;
      FilterMapAppend(xs, init, keep, f);
    }
  }

  /** An element is produced exactly when some kept element of the input maps to it. */
  lemma {:induction false} FilterMapMembership<T, U>(xs: seq<T>, keep: T -> bool, f: T -> U, y: U)
    ensures y in FilterMap(xs, keep, f) <==> exists i :: 0 <= i < |xs| && keep(xs[i]) && f(xs[i]) == y
  {
    if xs != [] {
      var init := xs[..|xs| - 1];
      FilterMapMembership(init, keep, f, y);
      if y in FilterMap(init, keep, f) {
        var i :| 0 <= i < |init| && keep(init[i]) && f(init[i]) == y;
        assert xs[i] == init[i];
      }
      if exists i :: 0 <= i < |xs| && keep(xs[i]) && f(xs[i]) == y {
        var i :| 0 <= i < |xs| && keep(xs[i]) && f(xs[i]) == y;
        if i < |init| {
          assert init[i] == xs[i];
        }
      }
    }
  }

  /** When every element is kept, the result is the image of the whole input, position by position. */
  lemma {:induction false} FilterMapAllKept<T, U>(xs: seq<T>, keep: T -> bool, f: T -> U)
    requires forall i :: 0 <= i < |xs| ==> keep(xs[i])
    ensures |FilterMap(xs, keep, f)| == |xs|
    ensures forall i :: 0 <= i < |xs| ==> FilterMap(xs, keep, f)[i] == f(xs[i])
  {
    if xs != [] {
      FilterMapAllKept(xs[..|xs| - 1], keep, f);
    }
  }

  /** When nothing is kept, nothing is produced. */
  lemma {:induction false} FilterMapNoneKept<T, U>(xs: seq<T>, keep: T -> bool, f: T -> U)
    requires forall i :: 0 <= i < |xs| ==> !keep(xs[i])
    ensures FilterMap(xs, keep, f) == []
  {
    if xs != [] {
      FilterMapNoneKept(xs[..|xs| - 1], keep, f);
    }
  }
}
