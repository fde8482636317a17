/** The optional value used wherever the Python code returns None or skips on an exception. */
module Wrappers {

  datatype Option<+T> = None | Some(value: T)

  /**
   * The values `f` gives for the elements of `xs`, in order, the `None`s
   * skipped: a Python loop that appends only what passes a check.
   */
  function FilterMap<T, U>(xs: seq<T>, f: T -> Option<U>): (r: seq<U>)
    ensures |r| <= |xs|
  {
    if |xs| == 0 then []
    else if f(xs[0]).None? then FilterMap(xs[1..], f)
    else [f(xs[0]).value] + FilterMap(xs[1..], f)
  }

  /** Every value kept comes from some element. */
  lemma {:induction false} FilterMapSound<T, U>(xs: seq<T>, f: T -> Option<U>, u: U) returns (i: nat)
    requires u in FilterMap(xs, f)
    ensures i < |xs| && f(xs[i]) == Some(u)
  {
    if f(xs[0]) == Some(u) {
      i := 0;
    } else {
      assert u in FilterMap(xs[1..], f);
      var j := FilterMapSound(xs[1..], f, u);
      i := j + 1;
    }
  }

  /** Every element that gives a value has that value kept. */
  lemma {:induction false} FilterMapComplete<T, U>(xs: seq<T>, f: T -> Option<U>, i: nat)
    requires i < |xs| && f(xs[i]).Some?
    ensures f(xs[i]).value in FilterMap(xs, f)
  {
    if i > 0 {
      FilterMapComplete(xs[1..], f, i - 1);
    }
  }

  /** A value is kept exactly when some element gives it. */
  lemma FilterMapMembers<T, U>(xs: seq<T>, f: T -> Option<U>, u: U)
    ensures u in FilterMap(xs, f) <==> exists i :: 0 <= i < |xs| && f(xs[i]) == Some(u)
  {
    if u in FilterMap(xs, f) {
      var i := FilterMapSound(xs, f, u);
    }
    if exists i :: 0 <= i < |xs| && f(xs[i]) == Some(u) {
      var i :| 0 <= i < |xs| && f(xs[i]) == Some(u);
      FilterMapComplete(xs, f, i);
    }
  }

  /** Filtering a concatenation filters each part. */
  lemma {:induction false} FilterMapAppend<T, U>(xs: seq<T>, ys: seq<T>, f: T -> Option<U>)
    ensures FilterMap(xs + ys, f) == FilterMap(xs, f) + FilterMap(ys, f)
  {
    if |xs| == 0 {
      assert xs + ys == ys;
    } else {
      assert (xs + ys)[0] == xs[0];
      assert (xs + ys)[1..] == xs[1..] + ys;
      FilterMapAppend(xs[1..], ys, f);
    }
  }
}
