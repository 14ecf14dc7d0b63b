/** Option and Result values shared by the modules of this model. */
module Basics {

  /** A value that may be absent: Python's `None` or a value. */
  datatype Option<+T> = None | Some(value: T)

  /** The outcome of an operation that the Python code lets raise
      (an `IndexError`, a `ValueError`, a `KeyError`, ...). */
  datatype Result<+T> = Ok(value: T) | Err(msg: string)

  /** No value occurs twice. */
  predicate Distinct<T(==)>(s: seq<T>)
  {
    forall i, j :: 0 <= i < j < |s| ==> s[i] != s[j]
  }

  /** Sum of a sequence of integers. */
  function Sum(xs: seq<int>): int
  {
    if xs == [] then 0 else xs[0] + Sum(xs[1..])
  }

  /** Number of elements of `xs` equal to `x`. */
  function Count<T(==)>(xs: seq<T>, x: T): (n: nat)
    ensures n <= |xs|
    ensures n == multiset(xs)[x]
  {
    if xs == [] then 0
    else
      assert xs == [xs[0]] + xs[1..];
      (if xs[0] == x then 1 else 0) + Count(xs[1..], x)
  }

  lemma {:induction false} SumAppend(xs: seq<int>, ys: seq<int>)
    ensures Sum(xs + ys) == Sum(xs) + Sum(ys)
  {
    if xs == [] {
      assert xs + ys == ys;
    } else {
      assert (xs + ys)[0] == xs[0];
      assert (xs + ys)[1..] == xs[1..] + ys;
      SumAppend(xs[1..], ys);
    }
  }

  /** `f` applied to every element, in order, or `None` when it gives `None` for some
      element: a list comprehension whose element expression may raise. */
  function MapAll<T, U>(f: T -> Option<U>, xs: seq<T>): (r: Option<seq<U>>)
    ensures r.Some? <==> forall i :: 0 <= i < |xs| ==> f(xs[i]).Some?
    ensures r.Some? ==> |r.value| == |xs| && forall i :: 0 <= i < |xs| ==> f(xs[i]) == Some(r.value[i])
  {
    if xs == [] then Some([])
    else
      var first := f(xs[0]);
      var rest := MapAll(f, xs[1..]);
      assert forall i :: 1 <= i < |xs| ==> xs[i] == xs[1..][i - 1];
      if first.None? || rest.None? then None else Some([first.value] + rest.value)
  }

  /** When `f` gives `ys[i]` for every `xs[i]`, mapping gives `ys`. */
  lemma MapAllPointwise<T, U>(f: T -> Option<U>, xs: seq<T>, ys: seq<U>)
    requires |xs| == |ys| && forall i :: 0 <= i < |xs| ==> f(xs[i]) == Some(ys[i])
    ensures MapAll(f, xs) == Some(ys)
  {
    var r := MapAll(f, xs);
    assert r.Some?;
    assert forall i :: 0 <= i < |xs| ==> r.value[i] == ys[i];
    assert r.value == ys;
  }

  /** Adding an element not yet in `r` to `r` adds one to its intersection with `space`
      exactly when the element is in `space`. */
  lemma CountStep<T>(space: set<T>, r: set<T>, d: T)
    requires d !in r
    ensures |space * (r + {d})| == |space * r| + (if d in space then 1 else 0)
  {
    if d in space {
      assert space * (r + {d}) == space * r + {d};
    } else {
      assert space * (r + {d}) == space * r;
    }
  }
}
