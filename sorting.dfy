/** Sorting a list of integers in place: Python's `list.sort()` and Rust's `Vec::sort`.
    Both are library sorts; any algorithm that leaves the array sorted and holding the
    same values gives the same array, which `SortedUnique` proves, so an insertion sort
    stands for them here. */
module Sorting {

  predicate Sorted(s: seq<int>)
  {
    forall i, j :: 0 <= i < j < |s| ==> s[i] <= s[j]
  }

  /** Sorts `a` in place. */
  method Sort(a: array<int>)
    modifies a
    ensures Sorted(a[..])
    ensures multiset(a[..]) == multiset(old(a[..]))
    ensures a[..] == SortedOf(old(a[..]))
  {
    ghost var s := a[..];
    for i := 0 to a.Length
      invariant Sorted(a[..i])
      invariant multiset(a[..i]) == multiset(s[..i])
      invariant a[i..] == s[i..]
    {
      ghost var before := a[..];
      Insert(a, i);
      PrefixStep(s, before, a[..], i);
    }
    assert a[..] == a[..a.Length] && s == s[..a.Length];
    SortedUnique(a[..], SortedOf(s));
  }

  /** After inserting element `i` into a prefix that permutes `s[..i]`, the longer prefix
      permutes `s[..i + 1]` and the rest is still `s`'s. */
  lemma PrefixStep(s: seq<int>, before: seq<int>, after: seq<int>, i: nat)
    requires |before| == |s| && |after| == |s| && i < |s|
    requires multiset(before[..i]) == multiset(s[..i]) && before[i..] == s[i..]
    requires multiset(after[..i + 1]) == multiset(before[..i]) + multiset{before[i]}
    requires after[i + 1..] == before[i + 1..]
    ensures multiset(after[..i + 1]) == multiset(s[..i + 1]) && after[i + 1..] == s[i + 1..]
  {
    assert before[i] == before[i..][0] == s[i..][0] == s[i];
    assert s[..i + 1] == s[..i] + [s[i]];
    assert before[i + 1..] == before[i..][1..];
    assert s[i + 1..] == s[i..][1..];
  }

  /** Moves `a[i]` down into the sorted prefix `a[..i]`. */
  method Insert(a: array<int>, i: int)
    requires 0 <= i < a.Length && Sorted(a[..i])
    modifies a
    ensures Sorted(a[..i + 1])
    ensures multiset(a[..i + 1]) == multiset(old(a[..i])) + multiset{old(a[i])}
    ensures a[i + 1..] == old(a[i + 1..])
  {
    ghost var t := a[..i];
    ghost var x := a[i];
    var j := i;
    while j > 0 && a[j - 1] > a[j]
      invariant 0 <= j <= i
      invariant forall k :: 0 <= k < j ==> a[k] == t[k]
      invariant a[j] == x
      invariant forall k :: j < k <= i ==> a[k] == t[k - 1]
      invariant forall k :: j <= k < i ==> x < t[k]
      invariant forall k :: i < k < a.Length ==> a[k] == old(a[k])
    {
      a[j - 1], a[j] := a[j], a[j - 1];
      j := j - 1;
    }
    assert a[..i + 1] == t[..j] + [x] + t[j..];
    InsertedSorted(x, t, j);
    InsertedPermutes(x, t, j);
    assert a[i + 1..] == old(a[i + 1..]);
  }

  /** Inserting `x` anywhere adds just `x` to the values. */
  lemma InsertedPermutes(x: int, t: seq<int>, j: nat)
    requires j <= |t|
    ensures multiset(t[..j] + [x] + t[j..]) == multiset(t) + multiset{x}
  {
    assert t == t[..j] + t[j..];
  }

  /** Putting `x` after the elements not above it and before the larger ones keeps a list
      sorted. */
  lemma InsertedSorted(x: int, t: seq<int>, j: nat)
    requires Sorted(t) && j <= |t|
    requires j == 0 || t[j - 1] <= x
    requires forall k :: j <= k < |t| ==> x < t[k]
    ensures Sorted(t[..j] + [x] + t[j..])
  {
  }

  /** The least value of a non-empty sorted sequence is its first. */
  lemma SortedHeadIsMin(s: seq<int>, x: int)
    requires Sorted(s) && x in multiset(s)
    ensures s[0] <= x
  {
    var k :| 0 <= k < |s| && s[k] == x;
  }

  /** A sorted arrangement of a multiset of values is unique: two sorts of the same list
      agree element by element. */
  lemma {:induction false} SortedUnique(s: seq<int>, t: seq<int>)
    requires Sorted(s) && Sorted(t) && multiset(s) == multiset(t)
    ensures s == t
  {
    if s != [] {
      assert |t| == |s| by { assert |multiset(t)| == |multiset(s)|; }
      assert s[0] in multiset(t) && t[0] in multiset(s);
      SortedHeadIsMin(t, s[0]);
      SortedHeadIsMin(s, t[0]);
      assert s[0] == t[0];
      assert s == [s[0]] + s[1..] && t == [t[0]] + t[1..];
      assert multiset(s) == multiset{s[0]} + multiset(s[1..]);
      assert multiset(t) == multiset{t[0]} + multiset(t[1..]);
      assert multiset(s[1..]) == multiset(t[1..]) by {
        forall x ensures multiset(s[1..])[x] == multiset(t[1..])[x] {
          assert multiset(s)[x] == multiset(t)[x];
        }
      }
      assert Sorted(s[1..]) && Sorted(t[1..]);
      SortedUnique(s[1..], t[1..]);
    } else {
      assert |multiset(t)| == 0;
    }
  }

  /** The sorted arrangement of `s`, as a value: inserts the elements one by one. */
  function SortedOf(s: seq<int>): (t: seq<int>)
    ensures Sorted(t) && multiset(t) == multiset(s) && |t| == |s|
  {
    if s == [] then []
    else
      assert s == s[..|s| - 1] + [s[|s| - 1]];
      InsertSorted(s[|s| - 1], SortedOf(s[..|s| - 1]))
  }

  /** Inserts `x` into the sorted `s` before the first element not below it. */
  function InsertSorted(x: int, s: seq<int>): (t: seq<int>)
    requires Sorted(s)
    ensures Sorted(t) && multiset(t) == multiset(s) + multiset{x} && |t| == |s| + 1
  {
    if s == [] || x <= s[0] then
      ConsSorted(x, s);
      [x] + s
    else
      var rest := InsertSorted(x, s[1..]);
      HeadBelowRest(x, s, rest);
      ConsSorted(s[0], rest);
      assert s == [s[0]] + s[1..];
      [s[0]] + rest
  }

  /** A value below every element of a sorted list extends it sorted. */
  lemma ConsSorted(h: int, s: seq<int>)
    requires Sorted(s) && (s == [] || h <= s[0])
    ensures Sorted([h] + s)
  {
  }

  /** The head of a sorted list is below every element of its tail with a larger `x`
      inserted. */
  lemma HeadBelowRest(x: int, s: seq<int>, rest: seq<int>)
    requires Sorted(s) && s != [] && s[0] < x
    requires multiset(rest) == multiset(s[1..]) + multiset{x}
    ensures forall k :: 0 <= k < |rest| ==> s[0] <= rest[k]
  {
    forall k | 0 <= k < |rest|
      ensures s[0] <= rest[k]
    {
      assert rest[k] in multiset(rest);
      if rest[k] != x {
        assert rest[k] in multiset(s[1..]);
        var m :| 0 <= m < |s[1..]| && s[1..][m] == rest[k];
        assert s[m + 1] == rest[k];
      }
    }
  }
}
