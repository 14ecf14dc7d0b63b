/** Day 10, part 2 in Rust: the outlet (0) and the device (highest adaptor + 3) are added to
    the adaptors and the list is sorted; each value is mapped to its index; a square 0/1
    matrix links adaptor `i` to adaptor `j` when `j` is the index of a value 1, 2 or 3 above
    adaptor `i`; the answer sums entry (0, n-1) of the first `n` powers of that matrix.
    That sum counts the chains of links from the outlet to the device. */
module Day10Rs {
  import opened Basics
  import opened Sorting

  // ---------------------------------------------------------------------------
  // Matrices as sequences of rows
  // ---------------------------------------------------------------------------

  predicate IsSquare(m: seq<seq<int>>, n: nat)
  {
    |m| == n && forall i :: 0 <= i < n ==> |m[i]| == n
  }

  /** The sum over `l < k` of `w[l] * m[l][j]`: entry `j` of the row vector `w` times `m`,
      as far as row `k`. */
  function RowTimes(w: seq<int>, m: seq<seq<int>>, j: nat, k: nat): int
    requires IsSquare(m, |w|) && j < |w| && k <= |w|
  {
    if k == 0 then 0 else RowTimes(w, m, j, k - 1) + w[k - 1] * m[k - 1][j]
  }

  /** The matrix product `p . m`, what `ndarray`'s `dot` computes. */
  function Mul(p: seq<seq<int>>, m: seq<seq<int>>): (r: seq<seq<int>>)
    requires IsSquare(p, |m|) && IsSquare(m, |m|)
    ensures IsSquare(r, |m|)
  {
    seq(|m|, i requires 0 <= i < |m| => seq(|m|, j requires 0 <= j < |m| => RowTimes(p[i], m, j, |m|)))
  }

  /** `m` to the power `k`, for `k >= 1`, multiplied out on the right as the loop does. */
  function Pow(m: seq<seq<int>>, k: nat): (r: seq<seq<int>>)
    requires IsSquare(m, |m|) && k >= 1
    ensures IsSquare(r, |m|)
  {
    if k == 1 then m else Mul(Pow(m, k - 1), m)
  }

  /** The sum of entry (0, n-1) of the powers 1 to `k` of the n-by-n matrix `m`. */
  function PowerTotal(m: seq<seq<int>>, k: nat): int
    requires IsSquare(m, |m|) && |m| >= 1
  {
    if k == 0 then 0 else PowerTotal(m, k - 1) + Pow(m, k)[0][|m| - 1]
  }

  /** No link leads to the same or an earlier index. */
  predicate StrictlyUpper(m: seq<seq<int>>)
    requires IsSquare(m, |m|)
  {
    forall i, j :: 0 <= j <= i < |m| ==> m[i][j] == 0
  }

  /** The number of chains of links from index 0 to index `j`, each link counted with its
      weight: one for `j == 0` itself, plus the chains that reach `j` from an earlier
      index. */
  function Paths(m: seq<seq<int>>, j: nat): int
    requires IsSquare(m, |m|) && j < |m|
    decreases j, 1
  {
    (if j == 0 then 1 else 0) + Into(m, j, j)
  }

  /** The chains to `j` whose last link comes from an index below `k`. */
  function Into(m: seq<seq<int>>, j: nat, k: nat): int
    requires IsSquare(m, |m|) && k <= j < |m|
    decreases k, 0
  {
    if k == 0 then 0 else Into(m, j, k - 1) + Paths(m, k - 1) * m[k - 1][j]
  }

  // ---------------------------------------------------------------------------
  // The sum of the powers counts the chains
  // ---------------------------------------------------------------------------

  function Unit(n: nat): seq<int>
  {
    seq(n, j => if j == 0 then 1 else 0)
  }

  function Zeros(n: nat): seq<int>
  {
    seq(n, j => 0)
  }

  function Add(u: seq<int>, v: seq<int>): seq<int>
    requires |u| == |v|
  {
    seq(|u|, i requires 0 <= i < |u| => u[i] + v[i])
  }

  /** Row 0 of the `k`-th power, the unit row for `k == 0`. */
  function Row(m: seq<seq<int>>, k: nat): (w: seq<int>)
    requires IsSquare(m, |m|) && |m| >= 1
    ensures |w| == |m|
  {
    if k == 0 then Unit(|m|) else Pow(m, k)[0]
  }

  /** The sum of the rows 0 to `k - 1`. */
  function RowSum(m: seq<seq<int>>, k: nat): (w: seq<int>)
    requires IsSquare(m, |m|) && |m| >= 1
    ensures |w| == |m|
  {
    if k == 0 then Zeros(|m|) else Add(RowSum(m, k - 1), Row(m, k - 1))
  }

  lemma {:induction false} RowTimesUnit(m: seq<seq<int>>, j: nat, k: nat)
    requires IsSquare(m, |m|) && j < |m| && k <= |m|
    ensures RowTimes(Unit(|m|), m, j, k) == if k == 0 then 0 else m[0][j]
  {
    if k > 0 {
      RowTimesUnit(m, j, k - 1);
    }
  }

  lemma {:induction false} RowTimesZeros(m: seq<seq<int>>, j: nat, k: nat)
    requires IsSquare(m, |m|) && j < |m| && k <= |m|
    ensures RowTimes(Zeros(|m|), m, j, k) == 0
  {
    if k > 0 {
      RowTimesZeros(m, j, k - 1);
    }
  }

  lemma {:induction false} RowTimesAdd(u: seq<int>, v: seq<int>, m: seq<seq<int>>, j: nat, k: nat)
    requires |u| == |v| && IsSquare(m, |u|) && j < |u| && k <= |u|
    ensures RowTimes(Add(u, v), m, j, k) == RowTimes(u, m, j, k) + RowTimes(v, m, j, k)
  {
    if k > 0 {
      RowTimesAdd(u, v, m, j, k - 1);
      assert Add(u, v)[k - 1] * m[k - 1][j] == u[k - 1] * m[k - 1][j] + v[k - 1] * m[k - 1][j];
    }
  }

  /** Each row is the one before times `m`. */
  lemma RowStep(m: seq<seq<int>>, k: nat, j: nat)
    requires IsSquare(m, |m|) && |m| >= 1 && j < |m|
    ensures Row(m, k + 1)[j] == RowTimes(Row(m, k), m, j, |m|)
  {
    if k == 0 {
      RowTimesUnit(m, j, |m|);
    }
  }

  /** Summing the rows 0 to `k` is the unit row plus the sum of rows 0 to `k - 1` times
      `m`. */
  lemma {:induction false} RowSumStep(m: seq<seq<int>>, k: nat, j: nat)
    requires IsSquare(m, |m|) && |m| >= 1 && j < |m|
    ensures RowSum(m, k + 1)[j] == Unit(|m|)[j] + RowTimes(RowSum(m, k), m, j, |m|)
  {
    if k == 0 {
      RowTimesZeros(m, j, |m|);
    } else {
      RowSumStep(m, k - 1, j);
      RowStep(m, k - 1, j);
      RowTimesAdd(RowSum(m, k - 1), Row(m, k - 1), m, j, |m|);
    }
  }

  /** With no link backwards, rows at or after `j` add nothing to entry `j`. */
  lemma {:induction false} RowTimesUpper(w: seq<int>, m: seq<seq<int>>, j: nat, k: nat)
    requires IsSquare(m, |w|) && StrictlyUpper(m) && j <= k <= |w| && j < |w|
    ensures RowTimes(w, m, j, k) == RowTimes(w, m, j, j)
  {
    if k > j {
      RowTimesUpper(w, m, j, k - 1);
      assert m[k - 1][j] == 0;
    }
  }

  lemma {:induction false} RowTimesPaths(w: seq<int>, m: seq<seq<int>>, j: nat, k: nat)
    requires IsSquare(m, |w|) && k <= j < |w|
    requires forall l :: 0 <= l < k ==> w[l] == Paths(m, l)
    ensures RowTimes(w, m, j, k) == Into(m, j, k)
  {
    if k > 0 {
      RowTimesPaths(w, m, j, k - 1);
    }
  }

  /** Entry `j` of the sum of the first `k` rows counts the chains to `j` once `k` exceeds
      `j`: no chain to `j` has more than `j` links. */
  lemma {:induction false} RowSumIsPaths(m: seq<seq<int>>, j: nat, k: nat)
    requires IsSquare(m, |m|) && StrictlyUpper(m) && j < |m| && j < k
    ensures RowSum(m, k)[j] == Paths(m, j)
    decreases j, 1
  {
    RowSumStep(m, k - 1, j);
    RowSumPrefix(m, j, k - 1);
    NextRowPaths(m, j, RowSum(m, k - 1), RowSum(m, k)[j]);
  }

  /** A row that counts the chains to every index before `j`, times `m`, plus the unit row,
      counts the chains to `j`. */
  lemma NextRowPaths(m: seq<seq<int>>, j: nat, w: seq<int>, total: int)
    requires IsSquare(m, |w|) && StrictlyUpper(m) && j < |w|
    requires forall l :: 0 <= l < j ==> w[l] == Paths(m, l)
    requires total == Unit(|m|)[j] + RowTimes(w, m, j, |m|)
    ensures total == Paths(m, j)
  {
    RowTimesUpper(w, m, j, |m|);
    RowTimesPaths(w, m, j, j);
    assert Unit(|m|)[j] == if j == 0 then 1 else 0;
  }

  /** The entries before `j` of the sum of the first `k` rows already count their chains. */
  lemma {:induction false} RowSumPrefix(m: seq<seq<int>>, j: nat, k: nat)
    requires IsSquare(m, |m|) && StrictlyUpper(m) && j < |m| && j <= k
    ensures forall l :: 0 <= l < j ==> RowSum(m, k)[l] == Paths(m, l)
    decreases j, 0
  {
    forall l | 0 <= l < j
      ensures RowSum(m, k)[l] == Paths(m, l)
    {
      RowSumIsPaths(m, l, k);
    }
  }

  lemma {:induction false} RowSumTotal(m: seq<seq<int>>, k: nat)
    requires IsSquare(m, |m|) && |m| >= 1
    ensures RowSum(m, k + 1)[|m| - 1] == Unit(|m|)[|m| - 1] + PowerTotal(m, k)
  {
    if k > 0 {
      RowSumTotal(m, k - 1);
    }
  }

  /** The sum of entry (0, n-1) of the first `n` powers is the number of chains from the
      first index to the last, when no link leads backwards. */
  lemma TotalIsPaths(m: seq<seq<int>>)
    requires IsSquare(m, |m|) && |m| >= 2 && StrictlyUpper(m)
    ensures PowerTotal(m, |m|) == Paths(m, |m| - 1)
  {
    var n := |m|;
    RowSumTotal(m, n);
    RowSumIsPaths(m, n - 1, n + 1);
    assert Unit(n)[n - 1] == 0;
  }

  // ---------------------------------------------------------------------------
  // The adjacency matrix of the adaptors
  // ---------------------------------------------------------------------------

  /** The largest element: `iter().max()`. */
  function Max(s: seq<int>): (x: int)
    requires |s| >= 1
    ensures x in s && forall i :: 0 <= i < |s| ==> s[i] <= x
  {
    if |s| == 1 then s[0]
    else
      var y := Max(s[1..]);
      assert y in s;
      if s[0] >= y then s[0] else y
  }

  /** The list after pushing the outlet 0 and then the device, 3 above the new maximum. */
  function Augment(adaptors: seq<int>): seq<int>
  {
    adaptors + [0] + [Max(adaptors + [0]) + 3]
  }

  /** The map from each value to its index in `b`; a value that occurs twice keeps the
      later index, as collecting pairs into a `HashMap` does. */
  function LastIndexes(b: seq<int>): (rev: map<int, nat>)
    ensures forall v :: v in rev <==> v in b
    ensures forall v :: v in rev ==>
      rev[v] < |b| && b[rev[v]] == v && forall k :: rev[v] < k < |b| ==> b[k] != v
  {
    if b == [] then map[]
    else
      var rev := LastIndexes(b[..|b| - 1]);
      assert forall v :: v in b <==> v in b[..|b| - 1] || v == b[|b| - 1] by {
        assert b == b[..|b| - 1] + [b[|b| - 1]];
      }
      rev[b[|b| - 1] := |b| - 1]
  }

  /** The value `r` above adaptor `i` is in the list, at index `j`. */
  predicate Hit(b: seq<int>, rev: map<int, nat>, i: nat, j: nat, r: int)
    requires i < |b|
  {
    b[i] + r in rev && rev[b[i] + r] == j
  }

  /** 1 when some `r` with `1 <= r < bound` links adaptor `i` to `j`, else 0. */
  function Link(b: seq<int>, rev: map<int, nat>, i: nat, j: nat, bound: int): int
    requires i < |b|
  {
    if exists r :: 1 <= r < bound && Hit(b, rev, i, j, r) then 1 else 0
  }

  /** The matrix the nested loops build from the sorted list `b`. */
  function Adjacency(b: seq<int>): (m: seq<seq<int>>)
    ensures IsSquare(m, |b|)
  {
    seq(|b|, i requires 0 <= i < |b| =>
      seq(|b|, j requires 0 <= j < |b| => Link(b, LastIndexes(b), i, j, 4)))
  }

  /** A link always leads to a higher value, so in a sorted list to a later index. */
  lemma AdjacencyUpper(b: seq<int>, m: seq<seq<int>>)
    requires Sorted(b) && m == Adjacency(b)
    ensures IsSquare(m, |m|) && |m| == |b| && StrictlyUpper(m)
  {
    forall i, j | 0 <= j <= i < |b|
      ensures m[i][j] == 0
    {
    }
  }

  /** With no value repeated, adaptor `i` links to `j` exactly when `b[j]` is 1, 2 or 3
      above `b[i]`. */
  lemma AdjacencyDistinct(b: seq<int>, i: nat, j: nat)
    requires Distinct(b) && i < |b| && j < |b|
    ensures Adjacency(b)[i][j] == 1 <==> 1 <= b[j] - b[i] <= 3
    ensures Adjacency(b)[i][j] == 0 <==> !(1 <= b[j] - b[i] <= 3)
  {
    var rev := LastIndexes(b);
    if 1 <= b[j] - b[i] <= 3 {
      assert b[j] in b;
      var k := rev[b[j]];
      assert k == j;
      assert Hit(b, rev, i, j, b[j] - b[i]);
    }
  }

  /** A sorted list holding `lo` and `hi` and nothing outside them starts with `lo` and
      ends with `hi`. */
  lemma SortedBounds(b: seq<int>, lo: int, hi: int)
    requires Sorted(b) && lo in b && hi in b
    requires forall i :: 0 <= i < |b| ==> lo <= b[i] <= hi
    ensures b[0] == lo && b[|b| - 1] == hi
  {
  }

  /** After the pushes and the sort, the list starts with the outlet 0 and ends with the
      device, 3 above the highest adaptor. */
  lemma AugmentedEnds(adaptors: seq<nat>, b: seq<int>)
    requires Sorted(b) && multiset(b) == multiset(Augment(adaptors))
    ensures |b| == |adaptors| + 2
    ensures b[0] == 0 && b[|adaptors| + 1] == Max(adaptors + [0]) + 3
  {
    var a := Augment(adaptors);
    assert |b| == |a| by {
      assert |multiset(b)| == |multiset(a)|;
    }
    var top := Max(adaptors + [0]);
    assert a[|adaptors|] == 0 && a[|adaptors| + 1] == top + 3;
    assert 0 in multiset(b) && top + 3 in multiset(b) by {
      assert 0 in multiset(a) && top + 3 in multiset(a);
    }
    forall i | 0 <= i < |b|
      ensures 0 <= b[i] <= top + 3
    {
      assert b[i] in multiset(a);
      AugmentRange(adaptors, b[i]);
    }
    SortedBounds(b, 0, top + 3);
  }

  /** Every value of the augmented list lies between the outlet and the device. */
  lemma AugmentRange(adaptors: seq<nat>, x: int)
    requires x in Augment(adaptors)
    ensures 0 <= x <= Max(adaptors + [0]) + 3
  {
    var a := Augment(adaptors);
    var k :| 0 <= k < |a| && a[k] == x;
    if k < |adaptors| {
      assert (adaptors + [0])[k] == a[k];
    }
  }

  // ---------------------------------------------------------------------------
  // part2
  // ---------------------------------------------------------------------------

  /** The `reverse_indexes` map, built by inserting the pairs in order. */
  method ReverseIndexes(a: array<int>) returns (rev: map<int, nat>)
    ensures rev == LastIndexes(a[..])
  {
    rev := map[];
    for i := 0 to a.Length
      invariant rev == LastIndexes(a[..i])
    {
      assert a[..i + 1][..i] == a[..i];
      rev := rev[a[i] := i];
    }
    assert a[..a.Length] == a[..];
  }

  /** The nested loops that set `matrix[i][j]` to 1 for every `r` in 1..3 whose value
      `a[i] + r` is mapped to `j`. */
  method FillAdjacency(a: array<int>, rev: map<int, nat>, matrix: array2<int>)
    requires matrix.Length0 == a.Length && matrix.Length1 == a.Length
    requires forall v :: v in rev ==> rev[v] < a.Length
    requires forall i, j :: 0 <= i < a.Length && 0 <= j < a.Length ==> matrix[i, j] == 0
    modifies matrix
    ensures forall i, j :: 0 <= i < a.Length && 0 <= j < a.Length ==>
      matrix[i, j] == Link(a[..], rev, i, j, 4)
  {
    for i := 0 to a.Length
      invariant forall p, q :: 0 <= p < i && 0 <= q < a.Length ==> matrix[p, q] == Link(a[..], rev, p, q, 4)
      invariant forall p, q :: i <= p < a.Length && 0 <= q < a.Length ==> matrix[p, q] == 0
    {
      for r := 1 to 4
        invariant forall p, q :: 0 <= p < i && 0 <= q < a.Length ==> matrix[p, q] == Link(a[..], rev, p, q, 4)
        invariant forall q :: 0 <= q < a.Length ==> matrix[i, q] == Link(a[..], rev, i, q, r)
        invariant forall p, q :: i < p < a.Length && 0 <= q < a.Length ==> matrix[p, q] == 0
      {
        if a[i] + r in rev {
          var j := rev[a[i] + r];
          matrix[i, j] := 1;
          assert Hit(a[..], rev, i, j, r);
        }
        forall q | 0 <= q < a.Length
          ensures matrix[i, q] == Link(a[..], rev, i, q, r + 1)
        {
          if !Hit(a[..], rev, i, q, r) {
            assert (exists s :: 1 <= s < r + 1 && Hit(a[..], rev, i, q, s))
                == (exists s :: 1 <= s < r && Hit(a[..], rev, i, q, s));
          }
        }
      }
    }
  }

  /** The loop that adds entry (0, n-1) of `m` to the total and multiplies `m` by the
      matrix once more, `n` times. */
  method PowerSum(matrix: seq<seq<int>>) returns (total: int)
    requires IsSquare(matrix, |matrix|) && |matrix| >= 1
    ensures total == PowerTotal(matrix, |matrix|)
  {
    var n := |matrix|;
    var m := matrix;
    total := 0;
    for k := 0 to n
      invariant m == Pow(matrix, k + 1)
      invariant total == PowerTotal(matrix, k)
    {
      total := total + m[0][n - 1];
      m := Mul(m, matrix);
    }
  }

  /** The pushes of the outlet and the device, and the sort. */
  method Augmented(adaptors: seq<nat>) returns (a: array<int>)
    ensures fresh(a) && a[..] == SortedOf(Augment(adaptors))
    ensures a.Length == |adaptors| + 2 && Sorted(a[..])
  {
    var v: seq<int> := adaptors + [0];
    var max := Max(v);
    v := v + [max + 3];
    a := new int[|v|](i requires 0 <= i < |v| => v[i]);
    assert a[..] == Augment(adaptors);
    Sort(a);
    SortedUnique(a[..], SortedOf(Augment(adaptors)));
  }

  /** `reverse_indexes` and the matrix built from it, read back as rows. */
  method AdjacencyMatrix(a: array<int>) returns (m: seq<seq<int>>)
    ensures m == Adjacency(a[..])
  {
    var rev := ReverseIndexes(a);
    var n := a.Length;
    var matrix := new int[n, n]((i, j) => 0);
    FillAdjacency(a, rev, matrix);
    m := seq(n, i requires 0 <= i < n reads matrix =>
      seq(n, j requires 0 <= j < n reads matrix => matrix[i, j]));
    assert forall i :: 0 <= i < n ==> m[i] == Adjacency(a[..])[i];
  }

  /** part2: the sum of the powers of the adjacency matrix of the augmented, sorted list,
      which is the number of chains from the outlet to the device. */
  method Part2(adaptors: seq<nat>) returns (total: int)
    ensures var b := SortedOf(Augment(adaptors));
      |b| >= 2 && total == PowerTotal(Adjacency(b), |b|) && total == Paths(Adjacency(b), |b| - 1)
  {
    var a := Augmented(adaptors);
    ghost var b := a[..];
    var m := AdjacencyMatrix(a);
    total := PowerSum(m);
    TotalOfAdjacency(b, m);
  }

  /** The total of the powers of the adjacency matrix of a sorted chain counts its paths. */
  lemma TotalOfAdjacency(b: seq<int>, m: seq<seq<int>>)
    requires Sorted(b) && |b| >= 2 && m == Adjacency(b)
    ensures |m| == |b| && PowerTotal(m, |m|) == Paths(m, |m| - 1)
  {
    assert IsSquare(m, |m|) && StrictlyUpper(m) by {
      AdjacencyUpper(b, m);
    }
    TotalIsPaths(m);
  }
}
