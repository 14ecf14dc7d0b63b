/** Day 23, part 2, in Rust: the successor map is a vector of `u32` indexed by label, of
    length `inp.len() + 1000000`; it is filled from the input and the labels above it, and
    each move rewrites three entries. The model keeps the vector as an array of `U32`
    values, so every subtraction and every store is checked to stay in range, and proves
    that the array always agrees with a successor dictionary linking the circle that the
    move rule of `Day23` produces. */
module Day23Rs {
  import opened Basics
  import opened Day23

  newtype U32 = x: int | 0 <= x < 0x1_0000_0000
  newtype U64 = x: int | 0 <= x < 0x1_0000_0000_0000_0000

  /** Rust's destination loop wraps before it decrements: from below `lo` it goes to `hi`,
      otherwise one down; the search result and the count-down order are kept. */
  lemma WrapFirstStep(t: int, current: int, a: int, b: int, c: int, known: set<int>, lo: int, hi: int)
    requires Searchable(current, a, b, c, known, lo, hi)
    requires forall l :: l in known <==> lo <= l <= hi
    requires lo - 1 <= t <= hi && !Free(t, known, a, b, c)
    ensures var t' := if t < lo then hi else t - 1;
      lo - 1 <= t' <= hi
      && Seek(t', current, a, b, c, known, lo, hi) == Seek(t, current, a, b, c, known, lo, hi)
      && Rank(t', current, lo, hi) <= hi - lo + 1
      && (Rank(t, current, lo, hi) < Rank(t', current, lo, hi)
          || (Rank(t, current, lo, hi) == Rank(t', current, lo, hi) && t < lo && lo <= t'))
  {
    if t == lo {
      assert !Free(lo - 1, known, a, b, c);
      assert Seek(lo - 1, current, a, b, c, known, lo, hi) == Seek(hi, current, a, b, c, known, lo, hi);
    }
  }

  /** The destination search of the Rust loop. */
  method FindTarget(current: U32, a: U32, b: U32, c: U32, min: U32, top: int, ghost known: set<int>)
    returns (target: U32)
    requires 1 <= min && top + 1 < 0x1_0000_0000
    requires Searchable(current as int, a as int, b as int, c as int, known, min as int, top)
    requires forall l :: l in known <==> min as int <= l <= top
    ensures target as int == Seek(current as int - 1, current as int, a as int, b as int, c as int, known, min as int, top)
  {
    ghost var ci, ai, bi, cci, lo := current as int, a as int, b as int, c as int, min as int;
    target := current - 1;
    while target < min || target == a || target == b || target == c
      invariant lo - 1 <= target as int <= top
      invariant Seek(target as int, ci, ai, bi, cci, known, lo, top) == Seek(ci - 1, ci, ai, bi, cci, known, lo, top)
      decreases top - lo + 1 - Rank(target as int, ci, lo, top), if (target as int) < lo then 1 else 0
    {
      WrapFirstStep(target as int, ci, ai, bi, cci, known, lo, top);
      if target < min {
        target := (top + 1) as U32;
      }
      target := target - 1;
    }
  }

  /** The vector agrees with the successor dictionary on every label. */
  ghost predicate Agrees(s: seq<U32>, m: map<int, int>, known: set<int>)
  {
    forall l :: l in known ==> 0 <= l < |s| && l in m && s[l] as int == m[l]
  }

  /** A store at a label keeps the vector in step with the same store in the dictionary. */
  lemma StoreAgrees(s: seq<U32>, m: map<int, int>, known: set<int>, x: int, v: U32)
    requires Agrees(s, m, known) && x in known
    ensures 0 <= x < |s| && Agrees(s[x := v], m[x := v as int], known)
  {
  }

  /** The three stores of a Rust move, each mirrored in the dictionary. */
  method Relink(arr: array<U32>, current: U32, a: U32, c: U32, after: U32, target: U32,
                ghost m: map<int, int>, ghost known: set<int>)
    returns (ghost m': map<int, int>)
    modifies arr
    requires Agrees(arr[..], m, known)
    requires current as int in known && c as int in known && target as int in known
    ensures m' == m[c as int := m[target as int]][current as int := after as int][target as int := a as int]
    ensures Agrees(arr[..], m', known)
  {
    ghost var s0 := arr[..];
    var moved := arr[target];
    arr[c] := moved;
    StoreAgrees(s0, m, known, c as int, moved);
    ghost var m1 := m[c as int := moved as int];
    assert arr[..] == s0[c as int := moved];
    ghost var s1 := arr[..];
    arr[current] := after;
    StoreAgrees(s1, m1, known, current as int, after);
    ghost var m2 := m1[current as int := after as int];
    assert arr[..] == s1[current as int := after];
    ghost var s2 := arr[..];
    arr[target] := a;
    StoreAgrees(s2, m2, known, target as int, a);
    m' := m2[target as int := a as int];
    assert arr[..] == s2[target as int := a];
  }

  /** The body of the Rust loop: the same reads, search and three stores as the Python
      dictionary version, on the vector. */
  method MoveArray(arr: array<U32>, current: U32, min: U32, top: int,
                   ghost order: seq<int>, ghost known: set<int>, ghost m: map<int, int>)
    returns (next: U32, ghost m': map<int, int>)
    modifies arr
    requires 1 <= min && top + 1 < 0x1_0000_0000
    requires |order| >= 5 && Arranged(order, known, min as int, top) && Linked(m, order)
    requires current as int == order[0]
    requires forall l :: l in known <==> min as int <= l <= top
    requires Agrees(arr[..], m, known)
    ensures Agrees(arr[..], m', known)
    ensures Linked(m', Move(order, known, min as int, top))
    ensures next as int == Move(order, known, min as int, top)[0]
  {
    ghost var lo := min as int;
    assert order[0] in known && order[1] in known && order[2] in known && order[3] in known
        && m[order[0]] == order[1] && m[order[1]] == order[2]
        && m[order[2]] == order[3] && m[order[3]] == order[4] by {
      assert order[0] in order && order[1] in order && order[2] in order && order[3] in order;
    }
    var a := arr[current];
    var b := arr[a];
    var c := arr[b];
    var after := arr[c];
    assert a as int == order[1] && b as int == order[2] && c as int == order[3] && after as int == order[4];
    assert Searchable(current as int, a as int, b as int, c as int, known, lo, top) by {
      Searching(order, known, lo, top);
    }
    var target := FindTarget(current, a, b, c, min, top, known);
    assert target as int in order[4..] by {
      assert order[4] in order;
      SeekNotCurrent(current as int, a as int, b as int, c as int, known, lo, top, after as int);
      DestinedInRest(order, known, lo, top);
    }
    ghost var k := IndexOf(order[4..], target as int);
    assert order[4 + k] == target as int;
    assert target as int in known by {
      assert order[4 + k] in order;
    }
    assert Destined(order, known, lo, top) == target as int;
    assert Move(order, known, lo, top) == Splice(order, order[4 + k]);
    m' := Relink(arr, current, a, c, after, target, m, known);
    next := after;
    SpliceLinked(m, order, k);
    SpliceAt(order, target as int, k, 0);
  }

  /** What the Rust initialisation stores, position by position of part2's circle: each cup
      maps to the next one round the circle. */
  lemma InitAt(s: seq<U32>, inp: seq<int>, top: int, i: int)
    requires Numbered(inp) && top > |inp| && |s| == |inp| + top
    requires forall j :: 0 <= j < |inp| - 1 ==> 0 <= inp[j] < |s| && s[inp[j]] as int == inp[j + 1]
    requires 0 <= inp[|inp| - 1] < |s| && s[inp[|inp| - 1]] as int == |inp| + 1
    requires forall l :: |inp| < l < top ==> s[l] as int == l + 1
    requires s[top] as int == inp[0]
    requires 0 <= i < top
    ensures Max(inp) == |inp| && |Circle(inp, top)| == top
    ensures 0 <= Circle(inp, top)[i] < |s|
    ensures s[Circle(inp, top)[i]] as int == Circle(inp, top)[Succ(i, top)]
  {
    CircleArranged(inp, top);
    var cups := Circle(inp, top);
    var tail := Range(|inp| + 1, top + 1);
    assert cups == inp + tail;
    if i < |inp| - 1 {
    } else if i == |inp| - 1 {
      assert cups[i + 1] == tail[0];
    } else if i < top - 1 {
      assert cups[i] == tail[i - |inp|] && cups[i + 1] == tail[i + 1 - |inp|];
    } else {
      assert cups[i] == tail[i - |inp|];
    }
  }

  /** After the Rust initialisation the vector agrees with the dictionary of part2's circle. */
  lemma InitAgrees(s: seq<U32>, inp: seq<int>, top: int)
    requires Numbered(inp) && top > |inp| && |s| == |inp| + top
    requires forall j :: 0 <= j < |inp| - 1 ==> 0 <= inp[j] < |s| && s[inp[j]] as int == inp[j + 1]
    requires 0 <= inp[|inp| - 1] < |s| && s[inp[|inp| - 1]] as int == |inp| + 1
    requires forall l :: |inp| < l < top ==> s[l] as int == l + 1
    requires s[top] as int == inp[0]
    ensures |Circle(inp, top)| == top
    ensures Agrees(s, Links(Circle(inp, top))[Circle(inp, top)[top - 1] := Circle(inp, top)[0]],
                   Known(Circle(inp, top)))
  {
    var cups := Circle(inp, top);
    assert |cups| == top && Distinct(cups) by {
      CircleArranged(inp, top);
    }
    CircleLinked(cups);
    var m := Links(cups)[cups[top - 1] := cups[0]];
    forall l | l in Known(cups)
      ensures 0 <= l < |s| && l in m && s[l] as int == m[l]
    {
      var i := IndexOf(cups, l);
      InitAt(s, inp, top, i);
      assert m[cups[i]] == cups[Succ(i, top)];
    }
  }

  /** No overflow in the `u64` product of two `u32` values. */
  lemma ProductFits(x: int, y: int, b: int)
    requires 0 <= x < b && 0 <= y < b
    ensures 0 <= x * y < b * b
  {
    assert x * y <= x * b;
    assert x * b < b * b;
  }

  /** The input labels run from 1 to its length, so the largest is its length. */
  lemma NumberedLabels(inp: seq<int>)
    requires Numbered(inp)
    ensures Max(inp) == |inp|
    ensures forall j :: 0 <= j < |inp| ==> 1 <= inp[j] <= |inp|
  {
    assert Max(inp) in inp && |inp| in inp;
    forall j | 0 <= j < |inp|
      ensures 1 <= inp[j] <= |inp|
    {
      assert inp[j] in inp;
    }
  }

  /** The first Rust initialisation loop: each input cup but the last maps to the next. */
  method LinkInput(arr: array<U32>, inp: seq<int>)
    modifies arr
    requires |inp| >= 1 && Distinct(inp) && forall j :: 0 <= j < |inp| ==> 0 <= inp[j] < arr.Length
    requires forall j :: 0 <= j < |inp| ==> inp[j] < 0x1_0000_0000
    ensures forall j :: 0 <= j < |inp| - 1 ==> arr[inp[j]] as int == inp[j + 1]
  {
    for i := 0 to |inp| - 1
      invariant forall j :: 0 <= j < i ==> arr[inp[j]] as int == inp[j + 1]
    {
      arr[inp[i]] := inp[i + 1] as U32;
    }
  }

  /** The second Rust initialisation loop: each label from `lo` below `hi` maps to the next
      label; the entries below `lo` are left alone. */
  method LinkAbove(arr: array<U32>, lo: U32, hi: U32)
    modifies arr
    requires lo <= hi && hi as int < arr.Length
    ensures forall l :: lo as int <= l < hi as int ==> arr[l] as int == l + 1
    ensures forall l :: 0 <= l < lo as int ==> arr[l] == old(arr[l])
  {
    for l := lo to hi
      invariant forall x :: lo as int <= x < l as int ==> arr[x] as int == x + 1
      invariant forall x :: 0 <= x < lo as int ==> arr[x] == old(arr[x])
    {
      arr[l] := l + 1;
    }
  }

  /** The Rust initialisation: each input cup maps to the next, the last to one above the
      largest, each label above the input to the next, and `top` back to the first cup. */
  method Init(inp: seq<int>, top: int) returns (arr: array<U32>)
    requires Numbered(inp) && top > |inp| && top + 1 < 0x1_0000_0000
    ensures fresh(arr) && arr.Length == |inp| + top && |Circle(inp, top)| == top
    ensures Agrees(arr[..], Links(Circle(inp, top))[Circle(inp, top)[top - 1] := Circle(inp, top)[0]],
                   Known(Circle(inp, top)))
  {
    NumberedLabels(inp);
    var max := Max(inp) as U32;
    arr := new U32[|inp| + top](_ => 0);
    LinkInput(arr, inp);
    arr[inp[|inp| - 1]] := max + 1;
    LinkAbove(arr, max + 1, top as U32);
    arr[top] := inp[0] as U32;
    ghost var stored := arr[..];
    InitAgrees(stored, inp, top);
  }

  /** The answer read off the vector: the product, as `u64`, of the two labels after cup 1. */
  method Answer(arr: array<U32>, ghost m: map<int, int>, ghost order: seq<int>, ghost known: set<int>,
                ghost lo: int, ghost hi: int)
    returns (r: U64)
    requires |order| >= 3 && Arranged(order, known, lo, hi) && Linked(m, order) && 1 in known
    requires Agrees(arr[..], m, known)
    ensures |AfterOne(order)| >= 2 && r as int == AfterOne(order)[0] * AfterOne(order)[1]
  {
    assert 1 in order;
    AfterOneLinked(m, order);
    var i := IndexOf(order, 1);
    var j := Succ(i, |order|);
    assert m[order[i]] == order[j] && order[j] in order;
    assert m[order[j]] == order[Succ(j, |order|)] && order[Succ(j, |order|)] in order;
    assert arr[..][1] as int == m[1] && arr[..][m[1]] as int == m[m[1]];
    var a := arr[1];
    var b := arr[a];
    ProductFits(a as int, b as int, 0x1_0000_0000);
    r := a as U64 * b as U64;
  }

  /** part2 with `top` cups and `moves` moves (1,000,000 and 10,000,000 in the source): the
      vector always agrees with a dictionary linking the circle that the move rule
      produces, every index stays below the vector's length, and the result is the same as
      the Python version's. */
  method Part2(inp: seq<int>, top: int, moves: nat) returns (r: U64)
    requires Numbered(inp) && top > |inp| && top >= 5 && top + 1 < 0x1_0000_0000
    ensures r as int == Part2Answer(inp, top, moves)
  {
    CircleArranged(inp, top);
    var min := Min(inp) as U32;
    var arr := Init(inp, top);
    var current := inp[0] as U32;
    ghost var cups := Circle(inp, top);
    ghost var known := Known(cups);
    ghost var m := Links(cups)[cups[|cups| - 1] := cups[0]];
    ghost var order := cups;
    CircleLinked(cups);
    for i := 0 to moves
      invariant order == Play(cups, known, 1, top, i)
      invariant Linked(m, order) && current as int == order[0]
      invariant Agrees(arr[..], m, known)
    {
      current, m := MoveArray(arr, current, min, top, order, known, m);
      order := Move(order, known, 1, top);
    }
    assert 1 in known;
    r := Answer(arr, m, order, known, 1, top);
  }
}
