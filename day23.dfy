/** Day 23: the crab's cup game. The cups stand in a circle; each move picks up the three
    cups after the current one, puts them back after the destination cup, and makes the
    cup after the current one current. Part 1 keeps the circle as a deque listed from the
    current cup; part 2 keeps a successor dictionary. Both are modelled here against one
    move rule, `Move`, on the circle listed from the current cup. */
module Day23 {
  import opened Basics
  import Strings

  // ---------------------------------------------------------------------------
  // The destination rule
  // ---------------------------------------------------------------------------

  /** A label the destination search accepts: a known cup that was not picked up. */
  predicate Free(l: int, known: set<int>, a: int, b: int, c: int)
  {
    l in known && l != a && l != b && l != c
  }

  /** How many steps the count-down from `current` takes to reach `l`, wrapping from
      below `lo` to `hi`: 1 for `current - 1`, and `hi - lo + 1` for `current` itself. */
  function Rank(l: int, current: int, lo: int, hi: int): int
  {
    if l < current then current - l else current - l + (hi - lo + 1)
  }

  /** The labels the search may visit lie in [lo, hi] and `current` itself is free. */
  predicate Searchable(current: int, a: int, b: int, c: int, known: set<int>, lo: int, hi: int)
  {
    Free(current, known, a, b, c) && lo <= current <= hi
    && forall l :: l in known ==> lo <= l <= hi
  }

  /** The search loop: from `t`, count down until a free label, jumping from below `lo`
      to `hi`. */
  function Seek(t: int, current: int, a: int, b: int, c: int, known: set<int>, lo: int, hi: int): int
    requires Searchable(current, a, b, c, known, lo, hi)
    requires lo - 1 <= t <= hi
    decreases hi - lo + 1 - Rank(t, current, lo, hi), if t < lo then 1 else 0
  {
    if Free(t, known, a, b, c) then t
    else if t - 1 < lo then Seek(hi, current, a, b, c, known, lo, hi)
    else Seek(t - 1, current, a, b, c, known, lo, hi)
  }

  /** The search from `t` ends on a free label whose rank is at least `t`'s and at most
      that of every free label ranked at or after `t`. */
  lemma {:induction false} SeekLeast(t: int, current: int, a: int, b: int, c: int, known: set<int>, lo: int, hi: int)
    requires Searchable(current, a, b, c, known, lo, hi)
    requires lo - 1 <= t <= hi
    ensures var r := Seek(t, current, a, b, c, known, lo, hi);
      Free(r, known, a, b, c) && Rank(t, current, lo, hi) <= Rank(r, current, lo, hi)
      && forall l :: Free(l, known, a, b, c) && Rank(t, current, lo, hi) <= Rank(l, current, lo, hi)
           ==> Rank(r, current, lo, hi) <= Rank(l, current, lo, hi)
    decreases hi - lo + 1 - Rank(t, current, lo, hi), if t < lo then 1 else 0
  {
    if Free(t, known, a, b, c) {
    } else if t - 1 < lo {
      SeekLeast(hi, current, a, b, c, known, lo, hi);
    } else {
      SeekLeast(t - 1, current, a, b, c, known, lo, hi);
    }
  }

  /** The destination is the first free label met counting down from `current - 1`: if it
      is below `current`, no free label lies between them; otherwise the count wrapped,
      no free label lies below `current`, and the destination is the largest free label. */
  lemma Destination(current: int, a: int, b: int, c: int, known: set<int>, lo: int, hi: int)
    requires Searchable(current, a, b, c, known, lo, hi)
    ensures var r := Seek(current - 1, current, a, b, c, known, lo, hi);
      Free(r, known, a, b, c)
      && (r < current ==> forall l :: r < l < current ==> !Free(l, known, a, b, c))
      && (r >= current ==> forall l :: Free(l, known, a, b, c) ==> current <= l <= r)
  {
    var r := Seek(current - 1, current, a, b, c, known, lo, hi);
    SeekLeast(current - 1, current, a, b, c, known, lo, hi);
    forall l | Free(l, known, a, b, c)
      ensures Rank(r, current, lo, hi) <= Rank(l, current, lo, hi)
    {
    }
  }

  /** One step of the search keeps its result and moves on in the count-down order. */
  lemma SeekStep(t: int, current: int, a: int, b: int, c: int, known: set<int>, lo: int, hi: int)
    requires Searchable(current, a, b, c, known, lo, hi)
    requires lo - 1 <= t <= hi && !Free(t, known, a, b, c)
    ensures var t' := if t - 1 < lo then hi else t - 1;
      lo - 1 <= t' <= hi
      && Seek(t', current, a, b, c, known, lo, hi) == Seek(t, current, a, b, c, known, lo, hi)
      && Rank(t', current, lo, hi) <= hi - lo + 1
      && (Rank(t, current, lo, hi) < Rank(t', current, lo, hi)
          || (Rank(t, current, lo, hi) == Rank(t', current, lo, hi) && t < lo && lo <= t'))
  {
  }

  /** When a free label other than `current` exists, the destination is not `current`. */
  lemma SeekNotCurrent(current: int, a: int, b: int, c: int, known: set<int>, lo: int, hi: int, other: int)
    requires Searchable(current, a, b, c, known, lo, hi)
    requires Free(other, known, a, b, c) && other != current
    ensures Seek(current - 1, current, a, b, c, known, lo, hi) != current
  {
    SeekLeast(current - 1, current, a, b, c, known, lo, hi);
  }

  // ---------------------------------------------------------------------------
  // One move on the circle listed from the current cup
  // ---------------------------------------------------------------------------

  /** Python's `index`: the first position of `x`. */
  function IndexOf(s: seq<int>, x: int): (i: nat)
    requires x in s
    ensures i < |s| && s[i] == x && x !in s[..i]
  {
    if s[0] == x then 0
    else
      var i := IndexOf(s[1..], x) + 1;
      assert s[..i] == [s[0]] + s[1..][..i - 1];
      i
  }

  /** Python's `set(cups)`. */
  function Known(cups: seq<int>): set<int>
  {
    set x | x in cups
  }

  /** The cups form a circle of distinct labels, all of them known and in [lo, hi]. */
  predicate Arranged(cups: seq<int>, known: set<int>, lo: int, hi: int)
  {
    Distinct(cups)
    && (forall x :: x in known ==> x in cups)
    && (forall x :: x in cups ==> x in known)
    && (forall x :: x in known ==> lo <= x <= hi)
  }

  /** Take out the current cup and the three after it, put the current one at the back,
      and put the three back, in order, right after `target`. */
  function Splice(cups: seq<int>, target: int): seq<int>
    requires |cups| >= 4 && target in cups[4..] + [cups[0]]
  {
    var rest := cups[4..] + [cups[0]];
    var k := IndexOf(rest, target);
    rest[..k + 1] + cups[1..4] + rest[k + 1..]
  }

  /** The position in `cups` that position `j` of the spliced circle comes from, when the
      destination sits at position `4 + k`. */
  function Origin(j: int, k: int, n: int): int
  {
    if j <= k then (if 4 + j < n then 4 + j else 0)
    else if j <= k + 3 then j - k
    else if j < n - 1 then j + 1
    else 0
  }

  /** The spliced circle, position by position. */
  lemma SpliceAt(cups: seq<int>, target: int, k: nat, j: int)
    requires |cups| >= 4 && Distinct(cups) && k < |cups| - 3
    requires target == (cups[4..] + [cups[0]])[k]
    requires 0 <= j < |cups|
    ensures |Splice(cups, target)| == |cups|
    ensures 0 <= Origin(j, k, |cups|) < |cups|
    ensures Splice(cups, target)[j] == cups[Origin(j, k, |cups|)]
  {
    var rest := cups[4..] + [cups[0]];
    var k' := IndexOf(rest, target);
    if k' != k {
      DistinctRest(cups, k, k');
    }
  }

  lemma DistinctRest(cups: seq<int>, k: nat, k': nat)
    requires |cups| >= 4 && Distinct(cups)
    requires k < |cups| - 3 && k' < |cups| - 3 && k != k'
    ensures (cups[4..] + [cups[0]])[k] != (cups[4..] + [cups[0]])[k']
  {
    var rest := cups[4..] + [cups[0]];
    if k < |cups| - 4 && k' < |cups| - 4 {
      assert rest[k] == cups[4 + k] && rest[k'] == cups[4 + k'];
    } else if k < |cups| - 4 {
      assert rest[k] == cups[4 + k] && rest[k'] == cups[0];
    } else {
      assert rest[k] == cups[0] && rest[k'] == cups[4 + k'];
    }
  }

  /** A splice rearranges the circle: the same cups, still distinct. */
  lemma SplicePermutes(cups: seq<int>, target: int)
    requires |cups| >= 4 && Distinct(cups) && target in cups[4..] + [cups[0]]
    ensures multiset(Splice(cups, target)) == multiset(cups)
    ensures Distinct(Splice(cups, target))
  {
    SpliceSameCups(cups, target);
    var rest := cups[4..] + [cups[0]];
    var k := IndexOf(rest, target);
    var r := Splice(cups, target);
    forall i, j | 0 <= i < j < |r|
      ensures r[i] != r[j]
    {
      SpliceAt(cups, target, k, i);
      SpliceAt(cups, target, k, j);
    }
  }

  lemma SpliceSameCups(cups: seq<int>, target: int)
    requires |cups| >= 4 && target in cups[4..] + [cups[0]]
    ensures multiset(Splice(cups, target)) == multiset(cups)
  {
    var rest := cups[4..] + [cups[0]];
    var k := IndexOf(rest, target);
    var front, three, back := rest[..k + 1], cups[1..4], rest[k + 1..];
    assert multiset(Splice(cups, target)) == multiset(front) + multiset(three) + multiset(back) by {
      assert Splice(cups, target) == front + three + back;
    }
    assert multiset(rest) == multiset(front) + multiset(back) by {
      assert rest == front + back;
    }
    assert multiset(rest) == multiset(cups[4..]) + multiset([cups[0]]);
    assert multiset(cups) == multiset([cups[0]]) + multiset(three) + multiset(cups[4..]) by {
      assert cups == [cups[0]] + three + cups[4..];
    }
    Regroup(multiset(front), multiset(three), multiset(back), multiset(cups[4..]), multiset([cups[0]]));
  }

  lemma Regroup(front: multiset<int>, three: multiset<int>, back: multiset<int>,
                later: multiset<int>, first: multiset<int>)
    requires front + back == later + first
    ensures front + three + back == first + three + later
  {
    forall x
      ensures (front + three + back)[x] == (first + three + later)[x]
    {
      assert (front + back)[x] == (later + first)[x];
    }
  }

  /** One move: the destination is sought from `current - 1`, and the circle is spliced. */
  function Move(cups: seq<int>, known: set<int>, lo: int, hi: int): (r: seq<int>)
    requires |cups| >= 4 && Arranged(cups, known, lo, hi)
    ensures |r| == |cups| && Arranged(r, known, lo, hi)
    ensures multiset(r) == multiset(cups)
  {
    var target := Destined(cups, known, lo, hi);
    DestinedInRest(cups, known, lo, hi);
    SplicePermutes(cups, target);
    var r := Splice(cups, target);
    assert forall x :: x in r <==> x in multiset(r);
    Splice(cups, target)
  }

  /** The cup listed first is current, and the next three are picked up. */
  lemma Searching(cups: seq<int>, known: set<int>, lo: int, hi: int)
    requires |cups| >= 4 && Arranged(cups, known, lo, hi)
    ensures Searchable(cups[0], cups[1], cups[2], cups[3], known, lo, hi)
  {
    assert cups[0] in cups;
  }

  /** The destination of a move on `cups`. */
  function Destined(cups: seq<int>, known: set<int>, lo: int, hi: int): int
    requires |cups| >= 4 && Arranged(cups, known, lo, hi)
  {
    Searching(cups, known, lo, hi);
    Seek(cups[0] - 1, cups[0], cups[1], cups[2], cups[3], known, lo, hi)
  }

  /** The destination is one of the cups that were not picked up. */
  lemma DestinedInRest(cups: seq<int>, known: set<int>, lo: int, hi: int)
    requires |cups| >= 4 && Arranged(cups, known, lo, hi)
    ensures Destined(cups, known, lo, hi) in cups[4..] + [cups[0]]
  {
    Searching(cups, known, lo, hi);
    var t := Destined(cups, known, lo, hi);
    Destination(cups[0], cups[1], cups[2], cups[3], known, lo, hi);
    assert t in cups;
    var i := IndexOf(cups, t);
    if i != 0 {
      assert i >= 4;
      assert t == cups[4..][i - 4];
    }
  }

  /** `n` moves from `cups`. */
  function Play(cups: seq<int>, known: set<int>, lo: int, hi: int, n: nat): (r: seq<int>)
    requires n > 0 ==> |cups| >= 4
    requires Arranged(cups, known, lo, hi)
    ensures |r| == |cups| && Arranged(r, known, lo, hi)
  {
    if n == 0 then cups else Move(Play(cups, known, lo, hi, n - 1), known, lo, hi)
  }

  /** The labels after cup 1, clockwise. */
  function AfterOne(cups: seq<int>): seq<int>
    requires 1 in cups
  {
    var i := IndexOf(cups, 1);
    cups[i + 1..] + cups[..i]
  }

  /** The labels after cup 1 go round the circle once, starting after 1 and stopping
      before it. */
  lemma AfterOneOrder(cups: seq<int>)
    requires 1 in cups && Distinct(cups)
    ensures var i := IndexOf(cups, 1); var r := AfterOne(cups);
      |r| == |cups| - 1 && 1 !in r
      && forall j :: 0 <= j < |r| ==>
           r[j] == cups[if i + 1 + j < |cups| then i + 1 + j else i + 1 + j - |cups|]
  {
    var i := IndexOf(cups, 1);
    var r := AfterOne(cups);
    forall j | 0 <= j < |r|
      ensures r[j] == cups[if i + 1 + j < |cups| then i + 1 + j else i + 1 + j - |cups|]
    {
      if i + 1 + j >= |cups| {
        assert r[j] == cups[..i][j - (|cups| - i - 1)];
      }
    }
  }

  /** The labels written one after the other (Python's `"".join(map(str, ...))`). */
  function Digits(labels: seq<int>): string
  {
    if labels == [] then "" else Digits(labels[..|labels| - 1]) + Strings.IntToString(labels[|labels| - 1])
  }

  // ---------------------------------------------------------------------------
  // part1: the deque
  // ---------------------------------------------------------------------------

  /** Python's `min`. */
  function Min(s: seq<int>): (m: int)
    requires |s| >= 1
    ensures m in s && forall x :: x in s ==> m <= x
  {
    if |s| == 1 then s[0]
    else
      var m := Min(s[1..]);
      assert s == [s[0]] + s[1..];
      if s[0] < m then s[0] else m
  }

  /** Python's `max`. */
  function Max(s: seq<int>): (m: int)
    requires |s| >= 1
    ensures m in s && forall x :: x in s ==> x <= m
  {
    if |s| == 1 then s[0]
    else
      var m := Max(s[1..]);
      assert s == [s[0]] + s[1..];
      if s[0] > m then s[0] else m
  }

  /** The rules of part1: the known cups are the input's, between its least and largest. */
  lemma InputArranged(inp: seq<int>)
    requires |inp| >= 1 && Distinct(inp)
    ensures Arranged(inp, Known(inp), Min(inp), Max(inp))
  {
  }

  /** Three inserts at the same position leave the cups in the order a, b, c. */
  lemma InsertThree(rest: seq<int>, idx: nat, a: int, b: int, c: int)
    requires idx <= |rest|
    ensures var s1 := rest[..idx] + [c] + rest[idx..];
      var s2 := s1[..idx] + [b] + s1[idx..];
      s2[..idx] + [a] + s2[idx..] == rest[..idx] + [a, b, c] + rest[idx..]
  {
    var s1 := rest[..idx] + [c] + rest[idx..];
    assert s1[..idx] == rest[..idx] && s1[idx..] == [c] + rest[idx..];
    var s2 := s1[..idx] + [b] + s1[idx..];
    assert s2[..idx] == rest[..idx] && s2[idx..] == [b, c] + rest[idx..];
  }

  /** Re-inserting the picked-up cups after the destination completes a move. */
  lemma MoveSpliced(before: seq<int>, known: set<int>, lo: int, hi: int, target: int,
                    rest: seq<int>, idx: nat, after: seq<int>)
    requires |before| >= 4 && Arranged(before, known, lo, hi)
    requires target == Destined(before, known, lo, hi)
    requires rest == before[4..] + [before[0]]
    requires target in rest && idx == IndexOf(rest, target) + 1
    requires after == rest[..idx] + before[1..4] + rest[idx..]
    ensures after == Move(before, known, lo, hi)
  {
  }

  /** part1's destination search: count down from `current - 1`, jumping from below the
      smallest cup to the largest, until a known cup that was not picked up. */
  method FindTarget(current: int, a: int, b: int, c: int, knownCups: set<int>, minCup: int, maxCup: int)
    returns (target: int)
    requires Searchable(current, a, b, c, knownCups, minCup, maxCup)
    ensures target == Seek(current - 1, current, a, b, c, knownCups, minCup, maxCup)
  {
    target := current - 1;
    while target !in knownCups || target == a || target == b || target == c
      invariant minCup - 1 <= target <= maxCup
      invariant Seek(target, current, a, b, c, knownCups, minCup, maxCup)
             == Seek(current - 1, current, a, b, c, knownCups, minCup, maxCup)
      decreases maxCup - minCup + 1 - Rank(target, current, minCup, maxCup), if target < minCup then 1 else 0
    {
      SeekStep(target, current, a, b, c, knownCups, minCup, maxCup);
      target := target - 1;
      if target < minCup {
        target := maxCup;
      }
    }
  }

  /** The body of part1's loop: one move on the deque listed from the current cup. */
  method MoveCups(cups: seq<int>, knownCups: set<int>, minCup: int, maxCup: int) returns (moved: seq<int>)
    requires |cups| >= 4 && Arranged(cups, knownCups, minCup, maxCup)
    ensures moved == Move(cups, knownCups, minCup, maxCup)
  {
    var current, a, b, c := cups[0], cups[1], cups[2], cups[3];
    var rest := cups[4..] + [current];
    Searching(cups, knownCups, minCup, maxCup);
    var target := FindTarget(current, a, b, c, knownCups, minCup, maxCup);
    DestinedInRest(cups, knownCups, minCup, maxCup);
    var idx := IndexOf(rest, target) + 1;
    moved := rest[..idx] + [c] + rest[idx..];
    moved := moved[..idx] + [b] + moved[idx..];
    moved := moved[..idx] + [a] + moved[idx..];
    InsertThree(rest, idx, a, b, c);
    assert cups[1..4] == [a, b, c];
    MoveSpliced(cups, knownCups, minCup, maxCup, target, rest, idx, moved);
  }

  /** part1 with `moves` moves (the source plays 100): the deque, listed from the
      current cup, goes through `Play`, and the answer is the labels after cup 1. */
  method Part1(inp: seq<int>, moves: nat) returns (s: string)
    requires moves > 0 ==> |inp| >= 4
    requires |inp| >= 1 && Distinct(inp) && 1 in inp
    ensures s == Digits(AfterOne(Play(inp, Known(inp), Min(inp), Max(inp), moves)))
  {
    var cups := inp;
    var minCup, maxCup := Min(inp), Max(inp);
    var knownCups := Known(inp);
    InputArranged(inp);
    for i := 0 to moves
      invariant cups == Play(inp, knownCups, minCup, maxCup, i)
    {
      cups := MoveCups(cups, knownCups, minCup, maxCup);
    }
    var idx := IndexOf(cups, 1);
    s := Digits(cups[idx + 1..] + cups[..idx]);
  }

  // ---------------------------------------------------------------------------
  // part2: the successor dictionary
  // ---------------------------------------------------------------------------

  /** Python's `list(range(lo, hi))`. */
  function Range(lo: int, hi: int): (r: seq<int>)
    ensures |r| == if lo <= hi then hi - lo else 0
    ensures forall j :: 0 <= j < |r| ==> r[j] == lo + j
    decreases hi - lo
  {
    if lo >= hi then [] else [lo] + Range(lo + 1, hi)
  }

  /** The dictionary `{a: b for a, b in zip(cups, cups[1:])}`: each cup maps to the next
      one in the list (a later pair wins for a repeated key). */
  function Links(cups: seq<int>): map<int, int>
  {
    if |cups| < 2 then map[]
    else Links(cups[..|cups| - 1])[cups[|cups| - 2] := cups[|cups| - 1]]
  }

  /** The position after `i` on a circle of `n` positions. */
  function Succ(i: int, n: int): int
  {
    if i + 1 < n then i + 1 else 0
  }

  /** The successor dictionary `m` links the circle `order`: every cup maps to the one after
      it, the last to the first. */
  predicate Linked(m: map<int, int>, order: seq<int>)
  {
    (forall i :: 0 <= i < |order| ==> order[i] in m)
    && forall i {:trigger m[order[i]]} :: 0 <= i < |order| ==> m[order[i]] == order[Succ(i, |order|)]
  }

  /** For distinct cups, the zipped dictionary maps each cup but the last to the next. */
  lemma {:induction false} LinksNext(cups: seq<int>)
    requires Distinct(cups)
    ensures forall i :: 0 <= i < |cups| - 1 ==> cups[i] in Links(cups) && Links(cups)[cups[i]] == cups[i + 1]
  {
    if |cups| >= 2 {
      var init := cups[..|cups| - 1];
      LinksNext(init);
      assert forall i :: 0 <= i < |init| ==> init[i] == cups[i];
    }
  }

  /** The dictionary part2 builds, with the last cup mapped back to the first, links the
      whole circle. */
  lemma CircleLinked(cups: seq<int>)
    requires |cups| >= 1 && Distinct(cups)
    ensures Linked(Links(cups)[cups[|cups| - 1] := cups[0]], cups)
  {
    LinksNext(cups);
    var m := Links(cups)[cups[|cups| - 1] := cups[0]];
    forall i | 0 <= i < |cups|
      ensures cups[i] in m && m[cups[i]] == cups[Succ(i, |cups|)]
    {
    }
  }

  /** The three writes of one part2 move, on a dictionary linking `order` whose destination
      is not the current cup but the cup at position `4 + k`, link the spliced circle. */
  lemma SpliceLinked(m: map<int, int>, order: seq<int>, k: nat)
    requires |order| >= 5 && Distinct(order) && Linked(m, order)
    requires k < |order| - 4
    ensures order[4 + k] in order[4..] + [order[0]]
    ensures Linked(m[order[3] := m[order[4 + k]]][order[0] := order[4]][order[4 + k] := order[1]],
                   Splice(order, order[4 + k]))
  {
    var n := |order|;
    var target := order[4 + k];
    var rest := order[4..] + [order[0]];
    assert rest[k] == target;
    var k' := IndexOf(rest, target);
    if k' != k {
      DistinctRest(order, k, k');
    }
    var m' := m[order[3] := m[target]][order[0] := order[4]][target := order[1]];
    var r := Splice(order, target);
    forall j | 0 <= j < n
      ensures r[j] in m' && m'[r[j]] == r[Succ(j, n)]
    {
      LinkAt(m, order, k, j);
      SpliceAt(order, target, k, j);
      SpliceAt(order, target, k, Succ(j, n));
    }
  }

  /** What the three writes leave at a cup other than the three they write. */
  lemma UpdatedOther(m: map<int, int>, order: seq<int>, k: nat, p: int)
    requires |order| >= 5 && Distinct(order) && Linked(m, order)
    requires k < |order| - 4 && 0 <= p < |order| && p != 0 && p != 3 && p != 4 + k
    ensures var m' := m[order[3] := m[order[4 + k]]][order[0] := order[4]][order[4 + k] := order[1]];
      order[p] in m' && m'[order[p]] == order[Succ(p, |order|)]
  {
    assert m[order[p]] == order[Succ(p, |order|)];
  }

  /** Successive positions of a splice, by cases on where they come from. */
  lemma LinkAt(m: map<int, int>, order: seq<int>, k: nat, j: int)
    requires |order| >= 5 && Distinct(order) && Linked(m, order)
    requires k < |order| - 4
    requires 0 <= j < |order|
    ensures 0 <= Origin(j, k, |order|) < |order|
    ensures 0 <= Origin(Succ(j, |order|), k, |order|) < |order|
    ensures var m' := m[order[3] := m[order[4 + k]]][order[0] := order[4]][order[4 + k] := order[1]];
      order[Origin(j, k, |order|)] in m'
      && m'[order[Origin(j, k, |order|)]] == order[Origin(Succ(j, |order|), k, |order|)]
  {
    var n := |order|;
    var m' := m[order[3] := m[order[4 + k]]][order[0] := order[4]][order[4 + k] := order[1]];
    var p := Origin(j, k, n);
    if j < k {
      assert p == 4 + j && Origin(j + 1, k, n) == 5 + j;
      UpdatedOther(m, order, k, p);
    } else if j == k {
      assert p == 4 + k && Origin(j + 1, k, n) == 1;
    } else if j <= k + 2 {
      assert p == j - k && Origin(j + 1, k, n) == p + 1;
      UpdatedOther(m, order, k, p);
    } else if j == k + 3 {
      assert p == 3 && m'[order[3]] == m[order[4 + k]];
      assert m[order[4 + k]] == order[Succ(4 + k, n)];
    } else if j < n - 1 {
      assert p == j + 1;
      UpdatedOther(m, order, k, p);
    } else {
      assert p == 0 && Origin(0, k, n) == 4;
    }
  }

  /** The two labels after cup 1 are what the dictionary gives for 1 and for its successor. */
  lemma AfterOneLinked(m: map<int, int>, order: seq<int>)
    requires Linked(m, order) && Distinct(order) && 1 in order && |order| >= 3
    ensures 1 in m && m[1] in m && |AfterOne(order)| >= 2
    ensures m[1] == AfterOne(order)[0] && m[m[1]] == AfterOne(order)[1]
  {
    AfterOneOrder(order);
    var i := IndexOf(order, 1);
    assert m[order[i]] == order[Succ(i, |order|)];
    var i' := Succ(i, |order|);
    assert m[order[i']] == order[Succ(i', |order|)];
  }

  /** The cups are labelled 1 to |inp|, each once (so that every label the search lands on
      is a key of the dictionary, and cup 1 exists). */
  predicate Numbered(inp: seq<int>)
  {
    |inp| >= 1 && Distinct(inp)
    && (forall x :: x in inp ==> 1 <= x <= |inp|)
    && (forall l :: 1 <= l <= |inp| ==> l in inp)
  }

  /** part2's circle: the input, then the labels from one above its largest up to `top`. */
  function Circle(inp: seq<int>, top: int): seq<int>
    requires |inp| >= 1
  {
    inp + Range(Max(inp) + 1, top + 1)
  }

  /** part2's circle holds every label from 1 to `top` once. */
  lemma CircleArranged(inp: seq<int>, top: int)
    requires Numbered(inp) && top >= |inp|
    ensures Min(inp) == 1 && Max(inp) == |inp|
    ensures |Circle(inp, top)| == top && Circle(inp, top)[0] == inp[0]
    ensures Arranged(Circle(inp, top), Known(Circle(inp, top)), 1, top)
    ensures forall l :: l in Known(Circle(inp, top)) <==> 1 <= l <= top
  {
    var cups := Circle(inp, top);
    var tail := Range(|inp| + 1, top + 1);
    assert Min(inp) in inp && Max(inp) in inp && 1 in inp && |inp| in inp;
    assert cups == inp + tail;
    forall l | 1 <= l <= top
      ensures l in cups
    {
      if l <= |inp| {
        assert l in inp;
      } else {
        assert tail[l - |inp| - 1] == l;
      }
    }
    forall i, j | 0 <= i < j < |cups|
      ensures cups[i] != cups[j]
    {
      if j < |inp| {
      } else if i < |inp| {
        assert cups[i] in inp;
      }
    }
  }

  /** The answer to part2 with `top` cups and `moves` moves (1,000,000 and 10,000,000 in the
      source): the product of the two labels after cup 1 once the moves are played. */
  function Part2Answer(inp: seq<int>, top: int, moves: nat): int
    requires Numbered(inp) && top >= |inp| && top >= 5
  {
    CircleArranged(inp, top);
    var cups := Circle(inp, top);
    var final := Play(cups, Known(cups), 1, top, moves);
    assert 1 in Known(cups);
    AfterOneOrder(final);
    AfterOne(final)[0] * AfterOne(final)[1]
  }

  /** part2's destination search: count down from `current - 1`, jumping from below the
      smallest cup to `top`, past the three picked-up cups. */
  method FindTargetBelow(current: int, a: int, b: int, c: int, minCup: int, top: int, ghost known: set<int>)
    returns (target: int)
    requires Searchable(current, a, b, c, known, minCup, top)
    requires forall l :: l in known <==> minCup <= l <= top
    ensures target == Seek(current - 1, current, a, b, c, known, minCup, top)
  {
    target := current - 1;
    while target < minCup || target == a || target == b || target == c
      invariant minCup - 1 <= target <= top
      invariant Seek(target, current, a, b, c, known, minCup, top)
             == Seek(current - 1, current, a, b, c, known, minCup, top)
      decreases top - minCup + 1 - Rank(target, current, minCup, top), if target < minCup then 1 else 0
    {
      SeekStep(target, current, a, b, c, known, minCup, top);
      target := target - 1;
      if target < minCup {
        target := top;
      }
    }
  }

  /** The body of part2's loop: read the three cups after `current` and the one after them,
      find the destination, and rewrite three entries. On a dictionary linking the circle
      listed from `current`, the result links the circle after one `Move`, and the new
      current cup is the first of that circle. */
  method MoveLinks(m: map<int, int>, current: int, minCup: int, top: int,
                   ghost order: seq<int>, ghost known: set<int>)
    returns (m': map<int, int>, next: int)
    requires |order| >= 5 && Arranged(order, known, minCup, top) && Linked(m, order)
    requires current == order[0]
    requires forall l :: l in known <==> minCup <= l <= top
    ensures Linked(m', Move(order, known, minCup, top))
    ensures next == Move(order, known, minCup, top)[0]
  {
    var n := |order|;
    assert m[order[0]] == order[1] && m[order[1]] == order[2];
    assert m[order[2]] == order[3] && m[order[3]] == order[4];
    var a := m[current];
    var b := m[a];
    var c := m[b];
    var after := m[c];
    Searching(order, known, minCup, top);
    var target := FindTargetBelow(current, a, b, c, minCup, top, known);
    assert after in known && order[4] in order;
    SeekNotCurrent(current, a, b, c, known, minCup, top, after);
    DestinedInRest(order, known, minCup, top);
    assert target in order[4..];
    var k := IndexOf(order[4..], target);
    assert order[4 + k] == target;
    m' := m[c := m[target]];
    m' := m'[current := after];
    m' := m'[target := a];
    next := after;
    SpliceLinked(m, order, k);
    SpliceAt(order, target, k, 0);
  }

  /** part2 with `top` cups and `moves` moves: the dictionary always links the circle that
      part1's moves would produce, so the answer is `Part2Answer`. */
  method Part2(inp: seq<int>, top: int, moves: nat) returns (r: int)
    requires Numbered(inp) && top >= |inp| && top >= 5
    ensures r == Part2Answer(inp, top, moves)
  {
    var minCup, maxCup := Min(inp), Max(inp);
    var cups := inp + Range(maxCup + 1, top + 1);
    var m := Links(cups);
    m := m[cups[|cups| - 1] := cups[0]];
    var current := cups[0];
    CircleArranged(inp, top);
    CircleLinked(cups);
    ghost var known := Known(cups);
    ghost var order := cups;
    for i := 0 to moves
      invariant order == Play(cups, known, 1, top, i)
      invariant Linked(m, order) && current == order[0]
    {
      m, current := MoveLinks(m, current, minCup, top, order, known);
      order := Move(order, known, 1, top);
    }
    assert 1 in known;
    AfterOneLinked(m, order);
    var a := m[1];
    var b := m[a];
    r := a * b;
  }
}
