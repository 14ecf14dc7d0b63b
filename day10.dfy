/** Day 10: a chain of joltage adaptors from the outlet (rated 0) to the device (rated 3
    above the highest adaptor), each step up 1 to 3 jolts. part1 sorts the adaptors in
    place and multiplies the number of 1-jolt steps by the number of 3-jolt steps; part2
    sorts them and counts arrangements with the recursive `try_path`. */
module Day10 {
  import opened Basics
  import opened Sorting

  // ---------------------------------------------------------------------------
  // part1
  // ---------------------------------------------------------------------------

  /** The steps of the chain through every adaptor of the sorted list `s`: from the outlet
      to `s[0]`, between consecutive adaptors, and the final 3 up to the device. */
  function Diffs(s: seq<int>): (d: seq<int>)
    requires |s| >= 1
    ensures |d| == |s| + 1
  {
    [s[0]] + Steps(s) + [3]
  }

  /** The differences of consecutive elements. */
  function Steps(s: seq<int>): (d: seq<int>)
    requires |s| >= 1
    ensures |d| == |s| - 1
  {
    seq(|s| - 1, i requires 0 <= i < |s| - 1 => s[i + 1] - s[i])
  }

  /** The steps add up to the rating of the device: the last adaptor plus 3. */
  lemma DiffsSum(s: seq<int>)
    requires |s| >= 1
    ensures Sum(Diffs(s)) == s[|s| - 1] + 3
  {
    SumAppend([s[0]] + Steps(s), [3]);
    SumAppend([s[0]], Steps(s));
    StepsSum(s);
  }

  lemma {:induction false} StepsSum(s: seq<int>)
    requires |s| >= 1
    ensures Sum(Steps(s)) == s[|s| - 1] - s[0]
  {
    if |s| > 1 {
      var init := s[..|s| - 1];
      StepsSum(init);
      assert Steps(s) == Steps(init) + [s[|s| - 1] - s[|s| - 2]];
      SumAppend(Steps(init), [s[|s| - 1] - s[|s| - 2]]);
    }
  }

  /** In a sorted list every step is non-negative, and the step out of the outlet is the
      first adaptor's rating. */
  lemma SortedSteps(s: seq<int>)
    requires |s| >= 1 && Sorted(s)
    ensures forall i :: 1 <= i < |s| ==> Diffs(s)[i] >= 0
    ensures Diffs(s)[0] == s[0] && Diffs(s)[|s|] == 3
  {
    assert forall i :: 1 <= i < |s| ==> Diffs(s)[i] == Steps(s)[i - 1];
  }

  /** When every step of the chain is 1, 2 or 3 jolts (the puzzle's promise), the 1-, 2-
      and 3-jolt steps account for all `|s| + 1` of them. */
  lemma {:induction false} CountsPartition(d: seq<int>)
    requires forall i :: 0 <= i < |d| ==> 1 <= d[i] <= 3
    ensures Count(d, 1) + Count(d, 2) + Count(d, 3) == |d|
  {
    if d != [] {
      assert forall i :: 0 <= i < |d| - 1 ==> d[1..][i] == d[i + 1];
      CountsPartition(d[1..]);
      assert Count(d, 1) == (if d[0] == 1 then 1 else 0) + Count(d[1..], 1);
      assert Count(d, 2) == (if d[0] == 2 then 1 else 0) + Count(d[1..], 2);
      assert Count(d, 3) == (if d[0] == 3 then 1 else 0) + Count(d[1..], 3);
    }
  }

  /** part1: sorts the caller's list in place; an empty list makes `adaptors[0]` raise. */
  method Part1(adaptors: array<int>) returns (r: Option<int>)
    modifies adaptors
    ensures Sorted(adaptors[..]) && multiset(adaptors[..]) == multiset(old(adaptors[..]))
    ensures adaptors.Length == 0 ==> r == None
    ensures adaptors.Length > 0 ==>
      r == Some(Count(Diffs(adaptors[..]), 1) * Count(Diffs(adaptors[..]), 3))
  {
    Sort(adaptors);
    if adaptors.Length == 0 {
      return None;
    }
    var diffs := DiffsOf(adaptors);
    var is1: int := Count(diffs, 1);
    var is3: int := Count(diffs, 3);
    r := Some(is1 * is3);
  }

  /** The loop of part1 that builds the list of steps from the sorted adaptors. */
  method DiffsOf(a: array<int>) returns (diffs: seq<int>)
    requires a.Length > 0
    ensures diffs == Diffs(a[..])
  {
    ghost var s := a[..];
    diffs := [a[0]];
    for i := 0 to a.Length - 1
      invariant diffs == [s[0]] + Steps(s)[..i]
    {
      assert Steps(s)[..i + 1] == Steps(s)[..i] + [s[i + 1] - s[i]];
      diffs := diffs + [a[i + 1] - a[i]];
    }
    assert Steps(s)[..a.Length - 1] == Steps(s);
    diffs := diffs + [3];
  }

  // ---------------------------------------------------------------------------
  // part2
  // ---------------------------------------------------------------------------

  /** `try_path(current, adaptors, idx)`, as written: at the end of the list it counts one
      arrangement whatever adaptor was taken last; an adaptor more than 3 above the current
      one ends the search; otherwise it adds taking the adaptor to skipping it. */
  function TryPath(current: int, adaptors: seq<int>, idx: nat): nat
    requires idx <= |adaptors|
    decreases |adaptors| - idx
  {
    if idx == |adaptors| then 1
    else if adaptors[idx] - current > 3 then 0
    else TryPath(adaptors[idx], adaptors, idx + 1) + TryPath(current, adaptors, idx + 1)
  }

  /** part2: sorts the caller's list in place and counts with `try_path` from the outlet:
      the number of ways to take or skip each sorted adaptor such that every adaptor is at
      most 3 above the last one taken before it. */
  method Part2(adaptors: array<int>) returns (r: nat)
    modifies adaptors
    ensures Sorted(adaptors[..]) && multiset(adaptors[..]) == multiset(old(adaptors[..]))
    ensures r == TryPath(0, adaptors[..], 0)
    ensures r == CountChoices(0, adaptors[..], Choices(adaptors.Length), false)
  {
    Sort(adaptors);
    r := TryPath(0, adaptors[..], 0);
    TryPathCounts(0, adaptors[..], 0);
    assert adaptors[..][0..] == adaptors[..];
  }

  // ---------------------------------------------------------------------------
  // What try_path counts: choices of adaptors
  // ---------------------------------------------------------------------------

  /** A choice over the adaptors `v` says for each one whether it is taken (true) or
      skipped (false). This is the rating of the last adaptor taken among the first `k`,
      or `current` when none of them was. */
  function LastTaken(current: int, v: seq<int>, ch: seq<bool>, k: nat): int
    requires k <= |v| == |ch|
  {
    if k == 0 then current else if ch[k - 1] then v[k - 1] else LastTaken(current, v, ch, k - 1)
  }

  /** The condition `try_path` checks along a choice: every adaptor, taken or skipped, is
      at most 3 above the last one taken before it. */
  predicate Admissible(current: int, v: seq<int>, ch: seq<bool>)
  {
    |ch| == |v| && forall k :: 0 <= k < |v| ==> v[k] - LastTaken(current, v, ch, k) <= 3
  }

  /** An admissible choice that, when `reach` holds, also takes the last adaptor. */
  predicate Counted(current: int, v: seq<int>, ch: seq<bool>, reach: bool)
  {
    Admissible(current, v, ch) && (reach ==> ch == [] || ch[|ch| - 1])
  }

  /** `b` put in front of every choice. */
  function Prepend(b: bool, chs: seq<seq<bool>>): seq<seq<bool>>
  {
    seq(|chs|, i requires 0 <= i < |chs| => [b] + chs[i])
  }

  /** The choices over `n` adaptors. */
  function Choices(n: nat): (r: seq<seq<bool>>)
    ensures forall i :: 0 <= i < |r| ==> |r[i]| == n
  {
    if n == 0 then [[]] else Prepend(true, Choices(n - 1)) + Prepend(false, Choices(n - 1))
  }

  /** Every choice over `n` adaptors is listed ... */
  lemma {:induction false} ChoicesComplete(ch: seq<bool>)
    ensures ch in Choices(|ch|)
  {
    if ch != [] {
      var rest := ch[1..];
      ChoicesComplete(rest);
      var c := Choices(|rest|);
      var i :| 0 <= i < |c| && c[i] == rest;
      assert ch == [ch[0]] + rest;
      var r := Choices(|ch|);
      assert r == Prepend(true, c) + Prepend(false, c);
      if ch[0] {
        assert r[i] == Prepend(true, c)[i] == ch;
      } else {
        assert r[|c| + i] == Prepend(false, c)[i] == ch;
      }
    }
  }

  /** ... and only once. */
  lemma {:induction false} ChoicesDistinct(n: nat)
    ensures Distinct(Choices(n))
  {
    if n > 0 {
      ChoicesDistinct(n - 1);
      var c := Choices(n - 1);
      var r := Choices(n);
      forall i, j | 0 <= i < j < |r|
        ensures r[i] != r[j]
      {
        if j < |c| {
          assert r[i][1..] == c[i] && r[j][1..] == c[j];
        } else if i >= |c| {
          assert r[i][1..] == c[i - |c|] && r[j][1..] == c[j - |c|];
        } else {
          assert r[i][0] && !r[j][0];
        }
      }
    }
  }

  /** How many of the choices `chs` are counted. */
  function CountChoices(current: int, v: seq<int>, chs: seq<seq<bool>>, reach: bool): (n: nat)
    ensures n <= |chs|
  {
    if chs == [] then 0
    else (if Counted(current, v, chs[0], reach) then 1 else 0) + CountChoices(current, v, chs[1..], reach)
  }

  /** Counting over two lists of choices adds up. */
  lemma {:induction false} CountChoicesAppend(current: int, v: seq<int>, a: seq<seq<bool>>, b: seq<seq<bool>>,
                                              reach: bool)
    ensures CountChoices(current, v, a + b, reach)
         == CountChoices(current, v, a, reach) + CountChoices(current, v, b, reach)
  {
    if a == [] {
      assert a + b == b;
    } else {
      assert (a + b)[0] == a[0] && (a + b)[1..] == a[1..] + b;
      CountChoicesAppend(current, v, a[1..], b, reach);
    }
  }

  /** Taking or skipping the first adaptor moves the last rating taken, or keeps it. */
  lemma {:induction false} LastTakenCons(current: int, v: seq<int>, b: bool, ch: seq<bool>, k: nat)
    requires |v| >= 1 && |ch| == |v| - 1 && k < |v|
    ensures LastTaken(current, v, [b] + ch, k + 1) == LastTaken(if b then v[0] else current, v[1..], ch, k)
  {
    if k > 0 {
      LastTakenCons(current, v, b, ch, k - 1);
    }
  }

  /** A choice is admissible when the first adaptor is within 3 of `current` and the rest
      of the choice is admissible from the rating it leaves. */
  lemma AdmissibleCons(current: int, v: seq<int>, b: bool, ch: seq<bool>)
    requires |v| >= 1 && |ch| == |v| - 1
    ensures Admissible(current, v, [b] + ch)
        <==> v[0] - current <= 3 && Admissible(if b then v[0] else current, v[1..], ch)
  {
    var next := if b then v[0] else current;
    forall k | 0 <= k < |v| - 1
      ensures LastTaken(current, v, [b] + ch, k + 1) == LastTaken(next, v[1..], ch, k)
    {
      LastTakenCons(current, v, b, ch, k);
    }
    if Admissible(current, v, [b] + ch) {
      forall k | 0 <= k < |v| - 1
        ensures v[1..][k] - LastTaken(next, v[1..], ch, k) <= 3
      {
        assert v[k + 1] - LastTaken(current, v, [b] + ch, k + 1) <= 3;
      }
    }
    if v[0] - current <= 3 && Admissible(next, v[1..], ch) {
      forall k | 0 <= k < |v|
        ensures v[k] - LastTaken(current, v, [b] + ch, k) <= 3
      {
        if k > 0 {
          assert v[1..][k - 1] - LastTaken(next, v[1..], ch, k - 1) <= 3;
        }
      }
    }
  }

  /** The choices that all take (or all skip) the first adaptor count as the choices over
      the rest from the rating that leaves. */
  lemma {:induction false} CountPrepend(current: int, v: seq<int>, b: bool, chs: seq<seq<bool>>, reach: bool)
    requires |v| >= 1 && forall i :: 0 <= i < |chs| ==> |chs[i]| == |v| - 1
    ensures CountChoices(current, v, Prepend(b, chs), reach)
         == (if v[0] - current > 3 || (reach && |v| == 1 && !b) then 0
             else CountChoices(if b then v[0] else current, v[1..], chs, reach))
  {
    if chs != [] {
      assert Prepend(b, chs)[1..] == Prepend(b, chs[1..]);
      CountPrepend(current, v, b, chs[1..], reach);
      AdmissibleCons(current, v, b, chs[0]);
      var ch := [b] + chs[0];
      assert ch[|ch| - 1] == if chs[0] == [] then b else chs[0][|chs[0]| - 1];
    }
  }

  /** The two halves of the choices over `v`: those that take its first adaptor and those
      that skip it. */
  lemma CountSplit(current: int, v: seq<int>, reach: bool)
    requires |v| >= 1
    ensures CountChoices(current, v, Choices(|v|), reach)
         == (if v[0] - current > 3 then 0
             else
               CountChoices(v[0], v[1..], Choices(|v| - 1), reach)
               + (if reach && |v| == 1 then 0 else CountChoices(current, v[1..], Choices(|v| - 1), reach)))
  {
    var c := Choices(|v| - 1);
    assert Choices(|v|) == Prepend(true, c) + Prepend(false, c);
    CountChoicesAppend(current, v, Prepend(true, c), Prepend(false, c), reach);
    CountPrepend(current, v, true, c, reach);
    CountPrepend(current, v, false, c, reach);
  }

  /** With nothing left, the one empty choice is counted. */
  lemma CountNone(current: int, reach: bool)
    ensures CountChoices(current, [], Choices(0), reach) == 1
  {
    assert Counted(current, [], [], reach);
  }

  /** `try_path(current, adaptors, idx)` is the number of admissible choices over the
      adaptors from `idx` on, whatever their order. */
  lemma {:induction false} TryPathCounts(current: int, adaptors: seq<int>, idx: nat)
    requires idx <= |adaptors|
    ensures TryPath(current, adaptors, idx)
         == CountChoices(current, adaptors[idx..], Choices(|adaptors| - idx), false)
    decreases |adaptors| - idx, 1
  {
    if idx == |adaptors| {
      CountNone(current, false);
    } else if idx + 1 == |adaptors| {
      TryPathCountsLast(current, adaptors);
    } else {
      TryPathCountsStep(current, adaptors, idx);
    }
  }

  /** The last adaptor alone: taking and skipping it are both counted if it is within 3
      jolts. */
  lemma TryPathCountsLast(current: int, adaptors: seq<int>)
    requires |adaptors| >= 1
    ensures TryPath(current, adaptors, |adaptors| - 1)
         == CountChoices(current, adaptors[|adaptors| - 1..], Choices(1), false)
  {
    var v := adaptors[|adaptors| - 1..];
    assert v[1..] == [];
    CountSplit(current, v, false);
    CountNone(v[0], false);
    CountNone(current, false);
  }

  /** An adaptor before the last: the choices that take it and those that skip it. */
  lemma {:induction false} TryPathCountsStep(current: int, adaptors: seq<int>, idx: nat)
    requires idx + 1 < |adaptors|
    ensures TryPath(current, adaptors, idx)
         == CountChoices(current, adaptors[idx..], Choices(|adaptors| - idx), false)
    decreases |adaptors| - idx, 0
  {
    var v := adaptors[idx..];
    assert |v| == |adaptors| - idx && v[0] == adaptors[idx] && v[1..] == adaptors[idx + 1..];
    CountSplit(current, v, false);
    TryPathCounts(adaptors[idx], adaptors, idx + 1);
    TryPathCounts(current, adaptors, idx + 1);
  }

  /** The corrected count is the number of admissible choices that take the last
      adaptor. */
  lemma {:induction false} ArrangementsCount(current: int, adaptors: seq<int>, idx: nat)
    requires idx <= |adaptors|
    ensures Arrangements(current, adaptors, idx)
         == CountChoices(current, adaptors[idx..], Choices(|adaptors| - idx), true)
    decreases |adaptors| - idx, 1
  {
    if idx == |adaptors| {
      CountNone(current, true);
    } else if idx + 1 == |adaptors| {
      ArrangementsCountLast(current, adaptors);
    } else {
      ArrangementsCountStep(current, adaptors, idx);
    }
  }

  /** The last adaptor alone: one choice (take it) if it is within 3 jolts, none otherwise. */
  lemma ArrangementsCountLast(current: int, adaptors: seq<int>)
    requires |adaptors| >= 1
    ensures Arrangements(current, adaptors, |adaptors| - 1)
         == CountChoices(current, adaptors[|adaptors| - 1..], Choices(1), true)
  {
    var v := adaptors[|adaptors| - 1..];
    assert v[1..] == [];
    CountSplit(current, v, true);
    CountNone(v[0], true);
  }

  /** An adaptor before the last: the choices that take it and those that skip it. */
  lemma {:induction false} ArrangementsCountStep(current: int, adaptors: seq<int>, idx: nat)
    requires idx + 1 < |adaptors|
    ensures Arrangements(current, adaptors, idx)
         == CountChoices(current, adaptors[idx..], Choices(|adaptors| - idx), true)
    decreases |adaptors| - idx, 0
  {
    var v := adaptors[idx..];
    assert |v| == |adaptors| - idx && v[0] == adaptors[idx] && v[1..] == adaptors[idx + 1..];
    CountSplit(current, v, true);
    ArrangementsCount(adaptors[idx], adaptors, idx + 1);
    ArrangementsCount(current, adaptors, idx + 1);
  }

  /** `try_path` never counts fewer than the corrected count, on any list. */
  lemma {:induction false} ArrangementsAtMost(current: int, adaptors: seq<int>, idx: nat)
    requires idx <= |adaptors|
    ensures Arrangements(current, adaptors, idx) <= TryPath(current, adaptors, idx)
    decreases |adaptors| - idx
  {
    if idx < |adaptors| && adaptors[idx] - current <= 3 {
      ArrangementsAtMost(adaptors[idx], adaptors, idx + 1);
      if idx + 1 < |adaptors| {
        ArrangementsAtMost(current, adaptors, idx + 1);
      }
    }
  }

  /** The device is rated 3 above the highest adaptor, so a chain must take the highest
      adaptor last; `TryPath` also counts chains that stop earlier, within 3 of it. With
      adaptors 1, 2, 3 it counts all 8 subsets, while only the 4 that take 3 reach the
      device. */
  lemma TryPathOvercounts()
    ensures TryPath(0, [1, 2, 3], 0) == 8
    ensures Arrangements(0, [1, 2, 3], 0) == 4
  {
  }

  /** The intended count: as `try_path`, but the last adaptor cannot be skipped. */
  function Arrangements(current: int, adaptors: seq<int>, idx: nat): nat
    requires idx <= |adaptors|
    decreases |adaptors| - idx
  {
    if idx == |adaptors| then 1
    else if adaptors[idx] - current > 3 then 0
    else
      Arrangements(adaptors[idx], adaptors, idx + 1)
      + (if idx + 1 < |adaptors| then Arrangements(current, adaptors, idx + 1) else 0)
  }

  /** Chains from `current` through the adaptors from `idx` on that end with the last
      adaptor: the next adaptor may be any one ahead within 3 jolts. */
  function Chains(current: int, adaptors: seq<int>, idx: nat): nat
    requires idx <= |adaptors|
    decreases |adaptors| - idx, 1
  {
    if idx == |adaptors| then 1 else NextChoices(current, adaptors, idx, idx)
  }

  /** The chains from `current` whose next adaptor is at `j` or later. */
  function NextChoices(current: int, adaptors: seq<int>, idx: nat, j: nat): nat
    requires idx <= j <= |adaptors|
    decreases |adaptors| - idx, 0, |adaptors| - j
  {
    if j == |adaptors| then 0
    else
      (if adaptors[j] - current <= 3 then Chains(adaptors[j], adaptors, j + 1) else 0)
      + NextChoices(current, adaptors, idx, j + 1)
  }

  /** `idx` only bounds the recursion of `NextChoices`; its value does not matter. */
  lemma {:induction false} NextChoicesFrom(current: int, adaptors: seq<int>, i1: nat, i2: nat, j: nat)
    requires i1 <= j <= |adaptors| && i2 <= j
    ensures NextChoices(current, adaptors, i1, j) == NextChoices(current, adaptors, i2, j)
    decreases |adaptors| - j
  {
    if j < |adaptors| {
      NextChoicesFrom(current, adaptors, i1, i2, j + 1);
    }
  }

  /** In a sorted list nothing from an adaptor more than 3 above `current` on can come
      next. */
  lemma {:induction false} NextChoicesTooHigh(current: int, adaptors: seq<int>, idx: nat, j: nat)
    requires idx <= j <= |adaptors| && Sorted(adaptors)
    requires j < |adaptors| ==> adaptors[j] - current > 3
    ensures NextChoices(current, adaptors, idx, j) == 0
    decreases |adaptors| - j
  {
    if j < |adaptors| {
      NextChoicesTooHigh(current, adaptors, idx, j + 1);
    }
  }

  /** On a sorted list the corrected count is the number of chains that reach the
      device. */
  lemma {:induction false} ArrangementsAreChains(current: int, adaptors: seq<int>, idx: nat)
    requires idx <= |adaptors| && Sorted(adaptors)
    ensures Arrangements(current, adaptors, idx) == Chains(current, adaptors, idx)
    decreases |adaptors| - idx
  {
    if idx < |adaptors| {
      if adaptors[idx] - current > 3 {
        NextChoicesTooHigh(current, adaptors, idx, idx);
      } else {
        ArrangementsAreChains(adaptors[idx], adaptors, idx + 1);
        assert Chains(current, adaptors, idx)
            == Chains(adaptors[idx], adaptors, idx + 1) + NextChoices(current, adaptors, idx, idx + 1);
        if idx + 1 < |adaptors| {
          ArrangementsAreChains(current, adaptors, idx + 1);
          NextChoicesFrom(current, adaptors, idx, idx + 1, idx + 1);
          assert Chains(current, adaptors, idx + 1) == NextChoices(current, adaptors, idx + 1, idx + 1);
        }
      }
    }
  }
}
