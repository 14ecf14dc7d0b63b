/** Day 15: the memory game. Each turn speaks 0 if the previous number was new, and
    otherwise how many turns apart its last two mentions were. The program keeps, per
    number, the turns of its last two mentions in a dictionary whose default is (0, 0). */
module Day15 {
  import opened Basics

  /** `ls[x]` of the defaultdict: missing numbers read as (0, 0). */
  function Get(ls: map<int, (int, int)>, x: int): (int, int)
  {
    if x in ls then ls[x] else (0, 0)
  }

  // ---------------------------------------------------------------------------
  // The game, on the history of spoken numbers (turn t speaks h[t - 1])
  // ---------------------------------------------------------------------------

  /** The last turn that spoke `x`, 0 if none did. */
  function LastTurn(h: seq<int>, x: int): (t: nat)
    ensures t <= |h|
    ensures t > 0 ==> h[t - 1] == x
    ensures forall j :: t <= j < |h| ==> h[j] != x
  {
    if h == [] then 0
    else if h[|h| - 1] == x then |h|
    else LastTurn(h[..|h| - 1], x)
  }

  /** The turn that spoke `x` before its last mention, 0 if there is none. */
  function PrevTurn(h: seq<int>, x: int): (t: nat)
    ensures t > 0 ==> t < LastTurn(h, x) && h[t - 1] == x
    ensures t == 0 ==> forall j :: 0 <= j < LastTurn(h, x) - 1 ==> h[j] != x
  {
    var last := LastTurn(h, x);
    if last == 0 then 0 else LastTurn(h[..last - 1], x)
  }

  /** The number the next turn speaks. */
  function NextSpoken(h: seq<int>): int
    requires |h| >= 1
  {
    var x := h[|h| - 1];
    var prev := PrevTurn(h, x);
    if prev == 0 then 0 else |h| - prev
  }

  /** The first `t` numbers spoken after the starting numbers `seed`. */
  function Game(seed: seq<int>, t: nat): (h: seq<int>)
    requires 1 <= |seed| <= t
    ensures |h| == t && h[..|seed|] == seed
  {
    if t == |seed| then seed
    else
      var h := Game(seed, t - 1);
      assert (h + [NextSpoken(h)])[..|seed|] == h[..|seed|];
      h + [NextSpoken(h)]
  }

  lemma LastTurnAppend(h: seq<int>, v: int, x: int)
    ensures LastTurn(h + [v], x) == if x == v then |h| + 1 else LastTurn(h, x)
  {
    assert (h + [v])[..|h|] == h;
  }

  lemma PrevTurnAppend(h: seq<int>, v: int, x: int)
    ensures PrevTurn(h + [v], x) == if x == v then LastTurn(h, x) else PrevTurn(h, x)
  {
    LastTurnAppend(h, v, x);
    var t := LastTurn(h, x);
    if x != v && t > 0 {
      assert (h + [v])[..t - 1] == h[..t - 1];
    } else if x == v {
      assert (h + [v])[..|h|] == h;
    }
  }

  /** A number that appears once has no earlier mention. */
  lemma DistinctPrevTurn(h: seq<int>, x: int)
    requires Distinct(h)
    ensures PrevTurn(h, x) == 0
  {
    RepeatedNotDistinct(h, x);
  }

  lemma RepeatedNotDistinct(h: seq<int>, x: int)
    ensures PrevTurn(h, x) > 0 ==> !Distinct(h)
  {
    var t := LastTurn(h, x);
    var p := PrevTurn(h, x);
    if p > 0 {
      assert h[p - 1] == h[t - 1];
    }
  }

  // ---------------------------------------------------------------------------
  // part1
  // ---------------------------------------------------------------------------

  /** The seeding loop: every starting number maps to (0, its last turn), and the last
      one is the one spoken last. */
  method Seed(nums: seq<int>) returns (ls: map<int, (int, int)>, last: int)
    ensures forall x :: Get(ls, x) == (0, LastTurn(nums, x))
    ensures forall x :: x in ls ==> ls[x].1 >= 1
    ensures last == if nums == [] then 0 else nums[|nums| - 1]
  {
    ls, last := map[], 0;
    for i := 0 to |nums|
      invariant forall x :: Get(ls, x) == (0, LastTurn(nums[..i], x))
      invariant forall x :: x in ls ==> ls[x].1 >= 1
      invariant last == if i == 0 then 0 else nums[i - 1]
    {
      var x := nums[i];
      assert nums[..i + 1] == nums[..i] + [x];
      forall y
        ensures LastTurn(nums[..i + 1], y) == if y == x then i + 1 else LastTurn(nums[..i], y)
      {
        LastTurnAppend(nums[..i], x, y);
      }
      ls := ls[x := (0, i + 1)];
      last := x;
    }
    assert nums[..|nums|] == nums;
  }

  /** The starting numbers, with an empty list playing like [0]: the first turn of the
      loop then finds no earlier mention of 0 and speaks 0. */
  function SeedOf(nums: seq<int>): seq<int>
  {
    if nums == [] then [0] else nums
  }

  /** The dictionary holds, for every number, the turns of its last two mentions. */
  ghost predicate Tracks(ls: map<int, (int, int)>, h: seq<int>)
  {
    forall x :: Get(ls, x) == (PrevTurn(h, x), LastTurn(h, x))
  }

  /** Every entry's turns are ordered and at most `i`. */
  predicate Bounded(ls: map<int, (int, int)>, i: int)
  {
    forall x :: x in ls ==> 0 <= ls[x].0 < ls[x].1 <= i
  }

  /** part1(nums, n): the number spoken last after `n` turns. With `n` at most the number
      of starting numbers it is the last starting number (0 for none). Otherwise it is
      non-negative and below `n`, and, when the starting numbers are distinct, it is the
      `n`-th number of the game. */
  method Part1(nums: seq<int>, n: int) returns (last: int)
    ensures n <= |nums| ==> last == if nums == [] then 0 else nums[|nums| - 1]
    ensures n > |nums| ==> 0 <= last < n
    ensures n > |nums| && Distinct(nums) ==> last == Game(SeedOf(nums), n)[n - 1]
  {
    var ls;
    ls, last := Seed(nums);
    ghost var seed := SeedOf(nums);
    ghost var h := nums;
    ghost var tracked := Distinct(nums);
    SeedFacts(nums, ls, last);
    var i: nat := |nums|;
    while i < n
      invariant i == |nums| || i <= n
      invariant TurnState(nums, seed, ls, h, i, last, tracked)
    {
      var (n2, n1) := Get(ls, last);
      var spoken;
      if n2 == 0 {
        spoken := 0;
      } else {
        spoken := n1 - n2;
      }
      var (_, lt) := Get(ls, spoken);
      var ls' := ls[spoken := (lt, i + 1)];
      ghost var h' := if tracked then h + [spoken] else h;
      var i' := i + 1;
      Turn(nums, seed, ls, h, i, last, tracked, spoken, ls', h', i');
      ls, h, last, i := ls', h', spoken, i';
    }
    Finish(nums, n, seed, ls, h, i, last, tracked);
  }

  /** What part1's loop keeps: the last number is the last starting number until a turn
      is played, and afterwards below the turn number; the dictionary's entries are
      bounded; and with distinct starting numbers the state replays the game. */
  ghost predicate TurnState(nums: seq<int>, seed: seq<int>, ls: map<int, (int, int)>, h: seq<int>,
                            i: nat, last: int, tracked: bool)
  {
    |nums| <= i
    && (i <= |nums| ==> last == if nums == [] then 0 else nums[|nums| - 1])
    && (i > |nums| ==> 0 <= last < i)
    && Bounded(ls, i)
    && (tracked ==> Replays(seed, ls, h, i, last))
  }

  /** When the loop stops, its state gives part1's answer. */
  lemma Finish(nums: seq<int>, n: int, seed: seq<int>, ls: map<int, (int, int)>, h: seq<int>,
               i: nat, last: int, tracked: bool)
    requires i >= n && (i == |nums| || i <= n)
    requires TurnState(nums, seed, ls, h, i, last, tracked)
    requires seed == SeedOf(nums) && tracked == Distinct(nums)
    ensures n <= |nums| ==> last == if nums == [] then 0 else nums[|nums| - 1]
    ensures n > |nums| ==> 0 <= last < n
    ensures n > |nums| && Distinct(nums) ==> last == Game(SeedOf(nums), n)[n - 1]
  {
  }

  /** One turn of part1's loop keeps its state. */
  lemma Turn(nums: seq<int>, seed: seq<int>, ls: map<int, (int, int)>, h: seq<int>,
             i: nat, last: int, tracked: bool, spoken: int, ls': map<int, (int, int)>, h': seq<int>, i': nat)
    requires TurnState(nums, seed, ls, h, i, last, tracked)
    requires spoken == if Get(ls, last).0 == 0 then 0 else Get(ls, last).1 - Get(ls, last).0
    requires i' == i + 1
    requires ls' == ls[spoken := (Get(ls, spoken).1, i')]
    requires h' == if tracked then h + [spoken] else h
    ensures TurnState(nums, seed, ls', h', i', spoken, tracked)
  {
    BoundedStep(ls, i, last, spoken);
    if tracked {
      ReplayStep(seed, ls, h, i, last, spoken);
    }
  }

  /** The loop's state replays the game: the dictionary tracks the history of the
      first `i` turns, and `last` is what turn `i` spoke. */
  ghost predicate Replays(seed: seq<int>, ls: map<int, (int, int)>, h: seq<int>, i: nat, last: int)
  {
    |seed| >= 1 && |h| == i && Tracks(ls, h)
    && (i >= 1 ==> i >= |seed| && h == Game(seed, i) && last == h[i - 1])
    && (i == 0 ==> h == [] && last == 0 && ls == map[] && seed == [0])
  }

  /** What one turn of the loop speaks, given a replaying state, is the game's next
      number, and the state after the turn replays one turn more. */
  lemma ReplayStep(seed: seq<int>, ls: map<int, (int, int)>, h: seq<int>, i: nat, last: int, spoken: int)
    requires Replays(seed, ls, h, i, last)
    requires spoken == if Get(ls, last).0 == 0 then 0 else Get(ls, last).1 - Get(ls, last).0
    ensures Replays(seed, ls[spoken := (Get(ls, spoken).1, i + 1)], h + [spoken], i + 1, spoken)
  {
    if i >= 1 {
      assert LastTurn(h, last) == i;
      assert spoken == NextSpoken(h);
    }
    GameStep(seed, ls, h, i, spoken);
  }

  lemma SeedFacts(nums: seq<int>, ls: map<int, (int, int)>, last: int)
    requires forall x :: Get(ls, x) == (0, LastTurn(nums, x))
    requires forall x :: x in ls ==> ls[x].1 >= 1
    requires last == if nums == [] then 0 else nums[|nums| - 1]
    ensures Bounded(ls, |nums|)
    ensures Distinct(nums) ==> Replays(SeedOf(nums), ls, nums, |nums|, last)
  {
    if nums == [] {
      forall x
        ensures x !in ls
      {
        assert Get(ls, x).1 == 0;
      }
      assert ls.Keys == {};
    }
    forall x | x in ls
      ensures 0 <= ls[x].0 < ls[x].1 <= |nums|
    {
      assert Get(ls, x) == ls[x];
    }
    if Distinct(nums) {
      forall x
        ensures Get(ls, x) == (PrevTurn(nums, x), LastTurn(nums, x))
      {
        DistinctPrevTurn(nums, x);
      }
    }
  }

  /** One turn keeps the entries ordered and bounded by the turn number, and speaks a
      number below the new turn number. */
  lemma BoundedStep(ls: map<int, (int, int)>, i: int, last: int, v: int)
    requires i >= 0 && Bounded(ls, i)
    requires v == if Get(ls, last).0 == 0 then 0 else Get(ls, last).1 - Get(ls, last).0
    ensures Bounded(ls[v := (Get(ls, v).1, i + 1)], i + 1)
    ensures 0 <= v < i + 1
  {
    var ls' := ls[v := (Get(ls, v).1, i + 1)];
    forall x | x in ls'
      ensures 0 <= ls'[x].0 < ls'[x].1 <= i + 1
    {
      if x != v {
        assert ls'[x] == ls[x];
      }
    }
  }

  /** One turn of the loop keeps the dictionary equal to the turns of the last two
      mentions in the history, and the number it speaks is the game's next one. */
  lemma GameStep(seed: seq<int>, ls: map<int, (int, int)>, h: seq<int>, i: nat, v: int)
    requires |seed| >= 1 && |h| == i
    requires Tracks(ls, h)
    requires i >= 1 ==> i >= |seed| && h == Game(seed, i) && v == NextSpoken(h)
    requires i == 0 ==> h == [] && seed == [0] && ls == map[] && v == 0
    ensures Tracks(ls[v := (Get(ls, v).1, i + 1)], h + [v])
    ensures h + [v] == Game(seed, i + 1)
  {
    forall x
      ensures Get(ls[v := (Get(ls, v).1, i + 1)], x) == (PrevTurn(h + [v], x), LastTurn(h + [v], x))
    {
      LastTurnAppend(h, v, x);
      PrevTurnAppend(h, v, x);
    }
    if i == 0 {
      assert h + [v] == [0];
    }
  }
}
