/** Day 17, part 1: Conway cubes in three dimensions. The live cells are a set; a `Bounds`
    box is kept around them and widened whenever a cell is born; one step visits every
    cell of the box grown by one on each side and applies the rule: a live cell with 2 or
    3 live neighbours stays alive, a dead cell with exactly 3 comes alive. */
module Day17 {
  import opened Basics

  datatype Cell = Cell(x: int, y: int, z: int)

  /** `vec_add`. */
  function Add(a: Cell, b: Cell): Cell
  {
    Cell(a.x + b.x, a.y + b.y, a.z + b.z)
  }

  // ---------------------------------------------------------------------------
  // offsets
  // ---------------------------------------------------------------------------

  predicate InCube(o: Cell)
  {
    -1 <= o.x <= 1 && -1 <= o.y <= 1 && -1 <= o.z <= 1
  }

  /** The `i`-th vector of `itertools.product([1, 0, -1], repeat=3)`. */
  function Decode(i: int): Cell
  {
    Cell(1 - i / 9, 1 - i % 9 / 3, 1 - i % 3)
  }

  /** The position of a vector of the cube in that product. */
  function Code(o: Cell): int
  {
    (1 - o.x) * 9 + (1 - o.y) * 3 + (1 - o.z)
  }

  lemma CodeDecode(i: int)
    requires 0 <= i < 27
    ensures InCube(Decode(i)) && Code(Decode(i)) == i
  {
  }

  lemma DecodeCode(o: Cell)
    requires InCube(o)
    ensures 0 <= Code(o) < 27 && Decode(Code(o)) == o
  {
    var i := Code(o);
    var r := (1 - o.y) * 3 + (1 - o.z);
    assert 0 <= r < 9 && i == (1 - o.x) * 9 + r;
    assert i / 9 == 1 - o.x && i % 9 == r;
    assert r / 3 == 1 - o.y && r % 3 == 1 - o.z;
    assert i % 3 == r % 3;
  }

  /** The product with the zero vector, at position 13, taken out. Python keeps the
      offsets in a set; `count_live` only sums over them, so their order does not
      matter. */
  function Offsets(): seq<Cell>
  {
    seq(26, k requires 0 <= k < 26 => Decode(if k < 13 then k else k + 1))
  }

  /** The offsets are exactly the 26 non-zero vectors of {-1, 0, 1}^3, each once. */
  lemma OffsetsAre()
    ensures |Offsets()| == 26 && Distinct(Offsets())
    ensures forall o :: o in Offsets() <==> InCube(o) && o != Cell(0, 0, 0)
  {
    OffsetsDistinct();
    forall o
      ensures o in Offsets() <==> InCube(o) && o != Cell(0, 0, 0)
    {
      OffsetMember(o);
    }
  }

  lemma OffsetsDistinct()
    ensures Distinct(Offsets())
  {
    forall i, j | 0 <= i < j < 26
      ensures Offsets()[i] != Offsets()[j]
    {
      OffsetCode(i);
      OffsetCode(j);
    }
  }

  lemma OffsetCode(k: int)
    requires 0 <= k < 26
    ensures Code(Offsets()[k]) == if k < 13 then k else k + 1
  {
    CodeDecode(if k < 13 then k else k + 1);
  }

  lemma OffsetAt(k: int)
    requires 0 <= k < 26
    ensures Offsets()[k] == Decode(if k < 13 then k else k + 1)
  {
  }

  lemma OffsetMember(o: Cell)
    ensures o in Offsets() <==> InCube(o) && o != Cell(0, 0, 0)
  {
    if o in Offsets() {
      var k :| 0 <= k < 26 && Offsets()[k] == o;
      OffsetAt(k);
      CodeDecode(if k < 13 then k else k + 1);
    }
    if InCube(o) && o != Cell(0, 0, 0) {
      DecodeCode(o);
      var i := Code(o);
      assert i != 13;
      var k := if i < 13 then i else i - 1;
      OffsetAt(k);
    }
  }

  // ---------------------------------------------------------------------------
  // count_live
  // ---------------------------------------------------------------------------

  /** `d` is one of the 26 cells around `c`. */
  predicate Adjacent(c: Cell, d: Cell)
  {
    d != c && -1 <= d.x - c.x <= 1 && -1 <= d.y - c.y <= 1 && -1 <= d.z - c.z <= 1
  }

  /** The number of the first `k` offsets that lead from `c` to a live cell. */
  function CountFrom(space: set<Cell>, c: Cell, k: nat): (n: nat)
    requires k <= |Offsets()|
    ensures n <= k
  {
    if k == 0 then 0
    else CountFrom(space, c, k - 1) + (if Add(c, Offsets()[k - 1]) in space then 1 else 0)
  }

  /** `count_live`: the live cells among the neighbours of `c`. */
  function CountLive(space: set<Cell>, c: Cell): (n: nat)
    ensures 0 <= n <= 26
  {
    CountFrom(space, c, |Offsets()|)
  }

  /** The cells the first `k` offsets lead to from `c`. */
  function Reached(c: Cell, k: nat): set<Cell>
    requires k <= |Offsets()|
  {
    set i | 0 <= i < k :: Add(c, Offsets()[i])
  }

  lemma {:induction false} CountFromReached(space: set<Cell>, c: Cell, k: nat)
    requires k <= |Offsets()|
    ensures CountFrom(space, c, k) == |space * Reached(c, k)|
  {
    if k == 0 {
      assert Reached(c, 0) == {};
    } else {
      CountFromReached(space, c, k - 1);
      ReachedStep(c, k);
      CountStep(space, Reached(c, k - 1), Add(c, Offsets()[k - 1]));
    }
  }

  /** Each offset leads to a cell the earlier offsets do not reach. */
  lemma ReachedStep(c: Cell, k: nat)
    requires 0 < k <= |Offsets()|
    ensures Reached(c, k) == Reached(c, k - 1) + {Add(c, Offsets()[k - 1])}
    ensures Add(c, Offsets()[k - 1]) !in Reached(c, k - 1)
  {
    OffsetsDistinct();
    forall i | 0 <= i < k - 1
      ensures Add(c, Offsets()[i]) != Add(c, Offsets()[k - 1])
    {
      assert Offsets()[i] != Offsets()[k - 1];
    }
  }

  /** The offsets reach exactly the adjacent cells. */
  lemma ReachedAdjacent(c: Cell, d: Cell)
    ensures d in Reached(c, |Offsets()|) <==> Adjacent(c, d)
  {
    var o := Cell(d.x - c.x, d.y - c.y, d.z - c.z);
    assert Add(c, o) == d;
    OffsetMember(o);
    if d in Reached(c, |Offsets()|) {
      var i :| 0 <= i < |Offsets()| && Add(c, Offsets()[i]) == d;
      assert Offsets()[i] == o;
    }
    if Adjacent(c, d) {
      var i :| 0 <= i < |Offsets()| && Offsets()[i] == o;
      assert Add(c, Offsets()[i]) == d;
    }
  }

  /** `count_live(space, c)` is the number of live cells adjacent to `c`. */
  lemma CountLiveAdjacent(space: set<Cell>, c: Cell)
    ensures CountLive(space, c) == |set d | d in space && Adjacent(c, d)|
  {
    CountFromReached(space, c, |Offsets()|);
    forall d
      ensures d in Reached(c, |Offsets()|) <==> Adjacent(c, d)
    {
      ReachedAdjacent(c, d);
    }
    assert space * Reached(c, |Offsets()|) == set d | d in space && Adjacent(c, d);
  }

  // ---------------------------------------------------------------------------
  // Bounds
  // ---------------------------------------------------------------------------

  /** `range(lo, hi)`. */
  function Interval(lo: int, hi: int): (r: seq<int>)
    ensures forall v :: v in r <==> lo <= v < hi
  {
    var r := seq(if lo < hi then hi - lo else 0, i => lo + i);
    assert forall v :: lo <= v < hi ==> v in r by {
      forall v | lo <= v < hi
        ensures v in r
      {
        assert r[v - lo] == v;
      }
    }
    r
  }

  /** The cells `(x, y, z)` for `z` in `zs`, in order. */
  function Line(x: int, y: int, zs: seq<int>): (r: seq<Cell>)
    ensures forall c :: c in r <==> c.x == x && c.y == y && c.z in zs
  {
    var r := seq(|zs|, i requires 0 <= i < |zs| => Cell(x, y, zs[i]));
    assert forall i :: 0 <= i < |zs| ==> r[i] == Cell(x, y, zs[i]);
    r
  }

  function Plane(x: int, ys: seq<int>, zs: seq<int>): (r: seq<Cell>)
    ensures forall c :: c in r <==> c.x == x && c.y in ys && c.z in zs
  {
    if ys == [] then []
    else Line(x, ys[0], zs) + Plane(x, ys[1..], zs)
  }

  /** `itertools.product(xs, ys, zs)`: the last coordinate varies fastest. */
  function Product(xs: seq<int>, ys: seq<int>, zs: seq<int>): (r: seq<Cell>)
    ensures forall c :: c in r <==> c.x in xs && c.y in ys && c.z in zs
  {
    if xs == [] then []
    else Plane(xs[0], ys, zs) + Product(xs[1..], ys, zs)
  }

  /** The value of a `Bounds`: a lower and an upper limit on each axis. */
  datatype Box = Box(xl: int, xu: int, yl: int, yu: int, zl: int, zu: int)
  {
    predicate Contains(c: Cell)
    {
      xl <= c.x <= xu && yl <= c.y <= yu && zl <= c.z <= zu
    }

    /** This box is at least as large as `other` on every side. */
    predicate Covers(other: Box)
    {
      xl <= other.xl && other.xu <= xu && yl <= other.yl && other.yu <= yu
      && zl <= other.zl && other.zu <= zu
    }

    /** What `expand(c)` makes of the box. */
    function Expanded(c: Cell): (b: Box)
      ensures b.Covers(this) && b.Contains(c)
    {
      Box(if c.x < xl then c.x else xl, if c.x > xu then c.x else xu,
          if c.y < yl then c.y else yl, if c.y > yu then c.y else yu,
          if c.z < zl then c.z else zl, if c.z > zu then c.z else zu)
    }

    /** `range()`: every cell of the box grown by one on each side, in product order. */
    function Range(): (r: seq<Cell>)
      ensures forall c :: c in r <==>
        xl - 1 <= c.x <= xu + 1 && yl - 1 <= c.y <= yu + 1 && zl - 1 <= c.z <= zu + 1
    {
      Product(Interval(xl - 1, xu + 2), Interval(yl - 1, yu + 2), Interval(zl - 1, zu + 2))
    }
  }

  /** `expand(c)` gives the least box that covers the old one and holds `c`. */
  lemma ExpandedLeast(b: Box, c: Cell, other: Box)
    requires other.Covers(b) && other.Contains(c)
    ensures other.Covers(b.Expanded(c))
  {
  }

  class Bounds {
    var xl: int
    var xu: int
    var yl: int
    var yu: int
    var zl: int
    var zu: int

    function Value(): Box
      reads this
    {
      Box(xl, xu, yl, yu, zl, zu)
    }

    constructor (x: (int, int), y: (int, int), z: (int, int))
      ensures Value() == Box(x.0, x.1, y.0, y.1, z.0, z.1)
    {
      xl, xu := x.0, x.1;
      yl, yu := y.0, y.1;
      zl, zu := z.0, z.1;
    }

    /** Lowers each lower limit to the cell's coordinate when that is below it, and raises
        each upper limit when it is above it. */
    method Expand(c: Cell)
      modifies this
      ensures Value() == old(Value()).Expanded(c)
    {
      if c.x < xl {
        xl := c.x;
      }
      if c.x > xu {
        xu := c.x;
      }
      if c.y < yl {
        yl := c.y;
      }
      if c.y > yu {
        yu := c.y;
      }
      if c.z < zl {
        zl := c.z;
      }
      if c.z > zu {
        zu := c.z;
      }
    }

    function Range(): seq<Cell>
      reads this
    {
      Value().Range()
    }
  }

  // ---------------------------------------------------------------------------
  // step
  // ---------------------------------------------------------------------------

  /** Whether `c` is live after a step. */
  predicate Rule(space: set<Cell>, c: Cell)
  {
    var n := CountLive(space, c);
    if c in space then n == 2 || n == 3 else n == 3
  }

  predicate Born(space: set<Cell>, c: Cell)
  {
    c !in space && CountLive(space, c) == 3
  }

  /** The live cells after visiting `cells`. */
  function NextSpace(space: set<Cell>, cells: seq<Cell>): set<Cell>
  {
    set c | c in cells && Rule(space, c)
  }

  lemma NextSpacePrefix(space: set<Cell>, cells: seq<Cell>, i: nat)
    requires i < |cells|
    ensures NextSpace(space, cells[..i + 1])
      == NextSpace(space, cells[..i]) + (if Rule(space, cells[i]) then {cells[i]} else {})
  {
    assert cells[..i + 1] == cells[..i] + [cells[i]];
  }

  /** The box after visiting `cells` in order, expanded for each cell born. */
  function NextBox(box: Box, space: set<Cell>, cells: seq<Cell>): Box
  {
    if cells == [] then box
    else
      var b := NextBox(box, space, cells[..|cells| - 1]);
      var c := cells[|cells| - 1];
      if Born(space, c) then b.Expanded(c) else b
  }

  lemma NextBoxPrefix(box: Box, space: set<Cell>, cells: seq<Cell>, i: nat)
    requires i < |cells|
    ensures NextBox(box, space, cells[..i + 1])
      == var b := NextBox(box, space, cells[..i]); if Born(space, cells[i]) then b.Expanded(cells[i]) else b
  {
    assert cells[..i + 1][..i] == cells[..i];
  }

  /** `step`: the new live cells and a copy of the bounds expanded for every birth; the
      bounds passed in are left as they were. */
  method Step(space: set<Cell>, bounds: Bounds) returns (out: set<Cell>, newBounds: Bounds)
    ensures fresh(newBounds)
    ensures out == NextSpace(space, bounds.Range())
    ensures newBounds.Value() == NextBox(bounds.Value(), space, bounds.Range())
  {
    out := {};
    newBounds := new Bounds((bounds.xl, bounds.xu), (bounds.yl, bounds.yu), (bounds.zl, bounds.zu));
    var cells := bounds.Range();
    ghost var box := bounds.Value();
    for i := 0 to |cells|
      invariant out == NextSpace(space, cells[..i])
      invariant newBounds.Value() == NextBox(box, space, cells[..i])
    {
      var c := cells[i];
      NextSpacePrefix(space, cells, i);
      NextBoxPrefix(box, space, cells, i);
      var wasLive := c in space;
      var liveN := CountLive(space, c);
      if wasLive {
        if liveN == 2 || liveN == 3 {
          out := out + {c};
        }
      } else {
        if liveN == 3 {
          out := out + {c};
          newBounds.Expand(c);
        }
      }
    }
    assert cells[..|cells|] == cells;
  }

  /** Every live cell lies within the box. */
  ghost predicate Inside(space: set<Cell>, box: Box)
  {
    forall c :: c in space ==> box.Contains(c)
  }

  /** The box after a step covers the old one and every cell born in it. */
  lemma {:induction false} NextBoxCovers(box: Box, space: set<Cell>, cells: seq<Cell>)
    ensures NextBox(box, space, cells).Covers(box)
    ensures forall c :: c in cells && Born(space, c) ==> NextBox(box, space, cells).Contains(c)
  {
    if cells != [] {
      var init := cells[..|cells| - 1];
      NextBoxCovers(box, space, init);
      assert cells == init + [cells[|cells| - 1]];
    }
  }

  /** ... and it is the least such box. */
  lemma {:induction false} NextBoxLeast(box: Box, space: set<Cell>, cells: seq<Cell>, other: Box)
    requires other.Covers(box)
    requires forall c :: c in cells && Born(space, c) ==> other.Contains(c)
    ensures other.Covers(NextBox(box, space, cells))
  {
    if cells != [] {
      var init := cells[..|cells| - 1];
      assert forall c :: c in init ==> c in cells;
      NextBoxLeast(box, space, init, other);
    }
  }

  /** A cell two or more away from the box has no live neighbour when every live cell is
      inside the box. */
  lemma {:induction false} CountFromOutside(space: set<Cell>, box: Box, c: Cell, k: nat)
    requires Inside(space, box) && k <= |Offsets()| && c !in box.Range()
    ensures CountFrom(space, c, k) == 0
  {
    if k > 0 {
      CountFromOutside(space, box, c, k - 1);
      OffsetsAre();
      assert InCube(Offsets()[k - 1]);
      assert !box.Contains(Add(c, Offsets()[k - 1]));
    }
  }

  /** A step keeps every live cell inside the new box. */
  lemma StepKeepsInside(space: set<Cell>, box: Box, space': set<Cell>, box': Box)
    requires Inside(space, box)
    requires space' == NextSpace(space, box.Range()) && box' == NextBox(box, space, box.Range())
    ensures Inside(space', box')
  {
    NextBoxCovers(box, space, box.Range());
  }

  /** With every live cell inside the box, visiting the box grown by one is enough: the
      step applies the rule to every cell of the whole space. */
  lemma StepIsRule(space: set<Cell>, box: Box)
    requires Inside(space, box)
    ensures forall c :: c in NextSpace(space, box.Range()) <==> Rule(space, c)
  {
    forall c | c !in box.Range()
      ensures !Rule(space, c)
    {
      CountFromOutside(space, box, c, |Offsets()|);
    }
  }

  // ---------------------------------------------------------------------------
  // part1
  // ---------------------------------------------------------------------------

  /** The live cells of the input grid, on the plane z = 0. */
  function Initial(inp: seq<seq<bool>>): set<Cell>
  {
    set y, x | 0 <= y < |inp| && 0 <= x < |inp[y]| && inp[y][x] :: Cell(x, y, 0)
  }

  /** The first bounds: x up to the length of the first row, y up to the number of rows,
      z from 0 to 1. */
  function InitialBox(inp: seq<seq<bool>>): Box
    requires inp != []
  {
    Box(0, |inp[0]|, 0, |inp|, 0, 1)
  }

  /** The live cells and the box after `k` steps. */
  function Run(space: set<Cell>, box: Box, k: nat): (set<Cell>, Box)
  {
    if k == 0 then (space, box)
    else
      var (s, b) := Run(space, box, k - 1);
      (NextSpace(s, b.Range()), NextBox(b, s, b.Range()))
  }

  /** The first bounds hold the live cells when no row has a live cell beyond the length
      of the first row. */
  lemma InitialInside(inp: seq<seq<bool>>)
    requires inp != []
    requires forall y, x :: 0 <= y < |inp| && 0 <= x < |inp[y]| && inp[y][x] ==> x <= |inp[0]|
    ensures Inside(Initial(inp), InitialBox(inp))
  {
  }

  /** From bounds that hold the live cells, every box of the run holds the live cells of
      its step ... */
  lemma {:induction false} RunInside(space: set<Cell>, box: Box, k: nat, s: set<Cell>, b: Box)
    requires Inside(space, box) && (s, b) == Run(space, box, k)
    ensures Inside(s, b)
  {
    if k > 0 {
      var r := Run(space, box, k - 1);
      RunInside(space, box, k - 1, r.0, r.1);
      StepKeepsInside(r.0, r.1, s, b);
    }
  }

  /** ... so every step of the run applies the rule to the whole space. */
  lemma RunIsRule(space: set<Cell>, box: Box, k: nat)
    requires Inside(space, box)
    ensures forall c :: c in Run(space, box, k + 1).0 <==> Rule(Run(space, box, k).0, c)
  {
    var (s, b) := Run(space, box, k);
    RunInside(space, box, k, s, b);
    StepIsRule(s, b);
    assert Run(space, box, k + 1).0 == NextSpace(s, b.Range());
  }

  /** The loops that add the live cells of the grid. */
  method Seed(inp: seq<seq<bool>>) returns (space: set<Cell>)
    ensures space == Initial(inp)
  {
    space := {};
    for y := 0 to |inp|
      invariant space == set y', x | 0 <= y' < y && 0 <= x < |inp[y']| && inp[y'][x] :: Cell(x, y', 0)
    {
      for x := 0 to |inp[y]|
        invariant space == (set y', x' | 0 <= y' < y && 0 <= x' < |inp[y']| && inp[y'][x'] :: Cell(x', y', 0))
          + (set x' | 0 <= x' < x && inp[y][x'] :: Cell(x', y, 0))
      {
        if inp[y][x] {
          space := space + {Cell(x, y, 0)};
        }
      }
    }
  }

  /** part1: the number of live cells after six steps; an empty grid makes `inp[0]`
      raise. */
  method Part1(inp: seq<seq<bool>>) returns (r: Option<nat>)
    ensures inp == [] ==> r == None
    ensures inp != [] ==> r == Some(|Run(Initial(inp), InitialBox(inp), 6).0|)
  {
    if inp == [] {
      return None;
    }
    var bounds := new Bounds((0, |inp[0]|), (0, |inp|), (0, 1));
    var space := Seed(inp);
    for i := 0 to 6
      invariant (space, bounds.Value()) == Run(Initial(inp), InitialBox(inp), i)
    {
      space, bounds := Step(space, bounds);
    }
    r := Some(|space|);
  }
}
