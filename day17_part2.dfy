/** Day 17, part 2: the Conway cubes of part 1 in four dimensions, with 80 neighbours
    per cell and a `Bounds` box with limits on four axes. */
module Day17Part2 {
  import opened Basics

  datatype Cell = Cell(x: int, y: int, z: int, w: int)

  /** `vec_add`. */
  function Add(a: Cell, b: Cell): Cell
  {
    Cell(a.x + b.x, a.y + b.y, a.z + b.z, a.w + b.w)
  }

  // ---------------------------------------------------------------------------
  // offsets
  // ---------------------------------------------------------------------------

  predicate InCube(o: Cell)
  {
    -1 <= o.x <= 1 && -1 <= o.y <= 1 && -1 <= o.z <= 1 && -1 <= o.w <= 1
  }

  /** The `i`-th vector of `itertools.product([1, 0, -1], repeat=4)`. */
  function Decode(i: int): Cell
  {
    Cell(1 - i / 27, 1 - i % 27 / 9, 1 - i % 9 / 3, 1 - i % 3)
  }

  /** The position of a vector of the cube in that product. */
  function Code(o: Cell): int
  {
    (1 - o.x) * 27 + (1 - o.y) * 9 + (1 - o.z) * 3 + (1 - o.w)
  }

  lemma CodeDecode(i: int)
    requires 0 <= i < 81
    ensures InCube(Decode(i)) && Code(Decode(i)) == i
  {
    var a, r := i / 27, i % 27;
    var b, q := r / 9, r % 9;
    var c, d := q / 3, q % 3;
    assert i == 27 * a + 9 * b + 3 * c + d;
    DivMod9(i, 3 * a + b, q);
    DivMod3(i, 9 * a + 3 * b + c, d);
    assert Decode(i) == Cell(1 - a, 1 - b, 1 - c, 1 - d);
  }

  lemma DecodeCode(o: Cell)
    requires InCube(o)
    ensures 0 <= Code(o) < 81 && Decode(Code(o)) == o
  {
    var a, b, c, d := 1 - o.x, 1 - o.y, 1 - o.z, 1 - o.w;
    var i := Code(o);
    var q := 3 * c + d;
    var r := 9 * b + q;
    DivMod27(i, a, r);
    DivMod9(r, b, q);
    DivMod9(i, 3 * a + b, q);
    DivMod3(q, c, d);
    DivMod3(i, 9 * a + 3 * b + c, d);
  }

  lemma DivMod27(i: int, q: int, r: int)
    requires 0 <= r < 27 && i == 27 * q + r
    ensures i / 27 == q && i % 27 == r
  {
  }

  lemma DivMod9(i: int, q: int, r: int)
    requires 0 <= r < 9 && i == 9 * q + r
    ensures i / 9 == q && i % 9 == r
  {
  }

  lemma DivMod3(i: int, q: int, r: int)
    requires 0 <= r < 3 && i == 3 * q + r
    ensures i / 3 == q && i % 3 == r
  {
  }

  /** The product with the zero vector, at position 40, taken out. Python keeps the
      offsets in a set; `count_live` only sums over them, so their order does not
      matter. */
  function Offsets(): seq<Cell>
  {
    seq(80, k requires 0 <= k < 80 => Decode(if k < 40 then k else k + 1))
  }

  /** The offsets are exactly the 80 non-zero vectors of {-1, 0, 1}^4, each once. */
  lemma OffsetsAre()
    ensures |Offsets()| == 80 && Distinct(Offsets())
    ensures forall o :: o in Offsets() <==> InCube(o) && o != Cell(0, 0, 0, 0)
  {
    OffsetsDistinct();
    forall o
      ensures o in Offsets() <==> InCube(o) && o != Cell(0, 0, 0, 0)
    {
      OffsetMember(o);
    }
  }

  lemma OffsetsDistinct()
    ensures Distinct(Offsets())
  {
    forall i, j | 0 <= i < j < 80
      ensures Offsets()[i] != Offsets()[j]
    {
      OffsetCode(i);
      OffsetCode(j);
    }
  }

  lemma OffsetCode(k: int)
    requires 0 <= k < 80
    ensures Code(Offsets()[k]) == if k < 40 then k else k + 1
  {
    CodeDecode(if k < 40 then k else k + 1);
  }

  lemma OffsetAt(k: int)
    requires 0 <= k < 80
    ensures Offsets()[k] == Decode(if k < 40 then k else k + 1)
  {
  }

  lemma OffsetMember(o: Cell)
    ensures o in Offsets() <==> InCube(o) && o != Cell(0, 0, 0, 0)
  {
    if o in Offsets() {
      var k :| 0 <= k < 80 && Offsets()[k] == o;
      OffsetAt(k);
      CodeDecode(if k < 40 then k else k + 1);
    }
    if InCube(o) && o != Cell(0, 0, 0, 0) {
      DecodeCode(o);
      var i := Code(o);
      assert i != 40;
      var k := if i < 40 then i else i - 1;
      OffsetAt(k);
    }
  }

  // ---------------------------------------------------------------------------
  // count_live
  // ---------------------------------------------------------------------------

  /** `d` is one of the 80 cells around `c`. */
  predicate Adjacent(c: Cell, d: Cell)
  {
    d != c && -1 <= d.x - c.x <= 1 && -1 <= d.y - c.y <= 1 && -1 <= d.z - c.z <= 1
    && -1 <= d.w - c.w <= 1
  }

  /** The number of the first `k` offsets that lead from `c` to a live cell. */
  function CountFrom(space: set<Cell>, c: Cell, k: nat): (n: nat)
    requires k <= |Offsets()|
    ensures n <= k
  {
    if k == 0 then 0
    else CountFrom(space, c, k - 1) + (if Add(c, Offsets()[k - 1]) in space then 1 else 0)
  }

  /** `count_live`: the live cells among the neighbours of `c`. */
  function CountLive(space: set<Cell>, c: Cell): (n: nat)
    ensures 0 <= n <= 80
  {
    CountFrom(space, c, |Offsets()|)
  }

  /** The cells the first `k` offsets lead to from `c`. */
  function Reached(c: Cell, k: nat): set<Cell>
    requires k <= |Offsets()|
  {
    set i | 0 <= i < k :: Add(c, Offsets()[i])
  }

  lemma {:induction false} CountFromReached(space: set<Cell>, c: Cell, k: nat)
    requires k <= |Offsets()|
    ensures CountFrom(space, c, k) == |space * Reached(c, k)|
  {
    if k == 0 {
      assert Reached(c, 0) == {};
    } else {
      CountFromReached(space, c, k - 1);
      ReachedStep(c, k);
      CountStep(space, Reached(c, k - 1), Add(c, Offsets()[k - 1]));
    }
  }

  /** Each offset leads to a cell the earlier offsets do not reach. */
  lemma ReachedStep(c: Cell, k: nat)
    requires 0 < k <= |Offsets()|
    ensures Reached(c, k) == Reached(c, k - 1) + {Add(c, Offsets()[k - 1])}
    ensures Add(c, Offsets()[k - 1]) !in Reached(c, k - 1)
  {
    OffsetsDistinct();
    forall i | 0 <= i < k - 1
      ensures Add(c, Offsets()[i]) != Add(c, Offsets()[k - 1])
    {
      assert Offsets()[i] != Offsets()[k - 1];
    }
  }

  /** The offsets reach exactly the adjacent cells. */
  lemma ReachedAdjacent(c: Cell, d: Cell)
    ensures d in Reached(c, |Offsets()|) <==> Adjacent(c, d)
  {
    var o := Cell(d.x - c.x, d.y - c.y, d.z - c.z, d.w - c.w);
    assert Add(c, o) == d;
    OffsetMember(o);
    if d in Reached(c, |Offsets()|) {
      var i :| 0 <= i < |Offsets()| && Add(c, Offsets()[i]) == d;
      assert Offsets()[i] == o;
    }
    if Adjacent(c, d) {
      var i :| 0 <= i < |Offsets()| && Offsets()[i] == o;
      assert Add(c, Offsets()[i]) == d;
    }
  }

  /** `count_live(space, c)` is the number of live cells adjacent to `c`. */
  lemma CountLiveAdjacent(space: set<Cell>, c: Cell)
    ensures CountLive(space, c) == |set d | d in space && Adjacent(c, d)|
  {
    CountFromReached(space, c, |Offsets()|);
    forall d
      ensures d in Reached(c, |Offsets()|) <==> Adjacent(c, d)
    {
      ReachedAdjacent(c, d);
    }
    assert space * Reached(c, |Offsets()|) == set d | d in space && Adjacent(c, d);
  }

  // ---------------------------------------------------------------------------
  // Bounds
  // ---------------------------------------------------------------------------

  /** `range(lo, hi)`. */
  function Interval(lo: int, hi: int): (r: seq<int>)
    ensures forall v :: v in r <==> lo <= v < hi
  {
    var r := seq(if lo < hi then hi - lo else 0, i => lo + i);
    assert forall v :: lo <= v < hi ==> v in r by {
      forall v | lo <= v < hi
        ensures v in r
      {
        assert r[v - lo] == v;
      }
    }
    r
  }

  /** The cells `(x, y, z, w)` for `w` in `ws`, in order. */
  function Line(x: int, y: int, z: int, ws: seq<int>): (r: seq<Cell>)
    ensures forall c :: c in r <==> c.x == x && c.y == y && c.z == z && c.w in ws
  {
    var r := seq(|ws|, i requires 0 <= i < |ws| => Cell(x, y, z, ws[i]));
    assert forall i :: 0 <= i < |ws| ==> r[i] == Cell(x, y, z, ws[i]);
    r
  }

  function Plane(x: int, y: int, zs: seq<int>, ws: seq<int>): (r: seq<Cell>)
    ensures forall c :: c in r <==> c.x == x && c.y == y && c.z in zs && c.w in ws
  {
    if zs == [] then []
    else Line(x, y, zs[0], ws) + Plane(x, y, zs[1..], ws)
  }

  function Solid(x: int, ys: seq<int>, zs: seq<int>, ws: seq<int>): (r: seq<Cell>)
    ensures forall c :: c in r <==> c.x == x && c.y in ys && c.z in zs && c.w in ws
  {
    if ys == [] then []
    else Plane(x, ys[0], zs, ws) + Solid(x, ys[1..], zs, ws)
  }

  /** `itertools.product(xs, ys, zs, ws)`: the last coordinate varies fastest. */
  function Product(xs: seq<int>, ys: seq<int>, zs: seq<int>, ws: seq<int>): (r: seq<Cell>)
    ensures forall c :: c in r <==> c.x in xs && c.y in ys && c.z in zs && c.w in ws
  {
    if xs == [] then []
    else Solid(xs[0], ys, zs, ws) + Product(xs[1..], ys, zs, ws)
  }

  /** The value of a `Bounds`: a lower and an upper limit on each axis. */
  datatype Box = Box(xl: int, xu: int, yl: int, yu: int, zl: int, zu: int, wl: int, wu: int)
  {
    predicate Contains(c: Cell)
    {
      xl <= c.x <= xu && yl <= c.y <= yu && zl <= c.z <= zu && wl <= c.w <= wu
    }

    /** This box is at least as large as `other` on every side. */
    predicate Covers(other: Box)
    {
      xl <= other.xl && other.xu <= xu && yl <= other.yl && other.yu <= yu
      && zl <= other.zl && other.zu <= zu && wl <= other.wl && other.wu <= wu
    }

    /** What `expand(c)` makes of the box. */
    function Expanded(c: Cell): (b: Box)
    {
      Box(if c.x < xl then c.x else xl, if c.x > xu then c.x else xu,
          if c.y < yl then c.y else yl, if c.y > yu then c.y else yu,
          if c.z < zl then c.z else zl, if c.z > zu then c.z else zu,
          if c.w < wl then c.w else wl, if c.w > wu then c.w else wu)
    }

    /** `range()`: every cell of the box grown by one on each side, in product order. */
    function Range(): (r: seq<Cell>)
      ensures forall c :: c in r <==>
        xl - 1 <= c.x <= xu + 1 && yl - 1 <= c.y <= yu + 1 && zl - 1 <= c.z <= zu + 1
        && wl - 1 <= c.w <= wu + 1
    {
      Product(Interval(xl - 1, xu + 2), Interval(yl - 1, yu + 2), Interval(zl - 1, zu + 2),
        Interval(wl - 1, wu + 2))
    }
  }

  /** `expand(c)` gives a box that covers the old one and holds `c` ... */
  lemma ExpandedCovers(b: Box, c: Cell)
    ensures b.Expanded(c).Covers(b) && b.Expanded(c).Contains(c)
  {
  }

  /** ... and it is the least such box. */
  lemma ExpandedLeast(b: Box, c: Cell, other: Box)
    requires other.Covers(b) && other.Contains(c)
    ensures other.Covers(b.Expanded(c))
  {
  }

  class Bounds {
    var xl: int
    var xu: int
    var yl: int
    var yu: int
    var zl: int
    var zu: int
    var wl: int
    var wu: int

    function Value(): Box
      reads this
    {
      Box(xl, xu, yl, yu, zl, zu, wl, wu)
    }

    constructor (x: (int, int), y: (int, int), z: (int, int), w: (int, int))
      ensures Value() == Box(x.0, x.1, y.0, y.1, z.0, z.1, w.0, w.1)
    {
      xl, xu := x.0, x.1;
      yl, yu := y.0, y.1;
      zl, zu := z.0, z.1;
      wl, wu := w.0, w.1;
    }

    /** Lowers each lower limit to the cell's coordinate when that is below it, and raises
        each upper limit when it is above it. */
    method Expand(c: Cell)
      modifies this
      ensures Value() == old(Value()).Expanded(c)
    {
      var b := Value().Expanded(c);
      xl, xu, yl, yu := b.xl, b.xu, b.yl, b.yu;
      zl, zu, wl, wu := b.zl, b.zu, b.wl, b.wu;
    }

    function Range(): seq<Cell>
      reads this
    {
      Value().Range()
    }
  }

  // ---------------------------------------------------------------------------
  // step
  // ---------------------------------------------------------------------------

  /** Whether `c` is live after a step. */
  predicate Rule(space: set<Cell>, c: Cell)
  {
    var n := CountLive(space, c);
    if c in space then n == 2 || n == 3 else n == 3
  }

  predicate Born(space: set<Cell>, c: Cell)
  {
    c !in space && CountLive(space, c) == 3
  }

  /** The live cells after visiting `cells`. */
  function NextSpace(space: set<Cell>, cells: seq<Cell>): set<Cell>
  {
    set c | c in cells && Rule(space, c)
  }

  lemma NextSpacePrefix(space: set<Cell>, cells: seq<Cell>, i: nat)
    requires i < |cells|
    ensures NextSpace(space, cells[..i + 1])
      == NextSpace(space, cells[..i]) + (if Rule(space, cells[i]) then {cells[i]} else {})
  {
    assert cells[..i + 1] == cells[..i] + [cells[i]];
  }

  /** The box after visiting `cells` in order, expanded for each cell born. */
  function NextBox(box: Box, space: set<Cell>, cells: seq<Cell>): Box
  {
    if cells == [] then box
    else
      var b := NextBox(box, space, cells[..|cells| - 1]);
      var c := cells[|cells| - 1];
      if Born(space, c) then b.Expanded(c) else b
  }

  lemma NextBoxPrefix(box: Box, space: set<Cell>, cells: seq<Cell>, i: nat)
    requires i < |cells|
    ensures NextBox(box, space, cells[..i + 1])
      == var b := NextBox(box, space, cells[..i]); if Born(space, cells[i]) then b.Expanded(cells[i]) else b
  {
    assert cells[..i + 1][..i] == cells[..i];
  }

  /** `step`: the new live cells and a copy of the bounds expanded for every birth; the
      bounds passed in are left as they were. */
  method Step(space: set<Cell>, bounds: Bounds) returns (out: set<Cell>, newBounds: Bounds)
    ensures fresh(newBounds)
    ensures out == NextSpace(space, bounds.Range())
    ensures newBounds.Value() == NextBox(bounds.Value(), space, bounds.Range())
  {
    out := {};
    newBounds := new Bounds((bounds.xl, bounds.xu), (bounds.yl, bounds.yu), (bounds.zl, bounds.zu),
      (bounds.wl, bounds.wu));
    var cells := bounds.Range();
    ghost var box := bounds.Value();
    for i := 0 to |cells|
      invariant out == NextSpace(space, cells[..i])
      invariant newBounds.Value() == NextBox(box, space, cells[..i])
    {
      var c := cells[i];
      NextSpacePrefix(space, cells, i);
      NextBoxPrefix(box, space, cells, i);
      var wasLive := c in space;
      var liveN := CountLive(space, c);
      if wasLive {
        if liveN == 2 || liveN == 3 {
          out := out + {c};
        }
      } else {
        if liveN == 3 {
          out := out + {c};
          newBounds.Expand(c);
        }
      }
    }
    assert cells[..|cells|] == cells;
  }

  /** Every live cell lies within the box. */
  ghost predicate Inside(space: set<Cell>, box: Box)
  {
    forall c :: c in space ==> box.Contains(c)
  }

  /** The box after a step covers the old one and every cell born in it. */
  lemma {:induction false} NextBoxCovers(box: Box, space: set<Cell>, cells: seq<Cell>)
    ensures NextBox(box, space, cells).Covers(box)
    ensures forall c :: c in cells && Born(space, c) ==> NextBox(box, space, cells).Contains(c)
  {
    if cells != [] {
      var init := cells[..|cells| - 1];
      NextBoxCovers(box, space, init);
      ExpandedCovers(NextBox(box, space, init), cells[|cells| - 1]);
      assert cells == init + [cells[|cells| - 1]];
    }
  }

  /** ... and it is the least such box. */
  lemma {:induction false} NextBoxLeast(box: Box, space: set<Cell>, cells: seq<Cell>, other: Box)
    requires other.Covers(box)
    requires forall c :: c in cells && Born(space, c) ==> other.Contains(c)
    ensures other.Covers(NextBox(box, space, cells))
  {
    if cells != [] {
      var init := cells[..|cells| - 1];
      assert forall c :: c in init ==> c in cells;
      NextBoxLeast(box, space, init, other);
    }
  }

  /** A cell two or more away from the box has no live neighbour when every live cell is
      inside the box. */
  lemma {:induction false} CountFromOutside(space: set<Cell>, box: Box, c: Cell, k: nat)
    requires Inside(space, box) && k <= |Offsets()| && c !in box.Range()
    ensures CountFrom(space, c, k) == 0
  {
    if k > 0 {
      CountFromOutside(space, box, c, k - 1);
      OffsetsAre();
      assert InCube(Offsets()[k - 1]);
      assert !box.Contains(Add(c, Offsets()[k - 1]));
    }
  }

  /** A step keeps every live cell inside the new box. */
  lemma StepKeepsInside(space: set<Cell>, box: Box, space': set<Cell>, box': Box)
    requires Inside(space, box)
    requires space' == NextSpace(space, box.Range()) && box' == NextBox(box, space, box.Range())
    ensures Inside(space', box')
  {
    NextBoxCovers(box, space, box.Range());
  }

  /** With every live cell inside the box, visiting the box grown by one is enough: the
      step applies the rule to every cell of the whole space. */
  lemma StepIsRule(space: set<Cell>, box: Box)
    requires Inside(space, box)
    ensures forall c :: c in NextSpace(space, box.Range()) <==> Rule(space, c)
  {
    forall c | c !in box.Range()
      ensures !Rule(space, c)
    {
      CountFromOutside(space, box, c, |Offsets()|);
    }
  }

  // ---------------------------------------------------------------------------
  // part2
  // ---------------------------------------------------------------------------

  /** The live cells of the input grid, on the plane z = w = 0. */
  function Initial(inp: seq<seq<bool>>): set<Cell>
  {
    set y, x | 0 <= y < |inp| && 0 <= x < |inp[y]| && inp[y][x] :: Cell(x, y, 0, 0)
  }

  /** The first bounds: x up to the length of the first row, y up to the number of rows,
      z and w from 0 to 1. */
  function InitialBox(inp: seq<seq<bool>>): Box
    requires inp != []
  {
    Box(0, |inp[0]|, 0, |inp|, 0, 1, 0, 1)
  }

  /** The live cells and the box after `k` steps. */
  function Run(space: set<Cell>, box: Box, k: nat): (set<Cell>, Box)
  {
    if k == 0 then (space, box)
    else
      var (s, b) := Run(space, box, k - 1);
      (NextSpace(s, b.Range()), NextBox(b, s, b.Range()))
  }

  /** The first bounds hold the live cells when no row has a live cell beyond the length
      of the first row. */
  lemma InitialInside(inp: seq<seq<bool>>)
    requires inp != []
    requires forall y, x :: 0 <= y < |inp| && 0 <= x < |inp[y]| && inp[y][x] ==> x <= |inp[0]|
    ensures Inside(Initial(inp), InitialBox(inp))
  {
  }

  /** From bounds that hold the live cells, every box of the run holds the live cells of
      its step ... */
  lemma {:induction false} RunInside(space: set<Cell>, box: Box, k: nat, s: set<Cell>, b: Box)
    requires Inside(space, box) && (s, b) == Run(space, box, k)
    ensures Inside(s, b)
  {
    if k > 0 {
      var r := Run(space, box, k - 1);
      RunInside(space, box, k - 1, r.0, r.1);
      StepKeepsInside(r.0, r.1, s, b);
    }
  }

  /** ... so every step of the run applies the rule to the whole space. */
  lemma RunIsRule(space: set<Cell>, box: Box, k: nat)
    requires Inside(space, box)
    ensures forall c :: c in Run(space, box, k + 1).0 <==> Rule(Run(space, box, k).0, c)
  {
    var (s, b) := Run(space, box, k);
    RunInside(space, box, k, s, b);
    StepIsRule(s, b);
    assert Run(space, box, k + 1).0 == NextSpace(s, b.Range());
  }

  /** The loops that add the live cells of the grid. */
  method Seed(inp: seq<seq<bool>>) returns (space: set<Cell>)
    ensures space == Initial(inp)
  {
    space := {};
    for y := 0 to |inp|
      invariant space == set y', x | 0 <= y' < y && 0 <= x < |inp[y']| && inp[y'][x] :: Cell(x, y', 0, 0)
    {
      for x := 0 to |inp[y]|
        invariant space == (set y', x' | 0 <= y' < y && 0 <= x' < |inp[y']| && inp[y'][x'] :: Cell(x', y', 0, 0))
          + (set x' | 0 <= x' < x && inp[y][x'] :: Cell(x', y, 0, 0))
      {
        if inp[y][x] {
          space := space + {Cell(x, y, 0, 0)};
        }
      }
    }
  }

  /** part2: the number of live cells after six steps; an empty grid makes `inp[0]`
      raise. */
  method Part2(inp: seq<seq<bool>>) returns (r: Option<nat>)
    ensures inp == [] ==> r == None
    ensures inp != [] ==> r == Some(|Run(Initial(inp), InitialBox(inp), 6).0|)
  {
    if inp == [] {
      return None;
    }
    var bounds := new Bounds((0, |inp[0]|), (0, |inp|), (0, 1), (0, 1));
    var space := Seed(inp);
    for i := 0 to 6
      invariant (space, bounds.Value()) == Run(Initial(inp), InitialBox(inp), i)
    {
      space, bounds := Step(space, bounds);
    }
    r := Some(|space|);
  }
}
