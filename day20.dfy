/** Day 20: square image tiles whose edges must line up. This module covers the
    bookkeeping around the search: the edges a tile shows in each of its eight
    orientations, opposite sides, the assignment records that say which tile lies beyond
    which side, the sides still to fill, walking the solved grid, and reading a tile. */
module Day20 {
  import opened Basics
  import opened Strings

  // ---------------------------------------------------------------------------
  // Orientations
  // ---------------------------------------------------------------------------

  /** The side names "top", "bottom", "left" and "right". */
  datatype Side = Top | Bottom | Left | Right

  /** A tile as `parse_tile` builds it: its number, its rows and its four edges. */
  datatype Tile = Tile(number: int, data: seq<string>, top: string, bottom: string, left: string, right: string)

  /** The four edges of a tile in one orientation. */
  datatype Edges = Edges(top: string, right: string, bottom: string, left: string)

  /** `s[::-1]`. */
  function Reverse(s: string): (r: string)
    ensures |r| == |s| && forall i :: 0 <= i < |s| ==> r[i] == s[|s| - 1 - i]
  {
    if s == [] then [] else Reverse(s[1..]) + [s[0]]
  }

  lemma ReverseReverse(s: string)
    ensures Reverse(Reverse(s)) == s
  {
  }

  function TileEdges(t: Tile): Edges
  {
    Edges(t.top, t.right, t.bottom, t.left)
  }

  /** A quarter turn clockwise: the left edge, read backwards, comes to the top. */
  function Rotate(e: Edges): Edges
  {
    Edges(Reverse(e.left), e.top, Reverse(e.right), e.bottom)
  }

  function RotateN(e: Edges, k: nat): Edges
  {
    if k == 0 then e else Rotate(RotateN(e, k - 1))
  }

  /** The mirror image: top and bottom read backwards, left and right exchanged. */
  function Flip(e: Edges): Edges
  {
    Edges(Reverse(e.top), e.left, Reverse(e.bottom), e.right)
  }

  /** Orientation `pos` of `generate_possible_joins`: `pos % 4` quarter turns, then a
      mirror image when `pos >= 4`. */
  function Orient(e: Edges, pos: nat): Edges
  {
    var turned := RotateN(e, pos % 4);
    if pos >= 4 then Flip(turned) else turned
  }

  function EdgeAt(e: Edges, side: Side): string
  {
    match side
    case Top => e.top
    case Right => e.right
    case Bottom => e.bottom
    case Left => e.left
  }

  /** `generate_possible_joins`: the edge on `side` in each of the eight orientations, with
      the orientation's position, in order. */
  method GeneratePossibleJoins(tile: Tile, side: Side) returns (out: seq<(int, string)>)
    ensures |out| == 8
    ensures forall p :: 0 <= p < 8 ==> out[p] == (p, EdgeAt(Orient(TileEdges(tile), p), side))
  {
    out := [];
    for pos := 0 to 8
      invariant |out| == pos
      invariant forall p :: 0 <= p < pos ==> out[p] == (p, EdgeAt(Orient(TileEdges(tile), p), side))
    {
      var top, bottom, left, right := tile.top, tile.bottom, tile.left, tile.right;
      for k := 0 to pos % 4
        invariant Edges(top, right, bottom, left) == RotateN(TileEdges(tile), k)
      {
        top, right, bottom, left := Reverse(left), top, Reverse(right), bottom;
      }
      if pos >= 4 {
        bottom := Reverse(bottom);
        top := Reverse(top);
        left, right := right, left;
      }
      var sideToUse := match side
        case Top => top
        case Right => right
        case Bottom => bottom
        case Left => left;
      out := out + [(pos, sideToUse)];
    }
  }

  /** Position 0 is the tile as it was read. */
  lemma OrientZero(e: Edges)
    ensures Orient(e, 0) == e
  {
  }

  /** Four quarter turns give the tile back. */
  lemma RotateFour(e: Edges)
    ensures RotateN(e, 4) == e
  {
    assert RotateN(e, 1) == Rotate(e);
    assert RotateN(e, 2) == Rotate(Rotate(e));
    assert RotateN(e, 3) == Rotate(RotateN(e, 2));
    assert RotateN(e, 4) == Rotate(RotateN(e, 3));
    ReverseReverse(e.top);
    ReverseReverse(e.right);
    ReverseReverse(e.bottom);
    ReverseReverse(e.left);
  }

  /** Two mirror images give the tile back. */
  lemma FlipTwice(e: Edges)
    ensures Flip(Flip(e)) == e
  {
    ReverseReverse(e.top);
    ReverseReverse(e.bottom);
  }

  /** The top edges of the eight orientations are the tile's four edges, each read once
      forwards and once backwards: every way a neighbour can meet the tile from above is
      tried once. */
  lemma OrientTops(e: Edges)
    ensures [Orient(e, 0).top, Orient(e, 1).top, Orient(e, 2).top, Orient(e, 3).top,
             Orient(e, 4).top, Orient(e, 5).top, Orient(e, 6).top, Orient(e, 7).top]
      == [e.top, Reverse(e.left), Reverse(e.bottom), e.right,
          Reverse(e.top), e.left, e.bottom, Reverse(e.right)]
  {
    assert RotateN(e, 1) == Rotate(e);
    assert RotateN(e, 2) == Rotate(Rotate(e));
    assert RotateN(e, 3) == Rotate(Rotate(Rotate(e)));
    ReverseReverse(e.left);
    ReverseReverse(e.bottom);
    ReverseReverse(e.right);
  }

  /** `invert_side`: the side that meets `side` on a neighbouring tile. */
  function InvertSide(side: Side): (r: Side)
    ensures r != side
  {
    match side
    case Left => Right
    case Right => Left
    case Top => Bottom
    case Bottom => Top
  }

  lemma InvertSideInvolution(side: Side)
    ensures InvertSide(InvertSide(side)) == side
  {
  }

  // ---------------------------------------------------------------------------
  // Assignments
  // ---------------------------------------------------------------------------

  /** An `Assignment`: a tile, its orientation and the tile found beyond each side. */
  datatype Assignment = Assignment(tileNo: int, ti: int,
    top: Option<int>, bottom: Option<int>, left: Option<int>, right: Option<int>)

  /** `getattr(a, side)`. */
  function Get(a: Assignment, side: Side): Option<int>
  {
    match side
    case Top => a.top
    case Bottom => a.bottom
    case Left => a.left
    case Right => a.right
  }

  /** `setattr(a, side, v)` on a copy. */
  function Set(a: Assignment, side: Side, v: Option<int>): (b: Assignment)
    ensures Get(b, side) == v
    ensures forall s :: s != side ==> Get(b, s) == Get(a, s)
    ensures b.tileNo == a.tileNo && b.ti == a.ti
  {
    match side
    case Top => a.(top := v)
    case Bottom => a.(bottom := v)
    case Left => a.(left := v)
    case Right => a.(right := v)
  }

  /** The attribute order of `update_with_assignment` and `count_assignments`. */
  function Attributes(): seq<Side>
  {
    [Top, Bottom, Left, Right]
  }

  /** An existing assignment updated with the sides `to_add` knows; everything else of the
      existing one is kept. */
  function Merge(existing: Assignment, toAdd: Assignment): (m: Assignment)
    ensures m.tileNo == existing.tileNo && m.ti == existing.ti
    ensures forall s :: Get(m, s) == (if Get(toAdd, s).Some? then Get(toAdd, s) else Get(existing, s))
  {
    existing.(top := if toAdd.top.Some? then toAdd.top else existing.top,
              bottom := if toAdd.bottom.Some? then toAdd.bottom else existing.bottom,
              left := if toAdd.left.Some? then toAdd.left else existing.left,
              right := if toAdd.right.Some? then toAdd.right else existing.right)
  }

  /** Merging the same sides twice changes nothing more. */
  lemma MergeIdempotent(existing: Assignment, toAdd: Assignment)
    ensures Merge(Merge(existing, toAdd), toAdd) == Merge(existing, toAdd)
  {
    var m := Merge(existing, toAdd);
    var mm := Merge(m, toAdd);
    assert Get(mm, Top) == Get(m, Top) && Get(mm, Bottom) == Get(m, Bottom);
    assert Get(mm, Left) == Get(m, Left) && Get(mm, Right) == Get(m, Right);
  }

  /** A side already known keeps its tile when the update does not name that side. */
  lemma MergeKeepsKnown(existing: Assignment, toAdd: Assignment, s: Side)
    requires Get(toAdd, s).None?
    ensures Get(Merge(existing, toAdd), s) == Get(existing, s)
  {
  }

  /** `update_with_assignment`: a new dictionary in which the tile of `to_add` gets
      `to_add` itself when it had no assignment, and otherwise a copy of its assignment
      with the sides `to_add` sets overwritten. The dictionary passed in is a value here,
      so it is left as it was. */
  method UpdateWithAssignment(current: map<int, Assignment>, toAdd: Assignment)
    returns (r: map<int, Assignment>)
    ensures toAdd.tileNo !in current ==> r == current[toAdd.tileNo := toAdd]
    ensures toAdd.tileNo in current ==>
      r == current[toAdd.tileNo := Merge(current[toAdd.tileNo], toAdd)]
  {
    var newAssigns := current;
    if toAdd.tileNo !in current {
      newAssigns := newAssigns[toAdd.tileNo := toAdd];
      return newAssigns;
    }
    var existing := current[toAdd.tileNo];
    ghost var original := existing;
    var attrs := Attributes();
    for i := 0 to 4
      invariant existing.tileNo == original.tileNo && existing.ti == original.ti
      invariant forall j :: 0 <= j < i ==> Get(existing, attrs[j]) == Get(Merge(original, toAdd), attrs[j])
      invariant forall j :: i <= j < 4 ==> Get(existing, attrs[j]) == Get(original, attrs[j])
    {
      var val := Get(toAdd, attrs[i]);
      if val.Some? {
        existing := Set(existing, attrs[i], val);
      }
    }
    assert Get(existing, attrs[0]) == Get(Merge(original, toAdd), Top);
    assert Get(existing, attrs[1]) == Get(Merge(original, toAdd), Bottom);
    assert Get(existing, attrs[2]) == Get(Merge(original, toAdd), Left);
    assert Get(existing, attrs[3]) == Get(Merge(original, toAdd), Right);
    newAssigns := newAssigns[toAdd.tileNo := existing];
    return newAssigns;
  }

  /** The number of sides among `sides` whose neighbour is known. */
  function FilledAmong(a: Assignment, sides: seq<Side>): (n: nat)
    ensures n <= |sides|
  {
    if sides == [] then 0 else (if Get(a, sides[0]).Some? then 1 else 0) + FilledAmong(a, sides[1..])
  }

  /** The number of sides of an assignment whose neighbour is known. */
  function Filled(a: Assignment): (n: nat)
    ensures n <= 4
  {
    FilledAmong(a, Attributes())
  }

  /** The loop over the four attributes that counts the known sides of one assignment. */
  method CountFilled(a: Assignment) returns (forThis: nat)
    ensures forThis == Filled(a)
  {
    forThis := 0;
    var attrs := Attributes();
    for i := 0 to 4
      invariant forThis + FilledAmong(a, attrs[i..]) == Filled(a)
    {
      assert attrs[i..][1..] == attrs[i + 1..];
      if Get(a, attrs[i]).Some? {
        forThis := forThis + 1;
      }
    }
  }

  /** `count_assignments` as written, on the dictionary's values in their order: `total`
      is never increased, so the count is 0 whatever the assignments are. */
  method CountAssignments(values: seq<Assignment>) returns (total: int)
    ensures total == 0
  {
    total := 0;
    for i := 0 to |values|
      invariant total == 0
    {
      var forThis := CountFilled(values[i]);
      if !(forThis == 2 || forThis == 3 || forThis == 4) {
        return 0;
      }
    }
    return total;
  }

  /** What `count_assignments` is compared with: the sides with a known neighbour, added
      up over all tiles, or 0 when some tile has fewer than 2 or (impossibly) more than 4
      of them. */
  function AssignedSides(values: seq<Assignment>): (n: nat)
    ensures n > 0 ==> forall i :: 0 <= i < |values| ==> 2 <= Filled(values[i])
  {
    if exists i :: 0 <= i < |values| && Filled(values[i]) < 2 then 0
    else SumFilled(values)
  }

  function SumFilled(values: seq<Assignment>): (n: nat)
    ensures n <= 4 * |values|
  {
    if values == [] then 0 else Filled(values[0]) + SumFilled(values[1..])
  }

  /** The corrected count: the loop of `count_assignments` with the per-tile counts added
      to `total`. */
  method CountAssignmentsCorrected(values: seq<Assignment>) returns (total: int)
    ensures total == AssignedSides(values)
  {
    total := 0;
    for i := 0 to |values|
      invariant forall j :: 0 <= j < i ==> Filled(values[j]) >= 2
      invariant total + SumFilled(values[i..]) == SumFilled(values)
    {
      assert values[i..][1..] == values[i + 1..];
      var forThis := CountFilled(values[i]);
      if !(forThis == 2 || forThis == 3 || forThis == 4) {
        return 0;
      }
      total := total + forThis;
    }
  }

  /** The solved 2 x 2 grid 1 2 / 3 4 in orientation 0. */
  function SolvedSquare(): seq<Assignment>
  {
    [Assignment(1, 0, None, Some(3), None, Some(2)),
     Assignment(2, 0, None, Some(4), Some(1), None),
     Assignment(3, 0, Some(1), None, None, Some(4)),
     Assignment(4, 0, Some(2), None, Some(3), None)]
  }

  /** In a solved 2 x 2 grid every tile knows 2 neighbours, and the 8 known sides are the
      `4 * width * width - 4 * width` that part1 asks for; `count_assignments` reports 0
      for it. */
  lemma SolvedSquareCount()
    ensures AssignedSides(SolvedSquare()) == 4 * 2 * 2 - 4 * 2
  {
    var v := SolvedSquare();
    assert forall i :: 0 <= i < 4 ==> Filled(v[i]) == 2;
    assert SumFilled(v[3..]) == 2 by { assert v[3..][1..] == []; }
    assert SumFilled(v[2..]) == 4 by { assert v[2..][1..] == v[3..]; }
    assert SumFilled(v[1..]) == 6 by { assert v[1..][1..] == v[2..]; }
  }

  /** The sides of a tile in the order `unfilled_sides` lists them. */
  function Rank(s: Side): nat
  {
    match s
    case Top => 0
    case Left => 1
    case Bottom => 2
    case Right => 3
  }

  /** `unfilled_sides`: the sides without a known neighbour, in the order top, left,
      bottom, right. */
  function UnfilledSides(a: Assignment): (r: seq<Side>)
    ensures forall s :: s in r <==> Get(a, s).None?
    ensures forall i, j :: 0 <= i < j < |r| ==> Rank(r[i]) < Rank(r[j])
  {
    NoneOf(a, [Top, Left, Bottom, Right])
  }

  /** The sides of `sides` without a known neighbour, in their order. */
  function NoneOf(a: Assignment, sides: seq<Side>): (r: seq<Side>)
    requires forall i, j :: 0 <= i < j < |sides| ==> Rank(sides[i]) < Rank(sides[j])
    ensures forall s :: s in r <==> s in sides && Get(a, s).None?
    ensures forall i, j :: 0 <= i < j < |r| ==> Rank(r[i]) < Rank(r[j])
  {
    if sides == [] then []
    else
      var rest := NoneOf(a, sides[1..]);
      assert forall i :: 0 <= i < |rest| ==> Rank(sides[0]) < Rank(rest[i]) by {
        forall i | 0 <= i < |rest| ensures Rank(sides[0]) < Rank(rest[i]) {
          assert rest[i] in sides[1..];
        }
      }
      if Get(a, sides[0]).None? then [sides[0]] + rest else rest
  }

  /** When no side is known, every side is listed. */
  lemma {:induction false} NoneOfAll(a: Assignment, sides: seq<Side>)
    requires forall i, j :: 0 <= i < j < |sides| ==> Rank(sides[i]) < Rank(sides[j])
    requires forall s :: Get(a, s).None?
    ensures NoneOf(a, sides) == sides
  {
    if sides != [] {
      NoneOfAll(a, sides[1..]);
    }
  }

  /** A side that `unfilled_sides` lists once. */
  datatype ToFill = ToFill(tileNo: int, side: Side)

  /** `generate_remaining_assignments`: one side to fill per listed side of the tile. */
  function GenerateRemainingAssignments(tileNo: int, unfilled: seq<Side>): (r: set<ToFill>)
    ensures forall f :: f in r <==> f.tileNo == tileNo && f.side in unfilled
  {
    set s | s in unfilled :: ToFill(tileNo, s)
  }

  /** Distinct sides give as many sides to fill. */
  lemma {:induction false} RemainingCount(tileNo: int, unfilled: seq<Side>)
    requires Distinct(unfilled)
    ensures |GenerateRemainingAssignments(tileNo, unfilled)| == |unfilled|
  {
    if unfilled != [] {
      var rest := unfilled[1..];
      assert Distinct(rest);
      RemainingCount(tileNo, rest);
      assert unfilled[0] !in rest;
      assert GenerateRemainingAssignments(tileNo, unfilled)
        == GenerateRemainingAssignments(tileNo, rest) + {ToFill(tileNo, unfilled[0])};
    }
  }

  /** A tile with no neighbour known yet has all four sides to fill, as part1 starts. */
  lemma FreshTileToFill(a: Assignment)
    requires a.top.None? && a.bottom.None? && a.left.None? && a.right.None?
    ensures UnfilledSides(a) == [Top, Left, Bottom, Right]
    ensures |GenerateRemainingAssignments(a.tileNo, UnfilledSides(a))| == 4
  {
    NoneOfAll(a, [Top, Left, Bottom, Right]);
    RemainingCount(a.tileNo, [Top, Left, Bottom, Right]);
  }

  // ---------------------------------------------------------------------------
  // Walking the solved grid
  // ---------------------------------------------------------------------------

  /** `k` steps across `side` from tile `curr`: a missing tile raises `KeyError`, a side
      with no neighbour fails the `assert`. */
  function Follow(assignments: map<int, Assignment>, curr: int, side: Side, k: nat): Result<int>
    decreases k
  {
    if k == 0 then Ok(curr)
    else if curr !in assignments then Err("KeyError")
    else match Get(assignments[curr], side)
      case None => Err("AssertionError")
      case Some(n) => Follow(assignments, n, side, k - 1)
  }

  /** `get_at_coord` as a value: `y` steps down from the top-left tile, then `x` steps
      right. */
  function AtCoord(x: nat, y: nat, assignments: map<int, Assignment>, topLeft: int): Result<Assignment>
  {
    match Follow(assignments, topLeft, Bottom, y)
    case Err(e) => Err(e)
    case Ok(c) =>
      match Follow(assignments, c, Right, x)
      case Err(e) => Err(e)
      case Ok(d) => if d in assignments then Ok(assignments[d]) else Err("KeyError")
  }

  /** `get_at_coord`: the two walking loops. */
  method GetAtCoord(x: nat, y: nat, assignments: map<int, Assignment>, topLeft: int)
    returns (r: Result<Assignment>)
    ensures r == AtCoord(x, y, assignments, topLeft)
  {
    var curr := topLeft;
    for i := 0 to y
      invariant Follow(assignments, topLeft, Bottom, y) == Follow(assignments, curr, Bottom, y - i)
    {
      if curr !in assignments {
        return Err("KeyError");
      }
      var next := assignments[curr].bottom;
      if next.None? {
        return Err("AssertionError");
      }
      curr := next.value;
    }
    ghost var c := curr;
    for i := 0 to x
      invariant Follow(assignments, c, Right, x) == Follow(assignments, curr, Right, x - i)
    {
      if curr !in assignments {
        return Err("KeyError");
      }
      var next := assignments[curr].right;
      if next.None? {
        return Err("AssertionError");
      }
      curr := next.value;
    }
    if curr !in assignments {
      return Err("KeyError");
    }
    return Ok(assignments[curr]);
  }

  /** `ids` is a rectangle of tile numbers and `assignments` the solved puzzle for it: each
      tile knows exactly its neighbours in the rectangle. */
  ghost predicate IsGrid(assignments: map<int, Assignment>, ids: seq<seq<int>>)
  {
    |ids| >= 1 && |ids[0]| >= 1
    && (forall i :: 0 <= i < |ids| ==> |ids[i]| == |ids[0]|)
    && forall i, j :: 0 <= i < |ids| && 0 <= j < |ids[0]| ==> GridCell(assignments, ids, i, j)
  }

  ghost predicate GridCell(assignments: map<int, Assignment>, ids: seq<seq<int>>, i: nat, j: nat)
    requires i < |ids| && |ids[0]| >= 1 && (forall k :: 0 <= k < |ids| ==> |ids[k]| == |ids[0]|)
    requires j < |ids[0]|
  {
    var w := |ids[0]|;
    ids[i][j] in assignments
    && var a := assignments[ids[i][j]];
    a.tileNo == ids[i][j]
    && a.top == (if i > 0 then Some(ids[i - 1][j]) else None)
    && a.bottom == (if i + 1 < |ids| then Some(ids[i + 1][j]) else None)
    && a.left == (if j > 0 then Some(ids[i][j - 1]) else None)
    && a.right == (if j + 1 < w then Some(ids[i][j + 1]) else None)
  }

  lemma {:induction false} FollowDown(assignments: map<int, Assignment>, ids: seq<seq<int>>, i: nat, j: nat, k: nat)
    requires IsGrid(assignments, ids) && j < |ids[0]| && i + k < |ids|
    ensures Follow(assignments, ids[i][j], Bottom, k) == Ok(ids[i + k][j])
    decreases k
  {
    if k > 0 {
      assert GridCell(assignments, ids, i, j);
      FollowDown(assignments, ids, i + 1, j, k - 1);
    }
  }

  lemma {:induction false} FollowRight(assignments: map<int, Assignment>, ids: seq<seq<int>>, i: nat, j: nat, k: nat)
    requires IsGrid(assignments, ids) && i < |ids| && j + k < |ids[0]|
    ensures Follow(assignments, ids[i][j], Right, k) == Ok(ids[i][j + k])
    decreases k
  {
    if k > 0 {
      assert GridCell(assignments, ids, i, j);
      FollowRight(assignments, ids, i, j + 1, k - 1);
    }
  }

  /** In a solved grid, `get_at_coord(x, y)` from the top-left tile is the tile in row `y`,
      column `x`. */
  lemma AtCoordInGrid(assignments: map<int, Assignment>, ids: seq<seq<int>>, x: nat, y: nat)
    requires IsGrid(assignments, ids) && y < |ids| && x < |ids[0]|
    ensures ids[y][x] in assignments && AtCoord(x, y, assignments, ids[0][0]) == Ok(assignments[ids[y][x]])
  {
    FollowDown(assignments, ids, 0, 0, y);
    FollowRight(assignments, ids, y, 0, x);
    assert GridCell(assignments, ids, y, x);
  }

  /** The outcome of `find_corner`: a tile number, an exception, or a walk longer than the
      step bound given. */
  datatype Corner = Found(tile: int) | Raised(msg: string) | Unfinished

  /** The walk of `find_corner` from `curr`: across the first side while it has a
      neighbour, otherwise across the second, stopping at a tile with neither. */
  function Walk(assignments: map<int, Assignment>, curr: Assignment, dirs: (Side, Side), fuel: nat): Corner
    decreases fuel
  {
    if fuel == 0 then Unfinished
    else
      var n := if Get(curr, dirs.0).Some? then Get(curr, dirs.0) else Get(curr, dirs.1);
      if n.None? then Found(curr.tileNo)
      else if n.value !in assignments then Raised("KeyError")
      else Walk(assignments, assignments[n.value], dirs, fuel - 1)
  }

  /** `find_corner`, with the dictionary's keys in insertion order (the walk starts at the
      first value) and at most `fuel` tiles visited. A tile found has no neighbour on
      either side. */
  method FindCorner(assignments: map<int, Assignment>, keys: seq<int>, dirs: (Side, Side), fuel: nat)
    returns (r: Corner)
    requires forall i :: 0 <= i < |keys| ==> keys[i] in assignments
    requires forall k :: k in assignments ==> k in keys
    ensures keys == [] ==> r == Raised("StopIteration")
    ensures keys != [] ==> keys[0] in assignments && r == Walk(assignments, assignments[keys[0]], dirs, fuel)
  {
    if keys == [] {
      return Raised("StopIteration");
    }
    var curr := assignments[keys[0]];
    var steps := fuel;
    while true
      invariant Walk(assignments, assignments[keys[0]], dirs, fuel) == Walk(assignments, curr, dirs, steps)
      decreases steps
    {
      if steps == 0 {
        return Unfinished;
      }
      var n := Get(curr, dirs.0);
      if n.None? {
        n := Get(curr, dirs.1);
      }
      if n.None? {
        return Found(curr.tileNo);
      }
      if n.value !in assignments {
        return Raised("KeyError");
      }
      curr := assignments[n.value];
      steps := steps - 1;
    }
  }

  /** A tile the walk stops at has no neighbour on either of the two sides. */
  lemma {:induction false} WalkFindsCorner(assignments: map<int, Assignment>, curr: Assignment, dirs: (Side, Side), fuel: nat)
    requires curr in assignments.Values
    requires Walk(assignments, curr, dirs, fuel).Found?
    ensures exists a :: (a in assignments.Values && a.tileNo == Walk(assignments, curr, dirs, fuel).tile
      && Get(a, dirs.0).None? && Get(a, dirs.1).None?)
    decreases fuel
  {
    var n := if Get(curr, dirs.0).Some? then Get(curr, dirs.0) else Get(curr, dirs.1);
    if n.Some? {
      WalkFindsCorner(assignments, assignments[n.value], dirs, fuel - 1);
    }
  }

  /** In a solved grid the walk towards the top and the left ends at the top-left tile,
      within one step per row and column. */
  lemma {:induction false} WalkToTopLeft(assignments: map<int, Assignment>, ids: seq<seq<int>>, i: nat, j: nat, fuel: nat)
    requires IsGrid(assignments, ids) && i < |ids| && j < |ids[0]|
    requires fuel > i + j
    ensures ids[i][j] in assignments
      && Walk(assignments, assignments[ids[i][j]], (Top, Left), fuel) == Found(ids[0][0])
    decreases i + j
  {
    assert GridCell(assignments, ids, i, j);
    if i > 0 {
      WalkToTopLeft(assignments, ids, i - 1, j, fuel - 1);
    } else if j > 0 {
      WalkToTopLeft(assignments, ids, i, j - 1, fuel - 1);
    }
  }

  // ---------------------------------------------------------------------------
  // parse_tile
  // ---------------------------------------------------------------------------

  predicate IsColon(c: char)
  {
    c == ':'
  }

  /** `s[k:]`, which is empty when `s` is shorter. */
  function Drop(s: string, k: nat): (r: string)
    ensures |s| >= k ==> r == s[k..]
    ensures |s| < k ==> r == []
  {
    if |s| >= k then s[k..] else []
  }

  /** The first or the last character of each row. */
  function Column(data: seq<string>, last: bool): (r: string)
    requires forall i :: 0 <= i < |data| ==> |data[i]| >= 1
    ensures |r| == |data|
    ensures forall i :: 0 <= i < |data| ==> r[i] == (if last then data[i][|data[i]| - 1] else data[i][0])
  {
    if data == [] then []
    else [if last then data[0][|data[0]| - 1] else data[0][0]] + Column(data[1..], last)
  }

  /** `parse_tile`: the number from the header line after its first five characters, with
      colons stripped; the first and last rows and the first and last columns as edges.
      No lines, a bad number, no rows or an empty row raise. */
  function ParseTile(tile: string): Result<Tile>
  {
    var lines := SplitLines(tile);
    if lines == [] then Err("ValueError")
    else
      var num := ParseInt(StripBy(Drop(lines[0], 5), IsColon));
      var data := lines[1..];
      if num.None? then Err("ValueError")
      else if data == [] then Err("IndexError")
      else if exists i :: 0 <= i < |data| && data[i] == [] then Err("IndexError")
      else Ok(Tile(num.value, data, data[0], data[|data| - 1], Column(data, false), Column(data, true)))
  }

  /** A tile written out as in the puzzle input. */
  function TileText(number: int, data: seq<string>): string
  {
    Join(["Tile " + IntToString(number) + ":"] + data, '\n')
  }

  /** `parse_tile` reads back a tile written out with its number and non-empty rows. */
  lemma ParseTileText(number: int, data: seq<string>)
    requires |data| >= 1
    requires forall i :: 0 <= i < |data| ==> |data[i]| >= 1 && '\n' !in data[i]
    ensures ParseTile(TileText(number, data))
      == Ok(Tile(number, data, data[0], data[|data| - 1], Column(data, false), Column(data, true)))
  {
    var num := IntToString(number);
    var header := "Tile " + num + ":";
    TileLines(number, data);
    assert StripBy(Drop(header, 5), IsColon) == num by {
      assert header == "Tile " + (num + ":");
      assert |"Tile "| == 5;
      assert header[5..] == num + ":";
      IntToStringChars(number);
      ColonsStripped(num);
    }
    ParseIntToString(number);
    ParseTileLines(TileText(number, data), header, data, number);
  }

  /** A text whose lines are a header holding the number and non-empty rows parses to the
      tile of those rows. */
  lemma ParseTileLines(tile: string, header: string, data: seq<string>, number: int)
    requires SplitLines(tile) == [header] + data && |data| >= 1
    requires forall i :: 0 <= i < |data| ==> |data[i]| >= 1
    requires ParseInt(StripBy(Drop(header, 5), IsColon)) == Some(number)
    ensures ParseTile(tile)
      == Ok(Tile(number, data, data[0], data[|data| - 1], Column(data, false), Column(data, true)))
  {
    var lines := SplitLines(tile);
    assert lines[0] == header && lines[1..] == data;
    assert !exists i :: 0 <= i < |data| && data[i] == [] by {
      forall i | 0 <= i < |data| ensures data[i] != [] {
        assert |data[i]| >= 1;
      }
    }
  }

  /** The lines of a tile's text are its header and its rows. */
  lemma TileLines(number: int, data: seq<string>)
    requires |data| >= 1
    requires forall i :: 0 <= i < |data| ==> |data[i]| >= 1 && '\n' !in data[i]
    ensures SplitLines(TileText(number, data)) == ["Tile " + IntToString(number) + ":"] + data
  {
    var header := "Tile " + IntToString(number) + ":";
    var xs := [header] + data;
    IntToStringChars(number);
    assert '\n' !in header;
    assert xs[|xs| - 1] == data[|data| - 1];
    assert forall i :: 1 <= i < |xs| ==> xs[i] == data[i - 1];
    SplitLinesJoin(xs);
  }

  lemma ColonsStripped(num: string)
    requires |num| >= 1 && !IsColon(num[0]) && !IsColon(num[|num| - 1])
    ensures StripBy(num + ":", IsColon) == num
  {
    var s := num + ":";
    assert s[..|s| - 1] == num;
    assert RStripBy(s, IsColon) == RStripBy(num, IsColon);
    assert RStripBy(num, IsColon) == num;
    assert LStripBy(num, IsColon) == num;
  }
}
