/** Grid coordinates and compass directions: the part of the GridWorld
    library's `Location` class that the critters call. Rows grow southward
    and columns eastward; a direction is in degrees, clockwise from north. */
module Locations {

  /** A cell coordinate. */
  datatype Loc = Loc(row: int, col: int)

  /** A heading as an actor stores it: `Actor.setDirection` reduces every
      angle into [0, 360). */
  type Direction = d: int | 0 <= d < 360

  const NORTH: Direction := 0
  const NORTHEAST: Direction := 45
  const EAST: Direction := 90
  const SOUTHEAST: Direction := 135
  const SOUTH: Direction := 180
  const SOUTHWEST: Direction := 225
  const WEST: Direction := 270
  const NORTHWEST: Direction := 315

  /** Turn amounts, as the library's `Location` constants. */
  const LEFT: int := -90
  const RIGHT: int := 90
  const HALF_RIGHT: int := 45
  const HALF_CIRCLE: int := 180
  const FULL_CIRCLE: int := 360

  function Abs(x: int): nat {
    if x < 0 then -x else x
  }

  function Max(x: int, y: int): int {
    if x < y then y else x
  }

  /** Chebyshev distance: the number of king moves between two cells. */
  function Dist(a: Loc, b: Loc): nat {
    Max(Abs(a.row - b.row), Abs(a.col - b.col))
  }

  /** The heading an actor ends up with after `setDirection(d)`. */
  function Normalize(d: int): (r: Direction)
    ensures (r - d) % FULL_CIRCLE == 0
  {
    d % FULL_CIRCLE
  }

  /** Which of the eight compass points `d` rounds to (0 = north, 1 =
      north-east, ..., 7 = north-west): the library adds half of 45
      (integer 22), reduces modulo 360 and truncates to a multiple of 45. */
  function Octant(d: int): (o: nat)
    ensures o < 8
  {
    ((d + HALF_RIGHT / 2) % FULL_CIRCLE) / HALF_RIGHT
  }

  function RowStep(o: nat): int {
    if o == 0 || o == 1 || o == 7 then -1
    else if o == 3 || o == 4 || o == 5 then 1
    else 0
  }

  function ColStep(o: nat): int {
    if o == 1 || o == 2 || o == 3 then 1
    else if o == 5 || o == 6 || o == 7 then -1
    else 0
  }

  /** `Location.getAdjacentLocation`: the cell one step away in the compass
      direction nearest to `d`. */
  function Adjacent(l: Loc, d: int): (r: Loc)
    ensures Dist(l, r) == 1
  {
    var o := Octant(d);
    Loc(l.row + RowStep(o), l.col + ColStep(o))
  }

  /** A full turn more or less does not change the step. */
  lemma AdjacentPeriodic(l: Loc, d: int)
    ensures Adjacent(l, d + FULL_CIRCLE) == Adjacent(l, d)
    ensures Adjacent(l, Normalize(d)) == Adjacent(l, d)
  {
    var q, x := (d + 22) / 360, (d + 22) % 360;
    assert d + 22 == 360 * q + x;
    assert (d + FULL_CIRCLE + 22) % 360 == x by {
      assert d + FULL_CIRCLE + 22 == 360 * (q + 1) + x;
    }
    assert (Normalize(d) + 22) % 360 == x by {
      assert Normalize(d) + 22 == d + 22 - 360 * (d / 360);
      assert d + 22 - 360 * (d / 360) == 360 * (q - d / 360) + x;
    }
  }

  /** Half a turn moves the rounded compass point by four octants. */
  lemma OctantOpposite(d: int)
    ensures Octant(d + HALF_CIRCLE) == (Octant(d) + 4) % 8
  {
    var x := (d + 22) % 360;
    if x < 180 {
      assert (d + 180 + 22) % 360 == x + 180;
    } else {
      assert (d + 180 + 22) % 360 == x - 180;
    }
  }

  /** Stepping ahead and then stepping in the opposite direction returns to
      the start: the cells ahead of and behind an actor are on opposite
      sides of it. */
  lemma {:induction false} AdjacentOpposite(l: Loc, d: int)
    ensures Adjacent(Adjacent(l, d), d + HALF_CIRCLE) == l
    ensures Adjacent(l, d) != Adjacent(l, d + HALF_CIRCLE)
  {
    OctantOpposite(d);
  }

  /** The eight compass points in the order the library scans them. */
  function Compass(k: nat): (d: Direction)
    requires k < 8
    ensures Octant(d) == k
  {
    k * HALF_RIGHT
  }

  /** Every king-move neighbour is one step away in some compass direction. */
  lemma {:induction false} AdjacentComplete(l: Loc, m: Loc)
    requires Dist(l, m) == 1
    ensures exists k :: 0 <= k < 8 && Adjacent(l, Compass(k)) == m
  {
    var dr, dc := m.row - l.row, m.col - l.col;
    var k :=
      if dr == -1 && dc == 0 then 0
      else if dr == -1 && dc == 1 then 1
      else if dr == 0 && dc == 1 then 2
      else if dr == 1 && dc == 1 then 3
      else if dr == 1 && dc == 0 then 4
      else if dr == 1 && dc == -1 then 5
      else if dr == 0 && dc == -1 then 6
      else 7;
    assert Adjacent(l, Compass(k)) == m;
  }

  /** `Location.getDirectionToward`: the compass point nearest to the exact
      bearing from `a` to `b`. The bearing lies within 22.5 degrees of the
      east-west axis exactly when (|dr| + |dc|)^2 < 2 * dc^2, since
      tan(22.5) = sqrt(2) - 1; integer coordinates never sit on a boundary.
      The bearing from a cell to itself is east, as in the library. */
  function DirectionToward(a: Loc, b: Loc): (r: Direction)
    ensures r % HALF_RIGHT == 0
    ensures a.row == b.row && a.col < b.col ==> r == EAST
    ensures a.row == b.row && a.col > b.col ==> r == WEST
    ensures a.col == b.col && a.row > b.row ==> r == NORTH
    ensures a.col == b.col && a.row < b.row ==> r == SOUTH
  {
    var dr, dc := b.row - a.row, b.col - a.col;
    var v, h := Abs(dr), Abs(dc);
    AxisBands(v, h);
    if dr == 0 && dc == 0 then EAST
    else if (v + h) * (v + h) < 2 * h * h then (if dc > 0 then EAST else WEST)
    else if (v + h) * (v + h) < 2 * v * v then (if dr > 0 then SOUTH else NORTH)
    else if dr < 0 then (if dc > 0 then NORTHEAST else NORTHWEST)
    else (if dc > 0 then SOUTHEAST else SOUTHWEST)
  }

  /** A bearing along an axis rounds to that axis. */
  lemma AxisBands(v: nat, h: nat)
    ensures v == 0 && h > 0 ==> (v + h) * (v + h) < 2 * h * h
    ensures h == 0 && v > 0 ==> !((v + h) * (v + h) < 2 * h * h) && (v + h) * (v + h) < 2 * v * v
  {
    if v == 0 && h > 0 {
      assert (v + h) * (v + h) == h * h;
    }
    if h == 0 && v > 0 {
      assert (v + h) * (v + h) == v * v && h * h == 0;
    }
  }

  /** A bearing that rounds to an axis has a strictly larger component
      along that axis. */
  lemma NearAxis(v: nat, h: nat)
    requires (v + h) * (v + h) < 2 * h * h
    ensures v < h
  {
  }

  function Sign(x: int): int {
    if x < 0 then -1 else if x > 0 then 1 else 0
  }

  /** A king move that heads toward `b` on each axis, or stays put on an
      axis along which `b` is strictly nearer than along the other, brings
      `a` one step closer to `b`. */
  lemma StepCloser(a: Loc, b: Loc, sr: int, sc: int)
    requires a != b
    requires sr == Sign(b.row - a.row) || (sr == 0 && Abs(b.row - a.row) < Abs(b.col - a.col))
    requires sc == Sign(b.col - a.col) || (sc == 0 && Abs(b.col - a.col) < Abs(b.row - a.row))
    ensures Dist(Loc(a.row + sr, a.col + sc), b) == Dist(a, b) - 1
  {
  }

  /** One step along `DirectionToward(a, b)` brings `a` one king move
      closer to `b`. */
  lemma {:induction false} DirectionTowardApproaches(a: Loc, b: Loc)
    requires a != b
    ensures Dist(Adjacent(a, DirectionToward(a, b)), b) == Dist(a, b) - 1
  {
    var dr, dc := b.row - a.row, b.col - a.col;
    var v, h := Abs(dr), Abs(dc);
    if (v + h) * (v + h) < 2 * h * h {
      NearAxis(v, h);
      ApproachAlong(a, b, if dc > 0 then 2 else 6, 0, Sign(dc));
    } else if (v + h) * (v + h) < 2 * v * v {
      NearAxis(h, v);
      ApproachAlong(a, b, if dr > 0 then 4 else 0, Sign(dr), 0);
    } else {
      var k := if dr < 0 then (if dc > 0 then 1 else 7) else (if dc > 0 then 3 else 5);
      ApproachAlong(a, b, k, Sign(dr), Sign(dc));
    }
  }

  /** The step of `DirectionTowardApproaches` once the compass point `k`
      and its row and column steps are known. */
  lemma ApproachAlong(a: Loc, b: Loc, k: nat, sr: int, sc: int)
    requires a != b && k < 8 && DirectionToward(a, b) == Compass(k)
    requires RowStep(k) == sr && ColStep(k) == sc
    requires sr == Sign(b.row - a.row) || (sr == 0 && Abs(b.row - a.row) < Abs(b.col - a.col))
    requires sc == Sign(b.col - a.col) || (sc == 0 && Abs(b.col - a.col) < Abs(b.row - a.row))
    ensures Dist(Adjacent(a, DirectionToward(a, b)), b) == Dist(a, b) - 1
  {
    StepCloser(a, b, sr, sc);
    assert Adjacent(a, Compass(k)) == Loc(a.row + sr, a.col + sc);
  }

  /** The bearing from `b` back to `a` is the opposite compass point. */
  lemma {:induction false} DirectionTowardSymmetric(a: Loc, b: Loc)
    requires a != b
    ensures DirectionToward(b, a) == Normalize(DirectionToward(a, b) + HALF_CIRCLE)
  {
    var dr, dc := b.row - a.row, b.col - a.col;
    assert Abs(-dr) == Abs(dr) && Abs(-dc) == Abs(dc);
  }
}
