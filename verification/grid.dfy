/** The bounded grid: the part of the GridWorld library's `BoundedGrid`
    (`isValid`, `get`, `put`, the adjacent-location queries) and `Actor`
    lifecycle (`putSelfInGrid`, `removeSelfFromGrid`, `moveTo`) that the
    critters call. Occupancy is a map, so a cell holds at most one actor
    by construction; the remaining invariants are in `Grid.Valid`. */
module Grids {
  import opened Locations
  import opened Options
  import opened Actors
  import opened Seqs

  datatype Grid = Grid(rows: nat, cols: nat, cells: map<Loc, Actor>) {

    /** `Grid.isValid`: the cell lies inside the bounds. */
    predicate IsValid(l: Loc) {
      0 <= l.row < rows && 0 <= l.col < cols
    }

    /** Only valid cells are occupied, and no actor stands in two cells. */
    ghost predicate Valid() {
      && (forall l | l in cells :: IsValid(l))
      && (forall l, m | l in cells && m in cells && cells[l].id == cells[m].id :: l == m)
    }

    /** `Grid.get`: the occupant, or `None` for an empty cell. The bounded
        grid rejects an invalid location. */
    function Get(l: Loc): (r: Option<Actor>)
      requires IsValid(l)
      ensures r.Some? <==> l in cells
      ensures r.Some? ==> r.value == cells[l]
    {
      if l in cells then Some(cells[l]) else None
    }

    /** The identities of the actors in the grid. */
    function Ids(): set<nat> {
      set l | l in cells :: cells[l].id
    }

    /** `getValidAdjacentLocations`: the in-bounds king-move neighbours of
        `l`, in compass order starting at north. */
    function ValidAdjacent(l: Loc): (r: seq<Loc>)
      ensures |r| <= 8 && Distinct(r)
      ensures forall m | m in r :: IsValid(m) && Dist(l, m) == 1
      ensures forall m | IsValid(m) && Dist(l, m) == 1 :: m in r
    {
      Filter(AdjacentLocs(l), m => IsValid(m))
    }

    /** `getEmptyAdjacentLocations`: the valid neighbours nobody stands on. */
    function EmptyAdjacent(l: Loc): (r: seq<Loc>)
      ensures |r| <= 8 && Distinct(r)
      ensures forall m | m in r :: IsValid(m) && Dist(l, m) == 1 && m !in cells
      ensures forall m | IsValid(m) && Dist(l, m) == 1 && m !in cells :: m in r
    {
      Filter(ValidAdjacent(l), m => m !in cells)
    }

    /** Surrounded: when every valid neighbour is taken, there is no empty
        adjacent location. */
    lemma {:induction false} Surrounded(l: Loc)
      requires forall m | IsValid(m) && Dist(l, m) == 1 :: m in cells
      ensures EmptyAdjacent(l) == []
    {
      var e := EmptyAdjacent(l);
      assert (set m | m in e) == {};
      DistinctCardinality(e);
    }

    /** `removeSelfFromGrid` of the actor at `l`. */
    function Remove(l: Loc): (r: Grid)
      requires l in cells
      ensures r.rows == rows && r.cols == cols
      ensures l !in r.cells && |r.cells| == |cells| - 1
      ensures r.cells - {l} == cells - {l}
      ensures Valid() ==> r.Valid() && r.Ids() == Ids() - {cells[l].id}
    {
      var r := Grid(rows, cols, cells - {l});
      assert r.cells.Keys == cells.Keys - {l};
      assert Valid() ==> r.Ids() == Ids() - {cells[l].id} by {
        if Valid() {
          forall i | i in Ids() - {cells[l].id} ensures i in r.Ids() {
            var m :| m in cells && cells[m].id == i;
            assert m in r.cells;
          }
        }
      }
      r
    }

    /** An actor that is in no grid enters an empty cell: `putSelfInGrid`,
        or `Grid.put` of a new actor. Both leave the grid's map the same;
        `Grid.put` does not set the actor's own grid and location, and this
        model does not record that difference. */
    function Place(l: Loc, a: Actor): (r: Grid)
      requires IsValid(l) && l !in cells
      ensures r.rows == rows && r.cols == cols
      ensures l in r.cells && r.cells[l] == a && |r.cells| == |cells| + 1
      ensures r.cells - {l} == cells - {l}
    {
      Grid(rows, cols, cells[l := a])
    }

    /** Placing an actor that is in no grid keeps the grid invariants and
        adds exactly its identity. */
    lemma PlaceValid(l: Loc, a: Actor)
      requires Valid() && IsValid(l) && l !in cells && a.id !in Ids()
      ensures Place(l, a).Valid()
      ensures Place(l, a).Ids() == Ids() + {a.id}
    {
      var r := Place(l, a);
      forall m | m in cells ensures cells[m].id != a.id {
        assert cells[m].id in Ids();
      }
      forall i | i in Ids() ensures i in r.Ids() {
        var m :| m in cells && cells[m].id == i;
        assert m in r.cells && r.cells[m] == cells[m];
      }
      assert r.cells[l].id == a.id;
    }

    /** The actor at `l` changes its own state (colour, heading, what it
        holds) but stays the same object in the same cell. */
    function Update(l: Loc, a: Actor): (r: Grid)
      requires l in cells && a.id == cells[l].id
      ensures r.rows == rows && r.cols == cols
      ensures l in r.cells && r.cells[l] == a && |r.cells| == |cells|
      ensures r.cells - {l} == cells - {l}
    {
      var r := Grid(rows, cols, cells[l := a]);
      assert r.cells.Keys == cells.Keys;
      r
    }

    /** Updating an actor in place keeps the grid invariants and the set of
        actors in the grid. */
    lemma UpdateValid(l: Loc, a: Actor)
      requires Valid() && l in cells && a.id == cells[l].id
      ensures Update(l, a).Valid() && Update(l, a).Ids() == Ids()
    {
      var r := Update(l, a);
      forall i | i in Ids() ensures i in r.Ids() {
        var m :| m in cells && cells[m].id == i;
        assert m in r.cells && r.cells[m].id == i;
      }
    }

    /** Moving to an empty cell keeps the grid invariants and the set of
        actors in the grid. */
    lemma MoveToValid(from: Loc, to: Loc)
      requires Valid() && from in cells && IsValid(to) && to !in cells
      ensures MoveTo(from, to).Valid() && MoveTo(from, to).Ids() == Ids()
    {
      var r := MoveTo(from, to);
      forall i | i in Ids() ensures i in r.Ids() {
        var m :| m in cells && cells[m].id == i;
        if m == from {
          assert r.cells[to].id == i;
        } else {
          assert m in r.cells && r.cells[m].id == i;
        }
      }
    }

    /** `moveTo` of the actor at `from`: it leaves `from` and whatever stood
        on `to` is removed from the grid. Moving to the own cell does
        nothing. */
    function MoveTo(from: Loc, to: Loc): (r: Grid)
      requires from in cells && IsValid(to)
      ensures r.rows == rows && r.cols == cols
      ensures to in r.cells && r.cells[to] == cells[from]
      ensures to != from ==> from !in r.cells
      ensures r.cells - {from, to} == cells - {from, to}
      ensures to != from && to !in cells ==> |r.cells| == |cells|
    {
      if to == from then this
      else
        var r := Grid(rows, cols, (cells - {from})[to := cells[from]]);
        assert to !in cells ==> r.cells.Keys == cells.Keys - {from} + {to};
        r
    }
  }

  /** The eight cells around `l`, in the library's scan order north,
      north-east, ..., north-west. */
  function AdjacentLocs(l: Loc): (r: seq<Loc>)
    ensures |r| == 8 && Distinct(r)
    ensures forall m | m in r :: Dist(l, m) == 1
    ensures forall m | Dist(l, m) == 1 :: m in r
  {
    var r := seq(8, k requires 0 <= k < 8 => Adjacent(l, Compass(k)));
    assert r == [Loc(l.row - 1, l.col), Loc(l.row - 1, l.col + 1), Loc(l.row, l.col + 1),
                 Loc(l.row + 1, l.col + 1), Loc(l.row + 1, l.col), Loc(l.row + 1, l.col - 1),
                 Loc(l.row, l.col - 1), Loc(l.row - 1, l.col - 1)];
    assert forall m | Dist(l, m) == 1 :: m in r by {
      forall m | Dist(l, m) == 1 ensures m in r {
        AdjacentComplete(l, m);
      }
    }
    r
  }

  /** Where the acting actor is: outside every grid (`getGrid()` is `null`),
      or standing at `loc` of `grid`. */
  datatype Site = Unplaced(actor: Actor) | Placed(grid: Grid, loc: Loc) {

    predicate WellFormed() {
      Placed? ==> grid.IsValid(loc) && loc in grid.cells
    }

    /** The acting actor itself. */
    function Self(): Actor
      requires WellFormed()
    {
      if Unplaced? then actor else grid.cells[loc]
    }

    /** The same site, with the acting actor replaced by `a`. */
    function With(a: Actor): (r: Site)
      requires WellFormed()
      ensures r.WellFormed() && r.Self() == a
      ensures r.Placed? <==> Placed?
      ensures Placed? ==> r.loc == loc && r.grid.rows == grid.rows && r.grid.cols == grid.cols
      ensures Placed? ==> r.grid.cells - {loc} == grid.cells - {loc}
    {
      if Unplaced? then Unplaced(a) else Placed(grid.(cells := grid.cells[loc := a]), loc)
    }
  }
}
