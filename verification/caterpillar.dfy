/** CaterpillarCritter (GridWorldPart4/src/info/gridworld/critters/CaterpillarCritter.java):
    moves only straight ahead, onto an empty cell or a flower, and turns
    right when it cannot. */
module CaterpillarCritter {
  import opened Locations
  import opened Options
  import opened Actors
  import opened Grids

  /** The cell directly ahead of the actor at `l`. */
  function Ahead(a: Actor, l: Loc): Loc {
    Adjacent(l, a.dir)
  }

  /** `processFood`: eats the actor at `l` if, and only if, it is a flower;
      any other occupant and an empty cell are left alone. The bounded grid
      rejects an invalid location. */
  function ProcessFood(g: Grid, l: Loc): (r: Grid)
    requires g.IsValid(l)
    ensures r.rows == g.rows && r.cols == g.cols
    ensures r.cells - {l} == g.cells - {l}
    ensures l in r.cells <==> l in g.cells && !g.cells[l].kind.Flower?
    ensures l in r.cells ==> r.cells[l] == g.cells[l]
  {
    match g.Get(l)
    case Some(a) => if a.kind.Flower? then g.Remove(l) else g
    case None => g
  }

  /** Eating keeps the grid invariants and removes at most the flower. */
  lemma ProcessFoodValid(g: Grid, l: Loc)
    requires g.Valid() && g.IsValid(l)
    ensures ProcessFood(g, l).Valid()
    ensures |ProcessFood(g, l).cells| == |g.cells| - (if l in g.cells && g.cells[l].kind.Flower? then 1 else 0)
  {
  }

  /** `canMove`: false without a grid and false when the cell ahead is
      outside the grid; otherwise true exactly when that cell is empty or
      holds a flower. */
  function CanMove(s: Site): (b: bool)
    requires s.WellFormed()
    ensures s.Unplaced? ==> !b
    ensures s.Placed? && !s.grid.IsValid(Ahead(s.Self(), s.loc)) ==> !b
    ensures s.Placed? && s.grid.IsValid(Ahead(s.Self(), s.loc)) ==>
              (b <==> (Ahead(s.Self(), s.loc) !in s.grid.cells
                       || s.grid.cells[Ahead(s.Self(), s.loc)].kind.Flower?))
  {
    match s
    case Unplaced(_) => false
    case Placed(g, loc) =>
      var next := Ahead(g.cells[loc], loc);
      if !g.IsValid(next) then false
      else
        var neighbor := g.Get(next);
        neighbor.None? || neighbor.value.kind.Flower?
  }

  /** What the no-argument `makeMove` does: call `move()` to go forward onto
      `to`, or turn right where it stands. */
  datatype Step = MovesForward(to: Loc) | Turned(site: Site)

  /** `makeMove()`: moves forward when `CanMove` holds and otherwise adds
      `RIGHT` to the heading without moving. The effect of `move()` itself
      is not part of this model: the outcome names the cell it moves to. */
  function MakeMove(s: Site): (r: Step)
    requires s.WellFormed()
    ensures r.MovesForward? <==> CanMove(s)
    ensures r.MovesForward? ==> s.Placed? && r.to == Ahead(s.Self(), s.loc)
    ensures r.Turned? ==> r.site.WellFormed()
                          && r.site == s.With(s.Self().(dir := Normalize(s.Self().dir + RIGHT)))
  {
    if CanMove(s) then MovesForward(Ahead(s.Self(), s.loc))
    else Turned(s.With(s.Self().(dir := Normalize(s.Self().dir + RIGHT))))
  }

  /** The caterpillar never walks into anything but a flower: when it moves,
      the target is the neighbouring cell ahead, inside the grid, and empty
      or a flower. */
  lemma NeverEntersBlockedCell(s: Site)
    requires s.WellFormed()
    ensures var r := MakeMove(s);
            r.MovesForward? ==>
              && s.Placed? && s.grid.IsValid(r.to) && Dist(s.loc, r.to) == 1
              && (r.to !in s.grid.cells || s.grid.cells[r.to].kind.Flower?)
  {
  }

  /** Adding `RIGHT` and normalising is a quarter turn clockwise; four of
      them are a full turn. */
  lemma QuarterTurns(d: Direction)
    ensures Normalize(d + RIGHT) == if d < 270 then d + 90 else d - 270
    ensures Normalize(Normalize(Normalize(Normalize(d + RIGHT) + RIGHT) + RIGHT) + RIGHT) == d
  {
    var d1 := Normalize(d + RIGHT);
    var d2 := Normalize(d1 + RIGHT);
    var d3 := Normalize(d2 + RIGHT);
    assert d1 == if d < 270 then d + 90 else d - 270;
    assert d2 == if d < 180 then d + 180 else d - 180;
    assert d3 == if d < 90 then d + 270 else d - 90;
  }

  /** A blocked caterpillar stays on its cell, keeps its colour and turns a
      quarter turn clockwise; four blocked turns bring it back to its
      heading. */
  lemma BlockedTurnsRight(s: Site)
    requires s.WellFormed() && !CanMove(s)
    ensures var r := MakeMove(s);
            && r.Turned?
            && (s.Placed? ==> r.site.Placed? && r.site.loc == s.loc
                              && r.site.grid.cells - {s.loc} == s.grid.cells - {s.loc})
            && r.site.Self().dir == (s.Self().dir + RIGHT) % FULL_CIRCLE
            && r.site.Self().color == s.Self().color
            && Normalize(Normalize(Normalize(r.site.Self().dir + RIGHT) + RIGHT) + RIGHT) == s.Self().dir
  {
    QuarterTurns(s.Self().dir);
  }
}
