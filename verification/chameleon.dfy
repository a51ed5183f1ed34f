/** ChameleonKid (GridWorldPart4/src/info/gridworld/critters/ChameleonKid.java):
    takes on the colour of the actor directly in front of it, failing that
    the one directly behind it, and otherwise darkens. */
module ChameleonKid {
  import opened Locations
  import opened Options
  import opened Actors
  import opened Grids

  /** The cell directly ahead of the actor at `l`. */
  function Front(a: Actor, l: Loc): Loc {
    Adjacent(l, a.dir)
  }

  /** The cell directly behind it (`getDirection() + HALF_CIRCLE`). */
  function Back(a: Actor, l: Loc): Loc {
    Adjacent(l, a.dir + HALF_CIRCLE)
  }

  /** Is `m` a valid cell with someone standing on it? */
  predicate OccupiedCell(g: Grid, m: Loc) {
    g.IsValid(m) && g.Get(m).Some?
  }

  /** `processActors`: the sensed `actors` are ignored. Without a grid
      nothing happens. Otherwise the kid copies the colour of the occupant
      in front; failing that, of the occupant behind; failing both it
      applies the darkening it inherits from ChameleonCritter, which is not
      part of this model and is passed in as `darker`. Only the kid's own
      colour ever changes. */
  function ProcessActors(s: Site, actors: seq<Loc>, darker: Color -> Color): (r: Site)
    requires s.WellFormed()
    ensures r.WellFormed()
    ensures s.Unplaced? ==> r == s
    ensures s.Placed? ==> (r.Placed? && r.loc == s.loc
                           && r.grid.rows == s.grid.rows && r.grid.cols == s.grid.cols
                           && r.grid.cells - {s.loc} == s.grid.cells - {s.loc})
    ensures r.Self() == s.Self().(color := r.Self().color)
    ensures s.Placed? && OccupiedCell(s.grid, Front(s.Self(), s.loc))
            ==> r.Self().color == s.grid.cells[Front(s.Self(), s.loc)].color
    ensures s.Placed? && !OccupiedCell(s.grid, Front(s.Self(), s.loc))
                      && OccupiedCell(s.grid, Back(s.Self(), s.loc))
            ==> r.Self().color == s.grid.cells[Back(s.Self(), s.loc)].color
    ensures s.Placed? && !OccupiedCell(s.grid, Front(s.Self(), s.loc))
                      && !OccupiedCell(s.grid, Back(s.Self(), s.loc))
            ==> r.Self().color == darker(s.Self().color)
  {
    match s
    case Unplaced(_) => s
    case Placed(g, loc) =>
      var me := g.cells[loc];
      var front, back := Front(me, loc), Back(me, loc);
      if g.IsValid(front) && g.Get(front).Some? then
        s.With(me.(color := g.Get(front).value.color))
      else if g.IsValid(back) && g.Get(back).Some? then
        s.With(me.(color := g.Get(back).value.color))
      else
        s.With(me.(color := darker(me.color)))
  }

  /** Whenever the kid does not darken, the colour it takes is that of an
      actor standing right next to it on the line of its heading: the cell
      ahead, or else the cell from which one step forward leads back onto
      the kid. The two cells are different, and the one ahead wins. */
  lemma AdoptsColorOfLineNeighbour(s: Site, actors: seq<Loc>, darker: Color -> Color)
    requires s.WellFormed() && s.Placed?
    requires OccupiedCell(s.grid, Front(s.Self(), s.loc)) || OccupiedCell(s.grid, Back(s.Self(), s.loc))
    ensures Front(s.Self(), s.loc) != Back(s.Self(), s.loc)
    ensures Adjacent(Back(s.Self(), s.loc), s.Self().dir) == s.loc
    ensures var m := if OccupiedCell(s.grid, Front(s.Self(), s.loc))
                     then Front(s.Self(), s.loc) else Back(s.Self(), s.loc);
            && m in s.grid.cells && Dist(s.loc, m) == 1
            && ProcessActors(s, actors, darker).Self().color == s.grid.cells[m].color
  {
    var me := s.Self();
    AdjacentOpposite(s.loc, me.dir);
    var b := Back(me, s.loc);
    AdjacentOpposite(s.loc, me.dir + HALF_CIRCLE);
    AdjacentPeriodic(b, me.dir);
    assert me.dir + HALF_CIRCLE + HALF_CIRCLE == me.dir + FULL_CIRCLE;
  }
}
