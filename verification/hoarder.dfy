/** HoarderCritter (GridWorldPart4/src/info/gridworld/critters/HoarderCritter.java):
    picks up a neighbouring actor, carries it toward its home cell and puts
    it down there (or wherever it gets stuck). Its state is the pair
    (`home`, `heldActor`), kept in the `Hoarder` tag of the actor. */
module HoarderCritter {
  import opened Locations
  import opened Options
  import opened Actors
  import opened Grids
  import opened Seqs

  /** `new HoarderCritter(home)`: it holds nothing. */
  function NewHoarder(id: nat, home: Loc): (a: Actor)
    ensures a.id == id && a.kind.Hoarder? && a.kind.home == home && a.kind.held.None?
  {
    NewActor(id, Hoarder(home, None))
  }

  /** The acting HoarderCritter stands at `l` of a well-formed grid, and the
      actor it holds, if any, is in no grid. */
  ghost predicate ActsAt(g: Grid, l: Loc) {
    && g.Valid() && l in g.cells && g.cells[l].kind.Hoarder?
    && (g.cells[l].kind.held.Some? ==> g.cells[l].kind.held.value.id !in g.Ids())
  }

  /** The hoarder `a` with `heldActor` set to `held`. */
  function Holding(a: Actor, held: Option<Actor>): (b: Actor)
    requires a.kind.Hoarder?
    ensures b.id == a.id && b.kind.Hoarder? && b.kind.home == a.kind.home && b.kind.held == held
    ensures b.dir == a.dir && b.color == a.color
  {
    a.(kind := a.kind.(held := held))
  }

  /** Where the hoarder ended up after a step: the grid, the cell it stands
      on (`None` once it has left the grid) and its own state. */
  datatype Outcome = Outcome(grid: Grid, at: Option<Loc>, self: Actor) {
    ghost predicate Consistent() {
      && grid.Valid()
      && self.kind.Hoarder?
      && (at.Some? ==> at.value in grid.cells && grid.cells[at.value] == self)
      && (at.None? ==> self.id !in grid.Ids())
      && (self.kind.held.Some? ==> self.kind.held.value.id !in grid.Ids())
    }
  }

  // ---------------------------------------------------------------------
  // Picking up

  /** `processActors`: with something to pick from and nothing held, the
      hoarder picks the actor on cell `actors[pick]` (`pick` stands for the
      random index), removes it from the grid and holds it. With an empty
      list, or something already held, nothing changes. The sensed actors
      are given by the cells they stand on. */
  function ProcessActors(g: Grid, l: Loc, actors: seq<Loc>, pick: nat): (r: Grid)
    requires ActsAt(g, l)
    requires forall m | m in actors :: m in g.cells && m != l
    requires |actors| == 0 || pick < |actors|
    ensures ActsAt(r, l) && r.rows == g.rows && r.cols == g.cols
    ensures |actors| == 0 || g.cells[l].kind.held.Some? ==> r == g
    ensures |actors| > 0 && g.cells[l].kind.held.None? ==>
              var m := actors[pick];
              && r.cells[l] == Holding(g.cells[l], Some(g.cells[m]))
              && m !in r.cells && g.cells[m].id !in r.Ids()
              && r.cells - {l, m} == g.cells - {l, m}
              && |r.cells| == |g.cells| - 1
  {
    if |actors| > 0 && g.cells[l].kind.held.None? then
      assert actors[pick] in actors;
      PickUp(g, l, actors[pick])
    else g
  }

  /** The hoarder at `l` takes the actor on cell `m` out of the grid and
      holds it. */
  function PickUp(g: Grid, l: Loc, m: Loc): (r: Grid)
    requires ActsAt(g, l) && g.cells[l].kind.held.None?
    requires m in g.cells && m != l
    ensures ActsAt(r, l) && r.rows == g.rows && r.cols == g.cols
    ensures r.cells[l] == Holding(g.cells[l], Some(g.cells[m]))
    ensures m !in r.cells && r.Ids() == g.Ids() - {g.cells[m].id}
    ensures r.cells - {l, m} == g.cells - {l, m}
    ensures |r.cells| == |g.cells| - 1
  {
    PickUpValid(g, l, m);
    PickUpCells(g, l, m);
    g.Remove(m).Update(l, Holding(g.cells[l], Some(g.cells[m])))
  }

  /** The grid invariants survive a pick-up. */
  lemma PickUpValid(g: Grid, l: Loc, m: Loc)
    requires ActsAt(g, l) && g.cells[l].kind.held.None?
    requires m in g.cells && m != l
    ensures var r := g.Remove(m).Update(l, Holding(g.cells[l], Some(g.cells[m])));
            r.Valid() && r.Ids() == g.Ids() - {g.cells[m].id}
  {
    var g1 := g.Remove(m);
    g1.UpdateValid(l, Holding(g.cells[l], Some(g.cells[m])));
  }

  /** What stands where after a pick-up. */
  lemma PickUpCells(g: Grid, l: Loc, m: Loc)
    requires l in g.cells && g.cells[l].kind.Hoarder?
    requires m in g.cells && m != l
    ensures var r := g.Remove(m).Update(l, Holding(g.cells[l], Some(g.cells[m])));
            && m !in r.cells && r.cells - {l, m} == g.cells - {l, m}
            && |r.cells| == |g.cells| - 1
  {
    var g1 := g.Remove(m);
    assert g1.Update(l, Holding(g.cells[l], Some(g.cells[m]))).cells - {l} == g1.cells - {l};
  }

  /** Once something is held, further sensing phases change nothing: the
      hoarder never holds two actors at once. */
  lemma PickUpOnce(g: Grid, l: Loc, actors: seq<Loc>, pick: nat, actors2: seq<Loc>, pick2: nat)
    requires ActsAt(g, l)
    requires forall m | m in actors :: m in g.cells && m != l
    requires |actors| > 0 && pick < |actors| && g.cells[l].kind.held.None?
    requires var r := ProcessActors(g, l, actors, pick);
             (forall m | m in actors2 :: m in r.cells && m != l) && (|actors2| == 0 || pick2 < |actors2|)
    ensures var r := ProcessActors(g, l, actors, pick);
            ProcessActors(r, l, actors2, pick2) == r
  {
  }

  /** The class promises that the hoarder never picks up the same actor
      twice, but the guard in `processActors` compares the drawn actor with
      `heldActor`, which is `null` whenever the guard is reached. After a
      drop with room the dropped actor stands next to the hoarder, so the
      next sensing phase may draw it, and the hoarder then holds it again. */
  lemma RepicksDroppedActor(g: Grid, l: Loc, pick: nat)
    requires ActsAt(g, l) && g.cells[l].kind.held.Some?
    requires 0 < |g.EmptyAdjacent(l)| && pick < |g.EmptyAdjacent(l)|
    ensures var d := DropActor(g, l, pick);
            && d.at.Some? && ActsAt(d.grid, d.at.value)
            && l in d.grid.cells && l != d.at.value && Dist(d.at.value, l) == 1
            && d.grid.cells[d.at.value].kind.held.None?
            && ProcessActors(d.grid, d.at.value, [l], 0).cells[d.at.value].kind.held
               == g.cells[l].kind.held
  {
  }

  /** The hoarder at `l` remembers, in `carried`, every actor it has held,
      including the one it holds now. */
  ghost predicate Remembers(g: Grid, l: Loc, carried: set<nat>)
    requires l in g.cells && g.cells[l].kind.Hoarder?
  {
    g.cells[l].kind.held.Some? ==> g.cells[l].kind.held.value.id in carried
  }

  /** `processActors` as the class documentation promises it: `carried`
      holds the identities of the actors this hoarder has held before, and
      a draw that falls on one of them picks nothing up. Otherwise it is the
      pick-up of `ProcessActors`, and the new actor is remembered. */
  function ProcessActorsRemembering(g: Grid, l: Loc, actors: seq<Loc>, pick: nat, carried: set<nat>)
    : (r: (Grid, set<nat>))
    requires ActsAt(g, l) && Remembers(g, l, carried)
    requires forall m | m in actors :: m in g.cells && m != l
    requires |actors| == 0 || pick < |actors|
    ensures ActsAt(r.0, l) && Remembers(r.0, l, r.1) && carried <= r.1
    ensures r.0.rows == g.rows && r.0.cols == g.cols
    ensures r.0.cells[l].kind.held != g.cells[l].kind.held ==>
              && r.0.cells[l].kind.held.Some?
              && r.0.cells[l].kind.held.value.id !in carried
    ensures |actors| == 0 || g.cells[l].kind.held.Some? || g.cells[actors[pick]].id in carried
            ==> r == (g, carried)
    ensures |actors| > 0 && g.cells[l].kind.held.None? && g.cells[actors[pick]].id !in carried
            ==> r.0 == ProcessActors(g, l, actors, pick) && r.1 == carried + {g.cells[actors[pick]].id}
  {
    if |actors| > 0 && g.cells[l].kind.held.None? && g.cells[actors[pick]].id !in carried then
      (ProcessActors(g, l, actors, pick), carried + {g.cells[actors[pick]].id})
    else (g, carried)
  }

  /** With the remembering pick-up, an actor the hoarder has carried and put
      down is never picked up again, whichever neighbours are sensed and
      whichever is drawn. */
  lemma DroppedActorStaysDown(g: Grid, l: Loc, pick: nat, carried: set<nat>, actors: seq<Loc>, pick2: nat)
    requires ActsAt(g, l) && g.cells[l].kind.held.Some? && Remembers(g, l, carried)
    requires 0 < |g.EmptyAdjacent(l)| && pick < |g.EmptyAdjacent(l)|
    requires var d := DropActor(g, l, pick);
             && (forall m | m in actors :: m in d.grid.cells && m != d.at.value)
             && (|actors| == 0 || pick2 < |actors|)
    ensures var d := DropActor(g, l, pick);
            && d.at.Some? && ActsAt(d.grid, d.at.value) && Remembers(d.grid, d.at.value, carried)
            && var r := ProcessActorsRemembering(d.grid, d.at.value, actors, pick2, carried);
            && (r.0.cells[d.at.value].kind.held.Some? ==>
                  r.0.cells[d.at.value].kind.held.value != d.grid.cells[l])
            && ProcessActorsRemembering(d.grid, d.at.value, [l], 0, carried) == (d.grid, carried)
  {
  }

  // ---------------------------------------------------------------------
  // Homeward candidates

  /** A valid cell nobody stands on. */
  predicate Free(g: Grid, m: Loc) {
    g.IsValid(m) && m !in g.cells
  }

  /** `addValidMoveInDirection`: appends the neighbour in direction `d` when
      it is valid and empty, and otherwise leaves the list alone. */
  function AddValidMoveInDirection(g: Grid, moves: seq<Loc>, l: Loc, d: int): (r: seq<Loc>)
    ensures r == moves || r == moves + [Adjacent(l, d)]
    ensures |r| == |moves| + 1 <==> g.IsValid(Adjacent(l, d)) && Adjacent(l, d) !in g.cells
  {
    var next := Adjacent(l, d);
    if g.IsValid(next) && g.Get(next).None? then moves + [next] else moves
  }

  /** Is `l` on the same row or column as `home`? */
  predicate Aligned(l: Loc, home: Loc) {
    l.row == home.row || l.col == home.col
  }

  /** The cells the hoarder tries, in order: the direct bearing toward home
      only, when it shares a row or column with home; otherwise the direct
      bearing and the bearings a quarter turn to the right and to the left. */
  function Candidates(l: Loc, home: Loc): (r: seq<Loc>)
    ensures |r| == if Aligned(l, home) then 1 else 3
    ensures forall m | m in r :: Dist(l, m) == 1
  {
    var d := DirectionToward(l, home);
    if Aligned(l, home) then [Adjacent(l, d)]
    else [Adjacent(l, d), Adjacent(l, d + RIGHT), Adjacent(l, d + LEFT)]
  }

  /** `getValidHomewardMoves`: the candidates that are valid and empty. */
  function ValidHomewardMoves(g: Grid, l: Loc, home: Loc): (r: seq<Loc>)
    ensures |r| <= if Aligned(l, home) then 1 else 3
    ensures forall m | m in r :: g.IsValid(m) && m !in g.cells && Dist(l, m) == 1
  {
    var d := DirectionToward(l, home);
    if l.row == home.row then AddValidMoveInDirection(g, [], l, d)
    else if l.col == home.col then AddValidMoveInDirection(g, [], l, d)
    else
      var m1 := AddValidMoveInDirection(g, [], l, d);
      var m2 := AddValidMoveInDirection(g, m1, l, d + RIGHT);
      AddValidMoveInDirection(g, m2, l, d + LEFT)
  }

  /** The moves are exactly the candidates that are valid and empty, in
      candidate order: nothing else is offered and nothing available is
      missed. */
  lemma HomewardMovesAreFreeCandidates(g: Grid, l: Loc, home: Loc)
    ensures ValidHomewardMoves(g, l, home) == Filter(Candidates(l, home), m => Free(g, m))
    ensures forall m | m in Candidates(l, home) && g.IsValid(m) && m !in g.cells :: m in ValidHomewardMoves(g, l, home)
  {
    var d := DirectionToward(l, home);
    if Aligned(l, home) {
      OneCandidate(g, l, d);
    } else {
      ThreeCandidates(g, l, d);
    }
  }

  /** The single-candidate case of `HomewardMovesAreFreeCandidates`. */
  lemma {:induction false} OneCandidate(g: Grid, l: Loc, d: int)
    ensures AddValidMoveInDirection(g, [], l, d)
         == Filter([Adjacent(l, d)], m => Free(g, m))
  {
    FilterSnoc([], Adjacent(l, d), m => Free(g, m));
    assert [] + [Adjacent(l, d)] == [Adjacent(l, d)];
  }

  /** The three-candidate case of `HomewardMovesAreFreeCandidates`. */
  lemma {:induction false} ThreeCandidates(g: Grid, l: Loc, d: int)
    ensures var m1 := AddValidMoveInDirection(g, [], l, d);
            var m2 := AddValidMoveInDirection(g, m1, l, d + RIGHT);
            (AddValidMoveInDirection(g, m2, l, d + LEFT)
               == Filter([Adjacent(l, d), Adjacent(l, d + RIGHT), Adjacent(l, d + LEFT)],
                         m => Free(g, m)))
  {
    var c := [Adjacent(l, d), Adjacent(l, d + RIGHT), Adjacent(l, d + LEFT)];
    var m1 := AddValidMoveInDirection(g, [], l, d);
    var m2 := AddValidMoveInDirection(g, m1, l, d + RIGHT);
    var m3 := AddValidMoveInDirection(g, m2, l, d + LEFT);
    FilterThree(c, m => Free(g, m));
    assert m1 == Filter(c[..1], m => Free(g, m));
    assert m2 == Filter(c[..2], m => Free(g, m));
  }

  /** On the row or the column of home the only candidate is the next cell
      toward home, so every such move brings the hoarder one step closer. */
  lemma AlignedMovesApproachHome(g: Grid, l: Loc, home: Loc)
    requires l != home && Aligned(l, home)
    ensures forall m | m in ValidHomewardMoves(g, l, home) :: Dist(m, home) == Dist(l, home) - 1
  {
    DirectionTowardApproaches(l, home);
  }

  /** Off the axes, the direct bearing is tried first and brings the hoarder
      one step closer; a quarter-turn candidate may take it farther away. */
  lemma DirectMoveApproachesHome(g: Grid, l: Loc, home: Loc)
    requires l != home
    requires var d := Adjacent(l, DirectionToward(l, home)); g.IsValid(d) && d !in g.cells
    ensures var moves := ValidHomewardMoves(g, l, home);
            |moves| > 0 && Dist(moves[0], home) == Dist(l, home) - 1
  {
    DirectionTowardApproaches(l, home);
  }

  /** A quarter-turn candidate can lead away from home: from (5, 5) with
      home at (2, 8) the bearing is north-east and the right-hand candidate
      (6, 6) is one step farther from home. */
  lemma SideStepCanRetreat()
    ensures var g := Grid(10, 10, map[Loc(5, 5) := NewHoarder(0, Loc(2, 8))]);
            var moves := ValidHomewardMoves(g, Loc(5, 5), Loc(2, 8));
            |moves| == 3 && moves[1] == Loc(6, 6)
            && Dist(moves[1], Loc(2, 8)) == Dist(Loc(5, 5), Loc(2, 8)) + 1
  {
    MovesFromFiveFive(Grid(10, 10, map[Loc(5, 5) := NewHoarder(0, Loc(2, 8))]));
  }

  /** A hoarder with home (2, 8), carrying a rock, alone at `at` in a 10 by
      10 grid. */
  function CycleGrid(at: Loc): Grid {
    Grid(10, 10, map[at := Holding(NewHoarder(0, Loc(2, 8)), Some(NewActor(1, Rock)))])
  }

  /** The lone carrier acts: the grid is well formed and the rock is in
      no grid. */
  lemma CycleGridActs(at: Loc)
    requires 0 <= at.row < 10 && 0 <= at.col < 10
    ensures ActsAt(CycleGrid(at), at) && CycleGrid(at).cells[at].kind.held.Some?
  {
    var g := CycleGrid(at);
    assert g.cells[at].id == 0;
    assert g.Ids() == {0};
  }

  /** Away from the border the lone carrier has room around it. */
  lemma CycleGridRoom(at: Loc)
    requires 1 <= at.row < 9 && 1 <= at.col < 9
    ensures |CycleGrid(at).EmptyAdjacent(at)| > 0
  {
    assert Loc(at.row - 1, at.col - 1) in CycleGrid(at).EmptyAdjacent(at);
  }

  /** From (5, 5) and from (6, 6) the bearing to (2, 8) is north-east. */
  lemma BearingsTowardTwoEight()
    ensures DirectionToward(Loc(5, 5), Loc(2, 8)) == NORTHEAST
    ensures DirectionToward(Loc(6, 6), Loc(2, 8)) == NORTHEAST
  {
  }

  /** The free candidates from (5, 5) toward (2, 8) in a 10 by 10 grid
      where only (5, 5) is taken. */
  lemma MovesFromFiveFive(g: Grid)
    requires g.rows == 10 && g.cols == 10 && g.cells.Keys == {Loc(5, 5)}
    ensures ValidHomewardMoves(g, Loc(5, 5), Loc(2, 8)) == [Loc(4, 6), Loc(6, 6), Loc(4, 4)]
  {
    var l := Loc(5, 5);
    BearingsTowardTwoEight();
    var m1 := AddValidMoveInDirection(g, [], l, NORTHEAST);
    assert m1 == [Loc(4, 6)] by {
      assert NORTHEAST == Compass(1);
    }
    var m2 := AddValidMoveInDirection(g, m1, l, NORTHEAST + RIGHT);
    assert m2 == [Loc(4, 6), Loc(6, 6)] by {
      assert NORTHEAST + RIGHT == Compass(3);
    }
    var m3 := AddValidMoveInDirection(g, m2, l, NORTHEAST + LEFT);
    assert m3 == [Loc(4, 6), Loc(6, 6), Loc(4, 4)] by {
      AdjacentPeriodic(l, NORTHEAST + LEFT);
      assert NORTHEAST + LEFT + FULL_CIRCLE == Compass(7);
    }
  }

  /** The free candidates from (6, 6) toward (2, 8) in a 10 by 10 grid
      where only (6, 6) is taken: the bearing is still north-east, and the
      left-hand candidate is (5, 5) again. */
  lemma MovesFromSixSix(g: Grid)
    requires g.rows == 10 && g.cols == 10 && g.cells.Keys == {Loc(6, 6)}
    ensures ValidHomewardMoves(g, Loc(6, 6), Loc(2, 8)) == [Loc(5, 7), Loc(7, 7), Loc(5, 5)]
  {
    var l := Loc(6, 6);
    BearingsTowardTwoEight();
    var m1 := AddValidMoveInDirection(g, [], l, NORTHEAST);
    assert m1 == [Loc(5, 7)] by {
      assert NORTHEAST == Compass(1);
    }
    var m2 := AddValidMoveInDirection(g, m1, l, NORTHEAST + RIGHT);
    assert m2 == [Loc(5, 7), Loc(7, 7)] by {
      assert NORTHEAST + RIGHT == Compass(3);
    }
    var m3 := AddValidMoveInDirection(g, m2, l, NORTHEAST + LEFT);
    assert m3 == [Loc(5, 7), Loc(7, 7), Loc(5, 5)] by {
      AdjacentPeriodic(l, NORTHEAST + LEFT);
      assert NORTHEAST + LEFT + FULL_CIRCLE == Compass(7);
    }
  }

  /** A draw below the list length is its own index. */
  lemma SmallRemainder(a: nat, n: nat)
    requires a < n
    ensures a % n == a
  {
  }

  /** Away from home, with a free candidate, the carrier moves to the drawn
      candidate and keeps holding. */
  lemma HomewardStep(g: Grid, l: Loc, pick: nat, dropPick: nat)
    requires ActsAt(g, l) && g.cells[l].kind.held.Some? && l != g.cells[l].kind.home
    requires |g.EmptyAdjacent(l)| == 0 || dropPick < |g.EmptyAdjacent(l)|
    ensures var moves := ValidHomewardMoves(g, l, g.cells[l].kind.home);
            |moves| > 0 ==>
              var m := moves[pick % |moves|];
              MoveTowardHome(g, l, pick, dropPick) == Outcome(g.MoveTo(l, m), Some(m), g.cells[l])
  {
  }

  /** An actor alone in the grid that moves is alone on its new cell. */
  lemma MoveAlone(g: Grid, c: Actor, from: Loc, to: Loc)
    requires g.cells == map[from := c] && g.IsValid(to) && from != to
    ensures g.MoveTo(from, to).cells == map[to := c]
  {
  }

  /** A carrier `c` with home (2, 8), alone at (5, 5), steps to (6, 6)
      when the draw is 1. */
  lemma StepAway(g: Grid, c: Actor)
    requires c.kind.Hoarder? && c.kind.held.Some? && c.kind.home == Loc(2, 8)
    requires g == Grid(10, 10, map[Loc(5, 5) := c])
    requires ActsAt(g, Loc(5, 5)) && |g.EmptyAdjacent(Loc(5, 5))| > 0
    ensures MoveTowardHome(g, Loc(5, 5), 1, 0) == Outcome(Grid(10, 10, map[Loc(6, 6) := c]), Some(Loc(6, 6)), c)
  {
    MovesFromFiveFive(g);
    SmallRemainder(1, |ValidHomewardMoves(g, Loc(5, 5), Loc(2, 8))|);
    HomewardStep(g, Loc(5, 5), 1, 0);
    MoveAlone(g, c, Loc(5, 5), Loc(6, 6));
  }

  /** The same carrier, alone at (6, 6), steps back to (5, 5) when the
      draw is 2. */
  lemma StepBack(g: Grid, c: Actor)
    requires c.kind.Hoarder? && c.kind.held.Some? && c.kind.home == Loc(2, 8)
    requires g == Grid(10, 10, map[Loc(6, 6) := c])
    requires ActsAt(g, Loc(6, 6)) && |g.EmptyAdjacent(Loc(6, 6))| > 0
    ensures MoveTowardHome(g, Loc(6, 6), 2, 0) == Outcome(Grid(10, 10, map[Loc(5, 5) := c]), Some(Loc(5, 5)), c)
  {
    MovesFromSixSix(g);
    SmallRemainder(2, |ValidHomewardMoves(g, Loc(6, 6), Loc(2, 8))|);
    HomewardStep(g, Loc(6, 6), 2, 0);
    MoveAlone(g, c, Loc(6, 6), Loc(5, 5));
  }

  /** Homing need not end: with unlucky draws the carrier steps from (5, 5)
      away from home to (6, 6), and from there back to (5, 5), in the same
      grid it started from. */
  lemma {:induction false} HomingCanCycle()
    ensures var g := CycleGrid(Loc(5, 5));
            && ActsAt(g, Loc(5, 5)) && |g.EmptyAdjacent(Loc(5, 5))| > 0
            && var o1 := MoveTowardHome(g, Loc(5, 5), 1, 0);
            && o1.at == Some(Loc(6, 6)) && o1.grid == CycleGrid(Loc(6, 6))
            && Dist(Loc(6, 6), Loc(2, 8)) == Dist(Loc(5, 5), Loc(2, 8)) + 1
            && ActsAt(o1.grid, Loc(6, 6)) && |o1.grid.EmptyAdjacent(Loc(6, 6))| > 0
            && var o2 := MoveTowardHome(o1.grid, Loc(6, 6), 2, 0);
            && o2.at == Some(Loc(5, 5)) && o2.grid == g
  {
    CycleGridActs(Loc(5, 5));
    CycleGridRoom(Loc(5, 5));
    var c := CycleGrid(Loc(5, 5)).cells[Loc(5, 5)];
    StepAway(CycleGrid(Loc(5, 5)), c);
    CycleGridActs(Loc(6, 6));
    CycleGridRoom(Loc(6, 6));
    StepBack(CycleGrid(Loc(6, 6)), c);
  }

  // ---------------------------------------------------------------------
  // Dropping

  /** `dropActor`, as the documentation describes it. With nothing held it
      does nothing. Otherwise, when an empty neighbour exists, the hoarder
      moves onto the neighbour `empties[pick]` and puts the held actor on
      the cell it left; when none exists, it leaves the grid and puts the
      held actor on the cell it left. Either way it then holds nothing. */
  function DropActor(g: Grid, l: Loc, pick: nat): (r: Outcome)
    requires ActsAt(g, l)
    requires |g.EmptyAdjacent(l)| == 0 || pick < |g.EmptyAdjacent(l)|
    ensures r.Consistent() && r.grid.rows == g.rows && r.grid.cols == g.cols
    ensures g.cells[l].kind.held.None? ==> r == Outcome(g, Some(l), g.cells[l])
    ensures r.self == Holding(g.cells[l], None)
    ensures g.cells[l].kind.held.Some? ==>
              && l in r.grid.cells && r.grid.cells[l] == g.cells[l].kind.held.value
              && r.grid.Ids() == (g.Ids() - (if r.at.None? then {g.cells[l].id} else {}))
                                 + {g.cells[l].kind.held.value.id}
    ensures g.cells[l].kind.held.Some? && |g.EmptyAdjacent(l)| > 0 ==>
              && r.at.Some? && var m := r.at.value;
              && m !in g.cells && g.IsValid(m) && Dist(l, m) == 1
              && r.grid.cells - {l, m} == g.cells - {l, m}
              && |r.grid.cells| == |g.cells| + 1
    ensures g.cells[l].kind.held.Some? && |g.EmptyAdjacent(l)| == 0 ==>
              && r.at.None?
              && r.grid.cells == g.cells[l := g.cells[l].kind.held.value]
              && |r.grid.cells| == |g.cells|
  {
    var me := g.cells[l];
    if me.kind.held.None? then Outcome(g, Some(l), me)
    else
      var empties := g.EmptyAdjacent(l);
      if |empties| > 0 then
        assert empties[pick] in empties;
        DropAndStep(g, l, empties[pick])
      else DropAndLeave(g, l)
  }

  /** The hoarder steps onto the empty neighbour `dest` and puts the held
      actor on the cell it left. */
  function DropAndStep(g: Grid, l: Loc, dest: Loc): (r: Outcome)
    requires ActsAt(g, l) && g.cells[l].kind.held.Some?
    requires g.IsValid(dest) && dest !in g.cells && Dist(l, dest) == 1
    ensures r.Consistent() && r.grid.rows == g.rows && r.grid.cols == g.cols
    ensures r.self == Holding(g.cells[l], None) && r.at == Some(dest)
    ensures l in r.grid.cells && r.grid.cells[l] == g.cells[l].kind.held.value
    ensures r.grid.Ids() == g.Ids() + {g.cells[l].kind.held.value.id}
    ensures r.grid.cells - {l, dest} == g.cells - {l, dest}
    ensures |r.grid.cells| == |g.cells| + 1
  {
    var me := g.cells[l];
    DropAndStepValid(g, l, dest);
    DropAndStepCells(g, l, dest);
    Outcome(g.MoveTo(l, dest).Place(l, me.kind.held.value).Update(dest, Holding(me, None)),
            Some(dest), Holding(me, None))
  }

  /** The grid invariants survive the three steps of `DropAndStep`. */
  lemma DropAndStepValid(g: Grid, l: Loc, dest: Loc)
    requires ActsAt(g, l) && g.cells[l].kind.held.Some?
    requires g.IsValid(dest) && dest !in g.cells && Dist(l, dest) == 1
    ensures var me := g.cells[l];
            var g1 := g.MoveTo(l, dest);
            && l !in g1.cells && g.IsValid(l)
            && var g2 := g1.Place(l, me.kind.held.value);
            && dest in g2.cells && g2.cells[dest].id == me.id
            && var g3 := g2.Update(dest, Holding(me, None));
            && g3.Valid() && g3.Ids() == g.Ids() + {me.kind.held.value.id}
  {
    var me := g.cells[l];
    var h := me.kind.held.value;
    assert dest != l;
    g.MoveToValid(l, dest);
    var g1 := g.MoveTo(l, dest);
    g1.PlaceValid(l, h);
    var g2 := g1.Place(l, h);
    g2.UpdateValid(dest, Holding(me, None));
  }

  /** What stands where after the three steps of `DropAndStep`. */
  lemma DropAndStepCells(g: Grid, l: Loc, dest: Loc)
    requires l in g.cells && g.cells[l].kind.Hoarder? && g.cells[l].kind.held.Some?
    requires g.IsValid(l) && g.IsValid(dest) && dest !in g.cells && dest != l
    ensures var me := g.cells[l];
            var g1 := g.MoveTo(l, dest);
            && l !in g1.cells
            && var g2 := g1.Place(l, me.kind.held.value);
            && dest in g2.cells && g2.cells[dest].id == me.id
            && var g3 := g2.Update(dest, Holding(me, None));
            && g3.cells[dest] == Holding(me, None)
            && |g3.cells| == |g.cells| + 1
            && l in g3.cells && g3.cells[l] == me.kind.held.value
            && g3.cells - {l, dest} == g.cells - {l, dest}
  {
    var me := g.cells[l];
    var g1 := g.MoveTo(l, dest);
    var g2 := g1.Place(l, me.kind.held.value);
    assert g2.cells - {l, dest} == g1.cells - {l, dest};
  }

  /** With nowhere to step, the hoarder leaves the grid and puts the held
      actor on the cell it left. */
  function DropAndLeave(g: Grid, l: Loc): (r: Outcome)
    requires ActsAt(g, l) && g.cells[l].kind.held.Some?
    ensures r.Consistent() && r.grid.rows == g.rows && r.grid.cols == g.cols
    ensures r.self == Holding(g.cells[l], None) && r.at.None?
    ensures r.grid.cells == g.cells[l := g.cells[l].kind.held.value]
    ensures r.grid.Ids() == g.Ids() - {g.cells[l].id} + {g.cells[l].kind.held.value.id}
    ensures |r.grid.cells| == |g.cells|
  {
    var me := g.cells[l];
    var h := me.kind.held.value;
    DropAndLeaveValid(g, l);
    DropAndLeaveCells(g, l, h);
    Outcome(g.Remove(l).Place(l, h), None, Holding(me, None))
  }

  /** The grid invariants survive the two steps of `DropAndLeave`. */
  lemma DropAndLeaveValid(g: Grid, l: Loc)
    requires ActsAt(g, l) && g.cells[l].kind.held.Some?
    ensures var me := g.cells[l];
            var h := me.kind.held.value;
            && g.IsValid(l) && l !in g.Remove(l).cells && me.id != h.id
            && var g2 := g.Remove(l).Place(l, h);
            && g2.Valid() && g2.Ids() == g.Ids() - {me.id} + {h.id}
  {
    var me := g.cells[l];
    var h := me.kind.held.value;
    assert me.id in g.Ids();
    var g1 := g.Remove(l);
    assert h.id !in g1.Ids();
    g1.PlaceValid(l, h);
  }

  /** Putting the held actor where the hoarder stood replaces the one by
      the other. */
  lemma DropAndLeaveCells(g: Grid, l: Loc, h: Actor)
    requires l in g.cells && g.IsValid(l)
    ensures g.Remove(l).Place(l, h).cells == g.cells[l := h]
  {
    var g2 := g.Remove(l).Place(l, h);
    assert g2.cells.Keys == g.cells.Keys;
  }

  /** After any drop the grid holds exactly as many actors as before plus
      the one that was carried, less the hoarder when it had to leave: no
      actor is created or lost. */
  lemma DropConservesActors(g: Grid, l: Loc, pick: nat)
    requires ActsAt(g, l) && g.cells[l].kind.held.Some?
    requires |g.EmptyAdjacent(l)| == 0 || pick < |g.EmptyAdjacent(l)|
    ensures var r := DropActor(g, l, pick);
            |r.grid.cells| + (if r.at.None? then 1 else 0) == |g.cells| + 1
            && r.self.kind.held.None?
  {
  }

  /** What happens when `dropActor` throws: the grid at that moment, and
      the hoarder, still holding its actor. */
  datatype DropResult = Dropped(outcome: Outcome) | NullGrid(grid: Grid, self: Actor)

  /** `dropActor` as written. In the branch without an empty neighbour the
      hoarder calls `removeSelfFromGrid()` first and `getGrid()` after it,
      which is then `null`, so `putSelfInGrid(null, oldLoc)` throws a
      NullPointerException before the held actor is put anywhere. */
  function DropActorAsWritten(g: Grid, l: Loc, pick: nat): (r: DropResult)
    requires ActsAt(g, l)
    requires |g.EmptyAdjacent(l)| == 0 || pick < |g.EmptyAdjacent(l)|
    ensures g.cells[l].kind.held.None? || |g.EmptyAdjacent(l)| > 0 ==> r == Dropped(DropActor(g, l, pick))
  {
    var me := g.cells[l];
    if me.kind.held.Some? && |g.EmptyAdjacent(l)| == 0 then
      NullGrid(g.Remove(l), me)
    else Dropped(DropActor(g, l, pick))
  }

  /** The discrepancy: stuck with nothing empty around it, the hoarder as
      written leaves the grid, throws, and the actor it carried is in no
      grid any more; the documented behaviour puts that actor down. */
  lemma DropAsWrittenLosesActor(g: Grid, l: Loc, pick: nat)
    requires ActsAt(g, l) && g.cells[l].kind.held.Some? && |g.EmptyAdjacent(l)| == 0
    ensures var r := DropActorAsWritten(g, l, pick);
            && r.NullGrid?
            && |r.grid.cells| == |g.cells| - 1
            && g.cells[l].kind.held.value.id !in r.grid.Ids()
            && g.cells[l].id !in r.grid.Ids()
    ensures var d := DropActor(g, l, pick);
            g.cells[l].kind.held.value.id in d.grid.Ids() && |d.grid.cells| == |g.cells|
  {
  }

  /** A concrete case: a hoarder alone in a 1 by 1 grid, holding a rock. */
  lemma DropAsWrittenCrashExample()
    ensures var g := LoneHoarder();
            && ActsAt(g, Loc(0, 0))
            && DropActorAsWritten(g, Loc(0, 0), 0).NullGrid?
            && DropActor(g, Loc(0, 0), 0).grid.cells == map[Loc(0, 0) := NewActor(1, Rock)]
  {
    LoneHoarderIsStuck();
  }

  /** The grid of `DropAsWrittenCrashExample`. */
  function LoneHoarder(): Grid {
    Grid(1, 1, map[Loc(0, 0) := Holding(NewHoarder(0, Loc(0, 0)), Some(NewActor(1, Rock)))])
  }

  /** The lone hoarder is well placed and has no empty neighbour. */
  lemma LoneHoarderIsStuck()
    ensures ActsAt(LoneHoarder(), Loc(0, 0))
    ensures LoneHoarder().EmptyAdjacent(Loc(0, 0)) == []
  {
    var g := LoneHoarder();
    assert g.cells[Loc(0, 0)].id == 0;
    assert g.Ids() == {0};
    g.Surrounded(Loc(0, 0));
  }

  // ---------------------------------------------------------------------
  // Homing and the act dispatch

  /** `moveTowardHome`: at home, drop; otherwise move to the free candidate
      `moves[pick % |moves|]` (`pick` stands for the random draw, which
      always lands inside the list), still holding; with no free candidate,
      drop. `dropPick` is the random index `dropActor` uses. */
  function MoveTowardHome(g: Grid, l: Loc, pick: nat, dropPick: nat): (r: Outcome)
    requires ActsAt(g, l) && g.cells[l].kind.held.Some?
    requires |g.EmptyAdjacent(l)| == 0 || dropPick < |g.EmptyAdjacent(l)|
    ensures r.Consistent() && r.grid.rows == g.rows && r.grid.cols == g.cols
    ensures l == g.cells[l].kind.home ==> r == DropActor(g, l, dropPick)
    ensures l != g.cells[l].kind.home && |ValidHomewardMoves(g, l, g.cells[l].kind.home)| == 0
            ==> r == DropActor(g, l, dropPick)
    ensures r.self.kind.held.Some? ==>
              && r.self == g.cells[l] && r.at.Some?
              && var m := r.at.value;
              && m in Candidates(l, g.cells[l].kind.home) && m !in g.cells && g.IsValid(m)
              && l !in r.grid.cells
              && r.grid.cells - {l, m} == g.cells - {l, m}
    ensures l != g.cells[l].kind.home && |ValidHomewardMoves(g, l, g.cells[l].kind.home)| > 0
            ==> r.self.kind.held.Some?
  {
    var me := g.cells[l];
    var home := me.kind.home;
    if l == home then DropActor(g, l, dropPick)
    else
      var moves := ValidHomewardMoves(g, l, home);
      if |moves| > 0 then
        var m := moves[pick % |moves|];
        HomewardMovesAreFreeCandidates(g, l, home);
        assert m in moves;
        g.MoveToValid(l, m);
        Outcome(g.MoveTo(l, m), Some(m), me)
      else DropActor(g, l, dropPick)
  }

  /** What `act` does this turn: the homing step, or the ordinary critter
      cycle inherited from Critter (with this class's `processActors`). */
  datatype Turn = Homing(outcome: Outcome) | CritterCycle

  /** `act`: while holding an actor, the hoarder only heads home; otherwise
      it runs the ordinary critter cycle. */
  function Act(g: Grid, l: Loc, pick: nat, dropPick: nat): (r: Turn)
    requires ActsAt(g, l)
    requires |g.EmptyAdjacent(l)| == 0 || dropPick < |g.EmptyAdjacent(l)|
    ensures r.CritterCycle? <==> g.cells[l].kind.held.None?
    ensures r.Homing? ==> r.outcome.Consistent()
    ensures r.Homing? ==>
              || r.outcome.self.kind.held.None?
              || (r.outcome.at.Some? && Dist(l, r.outcome.at.value) == 1
                  && r.outcome.at.value in Candidates(l, g.cells[l].kind.home))
  {
    if g.cells[l].kind.held.Some? then Homing(MoveTowardHome(g, l, pick, dropPick))
    else CritterCycle
  }
}
