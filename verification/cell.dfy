/** CellCritter (GridWorldPart4/src/info/gridworld/critters/CellCritter.java):
    a critter that never moves but lives or dies by how many CellCritters
    stand around it, and reproduces into an empty neighbouring cell. */
module CellCritter {
  import opened Locations
  import opened Actors
  import opened Grids
  import opened Seqs

  /** `new CellCritter()` with the identity the allocation gives it. */
  function NewCell(id: nat): (a: Actor)
    ensures a.kind.Cell? && a.id == id
  {
    NewActor(id, Cell)
  }

  /** The acting CellCritter stands at `l` of a well-formed grid. */
  ghost predicate ActsAt(g: Grid, l: Loc) {
    g.Valid() && l in g.cells && g.cells[l].kind.Cell?
  }

  /** `processActors` is overridden to do nothing: the reaction phase leaves
      the grid exactly as it was, whatever actors were sensed. */
  function ProcessActors(g: Grid, l: Loc, actors: seq<Loc>): (r: Grid)
    ensures r == g
  {
    g
  }

  /** Is there a CellCritter at `m`? (`gr.get(m) instanceof CellCritter`) */
  predicate HoldsCell(g: Grid, m: Loc) {
    m in g.cells && g.cells[m].kind.Cell?
  }

  /** `countCellNeighbors`: the CellCritters among the valid adjacent cells. */
  function CountCellNeighbors(g: Grid, l: Loc): (n: nat)
    ensures n <= 8
  {
    Count(g.ValidAdjacent(l), m => HoldsCell(g, m))
  }

  /** The count is the number of distinct neighbouring cells holding a
      CellCritter: nothing farther away, nothing outside the grid, nothing
      counted twice. */
  lemma CountCellNeighborsIsCardinality(g: Grid, l: Loc)
    requires g.Valid()
    ensures CountCellNeighbors(g, l)
         == |set m | m in g.cells && Dist(l, m) == 1 && g.cells[m].kind.Cell?|
  {
    var adj := g.ValidAdjacent(l);
    var p := m => HoldsCell(g, m);
    CountIsCardinality(adj, p);
    var lhs := Matching(adj, p);
    var rhs := set m | m in g.cells && Dist(l, m) == 1 && g.cells[m].kind.Cell?;
    forall m | m in rhs ensures m in lhs {
      assert g.IsValid(m);
      assert m in adj;
    }
    forall m | m in lhs ensures m in rhs {
      assert m in adj && HoldsCell(g, m);
    }
    assert lhs == rhs;
  }

  /** The outcome of `makeMove`, decided by the neighbour count. */
  datatype Fate = Dies | Reproduces | Stays

  /** The rule of the automaton: no CellCritter neighbour or at least five
      kill; one to three breed; exactly four leave the critter alone. */
  function FateOf(n: nat): (f: Fate)
    ensures f.Dies? <==> n == 0 || n >= 5
    ensures f.Reproduces? <==> 1 <= n <= 3
    ensures f.Stays? <==> n == 4
  {
    if n == 0 || n >= 5 then Dies
    else if n >= 1 && n <= 3 then Reproduces
    else Stays
  }

  /** `makeMove(loc)`: the destination `target` chosen by the critter cycle
      is ignored. `pick` is the random index into the empty neighbours and
      `newId` the identity of the newborn critter. */
  function MakeMove(g: Grid, l: Loc, target: Loc, pick: nat, newId: nat): (r: Grid)
    requires ActsAt(g, l)
    requires newId !in g.Ids()
    requires |g.EmptyAdjacent(l)| == 0 || pick < |g.EmptyAdjacent(l)|
    ensures r.rows == g.rows && r.cols == g.cols && r.Valid()
    // death by isolation or overcrowding: the critter leaves, nothing else changes
    ensures FateOf(CountCellNeighbors(g, l)).Dies? ==> r.cells == g.cells - {l}
    // reproduction: one new CellCritter on an empty neighbour, the parent stays
    ensures FateOf(CountCellNeighbors(g, l)).Reproduces? && |g.EmptyAdjacent(l)| > 0 ==>
              exists m :: m !in g.cells && g.IsValid(m) && Dist(l, m) == 1
                        && r.cells == g.cells[m := NewCell(newId)]
    ensures FateOf(CountCellNeighbors(g, l)).Reproduces? && |g.EmptyAdjacent(l)| > 0 ==>
              |r.cells| == |g.cells| + 1 && l in r.cells && r.cells[l] == g.cells[l]
    // four neighbours, or no room to breed: nothing happens
    ensures FateOf(CountCellNeighbors(g, l)).Stays? ==> r == g
    ensures |g.EmptyAdjacent(l)| == 0 && !FateOf(CountCellNeighbors(g, l)).Dies? ==> r == g
  {
    var n := CountCellNeighbors(g, l);
    if n == 0 || n >= 5 then
      g.Remove(l)
    else if n >= 1 && n <= 3 then
      var empties := g.EmptyAdjacent(l);
      if |empties| > 0 then
        var m := empties[pick];
        assert m in empties;
        g.PlaceValid(m, NewCell(newId));
        g.Place(m, NewCell(newId))
      else g
    else g
  }

  /** The critter never moves: the location handed to `makeMove` makes no
      difference to the outcome. */
  lemma MakeMoveIgnoresTarget(g: Grid, l: Loc, t1: Loc, t2: Loc, pick: nat, newId: nat)
    requires ActsAt(g, l)
    requires newId !in g.Ids()
    requires |g.EmptyAdjacent(l)| == 0 || pick < |g.EmptyAdjacent(l)|
    ensures MakeMove(g, l, t1, pick, newId) == MakeMove(g, l, t2, pick, newId)
    ensures var r := MakeMove(g, l, t1, pick, newId);
            l in r.cells ==> r.cells[l] == g.cells[l]
  {
  }
}
