/** BlusterCritter (GridWorldPart4/src/info/gridworld/critters/BlusterCritter.java):
    a critter that counts the critters within two steps and brightens when
    there are fewer than its courage, darkens otherwise. */
module BlusterCritter {
  import opened Locations
  import opened Actors
  import opened Grids
  import opened Seqs

  /** The amount each colour channel moves per reaction. */
  const STEP: int := 20

  /** `new BlusterCritter(c)`. */
  function NewBlusterWithCourage(id: nat, c: int): (a: Actor)
    ensures a.id == id && a.kind == Bluster(c)
  {
    NewActor(id, Bluster(c))
  }

  /** `new BlusterCritter()`: the default courage is 0. */
  function NewBluster(id: nat): (a: Actor)
    ensures a.id == id && a.kind == Bluster(0)
  {
    NewBlusterWithCourage(id, 0)
  }

  /** Cell `j` (0 to 24) of the 5 by 5 square centred on `l`, row by row. */
  function SquareCell(l: Loc, j: nat): (m: Loc)
    requires j < 25
    ensures Dist(l, m) <= 2
    ensures m == l <==> j == 12
  {
    var row := SquareRow(j);
    Loc(l.row - 2 + row, l.col - 2 + (j - 5 * row))
  }

  /** The row of square cell `j`: `j / 5`, written out. */
  function SquareRow(j: nat): (row: nat)
    requires j < 25
    ensures row < 5 && 5 * row <= j < 5 * row + 5
  {
    if j < 5 then 0 else if j < 10 then 1 else if j < 15 then 2 else if j < 20 then 3 else 4
  }

  lemma DivMod5(a: int, b: int)
    requires 0 <= a < 5 && 0 <= b < 5
    ensures SquareRow(5 * a + b) == a
  {
  }

  /** The square index of the `k`-th cell of the block: the scan skips 12. */
  function BlockIndex(k: nat): (j: nat)
    requires k < 24
    ensures j < 25 && j != 12
  {
    if k < 12 then k else k + 1
  }

  /** The 24 cells within two steps of `l`, in the order of the nested scan
      loops (rows outer, columns inner), skipping `l` itself. */
  function Block2(l: Loc): (r: seq<Loc>)
    ensures |r| == 24
    ensures forall k | 0 <= k < 24 :: r[k] == SquareCell(l, BlockIndex(k))
  {
    seq(24, k requires 0 <= k < 24 => SquareCell(l, BlockIndex(k)))
  }

  /** The block holds every cell within two steps of `l` except `l`, each
      once. */
  lemma Block2Cells(l: Loc)
    ensures Distinct(Block2(l))
    ensures forall m | m in Block2(l) :: 1 <= Dist(l, m) <= 2
    ensures forall m | 1 <= Dist(l, m) <= 2 :: m in Block2(l)
  {
    var r := Block2(l);
    forall m | 1 <= Dist(l, m) <= 2 ensures m in r {
      var a, b := m.row - l.row + 2, m.col - l.col + 2;
      var j := 5 * a + b;
      DivMod5(a, b);
      assert SquareCell(l, j) == m;
      var k := if j < 12 then j else j - 1;
      assert r[k] == m;
    }
  }

  /** The occupied valid cells within two steps, in scan order. */
  function OccupiedWithin2(g: Grid, l: Loc): (r: seq<Loc>)
    ensures |r| <= 24 && Distinct(r)
    ensures forall m | m in r :: g.IsValid(m) && m in g.cells && 1 <= Dist(l, m) <= 2
    ensures forall m | g.IsValid(m) && m in g.cells && 1 <= Dist(l, m) <= 2 :: m in r
  {
    Block2Cells(l);
    Filter(Block2(l), m => g.IsValid(m) && m in g.cells)
  }

  /** The actors standing on the cells `ls`, in order. */
  function ActorsAt(g: Grid, ls: seq<Loc>): (r: seq<Actor>)
    requires forall m | m in ls :: m in g.cells
    ensures |r| == |ls|
    ensures forall i | 0 <= i < |ls| :: r[i] == g.cells[ls[i]]
  {
    seq(|ls|, i requires 0 <= i < |ls| => g.cells[ls[i]])
  }

  /** The actors on two runs of cells, one after the other. */
  lemma ActorsAtAppend(g: Grid, ls: seq<Loc>, ms: seq<Loc>)
    requires forall m | m in ls :: m in g.cells
    requires forall m | m in ms :: m in g.cells
    ensures ActorsAt(g, ls + ms) == ActorsAt(g, ls) + ActorsAt(g, ms)
  {
  }

  /** `getNeighbors2Steps`: every actor within two steps, at most 24. */
  function Neighbors2Steps(g: Grid, l: Loc): (r: seq<Actor>)
    ensures |r| <= 24
  {
    ActorsAt(g, OccupiedWithin2(g, l))
  }

  /** The scan finds exactly the occupants of the valid cells within two
      steps: every such occupant is found, everything found is one, and in
      a well-formed grid the critter itself is never among them. */
  lemma Neighbors2StepsAreNearby(g: Grid, l: Loc)
    ensures forall m | g.IsValid(m) && m in g.cells && 1 <= Dist(l, m) <= 2 :: g.cells[m] in Neighbors2Steps(g, l)
    ensures forall a | a in Neighbors2Steps(g, l) ::
              exists m | m in g.cells :: g.IsValid(m) && 1 <= Dist(l, m) <= 2 && g.cells[m] == a
    ensures g.Valid() && l in g.cells ==> g.cells[l] !in Neighbors2Steps(g, l)
  {
    var occ := OccupiedWithin2(g, l);
    var r := Neighbors2Steps(g, l);
    forall m | g.IsValid(m) && m in g.cells && 1 <= Dist(l, m) <= 2 ensures g.cells[m] in r {
      var i :| 0 <= i < |occ| && occ[i] == m;
      assert r[i] == g.cells[m];
    }
    forall a | a in r ensures exists m | m in g.cells :: g.IsValid(m) && 1 <= Dist(l, m) <= 2 && g.cells[m] == a {
      var i :| 0 <= i < |r| && r[i] == a;
      assert occ[i] in occ;
    }
  }

  /** `countCritterNeighbors2Steps`: how many of those actors are critters. */
  function CountCritterNeighbors2Steps(g: Grid, l: Loc): (n: nat)
    ensures n <= |Neighbors2Steps(g, l)| <= 24
  {
    Count(Neighbors2Steps(g, l), (a: Actor) => IsCritter(a.kind))
  }

  /** Is there a critter at `m`? */
  predicate HoldsCritter(g: Grid, m: Loc) {
    m in g.cells && IsCritter(g.cells[m].kind)
  }

  /** Counting actors on a list of cells is counting the cells they stand on. */
  lemma {:induction false} CountActorsAt(g: Grid, ls: seq<Loc>)
    requires forall m | m in ls :: m in g.cells
    ensures Count(ActorsAt(g, ls), (a: Actor) => IsCritter(a.kind)) == Count(ls, m => HoldsCritter(g, m))
  {
    if |ls| > 0 {
      var init, last := ls[..|ls| - 1], ls[|ls| - 1];
      var acts := ActorsAt(g, ls);
      assert acts[..|acts| - 1] == ActorsAt(g, init);
      CountActorsAt(g, init);
    }
  }

  /** The count is the number of distinct cells within two steps that hold
      a critter: the own cell, cells outside the grid and non-critters
      (rocks, flowers, bugs) are not counted. */
  lemma CountIsCritterCells(g: Grid, l: Loc)
    requires g.Valid()
    ensures CountCritterNeighbors2Steps(g, l)
         == |set m | m in g.cells && 1 <= Dist(l, m) <= 2 && IsCritter(g.cells[m].kind)|
  {
    var occ := OccupiedWithin2(g, l);
    CountActorsAt(g, occ);
    var p := m => HoldsCritter(g, m);
    CountIsCardinality(occ, p);
    var lhs := Matching(occ, p);
    var rhs := set m | m in g.cells && 1 <= Dist(l, m) <= 2 && IsCritter(g.cells[m].kind);
    forall m | m in rhs ensures m in lhs {
      assert g.IsValid(m);
      assert m in occ;
    }
    forall m | m in lhs ensures m in rhs {
      assert m in occ && HoldsCritter(g, m);
    }
    assert lhs == rhs;
  }

  /** The actors found on the first `k` cells of the block, one cell at a
      time, as the scan loops append them. */
  function ScannedActors(g: Grid, l: Loc, k: nat): (r: seq<Actor>)
    requires k <= 24
    ensures |r| <= k
  {
    if k == 0 then []
    else
      var m := Block2(l)[k - 1];
      ScannedActors(g, l, k - 1) + (if g.IsValid(m) && m in g.cells then [g.cells[m]] else [])
  }

  /** Scanning cell by cell finds the same actors as the filtered block. */
  lemma {:induction false} ScannedActorsFilter(g: Grid, l: Loc, k: nat)
    requires k <= 24
    ensures ScannedActors(g, l, k) == ActorsAt(g, Filter(Block2(l)[..k], m => g.IsValid(m) && m in g.cells))
  {
    if k > 0 {
      ScannedActorsFilter(g, l, k - 1);
      ScanStep(g, Block2(l), k);
    }
  }

  /** One step of `ScannedActorsFilter`: the k-th cell of a run of cells
      adds its occupant, if any. */
  lemma ScanStep(g: Grid, s: seq<Loc>, k: nat)
    requires 0 < k <= |s|
    ensures var m := s[k - 1];
            ActorsAt(g, Filter(s[..k], m => g.IsValid(m) && m in g.cells))
            == ActorsAt(g, Filter(s[..k - 1], m => g.IsValid(m) && m in g.cells))
               + (if g.IsValid(m) && m in g.cells then [g.cells[m]] else [])
  {
    var m := s[k - 1];
    FilterTakeSnoc(s, k, m => g.IsValid(m) && m in g.cells);
    ActorsAtAppend(g, Filter(s[..k - 1], m => g.IsValid(m) && m in g.cells),
                   if g.IsValid(m) && m in g.cells then [m] else []);
  }

  /** Where the scan loops stand: cell (r, c) is the `k`-th cell of the block. */
  lemma BlockAt(l: Loc, r: int, c: int, k: nat)
    requires l.row - 2 <= r <= l.row + 2 && l.col - 2 <= c <= l.col + 2
    requires Loc(r, c) != l
    requires k == 5 * (r - l.row + 2) + (c - l.col + 2)
                  - (if r > l.row || (r == l.row && c > l.col) then 1 else 0)
    ensures k < 24 && Block2(l)[k] == Loc(r, c)
  {
    DivMod5(r - l.row + 2, c - l.col + 2);
  }

  /** The number of block cells the scan has passed before cell (r, c). */
  function ScanPosition(l: Loc, r: int, c: int): int {
    5 * (r - l.row + 2) + (c - l.col + 2) - (if r > l.row || (r == l.row && c > l.col) then 1 else 0)
  }

  /** Scanning cell (r, c) appends its occupant, if any, and advances the
      position by one; the own cell is passed over. */
  lemma ScanCell(g: Grid, l: Loc, r: int, c: int)
    requires l.row - 2 <= r <= l.row + 2 && l.col - 2 <= c <= l.col + 2
    ensures 0 <= ScanPosition(l, r, c) <= ScanPosition(l, r, c + 1) <= 24
    ensures r == l.row && c == l.col ==> ScanPosition(l, r, c + 1) == ScanPosition(l, r, c)
    ensures !(r == l.row && c == l.col) ==>
              var m, k := Loc(r, c), ScanPosition(l, r, c);
              ScannedActors(g, l, k + 1)
              == ScannedActors(g, l, k) + (if g.IsValid(m) && m in g.cells then [g.cells[m]] else [])
              && ScanPosition(l, r, c + 1) == k + 1
  {
    if !(r == l.row && c == l.col) {
      BlockAt(l, r, c, ScanPosition(l, r, c));
    }
  }

  /** The body of the inner loop of `getNeighbors2Steps`: skip the own
      cell, otherwise add the occupant of a valid cell, if any. */
  method VisitCell(g: Grid, l: Loc, r: int, c: int, out: seq<Actor>) returns (next: seq<Actor>)
    requires l.row - 2 <= r <= l.row + 2 && l.col - 2 <= c <= l.col + 2
    requires 0 <= ScanPosition(l, r, c) <= 24 && out == ScannedActors(g, l, ScanPosition(l, r, c))
    ensures 0 <= ScanPosition(l, r, c + 1) <= 24
    ensures next == ScannedActors(g, l, ScanPosition(l, r, c + 1))
  {
    ScanCell(g, l, r, c);
    next := out;
    if r == l.row && c == l.col {
      return;
    }
    var t := Loc(r, c);
    if g.IsValid(t) {
      if t in g.cells {
        next := out + [g.cells[t]];
      }
    }
  }

  /** The inner loop of `getNeighbors2Steps`: one row of the square. */
  method ScanRow(g: Grid, l: Loc, r: int, neighbors: seq<Actor>) returns (out: seq<Actor>)
    requires l.row - 2 <= r <= l.row + 2
    requires neighbors == ScannedActors(g, l, ScanPosition(l, r, l.col - 2))
    ensures out == ScannedActors(g, l, ScanPosition(l, r + 1, l.col - 2))
  {
    out := neighbors;
    var c := l.col - 2;
    while c <= l.col + 2
      invariant l.col - 2 <= c <= l.col + 3
      invariant 0 <= ScanPosition(l, r, c) <= 24
      invariant out == ScannedActors(g, l, ScanPosition(l, r, c))
    {
      out := VisitCell(g, l, r, c, out);
      c := c + 1;
    }
    assert ScanPosition(l, r, c) == ScanPosition(l, r + 1, l.col - 2);
  }

  /** The nested loops of `getNeighbors2Steps`, scanning rows then columns
      and skipping the own cell; they collect exactly `Neighbors2Steps`. */
  method GetNeighbors2Steps(g: Grid, l: Loc) returns (neighbors: seq<Actor>)
    ensures |neighbors| <= 24
    ensures neighbors == Neighbors2Steps(g, l)
  {
    neighbors := [];
    var r := l.row - 2;
    while r <= l.row + 2
      invariant l.row - 2 <= r <= l.row + 3
      invariant 0 <= ScanPosition(l, r, l.col - 2) <= 24
      invariant neighbors == ScannedActors(g, l, ScanPosition(l, r, l.col - 2))
    {
      neighbors := ScanRow(g, l, r, neighbors);
      r := r + 1;
    }
    assert Block2(l)[..24] == Block2(l);
    ScannedActorsFilter(g, l, 24);
  }

  /** The brightening step of one channel: up by 20, capped at 255. */
  function Up(c: Channel): Channel {
    if c + STEP < 255 then c + STEP else 255
  }

  /** The darkening step of one channel: down by 20, floored at 0. */
  function Down(c: Channel): Channel {
    if c - STEP > 0 then c - STEP else 0
  }

  /** `brighter`: every channel rises by 20 unless that would pass 255, in
      which case it saturates at 255; no channel ever falls. */
  function Brighter(c: Color): (r: Color)
    ensures c.red <= r.red <= c.red + STEP && (r.red == c.red + STEP || r.red == 255)
    ensures c.green <= r.green <= c.green + STEP && (r.green == c.green + STEP || r.green == 255)
    ensures c.blue <= r.blue <= c.blue + STEP && (r.blue == c.blue + STEP || r.blue == 255)
  {
    Color(Up(c.red), Up(c.green), Up(c.blue))
  }

  /** `darker`: every channel falls by 20 unless that would pass 0, in which
      case it saturates at 0; no channel ever rises. */
  function Darker(c: Color): (r: Color)
    ensures c.red - STEP <= r.red <= c.red && (r.red == c.red - STEP || r.red == 0)
    ensures c.green - STEP <= r.green <= c.green && (r.green == c.green - STEP || r.green == 0)
    ensures c.blue - STEP <= r.blue <= c.blue && (r.blue == c.blue - STEP || r.blue == 0)
  {
    Color(Down(c.red), Down(c.green), Down(c.blue))
  }

  /** Away from the top of the range, darkening undoes brightening. */
  lemma DarkerUndoesBrighter(c: Color)
    requires c.red <= 255 - STEP && c.green <= 255 - STEP && c.blue <= 255 - STEP
    ensures Darker(Brighter(c)) == c
  {
  }

  /** Away from the bottom of the range, brightening undoes darkening. */
  lemma BrighterUndoesDarker(c: Color)
    requires c.red >= STEP && c.green >= STEP && c.blue >= STEP
    ensures Brighter(Darker(c)) == c
  {
  }

  /** The acting BlusterCritter stands at `l`. */
  predicate ActsAt(g: Grid, l: Loc) {
    l in g.cells && g.cells[l].kind.Bluster?
  }

  /** `processActors`: the sensed `actors` are ignored; the critter
      brightens when fewer than `courage` critters stand within two steps
      and darkens otherwise. Only its own colour changes. */
  function ProcessActors(g: Grid, l: Loc, actors: seq<Loc>): (r: Grid)
    requires ActsAt(g, l)
    ensures r.rows == g.rows && r.cols == g.cols
    ensures r.cells - {l} == g.cells - {l}
    ensures l in r.cells && r.cells[l] == g.cells[l].(color := r.cells[l].color)
    ensures CountCritterNeighbors2Steps(g, l) < g.cells[l].kind.courage
            ==> r.cells[l].color == Brighter(g.cells[l].color)
    ensures CountCritterNeighbors2Steps(g, l) >= g.cells[l].kind.courage
            ==> r.cells[l].color == Darker(g.cells[l].color)
  {
    var me := g.cells[l];
    var n := CountCritterNeighbors2Steps(g, l);
    var color := if n < me.kind.courage then Brighter(me.color) else Darker(me.color);
    g.(cells := g.cells[l := me.(color := color)])
  }

  /** The reaction depends on the grid alone, not on the list it is given. */
  lemma ProcessActorsIgnoresActors(g: Grid, l: Loc, a1: seq<Loc>, a2: seq<Loc>)
    requires ActsAt(g, l)
    ensures ProcessActors(g, l, a1) == ProcessActors(g, l, a2)
  {
  }

  /** A critter built with the default constructor has courage 0, and no
      count is below 0: it always darkens. */
  lemma DefaultCourageDarkens(g: Grid, l: Loc, actors: seq<Loc>)
    requires l in g.cells && g.cells[l].kind == NewBluster(g.cells[l].id).kind
    ensures ProcessActors(g, l, actors).cells[l].color == Darker(g.cells[l].color)
  {
  }
}
