# GridWorld critters, modelled in Dafny

A model of five critters from the GridWorld case study (Part 4 of the
AP Computer Science GridWorld exercises). Each critter extends `Critter`,
whose `act` cycle has five steps: get the actors, process them, get the
candidate moves, select a move, and make it. HoarderCritter, BlusterCritter,
CellCritter and ChameleonKid override steps of that cycle. CaterpillarCritter
declares `makeMove()` and `processFood(Location)` instead, which have other
signatures than the cycle's steps (see Left out).

- **HoarderCritter** picks up a random neighbouring actor and carries it
  toward its home cell. It puts the actor down there. It also puts the actor
  down where it gets stuck.
- **BlusterCritter** counts the critters within two steps. It brightens when
  that count is below its courage and darkens otherwise.
- **CellCritter** is a cellular-automaton critter. It dies with no
  CellCritter neighbour or with five or more. It breeds into a random empty
  neighbouring cell with one to three such neighbours.
- **CaterpillarCritter**: its `processFood(loc)` eats a flower on the given
  cell. Its `makeMove()` moves straight ahead onto an empty cell or a flower,
  and otherwise turns right.
- **ChameleonKid** copies the colour of the actor in front of it, failing
  that the actor behind it, and otherwise darkens.

The state is immutable. A `Grid` is its bounds plus a map from cells to
actors. An actor has an identity, a kind, a heading and a colour. The kind is
a tagged variant, one per class. The acting critter is "the actor at `l`".
Where the source tests `getGrid() == null`, the model uses a `Site`: either
an unplaced actor or a grid and a cell. Every random choice
(`Math.random() * list.size()`) becomes a `pick` index parameter. The index
must lie inside the list whenever the list is non-empty. The homeward move
is the exception: it takes `pick` modulo the number of moves, which also
lands inside the list.

The GridWorld library is not part of this model's source files. The parts
the critters call are modelled in `locations.dfy` and `grid.dfy` from the
library's documented behaviour:

- `getAdjacentLocation` rounds the heading to the nearest of eight compass
  points as `((d + 22) mod 360) / 45`.
- `getValidAdjacentLocations` scans north, north-east, …, north-west.
- `BoundedGrid.get` rejects invalid cells.
- A new actor faces north and is blue.
- `putSelfInGrid`, `Grid.put`, `removeSelfFromGrid` and `moveTo` are
  modelled by their effect on the grid's map, which keeps one actor per cell
  and each actor in at most one cell. An actor's own record of its grid and
  location is not modelled (see Left out).

Modules: `Options` (a nullable reference), `Seqs` (order-preserving filter and count), `Locations`,
`Actors`, `Grids`, and one module per critter.

Where comments and code disagree, the model follows the code:

- BlusterCritter's comments say the channels move by 10. The code moves them
  by 20 (`BlusterCritter.java:126-128`, `144-146`).
- HoarderCritter's side candidates are a quarter turn (`Location.RIGHT`,
  `Location.LEFT`) each side of the bearing home
  (`HoarderCritter.java:119-120`).
- HoarderCritter's guard `!actorToPickUp.equals(heldActor)`
  (`HoarderCritter.java:60`) is always true. `heldActor` is `null` there,
  because line 54 checks it. The guard is therefore not modelled as a branch, and the
  promise it was meant to keep is the second entry under Findings.

## Model

| member | source | states |
|---|---|---|
| `HoarderCritter.NewHoarder` | GridWorldPart4/src/info/gridworld/critters/HoarderCritter.java:27-31 | A new hoarder has the given home and holds nothing. |
| `HoarderCritter.Act` | GridWorldPart4/src/info/gridworld/critters/HoarderCritter.java:37-47 | It runs the ordinary critter cycle exactly when it holds nothing. While holding, it only homes, using the corrected drop: afterwards it holds nothing, or it stands on a neighbouring candidate cell toward home. |
| `HoarderCritter.ProcessActors` | GridWorldPart4/src/info/gridworld/critters/HoarderCritter.java:52-66 | It picks up the chosen actor when the list is non-empty and nothing is held. The actor leaves the grid and becomes the held actor. The grid then has one actor fewer and no other cell changes. With an empty list, or something already held, nothing changes. |
| `HoarderCritter.PickUp` | GridWorldPart4/src/info/gridworld/critters/HoarderCritter.java:62-63 | After a pick-up the grid stays well formed. Exactly the picked actor's identity leaves it, and the hoarder holds that actor. |
| `HoarderCritter.PickUpOnce` | GridWorldPart4/src/info/gridworld/critters/HoarderCritter.java:54-64 | After one pick-up, later sensing phases change nothing while the actor is held. The hoarder never holds two actors at once. |
| `HoarderCritter.RepicksDroppedActor` | GridWorldPart4/src/info/gridworld/critters/HoarderCritter.java:54-64 | As written, the class's promise not to pick up the same actor twice fails. After a drop with room, the dropped actor stands next to the hoarder, and a sensing phase that draws it makes the hoarder hold it again. |
| `HoarderCritter.ProcessActorsRemembering` | GridWorldPart4/src/info/gridworld/critters/HoarderCritter.java:52-66 | The pick-up as the class documentation promises it. A drawn actor that was carried before is not picked up. Any other draw is the ordinary pick-up, and the new actor is remembered. The held actor is always remembered. |
| `HoarderCritter.DroppedActorStaysDown` | GridWorldPart4/src/info/gridworld/critters/HoarderCritter.java:52-66 | With the remembering pick-up, an actor that was carried and dropped is never picked up again, whatever is sensed and drawn. |
| `HoarderCritter.AddValidMoveInDirection` | GridWorldPart4/src/info/gridworld/critters/HoarderCritter.java:133-141 | It appends the neighbour in that direction exactly when that cell is valid and empty. Otherwise the list is unchanged. |
| `HoarderCritter.Candidates` | GridWorldPart4/src/info/gridworld/critters/HoarderCritter.java:107-121 | There is one candidate on home's row or column and three off them. Every candidate is a neighbouring cell. |
| `HoarderCritter.ValidHomewardMoves` | GridWorldPart4/src/info/gridworld/critters/HoarderCritter.java:102-124 | There is at most one move when aligned with home and three otherwise. Every move is a valid, empty, neighbouring cell. |
| `HoarderCritter.HomewardMovesAreFreeCandidates` | GridWorldPart4/src/info/gridworld/critters/HoarderCritter.java:102-141 | The moves are exactly the candidates that are valid and empty, in candidate order. |
| `HoarderCritter.AlignedMovesApproachHome` | GridWorldPart4/src/info/gridworld/critters/HoarderCritter.java:107-114 | On home's row or column, every move is one king move closer to home. |
| `HoarderCritter.DirectMoveApproachesHome` | GridWorldPart4/src/info/gridworld/critters/HoarderCritter.java:117-118 | When the cell on the direct bearing is free, it is the first move and it is one step closer to home. |
| `HoarderCritter.SideStepCanRetreat` | GridWorldPart4/src/info/gridworld/critters/HoarderCritter.java:117-120 | A quarter-turn candidate can lead one step away from home. The example is (5, 5) with home (2, 8), where the right-hand candidate (6, 6) is farther away. |
| `HoarderCritter.DropActor` | GridWorldPart4/src/info/gridworld/critters/HoarderCritter.java:149-169 | The corrected drop. With nothing held, nothing changes. With an empty neighbour, the hoarder steps onto it and the held actor takes its old cell. With no empty neighbour, the hoarder leaves the grid and the held actor takes its cell. Afterwards it holds nothing, the grid stays well formed, and no other cell changes. |
| `HoarderCritter.DropAndStep` | GridWorldPart4/src/info/gridworld/critters/HoarderCritter.java:154-159 | The hoarder stands on the chosen empty neighbour and the held actor stands on the old cell. The grid gains exactly the held actor's identity. |
| `HoarderCritter.DropAndLeave` | GridWorldPart4/src/info/gridworld/critters/HoarderCritter.java:161-166 | The held actor replaces the hoarder in its cell and the hoarder is in no grid. This is the intended behaviour (see Findings). |
| `HoarderCritter.DropConservesActors` | GridWorldPart4/src/info/gridworld/critters/HoarderCritter.java:149-169 | The grid ends with its old actors plus the carried one, less the hoarder when it left. No actor is created or lost. |
| `HoarderCritter.DropActorAsWritten` | GridWorldPart4/src/info/gridworld/critters/HoarderCritter.java:149-169 | The drop as written. It agrees with `DropActor` except in the stuck branch, where it ends in a null grid. |
| `HoarderCritter.DropAsWrittenLosesActor` | GridWorldPart4/src/info/gridworld/critters/HoarderCritter.java:163-165 | When the hoarder is stuck while holding, the code as written leaves neither the hoarder nor the held actor in the grid. The corrected drop keeps the held actor. |
| `HoarderCritter.DropAsWrittenCrashExample` | GridWorldPart4/src/info/gridworld/critters/HoarderCritter.java:161-166 | Concrete input: a hoarder alone in a 1 by 1 grid holding a rock. As written, the drop throws. The corrected drop leaves the rock on the cell. |
| `HoarderCritter.MoveTowardHome` | GridWorldPart4/src/info/gridworld/critters/HoarderCritter.java:72-93 | At home, or with no free candidate, the hoarder drops, using the corrected drop. Otherwise it moves to the chosen free candidate, still holding. Only its old and new cells change. |
| `HoarderCritter.HomewardStep` | GridWorldPart4/src/info/gridworld/critters/HoarderCritter.java:82-88 | Away from home with a free candidate, the step is a `moveTo` onto the drawn candidate, still holding. |
| `HoarderCritter.HomingCanCycle` | GridWorldPart4/src/info/gridworld/critters/HoarderCritter.java:72-93 | Homing need not end. A carrier at (5, 5) with home (2, 8) can step to (6, 6), which is farther from home, and then back to (5, 5), in the same grid it started from. |
| `BlusterCritter.NewBluster` | GridWorldPart4/src/info/gridworld/critters/BlusterCritter.java:30-33 | The default courage is 0. |
| `BlusterCritter.NewBlusterWithCourage` | GridWorldPart4/src/info/gridworld/critters/BlusterCritter.java:40-43 | The constructor stores the given courage. |
| `BlusterCritter.Block2Cells` | GridWorldPart4/src/info/gridworld/critters/BlusterCritter.java:56-64 | The scanned square, less the own cell, holds each cell within two king moves exactly once. |
| `BlusterCritter.OccupiedWithin2` | GridWorldPart4/src/info/gridworld/critters/BlusterCritter.java:56-74 | The scan keeps exactly the valid, occupied cells within two steps, without repetition. |
| `BlusterCritter.GetNeighbors2Steps` | GridWorldPart4/src/info/gridworld/critters/BlusterCritter.java:50-78 | The nested row/column loops with the own-cell skip collect the occupants of those cells in scan order, at most 24. |
| `BlusterCritter.Neighbors2StepsAreNearby` | GridWorldPart4/src/info/gridworld/critters/BlusterCritter.java:50-78 | Every occupant of a valid cell within two steps is found. Everything found stands on such a cell. In a well-formed grid, the critter itself is never found. |
| `BlusterCritter.ScanRow` | GridWorldPart4/src/info/gridworld/critters/BlusterCritter.java:58-75 | One pass of the inner loop appends the occupants of one row of the square, in scan order. |
| `BlusterCritter.VisitCell` | GridWorldPart4/src/info/gridworld/critters/BlusterCritter.java:60-74 | The own cell adds nothing. Any other cell adds its occupant when it is valid and occupied. |
| `BlusterCritter.ScannedActorsFilter` | GridWorldPart4/src/info/gridworld/critters/BlusterCritter.java:56-76 | Appending occupants cell by cell gives the same list as filtering the block for occupied valid cells. |
| `BlusterCritter.CountCritterNeighbors2Steps` | GridWorldPart4/src/info/gridworld/critters/BlusterCritter.java:85-96 | The count is at most the number of neighbours found, and so at most 24. |
| `BlusterCritter.CountIsCritterCells` | GridWorldPart4/src/info/gridworld/critters/BlusterCritter.java:85-96 | The count equals the number of distinct cells within two steps that hold a critter. Rocks, flowers, bugs, plain actors and the own cell are not counted. |
| `BlusterCritter.Brighter` | GridWorldPart4/src/info/gridworld/critters/BlusterCritter.java:118-131 | Every channel rises by 20, or saturates at 255. No channel falls. |
| `BlusterCritter.Darker` | GridWorldPart4/src/info/gridworld/critters/BlusterCritter.java:136-149 | Every channel falls by 20, or saturates at 0. No channel rises. |
| `BlusterCritter.DarkerUndoesBrighter` | GridWorldPart4/src/info/gridworld/critters/BlusterCritter.java:118-149 | Below the top band, darkening inverts brightening. |
| `BlusterCritter.BrighterUndoesDarker` | GridWorldPart4/src/info/gridworld/critters/BlusterCritter.java:118-149 | Above the bottom band, brightening inverts darkening. |
| `BlusterCritter.ProcessActors` | GridWorldPart4/src/info/gridworld/critters/BlusterCritter.java:102-113 | The critter brightens when the count is below its courage and darkens otherwise. Only its own colour changes. |
| `BlusterCritter.ProcessActorsIgnoresActors` | GridWorldPart4/src/info/gridworld/critters/BlusterCritter.java:102-104 | The reaction does not depend on the list it is handed. |
| `BlusterCritter.DefaultCourageDarkens` | GridWorldPart4/src/info/gridworld/critters/BlusterCritter.java:30-33 | A default-constructed critter always darkens. |
| `CellCritter.NewCell` | GridWorldPart4/src/info/gridworld/critters/CellCritter.java:77 | The newborn is a CellCritter with the given identity. |
| `CellCritter.ProcessActors` | GridWorldPart4/src/info/gridworld/critters/CellCritter.java:31-33 | The sensing phase leaves the grid unchanged. |
| `CellCritter.CountCellNeighbors` | GridWorldPart4/src/info/gridworld/critters/CellCritter.java:40-54 | There are at most eight neighbours. |
| `CellCritter.CountCellNeighborsIsCardinality` | GridWorldPart4/src/info/gridworld/critters/CellCritter.java:40-54 | The count is the number of distinct neighbouring cells that hold a CellCritter. |
| `CellCritter.FateOf` | GridWorldPart4/src/info/gridworld/critters/CellCritter.java:67-79 | The rule as three if-and-only-ifs. A count of 0 or at least 5 means death. A count of 1 to 3 means breeding. A count of 4 means nothing happens. |
| `CellCritter.MakeMove` | GridWorldPart4/src/info/gridworld/critters/CellCritter.java:63-80 | On death, only the critter leaves. On breeding with room, exactly one new CellCritter appears on an empty valid neighbour and the parent stays. With four neighbours, or no room, nothing changes. The grid stays well formed. |
| `CellCritter.MakeMoveIgnoresTarget` | GridWorldPart4/src/info/gridworld/critters/CellCritter.java:63-65 | The location handed to `makeMove` makes no difference, and the critter never moves. |
| `CaterpillarCritter.ProcessFood` | GridWorldPart4/src/info/gridworld/critters/CaterpillarCritter.java:23-31 | The occupant is removed exactly when it is a flower. Every other cell is unchanged. |
| `CaterpillarCritter.ProcessFoodValid` | GridWorldPart4/src/info/gridworld/critters/CaterpillarCritter.java:23-31 | Eating keeps the grid well formed and removes at most one actor. |
| `CaterpillarCritter.CanMove` | GridWorldPart4/src/info/gridworld/critters/CaterpillarCritter.java:56-73 | The result is false without a grid and false when the cell ahead is invalid. Otherwise it is true exactly when the cell ahead is empty or holds a flower. |
| `CaterpillarCritter.MakeMove` | GridWorldPart4/src/info/gridworld/critters/CaterpillarCritter.java:38-48 | Its `makeMove()` moves forward exactly when it can. Otherwise it turns right on the spot. |
| `CaterpillarCritter.NeverEntersBlockedCell` | GridWorldPart4/src/info/gridworld/critters/CaterpillarCritter.java:38-73 | A forward move targets a valid neighbouring cell that is empty or holds a flower. |
| `CaterpillarCritter.QuarterTurns` | GridWorldPart4/src/info/gridworld/critters/CaterpillarCritter.java:46 | Adding `RIGHT` is a 90-degree clockwise turn, and four such turns restore the heading. |
| `CaterpillarCritter.BlockedTurnsRight` | GridWorldPart4/src/info/gridworld/critters/CaterpillarCritter.java:40-47 | A blocked caterpillar keeps its cell and colour and turns a quarter turn. Four blocked turns restore its heading. |
| `ChameleonKid.ProcessActors` | GridWorldPart4/src/info/gridworld/critters/ChameleonKid.java:23-41 | Without a grid, nothing happens. Otherwise the kid takes the colour of the occupant in front, else of the occupant behind, else darkens. Only its own colour changes. |
| `ChameleonKid.AdoptsColorOfLineNeighbour` | GridWorldPart4/src/info/gridworld/critters/ChameleonKid.java:31-37 | The front and back cells are distinct neighbours on the line of the heading. An adopted colour is that of an actor on one of them, and the front one wins. |
| `Locations.Adjacent` | GridWorldPart4/src/info/gridworld/critters/CaterpillarCritter.java:64 | The adjacent location in any direction is one king move away. |
| `Locations.AdjacentOpposite` | GridWorldPart4/src/info/gridworld/critters/ChameleonKid.java:31-32 | Stepping ahead and then in the opposite direction returns to the start. The cells ahead and behind differ. |
| `Locations.AdjacentComplete` | GridWorldPart4/src/info/gridworld/critters/CellCritter.java:45 | Every king-move neighbour is the adjacent location in some compass direction. |
| `Locations.DirectionToward` | GridWorldPart4/src/info/gridworld/critters/HoarderCritter.java:109-113 | The bearing is a compass point. Along a row or a column it points straight at the target. |
| `Locations.DirectionTowardApproaches` | GridWorldPart4/src/info/gridworld/critters/HoarderCritter.java:117-118 | One step along the bearing toward a different cell is one king move closer to it. |
| `Locations.DirectionTowardSymmetric` | GridWorldPart4/src/info/gridworld/critters/HoarderCritter.java:117 | With the modelled (exactly rounded) bearing, the bearing back is the opposite compass point. The library's truncated bearing can break this near a boundary (see Left out). |
| `Grids.AdjacentLocs` | GridWorldPart4/src/info/gridworld/critters/CellCritter.java:45 | There are eight distinct cells, exactly the king-move neighbours. |
| `Grids.Grid.EmptyAdjacent` | GridWorldPart4/src/info/gridworld/critters/HoarderCritter.java:153 | The result is exactly the valid, empty neighbours, without repetition. |
| `Grids.Grid.ValidAdjacent` | GridWorldPart4/src/info/gridworld/critters/CellCritter.java:45 | The result is exactly the valid neighbours, without repetition. |
| `Grids.Grid.MoveToValid` | GridWorldPart4/src/info/gridworld/critters/HoarderCritter.java:87 | Moving to an empty valid cell keeps the grid well formed and keeps its set of actors. |
| `Grids.Grid.PlaceValid` | GridWorldPart4/src/info/gridworld/critters/CellCritter.java:77 | At the level of the grid's map, putting an actor that is in no grid onto an empty valid cell (here with `Grid.put`) keeps the grid well formed and adds exactly its identity. |

## Left out

- The `Critter.act` cycle (`getActors`, `getMoveLocations`, `selectMoveLocation`) is inherited from the library. It is not part of this model. `HoarderCritter.Act` returns the marker `CritterCycle` for it, and each `processActors` and `makeMove` is modelled as a step on its own.
- `CaterpillarCritter.MakeMove` models the parameterless `makeMove()` of `CaterpillarCritter.java:38`. That method overloads the cycle's `makeMove(Location)` rather than overriding it, and the model does not state whether the `act` cycle ever calls it. The effect of `move()`, which is defined outside the five critter classes, is not modelled either: the outcome names the target cell instead.
- `processFood(Location)` has no caller in the modelled classes. `CaterpillarCritter.ProcessFood` is modelled for any valid cell it is given.
- `ChameleonKid.ProcessActors`: `ChameleonCritter.darker` is not part of this model. It is a `Color -> Color` parameter.
- `Math.random()` becomes an explicit `pick` index.
- The world's stepping order, the GUI, and the runner programs (`RockRunner`, `HoarderRunner`, `BlusterRunner`) are left out. They only build grids and display them.
- `Locations.DirectionToward` rounds the exact bearing to the nearest compass point. The library computes the bearing in whole degrees before rounding. The two can differ for bearings within one degree of a boundary between two compass points. From (0, 0) toward (-12, -5) the exact bearing is about 337.4 degrees, which the model rounds to north-west, while the library truncates the angle and answers north; the library's bearing back, from (-12, -5) toward (0, 0), is south-east. So `Locations.DirectionTowardSymmetric` holds of the modelled bearing only: the library's bearing is not symmetric near a boundary.
- HoarderCritter homing is not proved to terminate, and in general it does not terminate. `SideStepCanRetreat` shows that a side step can lead away from home, and `HomingCanCycle` shows a two-step cycle.
- `HoarderCritter.MoveTowardHome` drops with the corrected `DropActor`, not with `DropActorAsWritten`. Where the source throws (the stuck branch, `HoarderCritter.java:165`), it returns the documented outcome instead. The code as written is modelled only in `DropActorAsWritten` (see Findings).
- `HoarderCritter.Act` inherits this from `MoveTowardHome`: "afterwards it holds nothing" holds of the corrected drop, not of the code as written, which throws in the stuck branch while still holding.
- `CellCritter.MakeMove`: the newborn is put into the grid with `Grid.put` (`CellCritter.java:77`), not with `putSelfInGrid`, so its own grid and location stay unset. In the GridWorld library, the world's step only lets actors whose own grid is set act, so a newborn never acts. Removing one from the grid (`removeSelfFromGrid`, as a HoarderCritter picking it up would) throws. The model records only the grid's map, in which the newborn does stand on its cell, and cannot express either consequence.
- Colours are triples of channels in 0..255. Alpha is ignored.
- Coordinates, courage and counts are unbounded integers. Java's 32-bit `int` wrap-around at extreme values is not modelled.
- Exceptions other than the one under Findings are not modelled as behaviour. An invalid cell handed to `Grid.get` is excluded by a precondition, as the bounded grid rejects it.

## Findings

| source | as written | input that shows it | evidently intended | confidence | as-written member | corrected member |
|---|---|---|---|---|---|---|
| GridWorldPart4/src/info/gridworld/critters/HoarderCritter.java:161-166 | With no empty neighbour, the hoarder calls `removeSelfFromGrid()` and then `heldActor.putSelfInGrid(getGrid(), oldLoc)`. `getGrid()` is `null` by then, so the call throws a NullPointerException. The held actor is then in no grid. | A hoarder alone in a 1 by 1 grid, holding a rock (`HoarderCritter.LoneHoarder`) | As the method's documentation says, the held actor is put on the hoarder's old cell: the grid is saved before the hoarder leaves it. | not executed | `HoarderCritter.DropActorAsWritten`, `HoarderCritter.DropAsWrittenLosesActor`, `HoarderCritter.DropAsWrittenCrashExample` | `HoarderCritter.DropActor` |
| GridWorldPart4/src/info/gridworld/critters/HoarderCritter.java:59-60 | The class documentation (line 12) says the hoarder never picks up the same actor twice. The guard compares the drawn actor with `heldActor`, which is `null` whenever the guard is reached, so it never stops a pick-up. | A hoarder holding a rock, with an empty neighbour: it drops the rock and steps aside, and the next sensing phase draws the rock (`HoarderCritter.RepicksDroppedActor`) | The hoarder remembers the actors it has carried and does not pick any of them up again. | not executed | `HoarderCritter.ProcessActors`, `HoarderCritter.RepicksDroppedActor` | `HoarderCritter.ProcessActorsRemembering`, `HoarderCritter.DroppedActorStaysDown` |
