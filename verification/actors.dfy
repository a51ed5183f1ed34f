/** Actors: everything that can stand in a grid cell. The class hierarchy of
    the source (Actor, Rock, Flower, Bug, Critter and its variants) becomes
    one tagged datatype; per-variant state lives in the tag. */
module Actors {
  import opened Locations
  import opened Options

  /** One colour component, as `java.awt.Color` accepts it. */
  type Channel = c: int | 0 <= c <= 255

  datatype Color = Color(red: Channel, green: Channel, blue: Channel)

  /** `Color.BLUE`, the colour the library gives every new actor. */
  const BLUE: Color := Color(0, 0, 255)

  /** The run-time class of an actor. `Kid` is a ChameleonKid; `Chameleon`
      the ChameleonCritter it extends. A HoarderCritter carries its `home`
      and the actor it holds, if any (`heldActor`, `null` as `None`). */
  datatype Kind =
    | PlainActor
    | Rock
    | Flower
    | Bug
    | PlainCritter
    | Bluster(courage: int)
    | Caterpillar
    | Cell
    | Chameleon
    | Kid
    | Hoarder(home: Loc, held: Option<Actor>)

  /** An actor with its identity (`id` stands for object identity), heading
      and colour. Where it stands is recorded by the grid. */
  datatype Actor = Actor(id: nat, kind: Kind, dir: Direction, color: Color)

  /** `a instanceof Critter`: every variant modelled here except the plain
      actor, rocks, flowers and bugs. */
  predicate IsCritter(k: Kind) {
    !(k.PlainActor? || k.Rock? || k.Flower? || k.Bug?)
  }

  /** A freshly constructed actor: facing north and blue, as the library's
      `Actor()` constructor leaves it. */
  function NewActor(id: nat, kind: Kind): (a: Actor)
    ensures a.id == id && a.kind == kind
  {
    Actor(id, kind, NORTH, BLUE)
  }
}
