/** Grid objects, as far as the grid container needs them: opaque values
    with a transparency flag. Their behaviour (actuation, stepping, the
    type registry and the array encoding) is not part of this model. */
module Cells {

  datatype DoorState = Open | Closed | Locked

  datatype Cell =
    | NoneObject              // what an agent holds when it holds nothing
    | Hidden                  // stands for a cell outside the grid
    | Floor                   // the default content of a fresh grid
    | Wall
    | Goal
    | Door(state: DoorState)
    | Key
    | MovingObstacle
    | Box(content: Cell)
  {
    /** Whether sight passes through the object. */
    predicate Transparent()
    {
      match this
      case Hidden => false
      case Wall => false
      case Door(s) => s == Open
      case _ => true
    }
  }

  /** Hidden and Wall block sight, Floor does not; a door does only when
      it is not open. */
  lemma TransparencyFlags(s: DoorState)
    ensures !Hidden.Transparent() && !Wall.Transparent() && Floor.Transparent()
    ensures Door(s).Transparent() <==> s == Open
  {
  }
}
