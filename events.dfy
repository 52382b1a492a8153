/**
 * The closed set of game events. Every event kind carries no data besides
 * its readonly `name`, so each kind is a payload-free constructor.
 */
module Events {

  datatype GameEvent =
    // movement
    | Left | Right | Down | Rotate
    // general
    | Fall | Pause | Restart
    // visual
    | Color
  {
    /** The `name` label of the event kind. */
    function Name(): string
    {
      match this
      case Left => "Left"
      case Right => "Right"
      case Down => "Down"
      case Rotate => "Rotate"
      case Fall => "Fall"
      case Pause => "Pause"
      case Restart => "Restart"
      case Color => "Color"
    }
  }

  /** The name identifies the kind: two events share a name exactly when they are the same kind. */
  lemma NameIdentifiesKind(a: GameEvent, b: GameEvent)
    ensures a.Name() == b.Name() <==> a == b
  {
  }
}
