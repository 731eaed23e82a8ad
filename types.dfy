/** Values shared by the room engine and the prototype server. */
module Types {

  datatype Option<T> = None | Some(value: T) {
    function GetOr(default: T): (r: T) {
      if Some? then value else default
    }
  }

  /** An integer point of the arena; the origin is the top-left corner. */
  datatype Pos = Pos(x: int, y: int)

  /** An axis-aligned rectangle, the wire shape `{x, y, width, height}` of a wall. */
  datatype Rect = Rect(x: int, y: int, width: int, height: int)

  /** An RGB triple, as stored in a player's `color`. */
  datatype Color = Color(r: int, g: int, b: int)

  /** The Python exceptions raised by the defective code paths modelled as written. */
  datatype PyException = NameError | TypeError | AttributeError | KeyError

  /** Either the value a Python function returns or the exception it raises. */
  datatype Outcome<T> = Returned(value: T) | Raised(exception: PyException)

  /** Map size and the number of spawn points / colours. */
  const MAP_WIDTH: int := 2400
  const MAP_HEIGHT: int := 1800

  /** The eight spawn points, top-left first. */
  const PLAYER_STARTS: seq<Pos> := [
    Pos(80, 80),
    Pos(MAP_WIDTH - 120, MAP_HEIGHT - 120),
    Pos(80, MAP_HEIGHT - 120),
    Pos(MAP_WIDTH - 120, 80),
    Pos(MAP_WIDTH / 2, 80),
    Pos(MAP_WIDTH / 2, MAP_HEIGHT - 120),
    Pos(80, MAP_HEIGHT / 2),
    Pos(MAP_WIDTH - 120, MAP_HEIGHT / 2)
  ]

  /** Red, blue, green, yellow, magenta, cyan, orange, purple. */
  const PLAYER_COLORS: seq<Color> := [
    Color(255, 0, 0),
    Color(0, 0, 255),
    Color(0, 255, 0),
    Color(255, 255, 0),
    Color(255, 0, 255),
    Color(0, 255, 255),
    Color(255, 165, 0),
    Color(128, 0, 128)
  ]
}
