/** Node coordinates shared by the persisted state and the layout service.
    Coordinates are JavaScript numbers in the program; the core only copies
    them and never computes with them, so a coordinate is an abstract value
    that supports equality. Like the doubles it stands for it is not assumed
    to range over an uncountable set, so a byte codec can carry it. */
module Coordinates {

  /** One JavaScript number used as a coordinate. */
  type Coord(==, 0, !new)

  /** The number `0`. */
  const Zero: Coord

  /** A position `(x, y)`: `[x, y]` in the persisted state, `{ x, y }` in a layout result. */
  datatype Point = Point(x: Coord, y: Coord)

  /** A record from node id to its position (`Record<string, [number, number]>`). */
  type PositionMap = map<string, Point>

  /** The position given to a node that has nothing better. */
  const Origin: Point := Point(Zero, Zero)
}
