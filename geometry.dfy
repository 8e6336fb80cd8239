/** The records shared by the ticker engine: sizes, 2D vectors, per-axis
    repetition counts and the placeable item. Coordinates are integers so
    that the grid layout's products are exact. */
module Geometry {

  /** A bounding box: width and height. */
  datatype Rect = Rect(width: int, height: int)

  /** A 2D position. */
  datatype Vec2 = Vec2(x: int, y: int)

  /** How many copies an axis needs: columns (horizontal) and rows (vertical). */
  datatype DirectionalCount = DirectionalCount(horizontal: nat, vertical: nat)

  /** An item the layout places: an object whose position is overwritten in place. */
  class Positionable {
    var position: Vec2

    constructor (p: Vec2)
      ensures position == p
    {
      position := p;
    }
  }
}
