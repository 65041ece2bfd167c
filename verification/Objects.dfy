/** Objects as the store sees them: opaque values with the few observations the indexes use. */
module Objects {
  import opened Bytes

  datatype Vec = Vec(x: real, y: real)

  /** A bounding rectangle; an item's rectangle has min <= max on both axes. */
  datatype Rect = Rect(min: Vec, max: Vec) {
    predicate Proper() {
      min.x <= max.x && min.y <= max.y
    }
  }

  /** A stored object: a geometry or a plain string. `text` is its String() form,
      `positions` its PositionCount() and `weight` its Weight(). */
  datatype Object = Object(geometry: bool, rect: Rect, positions: nat, weight: nat, text: Str)

}
