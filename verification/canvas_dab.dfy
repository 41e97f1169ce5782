/** A brush dab: one touch sample queued for the render thread. */
module CanvasDab {

  /** An immutable dab. Coordinates and pressure are the Java `float`s of the
      source, read here as exact reals. `newStroke` is set for the sample
      that starts a stroke (a finger going down); the brush reads it when it
      decides where the dab's marks begin. */
  datatype Dab = Dab(x: real, y: real, pressure: real, newStroke: bool)

  /** The constructor: each getter returns what was passed in. */
  function NewDab(x: real, y: real, pressure: real, newStroke: bool): (d: Dab)
    ensures d.x == x && d.y == y && d.pressure == pressure
    ensures d.newStroke == newStroke
  {
    Dab(x, y, pressure, newStroke)
  }
}
