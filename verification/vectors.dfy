/** Plane vectors over exact reals, standing in for the p5 vectors the sketch uses.
    The simulation only adds vectors and scales them by a constant; those steps are
    written out component-wise where they happen. */
module Vectors {

  datatype Vec2 = Vec2(x: real, y: real)

  const Zero: Vec2 := Vec2(0.0, 0.0)
}
