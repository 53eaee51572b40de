/**
 * The values the engine works on: a 2-D coordinate and a bob (one rigid
 * rod with a point mass at its end), plus the engine's constants.
 */
module Model {

  /** `GRAVITATIONAL_ACCELERATION`, in units per second squared. */
  const GravitationalAcceleration: real := 9.81

  /** The f64 value of `PI / 2.0`, written out exactly. */
  const HalfPi: real := 1.5707963267948965579989817342720925807952880859375

  datatype Coordinate = Coordinate(x: real, y: real)

  /**
   * A link of the chain. `coordinate` is derived: the integrator rewrites it
   * from the angles after every step.
   */
  datatype Bob = Bob(lengthRod: real, mass: real, theta: real, omega: real, coordinate: Coordinate)

  /** `Bob::new`: the coordinate starts at the default (origin). */
  function NewBob(lengthRod: real, mass: real, theta: real, omega: real): (b: Bob)
    ensures b.coordinate == Coordinate(0.0, 0.0)
    ensures b.lengthRod == lengthRod && b.mass == mass && b.theta == theta && b.omega == omega
  {
    Bob(lengthRod, mass, theta, omega, Coordinate(0.0, 0.0))
  }

  /**
   * Physically meaningful parameters: positive rods and masses. The engine
   * never checks this; it is the caller's side of the bargain.
   */
  predicate Physical(bobs: seq<Bob>) {
    forall i :: 0 <= i < |bobs| ==> bobs[i].lengthRod > 0.0 && bobs[i].mass > 0.0
  }
}
