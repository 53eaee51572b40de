/**
 * The numeric collaborators of the pendulum engine, idealised over `real`:
 * the f64 `sin`/`cos` become a pair of function values with the four facts
 * the engine's properties rely on, and nalgebra's LU solve becomes a
 * partial solver function that either yields a vector or fails.
 */
module Numerics {

  datatype Option<T> = None | Some(value: T) {
    /** `unwrap_or`: the carried value, or `default` when there is none. */
    function GetOr(default: T): T {
      match this
      case Some(v) => v
      case None => default
    }
  }

  type Vector = seq<real>
  type Matrix = seq<seq<real>>

  /**
   * Sine and cosine as opaque parameters. `Valid` lists the only facts the
   * model assumes about them: sin 0 = 0, cos 0 = 1, cos is even, sin is odd
   * (the last two stated for a pair y = -x, so that they only relate terms
   * a proof already mentions).
   */
  datatype Trig = Trig(sin: real -> real, cos: real -> real) {
    ghost predicate Valid() {
      && sin(0.0) == 0.0
      && cos(0.0) == 1.0
      && (forall x: real, y: real :: y == -x ==> cos(y) == cos(x))
      && (forall x: real, y: real :: y == -x ==> sin(y) == -sin(x))
    }
  }

  /** A linear solver: given M and b, maybe a vector a with M·a = b. */
  type Solver = (Matrix, Vector) -> Option<Vector>

  /** What the solver's types guarantee: a solution has one entry per row of b. */
  ghost predicate SolverShape(solve: Solver) {
    forall m: Matrix, b: Vector :: solve(m, b).Some? ==> |solve(m, b).value| == |b|
  }

  /** A solver whose every answer really solves the system. */
  ghost predicate SolverSound(solve: Solver) {
    && SolverShape(solve)
    && forall m: Matrix, b: Vector :: solve(m, b).Some? ==> MatVec(m, solve(m, b).value) == b
  }

  /** The zero vector of length n (`DVector::zeros(n)`). */
  function Zeros(n: nat): (z: Vector)
    ensures |z| == n
    ensures forall i :: 0 <= i < n ==> z[i] == 0.0
  {
    seq(n, _ => 0.0)
  }

  /** Inner product over the common prefix of u and v. */
  function Dot(u: Vector, v: Vector): real {
    if |u| == 0 || |v| == 0 then 0.0 else u[0] * v[0] + Dot(u[1..], v[1..])
  }

  function MatVec(m: Matrix, v: Vector): (r: Vector)
    ensures |r| == |m|
  {
    seq(|m|, i requires 0 <= i < |m| => Dot(m[i], v))
  }
}
