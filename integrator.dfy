/**
 * One tick of the engine as a function of the bob list: solve for the
 * angular accelerations, advance (θ, ω) by semi-implicit Euler, then
 * rebuild the chained Cartesian coordinates from the new angles.
 */
module Integrator {
  import opened Numerics
  import opened Model
  import opened Dynamics

  /** The right-hand side −(C + G). */
  function NegatedSum(c: Vector, g: Vector): (r: Vector)
    requires |c| == |g|
    ensures |r| == |c|
  {
    seq(|c|, i requires 0 <= i < |c| => -(c[i] + g[i]))
  }

  /** The solve's answer to M·a = −(C + G), or the zero vector when it has none. */
  function Acceleration(t: Trig, solve: Solver, bobs: seq<Bob>): (a: Vector)
    requires SolverShape(solve)
    ensures |a| == |bobs|
  {
    var rhs := NegatedSum(CoriolisOf(t, bobs), GravityOf(t, bobs));
    solve(MassMatrixOf(t, bobs), rhs).GetOr(Zeros(|bobs|))
  }

  /** Semi-implicit Euler on every bob: ω first, then θ with the new ω. */
  function Integrate(bobs: seq<Bob>, a: Vector, dt: real): (r: seq<Bob>)
    requires |a| == |bobs|
    ensures |r| == |bobs|
  {
    seq(|bobs|, i requires 0 <= i < |bobs| =>
      var omega := bobs[i].omega + a[i] * dt;
      bobs[i].(omega := omega, theta := bobs[i].theta + omega * dt))
  }

  /** Bob i after integration, spelled out: ω gains a·dt, then θ gains the new ω·dt. */
  lemma IntegrateAt(bobs: seq<Bob>, a: Vector, dt: real, i: nat)
    requires |a| == |bobs| && i < |bobs|
    ensures Integrate(bobs, a, dt)[i].omega == bobs[i].omega + a[i] * dt
    ensures Integrate(bobs, a, dt)[i]
         == bobs[i].(omega := Integrate(bobs, a, dt)[i].omega)
                   .(theta := bobs[i].theta + Integrate(bobs, a, dt)[i].omega * dt)
  {
  }

  /**
   * Where bob i sits: its rod's offset (l sin θ, l cos θ) added to the
   * position of bob i − 1, or to the origin for bob 0.
   */
  function Position(t: Trig, bobs: seq<Bob>, i: nat): Coordinate
    requires i < |bobs|
  {
    var anchor := if i == 0 then Coordinate(0.0, 0.0) else Position(t, bobs, i - 1);
    Coordinate(bobs[i].lengthRod * t.sin(bobs[i].theta) + anchor.x,
               bobs[i].lengthRod * t.cos(bobs[i].theta) + anchor.y)
  }

  /** Every bob's cached coordinate recomputed from the angles. */
  function PlaceChain(t: Trig, bobs: seq<Bob>): (r: seq<Bob>)
    ensures |r| == |bobs|
  {
    seq(|bobs|, i requires 0 <= i < |bobs| => bobs[i].(coordinate := Position(t, bobs, i)))
  }

  /** The bob list after one tick of length dt under accelerations a. */
  function Advance(t: Trig, bobs: seq<Bob>, a: Vector, dt: real): (r: seq<Bob>)
    requires |a| == |bobs|
    ensures |r| == |bobs|
  {
    PlaceChain(t, Integrate(bobs, a, dt))
  }

  // ---------------------------------------------------------------------
  // What a tick preserves

  /** A tick keeps the number of bobs, every mass and every rod length. */
  lemma AdvanceKeepsChain(t: Trig, bobs: seq<Bob>, a: Vector, dt: real)
    requires |a| == |bobs|
    ensures |Advance(t, bobs, a, dt)| == |bobs|
    ensures forall i :: 0 <= i < |bobs| ==>
      && Advance(t, bobs, a, dt)[i].lengthRod == bobs[i].lengthRod
      && Advance(t, bobs, a, dt)[i].mass == bobs[i].mass
    ensures Physical(bobs) ==> Physical(Advance(t, bobs, a, dt))
  {
  }

  /** With no bobs a tick changes nothing. */
  lemma AdvanceEmpty(t: Trig, solve: Solver, bobs: seq<Bob>, dt: real)
    requires SolverShape(solve)
    requires |bobs| == 0
    ensures Advance(t, bobs, Acceleration(t, solve, bobs), dt) == bobs
  {
  }

  // ---------------------------------------------------------------------
  // The integration recurrences

  /**
   * ω' = ω + a·dt and θ' = θ + ω'·dt, with the new ω; equivalently
   * θ' = θ + ω·dt + a·dt², which is what sets it apart from explicit Euler.
   */
  lemma AdvanceSemiImplicitEuler(t: Trig, bobs: seq<Bob>, a: Vector, dt: real)
    requires |a| == |bobs|
    ensures forall i :: 0 <= i < |bobs| ==>
      && Advance(t, bobs, a, dt)[i].omega == bobs[i].omega + a[i] * dt
      && Advance(t, bobs, a, dt)[i].theta == bobs[i].theta + Advance(t, bobs, a, dt)[i].omega * dt
      && Advance(t, bobs, a, dt)[i].theta == bobs[i].theta + bobs[i].omega * dt + a[i] * dt * dt
  {
    var r := Advance(t, bobs, a, dt);
    forall i | 0 <= i < |bobs|
      ensures r[i].theta == bobs[i].theta + bobs[i].omega * dt + a[i] * dt * dt
    {
      var w := bobs[i].omega;
      assert r[i].theta == bobs[i].theta + (w + a[i] * dt) * dt;
      assert (w + a[i] * dt) * dt == w * dt + a[i] * dt * dt;
    }
  }

  /**
   * The acceleration is the solver's answer when there is one and zero
   * otherwise; in the second case a tick leaves the velocities unchanged.
   */
  lemma AccelerationFallback(t: Trig, solve: Solver, bobs: seq<Bob>, dt: real)
    requires SolverShape(solve)
    ensures var answer := solve(MassMatrixOf(t, bobs), NegatedSum(CoriolisOf(t, bobs), GravityOf(t, bobs)));
      && (answer.Some? ==> Acceleration(t, solve, bobs) == answer.value)
      && (answer.None? ==> Acceleration(t, solve, bobs) == Zeros(|bobs|))
      && (answer.None? ==> forall i :: 0 <= i < |bobs| ==>
            && Advance(t, bobs, Acceleration(t, solve, bobs), dt)[i].omega == bobs[i].omega
            && Advance(t, bobs, Acceleration(t, solve, bobs), dt)[i].theta == bobs[i].theta + bobs[i].omega * dt)
  {
    var answer := solve(MassMatrixOf(t, bobs), NegatedSum(CoriolisOf(t, bobs), GravityOf(t, bobs)));
    if answer.None? {
      var a := Acceleration(t, solve, bobs);
      var r := Advance(t, bobs, a, dt);
      forall i | 0 <= i < |bobs|
        ensures r[i].omega == bobs[i].omega
        ensures r[i].theta == bobs[i].theta + bobs[i].omega * dt
      {
        assert a[i] == 0.0;
      }
    }
  }

  // ---------------------------------------------------------------------
  // Kinematics

  /**
   * One link of the chain: placing bob i keeps its other fields and puts it
   * one rod along its angle from bob i − 1, or from the origin for bob 0.
   */
  lemma PlaceChainLink(t: Trig, bobs: seq<Bob>, i: nat)
    requires i < |bobs|
    ensures PlaceChain(t, bobs)[i] == bobs[i].(coordinate := Coordinate(
      bobs[i].lengthRod * t.sin(bobs[i].theta) + (if i == 0 then 0.0 else PlaceChain(t, bobs)[i - 1].coordinate.x),
      bobs[i].lengthRod * t.cos(bobs[i].theta) + (if i == 0 then 0.0 else PlaceChain(t, bobs)[i - 1].coordinate.y)))
  {
    if i > 0 {
      assert PlaceChain(t, bobs)[i - 1].coordinate == Position(t, bobs, i - 1);
    }
    assert PlaceChain(t, bobs)[i].coordinate == Position(t, bobs, i);
  }

  /** The recurrence at bob i, read off the placed chain's own fields. */
  lemma PlacedLink(t: Trig, bobs: seq<Bob>, i: nat)
    requires i < |bobs|
    ensures var r := PlaceChain(t, bobs);
      r[i].coordinate == Coordinate(
        r[i].lengthRod * t.sin(r[i].theta) + (if i == 0 then 0.0 else r[i - 1].coordinate.x),
        r[i].lengthRod * t.cos(r[i].theta) + (if i == 0 then 0.0 else r[i - 1].coordinate.y))
  {
    PlaceChainLink(t, bobs, i);
    var r := PlaceChain(t, bobs);
    assert r[i].lengthRod == bobs[i].lengthRod && r[i].theta == bobs[i].theta;
  }

  /**
   * Placing the chain changes only the coordinates, and the coordinates obey
   * the chain recurrence: bob 0 is one rod from the origin and bob i one rod
   * from bob i − 1, each along its own angle.
   */
  lemma PlaceChainRecurrence(t: Trig, bobs: seq<Bob>)
    ensures var r := PlaceChain(t, bobs);
      && (forall i :: 0 <= i < |bobs| ==> r[i].(coordinate := bobs[i].coordinate) == bobs[i])
      && (forall i :: 0 <= i < |r| ==>
            r[i].coordinate == Coordinate(
              r[i].lengthRod * t.sin(r[i].theta) + (if i == 0 then 0.0 else r[i - 1].coordinate.x),
              r[i].lengthRod * t.cos(r[i].theta) + (if i == 0 then 0.0 else r[i - 1].coordinate.y)))
  {
    forall i | 0 <= i < |bobs| {
      PlacedLink(t, bobs, i);
    }
  }

  /** Σ_{k < upTo} l_k: the depth of the end of rod upTo − 1 in a straight chain. */
  function RodPrefix(bobs: seq<Bob>, upTo: nat): real
    requires upTo <= |bobs|
  {
    if upTo == 0 then 0.0 else RodPrefix(bobs, upTo - 1) + bobs[upTo - 1].lengthRod
  }

  lemma {:induction false} RodPrefixSameRods(a: seq<Bob>, b: seq<Bob>, upTo: nat)
    requires |a| == |b| && upTo <= |a|
    requires forall k :: 0 <= k < |a| ==> a[k].lengthRod == b[k].lengthRod
    ensures RodPrefix(a, upTo) == RodPrefix(b, upTo)
  {
    if upTo > 0 {
      RodPrefixSameRods(a, b, upTo - 1);
    }
  }

  lemma {:induction false} StraightPosition(t: Trig, bobs: seq<Bob>, i: nat)
    requires t.Valid()
    requires i < |bobs|
    requires forall k :: 0 <= k < |bobs| ==> bobs[k].theta == 0.0
    ensures Position(t, bobs, i) == Coordinate(0.0, RodPrefix(bobs, i + 1))
  {
    if i > 0 {
      StraightPosition(t, bobs, i - 1);
    }
  }

  /**
   * With every angle zero the chain hangs straight: every x is 0 and each y
   * is the running sum of the rod lengths.
   */
  lemma StraightHangingChain(t: Trig, bobs: seq<Bob>)
    requires t.Valid()
    requires forall k :: 0 <= k < |bobs| ==> bobs[k].theta == 0.0
    ensures forall i :: 0 <= i < |bobs| ==>
      PlaceChain(t, bobs)[i].coordinate == Coordinate(0.0, RodPrefix(bobs, i + 1))
  {
    forall i | 0 <= i < |bobs|
      ensures PlaceChain(t, bobs)[i].coordinate == Coordinate(0.0, RodPrefix(bobs, i + 1))
    {
      StraightPosition(t, bobs, i);
    }
  }

  /** If a tick leaves every angle at zero, the new chain hangs straight down. */
  lemma AdvanceStraightChain(t: Trig, bobs: seq<Bob>, a: Vector, dt: real)
    requires t.Valid()
    requires |a| == |bobs|
    requires forall k :: 0 <= k < |bobs| ==> Advance(t, bobs, a, dt)[k].theta == 0.0
    ensures forall i :: 0 <= i < |bobs| ==>
      Advance(t, bobs, a, dt)[i].coordinate == Coordinate(0.0, RodPrefix(bobs, i + 1))
  {
    var moved := Integrate(bobs, a, dt);
    forall k | 0 <= k < |bobs|
      ensures moved[k].theta == 0.0
    {
      assert Advance(t, bobs, a, dt)[k].theta == moved[k].theta;
    }
    StraightHangingChain(t, moved);
    forall i | 0 <= i <= |bobs|
      ensures RodPrefix(moved, i) == RodPrefix(bobs, i)
    {
      RodPrefixSameRods(moved, bobs, i);
    }
  }

  // ---------------------------------------------------------------------
  // A single bob is a simple pendulum

  lemma SimplePendulumAlgebra(m: real, l: real, s: real, v: real)
    requires m > 0.0 && l > 0.0
    requires m * l * l * v == -(m * GravitationalAcceleration * l * s)
    ensures v == -(GravitationalAcceleration / l) * s
  {
    var ml := m * l;
    assert ml > 0.0;
    assert ml * (l * v + GravitationalAcceleration * s) == 0.0;
    assert l * v + GravitationalAcceleration * s == 0.0;
  }

  /**
   * With one bob and a solver that answers correctly, the tick's
   * acceleration is θ'' = −(g / l)·sin θ.
   */
  lemma SinglePendulum(t: Trig, solve: Solver, bobs: seq<Bob>)
    requires t.Valid()
    requires SolverSound(solve)
    requires |bobs| == 1 && Physical(bobs)
    requires solve(MassMatrixOf(t, bobs), NegatedSum(CoriolisOf(t, bobs), GravityOf(t, bobs))).Some?
    ensures Acceleration(t, solve, bobs)
         == [-(GravitationalAcceleration / bobs[0].lengthRod) * t.sin(bobs[0].theta)]
  {
    var m, l, s := bobs[0].mass, bobs[0].lengthRod, t.sin(bobs[0].theta);
    var mm := MassMatrixOf(t, bobs);
    var rhs := NegatedSum(CoriolisOf(t, bobs), GravityOf(t, bobs));
    var v := solve(mm, rhs).value;
    assert |v| == 1;
    MassMatrixDiagonal(t, bobs, 0);
    assert SuffixMass(bobs, 0) == m;
    assert mm[0][0] == m * l * l;
    var suffix := SuffixMassesOf(bobs);
    ChristoffelDiagonal(t, bobs, suffix, 0, 0);
    assert CoriolisTerm(t, bobs, suffix, 0, 0, 0) == 0.0;
    assert RowSum(t, bobs, suffix, 0, 0, 1) == 0.0;
    assert CoriolisSum(t, bobs, suffix, 0, 1) == 0.0;
    assert CoriolisOf(t, bobs)[0] == 0.0;
    assert rhs[0] == -(m * GravitationalAcceleration * l * s);
    assert Dot(mm[0][1..], v[1..]) == 0.0;
    assert MatVec(mm, v)[0] == mm[0][0] * v[0];
    SimplePendulumAlgebra(m, l, s, v[0]);
    assert v[0] == -(GravitationalAcceleration / l) * s;
    assert Acceleration(t, solve, bobs) == v == [v[0]];
    assert l == bobs[0].lengthRod;
    assert s == t.sin(bobs[0].theta);
    assert -(GravitationalAcceleration / l) * s == -(GravitationalAcceleration / bobs[0].lengthRod) * t.sin(bobs[0].theta);
    assert [v[0]] == [-(GravitationalAcceleration / bobs[0].lengthRod) * t.sin(bobs[0].theta)];
  }
}
