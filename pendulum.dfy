/**
 * The pendulum object: a chain of bobs hanging from the origin, whose
 * builders assemble the mass matrix, the suffix masses, the Coriolis and
 * the gravity vectors with explicit loops, and whose `Step` advances the
 * chain by one tick in place. Each builder is proved equal to its
 * closed-form counterpart in `Dynamics`, and `Step` to `Integrator.Advance`.
 */
module Engine {
  import opened Numerics
  import opened Model
  import opened Dynamics
  import opened Integrator

  /** One more term m·a·b·c of a running sum over the suffix masses. */
  lemma AccumulateMass(sum: real, sLo: real, sK: real, sNext: real, m: real, a: real, b: real, c: real)
    requires sK == m + sNext
    requires sum == (sLo - sK) * a * b * c
    ensures sum + m * a * b * c == (sLo - sNext) * a * b * c
  {
  }

  /** A computed symbol γ = Γ_ijk extends row i's partial sum by γ · ω_j · ω_k. */
  lemma RowSumExtend(t: Trig, bobs: seq<Bob>, suffix: Vector, i: nat, j: nat, k: nat,
                     dMikDthJ: real, dMijDthK: real, dMjkDthI: real, gamma: real,
                     omegaJ: real, omegaK: real, term: real)
    requires i < |bobs| && j < |bobs| && k < |bobs| && |suffix| == |bobs|
    requires dMikDthJ == DMassDTheta(t, bobs, i, k, j, suffix)
    requires dMijDthK == DMassDTheta(t, bobs, i, j, k, suffix)
    requires dMjkDthI == DMassDTheta(t, bobs, j, k, i, suffix)
    requires gamma == 0.5 * (dMikDthJ + dMijDthK - dMjkDthI)
    requires omegaJ == bobs[j].omega && omegaK == bobs[k].omega
    requires term == gamma * omegaJ * omegaK
    ensures RowSum(t, bobs, suffix, i, j, k + 1) == RowSum(t, bobs, suffix, i, j, k) + term
  {
    assert gamma == Christoffel(t, bobs, suffix, i, j, k);
  }

  /**
   * The coordinate loop's step, phrased over the partly updated list cur:
   * bob i is still unmoved and bob i − 1 already placed.
   */
  lemma PlaceLink(t: Trig, moved: seq<Bob>, cur: seq<Bob>, i: nat)
    requires i < |moved| == |cur|
    requires cur[i] == moved[i]
    requires i > 0 ==> cur[i - 1] == PlaceChain(t, moved)[i - 1]
    ensures PlaceChain(t, moved)[i] == cur[i].(coordinate := Coordinate(
      cur[i].lengthRod * t.sin(cur[i].theta) + (if i == 0 then 0.0 else cur[i - 1].coordinate.x),
      cur[i].lengthRod * t.cos(cur[i].theta) + (if i == 0 then 0.0 else cur[i - 1].coordinate.y)))
  {
    PlaceChainLink(t, moved, i);
  }

  class Pendulum {
    var bobs: seq<Bob>

    /** `Pendulum::new`: the chain is exactly the given bobs. */
    constructor (bobs: seq<Bob>)
      ensures this.bobs == bobs
    {
      this.bobs := bobs;
    }

    /** `Pendulum::default`: two 120-unit rods with 10-unit masses, held horizontal at rest. */
    constructor Default()
      ensures bobs == [NewBob(120.0, 10.0, HalfPi, 0.0), NewBob(120.0, 10.0, HalfPi, 0.0)]
      ensures |bobs| == 2 && Physical(bobs)
    {
      bobs := [NewBob(120.0, 10.0, HalfPi, 0.0), NewBob(120.0, 10.0, HalfPi, 0.0)];
    }

    /** The number of bobs. */
    function N(): (r: nat)
      reads this
      ensures r == |bobs|
    {
      |bobs|
    }

    /**
     * Accumulates the masses from the free end upwards: entry i is the
     * total mass at or below bob i.
     */
    method SuffixMasses() returns (s: Vector)
      ensures s == SuffixMassesOf(bobs)
    {
      var n := N();
      s := Zeros(n);
      var acc := 0.0;
      for i := n downto 0
        invariant |s| == n
        invariant acc == SuffixMass(bobs, i)
        invariant forall k :: i <= k < n ==> s[k] == SuffixMass(bobs, k)
      {
        acc := acc + bobs[i].mass;
        s := s[i := acc];
      }
      assert s == SuffixMassesOf(bobs);
    }

    /**
     * M[i][j] = Σ_{max(i, j) <= k < n} m_k · l_i · l_j · cos(θ_i − θ_j),
     * summed term by term.
     */
    method MassMatrix(t: Trig) returns (m: Matrix)
      ensures m == MassMatrixOf(t, bobs)
    {
      var n := N();
      m := seq(n, _ => Zeros(n));
      for i := 0 to n
        invariant |m| == n
        invariant forall r :: 0 <= r < n ==> |m[r]| == n
        invariant forall r, c :: 0 <= r < i && 0 <= c < n ==> m[r][c] == MassEntry(t, bobs, r, c)
      {
        for j := 0 to n
          invariant |m| == n
          invariant forall r :: 0 <= r < n ==> |m[r]| == n
          invariant forall r, c :: 0 <= r < i && 0 <= c < n ==> m[r][c] == MassEntry(t, bobs, r, c)
          invariant forall c :: 0 <= c < j ==> m[i][c] == MassEntry(t, bobs, i, c)
        {
          var li, lj := bobs[i].lengthRod, bobs[j].lengthRod;
          var cosine := t.cos(bobs[i].theta - bobs[j].theta);
          var lo := Max(i, j);
          var sum := 0.0;
          for k := lo to n
            invariant sum == (SuffixMass(bobs, lo) - SuffixMass(bobs, k)) * li * lj * cosine
          {
            AccumulateMass(sum, SuffixMass(bobs, lo), SuffixMass(bobs, k), SuffixMass(bobs, k + 1),
                           bobs[k].mass, li, lj, cosine);
            sum := sum + bobs[k].mass * li * lj * cosine;
          }
          m := m[i := m[i][j := sum]];
        }
      }
      assert forall r :: 0 <= r < n ==> m[r] == MassMatrixOf(t, bobs)[r];
    }

    /**
     * C[i] = Σ_j Σ_k Γ_ijk · ω_j · ω_k, with every Christoffel symbol built
     * from three partial derivatives of the mass matrix.
     */
    method Coriolis(t: Trig) returns (c: Vector)
      ensures c == CoriolisOf(t, bobs)
    {
      var n := N();
      c := Zeros(n);
      var suffix := SuffixMasses();
      for i := 0 to n
        invariant |c| == n
        invariant forall r :: 0 <= r < i ==> c[r] == CoriolisSum(t, bobs, suffix, r, n)
      {
        var ci := 0.0;
        for j := 0 to n
          invariant ci == CoriolisSum(t, bobs, suffix, i, j)
        {
          for k := 0 to n
            invariant ci == CoriolisSum(t, bobs, suffix, i, j) + RowSum(t, bobs, suffix, i, j, k)
          {
            var dMikDthJ := DMassDTheta(t, bobs, i, k, j, suffix);
            var dMijDthK := DMassDTheta(t, bobs, i, j, k, suffix);
            var dMjkDthI := DMassDTheta(t, bobs, j, k, i, suffix);
            var gamma := 0.5 * (dMikDthJ + dMijDthK - dMjkDthI);
            var omegaJ, omegaK := bobs[j].omega, bobs[k].omega;
            var term := gamma * omegaJ * omegaK;
            RowSumExtend(t, bobs, suffix, i, j, k, dMikDthJ, dMijDthK, dMjkDthI, gamma, omegaJ, omegaK, term);
            ci := ci + term;
          }
          assert CoriolisSum(t, bobs, suffix, i, j + 1)
              == CoriolisSum(t, bobs, suffix, i, j) + RowSum(t, bobs, suffix, i, j, n);
        }
        c := c[i := ci];
      }
      assert forall r :: 0 <= r < n ==> c[r] == CoriolisOf(t, bobs)[r];
    }

    /** G[i] = Σ_{i <= k < n} m_k · g · l_i · sin θ_i, summed term by term. */
    method Gravity(t: Trig) returns (g: Vector)
      ensures g == GravityOf(t, bobs)
    {
      var n := N();
      g := Zeros(n);
      for i := 0 to n
        invariant |g| == n
        invariant forall r :: 0 <= r < i ==> g[r] == GravityOf(t, bobs)[r]
      {
        var li, sine := bobs[i].lengthRod, t.sin(bobs[i].theta);
        var val := 0.0;
        for k := i to n
          invariant val == (SuffixMass(bobs, i) - SuffixMass(bobs, k)) * GravitationalAcceleration * li * sine
        {
          AccumulateMass(val, SuffixMass(bobs, i), SuffixMass(bobs, k), SuffixMass(bobs, k + 1),
                         bobs[k].mass, GravitationalAcceleration, li, sine);
          val := val + bobs[k].mass * GravitationalAcceleration * li * sine;
        }
        g := g[i := val];
      }
    }

    /**
     * The angular accelerations of a tick: the solution a of M·a = −(C + G),
     * or zero accelerations when the solve fails.
     */
    method Accelerations(t: Trig, solve: Solver) returns (a: Vector)
      requires SolverShape(solve)
      ensures a == Acceleration(t, solve, bobs)
    {
      var n := N();
      var m := MassMatrix(t);
      var c := Coriolis(t);
      var g := Gravity(t);

      var rhs := NegatedSum(c, g);
      a := solve(m, rhs).GetOr(Zeros(n));
    }

    /** Semi-implicit Euler in place: every ω gains a·dt, then θ gains the new ω·dt. */
    method IntegrateAngles(a: Vector, dt: real)
      requires |a| == |bobs|
      modifies this
      ensures bobs == Integrate(old(bobs), a, dt)
    {
      var n := N();
      ghost var start := bobs;
      ghost var moved := Integrate(start, a, dt);
      for i := 0 to n
        invariant |bobs| == n
        invariant bobs[..i] == moved[..i]
        invariant bobs[i..] == start[i..]
      {
        IntegrateAt(start, a, dt, i);
        bobs := bobs[i := bobs[i].(omega := bobs[i].omega + a[i] * dt)];
        bobs := bobs[i := bobs[i].(theta := bobs[i].theta + bobs[i].omega * dt)];
        assert bobs[i] == moved[i];
        assert bobs[..i + 1] == moved[..i] + [moved[i]] == moved[..i + 1];
      }
      assert bobs == moved;
    }

    /**
     * Recomputes the coordinates down the chain, each bob one rod from the
     * one above it (from the origin for bob 0).
     */
    method PlaceBobs(t: Trig)
      modifies this
      ensures bobs == PlaceChain(t, old(bobs))
    {
      var n := N();
      ghost var moved := bobs;
      ghost var placed := PlaceChain(t, moved);
      for i := 0 to n
        invariant |bobs| == n
        invariant bobs[..i] == placed[..i]
        invariant bobs[i..] == moved[i..]
      {
        var x := bobs[i].lengthRod * t.sin(bobs[i].theta)
          + (if i == 0 then 0.0 else bobs[i - 1].coordinate.x);
        var y := bobs[i].lengthRod * t.cos(bobs[i].theta)
          + (if i == 0 then 0.0 else bobs[i - 1].coordinate.y);
        PlaceLink(t, moved, bobs, i);
        bobs := bobs[i := bobs[i].(coordinate := Coordinate(x, y))];
        assert bobs[i] == placed[i];
        assert bobs[..i + 1] == placed[..i] + [placed[i]] == placed[..i + 1];
      }
      assert bobs == placed;
    }

    /**
     * One tick of length dt: the accelerations, then semi-implicit Euler on
     * every (θ, ω), then the coordinates from the new angles.
     */
    method Step(t: Trig, solve: Solver, dt: real)
      requires SolverShape(solve)
      modifies this
      ensures bobs == Advance(t, old(bobs), Acceleration(t, solve, old(bobs)), dt)
    {
      var a := Accelerations(t, solve);
      IntegrateAngles(a, dt);
      PlaceBobs(t);
    }
  }
}
