/**
 * The equations of motion of the N-link pendulum, M(θ)·θ'' + C(θ, ω) + G(θ) = 0,
 * as closed-form specification functions over the bob list, with the facts
 * the engine's design relies on: the suffix-mass recurrence, symmetry of the
 * mass matrix, the sparsity of its angle derivative, the Christoffel-symbol
 * Coriolis vector and the gravity vector.
 */
module Dynamics {
  import opened Numerics
  import opened Model

  // ---------------------------------------------------------------------
  // Suffix masses

  /** Σ_{i <= k < n} mass[k]: the mass hanging at or below bob i. */
  function SuffixMass(bobs: seq<Bob>, i: nat): real
    requires i <= |bobs|
    decreases |bobs| - i
  {
    if i == |bobs| then 0.0 else bobs[i].mass + SuffixMass(bobs, i + 1)
  }

  function SuffixMassesOf(bobs: seq<Bob>): (s: Vector)
    ensures |s| == |bobs|
  {
    seq(|bobs|, i requires 0 <= i < |bobs| => SuffixMass(bobs, i))
  }

  /**
   * The entries of the suffix-mass vector: the last is the last bob's mass,
   * and each other is its own bob's mass plus the next entry.
   */
  lemma SuffixMassesRecurrence(bobs: seq<Bob>)
    ensures var s := SuffixMassesOf(bobs);
      && |s| == |bobs|
      && (|s| > 0 ==> s[|s| - 1] == bobs[|s| - 1].mass)
      && (forall i :: 0 <= i < |s| - 1 ==> s[i] == bobs[i].mass + s[i + 1])
  {
    var s := SuffixMassesOf(bobs);
    if |s| > 0 {
      assert s[|s| - 1] == bobs[|s| - 1].mass + SuffixMass(bobs, |bobs|);
    }
  }

  /** Σ_{k < upTo} mass[k], summed from the anchor downwards. */
  function PrefixMass(bobs: seq<Bob>, upTo: nat): real
    requires upTo <= |bobs|
  {
    if upTo == 0 then 0.0 else PrefixMass(bobs, upTo - 1) + bobs[upTo - 1].mass
  }

  /** The mass at or below bob i is the total mass less the mass above it. */
  lemma {:induction false} SuffixMassClosed(bobs: seq<Bob>, i: nat)
    requires i <= |bobs|
    ensures SuffixMass(bobs, i) == PrefixMass(bobs, |bobs|) - PrefixMass(bobs, i)
    decreases |bobs| - i
  {
    if i < |bobs| {
      SuffixMassClosed(bobs, i + 1);
    }
  }

  /** With positive masses, the mass below bob i is at least bob i's own. */
  lemma {:induction false} SuffixMassBounds(bobs: seq<Bob>, i: nat)
    requires Physical(bobs)
    requires i <= |bobs|
    ensures SuffixMass(bobs, i) >= 0.0
    ensures i < |bobs| ==> SuffixMass(bobs, i) >= bobs[i].mass > 0.0
    decreases |bobs| - i
  {
    if i < |bobs| {
      SuffixMassBounds(bobs, i + 1);
    }
  }

  lemma PositiveProduct(a: real, b: real)
    requires a > 0.0 && b > 0.0
    ensures a * b > 0.0
  {
  }

  // ---------------------------------------------------------------------
  // Mass matrix

  function Max(i: nat, j: nat): nat {
    if i < j then j else i
  }

  /** M[i][j] = suffix[max(i, j)] · l_i · l_j · cos(θ_i − θ_j). */
  function MassEntry(t: Trig, bobs: seq<Bob>, i: nat, j: nat): real
    requires i < |bobs| && j < |bobs|
  {
    SuffixMass(bobs, Max(i, j)) * bobs[i].lengthRod * bobs[j].lengthRod
      * t.cos(bobs[i].theta - bobs[j].theta)
  }

  function MassMatrixOf(t: Trig, bobs: seq<Bob>): (m: Matrix)
    ensures |m| == |bobs|
    ensures forall i :: 0 <= i < |bobs| ==> |m[i]| == |bobs|
  {
    seq(|bobs|, i requires 0 <= i < |bobs| =>
      seq(|bobs|, j requires 0 <= j < |bobs| => MassEntry(t, bobs, i, j)))
  }

  /** With an even cosine the mass matrix is symmetric. */
  lemma MassMatrixSymmetric(t: Trig, bobs: seq<Bob>)
    requires t.Valid()
    ensures forall i, j :: 0 <= i < |bobs| && 0 <= j < |bobs| ==>
      MassMatrixOf(t, bobs)[i][j] == MassMatrixOf(t, bobs)[j][i]
  {
    var m := MassMatrixOf(t, bobs);
    forall i, j | 0 <= i < |bobs| && 0 <= j < |bobs|
      ensures m[i][j] == m[j][i]
    {
      var d := bobs[i].theta - bobs[j].theta;
      assert bobs[j].theta - bobs[i].theta == -d;
      assert t.cos(-d) == t.cos(d);
    }
  }

  /** The diagonal is the mass below bob i times its rod length squared. */
  lemma MassMatrixDiagonal(t: Trig, bobs: seq<Bob>, i: nat)
    requires t.Valid()
    requires i < |bobs|
    ensures MassMatrixOf(t, bobs)[i][i] == SuffixMass(bobs, i) * bobs[i].lengthRod * bobs[i].lengthRod
    ensures Physical(bobs) ==> MassMatrixOf(t, bobs)[i][i] > 0.0
  {
    assert bobs[i].theta - bobs[i].theta == 0.0;
    var sm, l := SuffixMass(bobs, i), bobs[i].lengthRod;
    if Physical(bobs) {
      SuffixMassBounds(bobs, i);
      var sl := sm * l;
      PositiveProduct(sm, l);
      PositiveProduct(sl, l);
      assert MassMatrixOf(t, bobs)[i][i] == sl * l;
    }
  }

  // ---------------------------------------------------------------------
  // Partial derivative of the mass matrix

  /**
   * ∂M[i][j]/∂θ_k = −suffix[max(i, j)] · l_i · l_j · sin(θ_i − θ_j) · (δ_ik − δ_jk).
   */
  function DMassDTheta(t: Trig, bobs: seq<Bob>, i: nat, j: nat, k: nat, suffix: Vector): (r: real)
    requires i < |bobs| && j < |bobs|
    requires i < |suffix| && j < |suffix|
    ensures k != i && k != j ==> r == 0.0
    ensures i == j ==> r == 0.0
  {
    var sij := suffix[Max(i, j)];
    var li := bobs[i].lengthRod;
    var lj := bobs[j].lengthRod;
    var dik := if i == k then 1.0 else 0.0;
    var djk := if j == k then 1.0 else 0.0;
    var thetaIJ := bobs[i].theta - bobs[j].theta;
    -sij * li * lj * t.sin(thetaIJ) * (dik - djk)
  }

  /** Swapping the matrix indices leaves the derivative unchanged. */
  lemma DMassSwap(t: Trig, bobs: seq<Bob>, i: nat, j: nat, k: nat, suffix: Vector)
    requires t.Valid()
    requires i < |bobs| && j < |bobs|
    requires i < |suffix| && j < |suffix|
    ensures DMassDTheta(t, bobs, i, j, k, suffix) == DMassDTheta(t, bobs, j, i, k, suffix)
  {
    var d := bobs[i].theta - bobs[j].theta;
    assert bobs[j].theta - bobs[i].theta == -d;
    assert t.sin(-d) == -t.sin(d);
  }

  // ---------------------------------------------------------------------
  // Coriolis / centrifugal vector

  /** Γ_ijk = ½ (∂M_ik/∂θ_j + ∂M_ij/∂θ_k − ∂M_jk/∂θ_i). */
  function Christoffel(t: Trig, bobs: seq<Bob>, suffix: Vector, i: nat, j: nat, k: nat): real
    requires i < |bobs| && j < |bobs| && k < |bobs| && |suffix| == |bobs|
  {
    0.5 * (DMassDTheta(t, bobs, i, k, j, suffix) + DMassDTheta(t, bobs, i, j, k, suffix)
           - DMassDTheta(t, bobs, j, k, i, suffix))
  }

  /** The Christoffel symbols of the first kind are symmetric in their last two indices. */
  lemma ChristoffelSymmetric(t: Trig, bobs: seq<Bob>, suffix: Vector, i: nat, j: nat, k: nat)
    requires t.Valid()
    requires i < |bobs| && j < |bobs| && k < |bobs| && |suffix| == |bobs|
    ensures Christoffel(t, bobs, suffix, i, j, k) == Christoffel(t, bobs, suffix, i, k, j)
  {
    DMassSwap(t, bobs, j, k, i, suffix);
  }

  /** The summand Γ_ijk · ω_j · ω_k of C[i]. */
  function CoriolisTerm(t: Trig, bobs: seq<Bob>, suffix: Vector, i: nat, j: nat, k: nat): real
    requires i < |bobs| && j < |bobs| && k < |bobs| && |suffix| == |bobs|
  {
    Christoffel(t, bobs, suffix, i, j, k) * bobs[j].omega * bobs[k].omega
  }

  /** Σ_{k < upTo} Γ_ijk · ω_j · ω_k */
  function RowSum(t: Trig, bobs: seq<Bob>, suffix: Vector, i: nat, j: nat, upTo: nat): real
    requires i < |bobs| && j < |bobs| && upTo <= |bobs| && |suffix| == |bobs|
  {
    if upTo == 0 then 0.0
    else
      RowSum(t, bobs, suffix, i, j, upTo - 1) + CoriolisTerm(t, bobs, suffix, i, j, upTo - 1)
  }

  /** Σ_{j < upTo} Σ_{k < n} Γ_ijk · ω_j · ω_k */
  function CoriolisSum(t: Trig, bobs: seq<Bob>, suffix: Vector, i: nat, upTo: nat): real
    requires i < |bobs| && upTo <= |bobs| && |suffix| == |bobs|
  {
    if upTo == 0 then 0.0
    else CoriolisSum(t, bobs, suffix, i, upTo - 1) + RowSum(t, bobs, suffix, i, upTo - 1, |bobs|)
  }

  /** C[i] = Σ_j Σ_k Γ_ijk · ω_j · ω_k, with the suffix masses of the bobs. */
  function CoriolisOf(t: Trig, bobs: seq<Bob>): (c: Vector)
    ensures |c| == |bobs|
  {
    seq(|bobs|, i requires 0 <= i < |bobs| => CoriolisSum(t, bobs, SuffixMassesOf(bobs), i, |bobs|))
  }

  lemma {:induction false} RowSumAtRest(t: Trig, bobs: seq<Bob>, suffix: Vector, i: nat, j: nat, upTo: nat)
    requires i < |bobs| && j < |bobs| && upTo <= |bobs| && |suffix| == |bobs|
    requires forall k :: 0 <= k < |bobs| ==> bobs[k].omega == 0.0
    ensures RowSum(t, bobs, suffix, i, j, upTo) == 0.0
  {
    if upTo > 0 {
      RowSumAtRest(t, bobs, suffix, i, j, upTo - 1);
    }
  }

  lemma {:induction false} CoriolisSumAtRest(t: Trig, bobs: seq<Bob>, suffix: Vector, i: nat, upTo: nat)
    requires i < |bobs| && upTo <= |bobs| && |suffix| == |bobs|
    requires forall k :: 0 <= k < |bobs| ==> bobs[k].omega == 0.0
    ensures CoriolisSum(t, bobs, suffix, i, upTo) == 0.0
  {
    if upTo > 0 {
      CoriolisSumAtRest(t, bobs, suffix, i, upTo - 1);
      RowSumAtRest(t, bobs, suffix, i, upTo - 1, |bobs|);
    }
  }

  /** A chain at rest feels no velocity-dependent force. */
  lemma CoriolisAtRest(t: Trig, bobs: seq<Bob>)
    requires forall k :: 0 <= k < |bobs| ==> bobs[k].omega == 0.0
    ensures CoriolisOf(t, bobs) == Zeros(|bobs|)
  {
    forall i | 0 <= i < |bobs|
      ensures CoriolisOf(t, bobs)[i] == 0.0
    {
      CoriolisSumAtRest(t, bobs, SuffixMassesOf(bobs), i, |bobs|);
    }
  }

  /** The centrifugal contribution of bob j to coordinate i. */
  function Centrifugal(t: Trig, bobs: seq<Bob>, suffix: Vector, i: nat, j: nat): real
    requires i < |bobs| && j < |bobs| && |suffix| == |bobs|
  {
    suffix[Max(i, j)] * bobs[i].lengthRod * bobs[j].lengthRod
      * t.sin(bobs[i].theta - bobs[j].theta) * bobs[j].omega * bobs[j].omega
  }

  /** Σ_{j < upTo} suffix[max(i, j)] · l_i · l_j · sin(θ_i − θ_j) · ω_j² */
  function CentrifugalSum(t: Trig, bobs: seq<Bob>, suffix: Vector, i: nat, upTo: nat): real
    requires i < |bobs| && upTo <= |bobs| && |suffix| == |bobs|
  {
    if upTo == 0 then 0.0
    else CentrifugalSum(t, bobs, suffix, i, upTo - 1) + Centrifugal(t, bobs, suffix, i, upTo - 1)
  }

  /** The symbols Γ_iik of a diagonal (i = j) vanish. */
  lemma ChristoffelDiagonal(t: Trig, bobs: seq<Bob>, s: Vector, i: nat, k: nat)
    requires i < |bobs| && k < |bobs| && |s| == |bobs|
    ensures Christoffel(t, bobs, s, i, i, k) == 0.0
  {
    var a := DMassDTheta(t, bobs, i, k, i, s);
    assert DMassDTheta(t, bobs, i, i, k, s) == 0.0;
    assert Christoffel(t, bobs, s, i, i, k) == 0.5 * (a + 0.0 - a);
  }

  /** For i ≠ j, Γ_ijj = suffix[max(i, j)] · l_i · l_j · sin(θ_i − θ_j). */
  lemma ChristoffelAtJ(t: Trig, bobs: seq<Bob>, s: Vector, i: nat, j: nat)
    requires i < |bobs| && j < |bobs| && |s| == |bobs| && i != j
    ensures Christoffel(t, bobs, s, i, j, j)
         == s[Max(i, j)] * bobs[i].lengthRod * bobs[j].lengthRod * t.sin(bobs[i].theta - bobs[j].theta)
  {
    var e := s[Max(i, j)] * bobs[i].lengthRod * bobs[j].lengthRod * t.sin(bobs[i].theta - bobs[j].theta);
    assert DMassDTheta(t, bobs, i, j, j, s) == -e * (0.0 - 1.0);
    assert DMassDTheta(t, bobs, j, j, i, s) == 0.0;
  }

  /** For i ≠ j, Γ_iji vanishes: its two surviving derivatives cancel. */
  lemma ChristoffelAtI(t: Trig, bobs: seq<Bob>, s: Vector, i: nat, j: nat)
    requires t.Valid()
    requires i < |bobs| && j < |bobs| && |s| == |bobs| && i != j
    ensures Christoffel(t, bobs, s, i, j, i) == 0.0
  {
    var d := bobs[i].theta - bobs[j].theta;
    var d' := bobs[j].theta - bobs[i].theta;
    assert d' == -d;
    assert t.sin(d') == -t.sin(d);
    assert Max(j, i) == Max(i, j);
    var e := s[Max(i, j)] * bobs[i].lengthRod * bobs[j].lengthRod * t.sin(d);
    assert DMassDTheta(t, bobs, i, i, j, s) == 0.0;
    assert DMassDTheta(t, bobs, i, j, i, s) == -e * (1.0 - 0.0);
    assert DMassDTheta(t, bobs, j, i, i, s)
        == -(s[Max(i, j)] * bobs[j].lengthRod * bobs[i].lengthRod * t.sin(d')) * (0.0 - 1.0);
  }

  /** For k outside {i, j}, Γ_ijk vanishes. */
  lemma ChristoffelElsewhere(t: Trig, bobs: seq<Bob>, s: Vector, i: nat, j: nat, k: nat)
    requires i < |bobs| && j < |bobs| && k < |bobs| && |s| == |bobs|
    requires k != i && k != j && i != j
    ensures Christoffel(t, bobs, s, i, j, k) == 0.0
  {
    assert DMassDTheta(t, bobs, i, k, j, s) == 0.0;
    assert DMassDTheta(t, bobs, i, j, k, s) == 0.0;
    assert DMassDTheta(t, bobs, j, k, i, s) == 0.0;
  }

  /** Of the n² Christoffel terms of row i, only k = j survives. */
  lemma ChristoffelTerm(t: Trig, bobs: seq<Bob>, s: Vector, i: nat, j: nat, k: nat)
    requires t.Valid()
    requires i < |bobs| && j < |bobs| && k < |bobs| && |s| == |bobs|
    ensures CoriolisTerm(t, bobs, s, i, j, k) == if k == j then Centrifugal(t, bobs, s, i, j) else 0.0
  {
    if i == j {
      ChristoffelDiagonal(t, bobs, s, i, k);
      assert bobs[i].theta - bobs[j].theta == 0.0;
    } else if k == j {
      ChristoffelAtJ(t, bobs, s, i, j);
    } else if k == i {
      ChristoffelAtI(t, bobs, s, i, j);
    } else {
      ChristoffelElsewhere(t, bobs, s, i, j, k);
    }
  }

  /** One more column k of row i adds the centrifugal term exactly when k = j. */
  lemma RowSumStep(t: Trig, bobs: seq<Bob>, s: Vector, i: nat, j: nat, upTo: nat)
    requires t.Valid()
    requires i < |bobs| && j < |bobs| && 0 < upTo <= |bobs| && |s| == |bobs|
    ensures RowSum(t, bobs, s, i, j, upTo)
         == RowSum(t, bobs, s, i, j, upTo - 1) + if upTo - 1 == j then Centrifugal(t, bobs, s, i, j) else 0.0
  {
    ChristoffelTerm(t, bobs, s, i, j, upTo - 1);
  }

  /** The k-sum of row i for a fixed j is bob j's centrifugal term once k has passed j. */
  lemma {:induction false} RowSumClosed(t: Trig, bobs: seq<Bob>, s: Vector, i: nat, j: nat, upTo: nat)
    requires t.Valid()
    requires i < |bobs| && j < |bobs| && upTo <= |bobs| && |s| == |bobs|
    ensures RowSum(t, bobs, s, i, j, upTo)
         == if j < upTo then Centrifugal(t, bobs, s, i, j) else 0.0
  {
    if upTo > 0 {
      RowSumStep(t, bobs, s, i, j, upTo);
      RowSumClosed(t, bobs, s, i, j, upTo - 1);
    }
  }

  /** The j-sum of row i is the running sum of centrifugal terms. */
  lemma {:induction false} CoriolisSumClosed(t: Trig, bobs: seq<Bob>, s: Vector, i: nat, upTo: nat)
    requires t.Valid()
    requires i < |bobs| && upTo <= |bobs| && |s| == |bobs|
    ensures CoriolisSum(t, bobs, s, i, upTo) == CentrifugalSum(t, bobs, s, i, upTo)
  {
    if upTo > 0 {
      CoriolisSumClosed(t, bobs, s, i, upTo - 1);
      RowSumClosed(t, bobs, s, i, upTo - 1, |bobs|);
    }
  }

  /**
   * The Christoffel triple sum collapses to the classical centrifugal form
   * C[i] = Σ_j suffix[max(i, j)] · l_i · l_j · sin(θ_i − θ_j) · ω_j².
   */
  lemma CoriolisClosedForm(t: Trig, bobs: seq<Bob>, i: nat)
    requires t.Valid()
    requires i < |bobs|
    ensures CoriolisOf(t, bobs)[i] == CentrifugalSum(t, bobs, SuffixMassesOf(bobs), i, |bobs|)
  {
    CoriolisSumClosed(t, bobs, SuffixMassesOf(bobs), i, |bobs|);
  }

  // ---------------------------------------------------------------------
  // Gravity vector

  /** G[i] = suffix[i] · g · l_i · sin θ_i, with no leading minus. */
  function GravityOf(t: Trig, bobs: seq<Bob>): (g: Vector)
    ensures |g| == |bobs|
  {
    seq(|bobs|, i requires 0 <= i < |bobs| =>
      SuffixMass(bobs, i) * GravitationalAcceleration * bobs[i].lengthRod * t.sin(bobs[i].theta))
  }

  /**
   * For a physical chain, G[i] has the sign of sin θ_i; in particular it
   * vanishes when bob i's rod hangs straight down.
   */
  lemma GravityRestoring(t: Trig, bobs: seq<Bob>, i: nat)
    requires t.Valid()
    requires i < |bobs|
    ensures bobs[i].theta == 0.0 ==> GravityOf(t, bobs)[i] == 0.0
    ensures Physical(bobs) ==> (GravityOf(t, bobs)[i] > 0.0 <==> t.sin(bobs[i].theta) > 0.0)
    ensures Physical(bobs) ==> (GravityOf(t, bobs)[i] == 0.0 <==> t.sin(bobs[i].theta) == 0.0)
  {
    if Physical(bobs) {
      SuffixMassBounds(bobs, i);
      var k := SuffixMass(bobs, i) * GravitationalAcceleration * bobs[i].lengthRod;
      assert k > 0.0;
      assert GravityOf(t, bobs)[i] == k * t.sin(bobs[i].theta);
    }
  }
}
