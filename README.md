# N-link pendulum engine

A Dafny model of the simulation core of a double-pendulum desktop app
(`src-tauri/src/lib.rs`). The app's `Pendulum` holds a chain of bobs. Each
bob is a rigid rod of length `l` carrying a point mass `m`, at angle `θ` from
the downward vertical with angular velocity `ω`, plus a cached Cartesian
`coordinate`. Every tick, `step` does three things:

1. It assembles the equations of motion M(θ)·θ'' + C(θ, ω) + G(θ) = 0:
   - the mass matrix M;
   - the Coriolis/centrifugal vector C, built from Christoffel symbols of the
     angle derivative of M;
   - the gravity vector G.
2. It solves M·a = −(C + G), falling back to zero accelerations when the
   solve fails.
3. It advances (θ, ω) by semi-implicit Euler in place, then rebuilds the
   chained coordinates from the anchor at the origin.

The project has five modules:

- `Numerics` (`numerics.dfy`): the numeric collaborators.
  - `sin`/`cos` are a `Trig` value of two function parameters. `Trig.Valid`
    states the only facts the model assumes: sin 0 = 0, cos 0 = 1, cos is
    even and sin is odd.
  - The linear solver is a function parameter
    `(Matrix, Vector) -> Option<Vector>`.
- `Model` (`model.dfy`): `Coordinate`, `Bob`, `Bob::new` and the
  engine's constants.
- `Dynamics` (`dynamics.dfy`): M, ∂M/∂θ, the Christoffel symbols, C, G and
  the suffix masses, written as closed-form specification functions, with
  their lemmas.
- `Integrator` (`integrator.dfy`): one tick as a function of the bob list
  (`Advance`), with the integration and kinematics lemmas.
- `Engine` (`pendulum.dfy`): the `Pendulum` class.
  - `bobs` is a `seq<Bob>` field that the methods update in place.
  - Each builder is a loop method proved equal to its `Dynamics` function.
  - `Step` is proved equal to `Integrator.Advance`.

The gravity sign follows the code, not every description of the equations.
`gravity` (lib.rs:126-130) sums `+m·g·l·sin θ` with no leading minus; the
only negation is in the right-hand side `-(c + g)` at line 142. A G written
with its own leading minus would push the chain away from the vertical.
`Integrator.SinglePendulum` shows that the code's sign reduces one bob to
θ'' = −(g/l)·sin θ.

## Model

| member | source | states |
|---|---|---|
| Model.NewBob | src-tauri/src/lib.rs:31-39 | a new bob carries the given rod, mass, angle and velocity, and its coordinate starts at the default origin |
| Engine.Pendulum.constructor | src-tauri/src/lib.rs:48-50 | the pendulum holds exactly the bobs it is given |
| Engine.Pendulum.N | src-tauri/src/lib.rs:52-54 | n is the number of bobs |
| Engine.Pendulum.Default | src-tauri/src/lib.rs:168-177 | the default chain is two bobs with 120-unit rods and 10-unit masses, at angle π/2 and at rest, and its rods and masses are positive |
| Engine.Pendulum.SuffixMasses | src-tauri/src/lib.rs:76-85 | the reverse accumulation loop yields exactly the suffix-mass vector: entry i is the total mass at or below bob i |
| Dynamics.SuffixMassesOf | src-tauri/src/lib.rs:76-85 | the suffix-mass vector has one entry per bob |
| Dynamics.SuffixMassesRecurrence | src-tauri/src/lib.rs:80-83 | s[n−1] = mass[n−1] and s[i] = mass[i] + s[i+1] |
| Dynamics.SuffixMassClosed | src-tauri/src/lib.rs:76-85 | the mass at or below bob i equals the total mass minus the masses of bobs 0..i−1 (the sum taken in the other direction) |
| Dynamics.SuffixMassBounds | src-tauri/src/lib.rs:76-85 | with positive masses, every suffix mass is non-negative and at least its own bob's mass |
| Engine.Pendulum.MassMatrix | src-tauri/src/lib.rs:56-74 | the triple loop, where each entry sums m_k·l_i·l_j·cos(θ_i−θ_j) over k from max(i, j) to n−1, yields exactly the closed-form mass matrix |
| Dynamics.MassMatrixOf | src-tauri/src/lib.rs:56-74 | the mass matrix is n×n |
| Dynamics.MassMatrixSymmetric | src-tauri/src/lib.rs:56-74 | with an even cosine, M[i][j] = M[j][i] |
| Dynamics.MassMatrixDiagonal | src-tauri/src/lib.rs:60-70 | M[i][i] = suffix[i]·l_i², which is positive for positive rods and masses |
| Dynamics.DMassDTheta | src-tauri/src/lib.rs:87-96 | ∂M[i][j]/∂θ_k is 0 when k is neither i nor j, and 0 when i = j |
| Dynamics.DMassSwap | src-tauri/src/lib.rs:87-96 | swapping i and j leaves ∂M[i][j]/∂θ_k unchanged |
| Dynamics.ChristoffelSymmetric | src-tauri/src/lib.rs:103-111 | Γ_ijk = Γ_ikj |
| Dynamics.ChristoffelDiagonal | src-tauri/src/lib.rs:103-111 | Γ_iik = 0 |
| Dynamics.ChristoffelAtJ | src-tauri/src/lib.rs:103-111 | for i ≠ j, Γ_ijj = suffix[max(i, j)]·l_i·l_j·sin(θ_i−θ_j) |
| Dynamics.ChristoffelAtI | src-tauri/src/lib.rs:103-111 | for i ≠ j and an odd sine, Γ_iji = 0 |
| Dynamics.ChristoffelElsewhere | src-tauri/src/lib.rs:103-111 | for i ≠ j, Γ_ijk = 0 when k is neither i nor j |
| Dynamics.ChristoffelTerm | src-tauri/src/lib.rs:107-112 | with an odd sine, the summand Γ_ijk·ω_j·ω_k is bob j's centrifugal term suffix[max(i, j)]·l_i·l_j·sin(θ_i−θ_j)·ω_j² when k = j, and 0 otherwise |
| Dynamics.RowSumClosed | src-tauri/src/lib.rs:107-113 | the inner sum over the first columns k of row i, for a fixed j, is bob j's centrifugal term once k has passed j, and 0 before |
| Dynamics.CoriolisSumClosed | src-tauri/src/lib.rs:104-116 | the j-sum of row i equals the running sum of centrifugal terms |
| Engine.Pendulum.Coriolis | src-tauri/src/lib.rs:98-118 | the triple loop over Christoffel symbols, each built from three calls to the mass-matrix derivative, yields exactly the Coriolis vector |
| Dynamics.CoriolisOf | src-tauri/src/lib.rs:98-118 | the Coriolis vector has one entry per bob |
| Dynamics.CoriolisAtRest | src-tauri/src/lib.rs:98-118 | when every ω is 0 the Coriolis vector is the zero vector |
| Dynamics.CoriolisClosedForm | src-tauri/src/lib.rs:98-118 | C[i] = Σ_j suffix[max(i, j)]·l_i·l_j·sin(θ_i−θ_j)·ω_j²; the n² Christoffel terms of the row collapse to n |
| Engine.Pendulum.Gravity | src-tauri/src/lib.rs:120-134 | the double loop yields exactly the gravity vector g[i] = suffix[i]·9.81·l_i·sin θ_i |
| Dynamics.GravityOf | src-tauri/src/lib.rs:120-134 | the gravity vector has one entry per bob |
| Dynamics.GravityRestoring | src-tauri/src/lib.rs:120-134 | g[i] = 0 when θ_i = 0; for positive rods and masses, g[i] has the sign of sin θ_i and vanishes exactly when it does |
| Integrator.NegatedSum | src-tauri/src/lib.rs:142 | the right-hand side −(c + g) has one entry per bob |
| Integrator.Acceleration | src-tauri/src/lib.rs:137-143 | the accelerations have one entry per bob, whether the solve succeeds or not |
| Engine.Pendulum.Accelerations | src-tauri/src/lib.rs:137-143 | building M, C and G and solving M·a = −(C + G) with the zero fallback yields exactly the specified accelerations |
| Integrator.AccelerationFallback | src-tauri/src/lib.rs:143-148 | the accelerations are the solver's answer when there is one and all zero otherwise; in the second case a tick keeps every ω, and θ moves by ω·dt |
| Integrator.Integrate | src-tauri/src/lib.rs:145-148 | the Euler update keeps the number of bobs |
| Engine.Pendulum.IntegrateAngles | src-tauri/src/lib.rs:145-148 | the in-place loop, which updates ω and then θ for each bob, leaves exactly the integrated bob list |
| Integrator.AdvanceSemiImplicitEuler | src-tauri/src/lib.rs:145-148 | after a tick ω' = ω + a·dt and θ' = θ + ω'·dt with the new ω, that is, θ' = θ + ω·dt + a·dt² |
| Integrator.PlaceChain | src-tauri/src/lib.rs:150-164 | placing the chain keeps the number of bobs |
| Engine.Pendulum.PlaceBobs | src-tauri/src/lib.rs:150-164 | the in-place forward loop, which reads the coordinate just written for bob i−1, leaves exactly the placed chain |
| Integrator.PlaceChainLink | src-tauri/src/lib.rs:150-163 | bob i keeps its other fields and sits at (l_i·sin θ_i, l_i·cos θ_i) from bob i−1's coordinate, or from the origin for bob 0 |
| Integrator.PlaceChainRecurrence | src-tauri/src/lib.rs:150-164 | placing changes only coordinates, and coord[0] = (l_0 sin θ_0, l_0 cos θ_0) and coord[i] = coord[i−1] + (l_i sin θ_i, l_i cos θ_i) |
| Integrator.StraightHangingChain | src-tauri/src/lib.rs:150-164 | with every angle 0, every x is 0 and each y is the running sum of the rod lengths |
| Integrator.AdvanceStraightChain | src-tauri/src/lib.rs:145-164 | if a tick leaves every angle at 0, the new chain hangs straight down |
| Integrator.Advance | src-tauri/src/lib.rs:136-165 | a tick keeps the number of bobs |
| Engine.Pendulum.Step | src-tauri/src/lib.rs:136-165 | a tick leaves exactly the bob list that Advance computes from the old bobs and their accelerations |
| Integrator.AdvanceKeepsChain | src-tauri/src/lib.rs:136-165 | a tick keeps the number of bobs, every mass and every rod length, and so keeps rods and masses positive |
| Integrator.AdvanceEmpty | src-tauri/src/lib.rs:136-165 | with no bobs a tick changes nothing |
| Integrator.SinglePendulum | src-tauri/src/lib.rs:120-143 | with one bob and a solver whose answers solve the system, the acceleration is θ'' = −(g/l)·sin θ |

## Left out

- Numbers are `real`, not f64. Rounding is not modelled, so facts such as
  the symmetry of M hold only in exact arithmetic.
- `sin` and `cos` have no values beyond the four facts in `Trig.Valid`.
  `Default` writes π/2 as the exact value of the f64 constant `PI / 2.0`.
- The nalgebra LU decomposition is a foreign library. It is the `Solver`
  parameter:
  - `Step` requires only that an answer has one entry per unknown, which
    nalgebra's vector types guarantee;
  - only `SinglePendulum` also assumes that an answer solves the system;
  - when and why the solve fails is not modelled.
- The single body of the Rust `step` is split into three methods,
  `Accelerations`, `IntegrateAngles` and `PlaceBobs`, which keep the
  source's order.
- `d_mass_matrix_dtheta` takes `&self` in the source but reads only the
  bobs. It is the function `Dynamics.DMassDTheta` on the bob list.
- `pendulum_state`: the async loop that locks the shared pendulum, sends its
  state over a Tauri channel and sleeps. This is concurrency, I/O and a clock.
- `run`, the `Mutex`-wrapped app state, the `PendulumState` transfer object
  and the serde derives: application wiring and serialisation.
- Energy drift and convergence of the integrator: these are numerical
  analysis and not stated.
- The engine has no operations to add, remove or modify bobs, so none are
  modelled.
