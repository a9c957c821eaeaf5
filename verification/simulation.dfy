/** One simulation run (`iteration`): a random lattice, `InitialSteps`
    equilibration sweeps, then `LaterSteps` sampling sweeps of which every
    `MagnCalcStep`-th is followed by a magnetization sample. The floating
    point reduction is replaced by an exact integer accumulator. */
module Simulation {
  import opened Arithmetic
  import opened Lattice
  import opened Transition
  import opened Metropolis
  import opened Observables

  const InitialSteps: nat := 30_000
  const LaterSteps: nat := 200_000
  const MagnCalcStep: nat := 100
  /** The divisor of the final averages. */
  const MagnSteps: nat := LaterSteps / MagnCalcStep

  /** The Bernoulli draw made at cell `index` of sweep number `sweep`. */
  type RandomSource = (nat, nat, real) -> bool

  /** The draws of one sweep. */
  function SweepDraws(rng: RandomSource, sweep: nat): Bernoulli {
    (index: nat, p: real) => rng(sweep, index, p)
  }

  /** How many of `0 .. n` are multiples of `m`: the sampling steps among
      the first `n` steps of the sampling phase. */
  function MultiplesBelow(n: nat, m: nat): nat
    requires m > 0
  {
    if n == 0 then 0
    else MultiplesBelow(n - 1, m) + (if (n - 1) % m == 0 then 1 else 0)
  }

  /** The number of multiples of `m` below `n` is `n / m` rounded up. */
  lemma {:induction false} MultiplesBelowIsCeiling(n: nat, m: nat)
    requires m > 0
    ensures MultiplesBelow(n, m) == (n + m - 1) / m
  {
    if n == 0 {
      DivModUnique(m - 1, m, 0, m - 1);
    } else {
      MultiplesBelowIsCeiling(n - 1, m);
      var q, r := (n - 1) / m, (n - 1) % m;
      assert n - 1 == q * m + r;
      if r == 0 {
        DivModUnique(n - 1 + m - 1, m, q, m - 1);
        DivModUnique(n + m - 1, m, q + 1, 0);
      } else {
        DivModUnique(n - 1 + m - 1, m, q + 1, r - 1);
        DivModUnique(n + m - 1, m, q + 1, r);
      }
    }
  }

  /** When the cadence divides the phase length, the samples taken number
      exactly the divisor used for the averages. */
  lemma SampleCountMatchesDivisor()
    ensures MultiplesBelow(LaterSteps, MagnCalcStep) == MagnSteps
  {
    MultiplesBelowIsCeiling(LaterSteps, MagnCalcStep);
  }

  /** Exact integer stand-ins for the running sums of `iteration`: with `S` the
      spin sum of a sampled lattice of `N` sites, `absSum` is `N` times the
      sum of magnetizations `|S| / N` and `squareSum` is `N^2` times the sum
      of their squares. `samples` counts the samples taken. */
  datatype Accumulator = Accumulator(absSum: int, squareSum: int, samples: nat)

  const EmptyAccumulator := Accumulator(0, 0, 0)

  /** One sample: the magnitude `|S|` is added to the first sum and its
      square, the squared magnetization scaled by `N^2`, to the second. */
  function AddSample(acc: Accumulator, spinSum: int): (acc': Accumulator)
    ensures acc'.samples == acc.samples + 1
    ensures acc'.absSum - acc.absSum == Abs(spinSum)
    ensures acc'.squareSum - acc.squareSum == (acc'.absSum - acc.absSum) * (acc'.absSum - acc.absSum)
  {
    Accumulator(acc.absSum + Abs(spinSum), acc.squareSum + spinSum * spinSum, acc.samples + 1)
  }

  /** The integer facts behind the final estimates for `sites` sites: the
      mean magnetization `absSum / (sites * samples)` lies in `[0, 1]`, and
      `samples * squareSum >= absSum^2` makes the susceptibility
      `sites / T * (squareSum / (sites^2 * samples) - m^2)` non-negative. */
  predicate Consistent(acc: Accumulator, sites: nat) {
    && 0 <= acc.absSum <= acc.samples * sites
    && 0 <= acc.squareSum <= acc.samples * (sites * sites)
    && acc.absSum * acc.absSum <= acc.samples * acc.squareSum
  }

  lemma SquareMonotone(x: nat, bound: nat)
    requires x <= bound
    ensures x * x <= bound * bound
  {
    MulMonotone(x, bound, x);
    MulMonotone(x, bound, bound);
  }

  lemma ProductSign(n: int, d: int)
    requires n > 0 && n * d >= 0
    ensures d >= 0
  {
    if d < 0 {
      MulMonotone(d, -1, n);
    }
  }

  /** One step of the Cauchy-Schwarz inequality
      `(x_1 + ... + x_n)^2 <= n * (x_1^2 + ... + x_n^2)`. */
  lemma CauchySchwarzStep(a: nat, b: nat, n: nat, x: nat)
    requires a * a <= n * b && (n == 0 ==> a == 0)
    ensures (a + x) * (a + x) <= (n + 1) * (b + x * x)
  {
    assert (a + x) * (a + x) == a * a + 2 * a * x + x * x;
    assert (n + 1) * (b + x * x) == n * b + b + n * (x * x) + x * x;
    if n > 0 {
      var d := b + n * (x * x) - 2 * a * x;
      assert n * d == n * b + (n * x) * (n * x) - 2 * a * (n * x);
      assert (a - n * x) * (a - n * x) == a * a - 2 * a * (n * x) + (n * x) * (n * x);
      ProductSign(n, d);
    }
  }

  /** Adding the sample of any lattice of `sites` spins keeps the
      accumulator consistent. */
  lemma AddSampleKeepsConsistent(acc: Accumulator, spinSum: int, sites: nat)
    requires Consistent(acc, sites) && Abs(spinSum) <= sites
    ensures Consistent(AddSample(acc, spinSum), sites)
  {
    SampleBounds(acc.absSum, acc.squareSum, acc.samples, Abs(spinSum), sites);
    assert Abs(spinSum) * Abs(spinSum) == spinSum * spinSum;
    if acc.samples == 0 {
      assert acc.samples * sites == 0;
    }
    CauchySchwarzStep(acc.absSum, acc.squareSum, acc.samples, Abs(spinSum));
  }

  /** The sums grow by at most one maximal sample. */
  lemma SampleBounds(absSum: nat, squareSum: nat, n: nat, x: nat, sites: nat)
    requires absSum <= n * sites && squareSum <= n * (sites * sites) && x <= sites
    ensures absSum + x <= (n + 1) * sites
    ensures squareSum + x * x <= (n + 1) * (sites * sites)
  {
    SquareMonotone(x, sites);
    assert (n + 1) * sites == n * sites + sites;
    assert (n + 1) * (sites * sites) == n * (sites * sites) + sites * sites;
  }

  /** The state carried through the sampling fold. */
  datatype PhaseState = PhaseState(lattice: seq<int>, acc: Accumulator)

  /** The sweeps of a run: `sweep(l, k)` is sweep number `k` applied to
      `l`. */
  type SweepFn = (seq<int>, nat) -> seq<int>

  /** Every sweep of the run maps valid `size x size` lattices to valid
      ones. */
  ghost predicate KeepsValid(sweep: SweepFn, size: nat) {
    forall l: seq<int>, k: nat :: ValidLattice(l, size) ==> ValidLattice(sweep(l, k), size)
  }

  /** `recalc_lattice` as the `k`-th sweep of a run: `Sweep` with the draws
      `SweepDraws(rng, k)`, on a valid lattice; it keeps lattices valid and
      changes each spin at most by negation. */
  function RunSweep(size: nat, table: map<int, real>, rng: RandomSource): (sweep: SweepFn)
    requires ProbabilityTable(table)
    ensures KeepsValid(sweep, size)
    ensures forall l: seq<int>, k: nat, c :: ValidLattice(l, size) && 0 <= c < |l| ==>
      sweep(l, k)[c] == l[c] || sweep(l, k)[c] == -l[c]
  {
    (l: seq<int>, k: nat) => if ValidLattice(l, size) then Sweep(l, size, table, SweepDraws(rng, k)) else l
  }

  /** The lattice of a run after its sweeps `0 .. n - 1`. The equilibration
      phase of `iteration` leaves `AfterSweeps(start, .., InitialSteps)`. */
  function AfterSweeps(l: seq<int>, size: nat, sweep: SweepFn, n: nat): (l': seq<int>)
    requires ValidLattice(l, size) && KeepsValid(sweep, size)
    ensures ValidLattice(l', size)
  {
    if n == 0 then l
    else sweep(AfterSweeps(l, size, sweep, n - 1), n - 1)
  }

  /** One sweep extends the run by one. */
  lemma AfterSweepsStep(l: seq<int>, size: nat, sweep: SweepFn, n: nat, m: nat)
    requires ValidLattice(l, size) && KeepsValid(sweep, size) && m == n + 1
    ensures AfterSweeps(l, size, sweep, m) == sweep(AfterSweeps(l, size, sweep, n), n)
  {
  }

  /** The sampling fold from step `i` to `later`: sweep number `first + i`,
      then sample the swept lattice when `i % step == 0`. It takes one
      sample per multiple of `step` in `i .. later` and keeps the
      accumulator consistent. */
  function SamplingPhase(l: seq<int>, size: nat, sweep: SweepFn,
                         first: nat, i: nat, later: nat, step: nat, acc: Accumulator): (r: PhaseState)
    requires ValidLattice(l, size) && KeepsValid(sweep, size) && step > 0 && i <= later
    ensures ValidLattice(r.lattice, size)
    ensures r.acc.samples == acc.samples + MultiplesBelow(later, step) - MultiplesBelow(i, step)
    ensures Consistent(acc, size * size) ==> Consistent(r.acc, size * size)
    decreases later - i
  {
    if i == later then PhaseState(l, acc)
    else
      var next := sweep(l, first + i);
      var acc' := if i % step == 0 then AddSample(acc, Sum(next)) else acc;
      assert Consistent(acc, size * size) ==> Consistent(acc', size * size) by {
        if Consistent(acc, size * size) && i % step == 0 {
          AddSampleKeepsConsistent(acc, Sum(next), size * size);
        }
      }
      SamplingPhase(next, size, sweep, first, i + 1, later, step, acc')
  }

  /** The first sample is taken on the lattice left by the first sampling
      sweep, not on the equilibrated lattice itself. */
  lemma FirstSampleFollowsFirstSweep(l: seq<int>, size: nat, sweep: SweepFn,
                                     first: nat, later: nat, step: nat, acc: Accumulator)
    requires ValidLattice(l, size) && KeepsValid(sweep, size) && step > 0 && 0 < later
    ensures var next := sweep(l, first);
      SamplingPhase(l, size, sweep, first, 0, later, step, acc)
      == SamplingPhase(next, size, sweep, first, 1, later, step, AddSample(acc, Sum(next)))
  {
  }

  /** The spin sums of the first `n` samples of a run whose sampling
      phase starts with sweep `base`: sample `k` is taken on the lattice
      left by sweep `base + k * step`. */
  function SampledSums(l: seq<int>, size: nat, sweep: SweepFn, base: nat, step: nat, n: nat): (sums: seq<int>)
    requires ValidLattice(l, size) && KeepsValid(sweep, size)
  {
    seq(n, k requires 0 <= k < n => Sum(AfterSweeps(l, size, sweep, base + k * step + 1)))
  }

  /** One more sample appends the spin sum of the lattice left by sweep
      `base + n * step`. */
  lemma SampledSumsAppend(l: seq<int>, size: nat, sweep: SweepFn, base: nat, step: nat, n: nat, sweeps: nat)
    requires ValidLattice(l, size) && KeepsValid(sweep, size) && sweeps == base + n * step + 1
    ensures SampledSums(l, size, sweep, base, step, n + 1)
      == SampledSums(l, size, sweep, base, step, n) + [Sum(AfterSweeps(l, size, sweep, sweeps))]
  {
  }

  /** The sum of the magnitudes of `sums`. */
  function AbsTotal(sums: seq<int>): int {
    if |sums| == 0 then 0 else AbsTotal(sums[..|sums| - 1]) + Abs(sums[|sums| - 1])
  }

  /** The sum of the squares of `sums`. */
  function SquareTotal(sums: seq<int>): int {
    if |sums| == 0 then 0 else SquareTotal(sums[..|sums| - 1]) + sums[|sums| - 1] * sums[|sums| - 1]
  }

  /** The accumulator a list of samples should produce. */
  function Totals(sums: seq<int>): Accumulator {
    Accumulator(AbsTotal(sums), SquareTotal(sums), |sums|)
  }

  /** Adding a sample extends the list of samples by one. */
  lemma TotalsAppend(sums: seq<int>, x: int)
    ensures AddSample(Totals(sums), x) == Totals(sums + [x])
  {
    assert (sums + [x])[..|sums|] == sums;
  }

  /** A sampling step that takes a sample is sample number `i / step`. */
  lemma SampleIndex(i: nat, step: nat)
    requires step > 0 && i % step == 0
    ensures MultiplesBelow(i, step) * step == i
  {
    MultiplesBelowIsCeiling(i, step);
    DivModDecompose(i, step);
    DivModUnique(i + step - 1, step, i / step, step - 1);
  }

  /** The accumulator after the sampling steps below `i` of a run. */
  function SamplesBelow(l: seq<int>, size: nat, sweep: SweepFn, base: nat, step: nat, i: nat): Accumulator
    requires ValidLattice(l, size) && KeepsValid(sweep, size) && step > 0
  {
    Totals(SampledSums(l, size, sweep, base, step, MultiplesBelow(i, step)))
  }

  /** A sampling step that takes a sample adds the spin sum of the lattice
      its sweep leaves. */
  lemma SampleStep(l: seq<int>, size: nat, sweep: SweepFn, base: nat, step: nat, i: nat)
    requires ValidLattice(l, size) && KeepsValid(sweep, size) && step > 0 && i % step == 0
    ensures SamplesBelow(l, size, sweep, base, step, i + 1)
      == AddSample(SamplesBelow(l, size, sweep, base, step, i), Sum(AfterSweeps(l, size, sweep, base + (i + 1))))
  {
    var m := MultiplesBelow(i, step);
    SampleIndex(i, step);
    SampledSumsAppend(l, size, sweep, base, step, m, base + (i + 1));
    TotalsAppend(SampledSums(l, size, sweep, base, step, m), Sum(AfterSweeps(l, size, sweep, base + (i + 1))));
  }

  /** A sampling step that takes no sample leaves the samples alone. */
  lemma SkipStep(l: seq<int>, size: nat, sweep: SweepFn, base: nat, step: nat, i: nat)
    requires ValidLattice(l, size) && KeepsValid(sweep, size) && step > 0 && i % step != 0
    ensures SamplesBelow(l, size, sweep, base, step, i + 1) == SamplesBelow(l, size, sweep, base, step, i)
  {
  }

  /** One step of the sampling fold moves a run from step `i` to `i + 1`. */
  lemma SamplingStep(l: seq<int>, size: nat, sweep: SweepFn, base: nat, i: nat, later: nat, step: nat)
    requires ValidLattice(l, size) && KeepsValid(sweep, size) && step > 0 && i < later
    ensures SamplingPhase(AfterSweeps(l, size, sweep, base + i), size, sweep, base, i, later, step,
                          SamplesBelow(l, size, sweep, base, step, i))
      == SamplingPhase(AfterSweeps(l, size, sweep, base + (i + 1)), size, sweep, base, i + 1, later, step,
                       SamplesBelow(l, size, sweep, base, step, i + 1))
  {
    AfterSweepsStep(l, size, sweep, base + i, base + (i + 1));
    if i % step == 0 {
      SampleStep(l, size, sweep, base, step, i);
    } else {
      SkipStep(l, size, sweep, base, step, i);
    }
  }

  /** The sampling fold, started at step `i` of a run with the samples so
      far, ends on the lattice after sweep `base + later - 1` with exactly
      the samples of the steps below `later`. */
  lemma {:induction false} SamplingPhaseSamples(l: seq<int>, size: nat, sweep: SweepFn,
                                                base: nat, i: nat, later: nat, step: nat)
    requires ValidLattice(l, size) && KeepsValid(sweep, size) && step > 0 && i <= later
    ensures SamplingPhase(AfterSweeps(l, size, sweep, base + i), size, sweep, base, i, later, step,
                          SamplesBelow(l, size, sweep, base, step, i))
      == PhaseState(AfterSweeps(l, size, sweep, base + later), SamplesBelow(l, size, sweep, base, step, later))
    decreases later - i
  {
    if i < later {
      SamplingStep(l, size, sweep, base, i, later, step);
      SamplingPhaseSamples(l, size, sweep, base, i + 1, later, step);
    }
  }

  /** The accumulator of a run of `initial` equilibration sweeps and
      `later` sampling sweeps is the totals of its samples. */
  lemma RunSamples(start: seq<int>, size: nat, sweep: SweepFn, initial: nat, later: nat, step: nat)
    requires ValidLattice(start, size) && KeepsValid(sweep, size) && step > 0
    ensures SamplingPhase(AfterSweeps(start, size, sweep, initial), size, sweep,
                          initial, 0, later, step, EmptyAccumulator).acc
      == Totals(SampledSums(start, size, sweep, initial, step, MultiplesBelow(later, step)))
  {
    SamplingPhaseSamples(start, size, sweep, initial, 0, later, step);
  }

  /** The accumulator of the run of `iteration` is the totals of its
      `MagnSteps` samples. */
  lemma IterationSamples(start: seq<int>, size: nat, sweep: SweepFn)
    requires ValidLattice(start, size) && KeepsValid(sweep, size)
    ensures SamplingPhase(AfterSweeps(start, size, sweep, InitialSteps), size, sweep,
                          InitialSteps, 0, LaterSteps, MagnCalcStep, EmptyAccumulator).acc
      == Totals(SampledSums(start, size, sweep, InitialSteps, MagnCalcStep, MagnSteps))
  {
    RunSamples(start, size, sweep, InitialSteps, LaterSteps, MagnCalcStep);
    SampleCountMatchesDivisor();
  }

  /** The accumulator of the run of `iteration` is consistent. */
  lemma IterationConsistent(start: seq<int>, size: nat, sweep: SweepFn)
    requires ValidLattice(start, size) && KeepsValid(sweep, size)
    ensures Consistent(SamplingPhase(AfterSweeps(start, size, sweep, InitialSteps), size, sweep,
                                     InitialSteps, 0, LaterSteps, MagnCalcStep, EmptyAccumulator).acc, size * size)
  {
    assert Consistent(EmptyAccumulator, size * size);
  }

  /** `iteration`: the integer accumulator of one run. It holds exactly
      `MagnSteps` samples, the number `iteration` divides by; its sums
      are the totals of `|S|` and `S^2` over the lattices left by sweeps
      `InitialSteps + k * MagnCalcStep`; and it is consistent, so the
      magnetization estimate lies in `[0, 1]` and the susceptibility
      estimate is non-negative. */
  function Iteration(size: nat, table: map<int, real>, coin: nat -> bool, rng: RandomSource): (acc: Accumulator)
    requires ProbabilityTable(table)
    ensures acc.samples == MagnSteps
    ensures var sums := SampledSums(GenerateLattice(size, coin), size, RunSweep(size, table, rng),
                                    InitialSteps, MagnCalcStep, MagnSteps);
      acc.absSum == AbsTotal(sums) && acc.squareSum == SquareTotal(sums)
    ensures Consistent(acc, size * size)
  {
    var start := GenerateLattice(size, coin);
    var sweep := RunSweep(size, table, rng);
    var equilibrated := AfterSweeps(start, size, sweep, InitialSteps);
    IterationSamples(start, size, sweep);
    IterationConsistent(start, size, sweep);
    SamplingPhase(equilibrated, size, sweep, InitialSteps, 0, LaterSteps, MagnCalcStep, EmptyAccumulator).acc
  }
}
