# Ising lattice simulation: the integer core

This project models the deterministic, integer part of a 2-D Ising model
simulation that runs Metropolis Monte Carlo on a periodic (torus) lattice
and estimates magnetization and susceptibility over a grid of lattice sizes
and temperatures. Every member listed below is proved.

A lattice of side `size` is a row-major sequence of `size * size` spins,
each `+1` or `-1`. The model covers these parts of the source:

- The torus neighbour lookup `get_adjacent_indices` (module `Torus`). Each
  of the four neighbours is stated as a one-step move on the row or column
  ring. The module also proves:
  - left/right and top/bottom undo each other;
  - the four neighbours are distinct for `size >= 3`;
  - they coincide for sizes 1 and 2.
- The energy change `2 * spin * (sum of neighbours)` computed in `i8`
  arithmetic (module `Transition`). Overflow is an explicit `None`. The
  result never overflows and always lands on one of the five keys of the
  transition table, so the lookup `trans_map[&energy_change]` is always
  defined. Every key is also reachable.
- The transition table `get_trans_map`:
  - its key set is `{-8, -4, 0, 4, 8}`;
  - every value is `min(1, w)`;
  - for the orderings the exponentials satisfy at a positive temperature,
    the values are probabilities, equal to 1 for non-positive energy
    changes and non-increasing in the energy change.
- One sweep `recalc_lattice` (module `Metropolis`):
  - It is a left fold over the cells in raster order, plus an imperative
    method over a local copy that is proved equal to that fold.
  - Each cell is negated exactly when the draw accepts, and the draw sees
    the energy change of the lattice as already updated for earlier cells.
  - A draw that never accepts leaves the lattice unchanged.
  - A fixed list of accept/reject decisions negates exactly the cells
    whose decision is true.
- The integer core of `get_magnetization` (module `Observables`): the
  absolute spin sum is at most the lattice length, with equality exactly
  for an aligned lattice.
- One run, `iteration` (module `Simulation`):
  - equilibration sweeps, then sampling sweeps;
  - a sample is taken after every sweep whose step number is a multiple of
    `MAGN_CALC_STEP`;
  - the number of samples equals `MAGN_STEPS`, the divisor of the final
    averages;
  - the sums are exactly the totals of `|S|` and `S^2` over the spin sums
    `S` of the lattices left by sweeps `INITIAL_STEPS + k * MAGN_CALC_STEP`;
    the run is written over an abstract sweep function, which
    `Simulation.RunSweep` instantiates with `recalc_lattice`;
  - the running sums are kept as exact integers, and they satisfy the
    facts that put the magnetization estimate in `[0, 1]` and keep the
    susceptibility estimate non-negative.
- The scaled integer range inside `get_float_range`, and the size-major
  product `get_params` (module `Parameters`). Every (size, temperature)
  pair occurs exactly once.

The random draws are inputs:

- `gen_bool(p)` in a sweep is a function `Bernoulli = (nat, real) -> bool`
  from cell index and probability to the decision. Within one run it is
  `RandomSource = (nat, nat, real) -> bool`, with the sweep number added.
- The initial spins from `rand::random()` are a coin `nat -> bool`.

The exponentials `exp(±4/T)` and `exp(±8/T)` are also inputs, as four reals
of the datatype `Transition.Boltzmann`.

The temperature grid: `get_float_range(1.0, 5.0, 0.05)` steps the integer
range `100..500` by 5, giving the 80 temperatures 1.00 to 4.95;
`Parameters.Temperatures` proves this.

## Model

| member | source | states |
|---|---|---|
| Torus.Left | src/main.rs:38-43 | the left neighbour of a cell on the lattice is on the lattice |
| Torus.Top | src/main.rs:36-49 | the top neighbour of a cell on the lattice is on the lattice |
| Torus.Right | src/main.rs:50-55 | the right neighbour of a cell on the lattice is on the lattice |
| Torus.Bottom | src/main.rs:56-61 | the bottom neighbour of a cell on the lattice is on the lattice |
| Torus.LeftMove | src/main.rs:38-43 | the left neighbour keeps the row and moves the column one step back on the ring, wrapping from column 0 to `size - 1` |
| Torus.TopMove | src/main.rs:36-49 | the top neighbour keeps the column and, for a cell on the lattice, moves the row one step back on the ring, wrapping from the first row to the last |
| Torus.RightMove | src/main.rs:50-55 | the right neighbour keeps the row and moves the column one step forward on the ring, wrapping from `size - 1` to 0 |
| Torus.BottomMove | src/main.rs:56-61 | the bottom neighbour keeps the column and, for a cell on the lattice, moves the row one step forward on the ring, wrapping from the last row to the first |
| Torus.Moves | src/main.rs:36-62 | the four moves of one cell together |
| Torus.LeftIsTorusMove | src/main.rs:38-43 | the left branch expression is the backward column move on the ring within the same row |
| Torus.RightIsTorusMove | src/main.rs:50-55 | the right branch expression is the forward column move on the ring within the same row |
| Torus.TopIsTorusMove | src/main.rs:36-49 | `bottom_left` does not underflow, and the top branch expression is the backward row move on the ring within the same column |
| Torus.BottomIsTorusMove | src/main.rs:36-61 | `bottom_left` does not underflow, and the bottom branch expression is the forward row move on the ring within the same column |
| Torus.TopWraps | src/main.rs:44-46 | on the first row, `index + bottom_left` keeps the column and lands on the last row |
| Torus.TopSteps | src/main.rs:47-49 | below the first row, `index - size` keeps the column and lands on the previous row |
| Torus.BottomWraps | src/main.rs:56-58 | on the last row, `index - bottom_left` keeps the column and lands on the first row |
| Torus.BottomSteps | src/main.rs:59-61 | above the last row, `index + size` keeps the column and lands on the next row |
| Torus.AdjacentIndices | src/main.rs:30-63 | four indices, all on the lattice when `index` is |
| Torus.LeftRightInverse | src/main.rs:38-55 | the right neighbour of the left neighbour is the cell itself, and so is the left neighbour of the right neighbour |
| Torus.TopBottomInverse | src/main.rs:36-62 | the bottom neighbour of the top neighbour is the cell itself, and so is the top neighbour of the bottom neighbour |
| Torus.NeighboursDistinct | src/main.rs:36-62 | for `size >= 3` the four neighbours are pairwise distinct and differ from the cell |
| Torus.SmallGridNeighboursCoincide | src/main.rs:36-62 | for sizes 1 and 2, left equals right and top equals bottom; for size 1 every neighbour is the cell |
| Torus.LeftRightDistinctIff | src/main.rs:38-55 | left and right neighbours differ if and only if `size >= 3` |
| Torus.SameCell | src/main.rs:30-35 | the row-major layout: a cell is determined by its row and column |
| Torus.RowBound | src/main.rs:79 | an index below `size * size` has a row below `size` |
| Torus.IndexBound | src/main.rs:79 | an index whose row is below `size` is below `size * size` |
| Torus.RingSteps | src/main.rs:38-61 | the ring steps wrap exactly at the ends: backward from 0 gives `size - 1`, forward from `size - 1` gives 0, and both stay on the ring |
| Lattice.GenerateLattice | src/main.rs:24-28 | `size * size` spins, each `+1` exactly when its coin is true |
| Lattice.Sum | src/main.rs:86 | the sum of `n` spins lies in `[-n, n]` and has the parity of `n` |
| Transition.CheckedSum | src/main.rs:83-86 | `sum::<i8>`: when it does not overflow it is the integer sum; up to 127 spins never overflow |
| Transition.CheckedEnergyChange | src/main.rs:81-86 | `2 * spin * sum` in `i8`: when defined it is the integer product; for a spin and four neighbouring spins it is always defined and is a key of the table |
| Transition.KeysAreReachable | src/main.rs:65-72 | every key of the table is the energy change of some neighbourhood |
| Transition.TransitionTable | src/main.rs:65-76 | the keys are exactly `{-8, -4, 0, 4, 8}` and every value is at most 1; for physical weights the values are probabilities, equal to 1 for keys `<= 0`, and non-increasing in the key |
| Metropolis.NeighbourRows | src/main.rs:83 | the neighbour lists of the first `count` cells: four entries each, all on the lattice |
| Metropolis.NeighbourRowsAt | src/main.rs:83 | entry `index` of those lists is what `get_adjacent_indices` returns for cell `index` |
| Metropolis.TorusNeighbours | src/main.rs:83 | the neighbour list of every cell has four entries, all on the lattice |
| Metropolis.TorusNeighboursAt | src/main.rs:83 | the list for a cell is what `get_adjacent_indices` returns for it |
| Metropolis.NeighbourSpins | src/main.rs:83-85 | four spins |
| Metropolis.EnergyChange | src/main.rs:80-86 | the energy change is `2 * spin * (sum of neighbour spins)` and is a key of the transition table |
| Metropolis.Accepts | src/main.rs:88 | a draw that rejects every probability at a cell never accepts there, and a flip of probability 1 is accepted by a draw that accepts certainty |
| Metropolis.Visit | src/main.rs:80-90 | one visit changes no other cell and either keeps or negates the visited spin |
| Metropolis.SweepUpTo | src/main.rs:79-91 | after the first `count` visits, the cells from `count` on are untouched and every cell is kept or negated |
| Metropolis.Sweep | src/main.rs:78-92 | a sweep keeps the length `size * size` and the spin invariant, and every cell is kept or negated |
| Metropolis.RejectingSweepKeepsLattice | src/main.rs:88-90 | a draw that never accepts leaves the lattice unchanged |
| Metropolis.DecidedSweep | src/main.rs:79-91 | with a fixed decision list, cell `k` is negated exactly when decision `k` is true |
| Metropolis.MidSweep | src/main.rs:79-80 | the lattice seen on reaching a cell has the original length and holds spins |
| Metropolis.VisitKeepsEarlierViews | src/main.rs:89 | writing cell `index` does not change what the sweep saw at cells up to `index` |
| Metropolis.VisitExtendsSequential | src/main.rs:79-91 | one more visit extends the sequential description to one more cell |
| Metropolis.SweepIsSequential | src/main.rs:79-91 | after the first `count` visits, each visited cell is negated exactly when the draw accepted the flip at the energy change of the lattice as already updated for the earlier cells |
| Metropolis.SweepInRasterOrder | src/main.rs:78-92 | the same for a whole sweep of the torus: cell `k` ends negated exactly when the draw accepted it as seen on reaching `k`, so earlier flips influence later decisions |
| Metropolis.SweepLimits | src/main.rs:88-90 | a sweep under a never-accepting draw is the identity; under a draw that honours certainty, every flip of probability 1 at the moment of its visit is made |
| Metropolis.SequentialConsequences | src/main.rs:88-90 | a finished sequential sweep under a never-accepting draw is the identity; under a draw that honours certainty, every flip of probability 1 happens |
| Metropolis.CellEnergyChange | src/main.rs:80-86 | the loop body's energy change, computed from `get_adjacent_indices` in `i8`, equals the model's energy change and is a key of the table |
| Metropolis.VisitCell | src/main.rs:80-90 | one loop iteration (energy change, table lookup, draw, in-place negation) performs exactly one visit of the fold |
| Metropolis.RecalcLattice | src/main.rs:78-92 | the in-place loop over `0 .. size * size` computes the raster-order fold and keeps the lattice valid; a never-accepting draw changes nothing; a certain flip is always made |
| Observables.SumCountsSpins | src/main.rs:95 | the spin sum is the number of `+1` spins minus the number of `-1` spins |
| Observables.ExtremeSums | src/main.rs:95 | the sum equals the length exactly when all spins are `+1`, and equals minus the length exactly when all are `-1` |
| Observables.MagnetizationNumerator | src/main.rs:94-96 | the absolute sum is at most the length; it equals the length exactly for an aligned lattice and is 0 exactly for equal counts; the `i32` sum cannot overflow for lattices shorter than `2^31` |
| Simulation.MultiplesBelowIsCeiling | src/main.rs:125-127 | the steps `i` below `n` with `i % m == 0` number `n / m` rounded up |
| Simulation.SampleCountMatchesDivisor | src/main.rs:15-18 | the sampling steps among `0 .. LATER_STEPS` number exactly `MAGN_STEPS` |
| Simulation.CauchySchwarzStep | src/main.rs:130-133 | one sample more keeps `(sum of magnitudes)^2 <= samples * (sum of squares)` |
| Simulation.SampleBounds | src/main.rs:130-133 | the sums grow by at most one maximal sample |
| Simulation.AddSampleKeepsConsistent | src/main.rs:127-133 | adding a sample of any lattice of the run keeps the accumulator consistent (mean magnetization in `[0, 1]`, variance non-negative) |
| Simulation.AddSample | src/main.rs:130-133 | one sample adds one to the count, the magnitude `|S|` of the spin sum to the first sum, and the square of that magnitude to the second |
| Simulation.RunSweep | src/main.rs:121-126 | sweep number `k` of a run is `recalc_lattice` with that sweep's draws; it keeps lattices valid and changes each spin at most by negation |
| Simulation.AfterSweeps | src/main.rs:121-123 | the lattice after any number of sweeps of a run, the equilibration phase included, is valid |
| Simulation.SamplingPhase | src/main.rs:125-136 | the fold keeps the lattice valid, adds one sample per sampling step of its range, and keeps the accumulator consistent |
| Simulation.FirstSampleFollowsFirstSweep | src/main.rs:125-134 | the first sample is taken on the lattice after the first sampling sweep |
| Simulation.SampleIndex | src/main.rs:127 | a step `i` with `i % MAGN_CALC_STEP == 0` takes sample number `i / MAGN_CALC_STEP` |
| Simulation.TotalsAppend | src/main.rs:130-133 | adding a sample to the totals of a list of samples gives the totals of the list extended by that sample |
| Simulation.SampleStep | src/main.rs:126-133 | a sampling step adds the spin sum of the lattice its sweep leaves to the samples |
| Simulation.SkipStep | src/main.rs:126-135 | a step that is not a sampling step leaves the samples unchanged |
| Simulation.SamplingStep | src/main.rs:125-136 | one step of the fold moves the run from the lattice after sweep `i` with the samples below step `i` to the lattice after sweep `i + 1` with the samples below step `i + 1` |
| Simulation.SamplingPhaseSamples | src/main.rs:125-136 | the fold ends on the lattice after the last sweep, holding exactly the spin sums of the lattices left by the sampling steps' sweeps |
| Simulation.RunSamples | src/main.rs:118-136 | after `initial` equilibration sweeps, the accumulator of the sampling phase is the totals of its samples, one every `step` sweeps |
| Simulation.IterationSamples | src/main.rs:118-136 | with the constants of the source, those samples are `MAGN_STEPS` in number |
| Simulation.IterationConsistent | src/main.rs:118-142 | the accumulator of a run is consistent |
| Simulation.Iteration | src/main.rs:118-142 | a run holds exactly `MAGN_STEPS` samples, the divisor of the averages; its sums are the totals of `|S|` and `S^2` over the lattices left by sweeps `INITIAL_STEPS + k * MAGN_CALC_STEP` for `k < MAGN_STEPS`; and the accumulator is consistent |
| Parameters.Progression | src/main.rs:99-100 | the range holds `start + k * step` for each `k` below `(end - start) / step` rounded up, all below `end` |
| Parameters.IntRange | src/main.rs:99-100 | stepping fails exactly when the step is 0 (the `step_by` panic), and otherwise gives the progression |
| Parameters.BelowCeiling | src/main.rs:99-100 | `k` steps stay below the end exactly when `k` is below the rounded-up count |
| Parameters.ProgressionMembers | src/main.rs:99-100 | a value is in the range if and only if it lies in `[start, end)` and is a whole number of steps above `start` |
| Parameters.MemberIsStep | src/main.rs:99-100 | every member of the range lies in `[start, end)` and is a whole number of steps above `start` |
| Parameters.StepIsMember | src/main.rs:99-100 | every value of `[start, end)` a whole number of steps above `start` is in the range |
| Parameters.Temperatures | src/main.rs:106 | the temperature grid is 100, 105, ..., 495 hundredths: 80 values |
| Parameters.Point | src/main.rs:110-112 | a point carries its size and temperature and a table with the five keys; for physical weights the table holds probabilities |
| Parameters.Params | src/main.rs:107-115 | the product has `|sizes| * |temps|` points |
| Parameters.ParamsOrder | src/main.rs:107-115 | size-major order: size `i` with temperature `j` sits at `i * |temps| + j` |
| Parameters.ParamsAt | src/main.rs:107-115 | position `p` holds size `p / |temps|` with temperature `p % |temps|` |
| Parameters.ParamsCoordinates | src/main.rs:107-115 | position `p` holds size `p / |temps|` and temperature `p % |temps|` |
| Parameters.ParamsDistinctAt | src/main.rs:107-115 | for duplicate-free grids, two positions with the same pair are the same position |
| Parameters.ParamsExactlyOnce | src/main.rs:105-116 | every point pairs a grid size with a grid temperature, every pair occurs, and no pair occurs twice |
| Parameters.GetParams | src/main.rs:105-116 | 320 points; point `p` has size `LATTICE_SIZES[p / 80]` and temperature `100 + 5 * (p % 80)` hundredths |
| Parameters.GridPointAt | src/main.rs:105-116 | the same statement for one position of the concrete grids |

## Left out

- Random number generation (`rand::random`, `thread_rng().gen_bool`).
  Every draw is an input function. The model does not state that the
  draws are independent or have the requested probabilities.
- Floating point:
  - the values of `exp(±4/T)` and `exp(±8/T)`, which are inputs;
  - the `f64` division in `get_magnetization`;
  - the `f64` sums and the final magnetization/susceptibility arithmetic
    in `iteration`, replaced by exact integer sums of `|S|` and `S^2`,
    where `S` is the spin sum;
  - the `* 0.01` rescaling in `get_float_range`.
- The casts `(MIN_TEMP * 100.0) as i32`, `(MAX_TEMP * 100.0) as i32` and
  `(TEMP_STEP * 100.0) as usize` are taken to give 100, 500 and 5.
- Transition.TransitionTable: the probabilities are stated only for
  weights with the orderings `exp` gives at a positive temperature
  (`PhysicalWeights`), not for the concrete exponentials.
- Simulation.Iteration: it returns the integer accumulator and not the two
  `f64` estimates; `Consistent` states the facts those estimates rest on.
- Metropolis.RecalcLattice: the method works on a copy and returns it,
  instead of mutating the caller's vector. The random generator's state is
  abstracted by the cell index (and, within a run, by the sweep number).
  Its own contract says it computes `Sweep`; the cell-by-cell description
  of `Sweep` is stated by `Metropolis.SweepInRasterOrder`.
- `usize` overflow of `size * size` and of the neighbour arithmetic for
  sizes near `2^32` is not modelled. Indices are unbounded naturals, and
  the lattice sizes used are 6, 15, 40 and 70.
- Parallel execution with rayon (`par_iter`), the progress bar behind
  `Arc<Mutex<...>>`, timing and emoji output, and writing the results
  file in `main` (src/main.rs:144-181): concurrency and I/O. The parallel
  sum in `get_magnetization` is modelled as a sequential sum, which gives
  the same integer.
- `plots.py` holds only plotting, with no logic to model.
