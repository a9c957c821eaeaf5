/** The parameter grid (`get_float_range`, `get_params`). Temperatures are
    handled in hundredths, the integers `get_float_range` steps through
    before it rescales them by 0.01. */
module Parameters {
  import opened Wrappers
  import opened Arithmetic
  import opened Transition

  /** `MIN_TEMP`, `MAX_TEMP` and `TEMP_STEP` scaled by 100. */
  const MinTempHundredths: int := 100
  const MaxTempHundredths: int := 500
  const TempStepHundredths: nat := 5

  const LatticeSizes: seq<nat> := [6, 15, 40, 70]

  /** `step_by(0)` panics. */
  datatype RangeError = ZeroStep

  /** `start, start + step, ...` while below `end`: exactly the values
      `start + k * step`, strictly increasing, all below `end`, and
      `(end - start) / step` rounded up of them. */
  function Progression(start: int, end: int, step: nat): (r: seq<int>)
    requires step > 0
    ensures |r| == if start < end then (end - start + step - 1) / step else 0
    ensures forall k :: 0 <= k < |r| ==> r[k] == start + k * step && r[k] < end
    decreases if start < end then end - start else 0
  {
    if start >= end then []
    else
      var rest := Progression(start + step, end, step);
      var d := end - start;
      if d <= step then
        DivModUnique(d + step - 1, step, 1, d - 1);
        assert |rest| == 0;
        [start]
      else
        DivModUnique(d + step - 1, step, (d - 1) / step + 1, (d - 1) % step);
        DivModUnique(d - step + step - 1, step, (d - 1) / step, (d - 1) % step);
        assert forall k :: 1 <= k < |rest| + 1 ==> start + k * step == start + step + (k - 1) * step;
        [start] + rest
  }

  /** `(start..end).step_by(step)` on `i32`, as scaled integers. */
  function IntRange(start: int, end: int, step: nat): (r: Result<seq<int>, RangeError>)
    ensures r.Failure? <==> step == 0
    ensures r.Success? ==> r.value == Progression(start, end, step)
  {
    if step == 0 then Failure(ZeroStep) else Success(Progression(start, end, step))
  }

  /** `k` whole steps stay below `d` exactly when `k` is below the
      rounded-up quotient. */
  lemma BelowCeiling(k: nat, d: int, step: nat)
    requires step > 0
    ensures k * step < d <==> k < (d + step - 1) / step
  {
    var n, r := (d + step - 1) / step, (d + step - 1) % step;
    assert d + step - 1 == n * step + r && 0 <= r < step;
    assert (k + 1) * step == k * step + step;
    if k * step < d {
      MulCancel(k, n, step);
    }
    if k < n {
      MulMonotone(k + 1, n, step);
    }
  }

  /** Membership in a progression: exactly the values in `[start, end)`
      that are a whole number of steps above `start`. */
  lemma ProgressionMembers(start: int, end: int, step: nat, x: int)
    requires step > 0
    ensures x in Progression(start, end, step) <==> start <= x < end && (x - start) % step == 0
  {
    if x in Progression(start, end, step) {
      MemberIsStep(start, end, step, x);
    }
    if start <= x < end && (x - start) % step == 0 {
      StepIsMember(start, end, step, x);
    }
  }

  lemma MemberIsStep(start: int, end: int, step: nat, x: int)
    requires step > 0 && x in Progression(start, end, step)
    ensures start <= x < end && (x - start) % step == 0
  {
    var r := Progression(start, end, step);
    var k :| 0 <= k < |r| && r[k] == x;
    assert x - start == k * step + 0;
    DivModUnique(x - start, step, k, 0);
  }

  lemma StepIsMember(start: int, end: int, step: nat, x: int)
    requires step > 0 && start <= x < end && (x - start) % step == 0
    ensures x in Progression(start, end, step)
  {
    var r := Progression(start, end, step);
    var k := (x - start) / step;
    DivModDecompose(x - start, step);
    assert x == start + k * step;
    BelowCeiling(k, end - start, step);
    assert r[k] == x;
  }

  /** The temperature grid: 1.00 to 4.95 in steps of 0.05, eighty values
      (in hundredths: 100, 105, ..., 495). */
  function Temperatures(): (temps: seq<int>)
    ensures |temps| == 80
    ensures temps[0] == 100 && temps[79] == 495
    ensures forall k :: 0 <= k < |temps| ==> temps[k] == 100 + 5 * k
  {
    IntRange(MinTempHundredths, MaxTempHundredths, TempStepHundredths).value
  }

  /** One simulation's parameters: lattice size, temperature in hundredths,
      and the transition table for that temperature. */
  datatype ParameterPoint = ParameterPoint(size: nat, temp: int, table: map<int, real>)

  /** The point for `size` and `temp`; `weights` supplies the exponentials
      of the temperature's transition table. */
  function Point(size: nat, temp: int, weights: int -> Boltzmann): (r: ParameterPoint)
    ensures r.size == size && r.temp == temp
    ensures r.table.Keys == TransitionKeys
    ensures PhysicalWeights(weights(temp)) ==> ProbabilityTable(r.table)
  {
    ParameterPoint(size, temp, TransitionTable(weights(temp)))
  }

  /** The flat map of `sizes` over `temps`: all temperatures for the first
      size, then all for the next, and so on. */
  function Params(sizes: seq<nat>, temps: seq<int>, weights: int -> Boltzmann): (r: seq<ParameterPoint>)
    ensures |r| == |sizes| * |temps|
  {
    if |sizes| == 0 then []
    else
      var row := seq(|temps|, j requires 0 <= j < |temps| => Point(sizes[0], temps[j], weights));
      assert |sizes| * |temps| == |temps| + (|sizes| - 1) * |temps|;
      row + Params(sizes[1..], temps, weights)
  }

  /** Size-major order: the point for size `i` and temperature `j` sits at
      position `i * |temps| + j`. */
  lemma {:induction false} ParamsOrder(sizes: seq<nat>, temps: seq<int>, weights: int -> Boltzmann, i: nat, j: nat)
    requires i < |sizes| && j < |temps|
    ensures i * |temps| + j < |Params(sizes, temps, weights)|
    ensures Params(sizes, temps, weights)[i * |temps| + j] == Point(sizes[i], temps[j], weights)
  {
    MulMonotone(i + 1, |sizes|, |temps|);
    assert (i + 1) * |temps| == i * |temps| + |temps|;
    if i > 0 {
      ParamsOrder(sizes[1..], temps, weights, i - 1, j);
      assert i * |temps| + j == |temps| + ((i - 1) * |temps| + j);
    }
  }

  predicate NoDuplicates<T(==)>(s: seq<T>) {
    forall i, j :: 0 <= i < j < |s| ==> s[i] != s[j]
  }

  /** Reading a position back as (size index, temperature index). */
  lemma ParamsAt(sizes: seq<nat>, temps: seq<int>, weights: int -> Boltzmann, p: nat)
    requires p < |Params(sizes, temps, weights)|
    ensures |temps| > 0 && p / |temps| < |sizes|
    ensures Params(sizes, temps, weights)[p] == Point(sizes[p / |temps|], temps[p % |temps|], weights)
  {
    var n := |temps|;
    QuotientBound(p, |sizes|, n);
    DivModDecompose(p, n);
    var i, j := p / n, p % n;
    ParamsOrder(sizes, temps, weights, i, j);
    assert i * n + j == p;
  }

  lemma QuotientBound(p: nat, rows: nat, n: nat)
    requires p < rows * n
    ensures n > 0 && p / n < rows
  {
    PositiveFactor(rows, n);
    DivModDecompose(p, n);
    MulCancel(p / n, rows, n);
  }

  /** The size and temperature stored at position `p`. */
  lemma ParamsCoordinates(sizes: seq<nat>, temps: seq<int>, weights: int -> Boltzmann, p: nat)
    requires p < |Params(sizes, temps, weights)|
    ensures |temps| > 0 && p / |temps| < |sizes|
    ensures Params(sizes, temps, weights)[p].size == sizes[p / |temps|]
    ensures Params(sizes, temps, weights)[p].temp == temps[p % |temps|]
  {
    ParamsAt(sizes, temps, weights, p);
  }

  /** Two positions holding the same (size, temperature) pair coincide. */
  lemma ParamsDistinctAt(sizes: seq<nat>, temps: seq<int>, weights: int -> Boltzmann, p: nat, q: nat)
    requires NoDuplicates(sizes) && NoDuplicates(temps)
    requires p < |Params(sizes, temps, weights)| && q < |Params(sizes, temps, weights)|
    requires Params(sizes, temps, weights)[p].size == Params(sizes, temps, weights)[q].size
    requires Params(sizes, temps, weights)[p].temp == Params(sizes, temps, weights)[q].temp
    ensures p == q
  {
    var n := |temps|;
    ParamsCoordinates(sizes, temps, weights, p);
    ParamsCoordinates(sizes, temps, weights, q);
    var i, j, i', j' := p / n, p % n, q / n, q % n;
    assert sizes[i] == sizes[i'] && temps[j] == temps[j'];
    assert i == i' && j == j';
    DivModDecompose(p, n);
    DivModDecompose(q, n);
  }

  /** Every (size, temperature) pair of the grids occurs, exactly once, and
      nothing else does. */
  lemma ParamsExactlyOnce(sizes: seq<nat>, temps: seq<int>, weights: int -> Boltzmann)
    requires NoDuplicates(sizes) && NoDuplicates(temps)
    ensures var r := Params(sizes, temps, weights);
      && (forall p :: 0 <= p < |r| ==> r[p].size in sizes && r[p].temp in temps)
      && (forall i, j :: 0 <= i < |sizes| && 0 <= j < |temps| ==> Point(sizes[i], temps[j], weights) in r)
      && (forall p, q :: 0 <= p < q < |r| ==> (r[p].size, r[p].temp) != (r[q].size, r[q].temp))
  {
    var r := Params(sizes, temps, weights);
    forall p | 0 <= p < |r|
      ensures r[p].size in sizes && r[p].temp in temps
    {
      ParamsAt(sizes, temps, weights, p);
    }
    forall i, j | 0 <= i < |sizes| && 0 <= j < |temps|
      ensures Point(sizes[i], temps[j], weights) in r
    {
      ParamsOrder(sizes, temps, weights, i, j);
    }
    forall p, q | 0 <= p < q < |r|
      ensures (r[p].size, r[p].temp) != (r[q].size, r[q].temp)
    {
      if r[p].size == r[q].size && r[p].temp == r[q].temp {
        ParamsDistinctAt(sizes, temps, weights, p, q);
      }
    }
  }

  /** `get_params`: the four lattice sizes times the eighty temperatures,
      320 points in size-major order, each pair once. */
  function GetParams(weights: int -> Boltzmann): (r: seq<ParameterPoint>)
    ensures |r| == 320
    ensures forall p :: 0 <= p < |r| ==>
      r[p] == Point(LatticeSizes[p / 80], 100 + 5 * (p % 80), weights)
  {
    var r := Params(LatticeSizes, Temperatures(), weights);
    assert forall p :: 0 <= p < |r| ==>
      r[p] == Point(LatticeSizes[p / 80], 100 + 5 * (p % 80), weights) by {
      forall p | 0 <= p < |r|
        ensures r[p] == Point(LatticeSizes[p / 80], 100 + 5 * (p % 80), weights)
      {
        GridPointAt(weights, p);
      }
    }
    r
  }

  lemma GridPointAt(weights: int -> Boltzmann, p: nat)
    requires p < 320
    ensures p / 80 < 4
    ensures Params(LatticeSizes, Temperatures(), weights)[p] ==
      Point(LatticeSizes[p / 80], 100 + 5 * (p % 80), weights)
  {
    var temps := Temperatures();
    ParamsAt(LatticeSizes, temps, weights, p);
    var j := p % 80;
    assert temps[j] == 100 + 5 * j;
  }
}
