/** The energy change of a single spin flip, computed in 8-bit arithmetic,
    and the transition table it indexes (`get_trans_map`). */
module Transition {
  import opened Wrappers
  import opened Lattice

  /** The keys of the transition table: the five possible energy changes. */
  const TransitionKeys: set<int> := {-8, -4, 0, 4, 8}

  /** Values representable as `i8`. */
  predicate InI8(x: int) {
    -128 <= x <= 127
  }

  /** `i8` addition and multiplication; `None` is the overflow panic. */
  function CheckedAdd(a: int, b: int): Option<int> {
    if InI8(a + b) then Some(a + b) else None
  }

  function CheckedMul(a: int, b: int): Option<int> {
    if InI8(a * b) then Some(a * b) else None
  }

  /** `Iterator::sum::<i8>`: a left fold of checked additions starting at 0.
      When it does not overflow it is the integer sum, and four (indeed up to
      127) spins never overflow. */
  function CheckedSum(s: seq<int>): (r: Option<int>)
    ensures r.Some? ==> r.value == Sum(s)
    ensures AllSpins(s) && |s| <= 127 ==> r.Some?
  {
    if |s| == 0 then Some(0)
    else
      match CheckedSum(s[..|s| - 1])
      case None => None
      case Some(partial) => CheckedAdd(partial, s[|s| - 1])
  }

  /** `2 * spin * sum(neighbours)` in `i8` arithmetic. For a spin with four
      neighbouring spins it never overflows and always lands on a key of the
      transition table, so the table lookup cannot fail. */
  function CheckedEnergyChange(spin: int, neighbours: seq<int>): (r: Option<int>)
    ensures r.Some? ==> r.value == 2 * spin * Sum(neighbours)
    ensures IsSpin(spin) && |neighbours| == 4 && AllSpins(neighbours) ==>
      r.Some? && r.value in TransitionKeys
  {
    match CheckedMul(2, spin)
    case None => None
    case Some(twice) =>
      match CheckedSum(neighbours)
      case None => None
      case Some(total) => CheckedMul(twice, total)
  }

  /** Every key of the transition table is the energy change of some
      configuration, so the table holds no unreachable entry. */
  lemma KeysAreReachable(key: int)
    requires key in TransitionKeys
    ensures exists neighbours ::
      (|neighbours| == 4 && AllSpins(neighbours) && CheckedEnergyChange(1, neighbours) == Some(key))
  {
    var n: seq<int> :=
      if key == -8 then [-1, -1, -1, -1]
      else if key == -4 then [1, -1, -1, -1]
      else if key == 0 then [1, 1, -1, -1]
      else if key == 4 then [1, 1, 1, -1]
      else [1, 1, 1, 1];
    assert Sum(n[..1]) == n[0] by {
      assert n[..1][..0] == [];
    }
    assert Sum(n[..2]) == n[0] + n[1] by {
      assert n[..2][..1] == n[..1];
    }
    assert Sum(n[..3]) == n[0] + n[1] + n[2] by {
      assert n[..3][..2] == n[..2];
    }
    assert Sum(n) == n[0] + n[1] + n[2] + n[3] by {
      assert n[..3] == n[..|n| - 1];
    }
    assert CheckedEnergyChange(1, n) == Some(key);
  }

  /** The exponentials `exp(-dE / T)` for the four non-zero energy changes
      `dE` at one temperature `T`, taken as given reals. */
  datatype Boltzmann = Boltzmann(minus8: real, minus4: real, plus4: real, plus8: real)

  /** The ordering `exp` gives these weights when `T > 0`: positive, at least
      1 for a negative energy change, at most 1 for a positive one, and
      decreasing in the energy change. */
  predicate PhysicalWeights(w: Boltzmann) {
    0.0 < w.plus8 <= w.plus4 <= 1.0 <= w.minus4 <= w.minus8
  }

  /** `f64::min(x, 1.0)`. */
  function MinOne(x: real): real {
    if x < 1.0 then x else 1.0
  }

  /** A table that the sweep may index with any energy change and whose
      entries are valid Bernoulli probabilities. */
  predicate ProbabilityTable(t: map<int, real>) {
    TransitionKeys <= t.Keys && forall k :: k in t ==> 0.0 <= t[k] <= 1.0
  }

  /** `get_trans_map`: the Metropolis acceptance probability for each energy
      change. Its keys are exactly the reachable energy changes; with physical
      weights every entry is a probability, every flip that does not raise
      the energy is certain, and the probability never grows with the energy
      change. */
  function TransitionTable(w: Boltzmann): (t: map<int, real>)
    ensures t.Keys == TransitionKeys
    ensures forall k :: k in t ==> t[k] <= 1.0
    ensures PhysicalWeights(w) ==> ProbabilityTable(t)
    ensures PhysicalWeights(w) ==> forall k :: k in t && k <= 0 ==> t[k] == 1.0
    ensures PhysicalWeights(w) ==>
      forall j, k :: j in t && k in t && j <= k ==> t[k] <= t[j]
  {
    map[-8 := MinOne(w.minus8), -4 := MinOne(w.minus4), 0 := 1.0,
        4 := MinOne(w.plus4), 8 := MinOne(w.plus8)]
  }
}
