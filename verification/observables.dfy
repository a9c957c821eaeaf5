/** The integer core of `get_magnetization`: the spin sum whose absolute
    value, divided by the number of sites, is the magnetization per site. */
module Observables {
  import opened Lattice

  function Abs(x: int): nat {
    if x < 0 then -x else x
  }

  /** All spins equal. */
  predicate Aligned(l: seq<int>) {
    forall i, j :: 0 <= i < |l| && 0 <= j < |l| ==> l[i] == l[j]
  }

  /** The spin sum counts up-spins minus down-spins. */
  lemma {:induction false} SumCountsSpins(l: seq<int>)
    requires AllSpins(l)
    ensures Sum(l) == multiset(l)[1] as int - multiset(l)[-1] as int
  {
    if |l| > 0 {
      var init := l[..|l| - 1];
      SumCountsSpins(init);
      assert l == init + [l[|l| - 1]];
      assert multiset(l) == multiset(init) + multiset{l[|l| - 1]};
    }
  }

  /** The spin sum is the full count with sign exactly when every spin is
      up, respectively down. */
  lemma {:induction false} ExtremeSums(l: seq<int>)
    requires AllSpins(l)
    ensures Sum(l) == |l| <==> forall k :: 0 <= k < |l| ==> l[k] == 1
    ensures Sum(l) == -|l| <==> forall k :: 0 <= k < |l| ==> l[k] == -1
  {
    if |l| > 0 {
      var init := l[..|l| - 1];
      ExtremeSums(init);
      assert forall k :: 0 <= k < |init| ==> init[k] == l[k];
    }
  }

  /** The magnetization numerator `|sum of spins|` of a lattice of `N`
      spins lies in `[0, N]`, so the magnetization lies in `[0, 1]`; it
      reaches `N` (magnetization 1) exactly on an aligned lattice, and is
      zero exactly when up- and down-spins are equally many. The `i32` sum
      in `get_magnetization` cannot overflow for any lattice shorter than 2^31. */
  function MagnetizationNumerator(l: seq<int>): (m: nat)
    requires AllSpins(l)
    ensures m <= |l|
    ensures m == |l| <==> Aligned(l)
    ensures m == 0 <==> multiset(l)[1] == multiset(l)[-1]
    ensures |l| < 0x8000_0000 ==> -0x8000_0000 <= Sum(l) < 0x8000_0000
  {
    SumCountsSpins(l);
    ExtremeSums(l);
    Abs(Sum(l))
  }
}
