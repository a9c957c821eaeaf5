/** The spin lattice: a row-major sequence of `size * size` spins, each +1
    or -1 (`Vec<i8>` in the simulation). */
module Lattice {

  predicate IsSpin(x: int) {
    x == 1 || x == -1
  }

  predicate AllSpins(s: seq<int>) {
    forall k :: 0 <= k < |s| ==> IsSpin(s[k])
  }

  /** The lattice invariant: the right length, and nothing but spins. */
  predicate ValidLattice(l: seq<int>, size: nat) {
    |l| == size * size && AllSpins(l)
  }

  /** `generate_lattice`: one spin per cell, +1 exactly where the cell's coin
      came up true. The random coins are supplied by the caller. */
  function GenerateLattice(size: nat, coin: nat -> bool): (l: seq<int>)
    ensures ValidLattice(l, size)
    ensures forall k :: 0 <= k < |l| ==> (l[k] == 1 <==> coin(k))
  {
    seq(size * size, k requires 0 <= k => if coin(k) then 1 else -1)
  }

  /** The integer sum of a sequence, added left to right. A sum of spins is
      bounded by their number and has the same parity. */
  function Sum(s: seq<int>): (r: int)
    ensures AllSpins(s) ==> -|s| <= r <= |s| && (r + |s|) % 2 == 0
  {
    if |s| == 0 then 0 else Sum(s[..|s| - 1]) + s[|s| - 1]
  }
}
