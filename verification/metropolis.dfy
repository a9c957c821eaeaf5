/** One Metropolis sweep over the lattice (`recalc_lattice`): cells are
    visited in raster order `0 .. size * size`, each visit reads the lattice
    as already updated by the earlier visits, and an accepted flip negates
    the spin in place. */
module Metropolis {
  import opened Arithmetic
  import opened Lattice
  import opened Torus
  import opened Transition

  /** The Bernoulli draw `gen_bool(p)` made at cell `index` of a sweep; the
      random generator's state is abstracted by the cell index. */
  type Bernoulli = (nat, real) -> bool

  /** A draw that, like `gen_bool(1.0)`, always accepts a certain flip. */
  ghost predicate HonoursCertainty(draw: Bernoulli) {
    forall index: nat :: draw(index, 1.0)
  }

  /** Four neighbour indices per cell of a lattice of `cells` cells, all on
      the lattice. */
  predicate NeighbourTable(nb: seq<seq<nat>>, cells: nat) {
    |nb| == cells && forall k :: 0 <= k < cells ==> |nb[k]| == 4 && forall j :: 0 <= j < 4 ==> nb[k][j] < cells
  }

  /** The neighbour lists of cells `0 .. count` of a `size x size` torus, in
      cell order. */
  function NeighbourRows(size: nat, count: nat): (nb: seq<seq<nat>>)
    requires size > 0 && count <= size * size
    ensures |nb| == count
    ensures forall k :: 0 <= k < count ==> |nb[k]| == 4 && forall j :: 0 <= j < 4 ==> nb[k][j] < size * size
  {
    if count == 0 then [] else NeighbourRows(size, count - 1) + [AdjacentIndices(count - 1, size)]
  }

  /** The neighbour lists `get_adjacent_indices` returns for every cell of a
      `size x size` torus. */
  function TorusNeighbours(size: nat): (nb: seq<seq<nat>>)
    ensures NeighbourTable(nb, size * size)
  {
    if size == 0 then [] else NeighbourRows(size, size * size)
  }

  /** Entry `index` of the lists is the result of `get_adjacent_indices`. */
  lemma {:induction false} NeighbourRowsAt(size: nat, count: nat, index: nat)
    requires size > 0 && index < count <= size * size
    ensures NeighbourRows(size, count)[index] == AdjacentIndices(index, size)
  {
    if index < count - 1 {
      NeighbourRowsAt(size, count - 1, index);
    }
  }

  lemma TorusNeighboursAt(size: nat, index: nat)
    requires index < size * size
    ensures size > 0 && TorusNeighbours(size)[index] == AdjacentIndices(index, size)
  {
    PositiveFactor(size, size);
    NeighbourRowsAt(size, size * size, index);
  }

  /** The spins of the four neighbours of `index`, ordered as the table
      lists them ([left, top, right, bottom] on the torus). */
  function NeighbourSpins(l: seq<int>, nb: seq<seq<nat>>, index: nat): (s: seq<int>)
    requires AllSpins(l) && NeighbourTable(nb, |l|) && index < |l|
    ensures |s| == 4 && AllSpins(s)
  {
    [l[nb[index][0]], l[nb[index][1]], l[nb[index][2]], l[nb[index][3]]]
  }

  /** The energy change of flipping the spin at `index`: twice the spin times
      the sum of its neighbours, computed in `i8` without overflow, and
      always a key of the transition table. */
  function EnergyChange(l: seq<int>, nb: seq<seq<nat>>, index: nat): (e: int)
    requires AllSpins(l) && NeighbourTable(nb, |l|) && index < |l|
    ensures e in TransitionKeys
    ensures e == 2 * l[index] * Sum(NeighbourSpins(l, nb, index))
  {
    CheckedEnergyChange(l[index], NeighbourSpins(l, nb, index)).value
  }

  /** Whether the draw accepts flipping the spin at `index` of `l`
      (`gen_bool(trans_map[&energy_change])`). A draw that rejects every
      probability at this cell never accepts, and a flip of probability 1
      is accepted by a draw that accepts certainty at this cell. */
  function Accepts(l: seq<int>, nb: seq<seq<nat>>, table: map<int, real>, draw: Bernoulli, index: nat): (b: bool)
    requires AllSpins(l) && NeighbourTable(nb, |l|) && ProbabilityTable(table) && index < |l|
    ensures (forall p: real :: !draw(index, p)) ==> !b
    ensures draw(index, 1.0) && table[EnergyChange(l, nb, index)] == 1.0 ==> b
  {
    draw(index, table[EnergyChange(l, nb, index)])
  }

  /** One visit: negate the spin at `index` if the draw accepts the flip.
      No other cell changes. */
  function Visit(l: seq<int>, nb: seq<seq<nat>>, table: map<int, real>, draw: Bernoulli, index: nat): (l': seq<int>)
    requires AllSpins(l) && NeighbourTable(nb, |l|) && ProbabilityTable(table) && index < |l|
    ensures |l'| == |l| && AllSpins(l')
    ensures forall k :: 0 <= k < |l| && k != index ==> l'[k] == l[k]
    ensures l'[index] == l[index] || l'[index] == -l[index]
  {
    if Accepts(l, nb, table, draw, index) then l[index := -l[index]] else l
  }

  /** The first `count` visits, as a left fold over cells `0 .. count`.
      Cells from `count` on are still untouched and every cell holds its
      value or its negation. */
  function SweepUpTo(l: seq<int>, nb: seq<seq<nat>>, table: map<int, real>, draw: Bernoulli, count: nat): (l': seq<int>)
    requires AllSpins(l) && NeighbourTable(nb, |l|) && ProbabilityTable(table) && count <= |l|
    ensures |l'| == |l| && AllSpins(l')
    ensures l'[count..] == l[count..]
    ensures forall k :: 0 <= k < |l| ==> l'[k] == l[k] || l'[k] == -l[k]
  {
    if count == 0 then l
    else
      var prev := SweepUpTo(l, nb, table, draw, count - 1);
      var next := Visit(prev, nb, table, draw, count - 1);
      assert next[count..] == prev[count..];
      next
  }

  /** The whole sweep on a `size x size` torus: every cell visited once, in
      raster order. It keeps the lattice invariant and changes each spin at
      most by negation. */
  function Sweep(l: seq<int>, size: nat, table: map<int, real>, draw: Bernoulli): (l': seq<int>)
    requires ValidLattice(l, size) && ProbabilityTable(table)
    ensures ValidLattice(l', size)
    ensures forall k :: 0 <= k < |l| ==> l'[k] == l[k] || l'[k] == -l[k]
  {
    SweepUpTo(l, TorusNeighbours(size), table, draw, |l|)
  }

  /** A draw that never accepts leaves every prefix fold, and so the whole
      sweep, equal to the original lattice. */
  lemma {:induction false} RejectingSweepKeepsLattice(l: seq<int>, nb: seq<seq<nat>>, table: map<int, real>,
                                                      draw: Bernoulli, count: nat)
    requires AllSpins(l) && NeighbourTable(nb, |l|) && ProbabilityTable(table) && count <= |l|
    requires forall k: nat, p: real :: !draw(k, p)
    ensures SweepUpTo(l, nb, table, draw, count) == l
  {
    if count > 0 {
      RejectingSweepKeepsLattice(l, nb, table, draw, count - 1);
      assert SweepUpTo(l, nb, table, draw, count) == Visit(l, nb, table, draw, count - 1);
      assert !Accepts(l, nb, table, draw, count - 1);
    }
  }

  /** The draw that follows a fixed list of accept/reject decisions, one
      per cell, ignoring the probability; cells past the list reject. */
  function Decisions(d: seq<bool>): Bernoulli {
    (index: nat, p: real) => index < |d| && d[index]
  }

  /** With a fixed decision list the first `count` visits negate exactly the
      cells below `count` whose decision is true. */
  lemma {:induction false} DecidedSweep(l: seq<int>, nb: seq<seq<nat>>, table: map<int, real>,
                                        d: seq<bool>, count: nat)
    requires AllSpins(l) && NeighbourTable(nb, |l|) && ProbabilityTable(table) && count <= |l|
    ensures forall k :: 0 <= k < |l| ==>
      SweepUpTo(l, nb, table, Decisions(d), count)[k] == if k < count && k < |d| && d[k] then -l[k] else l[k]
  {
    if count > 0 {
      DecidedSweep(l, nb, table, d, count - 1);
      var prev := SweepUpTo(l, nb, table, Decisions(d), count - 1);
      assert SweepUpTo(l, nb, table, Decisions(d), count) == Visit(prev, nb, table, Decisions(d), count - 1);
      assert Accepts(prev, nb, table, Decisions(d), count - 1) == (count - 1 < |d| && d[count - 1]);
    }
  }

  /** The lattice as the sweep sees it on reaching cell `index`: cells before
      `index` already visited, the others still original. */
  function MidSweep(swept: seq<int>, original: seq<int>, index: nat): (l: seq<int>)
    requires AllSpins(swept) && AllSpins(original) && |swept| == |original| && index <= |original|
    ensures |l| == |original| && AllSpins(l)
  {
    swept[..index] + original[index..]
  }

  /** Cells before `index` each hold their original value, negated exactly
      when the draw accepted the flip as seen on reaching that cell. */
  ghost predicate SequentialUpTo(swept: seq<int>, lattice: seq<int>, nb: seq<seq<nat>>, table: map<int, real>,
                                 draw: Bernoulli, index: nat)
    requires AllSpins(swept) && AllSpins(lattice) && |swept| == |lattice| && NeighbourTable(nb, |lattice|)
    requires ProbabilityTable(table) && index <= |lattice|
  {
    forall k :: 0 <= k < index ==>
      swept[k] == if Accepts(MidSweep(swept, lattice, k), nb, table, draw, k)
                  then -lattice[k] else lattice[k]
  }

  /** A visit at `index` leaves the view of every cell up to `index`
      unchanged. */
  lemma VisitKeepsEarlierViews(swept: seq<int>, next: seq<int>, lattice: seq<int>, index: nat)
    requires AllSpins(swept) && AllSpins(next) && AllSpins(lattice)
    requires |swept| == |lattice| && |next| == |lattice| && index < |lattice|
    requires forall k :: 0 <= k < |lattice| && k != index ==> next[k] == swept[k]
    ensures forall k :: 0 <= k <= index ==> MidSweep(next, lattice, k) == MidSweep(swept, lattice, k)
  {
    forall k | 0 <= k <= index
      ensures MidSweep(next, lattice, k) == MidSweep(swept, lattice, k)
    {
      assert next[..k] == swept[..k];
    }
  }

  /** Visiting cell `index` of a half-swept lattice extends the sequential
      description by one cell. */
  lemma VisitExtendsSequential(swept: seq<int>, lattice: seq<int>, nb: seq<seq<nat>>, table: map<int, real>,
                               draw: Bernoulli, index: nat)
    requires AllSpins(swept) && AllSpins(lattice) && |swept| == |lattice| && NeighbourTable(nb, |lattice|)
    requires ProbabilityTable(table)
    requires index < |lattice| && swept[index..] == lattice[index..]
    requires SequentialUpTo(swept, lattice, nb, table, draw, index)
    ensures var next := Visit(swept, nb, table, draw, index);
      next[index + 1..] == lattice[index + 1..] && SequentialUpTo(next, lattice, nb, table, draw, index + 1)
  {
    var next := Visit(swept, nb, table, draw, index);
    assert swept[index] == lattice[index];
    assert MidSweep(swept, lattice, index) == swept;
    VisitKeepsEarlierViews(swept, next, lattice, index);
    assert next[index + 1..] == swept[index + 1..];
  }

  /** The first `count` visits of the fold satisfy the sequential
      description: each visited cell is negated exactly when the draw
      accepted it as seen on reaching it. */
  lemma {:induction false} SweepIsSequential(l: seq<int>, nb: seq<seq<nat>>, table: map<int, real>,
                                             draw: Bernoulli, count: nat)
    requires AllSpins(l) && NeighbourTable(nb, |l|) && ProbabilityTable(table) && count <= |l|
    ensures SequentialUpTo(SweepUpTo(l, nb, table, draw, count), l, nb, table, draw, count)
  {
    if count > 0 {
      SweepIsSequential(l, nb, table, draw, count - 1);
      VisitExtendsSequential(SweepUpTo(l, nb, table, draw, count - 1), l, nb, table, draw, count - 1);
    }
  }

  /** A whole sweep of the torus, cell by cell: cell `k` ends negated exactly
      when the draw accepted the flip at the energy change of the lattice as
      already updated for the cells before `k`. */
  lemma SweepInRasterOrder(l: seq<int>, size: nat, table: map<int, real>, draw: Bernoulli)
    requires ValidLattice(l, size) && ProbabilityTable(table)
    ensures var swept := Sweep(l, size, table, draw);
      forall k :: 0 <= k < |l| ==>
        swept[k] == if Accepts(MidSweep(swept, l, k), TorusNeighbours(size), table, draw, k)
                    then -l[k] else l[k]
  {
    SweepIsSequential(l, TorusNeighbours(size), table, draw, |l|);
  }

  /** What the sequential description of a finished sweep implies for draws
      that never accept and for draws that honour certainty. */
  lemma SequentialConsequences(swept: seq<int>, lattice: seq<int>, nb: seq<seq<nat>>, table: map<int, real>,
                               draw: Bernoulli)
    requires AllSpins(swept) && AllSpins(lattice) && |swept| == |lattice| && NeighbourTable(nb, |lattice|)
    requires ProbabilityTable(table)
    requires SequentialUpTo(swept, lattice, nb, table, draw, |lattice|)
    ensures (forall k: nat, p: real :: !draw(k, p)) ==> swept == lattice
    ensures HonoursCertainty(draw) ==>
      forall k :: 0 <= k < |lattice| ==>
        (table[EnergyChange(MidSweep(swept, lattice, k), nb, k)] == 1.0 ==> swept[k] == -lattice[k])
  {
    if forall k: nat, p: real :: !draw(k, p) {
      assert forall k :: 0 <= k < |lattice| ==> swept[k] == lattice[k];
    }
  }

  /** A sweep under a draw that never accepts is the identity; under a draw
      that honours certainty, every cell whose flip has probability 1 at the
      moment it is visited is flipped. */
  lemma SweepLimits(l: seq<int>, size: nat, table: map<int, real>, draw: Bernoulli)
    requires ValidLattice(l, size) && ProbabilityTable(table)
    ensures (forall k: nat, p: real :: !draw(k, p)) ==> Sweep(l, size, table, draw) == l
    ensures var swept := Sweep(l, size, table, draw);
      HonoursCertainty(draw) ==>
        forall k :: 0 <= k < |l| ==>
          (table[EnergyChange(MidSweep(swept, l, k), TorusNeighbours(size), k)] == 1.0 ==> swept[k] == -l[k])
  {
    var nb := TorusNeighbours(size);
    SweepIsSequential(l, nb, table, draw, |l|);
    SequentialConsequences(Sweep(l, size, table, draw), l, nb, table, draw);
  }

  /** The energy change at one cell as the loop body of `recalc_lattice`
      computes it: neighbour indices from `get_adjacent_indices`, their spins
      summed in `i8`, times twice the cell's spin. */
  method CellEnergyChange(l: seq<int>, size: nat, index: nat) returns (e: int)
    requires ValidLattice(l, size) && index < |l|
    ensures e == EnergyChange(l, TorusNeighbours(size), index)
    ensures e in TransitionKeys
  {
    var a := AdjacentIndices(index, size);
    TorusNeighboursAt(size, index);
    var checked := CheckedEnergyChange(l[index], [l[a[0]], l[a[1]], l[a[2]], l[a[3]]]);
    e := checked.value;
  }

  /** One iteration of the loop in `recalc_lattice`: draw with the table's
      probability for the cell's energy change and negate the spin if the
      draw accepts. It performs exactly one `Visit`. */
  method VisitCell(l: seq<int>, size: nat, table: map<int, real>, draw: Bernoulli, index: nat)
    returns (next: seq<int>)
    requires ValidLattice(l, size) && ProbabilityTable(table) && index < |l|
    ensures next == Visit(l, TorusNeighbours(size), table, draw, index)
  {
    var spin := l[index];
    var energyChange := CellEnergyChange(l, size, index);
    next := l;
    if draw(index, table[energyChange]) {
      next := l[index := -spin];
    }
  }

  /** `recalc_lattice`, in place on a local copy. It computes the raster
      order fold `Sweep`, whose cell-by-cell behaviour `SweepInRasterOrder`
      states. A draw that never accepts leaves the lattice as it was, and one
      that honours certainty flips every cell whose flip has probability 1
      at the moment it is visited. */
  method RecalcLattice(lattice: seq<int>, size: nat, table: map<int, real>, draw: Bernoulli)
    returns (swept: seq<int>)
    requires ValidLattice(lattice, size) && ProbabilityTable(table)
    ensures swept == Sweep(lattice, size, table, draw)
    ensures ValidLattice(swept, size)
    ensures (forall k: nat, p: real :: !draw(k, p)) ==> swept == lattice
    ensures HonoursCertainty(draw) ==>
      forall k :: 0 <= k < |lattice| ==>
        (table[EnergyChange(MidSweep(swept, lattice, k), TorusNeighbours(size), k)] == 1.0 ==> swept[k] == -lattice[k])
  {
    ghost var nb := TorusNeighbours(size);
    swept := lattice;
    var cells := size * size;
    var index := 0;
    while index < cells
      invariant 0 <= index <= cells == |lattice|
      invariant swept == SweepUpTo(lattice, nb, table, draw, index)
    {
      swept := VisitCell(swept, size, table, draw, index);
      index := index + 1;
    }
    SweepLimits(lattice, size, table, draw);
  }
}
