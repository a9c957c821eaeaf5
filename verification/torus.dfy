/** Periodic neighbour lookup on a row-major `size x size` grid
    (`get_adjacent_indices`). Cell `index` sits at row `index / size` and
    column `index % size`; the grid wraps in both directions, so it is a
    torus. */
module Torus {
  import opened Arithmetic

  function Row(index: nat, size: nat): nat
    requires size > 0
  {
    index / size
  }

  function Col(index: nat, size: nat): nat
    requires size > 0
  {
    index % size
  }

  /** The preceding row or column on a ring of `size` positions. */
  function Pred(c: nat, size: nat): nat
    requires size > 0
  {
    (c + size - 1) % size
  }

  /** The following row or column on a ring of `size` positions. */
  function Succ(c: nat, size: nat): nat
    requires size > 0
  {
    (c + 1) % size
  }

  lemma RowBound(index: nat, size: nat)
    requires size > 0 && index < size * size
    ensures Row(index, size) < size
  {
    if index / size >= size {
      DivModUnique(index, size, index / size, index % size);
      MulMonotone(size, index / size, size);
    }
  }

  /** A cell whose row lies on the grid is on the grid. */
  lemma IndexBound(index: nat, size: nat)
    requires size > 0 && Row(index, size) < size
    ensures index < size * size
  {
    var q, c := index / size, index % size;
    assert index == q * size + c;
    MulMonotone(q + 1, size, size);
    assert (q + 1) * size == q * size + size;
  }

  /** The left neighbour; `LeftMove` states where it lies. */
  function Left(index: nat, size: nat): (r: nat)
    requires size > 0
    ensures index < size * size ==> r < size * size
  {
    LeftIsTorusMove(index, size);
    if index % size == 0 then index + size - 1 else index - 1
  }

  /** The right neighbour; `RightMove` states where it lies. */
  function Right(index: nat, size: nat): (r: nat)
    requires size > 0
    ensures index < size * size ==> r < size * size
  {
    RightIsTorusMove(index, size);
    if index % size == size - 1 then index + 1 - size else index + 1
  }

  /** The top neighbour; `TopMove` states where it lies. */
  function Top(index: nat, size: nat): (r: nat)
    requires size > 0
    ensures index < size * size ==> r < size * size
  {
    TopIsTorusMove(index, size);
    var bottomLeft := size * size - size;
    if index < size then index + bottomLeft else index - size
  }

  /** The bottom neighbour; `BottomMove` states where it lies. */
  function Bottom(index: nat, size: nat): (r: nat)
    requires size > 0
    ensures index < size * size ==> r < size * size
  {
    BottomIsTorusMove(index, size);
    var bottomLeft := size * size - size;
    if index >= bottomLeft then index - bottomLeft else index + size
  }

  lemma LeftIsTorusMove(index: nat, size: nat)
    requires size > 0
    ensures var r := if index % size == 0 then index + size - 1 else index - 1;
      && r >= 0
      && Row(r, size) == Row(index, size)
      && Col(r, size) == Pred(Col(index, size), size)
      && (index < size * size ==> r < size * size)
  {
    var q, c := index / size, index % size;
    assert index == q * size + c;
    var r := if c == 0 then index + size - 1 else index - 1;
    if c == 0 {
      DivModUnique(r, size, q, size - 1);
      DivModUnique(size - 1, size, 0, size - 1);
    } else {
      DivModUnique(r, size, q, c - 1);
      DivModUnique(c + size - 1, size, 1, c - 1);
    }
    if index < size * size {
      RowBound(index, size);
      IndexBound(r, size);
    }
  }

  lemma RightIsTorusMove(index: nat, size: nat)
    requires size > 0
    ensures var r := if index % size == size - 1 then index + 1 - size else index + 1;
      && r >= 0
      && Row(r, size) == Row(index, size)
      && Col(r, size) == Succ(Col(index, size), size)
      && (index < size * size ==> r < size * size)
  {
    var q, c := index / size, index % size;
    assert index == q * size + c;
    var r := if c == size - 1 then index + 1 - size else index + 1;
    if c == size - 1 {
      DivModUnique(r, size, q, 0);
      DivModUnique(size, size, 1, 0);
    } else {
      DivModUnique(r, size, q, c + 1);
      DivModUnique(c + 1, size, 0, c + 1);
    }
    if index < size * size {
      RowBound(index, size);
      IndexBound(r, size);
    }
  }

  /** The left neighbour stays in the row and moves one column back,
      wrapping from column 0 to column `size - 1`. */
  lemma LeftMove(index: nat, size: nat)
    requires size > 0
    ensures Row(Left(index, size), size) == Row(index, size)
    ensures Col(Left(index, size), size) == Pred(Col(index, size), size)
  {
    LeftIsTorusMove(index, size);
  }

  /** The right neighbour stays in the row and moves one column on,
      wrapping from column `size - 1` to column 0. */
  lemma RightMove(index: nat, size: nat)
    requires size > 0
    ensures Row(Right(index, size), size) == Row(index, size)
    ensures Col(Right(index, size), size) == Succ(Col(index, size), size)
  {
    RightIsTorusMove(index, size);
  }

  /** The top neighbour stays in the column and, for a cell on the grid,
      moves one row up, wrapping from row 0 to row `size - 1`. */
  lemma TopMove(index: nat, size: nat)
    requires size > 0
    ensures Col(Top(index, size), size) == Col(index, size)
    ensures index < size * size ==> Row(Top(index, size), size) == Pred(Row(index, size), size)
  {
    TopIsTorusMove(index, size);
  }

  /** The bottom neighbour stays in the column and, for a cell on the grid,
      moves one row down, wrapping from row `size - 1` to row 0. */
  lemma BottomMove(index: nat, size: nat)
    requires size > 0
    ensures Col(Bottom(index, size), size) == Col(index, size)
    ensures index < size * size ==> Row(Bottom(index, size), size) == Succ(Row(index, size), size)
  {
    BottomIsTorusMove(index, size);
  }

  /** `get_adjacent_indices`: the four neighbours in the order
      [left, top, right, bottom]. */
  function AdjacentIndices(index: nat, size: nat): (r: seq<nat>)
    requires size > 0
    ensures |r| == 4
    ensures index < size * size ==> forall k :: 0 <= k < 4 ==> r[k] < size * size
  {
    [Left(index, size), Top(index, size), Right(index, size), Bottom(index, size)]
  }

  /** A cell is determined by its row and column. */
  lemma SameCell(a: nat, b: nat, size: nat)
    requires size > 0 && Row(a, size) == Row(b, size) && Col(a, size) == Col(b, size)
    ensures a == b
  {
    assert a == (a / size) * size + a % size;
    assert b == (b / size) * size + b % size;
  }

  lemma RingSteps(c: nat, size: nat)
    requires c < size
    ensures Pred(c, size) == if c == 0 then size - 1 else c - 1
    ensures Succ(c, size) == if c == size - 1 then 0 else c + 1
    ensures Pred(c, size) < size && Succ(c, size) < size
  {
    if c == 0 {
      DivModUnique(c + size - 1, size, 0, size - 1);
    } else {
      DivModUnique(c + size - 1, size, 1, c - 1);
    }
    if c == size - 1 {
      DivModUnique(c + 1, size, 1, 0);
    } else {
      DivModUnique(c + 1, size, 0, c + 1);
    }
  }

  /** All four moves of one cell at once. */
  lemma Moves(index: nat, size: nat)
    requires size > 0
    ensures Row(Left(index, size), size) == Row(index, size) == Row(Right(index, size), size)
    ensures Col(Left(index, size), size) == Pred(Col(index, size), size)
    ensures Col(Right(index, size), size) == Succ(Col(index, size), size)
    ensures Col(Top(index, size), size) == Col(index, size) == Col(Bottom(index, size), size)
    ensures index < size * size ==> Row(Top(index, size), size) == Pred(Row(index, size), size)
    ensures index < size * size ==> Row(Bottom(index, size), size) == Succ(Row(index, size), size)
  {
    LeftMove(index, size);
    RightMove(index, size);
    TopMove(index, size);
    BottomMove(index, size);
  }

  /** Stepping left and then right (or right and then left) returns to the
      starting cell. */
  lemma {:induction false} LeftRightInverse(index: nat, size: nat)
    requires size > 0 && index < size * size
    ensures Right(Left(index, size), size) == index
    ensures Left(Right(index, size), size) == index
  {
    var c := Col(index, size);
    LeftMove(index, size);
    RightMove(index, size);
    RightMove(Left(index, size), size);
    LeftMove(Right(index, size), size);
    RingSteps(c, size);
    RingSteps(Pred(c, size), size);
    RingSteps(Succ(c, size), size);
    SameCell(Right(Left(index, size), size), index, size);
    SameCell(Left(Right(index, size), size), index, size);
  }

  /** Stepping up and then down (or down and then up) returns to the
      starting cell. */
  lemma {:induction false} TopBottomInverse(index: nat, size: nat)
    requires size > 0 && index < size * size
    ensures Bottom(Top(index, size), size) == index
    ensures Top(Bottom(index, size), size) == index
  {
  }

  /** On a grid at least three cells wide the four neighbours are four
      different cells, none of them the cell itself. */
  lemma {:induction false} NeighboursDistinct(index: nat, size: nat)
    requires size >= 3 && index < size * size
    ensures var a := AdjacentIndices(index, size);
      forall i, j :: 0 <= i < j < 4 ==> a[i] != a[j]
    ensures forall i :: 0 <= i < 4 ==> AdjacentIndices(index, size)[i] != index
  {
  }

  /** On grids one or two cells wide left and right coincide, and so do top
      and bottom; on a single cell every neighbour is the cell itself. */
  lemma {:induction false} SmallGridNeighboursCoincide(index: nat, size: nat)
    requires 1 <= size <= 2 && index < size * size
    ensures Left(index, size) == Right(index, size)
    ensures Top(index, size) == Bottom(index, size)
    ensures size == 1 ==> Left(index, size) == index && Top(index, size) == index
  {
  }

  /** The horizontal neighbours are different cells exactly when the grid is
      at least three cells wide. */
  lemma LeftRightDistinctIff(index: nat, size: nat)
    requires size > 0 && index < size * size
    ensures Left(index, size) != Right(index, size) <==> size >= 3
  {
    if size >= 3 {
      NeighboursDistinct(index, size);
    } else {
      SmallGridNeighboursCoincide(index, size);
    }
  }

  lemma TopIsTorusMove(index: nat, size: nat)
    requires size > 0
    ensures size * size - size >= 0
    ensures var r := if index < size then index + (size * size - size) else index - size;
      && r >= 0
      && Col(r, size) == Col(index, size)
      && (index < size * size ==> r < size * size && Row(r, size) == Pred(Row(index, size), size))
  {
    assert size * size - size == (size - 1) * size;
    if index < size {
      TopWraps(index, size);
    } else {
      TopSteps(index, size);
    }
  }

  lemma TopWraps(index: nat, size: nat)
    requires index < size
    ensures var r := index + (size - 1) * size;
      && Col(r, size) == Col(index, size)
      && r < size * size && Row(r, size) == Pred(Row(index, size), size)
  {
    var bottomLeft := (size - 1) * size;
    DivModUnique(index, size, 0, index);
    DivModUnique(index + bottomLeft, size, size - 1, index);
    RingSteps(0, size);
    IndexBound(index + bottomLeft, size);
  }

  lemma TopSteps(index: nat, size: nat)
    requires 0 < size <= index
    ensures var r := index - size;
      && Col(r, size) == Col(index, size)
      && (index < size * size ==> Row(r, size) == Pred(Row(index, size), size))
  {
    var q, c := index / size, index % size;
    DivModDecompose(index, size);
    MulCancel(0, q, size);
    DivModUnique(index - size, size, q - 1, c);
    if index < size * size {
      RowBound(index, size);
      RingSteps(q, size);
    }
  }

  lemma BottomIsTorusMove(index: nat, size: nat)
    requires size > 0
    ensures size * size - size >= 0
    ensures var r := if index >= size * size - size then index - (size * size - size) else index + size;
      && r >= 0
      && Col(r, size) == Col(index, size)
      && (index < size * size ==> r < size * size && Row(r, size) == Succ(Row(index, size), size))
  {
    assert size * size - size == (size - 1) * size;
    if index >= size * size - size {
      BottomWraps(index, size);
    } else {
      BottomSteps(index, size);
    }
  }

  lemma BottomWraps(index: nat, size: nat)
    requires size > 0 && index >= (size - 1) * size
    ensures var r := index - (size - 1) * size;
      && Col(r, size) == Col(index, size)
      && (index < size * size ==> r < size * size && Row(r, size) == Succ(Row(index, size), size))
  {
    var q, c := index / size, index % size;
    DivModDecompose(index, size);
    var bottomLeft := (size - 1) * size;
    assert (q + 1) * size == q * size + size;
    MulCancel(size - 1, q + 1, size);
    assert index - bottomLeft == (q - (size - 1)) * size + c;
    DivModUnique(index - bottomLeft, size, q - (size - 1), c);
    if index < size * size {
      RowBound(index, size);
      RingSteps(size - 1, size);
      IndexBound(index - bottomLeft, size);
    }
  }

  lemma BottomSteps(index: nat, size: nat)
    requires size > 0 && index < (size - 1) * size
    ensures var r := index + size;
      && Col(r, size) == Col(index, size)
      && r < size * size && Row(r, size) == Succ(Row(index, size), size)
  {
    var q, c := index / size, index % size;
    DivModDecompose(index, size);
    MulCancel(q, size - 1, size);
    DivModUnique(index + size, size, q + 1, c);
    RingSteps(q, size);
    IndexBound(index + size, size);
  }
}
