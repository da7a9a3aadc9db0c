// The serpentine wiring of the 5x5 matrix: grid position (column, row) to buffer index.

module Matrix {

  /** Columns and rows of the matrix. */
  const Width: int := 5

  predicate OnGrid(x: int, y: int)
  {
    0 <= x < Width && 0 <= y < Width
  }

  /** getIndex: even rows are numbered one way, odd rows the other, and the whole strip is
      numbered backwards from 24 so that (0, 0) is the last LED. `y % 2 == 0` holds for the
      same rows whether `%` truncates (C) or is Euclidean (Dafny), so the branch is the same
      for every y. */
  function GetIndex(x: int, y: int): (index: int)
    ensures OnGrid(x, y) ==> 0 <= index < Width * Width
  {
    if y % 2 == 0 then 24 - (y * 5 + x) else 24 - (y * 5 + (4 - x))
  }

  /** Grid position of a buffer index: the inverse of GetIndex. */
  function Position(index: int): (p: (int, int))
    requires 0 <= index < Width * Width
    ensures OnGrid(p.0, p.1)
  {
    var y := (24 - index) / Width;
    var offset := (24 - index) % Width;
    (if y % 2 == 0 then offset else Width - 1 - offset, y)
  }

  /** Position undoes GetIndex on the grid. */
  lemma PositionOfIndex(x: int, y: int)
    requires OnGrid(x, y)
    ensures Position(GetIndex(x, y)) == (x, y)
  {
  }

  /** GetIndex undoes Position on 0..24. */
  lemma IndexOfPosition(index: int)
    requires 0 <= index < Width * Width
    ensures GetIndex(Position(index).0, Position(index).1) == index
  {
  }

  /** Distinct grid positions get distinct indices. */
  lemma GetIndexInjective(x1: int, y1: int, x2: int, y2: int)
    requires OnGrid(x1, y1) && OnGrid(x2, y2)
    requires GetIndex(x1, y1) == GetIndex(x2, y2)
    ensures x1 == x2 && y1 == y2
  {
    PositionOfIndex(x1, y1);
    PositionOfIndex(x2, y2);
  }

  /** Every index 0..24 is reached from exactly one grid position. */
  lemma GetIndexBijective(index: int)
    requires 0 <= index < Width * Width
    ensures exists x, y :: OnGrid(x, y) && GetIndex(x, y) == index
    ensures forall x, y :: OnGrid(x, y) && GetIndex(x, y) == index ==> (x, y) == Position(index)
  {
    IndexOfPosition(index);
    var p := Position(index);
    assert OnGrid(p.0, p.1) && GetIndex(p.0, p.1) == index;
    forall x, y | OnGrid(x, y) && GetIndex(x, y) == index
      ensures (x, y) == Position(index)
    {
      PositionOfIndex(x, y);
    }
  }

  /** Corner and row-end values of the wiring. */
  lemma GetIndexValues()
    ensures GetIndex(0, 0) == 24 && GetIndex(4, 0) == 20
    ensures GetIndex(0, 1) == 15 && GetIndex(4, 1) == 19
    ensures GetIndex(0, 4) == 4 && GetIndex(4, 4) == 0
  {
  }

  /** Along an even row the index falls by one per column. */
  lemma EvenRowStep(x: int, y: int)
    requires 0 <= x < Width - 1 && 0 <= y < Width && y % 2 == 0
    ensures GetIndex(x + 1, y) == GetIndex(x, y) - 1
  {
  }

  /** Along an odd row the index rises by one per column. */
  lemma OddRowStep(x: int, y: int)
    requires 0 <= x < Width - 1 && 0 <= y < Width && y % 2 == 1
    ensures GetIndex(x + 1, y) == GetIndex(x, y) + 1
  {
  }

  /** The strip turns at the end of each row: the last LED of row y (column 4 for even rows,
      column 0 for odd ones) is followed on the strip by the LED in the same column one row down. */
  lemma RowTurn(y: int)
    requires 0 <= y < Width - 1
    ensures var x := if y % 2 == 0 then Width - 1 else 0;
      GetIndex(x, y + 1) == GetIndex(x, y) - 1
  {
  }
}
