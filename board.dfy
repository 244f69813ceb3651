/** Cells, labels and the 8-neighbourhood geometry shared by the whole engine. */
module Board {
  import opened Config

  datatype Option<T> = None | Some(value: T)

  /** A board coordinate `(row, col)`. */
  datatype Cell = Cell(row: int, col: int)

  /** A cell label: a colour name, "EMPTY" or "UNKNOWN". */
  type Label = string

  /** A board snapshot, indexed `board[row][col]`. */
  type Grid = seq<seq<Label>>

  /** `is_valid_position`: the coordinate lies on the configured board. */
  predicate IsValidPosition(row: int, col: int) {
    0 <= row < GridRows && 0 <= col < GridCols
  }

  /** `IsValidPosition` read on a `Cell`, the form the rest of the model uses. */
  predicate InBounds(c: Cell) {
    IsValidPosition(c.row, c.col)
  }

  /** The snapshot covers the configured board, so every valid position can be
      read; rows and columns beyond it are never looked at. */
  predicate WellFormed(board: Grid) {
    |board| >= GridRows && forall r :: 0 <= r < GridRows ==> |board[r]| >= GridCols
  }

  function At(board: Grid, c: Cell): Label
    requires WellFormed(board) && InBounds(c)
  {
    board[c.row][c.col]
  }

  /** A label that can belong to a group: anything but "UNKNOWN" and "EMPTY". */
  predicate IsColour(l: Label) {
    l != "UNKNOWN" && l != "EMPTY"
  }

  /** The neighbour of `c` in direction number `d` of the direction table. */
  function Step(c: Cell, d: int): Cell
    requires 0 <= d < |Directions|
  {
    Cell(c.row + Directions[d].0, c.col + Directions[d].1)
  }

  /** Distinct directions lead to distinct neighbours. */
  lemma StepInjective(c: Cell, d: int, e: int)
    requires 0 <= d < |Directions| && 0 <= e < |Directions|
    requires Step(c, d) == Step(c, e)
    ensures d == e
  {
  }

  function Abs(x: int): nat {
    if x < 0 then -x else x
  }

  /** 8-adjacency as the path checker states it: at most one apart in row and in
      column, and not the same cell. */
  predicate Adjacent(a: Cell, b: Cell) {
    var dr, dc := Abs(a.row - b.row), Abs(a.col - b.col);
    dr <= 1 && dc <= 1 && dr + dc > 0
  }

  /** Position of a cell in the row-major scan of the board. */
  function RowMajor(c: Cell): int {
    c.row * GridCols + c.col
  }

  /** The set of cells of a list of cells (Python's `set(group)`). */
  function Elems(s: seq<Cell>): set<Cell> {
    set x | x in s
  }

  predicate Distinct(s: seq<Cell>) {
    forall i, j :: 0 <= i < j < |s| ==> s[i] != s[j]
  }

  /** Every position of the board. */
  ghost function AllCells(): set<Cell> {
    set r, c | 0 <= r < GridRows && 0 <= c < GridCols :: Cell(r, c)
  }

  /** The direction opposite to direction `d`. */
  function Opposite(d: int): (e: int)
    requires 0 <= d < |Directions|
    ensures 0 <= e < |Directions|
    ensures Directions[e].0 == -Directions[d].0 && Directions[e].1 == -Directions[d].1
  {
    [1, 0, 3, 2, 7, 6, 5, 4][d]
  }

  /** Stepping in one direction and then in the opposite one returns to the start. */
  lemma StepBack(c: Cell, d: int)
    requires 0 <= d < |Directions|
    ensures Step(Step(c, d), Opposite(d)) == c
  {
  }

  /** Every entry of the direction table is an 8-adjacent move. */
  lemma StepIsAdjacent(c: Cell, d: int)
    requires 0 <= d < |Directions|
    ensures Adjacent(c, Step(c, d))
  {
    if d == 0 {} else if d == 1 {} else if d == 2 {} else if d == 3 {}
    else if d == 4 {} else if d == 5 {} else if d == 6 {} else {}
  }

  /** Conversely, every 8-adjacent cell is reached by some entry of the direction table. */
  lemma AdjacentIsStep(a: Cell, b: Cell)
    requires Adjacent(a, b)
    ensures exists d :: 0 <= d < |Directions| && b == Step(a, d)
  {
    var dr, dc := b.row - a.row, b.col - a.col;
    var d :=
      if dr == -1 && dc == 0 then 0
      else if dr == 1 && dc == 0 then 1
      else if dr == 0 && dc == -1 then 2
      else if dr == 0 && dc == 1 then 3
      else if dr == -1 && dc == -1 then 4
      else if dr == -1 && dc == 1 then 5
      else if dr == 1 && dc == -1 then 6
      else 7;
    assert b == Step(a, d);
  }

  /** The direction table describes exactly the 8-neighbourhood. */
  lemma AdjacentIffStep(a: Cell, b: Cell)
    ensures Adjacent(a, b) <==> exists d :: 0 <= d < |Directions| && b == Step(a, d)
  {
    if Adjacent(a, b) {
      AdjacentIsStep(a, b);
    }
    if exists d :: 0 <= d < |Directions| && b == Step(a, d) {
      var d :| 0 <= d < |Directions| && b == Step(a, d);
      StepIsAdjacent(a, d);
    }
  }

  /** A list of distinct cells has as many elements as its set. */
  lemma {:induction false} DistinctCard(s: seq<Cell>)
    requires Distinct(s)
    ensures |Elems(s)| == |s|
  {
    if s != [] {
      var t := s[..|s| - 1];
      DistinctCard(t);
      assert Elems(s) == Elems(t) + {s[|s| - 1]};
      assert s[|s| - 1] !in Elems(t);
    }
  }

  /** A list never has more distinct cells than elements. */
  lemma {:induction false} ElemsCard(s: seq<Cell>)
    ensures |Elems(s)| <= |s|
  {
    if s != [] {
      var t := s[..|s| - 1];
      ElemsCard(t);
      assert Elems(s) == Elems(t) + {s[|s| - 1]};
    }
  }

  lemma ElemsConcat(a: seq<Cell>, b: seq<Cell>)
    ensures Elems(a + b) == Elems(a) + Elems(b)
  {
  }

  lemma DistinctConcat(a: seq<Cell>, b: seq<Cell>)
    requires Distinct(a) && Distinct(b)
    requires forall i :: 0 <= i < |b| ==> b[i] !in Elems(a)
    ensures Distinct(a + b)
  {
    forall i, j | 0 <= i < j < |a + b|
      ensures (a + b)[i] != (a + b)[j]
    {
      if j >= |a| && i < |a| {
        assert (a + b)[i] in Elems(a);
      }
    }
  }
}
