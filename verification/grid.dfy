/**
 * The board model: two marks, three cell values and a 3x3 grid of cells.
 * A board is an immutable value, so every move produces a new board and
 * the board it was made from can never change.
 */
module Grid {

  /** The two player marks; X always moves first. */
  datatype Mark = X | O

  /** A cell is empty or holds one mark. */
  datatype Cell = Empty | Marked(mark: Mark)

  /** Three rows of three cells each. */
  predicate IsGrid(g: seq<seq<Cell>>) {
    |g| == 3 && |g[0]| == 3 && |g[1]| == 3 && |g[2]| == 3
  }

  type Board = g: seq<seq<Cell>> | IsGrid(g)
    witness [[Empty, Empty, Empty], [Empty, Empty, Empty], [Empty, Empty, Empty]]

  /** A move target (row, column); any pair of integers, so that moves off the grid can be rejected. */
  type Action = (int, int)

  predicate InGrid(a: Action) {
    0 <= a.0 < 3 && 0 <= a.1 < 3
  }

  /** The starting board: every cell empty. */
  function Initial(): Board {
    [[Empty, Empty, Empty], [Empty, Empty, Empty], [Empty, Empty, Empty]]
  }

  /** The number of cells of `row` holding `c`. */
  function CountInRow(row: seq<Cell>, c: Cell): (n: nat)
    ensures n <= |row|
  {
    if row == [] then 0
    else CountInRow(row[..|row| - 1], c) + (if row[|row| - 1] == c then 1 else 0)
  }

  /** The number of cells of the board holding `c`, summed row by row. */
  function Count(b: Board, c: Cell): (n: nat)
    ensures n <= 9
  {
    CountInRow(b[0], c) + CountInRow(b[1], c) + CountInRow(b[2], c)
  }

  /** The number of empty cells: the measure that every move decreases. */
  function EmptyCount(b: Board): nat {
    Count(b, Empty)
  }

  /** The board equal to `b` except that cell `a` holds `c`. */
  function Set(b: Board, a: Action, c: Cell): (r: Board)
    requires InGrid(a)
    ensures r[a.0][a.1] == c
    ensures forall i, j :: 0 <= i < 3 && 0 <= j < 3 && (i, j) != a ==> r[i][j] == b[i][j]
  {
    b[a.0 := b[a.0][a.1 := c]]
  }

  function Indicator(p: bool): nat {
    if p then 1 else 0
  }

  /** The starting board holds nine empty cells and no marks. */
  lemma InitialCounts()
    ensures EmptyCount(Initial()) == 9
    ensures Count(Initial(), Marked(X)) == 0 && Count(Initial(), Marked(O)) == 0
  {
    EmptyRowCount(Empty);
    EmptyRowCount(Marked(X));
    EmptyRowCount(Marked(O));
  }

  lemma EmptyRowCount(c: Cell)
    ensures CountInRow([Empty, Empty, Empty], c) == if c == Empty then 3 else 0
  {
    var one, two, three := [Empty], [Empty, Empty], [Empty, Empty, Empty];
    var n := Indicator(c == Empty);
    assert one[..0] == [];
    assert CountInRow(one, c) == n;
    assert two[..1] == one;
    assert CountInRow(two, c) == 2 * n;
    assert three[..2] == two;
    assert CountInRow(three, c) == 3 * n;
  }

  /** Overwriting one cell of a row moves one unit of count from its old value to its new one. */
  lemma {:induction false} CountInRowUpdate(row: seq<Cell>, j: nat, v: Cell, c: Cell)
    requires j < |row|
    ensures CountInRow(row[j := v], c) + Indicator(row[j] == c) == CountInRow(row, c) + Indicator(v == c)
    decreases |row|
  {
    var n := |row| - 1;
    var row' := row[j := v];
    if j == n {
      assert row'[..n] == row[..n];
    } else {
      assert row'[..n] == row[..n][j := v];
      CountInRowUpdate(row[..n], j, v, c);
    }
  }

  /** Overwriting one cell of the board moves one unit of count from its old value to its new one. */
  lemma CountAfterSet(b: Board, a: Action, v: Cell, c: Cell)
    requires InGrid(a)
    ensures Count(Set(b, a, v), c) + Indicator(b[a.0][a.1] == c) == Count(b, c) + Indicator(v == c)
  {
    CountInRowUpdate(b[a.0], a.1, v, c);
  }
}
