/**
 * The rules of the game: whose turn it is, which moves are legal, what a
 * move produces, who has won, when the game is over and how it is scored.
 */
module Rules {
  import opened Grid
  import Wrappers

  /** The single way a move can fail. */
  datatype Error = InvalidMove

  /** The mark that moves next: X unless X has already placed more marks than O. */
  function Player(b: Board): (m: Mark)
    ensures Balanced(b) ==> (m == X <==> Count(b, Marked(X)) == Count(b, Marked(O)))
  {
    if Count(b, Marked(X)) <= Count(b, Marked(O)) then X else O
  }

  /** A board reachable by alternating play: X is level with O or one ahead. */
  predicate Balanced(b: Board) {
    Count(b, Marked(X)) == Count(b, Marked(O)) || Count(b, Marked(X)) == Count(b, Marked(O)) + 1
  }

  /** The legal moves: every on-grid coordinate whose cell is empty. */
  function Actions(b: Board): set<Action> {
    set i, j | 0 <= i < 3 && 0 <= j < 3 && b[i][j] == Empty :: (i, j)
  }

  /** Membership in `Actions`, stated cell by cell. */
  lemma ActionsMembership(b: Board, a: Action)
    ensures a in Actions(b) <==> InGrid(a) && b[a.0][a.1] == Empty
  {
    if InGrid(a) && b[a.0][a.1] == Empty {
      var (i, j) := a;
      assert (i, j) in Actions(b);
    }
  }

  /** The empty cells of row `i` among its first `n` columns. */
  function FreeInRow(b: Board, i: int, n: int): set<Action>
    requires 0 <= i < 3 && 0 <= n <= 3
  {
    set j | 0 <= j < n && b[i][j] == Empty :: (i, j)
  }

  /** The number of empty cells of row `i` among its first `n` columns equals the number of its legal moves there. */
  lemma {:induction false} FreeInRowCard(b: Board, i: int, n: int)
    requires 0 <= i < 3 && 0 <= n <= 3
    ensures |FreeInRow(b, i, n)| == CountInRow(b[i][..n], Empty)
    decreases n
  {
    if n == 0 {
      assert FreeInRow(b, i, n) == {};
      assert b[i][..n] == [];
    } else {
      FreeInRowCard(b, i, n - 1);
      FreeInRowStep(b, i, n);
      assert b[i][..n][..n - 1] == b[i][..n - 1];
    }
  }

  /** Widening the prefix by one column adds that column's cell when it is empty. */
  lemma FreeInRowStep(b: Board, i: int, n: int)
    requires 0 <= i < 3 && 0 < n <= 3
    ensures |FreeInRow(b, i, n)| == |FreeInRow(b, i, n - 1)| + Indicator(b[i][n - 1] == Empty)
  {
    assert (i, n - 1) !in FreeInRow(b, i, n - 1);
    if b[i][n - 1] == Empty {
      assert FreeInRow(b, i, n) == FreeInRow(b, i, n - 1) + {(i, n - 1)};
    } else {
      assert FreeInRow(b, i, n) == FreeInRow(b, i, n - 1);
    }
  }

  /** The legal moves, split by row. */
  lemma ActionsByRow(b: Board)
    ensures Actions(b) == FreeInRow(b, 0, 3) + FreeInRow(b, 1, 3) + FreeInRow(b, 2, 3)
  {
    forall a | a in Actions(b) ensures a in FreeInRow(b, 0, 3) + FreeInRow(b, 1, 3) + FreeInRow(b, 2, 3) {
      ActionsMembership(b, a);
    }
  }

  /** There are exactly as many legal moves as empty cells. */
  lemma {:induction false} ActionsCountEmptyCells(b: Board)
    ensures |Actions(b)| == EmptyCount(b)
  {
    var r0, r1, r2 := FreeInRow(b, 0, 3), FreeInRow(b, 1, 3), FreeInRow(b, 2, 3);
    FreeInRowCard(b, 0, 3);
    FreeInRowCard(b, 1, 3);
    FreeInRowCard(b, 2, 3);
    assert b[0][..3] == b[0] && b[1][..3] == b[1] && b[2][..3] == b[2];
    assert |r0| + |r1| + |r2| == EmptyCount(b);
    assert r0 * r1 == {};
    assert |r0 + r1| == |r0| + |r1|;
    assert (r0 + r1) * r2 == {};
    assert |r0 + r1 + r2| == |r0 + r1| + |r2|;
    ActionsByRow(b);
  }

  /** The legal moves on the starting board: all nine cells. */
  lemma InitialFacts()
    ensures |Actions(Initial())| == 9
    ensures Player(Initial()) == X
    ensures Balanced(Initial())
    ensures !Terminal(Initial())
  {
    InitialCounts();
    ActionsCountEmptyCells(Initial());
  }

  /** The empty cells of row `i`, left to right. */
  function RowActions(b: Board, i: int): seq<Action>
    requires 0 <= i < 3
  {
    (if b[i][0] == Empty then [(i, 0)] else [])
    + (if b[i][1] == Empty then [(i, 1)] else [])
    + (if b[i][2] == Empty then [(i, 2)] else [])
  }

  /** The legal moves listed in row-major order: the fixed order in which the search visits them. */
  function ActionList(b: Board): seq<Action> {
    RowActions(b, 0) + RowActions(b, 1) + RowActions(b, 2)
  }

  lemma RowActionsMembership(b: Board, i: int, a: Action)
    requires 0 <= i < 3
    ensures a in RowActions(b, i) <==> a.0 == i && 0 <= a.1 < 3 && b[i][a.1] == Empty
  {
    var s0: seq<Action> := if b[i][0] == Empty then [(i, 0)] else [];
    var s1: seq<Action> := if b[i][1] == Empty then [(i, 1)] else [];
    var s2: seq<Action> := if b[i][2] == Empty then [(i, 2)] else [];
    assert RowActions(b, i) == s0 + s1 + s2;
    assert a in RowActions(b, i) <==> a in s0 || a in s1 || a in s2;
  }

  /** The row-major list holds exactly the legal moves. */
  lemma ActionListIsActions(b: Board)
    ensures forall a :: a in ActionList(b) <==> a in Actions(b)
  {
    forall a ensures a in ActionList(b) <==> a in Actions(b) {
      ActionsMembership(b, a);
      RowActionsMembership(b, 0, a);
      RowActionsMembership(b, 1, a);
      RowActionsMembership(b, 2, a);
      assert a in ActionList(b) <==> a in RowActions(b, 0) || a in RowActions(b, 1) || a in RowActions(b, 2);
    }
  }

  /** Placing the mover's mark on a legal cell. */
  function Play(b: Board, a: Action): (r: Board)
    requires a in Actions(b)
    ensures EmptyCount(r) + 1 == EmptyCount(b)
  {
    ActionsMembership(b, a);
    CountAfterSet(b, a, Marked(Player(b)), Empty);
    Set(b, a, Marked(Player(b)))
  }

  /**
   * A legal move writes the mover's mark into the chosen cell and changes
   * nothing else: that cell leaves the legal moves, the mover gains one mark
   * and the other mark's count is unchanged.
   */
  lemma PlayChangesOneCell(b: Board, a: Action)
    requires a in Actions(b)
    ensures InGrid(a) && Play(b, a)[a.0][a.1] == Marked(Player(b))
    ensures forall i, j :: 0 <= i < 3 && 0 <= j < 3 && (i, j) != a ==> Play(b, a)[i][j] == b[i][j]
    ensures Actions(Play(b, a)) == Actions(b) - {a}
    ensures Count(Play(b, a), Marked(Player(b))) == Count(b, Marked(Player(b))) + 1
    ensures Count(Play(b, a), Marked(Other(Player(b)))) == Count(b, Marked(Other(Player(b))))
  {
    ActionsMembership(b, a);
    var r := Play(b, a);
    CountAfterSet(b, a, Marked(Player(b)), Marked(Player(b)));
    CountAfterSet(b, a, Marked(Player(b)), Marked(Other(Player(b))));
    forall a' ensures a' in Actions(r) <==> a' in Actions(b) - {a} {
      ActionsMembership(b, a');
      ActionsMembership(r, a');
    }
  }

  function Other(m: Mark): Mark {
    if m == X then O else X
  }

  /** A move: rejected with `InvalidMove` unless it names a legal cell, else the board after it. */
  function Result(b: Board, a: Action): (r: Wrappers.Result<Board, Error>)
    ensures r.Failure? <==> !InGrid(a) || b[a.0][a.1] != Empty
    ensures r.Success? ==> r.value == Play(b, a)
  {
    ActionsMembership(b, a);
    if a !in Actions(b) then Wrappers.Failure(InvalidMove)
    else Wrappers.Success(Play(b, a))
  }

  /** On a balanced board every legal move keeps the board balanced and hands the turn to the other mark. */
  lemma PlayAlternates(b: Board, a: Action)
    requires Balanced(b) && a in Actions(b)
    ensures Balanced(Play(b, a))
    ensures Player(Play(b, a)) == Other(Player(b))
  {
    PlayChangesOneCell(b, a);
  }

  /** Plays `moves` in order from the starting board, stopping at the first illegal one. */
  function Replay(moves: seq<Action>): Wrappers.Result<Board, Error> {
    if moves == [] then Wrappers.Success(Initial())
    else
      match Replay(moves[..|moves| - 1])
      case Failure(e) => Wrappers.Failure(e)
      case Success(b) => Result(b, moves[|moves| - 1])
  }

  /** Along any legal game X moves on even turns and O on odd ones, and each move fills one cell. */
  lemma {:induction false} ReplayAlternates(moves: seq<Action>)
    requires Replay(moves).Success?
    ensures Balanced(Replay(moves).value)
    ensures Player(Replay(moves).value) == if |moves| % 2 == 0 then X else O
    ensures EmptyCount(Replay(moves).value) + |moves| == 9
  {
    if moves == [] {
      InitialFacts();
      InitialCounts();
    } else {
      var n := |moves| - 1;
      var prefix, a := moves[..n], moves[n];
      assert Replay(prefix).Success?;
      ReplayAlternates(prefix);
      var b := Replay(prefix).value;
      assert Replay(moves) == Result(b, a);
      ActionsMembership(b, a);
      ReplayStep(b, a, n);
    }
  }

  /** The turn and the empty-cell count after one more legal move. */
  lemma ReplayStep(b: Board, a: Action, n: nat)
    requires a in Actions(b) && Balanced(b)
    requires Player(b) == (if n % 2 == 0 then X else O) && EmptyCount(b) + n == 9
    ensures Balanced(Play(b, a))
    ensures Player(Play(b, a)) == (if (n + 1) % 2 == 0 then X else O)
    ensures EmptyCount(Play(b, a)) + n + 1 == 9
  {
    PlayAlternates(b, a);
  }

  /** Row `i` is entirely `m`. */
  predicate RowHeld(b: Board, m: Mark, i: int)
    requires 0 <= i < 3
  {
    b[i][0] == Marked(m) && b[i][1] == Marked(m) && b[i][2] == Marked(m)
  }

  /** Column `i` is entirely `m`. */
  predicate ColumnHeld(b: Board, m: Mark, i: int)
    requires 0 <= i < 3
  {
    b[0][i] == Marked(m) && b[1][i] == Marked(m) && b[2][i] == Marked(m)
  }

  /** Some row, column or diagonal is entirely `m`. */
  predicate HasLine(b: Board, m: Mark) {
    || (exists i :: 0 <= i < 3 && (RowHeld(b, m, i) || ColumnHeld(b, m, i)))
    || (b[0][0] == Marked(m) && b[1][1] == Marked(m) && b[2][2] == Marked(m))
    || (b[0][2] == Marked(m) && b[1][1] == Marked(m) && b[2][0] == Marked(m))
  }

  /** The eight winning lines, written out cell by cell. */
  const Lines: seq<seq<Action>> := [
    [(0, 0), (0, 1), (0, 2)], [(1, 0), (1, 1), (1, 2)], [(2, 0), (2, 1), (2, 2)],
    [(0, 0), (1, 0), (2, 0)], [(0, 1), (1, 1), (2, 1)], [(0, 2), (1, 2), (2, 2)],
    [(0, 0), (1, 1), (2, 2)], [(0, 2), (1, 1), (2, 0)]
  ]

  /** Every cell of `line` holds `m`. */
  predicate Holds(b: Board, m: Mark, line: seq<Action>) {
    forall k :: 0 <= k < |line| ==> InGrid(line[k]) && b[line[k].0][line[k].1] == Marked(m)
  }

  /** `m` holds one of the eight winning lines. */
  predicate OwnsALine(b: Board, m: Mark) {
    exists k :: 0 <= k < |Lines| && Holds(b, m, Lines[k])
  }

  /** Line `k` of the table, read off the board. */
  lemma LineCells(b: Board, m: Mark, k: int)
    requires 0 <= k < |Lines|
    ensures Holds(b, m, Lines[k]) <==>
      var line := Lines[k];
      b[line[0].0][line[0].1] == Marked(m) && b[line[1].0][line[1].1] == Marked(m) && b[line[2].0][line[2].1] == Marked(m)
  {
  }

  lemma HasLineIsOwnsALine(b: Board, m: Mark)
    ensures HasLine(b, m) <==> OwnsALine(b, m)
  {
    if HasLine(b, m) {
      if exists i :: 0 <= i < 3 && (RowHeld(b, m, i) || ColumnHeld(b, m, i)) {
        var i :| 0 <= i < 3 && (RowHeld(b, m, i) || ColumnHeld(b, m, i));
        if RowHeld(b, m, i) {
          LineCells(b, m, i);
        } else {
          LineCells(b, m, 3 + i);
        }
      } else if b[0][0] == Marked(m) && b[1][1] == Marked(m) && b[2][2] == Marked(m) {
        LineCells(b, m, 6);
      } else {
        LineCells(b, m, 7);
      }
    }
    if OwnsALine(b, m) {
      var k :| 0 <= k < |Lines| && Holds(b, m, Lines[k]);
      LineCells(b, m, k);
      if k < 3 {
        assert RowHeld(b, m, k);
      } else if k < 6 {
        assert ColumnHeld(b, m, k - 3);
      }
    }
  }

  /** The winner: X if X holds a line, else O if O holds a line, else nobody. */
  function Winner(b: Board): Wrappers.Option<Mark> {
    if HasLine(b, X) then Wrappers.Some(X)
    else if HasLine(b, O) then Wrappers.Some(O)
    else Wrappers.None
  }

  /**
   * The winner agrees with the eight winning lines: X whenever X holds one,
   * O only when O holds one and X does not, and nobody only when neither does.
   */
  lemma WinnerChecksLines(b: Board)
    ensures Winner(b) == Wrappers.Some(X) <==> OwnsALine(b, X)
    ensures Winner(b) == Wrappers.Some(O) <==> !OwnsALine(b, X) && OwnsALine(b, O)
    ensures Winner(b) == Wrappers.None <==> !OwnsALine(b, X) && !OwnsALine(b, O)
  {
    HasLineIsOwnsALine(b, X);
    HasLineIsOwnsALine(b, O);
  }

  /** Some row still holds an empty cell exactly when a legal move remains. */
  lemma EmptyCellIffAction(b: Board)
    ensures (exists i :: 0 <= i < 3 && Empty in b[i]) <==> Actions(b) != {}
  {
    if Actions(b) != {} {
      var a :| a in Actions(b);
      ActionsMembership(b, a);
      assert Empty in b[a.0];
    }
    if exists i :: 0 <= i < 3 && Empty in b[i] {
      var i :| 0 <= i < 3 && Empty in b[i];
      var j :| 0 <= j < 3 && b[i][j] == Empty;
      ActionsMembership(b, (i, j));
    }
  }

  /** The game is over when someone has won or no row holds an empty cell. */
  function Terminal(b: Board): bool {
    Winner(b).Some? || !(exists i :: 0 <= i < 3 && Empty in b[i])
  }

  /**
   * The game is over exactly when there is a winner or no legal move is
   * left; in particular every full board is terminal.
   */
  lemma TerminalIffWinnerOrNoMoves(b: Board)
    ensures Terminal(b) <==> Winner(b).Some? || Actions(b) == {}
    ensures EmptyCount(b) == 0 ==> Terminal(b)
  {
    ActionsCountEmptyCells(b);
    EmptyCellIffAction(b);
  }

  /** The score of a board: 1 for an X win, -1 for an O win, 0 otherwise. */
  function Utility(b: Board): (r: int)
    ensures r in {-1, 0, 1}
    ensures r == 1 <==> Winner(b) == Wrappers.Some(X)
    ensures r == -1 <==> Winner(b) == Wrappers.Some(O)
    ensures r == 0 <==> Winner(b).None?
  {
    var win := Winner(b);
    if win == Wrappers.Some(X) then 1
    else if win == Wrappers.Some(O) then -1
    else 0
  }
}
