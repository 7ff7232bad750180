/**
 * Exhaustive minimax search over the game tree. Values are scores from
 * X's point of view: X maximizes, O minimizes.
 */
module Search {
  import opened Grid
  import opened Rules
  import opened Wrappers

  /** The starting value of a fold: below every score when maximizing, above every score when minimizing. */
  function Sentinel(maximizing: bool): int {
    if maximizing then -2 else 2
  }

  /** `v` is strictly better than `best` for the side to move: greater when maximizing, smaller when minimizing. */
  predicate Improves(maximizing: bool, v: int, best: int) {
    if maximizing then v > best else v < best
  }

  /** One step of the fold: `max` when maximizing, `min` when minimizing. */
  function Pick(maximizing: bool, best: int, v: int): int {
    if Improves(maximizing, v, best) then v else best
  }

  /** `v` is no worse for the side to move than the successor value `w`. */
  predicate AtLeastAsGood(maximizing: bool, v: int, w: int) {
    if maximizing then w <= v else v <= w
  }

  /** Every listed move is legal on `b`. */
  predicate AllLegal(b: Board, moves: seq<Action>) {
    forall k :: 0 <= k < |moves| ==> moves[k] in Actions(b)
  }

  /** A board that is not terminal has a legal move, and every listed move is legal. */
  lemma MovesWhileNotOver(b: Board)
    ensures !Terminal(b) ==> ActionList(b) != []
    ensures AllLegal(b, ActionList(b))
  {
    var moves := ActionList(b);
    ActionListIsActions(b);
    if !Terminal(b) {
      TerminalIffWinnerOrNoMoves(b);
      var a :| a in Actions(b);
      assert a in moves;
    }
  }

  /** The minimax value of `b` with the given side to move; the recursion ends at terminal boards. */
  function Value(b: Board, maximizing: bool): (v: int)
    ensures -1 <= v <= 1
    decreases EmptyCount(b), 1
  {
    if Terminal(b) then Utility(b)
    else
      var moves := ActionList(b);
      MovesWhileNotOver(b);
      var values := Outcomes(b, moves, maximizing);
      BestInRange(values, |values|, maximizing);
      Best(values, |values|, maximizing)
  }

  /** The successor values of `moves`, in order: the value after each move with the other side to move. */
  function Outcomes(b: Board, moves: seq<Action>, maximizing: bool): (vs: seq<int>)
    requires AllLegal(b, moves)
    ensures |vs| == |moves|
    ensures forall k :: 0 <= k < |vs| ==> -1 <= vs[k] <= 1
    decreases EmptyCount(b), 0, |moves|
  {
    if moves == [] then []
    else
      var n := |moves| - 1;
      Outcomes(b, moves[..n], maximizing) + [Value(Play(b, moves[n]), !maximizing)]
  }

  /** Folds `Pick` over the first `n` values, left to right, starting from the sentinel. */
  function Best(values: seq<int>, n: nat, maximizing: bool): int
    requires n <= |values|
  {
    if n == 0 then Sentinel(maximizing)
    else Pick(maximizing, Best(values, n - 1, maximizing), values[n - 1])
  }

  /** The value reached by playing legal move `a` on `b` and letting the other side answer. */
  function SuccessorValue(b: Board, a: Action, maximizing: bool): int
    requires a in Actions(b)
  {
    Value(Play(b, a), !maximizing)
  }

  /** The outcomes of a non-empty list: those of all but its last move, then the last move's successor value. */
  lemma OutcomesSnoc(b: Board, moves: seq<Action>, maximizing: bool)
    requires AllLegal(b, moves) && moves != []
    ensures AllLegal(b, moves[..|moves| - 1])
    ensures Outcomes(b, moves, maximizing)
         == Outcomes(b, moves[..|moves| - 1], maximizing) + [SuccessorValue(b, moves[|moves| - 1], maximizing)]
  {
    var prefix := moves[..|moves| - 1];
    forall j | 0 <= j < |prefix| ensures prefix[j] in Actions(b) {
      assert prefix[j] == moves[j];
    }
  }

  /** Entry `k` of the outcomes is the successor value of move `k`. */
  lemma {:induction false} OutcomesAreSuccessorValues(b: Board, moves: seq<Action>, maximizing: bool, k: int)
    requires AllLegal(b, moves) && 0 <= k < |moves|
    ensures Outcomes(b, moves, maximizing)[k] == SuccessorValue(b, moves[k], maximizing)
    decreases |moves|
  {
    var n := |moves| - 1;
    OutcomesSnoc(b, moves, maximizing);
    if k < n {
      OutcomesAreSuccessorValues(b, moves[..n], maximizing, k);
    }
  }

  lemma PickIsBest(maximizing: bool, best: int, w: int)
    ensures AtLeastAsGood(maximizing, Pick(maximizing, best, w), best)
    ensures AtLeastAsGood(maximizing, Pick(maximizing, best, w), w)
    ensures Pick(maximizing, best, w) == best || Pick(maximizing, best, w) == w
  {
  }

  /** The fold of a non-empty prefix of values in [-1, 1] stays in [-1, 1]: the sentinel never escapes. */
  lemma {:induction false} BestInRange(values: seq<int>, n: nat, maximizing: bool)
    requires n <= |values|
    requires forall k :: 0 <= k < |values| ==> -1 <= values[k] <= 1
    ensures n > 0 ==> -1 <= Best(values, n, maximizing) <= 1
    decreases n
  {
    if n > 1 {
      BestInRange(values, n - 1, maximizing);
    }
  }

  /**
   * The fold of an empty prefix is the sentinel; the fold of a non-empty
   * prefix is at least as good as every value of the prefix and equals one of them.
   */
  lemma {:induction false} BestIsExtremum(values: seq<int>, n: nat, maximizing: bool)
    requires n <= |values|
    requires forall k :: 0 <= k < |values| ==> -1 <= values[k] <= 1
    ensures n == 0 ==> Best(values, n, maximizing) == Sentinel(maximizing)
    ensures forall k :: 0 <= k < n ==> AtLeastAsGood(maximizing, Best(values, n, maximizing), values[k])
    ensures n > 0 ==> exists k :: 0 <= k < n && values[k] == Best(values, n, maximizing)
    decreases n
  {
    if n > 0 {
      BestIsExtremum(values, n - 1, maximizing);
      PickIsBest(maximizing, Best(values, n - 1, maximizing), values[n - 1]);
    }
  }

  /** Off a terminal board, the value is the fold of the successor values of the row-major move list. */
  lemma ValueUnfolds(b: Board, maximizing: bool)
    requires !Terminal(b)
    ensures AllLegal(b, ActionList(b)) && ActionList(b) != []
    ensures Value(b, maximizing)
         == Best(Outcomes(b, ActionList(b), maximizing), |ActionList(b)|, maximizing)
  {
    MovesWhileNotOver(b);
  }

  /** Off a terminal board, the `k`-th listed move is no better for the side to move than the value. */
  lemma ListedMoveBounded(b: Board, maximizing: bool, k: int)
    requires !Terminal(b) && 0 <= k < |ActionList(b)|
    ensures ActionList(b)[k] in Actions(b)
    ensures AtLeastAsGood(maximizing, Value(b, maximizing), SuccessorValue(b, ActionList(b)[k], maximizing))
  {
    var moves := ActionList(b);
    ValueUnfolds(b, maximizing);
    var values := Outcomes(b, moves, maximizing);
    BestIsExtremum(values, |values|, maximizing);
    OutcomesAreSuccessorValues(b, moves, maximizing, k);
  }

  /** The position of a legal move in the row-major list. */
  lemma PositionOf(b: Board, a: Action) returns (k: int)
    requires a in Actions(b)
    ensures 0 <= k < |ActionList(b)| && ActionList(b)[k] == a
  {
    ActionListIsActions(b);
    assert a in ActionList(b);
    k :| 0 <= k < |ActionList(b)| && ActionList(b)[k] == a;
  }

  /** Off a terminal board, no legal move is better for the side to move than the value. */
  lemma ValueBoundsMoves(b: Board, maximizing: bool)
    requires !Terminal(b)
    ensures forall a :: a in Actions(b) ==>
      AtLeastAsGood(maximizing, Value(b, maximizing), SuccessorValue(b, a, maximizing))
  {
    forall a | a in Actions(b)
      ensures AtLeastAsGood(maximizing, Value(b, maximizing), SuccessorValue(b, a, maximizing))
    {
      var k := PositionOf(b, a);
      ListedMoveBounded(b, maximizing, k);
    }
  }

  /** Off a terminal board, some legal move attains the value. */
  lemma ValueIsAttained(b: Board, maximizing: bool)
    requires !Terminal(b)
    ensures exists a :: a in Actions(b) && SuccessorValue(b, a, maximizing) == Value(b, maximizing)
  {
    var moves := ActionList(b);
    ValueUnfolds(b, maximizing);
    var values := Outcomes(b, moves, maximizing);
    BestIsExtremum(values, |values|, maximizing);
    var k :| 0 <= k < |values| && values[k] == Best(values, |values|, maximizing);
    OutcomesAreSuccessorValues(b, moves, maximizing, k);
    assert moves[k] in Actions(b);
  }

  /**
   * The value of a terminal board is its score; off a terminal board, the
   * value is the best successor value over every legal move for the side to
   * move, and some legal move attains it.
   */
  lemma ValueIsBest(b: Board, maximizing: bool)
    ensures Terminal(b) ==> Value(b, maximizing) == Utility(b)
    ensures !Terminal(b) ==> forall a :: a in Actions(b) ==>
      AtLeastAsGood(maximizing, Value(b, maximizing), SuccessorValue(b, a, maximizing))
    ensures !Terminal(b) ==>
      exists a :: a in Actions(b) && SuccessorValue(b, a, maximizing) == Value(b, maximizing)
  {
    if !Terminal(b) {
      ValueBoundsMoves(b, maximizing);
      ValueIsAttained(b, maximizing);
    }
  }

  /** A legal move that wins on the spot fixes the value: 1 when X is to move, -1 when O is. */
  lemma ImmediateWinDecides(b: Board, a: Action)
    requires !Terminal(b) && a in Actions(b)
    requires Winner(Play(b, a)) == Some(Player(b))
    ensures Value(b, Player(b) == X) == if Player(b) == X then 1 else -1
  {
    assert Terminal(Play(b, a));
    ValueIsBest(b, Player(b) == X);
  }

  /** Folding one more value applies one more `Pick`. */
  lemma BestStep(values: seq<int>, k: nat, maximizing: bool)
    requires k < |values|
    ensures Best(values, k + 1, maximizing) == Pick(maximizing, Best(values, k, maximizing), values[k])
  {
  }

  /** Evaluates the `k`-th listed move: its entry among the outcomes. */
  method Evaluate(b: Board, moves: seq<Action>, k: int, maximizing: bool) returns (v: int)
    requires AllLegal(b, moves) && 0 <= k < |moves|
    ensures v == Outcomes(b, moves, maximizing)[k]
  {
    v := SuccessorValue(b, moves[k], maximizing);
    OutcomesAreSuccessorValues(b, moves, maximizing, k);
  }

  /**
   * The loop of the search: visits `moves` in order and keeps the first move
   * whose successor value is strictly better than every earlier one. The move
   * kept, at position `index`, attains the fold of all the successor values,
   * and no earlier move attains it: ties go to the first move listed.
   */
  method BestOf(b: Board, moves: seq<Action>, maximizing: bool) returns (move: Option<Action>, ghost index: int)
    requires AllLegal(b, moves)
    ensures move.None? <==> moves == []
    ensures move.Some? ==> 0 <= index < |moves| && move.value == moves[index]
    ensures move.Some? ==> move.value in Actions(b)
    ensures move.Some? ==>
      Outcomes(b, moves, maximizing)[index] == Best(Outcomes(b, moves, maximizing), |moves|, maximizing)
    ensures move.Some? ==> forall j :: 0 <= j < index ==>
      Outcomes(b, moves, maximizing)[j] != Outcomes(b, moves, maximizing)[index]
  {
    ghost var values := Outcomes(b, moves, maximizing);
    var bestValue := Sentinel(maximizing);
    move := None;
    index := 0;
    var k := 0;
    while k < |moves|
      invariant 0 <= k <= |moves|
      invariant bestValue == Best(values, k, maximizing)
      invariant forall j :: 0 <= j < k ==> AtLeastAsGood(maximizing, bestValue, values[j])
      invariant move.None? <==> k == 0
      invariant move.Some? ==> 0 <= index < k && move.value == moves[index] && values[index] == bestValue
      invariant move.Some? ==> forall j :: 0 <= j < index ==> values[j] != bestValue
    {
      var a := moves[k];
      var v := Evaluate(b, moves, k, maximizing);
      BestStep(values, k, maximizing);
      if Improves(maximizing, v, bestValue) {
        bestValue := v;
        move := Some(a);
        index := k;
      }
      k := k + 1;
    }
  }

  /**
   * The optimal move for the side to move, or `None` on a terminal board:
   * X maximizes and O minimizes the value of the board after the move.
   */
  method Minimax(b: Board) returns (move: Option<Action>)
    ensures move.None? <==> Terminal(b)
    ensures move.Some? ==> move.value in Actions(b)
    ensures move.Some? ==> forall a :: a in Actions(b) ==>
      AtLeastAsGood(Player(b) == X, SuccessorValue(b, move.value, Player(b) == X), SuccessorValue(b, a, Player(b) == X))
    ensures move.Some? ==> SuccessorValue(b, move.value, Player(b) == X) == Value(b, Player(b) == X)
  {
    if Terminal(b) {
      return None;
    }
    var maximizing := Player(b) == X;
    ValueUnfolds(b, maximizing);
    ghost var index;
    move, index := BestOf(b, ActionList(b), maximizing);
    OutcomesAreSuccessorValues(b, ActionList(b), maximizing, index);
    ValueIsBest(b, maximizing);
  }
}
