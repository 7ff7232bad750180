# Tic-tac-toe engine in Dafny

A model of the tic-tac-toe decision engine `tictactoe/tictactoe/tictactoe.py`, together with proofs about it. The engine has two layers.

- **Rules**: the starting board, whose turn it is, the legal actions, the result of a move, the winner, whether the game is over, and the score of a finished board.
- **Search**: `minimax_value`, the exhaustive max/min value of a board, and `minimax`, which picks an action whose successor value is extremal for the side to move.

Layout:

- `wrappers.dfy` (`Wrappers`): `Option` and `Result`.
- `grid.dfy` (`Grid`): marks, cells, the 3×3 board, the starting board, cell counts, and writing one cell.
- `rules.dfy` (`Rules`): `player`, `actions`, `result`, `winner`, `terminal` and `utility`. It also holds a replay of whole games.
- `search.dfy` (`Search`): `minimax_value` as the function `Value`, and `minimax` as the method `Minimax`.

How the Python maps onto the model:

- **Board.** A board is a `seq<seq<Cell>>` of three rows of three cells. `EMPTY`, which is Python's `None`, becomes the constructor `Empty`.
- **Actions.** An action is a pair of unbounded integers, so off-grid coordinates can be written down. `result` rejects them, exactly as the Python rejects any tuple that is not in `actions(board)`.
- **Errors.** The `ValueError` raised by `result` becomes `Failure(InvalidMove)`.
- **Immutability.** Boards are immutable values, so "the input board is left unchanged" holds by construction.
- **Search order.** The search visits the legal actions in row-major order (`ActionList`). `ActionListIsActions` proves that this list holds exactly the set `Actions`.
- **Fold.** `Value` is the fold `Best` of the successor values `Outcomes`. The fold starts from an integer sentinel (-2 for the maximizer, 2 for the minimizer) that stands in for `-math.inf` and `math.inf`.
- **Termination.** The recursion ends because every move fills one empty cell (`Play`'s contract), and that cell count is the `decreases` measure.

## Model

| member | source | states |
|---|---|---|
| Grid.InitialCounts | tictactoe/tictactoe/tictactoe.py:16-18 | the starting board has nine empty cells and no X or O |
| Grid.CountAfterSet | tictactoe/tictactoe/tictactoe.py:47-48 | writing value v into one cell changes the count of any cell kind c by exactly [v == c] minus [old cell == c] |
| Rules.Player | tictactoe/tictactoe/tictactoe.py:25-28 | on a board where X is level with O or one ahead, X is to move exactly when the two counts are equal |
| Rules.InitialFacts | tictactoe/tictactoe/tictactoe.py:16-18 | the starting board has nine legal actions, has X to move, is balanced and is not terminal |
| Rules.ActionsMembership | tictactoe/tictactoe/tictactoe.py:36 | an action is legal exactly when both coordinates are in 0..2 and that cell is empty |
| Rules.ActionsCountEmptyCells | tictactoe/tictactoe/tictactoe.py:36 | the number of legal actions equals the number of empty cells, so a full board has none |
| Rules.ActionListIsActions | tictactoe/tictactoe/tictactoe.py:36 | the row-major list the search iterates holds exactly the legal actions |
| Rules.Play | tictactoe/tictactoe/tictactoe.py:47-48 | a legal move leaves exactly one fewer empty cell |
| Rules.PlayChangesOneCell | tictactoe/tictactoe/tictactoe.py:47-48 | a legal move puts the mover's mark in the chosen cell and leaves every other cell as it was; the chosen cell leaves the legal actions; the mover's count rises by one and the other mark's count is unchanged |
| Rules.Result | tictactoe/tictactoe/tictactoe.py:44-50 | a move fails with InvalidMove exactly when it is off the grid or its cell is occupied; otherwise it yields the board with the mover's mark placed |
| Rules.PlayAlternates | tictactoe/tictactoe/tictactoe.py:25-28 | on a balanced board a legal move keeps the board balanced and hands the turn to the other mark |
| Rules.ReplayAlternates | tictactoe/tictactoe/tictactoe.py:25-28 | after any sequence of legal moves from the start, the board is balanced, X is to move after an even number of moves and O after an odd number, and the empty cells plus the moves made total nine |
| Rules.HasLineIsOwnsALine | tictactoe/tictactoe/tictactoe.py:60-68 | the row, column and diagonal checks hold exactly when the mark fills one of the eight lines of the line table |
| Rules.WinnerChecksLines | tictactoe/tictactoe/tictactoe.py:58-70 | the winner is X exactly when X fills a line; it is O exactly when O fills a line and X does not; it is nobody exactly when neither mark does |
| Rules.EmptyCellIffAction | tictactoe/tictactoe/tictactoe.py:77 | some row contains an empty cell exactly when a legal action exists |
| Rules.TerminalIffWinnerOrNoMoves | tictactoe/tictactoe/tictactoe.py:77 | the game is over exactly when there is a winner or no legal action, and every full board is terminal |
| Rules.Utility | tictactoe/tictactoe/tictactoe.py:85-90 | the score lies in {-1, 0, 1}; it is 1 exactly when X has won, -1 exactly when O has won, and 0 exactly when nobody has |
| Search.Value | tictactoe/tictactoe/tictactoe.py:127-139 | the minimax value always lies in [-1, 1], so the infinite sentinels never escape; the recursion ends because each move fills a cell |
| Search.Outcomes | tictactoe/tictactoe/tictactoe.py:132-137 | there is one successor value per listed move, each in [-1, 1] |
| Search.OutcomesAreSuccessorValues | tictactoe/tictactoe/tictactoe.py:133 | entry k of the outcomes is the value of the board after move k with the other side to move |
| Search.BestInRange | tictactoe/tictactoe/tictactoe.py:130-137 | a max/min fold from the sentinel over at least one value in [-1, 1] ends in [-1, 1] |
| Search.BestIsExtremum | tictactoe/tictactoe/tictactoe.py:130-137 | the fold over a non-empty prefix is at least as good as every value in it and equals one of them |
| Search.MovesWhileNotOver | tictactoe/tictactoe/tictactoe.py:99-107 | a board that is not terminal has a legal move, and every listed move is legal |
| Search.ValueIsBest | tictactoe/tictactoe/tictactoe.py:127-139 | a terminal board's value is its utility; otherwise the value is the max (maximizing) or min (minimizing) of the successor values over all legal actions, and some legal action attains it |
| Search.ImmediateWinDecides | tictactoe/tictactoe/tictactoe.py:127-139 | if the side to move has a move that wins on the spot, the board's value is 1 when X is to move and -1 when O is |
| Search.BestOf | tictactoe/tictactoe/tictactoe.py:104-119 | the strict-improvement loop returns nothing exactly when there are no moves; otherwise it returns the move at some position `index` of the list, legal, whose successor value equals the fold of all successor values, and no earlier move has that value, so ties go to the first move listed |
| Search.Minimax | tictactoe/tictactoe/tictactoe.py:99-121 | returns nothing exactly when the board is terminal; otherwise it returns a legal action whose successor value is at least as good for the mover as that of every legal action, and equals the board's minimax value |

## Left out

- Sentinels: the float sentinels `-math.inf` and `math.inf` become the integers -2 and 2. `Value` proves they never survive the fold.
- Iteration order: Python's iteration order over the set returned by `actions` is not modelled. The search visits moves in row-major order. `BestOf` proves that the first optimal move of the list it is given wins, as the strict comparisons at lines 109 and 117 make it. `Minimax` promises only optimality, because in the Python the first move depends on set order.
- Exceptions: the exception mechanism becomes a `Result` value.
- Board shape: the board is always 3×3. The Python accepts any list of lists, but it only ever builds 3×3 boards.
- Cell access: there is no separate cell-access operation that fails with an out-of-range error, because the source has none. Off-grid actions are rejected by `Result`, which follows the code.
- Game-theoretic claims: these are not proved. Examples are "perfect play from the empty board is a draw" and "the engine blocks an opponent's threat". They need evaluation of the whole game tree, and the code states no such claim.
- Search.ImmediateWinDecides: states the value of a board with an immediate win. It does not state that `Minimax` returns the winning cell itself. Several winning cells may exist, and the choice among them depends on iteration order.
- Performance: the absence of memoization and pruning is not modelled, because it does not affect results.
- Interface: any runner, UI or interactive loop around the engine is not part of this model.
