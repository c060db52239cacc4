# XO tic-tac-toe engine in Dafny

A model of the `Board` class of XO.py. The class is an N×N tic-tac-toe board, stored as a Python list of N² cells in row-major order, plus a game-tree search that picks the engine's move. The model has three modules:

- **`Rules`** (rules.dfy) holds the value-level rules as functions of the cell sequence:
  - players and cells;
  - the table of winning lines built by `cell_for_check`;
  - `empty_cells`, `count(None)` and `turn`;
  - `is_win`, `is_tie` and `is_end`;
  - the weight map that `evaluate` is meant to return.
- **`Search`** (search.dfy) holds the search as functions:
  - `AlphaBetaValue` mirrors `alpha_beta` step for step: the same leaf tests in the same order, the same loop with `break`, and the depth of the last child explored.
  - `Minimax` is a plain minimax used as the reference.
  - `ChooseMove` mirrors the selection loop of `ai_move`.
  - The lemmas prove that pruning never changes the score and that the chosen move is the first of the best-ranked ones.
- **`Boards`** (board.dfy) holds `class Board`, with a `size` and an `array<Cell>` that its methods update in place:
  - `move`, `clear`, `copy` and `evaluate`;
  - `alpha_beta`, which fills a cell, recurses and empties it again;
  - `ai_move`.

  Each method is proved against the functions of the other two modules.

Encoding choices:

- `None`, `PLAYERS.X` (-1) and `PLAYERS.O` (1) become `Empty`, `Mark(X)` and `Mark(O)`, and `-player` becomes `player.Opp()`.
- The float sentinels `-inf` and `inf` become `NEG_INF = -2` and `POS_INF = 2`. Every score is in {-1, 0, 1}, so the sentinels compare with scores exactly as the infinities do.
- A `max_depth` of `None` becomes `Option<int>`.
- Python's `assert`s and `IndexError` become error results: `Outcome`/`MoveError` for `move`, and `AiResult` for `ai_move`.

Behaviours of XO.py that the model reproduces as they are:

- `is_tie` is "no empty cell" only; it does not check for a winner.
- The static weight of a cell counts the lines through it on which nobody has played at all; a line holding only the mover's own marks does not count.
- `ai_move` searches every empty cell, even on an empty board, one after another.
- `ai_move` does not check that it is `player`'s turn.
- `alpha_beta` reports the depth of the last child it explored, not of the best one.
- On a board with an even number of cells, O moves first, because the turn is pure parity.

## Model

| member | source | states |
|---|---|---|
| Rules.Player.Opp | XO.py:101 | `-player` is the other player |
| Rules.Blank | XO.py:18-20 | a new board has N² cells, all empty |
| Rules.CellForCheck | XO.py:29-37 | the winning-line table, built with the source's index formulas, has 2n+2 lines of n cells each; it needs n >= 1, as the source raises for n = 0 |
| Rules.CountEmpty | XO.py:25 | `count(None)`, the number of empty cells, is at most the number of cells |
| Rules.Turn | XO.py:22-27 | defined as X when `count(None)` is odd and O otherwise; its partner is PlaceFlipsTurn |
| Rules.IsWin | XO.py:133-137 | defined as: some line of the table has every cell equal to p; its partner is IsWinIffGridWin |
| Rules.IsTie | XO.py:139 | defined as: no cell is empty (no winner test) |
| Rules.IsEnd | XO.py:140 | defined as: a tie, or a win for O, or a win for X; its partner is NotEndHasMoves |
| Rules.Weights | XO.py:42-53 | the intended result of `evaluate`: one key per empty cell, valued by the open lines through it; its partners are WeightsKeys and Boards.Board.Evaluate |
| Rules.Tally | XO.py:43-52 | the `result` dict of `evaluate`: keys only for empty cells on at least one open line |
| Rules.EvaluateAsWritten | XO.py:53 | `evaluate` as written: `result` merged over zeros keyed by the empty cells of another board (the module-level `board`) |
| Rules.CellForCheckShape | XO.py:29-37 | `cell_for_check(n)` has 2n+2 lines of n cells: line k < n is column k, line n+r is row r, then the main diagonal, then the anti-diagonal; every index is in [0, n²) and each line is strictly increasing |
| Rules.CellForCheckAscending | XO.py:29-37 | no line of the table lists a cell twice |
| Rules.EmptyCells | XO.py:39-40 | `empty_cells()` holds exactly the indices of empty cells, strictly ascending, and there are `count(None)` of them |
| Rules.PlaceFlipsTurn | XO.py:22-27 | filling an empty cell lowers `count(None)` by one and so hands the turn to the other player |
| Rules.BlankTurn | XO.py:22-27 | on a fresh board X moves first exactly when n is odd; on an even board O moves first |
| Rules.ColumnLine | XO.py:33 | line c of the table is owned exactly when grid column c is |
| Rules.RowLine | XO.py:34 | line n+r of the table is owned exactly when grid row r is |
| Rules.DiagonalLine | XO.py:35 | line 2n is the main diagonal |
| Rules.AntiDiagonalLine | XO.py:36 | line 2n+1 is the anti-diagonal |
| Rules.IsWinIffGridWin | XO.py:133-137 | `is_win(p)` holds iff p owns a whole row, a whole column or a whole diagonal |
| Rules.NotEndHasMoves | XO.py:139-140 | a board that is not at its end has an empty cell |
| Rules.OpenLinesThrough | XO.py:44-52 | the count of open lines through a cell never exceeds the number of lines |
| Rules.WeightsKeys | XO.py:42-53 | the weight map has exactly the empty cells as keys, and no weight exceeds 2n+2 |
| Rules.EvaluateAsWrittenOnSelf | XO.py:53 | when the module-level `board` is the board itself, `evaluate` as written returns the weight map |
| Rules.EvaluateAsWrittenWrongKeys | XO.py:53 | when the module-level `board` is a different board, `evaluate` as written has a key for an occupied cell |
| Search.IsLeaf | XO.py:99-104 | defined as the leaf tests of `alpha_beta`: a win for `player`, a win for the opponent, a full board, or `depth == max_depth` |
| Search.LeafScore | XO.py:99-104 | a leaf scores in {-1, 0, 1}; +1 only when `player` has won and -1 only when the opponent has |
| Search.Outranks | XO.py:68-78 | defined as the replacement test of `ai_move`: higher score, or equal score and smaller depth, or equal both and larger weight; its partner is OutranksOrder |
| Search.RootScore | XO.py:65-66 | the score of the root call for one move is in {-1, 0, 1} and its depth is between 1 and the number of empty cells |
| Search.AlphaBetaValue | XO.py:90-131 | the score of `alpha_beta` is in {-1, 0, 1}, and the depth it reports is between the entry depth and the entry depth plus the number of empty cells |
| Search.MaxLoop | XO.py:106-118 | the maximising loop yields a score in {-1, 0, 1} and the depth of a child |
| Search.MinLoop | XO.py:119-131 | the minimising loop yields a score in {-1, 0, 1} and the depth of a child |
| Search.Minimax | XO.py:99-104 | the reference minimax value, with the same leaves, is in {-1, 0, 1} |
| Search.MaxOver | XO.py:106-118 | the best child value for the maximiser is in {-1, 0, 1} |
| Search.MinOver | XO.py:119-131 | the worst child value for the minimiser is in {-1, 0, 1} |
| Search.MaxStep | XO.py:112-117 | one step of the maximising loop keeps the fail-soft bound, and a cut-off happens only once the value has reached beta |
| Search.MinStep | XO.py:125-130 | one step of the minimising loop keeps the fail-soft bound, and a cut-off happens only once the value has dropped to alpha |
| Search.AlphaBetaFailSoft | XO.py:90-131 | in any window alpha < beta, `alpha_beta` is exact inside the window and a bound on the correct side outside it |
| Search.MaxLoopFailSoft | XO.py:106-118 | the pruned maximising loop is a fail-soft approximation of the best child value |
| Search.MinLoopFailSoft | XO.py:119-131 | the pruned minimising loop is a fail-soft approximation of the worst child value |
| Search.AlphaBetaIsMinimax | XO.py:90-131 | with the window (-inf, inf), the score of `alpha_beta` equals the minimax value, so pruning never changes the score |
| Search.Scan | XO.py:64-78 | the selection loop always keeps an empty cell as its best move |
| Search.ChooseMove | XO.py:58-81 | on a board that is not at its end, `ai_move` picks an empty cell |
| Search.OutranksOrder | XO.py:68-78 | the replacement test (score, then smaller depth, then larger weight) is a strict order |
| Search.Pick | XO.py:64-78 | the loop's result is either its starting move or one of the moves it examined |
| Search.PickFirstBest | XO.py:64-78 | over moves in ascending order, no examined move outranks the result, and every examined move before it is strictly outranked |
| Search.PickFirstBestAll | XO.py:64-78 | starting from the first move, the result is a first move of greatest rank |
| Search.Candidates | XO.py:64 | one ranked candidate per key, in the order of the keys |
| Search.CandidateAt | XO.py:64 | the j-th candidate is the j-th key with its rank |
| Search.ScanIsPick | XO.py:64-78 | the selection loop is Pick over the ranked empty cells, and its best choice always carries its own move's score and depth |
| Search.ChooseMoveIsPick | XO.py:59-79 | `ai_move`'s choice is Pick started at the first empty cell, and it carries its own score and depth |
| Search.ChooseMoveBeats | XO.py:64-78 | no empty cell outranks the chosen move, and every earlier empty cell is strictly outranked by it |
| Search.ChooseMoveIsFirstBest | XO.py:56-81 | `ai_move` plays an empty cell of greatest rank (score, then fewer plies, then weight), the first such in ascending order, and reports that move's own score and depth |
| Search.ChooseMoveIsOptimal | XO.py:56-81 | the score reported is the minimax value of the move played, and no empty cell has a higher minimax value |
| Boards.PyIndex | XO.py:85-87 | `self[key - 1]` addresses a cell in [0, N²) and wraps negative indices from the end |
| Boards.Prefer | XO.py:68-78 | the nested `if` of `ai_move` replaces the best move exactly when the new move outranks it (and always on the first move) |
| Boards.MaxLoopStep | XO.py:108-117 | one pass of the maximising loop either ends it with the updated `best_score` or continues it with raised `best_score` and `alpha` |
| Boards.MinLoopStep | XO.py:121-130 | one pass of the minimising loop either ends it or continues it with lowered `worst_score` and `beta` |
| Boards.OpenLinesStep | XO.py:44-52 | the open-line count over one more line adds one exactly for the cells of that line when the line is open |
| Boards.WeightsFromCounts | XO.py:53 | merging the counts over a zero for every empty cell gives the weight map |
| Boards.ChooseMoveStart | XO.py:59-71 | the first empty cell always replaces the `-inf` start |
| Boards.ScanStep | XO.py:64-78 | one pass of the selection loop replaces the best move exactly when the new move outranks it |
| Boards.Board.constructor | XO.py:18-20 | a new board of the given size has N² empty cells |
| Boards.Board.Clear | XO.py:142-144 | after `clear` every cell is empty |
| Boards.Board.Copy | XO.py:146-148 | the copy is a fresh board of the same size with the same cells, in an array of its own |
| Boards.Board.Move | XO.py:83-88 | `move` fails with no change when it is not `player`'s turn, when the key names no cell, or when the cell is taken; otherwise exactly cell `key - 1` (Python-indexed) becomes `player`'s, and the turn passes to the other player |
| Boards.Board.Evaluate | XO.py:42-53 | `evaluate` returns one key per empty cell, valued by the number of winning lines through it with every cell empty |
| Boards.Board.CountOpenLine | XO.py:45-52 | the inner loop adds one to each cell of an open line and changes no other count |
| Boards.Board.AlphaBeta | XO.py:90-131 | `alpha_beta` leaves the cells as it found them, and its score and depth are those of AlphaBetaValue |
| Boards.Board.MaxChildren | XO.py:106-118 | the maximising loop restores the cells and returns MaxLoop's score and depth |
| Boards.Board.MinChildren | XO.py:119-131 | the minimising loop restores the cells and returns MinLoop's score and depth |
| Boards.Board.MaxChild | XO.py:108-117 | one pass of the maximising loop restores the cells and either ends it or continues it with raised `best_score` and `alpha` |
| Boards.Board.MinChild | XO.py:121-130 | one pass of the minimising loop restores the cells and either ends it or continues it with lowered `worst_score` and `beta` |
| Boards.Board.TryCell | XO.py:108-111 | filling a cell, searching and emptying it again restores the cells and scores the filled position |
| Boards.Board.AiMove | XO.py:56-81 | `ai_move` stops with no change on a board at its end; otherwise it returns ChooseMove and exactly the chosen cell becomes `player`'s |
| Boards.Board.BestMove | XO.py:59-79 | the selection loop restores the cells and yields ChooseMove |
| Boards.Board.ConsiderMove | XO.py:64-78 | one pass of the selection loop restores the cells and advances the selection as ScanStep says |

## Left out

- `__repr__` (text rendering) and the `__main__` loop (interactive I/O and wall-clock timing) are not modelled.
- The `lru_cache` on `cell_for_check` is an optimisation only; `CellForCheck` is a pure function.
- `copy.copy` internals are not modelled: `Copy` allocates a fresh array with equal contents and the same size.
- The float infinities are not modelled as floats: they appear only as sentinels, and -2 and 2 stand in for them.
- Boards.Board.constructor: requires size >= 1. XO.py accepts `Board(0)`, but `cell_for_check(0)` then raises ValueError (a `range` with step 0), so `is_win` and `alpha_beta` raise on it, while `is_end` is True through `is_tie` and `ai_move` stops on its assert. The model leaves size 0 out; CellForCheck requires n >= 1 accordingly.
- The source's `alpha_beta` and `ai_move` loops are split into helper methods (MaxChildren/MaxChild, MinChildren/MinChild, TryCell, BestMove/ConsiderMove, Prefer, CountOpenLine). This keeps each proof small; the order of operations and the cell writes are those of the source.
- Python integers in scores and depths are unbounded, as here; no wrap-around is involved.
- XO.py has no opening-move shortcut, no early cut-off at the root and no parallel search, so neither has the model.

## Findings

| source | as written | input that shows it | evidently intended | confidence | as-written member | corrected member |
|---|---|---|---|---|---|---|
| XO.py:53 | `evaluate` merges its counts over a zero for every empty cell of the module-level `board`, not of `self` | a full 1×1 board `[X]` evaluated while the module-level `board` is still blank gets the key 0 for an occupied cell (Rules.EvaluateAsWrittenWrongKeys); an empty cell that `board` has filled and that lies on no open line gets no key, so `evaluation[key]` in `ai_move` would raise KeyError; when XO.py is imported rather than run, `board` is bound only under `__main__` (XO.py:160-162), so every `evaluate` raises NameError | `self.empty_cells()`: one key per empty cell of the board being evaluated | not executed | Rules.EvaluateAsWritten | Boards.Board.Evaluate |
