# ConnectK player: board and move selection

This project models the `ConnectK` player class of an M×N, K-in-a-row game
(a generalisation of Tic-Tac-Toe and Connect-4). The player keeps the board of
the current game as an M×N grid of `char` cells. Row 0 is at the top and
column 0 is at the left. The class has three operations:

- `newGame` stores M, N, K, G and the computer's mark. When M > 0 and N > 0 it
  builds an M×N grid with every cell `BLANK`; otherwise there is no grid.
- `nextMove` first records the opponent's move at `(row, col)` with the mark
  opposite to the computer's. It skips this when either coordinate is `-1`.
  It then scans the rows from the bottom (row M-1) up, each from left to
  right. It writes the computer's mark into the first `BLANK` cell and
  reports that cell through `row`/`col`.
- `getMove` runs the same scan and returns the chosen `Cell`. On a full board
  it returns `Cell(0, 0)`.

Layout:

- `board.dfy`, module `Board`: the grid as a value (`seq<seq<char>>`) and the
  cell symbols `X`, `O`, `BLANK`. It defines the scan order (`Precedes`) and
  the reference definition of the chosen cell (`IsFirstBlank`). It also holds
  the recursive scan `FirstBlank`, with its proofs in both directions, and a
  count of open cells (`CountBlanks`).
- `connectk.dfy`, module `ConnectKPlayer`: the pure meaning of one turn
  (`RecordOpponent`, `AiMove`, `NextMoveReply`, `GetMoveReply`), lemmas about
  those turns, and the class `ConnectK`. The class has the source's fields
  `M`, `N`, `K`, `G`, `computerMark` and an `array2?<char>` field `board`,
  which stands for the source's `board_` (not its `BoardState` member `board`). Its methods
  update the array in place with the source's nested loops and early returns.
  Each method's postcondition ties the new grid and the reported move to the
  pure turn functions.

`ConnectK.h` is not part of this model. The cell symbols are taken to be
`'X'`, `'O'` and `' '`. The source compares the mark with the literal `'X'`
(connectk.cpp:84). The proofs only use the fact that the three symbols are
distinct.

The class invariant `Valid()` says the board is absent exactly when M ≤ 0 or
N ≤ 0, and otherwise has M rows and N columns. In the source the scan loops
run over M and N, not over the array. When there is no board they still
touch no cell, because then M ≤ 0 or N ≤ 0 (with unbounded integers; see
"## Left out" for the one case where C++ `int` arithmetic differs). So `NextMove` and `GetMove` need
no board when no cell is indexed. `NextMove` requires an in-bounds opponent
cell when neither coordinate is `-1`. The source indexes the array there
without any check.

## Model

| member | source | states |
|---|---|---|
| Board.Blanks | connectk.cpp:98-103 | the board of a new game has M rows of N cells, every one `BLANK` |
| Board.Opponent | connectk.cpp:131-134 | the opponent's mark is `O` exactly when the computer plays `X`, and `X` otherwise; it is never the computer's mark and never `BLANK` |
| Board.Put | connectk.cpp:151 | overwriting one cell keeps the grid's shape, sets that cell and leaves every other cell unchanged |
| Board.PrecedesIsTotalOrder | connectk.cpp:144-146 | the scan order `Precedes` (a lower row first, then a column further left in the same row) is a strict total order on cells |
| Board.IsFirstBlank | connectk.cpp:144-148 | the reference definition of the chosen cell: in bounds, `BLANK`, and every cell that precedes it in scan order is not `BLANK`; such a cell exists only on a board with a `BLANK` cell |
| Board.FirstBlankInRow | connectk.cpp:146-148 | the inner loop as a recursive scan of one row from a column to the right; an index it returns is in range and its cell is `BLANK` |
| Board.ScanRows | connectk.cpp:144-148 | the outer loop as a recursive scan of rows r, r - 1, ..., 0, each left to right; a cell it returns lies in rows 0..r, is in bounds and is `BLANK` |
| Board.FirstBlankInRowSpec | connectk.cpp:146-148 | scanning one row left to right from a column finds a `BLANK` cell with no `BLANK` to its left, or shows that the rest of the row has none |
| Board.ScanRowsSpec | connectk.cpp:144-148 | scanning rows r down to 0 finds the first `BLANK` of those rows in scan order, or shows that they hold none |
| Board.FirstBlank | connectk.cpp:144-159 | the chosen cell is in bounds and `BLANK`, and every cell in a lower row or to its left in the same row is not `BLANK`; no cell is chosen exactly when the board has no `BLANK` cell |
| Board.FirstBlankUnique | connectk.cpp:144-148 | any cell meeting the scan-order definition is the one the scan picks, so the choice is determined by the board alone |
| Board.FirstBlankIsSupported | connectk.cpp:144 | every cell below the chosen cell in its column is occupied, because the scan starts at the bottom row |
| Board.FreshBoardFirstBlank | connectk.cpp:144-148 | on a new M×N board the first move is the bottom-left cell (M-1, 0) |
| Board.RowBlanksPut | connectk.cpp:151 | writing a mark into a `BLANK` cell of a row removes exactly one `BLANK` from that row |
| Board.CountBlanksPut | connectk.cpp:151 | writing a mark into a `BLANK` cell uses up exactly one open cell of the board |
| Board.RowBlanksZero | connectk.cpp:146-148 | a row has no `BLANK` cell exactly when its count of open cells is zero |
| Board.CountBlanksZero | connectk.cpp:144-159 | the board has no `BLANK` cell exactly when its count of open cells is zero |
| ConnectKPlayer.RecordOpponent | connectk.cpp:129-135 | the board after recording the opponent: unchanged when a coordinate is -1; otherwise the opponent's cell holds `O` if the computer plays `X` and `X` otherwise, and every other cell and the shape are kept |
| ConnectKPlayer.NextMoveReply | connectk.cpp:125-160 | one call of nextMove as a value: record the opponent, then the computer's move; the shape is kept and the reported cell is either (row, col) as passed or the first `BLANK` of the board after the opponent's move |
| ConnectKPlayer.GetMoveReply | connectk.cpp:162-184 | one call of getMove as a value: the shape is kept, and either the reply is Cell(0, 0) with the board unchanged or the returned cell is the first `BLANK` in scan order |
| ConnectKPlayer.AiMove | connectk.cpp:144-159 | the computer's move keeps the board's shape; on a full board it changes nothing and reports the fallback cell; otherwise it writes its mark into the first `BLANK` cell and no other cell changes |
| ConnectKPlayer.AiMoveUsesOneBlank | connectk.cpp:148-151 | each computer move uses up exactly one open cell, unless the board is full |
| ConnectKPlayer.NextMoveKeepsOpponentMark | connectk.cpp:129-135 | after nextMove with a real opponent move, the opponent's cell holds `O` if the computer plays `X`, and `X` otherwise; the computer reports that cell only when no `BLANK` cell was left |
| ConnectKPlayer.NextMoveSentinelRecordsNothing | connectk.cpp:127-135 | when a coordinate is -1, no opponent mark is written: only the reported cell can change |
| ConnectKPlayer.NextMovePlaysFirstBlank | connectk.cpp:144-156 | the reported cell is the first `BLANK` in scan order of the board after the opponent's move, and now holds the computer's mark |
| ConnectKPlayer.NextMoveOnFullBoard | connectk.cpp:144-160 | with no `BLANK` cell after the opponent's move, nothing more is written and row and col come back as passed |
| ConnectKPlayer.NextMoveFrame | connectk.cpp:129-159 | apart from the opponent's cell and the reported cell, every cell keeps its value and the board keeps its shape |
| ConnectKPlayer.GetMovePlaysFirstBlank | connectk.cpp:165-178 | getMove writes the computer's mark into the first `BLANK` cell in scan order and returns that cell |
| ConnectKPlayer.GetMoveOnFullBoard | connectk.cpp:182-183 | on a full board getMove returns Cell(0, 0) and the board is unchanged |
| ConnectKPlayer.GetMoveAgreesWithNextMove | connectk.cpp:144-183 | getMove and nextMove with the -1 sentinel make the same move; on a full board they differ only in the reply, Cell(0, 0) against (-1, -1) |
| ConnectKPlayer.ConnectK.constructor | connectk.cpp:7-12 | a new player has M = N = K = 0, gravity off and no board |
| ConnectKPlayer.ConnectK.NewGame | connectk.cpp:65-107 | all parameters are stored; with M > 0 and N > 0 there is a freshly allocated M×N board of `BLANK` cells, otherwise there is no board |
| ConnectKPlayer.ConnectK.SetCell | connectk.cpp:151 | writing one array cell changes the grid at that cell only |
| ConnectKPlayer.ConnectK.NextMove | connectk.cpp:125-160 | the new board and the returned row and col are those of `NextMoveReply` on the old board: opponent recorded unless a coordinate is -1, then the first-`BLANK` move or, on a full board, row and col as passed |
| ConnectKPlayer.ConnectK.GetMove | connectk.cpp:162-184 | the new board and the returned cell are those of `GetMoveReply` on the old board: the first-`BLANK` move, or Cell(0, 0) with the board unchanged |

## Left out

- Memory management is not modelled. This covers the destructor's per-row `delete[]` (connectk.cpp:15-21) and the release of the old board in `newGame` (connectk.cpp:70-76). There the rows themselves are freed (connectk.cpp:72-73), but `board_` is set to null (connectk.cpp:74) before `delete []` runs on it (connectk.cpp:75), so the array of row pointers allocated at connectk.cpp:96 leaks. The model allocates a fresh `array2` for each game.
- The error message that `newGame` writes to `cerr` for a bad size (connectk.cpp:106) is output only. The model shows that case as an absent board.
- `BoardState`, `BoardConfig`, `CKPlayer`, `updateBoard`, `playerMark` and `player` (connectk.cpp:9, 84-97, 177, 182) are declared in headers that are not part of this model. Their behaviour cannot be seen, so the calls to `updateBoard` in `getMove` are omitted.
- C++ `int` is modelled as an unbounded integer. The only place where this matters is `M - 1` at connectk.cpp:144 and connectk.cpp:165: after `newGame` with pM equal to `INT_MIN`, that subtraction overflows, which is undefined behaviour in C++ (if it wraps, the scan would start at row `INT_MAX` and index the null `board_`). The model treats that M like any other M ≤ 0: the scan runs no iteration, `NextMove` returns row and col as passed and `GetMove` returns Cell(0, 0). Every other step stays in range: `cols + 1` never exceeds N, `rows - 1` never goes below -1, and allocation sizes are positive.
- The `deadline` parameter of `getMove` (connectk.cpp:162) is never read and is omitted.
- K and G are stored but never read in this file. No win or draw detection exists in the source, so none is modelled.
- The constructor leaves `computerMark` uninitialised, as the source does; its value is arbitrary until `newGame` is called.
- ConnectKPlayer.ConnectK.NextMove: an opponent coordinate that is out of bounds and not -1 is excluded by its precondition. The source indexes the array without a check, which is undefined behaviour in C++.
- ConnectKPlayer.AiMoveUsesOneBlank: stated only for a computer mark other than `BLANK`. The source accepts any `char` as the mark but documents it as `'X'` or `'O'`.
