# Connect-4 board engine and game-configuration rules

This project models, in Dafny, the Connect-4 board of the game server's backend and
the rules its debug console applies before a game starts.

- `Board` (`backend/src/models/board_model.rs`): a `width` x `height` grid of cells,
  row 0 at the top, filled from the bottom up, plus the last move (row, column,
  symbol; row and column -1 before the first move). Its operations are
  `available_moves`, `allows_move`, `perform_move`, `undo_move`, `has_winner`,
  `is_draw`, `is_terminal` and `game_value`.
- The console's question loops (`backend/src/main.rs`, lines 81-209): the two player
  names, the four-letter game mode, the difficulty, the width and the height. Each
  question is asked again until its answer passes.

The model is purely functional. A board operation returns the new board instead of
mutating `self`. In `AllowsMoveAsWritten`, `PerformMoveAsWritten`, `CheckWindow`, `FirstFilled` and
`HasWinnerAsWritten`, a cell read is modelled with `Option`: `None` is where Rust
would panic on an out-of-range index. The move operations instead require an
on-board column (see "## Left out").

Modules:

- `Fallible`: `Option`.
- `Grid`: cells, row scans and the gravity invariant.
- `BoardModel`: moves, draws and move sequences.
- `WinCheck`: `has_winner`, modelled as the list of four-cell windows it tests.
- `GameStatus`: `is_terminal` and `game_value`.
- `GameConfig`: the console's validators.

`board_model.rs` is an early revision that does not compile. At the following places the
intent is evident:

- `allows_move` tests `col < 0 && col >= width`, which can never hold. The intended
  test is `||`.
- `perform_move` loops over `height..-1`, an empty range. The intended loop runs
  bottom-up over the rows.
- `has_winner` returns early when `row != -1`, under the comment "No moves made on
  the board so far". The intended test is `row == -1`.
- `is_draw` returns `!available_moves()`, which does not type-check. The intended
  meaning is "the list of available moves is empty".
- In addition, `available_moves` never returns the list it builds.

The model uses the intended behaviour in each case, and a comment at each place names
the source line. For the three slips that change behaviour, an `...AsWritten` member
also models the line as it stands (see "## Findings").

Two behaviours are kept exactly as the code has them:

- `has_winner` checks horizontal lines, the vertical line running down from the last
  cell, and only the top-left to bottom-right diagonal. The other diagonal is never
  checked.
- `available_moves` lists columns in ascending order.

Connect-4 normally also counts the bottom-left to top-right diagonal. This revision
does not, and `WinCheck.AntiDiagonalLineIgnored` shows a four it misses.

## Model

| member | source | states |
|---|---|---|
| `BoardModel.EmptyBoard` | backend/src/models/board_model.rs:5-14 | a new board is well formed, every column is empty, gravity holds, and the last move is the "no move yet" sentinel (-1, -1) |
| `BoardModel.AllowsMove` | backend/src/models/board_model.rs:26-36 | a column is only ever allowed if it lies on the board |
| `BoardModel.AllowsMoveIffRoom` | backend/src/models/board_model.rs:26-36 | under gravity, a column on the board accepts a move exactly when it is not full (its top cell is blank) |
| `BoardModel.AllowsMoveAsWrittenPanicsOffBoard` | backend/src/models/board_model.rs:27-30 | with `&&`, the column `width` is not rejected, and `board[0][width]` is read out of range; on the board, the as-written test agrees with the intended one |
| `BoardModel.OpenColumnsFrom` | backend/src/models/board_model.rs:19-23 | the columns from `col` on that accept a move, each exactly once, in strictly ascending order |
| `BoardModel.AvailableMoves` | backend/src/models/board_model.rs:17-24 | a column is listed exactly when it is on the board and accepts a move, and the list is strictly ascending |
| `BoardModel.PerformMove` | backend/src/models/board_model.rs:38-48 | a full column leaves the board unchanged; otherwise the symbol lands on the lowest blank cell, that cell becomes the last move, and no other cell changes |
| `BoardModel.PerformMoveAsWrittenNeverPlaces` | backend/src/models/board_model.rs:38-47 | looping over `height..-1` reads no cell and never changes the board, for any column on or off the board, whereas the intended move on an open column always changes the grid |
| `BoardModel.UndoMove` | backend/src/models/board_model.rs:50-57 | the topmost piece of the column is blanked and no other cell changes; an empty column is left as it is; the last move is not restored |
| `BoardModel.PerformMoveKeepsSettled` | backend/src/models/board_model.rs:38-48 | a move preserves gravity: below every piece every cell is occupied |
| `BoardModel.UndoMoveKeepsSettled` | backend/src/models/board_model.rs:50-57 | an undo preserves gravity |
| `BoardModel.PerformMoveLandsOnTop` | backend/src/models/board_model.rs:38-48 | on a settled board, the piece just dropped becomes the topmost piece of its column |
| `BoardModel.UndoAfterPerform` | backend/src/models/board_model.rs:38-57 | undoing a legal move in the same column restores the grid exactly |
| `BoardModel.PerformAfterUndo` | backend/src/models/board_model.rs:38-57 | dropping the removed symbol back into the column after an undo restores the grid exactly |
| `BoardModel.IsDraw` | backend/src/models/board_model.rs:97-99 | drawn exactly when no column's top cell is blank |
| `BoardModel.ZeroWidthIsDrawn` | backend/src/models/board_model.rs:17-36 | a board with no column offers no move and is drawn from the start |
| `BoardModel.DrawIffFull` | backend/src/models/board_model.rs:97-99 | under gravity, drawn exactly when every cell of the board is occupied |
| `BoardModel.LegalSequenceOnBoard` | backend/src/models/board_model.rs:26-36 | every move of a legal sequence names a column on the board |
| `BoardModel.PlayKeepsSettled` | backend/src/models/board_model.rs:38-48 | gravity holds after any legal sequence of moves |
| `BoardModel.UnwindRestoresGrid` | backend/src/models/board_model.rs:38-57 | playing a legal sequence and then undoing it latest-first restores the starting grid |
| `Grid.ScanBottomUpFindsLowestEmpty` | backend/src/models/board_model.rs:39-41 | the bottom-up scan for a blank cell runs off the end exactly when the column is full, and otherwise stops at the lowest blank cell |
| `Grid.ScanTopDownFindsTopmost` | backend/src/models/board_model.rs:51-53 | the top-down scan for a piece runs off the end exactly when the column is empty, and otherwise stops at the topmost piece |
| `Grid.RoomIffTopBlank` | backend/src/models/board_model.rs:30 | under gravity, a column has a blank cell exactly when its top cell is blank |
| `WinCheck.CheckWindow` | backend/src/models/board_model.rs:74 | a four-cell test returns a value exactly when all four cells are on the grid, and true exactly when all four hold the last symbol |
| `WinCheck.FirstFilledMeans` | backend/src/models/board_model.rs:72-94 | the early-return loop reports true only if some checked window is filled; if every window is on the grid, it reports true exactly when some window is filled |
| `WinCheck.ExaminedWindowsSound` | backend/src/models/board_model.rs:72-93 | every window `has_winner` reads lies on the board and passes through the last cell, so none of its index operations goes out of range |
| `WinCheck.ExaminedWindowsComplete` | backend/src/models/board_model.rs:72-93 | every on-board horizontal or diagonal window through the last cell is checked, and so is the downward vertical window |
| `WinCheck.HasWinnerIffWon` | backend/src/models/board_model.rs:63-95 | reports a winner exactly when a move has been made and the last symbol fills an examined line through the last cell |
| `WinCheck.HasWinnerAsWrittenNeverWins` | backend/src/models/board_model.rs:68-71 | with the inverted guard, `has_winner` never reports a winner |
| `WinCheck.HasWinnerAsWrittenBeforeFirstMove` | backend/src/models/board_model.rs:68-83 | with the inverted guard and no move yet, a board at least three rows high reads the vertical window at row -1 and panics; a lower board reads nothing and reports no winner |
| `WinCheck.HasWinnerAsWrittenMissesEveryWin` | backend/src/models/board_model.rs:68-71 | with the inverted guard, every win the intended test finds is reported as no winner |
| `WinCheck.VerticalLineStartsAtLastPiece` | backend/src/models/board_model.rs:78-83 | when the last piece is on top of its column, any filled vertical line through it starts at it, so looking only downwards loses nothing |
| `WinCheck.HasWinnerIffLineThroughLastPiece` | backend/src/models/board_model.rs:63-95 | for a last piece on top of its column: a winner is reported exactly when some on-board horizontal, vertical or top-left to bottom-right line through it is filled with its symbol |
| `WinCheck.StackOfFourWins` | backend/src/models/board_model.rs:78-83 | four copies of the last symbol stacked from the last cell downwards are reported as a win |
| `WinCheck.AntiDiagonalLineIgnored` | backend/src/models/board_model.rs:84-93 | a four on the bottom-left to top-right diagonal through the last move is not reported |
| `GameStatus.IsTerminal` | backend/src/models/board_model.rs:59-61 | terminal exactly when the last move won or no column's top cell is blank |
| `GameStatus.GameValue` | backend/src/models/board_model.rs:101-113 | +1 exactly when the last move won with `'X'`, -1 exactly when it won with any other symbol, otherwise 0; a non-zero value only on a terminal board |
| `GameStatus.NoMoveYetNotWon` | backend/src/models/board_model.rs:63-71 | before any move there is no winner and the value is 0 |
| `GameStatus.EmptyBoardNotTerminal` | backend/src/models/board_model.rs:17-24 | a new board is not terminal, and every column `0..width` is available, in order |
| `GameStatus.AllOpenColumns` | backend/src/models/board_model.rs:19-23 | when every column accepts a move, the enumeration from `col` is exactly `col..width` |
| `GameConfig.CheckPlayer1` | backend/src/main.rs:81-92 | player 1's answer is refused exactly when it is `*` or `**`, and otherwise kept unchanged |
| `GameConfig.CheckPlayer2` | backend/src/main.rs:96-110 | player 2's answer is refused exactly when it is `*` or `**`; an accepted answer is replaced by `*` when player 1 is the computer (empty name) |
| `GameConfig.ComputerNameMarksComputerGame` | backend/src/main.rs:81-110 | after both names, player 2 is `*` exactly when player 1 is empty, and neither player holds `**` |
| `GameConfig.Utf8Len` | backend/src/main.rs:119 | `String::len` counts UTF-8 bytes: at least the number of characters, and equal to it exactly when every character is ASCII |
| `GameConfig.ParseMode` | backend/src/main.rs:113-143 | a length error exactly when the UTF-8 length is not 4; at length 4, a letter error exactly when some character is not `T` or `O`, and otherwise a symmetry error exactly when the letters are not symmetric; accepted exactly when the answer is four `T`/`O` letters with the first equal to the last and the second equal to the third; the result is a symmetric four-element mode with `O` as true |
| `GameConfig.ParseRenderedMode` | backend/src/main.rs:119-141 | a mode written out as letters is accepted exactly when it has four elements and is symmetric, and it then reads back as itself |
| `GameConfig.RenderParsedMode` | backend/src/main.rs:134-141 | an accepted mode, written back as letters, is the answer that was typed |
| `GameConfig.CheckAtLeast` | backend/src/main.rs:151-164 | a numeric answer is refused as invalid exactly when it did not parse, refused as too small exactly when it is below the bound, and otherwise kept |
| `GameConfig.CheckDifficulty` | backend/src/main.rs:151-158 | the difficulty is accepted exactly when it parsed and is at least 0 |
| `GameConfig.CheckDimension` | backend/src/main.rs:173-202 | the width and the height are each accepted exactly when they parsed and are at least 1 |
| `GameConfig.Ask` | backend/src/main.rs:146-165 | a question loop stops at the first accepted answer, and every earlier answer was refused |
| `GameConfig.ConfiguredSettingsAreValid` | backend/src/main.rs:81-209 | the settings a session produces meet every rule: no reserved player name, `*` as player 2 exactly for a computer player 1, a symmetric four-letter mode, difficulty at least 0, positive dimensions, and a well-formed empty board of that size |

## Left out

- The Rocket server, CORS setup, HTTP handlers, MongoDB repositories, argon2 password hashing and the frontend. They are persistence and transport, not game logic.
- The console's I/O: prompts, `read_line`, `trim` and `str::parse::<i64>`. The validators take the trimmed answer, or the parse result as an `Option`, as parameters.
- The console's `host_game` loop and the board lookup after configuration. `Board::new`, `alpha_beta`, `get_next_player`, and the mode, difficulty and player fields are not part of this model, because `board_model.rs` does not define them.
- The TOOT-OTTO piece inventory and pattern-based winner. `board_model.rs` has neither.
- The database id field of `Board`. It has no effect on play.
- Cells are modelled as one symbol each (`Empty` or `Piece(c)`), where the source stores `String`s with `" "` for blank. A placed symbol that is itself a blank, or a string of more than one character, is not modelled. For such strings, the source's test on four concatenated cells could match without the four cells being equal.
- `last_player` is declared `i64` in the source but is assigned the placed symbol and compared with `'X'`. It is modelled as the placed `char`.
- BoardModel.WellFormed: requires `height >= 1`, where `allows_move` would panic reading `board[0]` (line 30) on a board with no row. The console guarantees a positive height (`backend/src/main.rs`, line 197); the board API builds its board with `Board::new` (`backend/src/api/board_api.rs`, line 23), which is not part of this model. A width of 0 is allowed.
- BoardModel.PerformMove: requires a column on the board, where `perform_move` (line 40) would panic on an off-board column. The board API tests the human move with `allows_move` first (`backend/src/api/board_api.rs`, lines 49-51). The computer's move (line 82) plays the column `alpha_beta` returns, and `board_model.rs` does not define `alpha_beta`, so no visible code guarantees that column is on the board.
- BoardModel.UndoMove: requires a column on the board, where `undo_move` (line 52) would panic on an off-board column.
- Integers are unbounded. `i64` overflow in `col + 1`, `width - 3` or `row - i` needs a board dimension near 2^63, and is not modelled.
- GameConfig.Ask: when every answer given is refused, it returns `None`, whereas the console would keep reading stdin forever.
- BoardModel.UnwindRestoresGrid: states that the grid is restored, not the whole board, because `undo_move` does not restore the last move.

## Findings

| source | as written | input that shows it | evidently intended | confidence | as-written member | corrected member |
|---|---|---|---|---|---|---|
| backend/src/models/board_model.rs:27 | `*col < 0 && *col >= self->width` can never hold, so no column is rejected | `col = width` on any board: the guard passes and `board[0][width]` is read out of range | the same two comparisons joined by logical or, rejecting every column off the board | high; not executed | `BoardModel.AllowsMoveAsWrittenPanicsOffBoard` (about `BoardModel.AllowsMoveAsWritten`) | `BoardModel.AllowsMoveIffRoom` (about `BoardModel.AllowsMove`) |
| backend/src/models/board_model.rs:39 | `for row in self->height..-1` is an empty range, so no piece is ever placed | column 0 of an empty 1 x 1 board: the board is unchanged | `for row in (0..self->height).rev()` | high; not executed | `BoardModel.PerformMoveAsWrittenNeverPlaces` (about `BoardModel.PerformMoveAsWritten`) | `BoardModel.PerformMove` |
| backend/src/models/board_model.rs:69 | `if row != -1 { return false; }` returns "no winner" after every move | a 1 x 4 board whose only column holds four `'X'`, last move at row 0: no winner is reported | `if row == -1 { return false; }` | high; not executed | `WinCheck.HasWinnerAsWrittenMissesEveryWin` (about `WinCheck.HasWinnerAsWritten`) | `WinCheck.HasWinnerIffWon` (about `WinCheck.HasWinner`) |
