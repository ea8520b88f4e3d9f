/** The Connect-4 board of `backend/src/models/board_model.rs`: the grid plus the
    last move, and the operations that test, make and retract a move.

    The source file is an early revision that does not compile; where a line
    contains an evident slip the functions below follow the plainly intended
    behaviour, and a comment at that line names the slip. For the slips that change
    behaviour an `...AsWritten` member models the line as it stands. */
module BoardModel {

  import opened Fallible
  import opened Grid

  /** `width` x `height` cells, plus the most recent move. `lastRow == lastCol == -1`
      is the "no move yet" sentinel. `lastPlayer` is the symbol that was placed last
      (the source declares it `i64` but stores the placed `String` in it and compares
      it with `'X'`). The database id is not part of the model. */
  datatype Board = Board(
    width: int,
    height: int,
    grid: Grid,
    lastRow: int,
    lastCol: int,
    lastPlayer: char)

  /** No move has been recorded. */
  predicate NoMoveYet(b: Board) {
    b.lastRow == -1 && b.lastCol == -1
  }

  /** The shape every board operation relies on: a rectangular grid with at least one
      row (row 0 exists, as `allows_move` reads it; a board with no column is allowed)
      and a last move that is either the sentinel or a cell of the grid (as
      `has_winner` reads it). */
  ghost predicate WellFormed(b: Board) {
    && b.width >= 0
    && b.height >= 1
    && IsRect(b.grid, b.width, b.height)
    && (NoMoveYet(b) || (0 <= b.lastRow < b.height && 0 <= b.lastCol < b.width))
  }

  /** The board every game starts from: all cells blank, no move yet. */
  function EmptyBoard(width: int, height: int, lastPlayer: char): (b: Board)
    requires width >= 0 && height >= 1
    ensures WellFormed(b) && NoMoveYet(b)
    ensures b.width == width && b.height == height
    ensures forall c | 0 <= c < width :: ColumnEmpty(b.grid, c)
    ensures Settled(b.grid, b.width)
  {
    Board(width, height, seq(height, _ => seq(width, _ => Empty)), -1, -1, lastPlayer)
  }

  /** `allows_move`: the column is on the board and its top cell is blank. The source
      tests `*col < 0 && *col >= self->width` (line 27), which no column satisfies; the
      evidently intended `||` is used here. */
  function AllowsMove(b: Board, col: int): (ok: bool)
    requires WellFormed(b)
    ensures ok ==> 0 <= col < b.width
  {
    if col < 0 || col >= b.width then false
    else b.grid[0][col] == Empty
  }

  /** `allows_move` as written: the range test with `&&` never rejects, so an
      out-of-range column reaches `board[0][col]`, which panics (`None`). */
  function AllowsMoveAsWritten(b: Board, col: int): (ok: Option<bool>)
    requires WellFormed(b)
  {
    if col < 0 && col >= b.width then Some(false)
    else match CellAt(b.grid, 0, col)
      case None => None
      case Some(c) => Some(c == Empty)
  }

  /** Under gravity a move is allowed exactly in the columns that still have a blank
      cell, i.e. where `PerformMove` places a piece. */
  lemma AllowsMoveIffRoom(b: Board, col: int)
    requires WellFormed(b) && Settled(b.grid, b.width) && 0 <= col < b.width
    ensures AllowsMove(b, col) <==> !ColumnFull(b.grid, col)
  {
    RoomIffTopBlank(b.grid, col);
  }

  /** The `&&` slip: a column just right of the board is rejected by the intended test
      but makes the written one index out of range. */
  lemma AllowsMoveAsWrittenPanicsOffBoard(b: Board)
    requires WellFormed(b)
    ensures !AllowsMove(b, b.width)
    ensures AllowsMoveAsWritten(b, b.width) == None
    ensures forall col | 0 <= col < b.width :: AllowsMoveAsWritten(b, col) == Some(AllowsMove(b, col))
  {
  }

  /** The allowed columns among `col`, `col + 1`, ..., `width - 1`, in ascending order. */
  function OpenColumnsFrom(b: Board, col: int): (cols: seq<int>)
    requires WellFormed(b) && 0 <= col <= b.width
    ensures forall i | 0 <= i < |cols| :: col <= cols[i] < b.width && AllowsMove(b, cols[i])
    ensures forall c | col <= c < b.width && AllowsMove(b, c) :: c in cols
    ensures forall i, j | 0 <= i < j < |cols| :: cols[i] < cols[j]
    decreases b.width - col
  {
    if col == b.width then []
    else if AllowsMove(b, col) then [col] + OpenColumnsFrom(b, col + 1)
    else OpenColumnsFrom(b, col + 1)
  }

  /** `available_moves`: the loop over `0..width` pushes each allowed column in turn.
      The source omits the final `return allowable_moves`; it is the evident result. */
  function AvailableMoves(b: Board): (cols: seq<int>)
    requires WellFormed(b)
    ensures forall c :: c in cols <==> 0 <= c < b.width && AllowsMove(b, c)
    ensures forall i, j | 0 <= i < j < |cols| :: cols[i] < cols[j]
  {
    OpenColumnsFrom(b, 0)
  }

  /** Writes `ox` into the first blank cell of `col` met along `rows` and records it as
      the last move; leaves the board as it is when the scan meets no blank cell. This
      is the loop of `perform_move`, with the row order as a parameter. */
  function PlaceAlong(b: Board, col: int, ox: char, rows: seq<int>): (r: Board)
    requires WellFormed(b) && 0 <= col < b.width && RowsIn(b.grid, rows)
  {
    var i := Scan(b.grid, col, rows, false);
    if i == |rows| then b
    else b.(grid := SetCell(b.grid, rows[i], col, Piece(ox)), lastRow := rows[i], lastCol := col, lastPlayer := ox)
  }

  /** `perform_move`: drops `ox` into column `col`, where it lands on the lowest blank
      cell. The source iterates `self->height..-1`, an empty Rust range (line 39); the
      evidently intended bottom-up scan `(0..height).rev()` is used here. A full
      column leaves the board unchanged, as the loop then finds nothing to fill. */
  function PerformMove(b: Board, col: int, ox: char): (r: Board)
    requires WellFormed(b) && 0 <= col < b.width
    ensures WellFormed(r) && r.width == b.width && r.height == b.height
    ensures ColumnFull(b.grid, col) ==> r == b
    ensures !ColumnFull(b.grid, col) ==>
      && IsLowestEmpty(b.grid, col, r.lastRow)
      && r.lastCol == col && r.lastPlayer == ox
      && r.grid[r.lastRow][col] == Piece(ox)
      && OnlyCellChanged(b.grid, r.grid, r.lastRow, col)
  {
    ScanBottomUpFindsLowestEmpty(b.grid, col);
    PlaceAlong(b, col, ox, BottomUp(b.height))
  }

  /** The loop of `perform_move` as written, over `rows`, for any column: each row's
      cell is read (`None` where `board[row][col]` is out of range), and the first blank
      one receives `ox`. */
  function PlaceAlongAsWritten(b: Board, col: int, ox: char, rows: seq<int>): (r: Option<Board>)
    decreases |rows|
  {
    if |rows| == 0 then Some(b)
    else match CellAt(b.grid, rows[0], col)
      case None => None
      case Some(c) =>
        if c == Empty then
          Some(b.(grid := SetCell(b.grid, rows[0], col, Piece(ox)), lastRow := rows[0], lastCol := col, lastPlayer := ox))
        else PlaceAlongAsWritten(b, col, ox, rows[1..])
  }

  /** `perform_move` as written: the row loop runs over `height..-1`, which is empty. */
  function PerformMoveAsWritten(b: Board, col: int, ox: char): (r: Option<Board>)
    requires WellFormed(b)
  {
    PlaceAlongAsWritten(b, col, ox, Range(b.height, -1))
  }

  /** The empty-range slip: as written no move, on any column, reads a cell or changes
      the board, while on a column with room the intended move always places a piece. */
  lemma PerformMoveAsWrittenNeverPlaces(b: Board, col: int, ox: char)
    requires WellFormed(b)
    ensures PerformMoveAsWritten(b, col, ox) == Some(b)
    ensures 0 <= col < b.width && AllowsMove(b, col) ==> PerformMove(b, col, ox).grid != b.grid
  {
    if 0 <= col < b.width && AllowsMove(b, col) {
      assert !ColumnFull(b.grid, col) by { assert b.grid[0][col] == Empty; }
      var r := PerformMove(b, col, ox);
      assert r.grid[r.lastRow][col] != b.grid[r.lastRow][col];
    }
  }

  /** `undo_move`: scanning `col` from the top, blanks the first occupied cell. The
      last move is left as it was; a column with no piece is left unchanged. */
  function UndoMove(b: Board, col: int): (r: Board)
    requires WellFormed(b) && 0 <= col < b.width
    ensures WellFormed(r) && r.width == b.width && r.height == b.height
    ensures r.lastRow == b.lastRow && r.lastCol == b.lastCol && r.lastPlayer == b.lastPlayer
    ensures ColumnEmpty(b.grid, col) ==> r == b
    ensures !ColumnEmpty(b.grid, col) ==>
      && r.grid[TopmostRow(b.grid, col)][col] == Empty
      && OnlyCellChanged(b.grid, r.grid, TopmostRow(b.grid, col), col)
  {
    var t := TopmostRow(b.grid, col);
    if t == b.height then b
    else b.(grid := SetCell(b.grid, t, col, Empty))
  }

  /** Two grids that agree cell by cell are equal. */
  lemma GridsEqual(g: Grid, g': Grid, width: int)
    requires IsRect(g, width, |g|) && IsRect(g', width, |g|)
    requires forall r, c | 0 <= r < |g| && 0 <= c < width :: g'[r][c] == g[r][c]
    ensures g' == g
  {
    forall r | 0 <= r < |g|
      ensures g'[r] == g[r]
    {
      assert forall c | 0 <= c < width :: g'[r][c] == g[r][c];
    }
  }

  /** A move keeps gravity: the piece lands on top of the column's block. */
  lemma PerformMoveKeepsSettled(b: Board, col: int, ox: char)
    requires WellFormed(b) && Settled(b.grid, b.width) && 0 <= col < b.width
    ensures Settled(PerformMove(b, col, ox).grid, b.width)
  {
    var r := PerformMove(b, col, ox);
    if !ColumnFull(b.grid, col) {
      var g: Grid, g': Grid := b.grid, r.grid;
      forall c | 0 <= c < b.width
        ensures ColumnSettled(g', c)
      {
        assert ColumnSettled(g, c);
        forall r1, r2 | 0 <= r1 <= r2 < |g'| && g'[r1][c].Piece?
          ensures g'[r2][c].Piece?
        {
          if c == col && r2 == r.lastRow {
          } else if c == col && r1 == r.lastRow {
            assert g[r2][c].Piece?;
          } else {
            assert g[r1][c].Piece?;
            assert g[r2][c].Piece?;
          }
        }
      }
    }
  }

  /** Retracting a move keeps gravity: the topmost piece leaves the column's block. */
  lemma UndoMoveKeepsSettled(b: Board, col: int)
    requires WellFormed(b) && Settled(b.grid, b.width) && 0 <= col < b.width
    ensures Settled(UndoMove(b, col).grid, b.width)
  {
    var r := UndoMove(b, col);
    if !ColumnEmpty(b.grid, col) {
      var t := TopmostRow(b.grid, col);
      var g: Grid, g': Grid := b.grid, r.grid;
      forall c | 0 <= c < b.width
        ensures ColumnSettled(g', c)
      {
        forall r1, r2 | 0 <= r1 <= r2 < |g'| && g'[r1][c].Piece?
          ensures g'[r2][c].Piece?
        {
          assert ColumnSettled(g, c);
          assert g[r1][c].Piece?;
          assert g[r2][c].Piece?;
          if c == col {
            assert r1 > t;
          }
        }
      }
    }
  }

  /** After a move on a settled board, the placed piece is the column's topmost one. */
  lemma PerformMoveLandsOnTop(b: Board, col: int, ox: char)
    requires WellFormed(b) && Settled(b.grid, b.width) && AllowsMove(b, col)
    ensures var r := PerformMove(b, col, ox);
      IsTopmostPiece(r.grid, col, r.lastRow)
  {
    AllowsMoveIffRoom(b, col);
    var r := PerformMove(b, col, ox);
    assert ColumnSettled(b.grid, col);
    forall k | 0 <= k < r.lastRow
      ensures r.grid[k][col] == Empty
    {
      var landing := b.grid[r.lastRow][col];
      assert b.grid[k][col].Piece? ==> landing.Piece?;
    }
  }

  /** Retracting a move restores the grid (but not the last-move fields). */
  lemma UndoAfterPerform(b: Board, col: int, ox: char)
    requires WellFormed(b) && Settled(b.grid, b.width) && AllowsMove(b, col)
    ensures UndoMove(PerformMove(b, col, ox), col).grid == b.grid
  {
    AllowsMoveIffRoom(b, col);
    var r := PerformMove(b, col, ox);
    PerformMoveLandsOnTop(b, col, ox);
    var u := UndoMove(r, col);
    TopmostPieceUnique(r.grid, col, r.lastRow, TopmostRow(r.grid, col));
    assert u.grid[r.lastRow][col] == Empty;
    GridsEqual(b.grid, u.grid, b.width);
  }

  /** Dropping the symbol that was on top of a column back into it undoes `UndoMove`. */
  lemma PerformAfterUndo(b: Board, col: int, t: int)
    requires WellFormed(b) && Settled(b.grid, b.width) && 0 <= col < b.width
    requires IsTopmostPiece(b.grid, col, t)
    ensures PerformMove(UndoMove(b, col), col, b.grid[t][col].symbol).grid == b.grid
  {
    var u := UndoMove(b, col);
    TopmostPieceUnique(b.grid, col, t, TopmostRow(b.grid, col));
    assert !ColumnFull(u.grid, col) by { assert u.grid[t][col] == Empty; }
    var p := PerformMove(u, col, b.grid[t][col].symbol);
    assert p.lastRow == t by {
      assert ColumnSettled(b.grid, col);
      forall k | t < k < b.height
        ensures u.grid[k][col].Piece?
      {
        assert b.grid[k][col].Piece?;
      }
      LowestEmptyUnique(u.grid, col, t, p.lastRow);
    }
    GridsEqual(b.grid, p.grid, b.width);
  }

  /** `is_draw`: no column accepts a move. The source writes `!self->available_moves()`
      (line 98), which does not type-check; the evident meaning "the list is empty" is
      used here. */
  function IsDraw(b: Board): (draw: bool)
    requires WellFormed(b)
    ensures draw <==> forall c | 0 <= c < b.width :: b.grid[0][c].Piece?
  {
    var moves := AvailableMoves(b);
    assert forall c | 0 <= c < b.width && b.grid[0][c] == Empty :: c in moves;
    assert |moves| > 0 ==> moves[0] in moves;
    |moves| == 0
  }

  /** A board with no column offers no move, so it is drawn from the start. */
  lemma ZeroWidthIsDrawn(b: Board)
    requires WellFormed(b) && b.width == 0
    ensures AvailableMoves(b) == [] && IsDraw(b)
  {
  }

  /** Under gravity the game is drawn exactly when every cell of the board is occupied. */
  lemma DrawIffFull(b: Board)
    requires WellFormed(b) && Settled(b.grid, b.width)
    ensures IsDraw(b) <==> forall r, c | 0 <= r < b.height && 0 <= c < b.width :: b.grid[r][c].Piece?
  {
    if IsDraw(b) {
      forall r, c | 0 <= r < b.height && 0 <= c < b.width
        ensures b.grid[r][c].Piece?
      {
        assert ColumnSettled(b.grid, c);
        assert b.grid[0][c].Piece?;
      }
    }
  }

  /** A column to drop into and the symbol to drop. */
  datatype Move = Move(col: int, symbol: char)

  /** Each move of `moves` is allowed on the board the previous ones leave. */
  ghost predicate LegalSequence(b: Board, moves: seq<Move>)
    requires WellFormed(b)
    decreases |moves|
  {
    |moves| == 0 ||
      (AllowsMove(b, moves[0].col)
       && LegalSequence(PerformMove(b, moves[0].col, moves[0].symbol), moves[1..]))
  }

  /** The board after making `moves` in order. */
  function Play(b: Board, moves: seq<Move>): (r: Board)
    requires WellFormed(b) && LegalSequence(b, moves)
    ensures WellFormed(r) && r.width == b.width && r.height == b.height
    decreases |moves|
  {
    if |moves| == 0 then b
    else Play(PerformMove(b, moves[0].col, moves[0].symbol), moves[1..])
  }

  /** Retracts `moves` latest first: the later moves, then the first one. */
  function Unwind(b: Board, moves: seq<Move>): (r: Board)
    requires WellFormed(b) && forall i | 0 <= i < |moves| :: 0 <= moves[i].col < b.width
    ensures WellFormed(r) && r.width == b.width && r.height == b.height
    decreases |moves|
  {
    if |moves| == 0 then b
    else UndoMove(Unwind(b, moves[1..]), moves[0].col)
  }

  /** Every move of a legal sequence is on the board. */
  lemma {:induction false} LegalSequenceOnBoard(b: Board, moves: seq<Move>)
    requires WellFormed(b) && LegalSequence(b, moves)
    ensures forall i | 0 <= i < |moves| :: 0 <= moves[i].col < b.width
    decreases |moves|
  {
    if |moves| > 0 {
      LegalSequenceOnBoard(PerformMove(b, moves[0].col, moves[0].symbol), moves[1..]);
      assert forall i | 1 <= i < |moves| :: moves[i] == moves[1..][i - 1];
    }
  }

  /** Gravity holds after any sequence of legal moves from a settled board. */
  lemma {:induction false} PlayKeepsSettled(b: Board, moves: seq<Move>)
    requires WellFormed(b) && Settled(b.grid, b.width) && LegalSequence(b, moves)
    ensures Settled(Play(b, moves).grid, b.width)
    decreases |moves|
  {
    if |moves| > 0 {
      PerformMoveKeepsSettled(b, moves[0].col, moves[0].symbol);
      PlayKeepsSettled(PerformMove(b, moves[0].col, moves[0].symbol), moves[1..]);
    }
  }

  /** `UndoMove` reads only the grid: boards with the same grid undo to the same grid. */
  lemma UndoMoveReadsOnlyGrid(b: Board, b': Board, col: int)
    requires WellFormed(b) && WellFormed(b') && 0 <= col < b.width
    requires b'.grid == b.grid && b'.width == b.width && b'.height == b.height
    ensures UndoMove(b', col).grid == UndoMove(b, col).grid
  {
  }

  /** Retracting a legal sequence of moves, latest first, restores the grid it started
      from: the apply-then-undo discipline leaves no trace on the cells. */
  lemma {:induction false} UnwindRestoresGrid(b: Board, moves: seq<Move>)
    requires WellFormed(b) && Settled(b.grid, b.width) && LegalSequence(b, moves)
    ensures (forall i | 0 <= i < |moves| :: 0 <= moves[i].col < b.width)
      && Unwind(Play(b, moves), moves).grid == b.grid
    decreases |moves|
  {
    LegalSequenceOnBoard(b, moves);
    if |moves| > 0 {
      var m := moves[0];
      var b1 := PerformMove(b, m.col, m.symbol);
      PerformMoveKeepsSettled(b, m.col, m.symbol);
      UnwindRestoresGrid(b1, moves[1..]);
      var x := Unwind(Play(b1, moves[1..]), moves[1..]);
      assert Unwind(Play(b, moves), moves) == UndoMove(x, m.col);
      UndoMoveReadsOnlyGrid(b1, x, m.col);
      UndoAfterPerform(b, m.col, m.symbol);
    }
  }
}
