/** End-of-game tests of `backend/src/models/board_model.rs`: `is_terminal` and
    `game_value`. */
module GameStatus {

  import opened Grid
  import opened BoardModel
  import opened WinCheck

  /** `is_terminal`: the last move won, or the game is drawn. */
  function IsTerminal(b: Board): (done: bool)
    requires WellFormed(b)
    ensures done <==> Won(b) || forall c | 0 <= c < b.width :: b.grid[0][c].Piece?
  {
    HasWinnerIffWon(b);
    HasWinner(b) || IsDraw(b)
  }

  /** `game_value`: +1 when the last move won and placed `'X'`, -1 when it won with
      any other symbol, 0 otherwise (a draw, or a position that is not terminal). */
  function GameValue(b: Board): (v: int)
    requires WellFormed(b)
    ensures -1 <= v <= 1
    ensures v == 1 <==> Won(b) && b.lastPlayer == 'X'
    ensures v == -1 <==> Won(b) && b.lastPlayer != 'X'
    ensures v != 0 ==> IsTerminal(b)
  {
    HasWinnerIffWon(b);
    if HasWinner(b) then
      if b.lastPlayer == 'X' then 1 else -1
    else if IsDraw(b) then
      0
    else
      0
  }

  /** A board with no move yet is terminal only when it has no open column. */
  lemma NoMoveYetNotWon(b: Board)
    requires WellFormed(b) && NoMoveYet(b)
    ensures !HasWinner(b) && GameValue(b) == 0
    ensures IsTerminal(b) <==> IsDraw(b)
  {
  }

  /** The game starts neither won nor drawn, with every column open in ascending order. */
  lemma EmptyBoardNotTerminal(width: int, height: int, p: char)
    requires width >= 1 && height >= 1
    ensures !IsTerminal(EmptyBoard(width, height, p))
    ensures AvailableMoves(EmptyBoard(width, height, p)) == Range(0, width)
  {
    var b := EmptyBoard(width, height, p);
    assert b.grid[0][0] == Empty;
    forall c | 0 <= c < width
      ensures AllowsMove(b, c)
    {
      assert ColumnEmpty(b.grid, c);
    }
    AllOpenColumns(b, 0);
  }

  /** When every column accepts a move, the open columns from `col` on are `col..width`. */
  lemma {:induction false} AllOpenColumns(b: Board, col: int)
    requires WellFormed(b) && 0 <= col <= b.width
    requires forall c | 0 <= c < b.width :: AllowsMove(b, c)
    ensures OpenColumnsFrom(b, col) == Range(col, b.width)
    decreases b.width - col
  {
    if col < b.width {
      AllOpenColumns(b, col + 1);
    }
  }
}
