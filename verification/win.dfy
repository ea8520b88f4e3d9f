/** Win detection of `has_winner` in `backend/src/models/board_model.rs`: whether the
    last-placed piece completes four equal symbols in a line.

    The source inspects, in this order, the horizontal windows through the last cell,
    the single vertical window that starts at the last cell and runs downwards, and
    the windows through the last cell along the top-left to bottom-right diagonal.
    The other diagonal is not inspected, and this model keeps it that way. */
module WinCheck {

  import opened Fallible
  import opened Grid
  import opened BoardModel

  /** The line orientations the source inspects. `Diagonal` runs from top-left to
      bottom-right (row and column both grow). */
  datatype Direction = Horizontal | Vertical | Diagonal

  /** Four cells in a line, starting at (`row`, `col`) and stepping along `dir`. */
  datatype Window = Window(row: int, col: int, dir: Direction)

  /** Row of the `k`-th cell of `w`. */
  function CellRow(w: Window, k: int): (row: int) {
    if w.dir == Horizontal then w.row else w.row + k
  }

  /** Column of the `k`-th cell of `w`. */
  function CellCol(w: Window, k: int): (col: int) {
    if w.dir == Vertical then w.col else w.col + k
  }

  function Max(a: int, b: int): (m: int) { if a >= b then a else b }

  function Min(a: int, b: int): (m: int) { if a <= b then a else b }

  /** All four cells of `w` lie on a `width` x `height` board. */
  ghost predicate InBounds(w: Window, width: int, height: int) {
    0 <= w.row && CellRow(w, 3) < height && 0 <= w.col && CellCol(w, 3) < width
  }

  /** Cell (`row`, `col`) is one of the four cells of `w`. */
  ghost predicate Covers(w: Window, row: int, col: int) {
    exists k | 0 <= k < 4 :: CellRow(w, k) == row && CellCol(w, k) == col
  }

  /** All four cells of `w` exist in `g` and hold symbol `p`. */
  ghost predicate Filled(g: Grid, w: Window, p: char) {
    forall k | 0 <= k < 4 :: CellAt(g, CellRow(w, k), CellCol(w, k)) == Some(Piece(p))
  }

  /** All four cells of `w` exist in `g`. */
  ghost predicate OnGrid(g: Grid, w: Window) {
    forall k | 0 <= k < 4 :: CellAt(g, CellRow(w, k), CellCol(w, k)).Some?
  }

  /** The source's test of one window: the four cells, concatenated, against the last
      symbol repeated four times. All four cells are read before the comparison, so
      the test panics (`None`) as soon as one of them is off the grid. */
  function CheckWindow(g: Grid, w: Window, p: char): (r: Option<bool>)
    ensures r.Some? <==> OnGrid(g, w)
    ensures r == Some(true) <==> Filled(g, w, p)
  {
    var c0 := CellAt(g, CellRow(w, 0), CellCol(w, 0));
    var c1 := CellAt(g, CellRow(w, 1), CellCol(w, 1));
    var c2 := CellAt(g, CellRow(w, 2), CellCol(w, 2));
    var c3 := CellAt(g, CellRow(w, 3), CellCol(w, 3));
    if c0.None? || c1.None? || c2.None? || c3.None? then None
    else Some(c0.value == Piece(p) && c1.value == Piece(p) && c2.value == Piece(p) && c3.value == Piece(p))
  }

  /** The early-return loop over the windows `ws`: `Some(true)` at the first filled
      window, `None` at a window that panics before any filled one, else `Some(false)`. */
  function FirstFilled(g: Grid, ws: seq<Window>, p: char): (r: Option<bool>)
    decreases |ws|
  {
    if |ws| == 0 then Some(false)
    else match CheckWindow(g, ws[0], p)
      case None => None
      case Some(true) => Some(true)
      case Some(false) =>
        FirstFilled(g, ws[1..], p)
  }

  /** What the loop's answer means: a reported win lies in some window, and when no
      window panics the loop reports a win exactly when some window is filled. */
  lemma {:induction false} FirstFilledMeans(g: Grid, ws: seq<Window>, p: char)
    ensures FirstFilled(g, ws, p) == Some(true) ==> exists j | 0 <= j < |ws| :: Filled(g, ws[j], p)
    ensures (forall j | 0 <= j < |ws| :: OnGrid(g, ws[j])) ==>
      FirstFilled(g, ws, p) == Some(exists j | 0 <= j < |ws| :: Filled(g, ws[j], p))
    decreases |ws|
  {
    if |ws| > 0 && CheckWindow(g, ws[0], p) == Some(false) {
      FirstFilledMeans(g, ws[1..], p);
      assert forall j | 1 <= j < |ws| :: ws[j] == ws[1..][j - 1];
    }
  }

  /** The source's guard on a diagonal start: `0 <= r < height - 3 && 0 <= c < width - 3`. */
  predicate DiagonalFits(r: int, c: int, width: int, height: int) {
    0 <= r < height - 3 && 0 <= c < width - 3
  }

  /** When every window is on the grid, a filled one makes the loop report a win. */
  lemma FirstFilledFinds(g: Grid, ws: seq<Window>, p: char, j: int)
    requires forall i | 0 <= i < |ws| :: OnGrid(g, ws[i])
    requires 0 <= j < |ws| && Filled(g, ws[j], p)
    ensures FirstFilled(g, ws, p) == Some(true)
  {
    FirstFilledMeans(g, ws, p);
  }

  /** The diagonal windows `(row - i, col - i)` for `i` from `from` up to 3 that pass
      the source's guard: the tail of its loop `for i in 0..4`. */
  function DiagonalWindows(row: int, col: int, width: int, height: int, from: int): (ws: seq<Window>)
    ensures |ws| <= if from < 4 then 4 - from else 0
    decreases 4 - from
  {
    if from >= 4 then []
    else
      var r, c := row - from, col - from;
      (if DiagonalFits(r, c, width, height) then [Window(r, c, Diagonal)] else [])
      + DiagonalWindows(row, col, width, height, from + 1)
  }

  /** The diagonal windows listed from `from` on are exactly the starts `(row - i, col - i)`,
      `from <= i < 4`, that pass the guard. */
  lemma {:induction false} DiagonalWindowsMeans(row: int, col: int, width: int, height: int, from: int)
    ensures forall w | w in DiagonalWindows(row, col, width, height, from) ::
      && w.dir == Diagonal && from <= row - w.row < 4 && col - w.col == row - w.row
      && DiagonalFits(w.row, w.col, width, height)
    ensures forall w: Window |
      && w.dir == Diagonal && from <= row - w.row < 4 && col - w.col == row - w.row
      && DiagonalFits(w.row, w.col, width, height) :: w in DiagonalWindows(row, col, width, height, from)
    decreases 4 - from
  {
    if from < 4 {
      DiagonalWindowsMeans(row, col, width, height, from + 1);
    }
  }

  /** The horizontal windows `(row, c)` for `c` in `cs`. */
  function HorizontalWindows(row: int, cs: seq<int>): (ws: seq<Window>)
    ensures |ws| == |cs|
    ensures forall j | 0 <= j < |cs| :: ws[j] == Window(row, cs[j], Horizontal)
  {
    seq(|cs|, j requires 0 <= j < |cs| => Window(row, cs[j], Horizontal))
  }

  /** The windows `has_winner` tests, in the order it tests them: horizontal starts
      `max(0, col-3) .. min(width-3, col+1)`, the downward vertical window when
      `row < height - 3`, and the diagonal starts `(row - i, col - i)` for `i` in `0..4`
      that pass the guard: at most four horizontal, one vertical and four diagonal. */
  function ExaminedWindows(b: Board): (ws: seq<Window>)
    ensures |ws| <= 9
  {
    var row, col := b.lastRow, b.lastCol;
    HorizontalWindows(row, HorizontalStarts(b))
    + (if row < b.height - 3 then [Window(row, col, Vertical)] else [])
    + DiagonalWindows(row, col, b.width, b.height, 0)
  }

  /** `has_winner`. The source reads `if row != -1 { return false; }` under the comment
      "No moves made on the board so far" (lines 68-69); the evidently intended test
      `row == -1` is used here. */
  function HasWinner(b: Board): (won: bool)
    requires WellFormed(b)
  {
    if b.lastRow == -1 then false
    else FirstFilled(b.grid, ExaminedWindows(b), b.lastPlayer) == Some(true)
  }

  /** `has_winner` as written, with the inverted guard: once a move has been made it
      answers `false` at once; before, it reaches the window loops with row and column
      -1, and the vertical window then reads `board[-1]` (`None`) on boards at least
      three rows high, where the guard `row < height - 3` holds for `row == -1`. */
  function HasWinnerAsWritten(b: Board): (r: Option<bool>)
    requires WellFormed(b)
  {
    if b.lastRow != -1 then Some(false)
    else FirstFilled(b.grid, ExaminedWindows(b), b.lastPlayer)
  }

  /** A window `has_winner` examines: on the board, through the last cell, and, if
      vertical, starting at the last cell (the source looks only downwards). */
  ghost predicate Examined(b: Board, w: Window) {
    && InBounds(w, b.width, b.height)
    && Covers(w, b.lastRow, b.lastCol)
    && (w.dir == Vertical ==> w.row == b.lastRow)
  }

  /** The last move completed four of its symbol in an examined window. */
  ghost predicate Won(b: Board) {
    b.lastRow != -1 && exists w :: Examined(b, w) && Filled(b.grid, w, b.lastPlayer)
  }

  /** On a rectangular grid, a window's cells all exist exactly when it is in bounds. */
  lemma OnGridIffInBounds(b: Board, w: Window)
    requires WellFormed(b)
    ensures OnGrid(b.grid, w) <==> InBounds(w, b.width, b.height)
  {
    if OnGrid(b.grid, w) {
      assert CellAt(b.grid, CellRow(w, 0), CellCol(w, 0)).Some?;
      assert CellAt(b.grid, CellRow(w, 3), CellCol(w, 3)).Some?;
    }
  }

  /** The horizontal starts the source loops over, `max(0, col-3) .. min(width-3, col+1)`. */
  function HorizontalStarts(b: Board): (cs: seq<int>)
    ensures |cs| <= 4
  {
    Range(Max(0, b.lastCol - 3), Min(b.width - 3, b.lastCol + 1))
  }

  /** A horizontal window `has_winner` tests is examined. */
  lemma HorizontalWindowExamined(b: Board, j: int)
    requires WellFormed(b) && b.lastRow != -1
    requires 0 <= j < |HorizontalStarts(b)|
    ensures Examined(b, Window(b.lastRow, HorizontalStarts(b)[j], Horizontal))
  {
    var w := Window(b.lastRow, HorizontalStarts(b)[j], Horizontal);
    var k := b.lastCol - w.col;
    assert CellRow(w, k) == b.lastRow && CellCol(w, k) == b.lastCol;
  }

  /** A diagonal window `has_winner` tests is examined. */
  lemma DiagonalWindowExamined(b: Board, w: Window)
    requires WellFormed(b) && b.lastRow != -1
    requires w in DiagonalWindows(b.lastRow, b.lastCol, b.width, b.height, 0)
    ensures Examined(b, w)
  {
    DiagonalWindowsMeans(b.lastRow, b.lastCol, b.width, b.height, 0);
    var k := b.lastRow - w.row;
    assert CellRow(w, k) == b.lastRow && CellCol(w, k) == b.lastCol;
  }

  /** Every window `has_winner` tests is examined: in bounds, so that no index the
      source reads is out of range, and through the last cell. */
  lemma ExaminedWindowsSound(b: Board)
    requires WellFormed(b) && b.lastRow != -1
    ensures forall w | w in ExaminedWindows(b) :: Examined(b, w) && OnGrid(b.grid, w)
  {
    var row, col := b.lastRow, b.lastCol;
    var hs := HorizontalWindows(row, HorizontalStarts(b));
    var ds := DiagonalWindows(row, col, b.width, b.height, 0);
    assert ExaminedWindows(b) == hs + (if row < b.height - 3 then [Window(row, col, Vertical)] else []) + ds;
    forall w | w in ExaminedWindows(b)
      ensures Examined(b, w) && OnGrid(b.grid, w)
    {
      if w in hs {
        var j :| 0 <= j < |hs| && hs[j] == w;
        HorizontalWindowExamined(b, j);
      } else if w in ds {
        DiagonalWindowExamined(b, w);
      } else {
        assert w == Window(row, col, Vertical);
        assert CellRow(w, 0) == row && CellCol(w, 0) == col;
      }
      OnGridIffInBounds(b, w);
    }
  }

  /** `has_winner` tests every examined window. */
  lemma ExaminedWindowsComplete(b: Board, w: Window)
    requires WellFormed(b) && b.lastRow != -1 && Examined(b, w)
    ensures w in ExaminedWindows(b)
  {
    var row, col := b.lastRow, b.lastCol;
    var hs := HorizontalWindows(row, HorizontalStarts(b));
    var ds := DiagonalWindows(row, col, b.width, b.height, 0);
    assert ExaminedWindows(b) == hs + (if row < b.height - 3 then [Window(row, col, Vertical)] else []) + ds;
    var k :| 0 <= k < 4 && CellRow(w, k) == row && CellCol(w, k) == col;
    match w.dir
    case Horizontal =>
      var j := w.col - Max(0, col - 3);
      assert HorizontalStarts(b)[j] == w.col;
      assert hs[j] == w;
    case Vertical =>
      assert w == Window(row, col, Vertical);
    case Diagonal =>
      assert w == Window(row - k, col - k, Diagonal);
      DiagonalWindowsMeans(row, col, b.width, b.height, 0);
      assert w in ds;
  }

  /** A winner reported by `has_winner` completed four in an examined window. */
  lemma HasWinnerOnlyIfWon(b: Board)
    requires WellFormed(b) && HasWinner(b)
    ensures Won(b)
  {
    var ws := ExaminedWindows(b);
    FirstFilledMeans(b.grid, ws, b.lastPlayer);
    var j :| 0 <= j < |ws| && Filled(b.grid, ws[j], b.lastPlayer);
    ExaminedWindowsSound(b);
    assert Examined(b, ws[j]);
  }

  /** Four in an examined window is reported by `has_winner`. */
  lemma WonOnlyIfHasWinner(b: Board)
    requires WellFormed(b) && Won(b)
    ensures HasWinner(b)
  {
    var ws := ExaminedWindows(b);
    var w :| Examined(b, w) && Filled(b.grid, w, b.lastPlayer);
    ExaminedWindowsComplete(b, w);
    ExaminedWindowsSound(b);
    var j :| 0 <= j < |ws| && ws[j] == w;
    FirstFilledFinds(b.grid, ws, b.lastPlayer, j);
  }

  /** `has_winner` holds exactly when the last move completed four of its symbol in a
      window it examines. */
  lemma HasWinnerIffWon(b: Board)
    requires WellFormed(b)
    ensures HasWinner(b) <==> Won(b)
  {
    if HasWinner(b) {
      HasWinnerOnlyIfWon(b);
    }
    if Won(b) {
      WonOnlyIfHasWinner(b);
    }
  }

  /** The written guard reports no winner on any board: before the first move every
      window it reaches starts at row -1. */
  lemma HasWinnerAsWrittenNeverWins(b: Board)
    requires WellFormed(b)
    ensures HasWinnerAsWritten(b) != Some(true)
  {
    if b.lastRow == -1 {
      var ws := ExaminedWindows(b);
      FirstFilledMeans(b.grid, ws, b.lastPlayer);
      assert HorizontalStarts(b) == [];
      assert DiagonalWindows(b.lastRow, b.lastCol, b.width, b.height, 0) == [];
      forall j | 0 <= j < |ws|
        ensures !Filled(b.grid, ws[j], b.lastPlayer)
      {
        assert ws[j] == Window(-1, -1, Vertical);
        assert CellAt(b.grid, CellRow(ws[j], 0), CellCol(ws[j], 0)).None?;
      }
    }
  }

  /** The other half of the inverted guard: before any move, on a board at least three
      rows high, the written test reaches the vertical window at row -1 and panics;
      on a lower board no window is read and it answers false. */
  lemma HasWinnerAsWrittenBeforeFirstMove(b: Board)
    requires WellFormed(b) && NoMoveYet(b)
    ensures HasWinnerAsWritten(b) == if b.height >= 3 then None else Some(false)
  {
    var ws := ExaminedWindows(b);
    assert HorizontalStarts(b) == [];
    assert DiagonalWindows(-1, -1, b.width, b.height, 0) == [] by {
      DiagonalWindowsMeans(-1, -1, b.width, b.height, 0);
    }
    if b.height >= 3 {
      assert ws == [Window(-1, -1, Vertical)];
      assert CheckWindow(b.grid, ws[0], b.lastPlayer) == None;
    } else {
      assert ws == [];
    }
  }

  /** The inverted guard: whenever the last move wins, the written test says it does not. */
  lemma HasWinnerAsWrittenMissesEveryWin(b: Board)
    requires WellFormed(b) && HasWinner(b)
    ensures HasWinnerAsWritten(b) == Some(false)
  {
  }

  /** A vertical four can only start at the last piece when that piece is the topmost
      of its column: the cells above it are blank. So the source's downward-only
      vertical test misses no vertical line once the last piece sits on top. */
  lemma VerticalLineStartsAtLastPiece(b: Board, w: Window)
    requires WellFormed(b) && b.lastRow != -1 && IsTopmostPiece(b.grid, b.lastCol, b.lastRow)
    requires w.dir == Vertical && InBounds(w, b.width, b.height) && Covers(w, b.lastRow, b.lastCol)
    requires Filled(b.grid, w, b.lastPlayer)
    ensures w.row == b.lastRow
  {
    var k :| 0 <= k < 4 && CellRow(w, k) == b.lastRow && CellCol(w, k) == b.lastCol;
    assert CellAt(b.grid, CellRow(w, 0), CellCol(w, 0)) == Some(Piece(b.lastPlayer));
    assert k == 0;
  }

  /** Once the last piece is its column's topmost one, `has_winner` holds exactly when
      some in-bounds line of four through the last cell (horizontal, vertical or
      top-left to bottom-right) holds only the last symbol. */
  lemma HasWinnerIffLineThroughLastPiece(b: Board)
    requires WellFormed(b)
    requires b.lastRow != -1 ==> IsTopmostPiece(b.grid, b.lastCol, b.lastRow)
    ensures HasWinner(b) <==>
      b.lastRow != -1 &&
      exists w :: InBounds(w, b.width, b.height) && Covers(w, b.lastRow, b.lastCol) && Filled(b.grid, w, b.lastPlayer)
  {
    HasWinnerIffWon(b);
    if b.lastRow != -1 {
      if w :| InBounds(w, b.width, b.height) && Covers(w, b.lastRow, b.lastCol) && Filled(b.grid, w, b.lastPlayer) {
        if w.dir == Vertical {
          VerticalLineStartsAtLastPiece(b, w);
        }
        assert Examined(b, w);
      }
    }
  }

  /** Four copies of the last symbol stacked from the last cell downwards win. */
  lemma StackOfFourWins(b: Board)
    requires WellFormed(b) && b.lastRow != -1 && b.lastRow + 3 < b.height
    requires forall r | b.lastRow <= r < b.lastRow + 4 :: b.grid[r][b.lastCol] == Piece(b.lastPlayer)
    ensures HasWinner(b)
  {
    var w := Window(b.lastRow, b.lastCol, Vertical);
    assert CellRow(w, 0) == b.lastRow && CellCol(w, 0) == b.lastCol;
    assert Examined(b, w);
    assert Filled(b.grid, w, b.lastPlayer) by {
      forall k | 0 <= k < 4
        ensures CellAt(b.grid, CellRow(w, k), CellCol(w, k)) == Some(Piece(b.lastPlayer))
      {
        assert b.grid[b.lastRow + k][b.lastCol] == Piece(b.lastPlayer);
      }
    }
    HasWinnerIffWon(b);
  }

  /** A four along the bottom-left to top-right diagonal is not reported: on this 4 x 4
      board the last 'X', at the top right, completes such a line, and `has_winner`
      still answers false. */
  lemma AntiDiagonalLineIgnored()
    ensures var e, x, o := Empty, Piece('X'), Piece('O');
      var b := Board(4, 4, [[e, e, e, x], [e, e, x, o], [e, x, o, o], [x, o, o, o]], 0, 3, 'X');
      WellFormed(b) && !HasWinner(b)
  {
    var e, x, o := Empty, Piece('X'), Piece('O');
    var b := Board(4, 4, [[e, e, e, x], [e, e, x, o], [e, x, o, o], [x, o, o, o]], 0, 3, 'X');
    var ws := [Window(0, 0, Horizontal), Window(0, 3, Vertical)];
    assert ExaminedWindows(b) == ws by {
      assert HorizontalStarts(b) == [0] by { assert Range(0, 1) == [0]; }
      assert DiagonalWindows(0, 3, 4, 4, 0) == [];
    }
    assert CheckWindow(b.grid, ws[0], 'X') == Some(false) by {
      assert CellAt(b.grid, 0, 0) == Some(e);
    }
    assert CheckWindow(b.grid, ws[1], 'X') == Some(false) by {
      assert CellAt(b.grid, 1, 3) == Some(o);
    }
    assert FirstFilled(b.grid, ws[1..], 'X') == Some(false) by {
      assert ws[1..] == [ws[1]];
    }
  }
}
