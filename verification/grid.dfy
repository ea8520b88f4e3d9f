/** The cell store of a Connect-4 board: a rectangular grid indexed `[row][column]`,
    row 0 at the top, filled from the bottom row upwards. */
module Grid {

  import opened Fallible

  /** A blank cell (the source's `" "`) or one holding a player's symbol. */
  datatype Cell = Empty | Piece(symbol: char)

  type Grid = seq<seq<Cell>>

  /** `g` has `height` rows of `width` cells each. */
  ghost predicate IsRect(g: Grid, width: int, height: int) {
    |g| == height && forall r | 0 <= r < |g| :: |g[r]| == width
  }

  /** Every row of `g` has a cell in column `col`. */
  ghost predicate ColumnIn(g: Grid, col: int) {
    0 <= col && forall r | 0 <= r < |g| :: col < |g[r]|
  }

  /** Every entry of `rows` is a row index of `g`. */
  ghost predicate RowsIn(g: Grid, rows: seq<int>) {
    forall j | 0 <= j < |rows| :: 0 <= rows[j] < |g|
  }

  /** Indexing with a bounds check: `None` where the source's `board[row][col]` panics. */
  function CellAt(g: Grid, row: int, col: int): (c: Option<Cell>)
    ensures c.Some? <==> 0 <= row < |g| && 0 <= col < |g[row]|
    ensures c.Some? ==> c.value == g[row][col]
  {
    if 0 <= row < |g| && 0 <= col < |g[row]| then Some(g[row][col]) else None
  }

  /** `g` with the cell at (`row`, `col`) replaced by `v` and every other cell kept. */
  function SetCell(g: Grid, row: int, col: int, v: Cell): (g': Grid)
    requires 0 <= row < |g| && 0 <= col < |g[row]|
    ensures |g'| == |g|
    ensures forall r | 0 <= r < |g| :: |g'[r]| == |g[r]|
    ensures g'[row][col] == v
    ensures forall r, c | 0 <= r < |g| && 0 <= c < |g[r]| && (r != row || c != col) :: g'[r][c] == g[r][c]
  {
    g[row := g[row][col := v]]
  }

  /** `g'` differs from `g` at most in the cell (`row`, `col`). */
  ghost predicate OnlyCellChanged(g: Grid, g': Grid, row: int, col: int) {
    && |g'| == |g|
    && (forall r | 0 <= r < |g| :: |g'[r]| == |g[r]|)
    && forall r, c | 0 <= r < |g| && 0 <= c < |g[r]| && (r != row || c != col) :: g'[r][c] == g[r][c]
  }

  /** The Rust range `lo..hi` in iteration order; empty when `lo >= hi`. */
  function Range(lo: int, hi: int): (s: seq<int>)
    ensures |s| == if lo < hi then hi - lo else 0
    ensures forall j | 0 <= j < |s| :: s[j] == lo + j
    decreases hi - lo
  {
    if lo < hi then [lo] + Range(lo + 1, hi) else []
  }

  /** The rows of a column from the bottom up: the Rust range `(0..height).rev()`. */
  function BottomUp(height: int): (s: seq<int>)
    ensures |s| == if height > 0 then height else 0
    ensures forall j | 0 <= j < |s| :: s[j] == height - 1 - j
    decreases height
  {
    if height <= 0 then [] else [height - 1] + BottomUp(height - 1)
  }

  /** The early-return scan of the source's move loops: the position in `rows` of the
      first row whose cell in `col` is occupied (`occupied`) or blank (`!occupied`),
      or `|rows|` when the scan runs off the end. */
  function Scan(g: Grid, col: int, rows: seq<int>, occupied: bool): (i: nat)
    requires ColumnIn(g, col) && RowsIn(g, rows)
    ensures i <= |rows|
    ensures i < |rows| ==> g[rows[i]][col].Piece? == occupied
    ensures forall j | 0 <= j < i :: g[rows[j]][col].Piece? != occupied
    decreases |rows|
  {
    if |rows| == 0 then 0
    else if g[rows[0]][col].Piece? == occupied then 0
    else 1 + Scan(g, col, rows[1..], occupied)
  }

  /** Every cell of column `col` is occupied. */
  ghost predicate ColumnFull(g: Grid, col: int)
    requires ColumnIn(g, col)
  {
    forall r | 0 <= r < |g| :: g[r][col].Piece?
  }

  /** Every cell of column `col` is blank. */
  ghost predicate ColumnEmpty(g: Grid, col: int)
    requires ColumnIn(g, col)
  {
    forall r | 0 <= r < |g| :: g[r][col] == Empty
  }

  /** `row` is the lowest blank cell of column `col`: blank, with only occupied cells below. */
  ghost predicate IsLowestEmpty(g: Grid, col: int, row: int)
    requires ColumnIn(g, col)
  {
    && 0 <= row < |g|
    && g[row][col] == Empty
    && forall r | row < r < |g| :: g[r][col].Piece?
  }

  /** `row` is the topmost occupied cell of column `col`: occupied, with only blank cells above. */
  ghost predicate IsTopmostPiece(g: Grid, col: int, row: int)
    requires ColumnIn(g, col)
  {
    && 0 <= row < |g|
    && g[row][col].Piece?
    && forall r | 0 <= r < row :: g[r][col] == Empty
  }

  /** Gravity in column `col`: below an occupied cell every cell is occupied, so the
      occupied cells form one block that ends at the bottom row. */
  ghost predicate ColumnSettled(g: Grid, col: int)
    requires ColumnIn(g, col)
  {
    forall r1, r2 | 0 <= r1 <= r2 < |g| && g[r1][col].Piece? :: g[r2][col].Piece?
  }

  /** Gravity holds in every column. */
  ghost predicate Settled(g: Grid, width: int)
    requires IsRect(g, width, |g|)
  {
    forall c | 0 <= c < width :: ColumnSettled(g, c)
  }

  /** A column has at most one lowest blank cell. */
  lemma LowestEmptyUnique(g: Grid, col: int, r1: int, r2: int)
    requires ColumnIn(g, col) && IsLowestEmpty(g, col, r1) && IsLowestEmpty(g, col, r2)
    ensures r1 == r2
  {
  }

  /** The bottom-up scan for a blank cell finds the lowest blank cell. */
  lemma {:induction false} ScanBottomUpFindsLowestEmpty(g: Grid, col: int)
    requires ColumnIn(g, col)
    ensures RowsIn(g, BottomUp(|g|))
    ensures var i := Scan(g, col, BottomUp(|g|), false);
      && (i == |g| <==> ColumnFull(g, col))
      && (i < |g| ==> IsLowestEmpty(g, col, |g| - 1 - i))
  {
    var rows := BottomUp(|g|);
    var i := Scan(g, col, rows, false);
    forall r | |g| - 1 - i < r < |g|
      ensures g[r][col].Piece?
    {
      assert rows[|g| - 1 - r] == r;
    }
    if i < |g| {
      assert rows[i] == |g| - 1 - i;
      assert !ColumnFull(g, col);
    }
  }

  /** The top-down scan for an occupied cell finds the topmost occupied cell. */
  lemma {:induction false} ScanTopDownFindsTopmost(g: Grid, col: int)
    requires ColumnIn(g, col)
    ensures RowsIn(g, Range(0, |g|))
    ensures var i := Scan(g, col, Range(0, |g|), true);
      && (i == |g| <==> ColumnEmpty(g, col))
      && (i < |g| ==> IsTopmostPiece(g, col, i))
  {
    var rows := Range(0, |g|);
    var i := Scan(g, col, rows, true);
    forall r | 0 <= r < i
      ensures g[r][col] == Empty
    {
      assert rows[r] == r;
    }
    if i < |g| {
      assert rows[i] == i;
      assert !ColumnEmpty(g, col);
    }
  }

  /** The row where the top-down scan for a piece stops: the topmost piece of column
      `col`, or `|g|` when the column holds no piece. */
  function TopmostRow(g: Grid, col: int): (t: nat)
    requires ColumnIn(g, col)
    ensures t <= |g|
    ensures t == |g| <==> ColumnEmpty(g, col)
    ensures t < |g| ==> IsTopmostPiece(g, col, t)
  {
    ScanTopDownFindsTopmost(g, col);
    Scan(g, col, Range(0, |g|), true)
  }

  /** A column has at most one topmost piece. */
  lemma TopmostPieceUnique(g: Grid, col: int, t1: int, t2: int)
    requires ColumnIn(g, col) && IsTopmostPiece(g, col, t1) && IsTopmostPiece(g, col, t2)
    ensures t1 == t2
  {
  }

  /** Under gravity a column has room exactly when its top cell is blank. */
  lemma RoomIffTopBlank(g: Grid, col: int)
    requires ColumnIn(g, col) && ColumnSettled(g, col) && |g| > 0
    ensures !ColumnFull(g, col) <==> g[0][col] == Empty
  {
    if !ColumnFull(g, col) {
      var r :| 0 <= r < |g| && g[r][col] == Empty;
    }
  }
}
