/** `Board::winner` and its four direction scans (board.cpp:123-228).
    The scans look only at the topmost piece of the most recently played
    column; this is not a whole-board search. */
module WinDetection {
  import opened Cells
  import opened BoardState

  /** Cell `(c, r)` lies on the board and holds `p`. */
  predicate Holds(b: Board, c: int, r: int, p: int)
    requires WellFormed(b)
  {
    0 <= c < b.cols && 0 <= r < b.height && b.grid[c][r] == p
  }

  /** The inner counting loop shared by the scans: starting at step `k`, how
      many consecutive cells `(c0 + k*dc, r0 + k*dr)`, up to step 3, hold `p`
      before the first one that is off the board or holds something else. */
  function RunLength(b: Board, c0: int, r0: int, dc: int, dr: int, p: int, k: nat): (n: nat)
    requires WellFormed(b) && k <= 4
    ensures k + n <= 4
    ensures forall j :: k <= j < k + n ==> StepHolds(b, c0, r0, dc, dr, p, j)
    ensures k + n < 4 ==> !StepHolds(b, c0, r0, dc, dr, p, k + n)
    decreases 4 - k
  {
    if k == 4 then 0
    else if Holds(b, c0 + k * dc, r0 + k * dr, p) then 1 + RunLength(b, c0, r0, dc, dr, p, k + 1)
    else 0
  }

  /** The outer offset loop of `_hori_win`, `_diag_up_win` and
      `_diag_down_win` from offset `i` on: the window starting at
      `(col - i, row - i*dr)` and stepping `(1, dr)` is tried for each offset
      up to 3. */
  function AnyOffset(b: Board, col: int, row: int, dr: int, p: int, i: nat): (found: bool)
    requires WellFormed(b) && i <= 4
    ensures found <==> exists j :: i <= j < 4 && WindowBack(b, col, row, 1, dr, p, j)
    decreases 4 - i
  {
    if i == 4 then false
    else
      OffsetIsWindow(b, col, row, dr, p, i);
      RunLength(b, col - i, row - i * dr, 1, dr, p, 0) == 4 || AnyOffset(b, col, row, dr, p, i + 1)
  }

  /** Offset `i` of the outer loop counts to 4 exactly when the window that
      starts `i` steps back from the anchor holds `p`. */
  lemma OffsetIsWindow(b: Board, col: int, row: int, dr: int, p: int, i: int)
    requires WellFormed(b)
    ensures RunLength(b, col - i, row - i * dr, 1, dr, p, 0) == 4 <==> WindowBack(b, col, row, 1, dr, p, i)
  {
    RunIsWindow(b, col - i, row - i * dr, 1, dr, p);
    assert col - i == col - i * 1;
  }

  /** Step `k` of a count from `(c0, r0)` along `(dc, dr)` lands on `p`. */
  predicate StepHolds(b: Board, c0: int, r0: int, dc: int, dr: int, p: int, k: int)
    requires WellFormed(b)
  {
    Holds(b, c0 + k * dc, r0 + k * dr, p)
  }

  /** `_down_win` (board.cpp:147-161): count the piece and the cells below
      it while they hold its value. */
  function DownWin(b: Board, col: int, row: int): bool
    requires WellFormed(b) && 0 <= col < b.cols && 0 <= row < b.height
  {
    RunLength(b, col, row, 0, -1, b.grid[col][row], 0) == 4
  }

  /** `_hori_win` (board.cpp:163-182): the offset loop along `(1, 0)`. */
  function HoriWin(b: Board, col: int, row: int): bool
    requires WellFormed(b) && 0 <= col < b.cols && 0 <= row < b.height
  {
    AnyOffset(b, col, row, 0, b.grid[col][row], 0)
  }

  /** `_diag_up_win` (board.cpp:184-205): the offset loop along `(1, 1)`. */
  function DiagUpWin(b: Board, col: int, row: int): bool
    requires WellFormed(b) && 0 <= col < b.cols && 0 <= row < b.height
  {
    AnyOffset(b, col, row, 1, b.grid[col][row], 0)
  }

  /** `_diag_down_win` (board.cpp:207-228): the offset loop along
      `(1, -1)`. */
  function DiagDownWin(b: Board, col: int, row: int): bool
    requires WellFormed(b) && 0 <= col < b.cols && 0 <= row < b.height
  {
    AnyOffset(b, col, row, -1, b.grid[col][row], 0)
  }

  /** `winner` (board.cpp:123-145): -1 with an empty history; otherwise the
      value of the topmost piece of the last column played when one of the
      four scans finds four in a row through it, and -1 when none does. The
      code reads row -1 when that column is empty, so it must not be. */
  function Winner(b: Board): (w: int)
    requires WellFormed(b)
    requires |b.moveHistory| > 0 ==>
      0 <= LastMove(b) < b.cols && TopRow(b.grid[LastMove(b)]) >= 0
    ensures |b.moveHistory| == 0 ==> w == Empty
    ensures |b.moveHistory| > 0 ==>
      w == Empty || w == b.grid[LastMove(b)][TopRow(b.grid[LastMove(b)])]
  {
    if |b.moveHistory| == 0 then Empty
    else
      var col := b.moveHistory[0];
      var row := TopRow(b.grid[col]);
      if DownWin(b, col, row) || HoriWin(b, col, row) || DiagUpWin(b, col, row) || DiagDownWin(b, col, row)
      then b.grid[col][row]
      else Empty
  }

  /** Right after a legal drop, `winner` is either -1 or the player who
      dropped: the anchor is the piece just placed. */
  lemma WinnerIsMover(b: Board, p: int, m: int)
    requires Valid(b) && 0 <= m < b.cols && !IsColFull(b, m) && p != Empty
    ensures Valid(DoMove(b, p, m))
    ensures FreeCells(DoMove(b, p, m)) + 1 == FreeCells(b)
    ensures TopRow(DoMove(b, p, m).grid[m]) == DropRow(b.grid[m])
    ensures Winner(DoMove(b, p, m)) == Empty || Winner(DoMove(b, p, m)) == p
  {
    DoMovePreservesValid(b, p, m);
    PushStacked(b.grid[m], p);
    var r := DoMove(b, p, m);
    assert r.grid[m] == b.grid[m][DropRow(b.grid[m]) := p];
  }

  // ---------------------------------------------------------------------
  // What `winner` means: a line of four through the last piece
  // ---------------------------------------------------------------------

  /** The four cells `(c + k*dc, r + k*dr)`, `k` in `0 .. 3`, are on the board
      and all hold `p`. */
  predicate Window(b: Board, c: int, r: int, dc: int, dr: int, p: int)
    requires WellFormed(b)
  {
    && Holds(b, c, r, p)
    && Holds(b, c + dc, r + dr, p)
    && Holds(b, c + 2 * dc, r + 2 * dr, p)
    && Holds(b, c + 3 * dc, r + 3 * dr, p)
  }

  /** Some window of four along direction `(dc, dr)` that contains the cell
      `(c, r)` lies on the board and holds `p` throughout. */
  predicate WindowThrough(b: Board, c: int, r: int, dc: int, dr: int, p: int)
    requires WellFormed(b)
  {
    || WindowBack(b, c, r, dc, dr, p, 0)
    || WindowBack(b, c, r, dc, dr, p, 1)
    || WindowBack(b, c, r, dc, dr, p, 2)
    || WindowBack(b, c, r, dc, dr, p, 3)
  }

  /** The window along `(dc, dr)` that starts `i` steps back from `(c, r)`. */
  predicate WindowBack(b: Board, c: int, r: int, dc: int, dr: int, p: int, i: int)
    requires WellFormed(b)
  {
    Window(b, c - i * dc, r - i * dr, dc, dr, p)
  }

  /** Four in a row through `(c, r)` for `p`: vertically, horizontally, or
      along either diagonal. */
  predicate FourThrough(b: Board, c: int, r: int, p: int)
    requires WellFormed(b)
  {
    || WindowThrough(b, c, r, 0, 1, p)
    || WindowThrough(b, c, r, 1, 0, p)
    || WindowThrough(b, c, r, 1, 1, p)
    || WindowThrough(b, c, r, 1, -1, p)
  }

  /** The counting loop reaches 4 exactly when its whole window holds `p`. */
  lemma RunIsWindow(b: Board, c0: int, r0: int, dc: int, dr: int, p: int)
    requires WellFormed(b)
    ensures RunLength(b, c0, r0, dc, dr, p, 0) == 4 <==> Window(b, c0, r0, dc, dr, p)
  {
    assert RunLength(b, c0, r0, dc, dr, p, 4) == 0;
    assert RunLength(b, c0, r0, dc, dr, p, 3) <= 1;
    assert RunLength(b, c0, r0, dc, dr, p, 2) <= 2;
    assert RunLength(b, c0, r0, dc, dr, p, 1) <= 3;
  }

  /** The offset loop succeeds exactly when some window along `(1, dr)`
      through the anchor holds `p`. */
  lemma AnyOffsetIsWindowThrough(b: Board, col: int, row: int, dr: int, p: int)
    requires WellFormed(b)
    ensures AnyOffset(b, col, row, dr, p, 0) <==> WindowThrough(b, col, row, 1, dr, p)
  {
    if AnyOffset(b, col, row, dr, p, 0) {
      var j :| 0 <= j < 4 && WindowBack(b, col, row, 1, dr, p, j);
      assert j == 0 || j == 1 || j == 2 || j == 3;
    }
  }

  /** `_down_win` succeeds exactly when the piece and the three cells below
      it are on the board and hold the piece's value. */
  lemma DownWinIsWindow(b: Board, col: int, row: int)
    requires WellFormed(b) && 0 <= col < b.cols && 0 <= row < b.height
    ensures DownWin(b, col, row) <==> Window(b, col, row, 0, -1, b.grid[col][row])
  {
    RunIsWindow(b, col, row, 0, -1, b.grid[col][row]);
  }

  /** `_hori_win` succeeds exactly when some horizontal window of four
      through the piece holds its value. */
  lemma HoriWinIsWindowThrough(b: Board, col: int, row: int)
    requires WellFormed(b) && 0 <= col < b.cols && 0 <= row < b.height
    ensures HoriWin(b, col, row) <==> WindowThrough(b, col, row, 1, 0, b.grid[col][row])
  {
    AnyOffsetIsWindowThrough(b, col, row, 0, b.grid[col][row]);
  }

  /** `_diag_up_win` succeeds exactly when some rising diagonal window of
      four through the piece holds its value. */
  lemma DiagUpWinIsWindowThrough(b: Board, col: int, row: int)
    requires WellFormed(b) && 0 <= col < b.cols && 0 <= row < b.height
    ensures DiagUpWin(b, col, row) <==> WindowThrough(b, col, row, 1, 1, b.grid[col][row])
  {
    AnyOffsetIsWindowThrough(b, col, row, 1, b.grid[col][row]);
  }

  /** `_diag_down_win` succeeds exactly when some falling diagonal window of
      four through the piece holds its value. */
  lemma DiagDownWinIsWindowThrough(b: Board, col: int, row: int)
    requires WellFormed(b) && 0 <= col < b.cols && 0 <= row < b.height
    ensures DiagDownWin(b, col, row) <==> WindowThrough(b, col, row, 1, -1, b.grid[col][row])
  {
    AnyOffsetIsWindowThrough(b, col, row, -1, b.grid[col][row]);
  }

  /** Scanning only downward loses nothing when the anchor is the topmost
      piece of its column: every other vertical window through it contains
      the free (or off-board) cell above it. */
  lemma DownIsWindowThrough(b: Board, col: int, row: int, p: int)
    requires WellFormed(b) && 0 <= col < b.cols && 0 <= row < b.height && p != Empty
    requires forall k :: row < k < b.height ==> b.grid[col][k] == Empty
    ensures RunLength(b, col, row, 0, -1, p, 0) == 4 <==> WindowThrough(b, col, row, 0, 1, p)
  {
    RunIsWindow(b, col, row, 0, -1, p);
    assert !Holds(b, col, row + 1, p);
  }

  /** `winner` on a non-empty history returns the value `p` of the topmost
      piece of the last column played exactly when four cells in a row,
      through that piece, hold `p`, and -1 otherwise. */
  lemma WinnerIsFourThroughLastPiece(b: Board)
    requires WellFormed(b) && |b.moveHistory| > 0
    requires 0 <= LastMove(b) < b.cols && TopRow(b.grid[LastMove(b)]) >= 0
    ensures var col := LastMove(b);
      var row := TopRow(b.grid[col]);
      var p := b.grid[col][row];
      && p != Empty
      && Winner(b) == (if FourThrough(b, col, row, p) then p else Empty)
  {
    var col := LastMove(b);
    var row := TopRow(b.grid[col]);
    var p := b.grid[col][row];
    DownIsWindowThrough(b, col, row, p);
    HoriWinIsWindowThrough(b, col, row);
    DiagUpWinIsWindowThrough(b, col, row);
    DiagDownWinIsWindowThrough(b, col, row);
  }
}
