/** The Connect-Four board of board.h / board.cpp as an immutable value.
    `grid[c][r]` is the cell of column `c` at row `r`, row 0 being the bottom.
    Both histories are stacks whose index 0 is the most recent entry (the
    front of the `std::list`). */
module BoardState {
  import opened Cells

  datatype Board = Board(
    cols: nat,                  // m_num_cols
    height: nat,                // m_col_height
    grid: seq<seq<int>>,        // m_board_state, indexed [col][row]
    moveHistory: seq<int>,      // m_move_history
    playerHistory: seq<int>)    // m_player_history

  /** The grid has `cols` columns of `height` cells each, and there is at
      least one row (every top-cell test reads row `height - 1`). */
  predicate WellFormed(b: Board) {
    && b.height > 0
    && |b.grid| == b.cols
    && forall c :: 0 <= c < b.cols ==> |b.grid[c]| == b.height
  }

  /** How many times `x` occurs in `s`. */
  function Count(s: seq<int>, x: int): nat {
    if |s| == 0 then 0
    else (if s[0] == x then 1 else 0) + Count(s[1..], x)
  }

  /** The state every sequence of legal drops and undos keeps: columns are
      stacked, each history entry names a column, the number of pieces in a
      column is the number of times the move history names it, and the player
      history is the move history (board.cpp:93 pushes the column). The last
      conjunct follows from the others; it is the fact `winner` needs, that
      the last column played holds a piece. */
  predicate Valid(b: Board) {
    && WellFormed(b)
    && (forall c :: 0 <= c < b.cols ==> Stacked(b.grid[c]))
    && b.playerHistory == b.moveHistory
    && (forall i :: 0 <= i < |b.moveHistory| ==> 0 <= b.moveHistory[i] < b.cols)
    && (forall c :: 0 <= c < b.cols ==> Count(b.moveHistory, c) == DropRow(b.grid[c]))
    && (|b.moveHistory| > 0 ==> TopRow(b.grid[b.moveHistory[0]]) >= 0)
  }

  /** The constructor of board.cpp:3-16. */
  function New(cols: nat, height: nat): (b: Board)
    ensures b.cols == cols && b.height == height && |b.grid| == cols
    ensures forall c :: 0 <= c < cols ==>
      |b.grid[c]| == height && forall r :: 0 <= r < height ==> b.grid[c][r] == Empty
    ensures b.moveHistory == [] && b.playerHistory == []
    ensures height > 0 ==> Valid(b)
  {
    var b := Board(cols, height, seq(cols, _ => seq(height, _ => Empty)), [], []);
    assert height > 0 ==> forall c :: 0 <= c < cols ==> b.grid[c][0] == Empty && DropRow(b.grid[c]) == 0;
    b
  }

  /** `is_col_full` (board.cpp:78-81): the top cell of the column is taken. */
  function IsColFull(b: Board, c: int): (r: bool)
    requires WellFormed(b) && 0 <= c < b.cols
    ensures Stacked(b.grid[c]) ==> (r <==> DropRow(b.grid[c]) == b.height)
  {
    StackedFullIf(b.grid[c]);
    b.grid[c][b.height - 1] != Empty
  }

  lemma StackedFullIf(col: seq<int>)
    requires |col| > 0
    ensures Stacked(col) ==> (col[|col| - 1] != Empty <==> DropRow(col) == |col|)
  {
    if Stacked(col) {
      StackedFull(col);
    }
  }

  /** The loop of `is_full` (board.cpp:70-75) from column `i` on. */
  function FullFrom(b: Board, i: nat): (r: bool)
    requires WellFormed(b) && i <= b.cols
    ensures r <==> forall c :: i <= c < b.cols ==> IsColFull(b, c)
    decreases b.cols - i
  {
    if i == b.cols then true
    else if b.grid[i][b.height - 1] == Empty then assert !IsColFull(b, i); false
    else FullFrom(b, i + 1)
  }

  /** `is_full` (board.cpp:68-76): every column's top cell is taken. */
  function IsFull(b: Board): (r: bool)
    requires WellFormed(b)
    ensures r <==> forall c :: 0 <= c < b.cols ==> IsColFull(b, c)
  {
    FullFrom(b, 0)
  }

  /** The list `get_available_moves` has built after scanning columns
      `0 .. n-1` (board.cpp:113-118): each free column is pushed at the front,
      so the list holds the free columns below `n`, highest first. */
  function AvailableBelow(b: Board, n: nat): (r: seq<int>)
    requires WellFormed(b) && n <= b.cols
    ensures forall i, j :: 0 <= i < j < |r| ==> r[i] > r[j]
    ensures forall c :: c in r <==> 0 <= c < n && !IsColFull(b, c)
  {
    if n == 0 then []
    else
      var rest := AvailableBelow(b, n - 1);
      assert forall j :: 0 <= j < |rest| ==> rest[j] < n - 1 by {
        forall j | 0 <= j < |rest|
          ensures rest[j] < n - 1
        {
          assert rest[j] in rest;
        }
      }
      if b.grid[n - 1][b.height - 1] == Empty then [n - 1] + rest else rest
  }

  /** `get_available_moves` (board.cpp:111-120): the columns whose top cell
      is free, each once, in strictly descending order. */
  function AvailableMoves(b: Board): (r: seq<int>)
    requires WellFormed(b)
    ensures forall i, j :: 0 <= i < j < |r| ==> r[i] > r[j]
    ensures forall c :: c in r <==> 0 <= c < b.cols && !IsColFull(b, c)
  {
    AvailableBelow(b, b.cols)
  }

  /** `do_move` (board.cpp:83-94): the piece lands on the lowest free row of
      the column, if there is one; the column is pushed on BOTH histories,
      whether or not a piece was placed. Only the column range is required,
      as the code indexes `m_board_state[move]` without a check. */
  function DoMove(b: Board, player: int, move: int): (r: Board)
    requires WellFormed(b) && 0 <= move < b.cols
    ensures WellFormed(r) && r.cols == b.cols && r.height == b.height
    ensures r.moveHistory == [move] + b.moveHistory
    ensures r.playerHistory == [move] + b.playerHistory
    ensures var k := DropRow(b.grid[move]);
      && (k < b.height ==> b.grid[move][k] == Empty && r.grid[move][k] == player)
      && (forall row :: 0 <= row < k ==> b.grid[move][row] != Empty)
      && (forall c, row :: 0 <= c < b.cols && 0 <= row < b.height && (c != move || row != k) ==>
            r.grid[c][row] == b.grid[c][row])
  {
    var k := DropRow(b.grid[move]);
    var grid := if k < b.height then b.grid[move := b.grid[move][k := player]] else b.grid;
    Board(b.cols, b.height, grid, [move] + b.moveHistory, [move] + b.playerHistory)
  }

  /** `undo_last_move` (board.cpp:96-109): pops both histories and clears the
      topmost occupied cell of the most recently played column, if any. */
  function Undo(b: Board): (r: Board)
    requires WellFormed(b) && |b.moveHistory| > 0 && |b.playerHistory| > 0
    requires 0 <= b.moveHistory[0] < b.cols
    ensures WellFormed(r) && r.cols == b.cols && r.height == b.height
    ensures r.moveHistory == b.moveHistory[1..] && r.playerHistory == b.playerHistory[1..]
    ensures var col := b.moveHistory[0]; var t := TopRow(b.grid[col]);
      && (t >= 0 ==> b.grid[col][t] != Empty && r.grid[col][t] == Empty)
      && (forall row :: t < row < b.height ==> b.grid[col][row] == Empty)
      && (forall c, row :: 0 <= c < b.cols && 0 <= row < b.height && (c != col || row != t) ==>
            r.grid[c][row] == b.grid[c][row])
  {
    var col := b.moveHistory[0];
    var t := TopRow(b.grid[col]);
    var grid := if t >= 0 then b.grid[col := b.grid[col][t := Empty]] else b.grid;
    Board(b.cols, b.height, grid, b.moveHistory[1..], b.playerHistory[1..])
  }

  /** `get_last_move` (board.h:22): the front of the move history. On a
      valid board it is a column of the board that the history names at
      least once, so the column is not empty. */
  function LastMove(b: Board): (m: int)
    requires |b.moveHistory| > 0
    ensures Valid(b) ==> 0 <= m < b.cols && Count(b.moveHistory, m) > 0
  {
    b.moveHistory[0]
  }

  /** `get_last_player` (board.h:21): the front of the player history, which
      on every valid board is the last COLUMN played, not the last mover. */
  function LastPlayer(b: Board): (p: int)
    requires |b.playerHistory| > 0
    ensures Valid(b) ==> p == LastMove(b)
  {
    b.playerHistory[0]
  }

  /** Pieces on columns `0 .. n-1`. */
  function PiecesBelow(grid: seq<seq<int>>, n: nat): nat
    requires n <= |grid|
  {
    if n == 0 then 0 else PiecesBelow(grid, n - 1) + DropRow(grid[n - 1])
  }

  /** Free cells on columns `0 .. n-1`. */
  function FreeBelow(grid: seq<seq<int>>, n: nat): nat
    requires n <= |grid|
  {
    if n == 0 then 0 else FreeBelow(grid, n - 1) + (|grid[n - 1]| - DropRow(grid[n - 1]))
  }

  function Pieces(b: Board): nat
    requires WellFormed(b)
  {
    PiecesBelow(b.grid, b.cols)
  }

  function FreeCells(b: Board): nat
    requires WellFormed(b)
  {
    FreeBelow(b.grid, b.cols)
  }

  // ---------------------------------------------------------------------
  // Lemmas about the board operations
  // ---------------------------------------------------------------------

  /** `is_full()` holds exactly when `get_available_moves()` is empty. */
  lemma NoMovesIffFull(b: Board)
    requires WellFormed(b)
    ensures AvailableMoves(b) == [] <==> IsFull(b)
  {
    var r := AvailableMoves(b);
    if r != [] {
      assert r[0] in r;
    }
  }

  lemma CountCons(x: int, s: seq<int>, c: int)
    ensures Count([x] + s, c) == Count(s, c) + (if x == c then 1 else 0)
  {
    assert ([x] + s)[1..] == s;
  }

  /** Replacing one column by one of the same length changes the free-cell
      sum by the difference of the two columns' free cells. */
  lemma {:induction false} FreeBelowUpdate(grid: seq<seq<int>>, m: nat, col: seq<int>, n: nat)
    requires m < |grid| && n <= |grid| && |col| == |grid[m]|
    ensures FreeBelow(grid[m := col], n) + (if m < n then |grid[m]| - DropRow(grid[m]) else 0)
         == FreeBelow(grid, n) + (if m < n then |col| - DropRow(col) else 0)
  {
    if n > 0 {
      FreeBelowUpdate(grid, m, col, n - 1);
    }
  }

  /** A legal drop keeps the board valid and fills exactly one free cell. */
  lemma DoMovePreservesValid(b: Board, player: int, move: int)
    requires Valid(b) && 0 <= move < b.cols && !IsColFull(b, move) && player != Empty
    ensures Valid(DoMove(b, player, move))
    ensures FreeCells(DoMove(b, player, move)) + 1 == FreeCells(b)
  {
    var col := b.grid[move];
    var k := DropRow(col);
    PushStacked(col, player);
    var r := DoMove(b, player, move);
    assert r.grid == b.grid[move := col[k := player]];
    forall c | 0 <= c < r.cols
      ensures Stacked(r.grid[c])
      ensures Count(r.moveHistory, c) == DropRow(r.grid[c])
    {
      CountCons(move, b.moveHistory, c);
    }
    FreeBelowUpdate(b.grid, move, col[k := player], b.cols);
    assert r.moveHistory[0] == move;
  }

  /** Undoing the last drop of a valid board keeps it valid. */
  lemma UndoPreservesValid(b: Board)
    requires Valid(b) && |b.moveHistory| > 0
    ensures Valid(Undo(b))
  {
    var m := b.moveHistory[0];
    var col := b.grid[m];
    assert b.moveHistory == [m] + b.moveHistory[1..];
    CountCons(m, b.moveHistory[1..], m);
    StackedTopRow(col);
    PopStacked(col);
    var r := Undo(b);
    assert r.grid == b.grid[m := col[TopRow(col) := Empty]];
    forall c | 0 <= c < r.cols
      ensures Count(r.moveHistory, c) == DropRow(r.grid[c])
    {
      CountCons(m, b.moveHistory[1..], c);
    }
    if |r.moveHistory| > 0 {
      var m' := r.moveHistory[0];
      assert b.moveHistory[1..] == [m'] + b.moveHistory[2..];
      CountCons(m', b.moveHistory[2..], m');
      StackedTopRow(r.grid[m']);
    }
  }

  /** `undo_last_move` right after a legal `do_move` restores the grid and
      both histories exactly. */
  lemma UndoDoMove(b: Board, player: int, move: int)
    requires WellFormed(b) && 0 <= move < b.cols && !IsColFull(b, move)
    requires Stacked(b.grid[move]) && player != Empty
    ensures Undo(DoMove(b, player, move)) == b
  {
    var col := b.grid[move];
    StackedFull(col);
    var k := DropRow(col);
    PushStacked(col, player);
    var placed := DoMove(b, player, move);
    assert placed.grid == b.grid[move := col[k := player]];
    assert col[k := player][k := Empty] == col;
    assert b.grid[move := col[k := player]][move := col] == b.grid;
    assert placed.moveHistory[1..] == b.moveHistory;
    assert placed.playerHistory[1..] == b.playerHistory;
  }

  /** The round trip needs the column to have room: on a full column
      `do_move` places nothing but still pushes history, and the following
      `undo_last_move` removes the column's top piece. */
  lemma DoMoveOnFullColumn(b: Board, player: int, move: int)
    requires WellFormed(b) && 0 <= move < b.cols && IsColFull(b, move)
    requires Stacked(b.grid[move])
    ensures DoMove(b, player, move).grid == b.grid
    ensures |DoMove(b, player, move).moveHistory| == |b.moveHistory| + 1
    ensures Undo(DoMove(b, player, move)).grid[move][b.height - 1] == Empty
    ensures Undo(DoMove(b, player, move)) != b
  {
    var col := b.grid[move];
    StackedFull(col);
    StackedTopRow(col);
    var r := Undo(DoMove(b, player, move));
    assert r.grid[move][b.height - 1] != b.grid[move][b.height - 1];
  }

  lemma {:induction false} SumCountsCons(x: int, s: seq<int>, n: nat)
    ensures SumCounts([x] + s, n) == SumCounts(s, n) + (if 0 <= x < n then 1 else 0)
  {
    if n > 0 {
      SumCountsCons(x, s, n - 1);
      CountCons(x, s, n - 1);
    }
  }

  /** Occurrences of the values `0 .. n-1` in `s`. */
  function SumCounts(s: seq<int>, n: nat): nat {
    if n == 0 then 0 else SumCounts(s, n - 1) + Count(s, n - 1)
  }

  lemma {:induction false} SumCountsAll(s: seq<int>, n: nat)
    requires forall i :: 0 <= i < |s| ==> 0 <= s[i] < n
    ensures SumCounts(s, n) == |s|
  {
    if |s| > 0 {
      assert s == [s[0]] + s[1..];
      SumCountsAll(s[1..], n);
      SumCountsCons(s[0], s[1..], n);
    } else {
      SumCountsEmpty(n);
    }
  }

  lemma {:induction false} SumCountsEmpty(n: nat)
    ensures SumCounts([], n) == 0
  {
    if n > 0 {
      SumCountsEmpty(n - 1);
    }
  }

  lemma {:induction false} PiecesAreCounts(b: Board, n: nat)
    requires Valid(b) && n <= b.cols
    ensures PiecesBelow(b.grid, n) == SumCounts(b.moveHistory, n)
  {
    if n > 0 {
      PiecesAreCounts(b, n - 1);
    }
  }

  /** On a valid board both histories are as long as the number of pieces
      on the board. */
  lemma HistoriesMatchPieces(b: Board)
    requires Valid(b)
    ensures |b.moveHistory| == |b.playerHistory| == Pieces(b)
  {
    PiecesAreCounts(b, b.cols);
    SumCountsAll(b.moveHistory, b.cols);
  }

  lemma {:induction false} FreeBelowZero(b: Board, n: nat)
    requires Valid(b) && n <= b.cols
    ensures FreeBelow(b.grid, n) == 0 <==> forall c :: 0 <= c < n ==> IsColFull(b, c)
  {
    if n > 0 {
      FreeBelowZero(b, n - 1);
      assert IsColFull(b, n - 1) <==> DropRow(b.grid[n - 1]) == b.height;
    }
  }

  /** A valid board is full exactly when it has no free cell. */
  lemma FullIffNoFreeCells(b: Board)
    requires Valid(b)
    ensures IsFull(b) <==> FreeCells(b) == 0
  {
    FreeBelowZero(b, b.cols);
  }

  lemma {:induction false} FreeBelowBound(b: Board, n: nat)
    requires WellFormed(b) && n <= b.cols
    ensures FreeBelow(b.grid, n) <= n * b.height
  {
    if n > 0 {
      FreeBelowBound(b, n - 1);
      assert (n - 1) * b.height + b.height == n * b.height;
    }
  }

  /** A board never has more free cells than `cols * height`. */
  lemma FreeCellsBound(b: Board)
    requires WellFormed(b)
    ensures FreeCells(b) <= b.cols * b.height
  {
    FreeBelowBound(b, b.cols);
  }

  /** `get_last_move` names the column of the most recent drop not yet
      undone: after a drop into `m1` and a drop-and-undo into `m2`, it is
      `m1` again. */
  lemma LastMoveAfterUndo(b: Board, p1: int, m1: int, p2: int, m2: int)
    requires Valid(b) && p1 != Empty && p2 != Empty
    requires 0 <= m1 < b.cols && !IsColFull(b, m1)
    requires 0 <= m2 < b.cols && !IsColFull(DoMove(b, p1, m1), m2)
    ensures LastMove(Undo(DoMove(DoMove(b, p1, m1), p2, m2))) == m1
    ensures LastPlayer(Undo(DoMove(DoMove(b, p1, m1), p2, m2))) == m1
  {
    DoMovePreservesValid(b, p1, m1);
    UndoDoMove(DoMove(b, p1, m1), p2, m2);
  }
}
