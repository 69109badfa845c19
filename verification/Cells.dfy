/** Cell values and the scans over a single column of the board.
    A column is the sequence of its cells from the bottom (index 0) upwards;
    a cell holds `Empty` (-1) or the identifier of the player whose piece
    sits there. */
module Cells {

  /** The marker board.cpp writes into every free cell. */
  const Empty: int := -1

  /** The two player identifiers used by the game loop. */
  predicate IsPlayer(p: int) {
    p == 0 || p == 1
  }

  /** `(p + 1) % 2` as C++ evaluates it: the remainder truncates toward zero,
      so a negative `p + 1` gives a non-positive remainder. */
  function NextPlayer(p: int): (q: int)
    ensures -1 <= q <= 1
    ensures p >= -1 ==> q == (p + 1) % 2
    ensures IsPlayer(p) ==> IsPlayer(q) && q != p
  {
    var s := p + 1;
    if s >= 0 then s % 2 else -((-s) % 2)
  }

  lemma NextPlayerAlternates(p: int)
    requires IsPlayer(p)
    ensures NextPlayer(NextPlayer(p)) == p
  {
  }

  /** Pieces stack from the bottom: no occupied cell sits above a free one. */
  predicate Stacked(col: seq<int>) {
    forall i, j :: 0 <= i < j < |col| && col[j] != Empty ==> col[i] != Empty
  }

  /** The drop scan of board.cpp:85-90 started at row `i`: the first free row
      at or above `i`, or `|col|` when every such row is occupied. */
  function DropRowFrom(col: seq<int>, i: nat): (r: nat)
    requires i <= |col|
    ensures i <= r <= |col|
    ensures forall k :: i <= k < r ==> col[k] != Empty
    ensures r < |col| ==> col[r] == Empty
    decreases |col| - i
  {
    if i == |col| then |col|
    else if col[i] == Empty then i
    else DropRowFrom(col, i + 1)
  }

  /** The row a dropped piece lands on: the lowest free row, or `|col|`
      when the column has no free row. */
  function DropRow(col: seq<int>): (r: nat)
    ensures r <= |col|
    ensures forall k :: 0 <= k < r ==> col[k] != Empty
    ensures r < |col| ==> col[r] == Empty
  {
    DropRowFrom(col, 0)
  }

  /** The downward scan of board.cpp:101-106 and board.cpp:131-136 started
      at row `i`: the highest occupied row at or below `i`, or -1. */
  function TopRowFrom(col: seq<int>, i: int): (r: int)
    requires -1 <= i < |col|
    ensures -1 <= r <= i
    ensures forall k :: r < k <= i ==> col[k] == Empty
    ensures r >= 0 ==> col[r] != Empty
    decreases i + 1
  {
    if i < 0 then -1
    else if col[i] != Empty then i
    else TopRowFrom(col, i - 1)
  }

  /** The highest occupied row of the column, or -1 when it is empty. */
  function TopRow(col: seq<int>): (r: int)
    ensures -1 <= r < |col|
    ensures forall k :: r < k < |col| ==> col[k] == Empty
    ensures r >= 0 ==> col[r] != Empty
  {
    TopRowFrom(col, |col| - 1)
  }

  /** The drop row is determined by the occupied prefix it closes. */
  lemma DropRowIs(col: seq<int>, k: nat)
    requires k <= |col|
    requires forall i :: 0 <= i < k ==> col[i] != Empty
    requires k < |col| ==> col[k] == Empty
    ensures DropRow(col) == k
  {
  }

  /** In a stacked column the topmost piece sits just below the drop row. */
  lemma StackedTopRow(col: seq<int>)
    requires Stacked(col)
    ensures TopRow(col) == DropRow(col) - 1
  {
    var d := DropRow(col);
    if d >= 1 {
      assert col[d - 1] != Empty;
    }
    if d < |col| {
      assert forall k :: d <= k < |col| ==> col[k] == Empty;
    }
  }

  /** A stacked column is full exactly when its top cell is occupied. */
  lemma StackedFull(col: seq<int>)
    requires Stacked(col) && |col| > 0
    ensures col[|col| - 1] != Empty <==> DropRow(col) == |col|
  {
  }

  /** Dropping a piece on a stacked, non-full column keeps it stacked, raises
      the drop row by one and makes the new piece the topmost one. */
  lemma PushStacked(col: seq<int>, p: int)
    requires Stacked(col) && DropRow(col) < |col| && p != Empty
    ensures var col' := col[DropRow(col) := p];
      && Stacked(col')
      && DropRow(col') == DropRow(col) + 1
      && TopRow(col') == DropRow(col)
  {
    var k := DropRow(col);
    var col' := col[k := p];
    forall i, j | 0 <= i < j < |col'| && col'[j] != Empty
      ensures col'[i] != Empty
    {
    }
    assert k + 1 < |col'| ==> col[k + 1] == Empty;
    DropRowIs(col', k + 1);
    StackedTopRow(col');
  }

  /** Clearing the topmost piece of a stacked column keeps it stacked and
      lowers the drop row to the cleared row. */
  lemma PopStacked(col: seq<int>)
    requires Stacked(col) && TopRow(col) >= 0
    ensures var col' := col[TopRow(col) := Empty];
      && Stacked(col')
      && DropRow(col') == TopRow(col)
  {
    var t := TopRow(col);
    StackedTopRow(col);
    var col' := col[t := Empty];
    forall i, j | 0 <= i < j < |col'| && col'[j] != Empty
      ensures col'[i] != Empty
    {
      assert j < t;
    }
    DropRowIs(col', t);
  }
}
