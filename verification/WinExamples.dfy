/** Concrete games on the default 7-wide, 6-tall board, checking `winner`
    on the vertical, horizontal and diagonal cases. */
module WinExamples {
  import opened Cells
  import opened BoardState
  import opened WinDetection

  lemma EmptyBoardHasNoWinner()
    ensures Winner(New(7, 6)) == Empty
  {
  }

  /** Player 0 drops four times into column 0. */
  lemma VerticalWin()
    ensures Winner(DoMove(DoMove(DoMove(DoMove(New(7, 6), 0, 0), 0, 0), 0, 0), 0, 0)) == 0
  {
    var b0 := New(7, 6);
    var b1 := DoMove(b0, 0, 0);
    var b2 := DoMove(b1, 0, 0);
    var b3 := DoMove(b2, 0, 0);
    var b4 := DoMove(b3, 0, 0);
    assert b1.grid[0] == [0, Empty, Empty, Empty, Empty, Empty];
    DropRowIs(b1.grid[0], 1);
    assert b2.grid[0] == [0, 0, Empty, Empty, Empty, Empty];
    DropRowIs(b2.grid[0], 2);
    assert b3.grid[0] == [0, 0, 0, Empty, Empty, Empty];
    DropRowIs(b3.grid[0], 3);
    assert b4.grid[0] == [0, 0, 0, 0, Empty, Empty];
    assert TopRow(b4.grid[0]) == 3;
    WinnerIsFourThroughLastPiece(b4);
    assert Window(b4, 0, 0, 0, 1, 0);
  }

  /** A drop onto a column whose lowest free row is known. */
  lemma DropAt(b: Board, p: int, m: int, k: nat)
    requires WellFormed(b) && 0 <= m < b.cols && k < b.height
    requires forall i :: 0 <= i < k ==> b.grid[m][i] != Empty
    requires b.grid[m][k] == Empty
    ensures DoMove(b, p, m).grid == b.grid[m := b.grid[m][k := p]]
  {
    DropRowIs(b.grid[m], k);
  }

  /** Player 0 drops into columns 0, 1, 2 and 3, all landing on row 0. */
  lemma HorizontalWin()
    ensures Winner(DoMove(DoMove(DoMove(DoMove(New(7, 6), 0, 0), 0, 1), 0, 2), 0, 3)) == 0
  {
    var b0 := New(7, 6);
    var b1 := DoMove(b0, 0, 0);
    var b2 := DoMove(b1, 0, 1);
    var b3 := DoMove(b2, 0, 2);
    var b4 := DoMove(b3, 0, 3);
    DropAt(b0, 0, 0, 0);
    DropAt(b1, 0, 1, 0);
    DropAt(b2, 0, 2, 0);
    DropAt(b3, 0, 3, 0);
    assert b4.grid[3] == [0, Empty, Empty, Empty, Empty, Empty];
    assert TopRow(b4.grid[3]) == 0;
    WinnerIsFourThroughLastPiece(b4);
    assert Window(b4, 0, 0, 1, 0, 0);
  }

  /** The first three drops of `DiagonalWin`: columns 0 and 1 hold their
      final pieces and columns 2 and 3 are still empty. */
  lemma DiagonalStart() returns (b3: Board)
    ensures b3 == DoMove(DoMove(DoMove(New(7, 6), 0, 0), 1, 1), 0, 1)
    ensures WellFormed(b3) && b3.cols == 7 && b3.height == 6
    ensures b3.grid[0] == [0, Empty, Empty, Empty, Empty, Empty]
    ensures b3.grid[1] == [1, 0, Empty, Empty, Empty, Empty]
    ensures b3.grid[2] == [Empty, Empty, Empty, Empty, Empty, Empty]
    ensures b3.grid[3] == [Empty, Empty, Empty, Empty, Empty, Empty]
  {
    var E := Empty;
    var b0 := New(7, 6);
    var b1 := DoMove(b0, 0, 0);
    var b2 := DoMove(b1, 1, 1);
    b3 := DoMove(b2, 0, 1);
    DropAt(b0, 0, 0, 0);
    assert b1.grid[0] == [0, E, E, E, E, E];
    DropAt(b1, 1, 1, 0);
    assert b2.grid[1] == [1, E, E, E, E, E];
    DropAt(b2, 0, 1, 1);
  }

  /** The first six drops of `DiagonalWin`: columns 0, 1 and 2 hold their
      final pieces and column 3 is still empty. */
  lemma DiagonalOpening() returns (b6: Board)
    ensures b6 == DoMove(DoMove(DoMove(DoMove(DoMove(DoMove(New(7, 6), 0, 0), 1, 1), 0, 1), 1, 2), 1, 2), 0, 2)
    ensures WellFormed(b6) && b6.cols == 7 && b6.height == 6
    ensures b6.grid[0] == [0, Empty, Empty, Empty, Empty, Empty]
    ensures b6.grid[1] == [1, 0, Empty, Empty, Empty, Empty]
    ensures b6.grid[2] == [1, 1, 0, Empty, Empty, Empty]
    ensures b6.grid[3] == [Empty, Empty, Empty, Empty, Empty, Empty]
  {
    var E := Empty;
    var b3 := DiagonalStart();
    var b4 := DoMove(b3, 1, 2);
    var b5 := DoMove(b4, 1, 2);
    b6 := DoMove(b5, 0, 2);
    DropAt(b3, 1, 2, 0);
    assert b4.grid[2] == [1, E, E, E, E, E];
    DropAt(b4, 1, 2, 1);
    assert b5.grid[2] == [1, 1, E, E, E, E];
    DropAt(b5, 0, 2, 2);
  }

  /** Player 0 ends on the cells (0,0), (1,1), (2,2) and (3,3); player 1
      fills the cells beneath them. */
  lemma DiagonalWin()
    ensures var b := DoMove(DoMove(DoMove(DoMove(DoMove(DoMove(DoMove(DoMove(DoMove(DoMove(
              New(7, 6), 0, 0), 1, 1), 0, 1), 1, 2), 1, 2), 0, 2), 1, 3), 1, 3), 1, 3), 0, 3);
      Winner(b) == 0
  {
    var E := Empty;
    var b6 := DiagonalOpening();
    var b7 := DoMove(b6, 1, 3);
    var b8 := DoMove(b7, 1, 3);
    var b9 := DoMove(b8, 1, 3);
    var b10 := DoMove(b9, 0, 3);
    DropAt(b6, 1, 3, 0);
    assert b7.grid[3] == [1, E, E, E, E, E];
    DropAt(b7, 1, 3, 1);
    assert b8.grid[3] == [1, 1, E, E, E, E];
    DropAt(b8, 1, 3, 2);
    assert b9.grid[3] == [1, 1, 1, E, E, E];
    DropAt(b9, 0, 3, 3);
    assert b10.grid[..3] == b6.grid[..3];
    assert b10.grid[3] == [1, 1, 1, 0, E, E];
    assert TopRow(b10.grid[3]) == 3;
    WinnerIsFourThroughLastPiece(b10);
    assert Window(b10, 0, 0, 1, 1, 0);
  }
}
