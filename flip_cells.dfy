/**
 * The move of Lights Out: flipCellsAround copies the board and flips, on
 * the copy, the clicked cell and its four orthogonal neighbours, each
 * through flipCell, which skips positions off the board.
 *
 * `Flipped` and `Toggled` say on board values what one flipCell call and
 * the five calls of flipCellsAround do; the methods `FlipCell` and
 * `FlipCellsAround` do it in place on a freshly allocated copy, as the
 * source does, and are proved against them.
 */
module FlipCells {
  import opened Wrappers
  import opened Grid
  import opened CoordKey

  /** flipCell's guard: the position lies on the nrows-by-ncols board. */
  predicate OnBoard(nrows: nat, ncols: nat, y: int, x: int) {
    0 <= x < ncols && 0 <= y < nrows
  }

  /**
   * (i, j) is the clicked cell (y, x) or one of its four orthogonal
   * neighbours: same row and adjacent column, or same column and
   * adjacent row. No diagonal, no wrap-around.
   */
  predicate InCross(i: int, j: int, y: int, x: int) {
    (i == y && (j == x || j == x - 1 || j == x + 1)) || (j == x && (i == y - 1 || i == y + 1))
  }

  /**
   * One flipCell on a board value: only cell (y, x) is negated, and only
   * when it is on the board; a position off the board leaves the board as
   * it was.
   */
  function Flipped(b: Board, nrows: nat, ncols: nat, y: int, x: int): (r: Board)
    requires IsGrid(b, nrows, ncols)
    ensures IsGrid(r, nrows, ncols)
    ensures !OnBoard(nrows, ncols, y, x) ==> r == b
    ensures forall i, j :: 0 <= i < nrows && 0 <= j < ncols ==>
              r[i][j] == if i == y && j == x then !b[i][j] else b[i][j]
  {
    if OnBoard(nrows, ncols, y, x) then b[y := b[y][x := !b[y][x]]] else b
  }

  /** The five flipCell calls of flipCellsAround, in the source's order. */
  function Toggled(b: Board, nrows: nat, ncols: nat, y: int, x: int): (r: Board)
    requires IsGrid(b, nrows, ncols)
    ensures IsGrid(r, nrows, ncols)
    ensures (!OnBoard(nrows, ncols, y, x) && !OnBoard(nrows, ncols, y, x - 1) && !OnBoard(nrows, ncols, y, x + 1) &&
             !OnBoard(nrows, ncols, y - 1, x) && !OnBoard(nrows, ncols, y + 1, x)) ==> r == b
  {
    var b1 := Flipped(b, nrows, ncols, y, x);
    var b2 := Flipped(b1, nrows, ncols, y, x - 1);
    var b3 := Flipped(b2, nrows, ncols, y, x + 1);
    var b4 := Flipped(b3, nrows, ncols, y - 1, x);
    Flipped(b4, nrows, ncols, y + 1, x)
  }

  /**
   * A toggle keeps the board's dimensions and negates exactly the cells of
   * the cross around (y, x) that lie on the board; every other cell keeps
   * its state.
   */
  lemma ToggledCells(b: Board, nrows: nat, ncols: nat, y: int, x: int)
    requires IsGrid(b, nrows, ncols)
    ensures IsGrid(Toggled(b, nrows, ncols, y, x), nrows, ncols)
    ensures forall i, j :: 0 <= i < nrows && 0 <= j < ncols ==>
              Toggled(b, nrows, ncols, y, x)[i][j] == (b[i][j] != InCross(i, j, y, x))
  {
  }

  /** Toggling the same cell twice gives back the original board. */
  lemma ToggleTwice(b: Board, nrows: nat, ncols: nat, y: int, x: int)
    requires IsGrid(b, nrows, ncols)
    ensures Toggled(Toggled(b, nrows, ncols, y, x), nrows, ncols, y, x) == b
  {
    var t := Toggled(b, nrows, ncols, y, x);
    ToggledCells(b, nrows, ncols, y, x);
    ToggledCells(t, nrows, ncols, y, x);
    SameCells(Toggled(t, nrows, ncols, y, x), b, nrows, ncols);
  }

  /**
   * Two flips commute; by repeated swaps of neighbouring calls, any
   * reordering of the five flipCell calls gives the same board.
   */
  lemma FlipsCommute(b: Board, nrows: nat, ncols: nat, y1: int, x1: int, y2: int, x2: int)
    requires IsGrid(b, nrows, ncols)
    ensures Flipped(Flipped(b, nrows, ncols, y1, x1), nrows, ncols, y2, x2)
         == Flipped(Flipped(b, nrows, ncols, y2, x2), nrows, ncols, y1, x1)
  {
    var l := Flipped(Flipped(b, nrows, ncols, y1, x1), nrows, ncols, y2, x2);
    var r := Flipped(Flipped(b, nrows, ncols, y2, x2), nrows, ncols, y1, x1);
    SameCells(l, r, nrows, ncols);
  }

  /** Clicking the centre of a dark 3-by-3 board lights the centre cross; clicking it again wins. */
  lemma CentreClick()
    ensures Toggled(AllOff(3, 3), 3, 3, 1, 1) == [[false, true, false], [true, true, true], [false, true, false]]
    ensures HasWon(Toggled(Toggled(AllOff(3, 3), 3, 3, 1, 1), 3, 3, 1, 1))
  {
    var t := Toggled(AllOff(3, 3), 3, 3, 1, 1);
    ToggledCells(AllOff(3, 3), 3, 3, 1, 1);
    assert t[0] == [false, true, false];
    assert t[1] == [true, true, true];
    assert t[2] == [false, true, false];
    ToggleTwice(AllOff(3, 3), 3, 3, 1, 1);
  }

  /** Clicking a corner of a dark 3-by-3 board flips three cells; the two off-board neighbours are skipped. */
  lemma CornerClick()
    ensures Toggled(AllOff(3, 3), 3, 3, 0, 0) == [[true, true, false], [true, false, false], [false, false, false]]
  {
    var t := Toggled(AllOff(3, 3), 3, 3, 0, 0);
    ToggledCells(AllOff(3, 3), 3, 3, 0, 0);
    assert t[0] == [true, true, false];
    assert t[1] == [true, false, false];
    assert t[2] == [false, false, false];
  }

  // ---------------------------------------------------------------------
  // In place, on a copy
  // ---------------------------------------------------------------------

  /** The cells of a board held in a two-dimensional array. */
  function Cells(a: array2<bool>): (r: Board)
    reads a
    ensures IsGrid(r, a.Length0, a.Length1)
    ensures forall i, j :: 0 <= i < a.Length0 && 0 <= j < a.Length1 ==> r[i][j] == a[i, j]
  {
    seq(a.Length0, i requires 0 <= i < a.Length0 reads a =>
      seq(a.Length1, j requires 0 <= j < a.Length1 reads a => a[i, j]))
  }

  /** flipCell: negates boardCopy[y][x] when (y, x) is on the board, and does nothing otherwise. */
  method FlipCell(boardCopy: array2<bool>, nrows: nat, ncols: nat, y: int, x: int)
    requires boardCopy.Length0 == nrows && boardCopy.Length1 == ncols
    modifies boardCopy
    ensures Cells(boardCopy) == Flipped(old(Cells(boardCopy)), nrows, ncols, y, x)
  {
    ghost var before := Cells(boardCopy);
    if x >= 0 && x < ncols && y >= 0 && y < nrows {
      boardCopy[y, x] := !boardCopy[y, x];
    }
    SameCells(Cells(boardCopy), Flipped(before, nrows, ncols, y, x), nrows, ncols);
  }

  /**
   * flipCellsAround: decodes the key, copies the board, flips the cross
   * around the decoded cell on the copy and returns the copy. The board
   * passed in is not modified. A key that does not decode (NaN) fails
   * every bound test, so the copy comes back unflipped.
   */
  method FlipCellsAround(oldBoard: array2<bool>, nrows: nat, ncols: nat, coord: string)
    returns (copyBoard: array2<bool>)
    requires oldBoard.Length0 == nrows && oldBoard.Length1 == ncols
    ensures fresh(copyBoard) && unchanged(oldBoard)
    ensures copyBoard.Length0 == nrows && copyBoard.Length1 == ncols
    ensures Cells(copyBoard) == match DecodeKey(coord)
                                case Some(c) => Toggled(Cells(oldBoard), nrows, ncols, c.y, c.x)
                                case None => Cells(oldBoard)
  {
    copyBoard := new bool[nrows, ncols]((i, j) reads oldBoard =>
      if 0 <= i < nrows && 0 <= j < ncols then oldBoard[i, j] else false);
    SameCells(Cells(copyBoard), Cells(oldBoard), nrows, ncols);
    match DecodeKey(coord)
    case Some(c) =>
      FlipCross(copyBoard, nrows, ncols, c.y, c.x);
    case None =>
  }

  /** The five flipCell calls of flipCellsAround, in place on the copy, in the source's order. */
  method FlipCross(boardCopy: array2<bool>, nrows: nat, ncols: nat, y: int, x: int)
    requires boardCopy.Length0 == nrows && boardCopy.Length1 == ncols
    modifies boardCopy
    ensures Cells(boardCopy) == Toggled(old(Cells(boardCopy)), nrows, ncols, y, x)
  {
    FlipCell(boardCopy, nrows, ncols, y, x);
    FlipCell(boardCopy, nrows, ncols, y, x - 1);
    FlipCell(boardCopy, nrows, ncols, y, x + 1);
    FlipCell(boardCopy, nrows, ncols, y - 1, x);
    FlipCell(boardCopy, nrows, ncols, y + 1, x);
  }
}
