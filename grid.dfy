/**
 * The Lights Out board as a value: a grid of cells indexed [row][col],
 * `true` meaning lit. Board generation (createBoard) and win detection
 * (hasWon) are pure expressions in the source and are functions here.
 */
module Grid {

  type Board = seq<seq<bool>>

  /** The board has exactly `nrows` rows of exactly `ncols` cells each. */
  predicate IsGrid(b: Board, nrows: nat, ncols: nat) {
    |b| == nrows && forall y :: 0 <= y < nrows ==> |b[y]| == ncols
  }

  /** The board with every cell off. */
  function AllOff(nrows: nat, ncols: nat): (r: Board)
    ensures IsGrid(r, nrows, ncols)
    ensures forall y, x :: 0 <= y < nrows && 0 <= x < ncols ==> !r[y][x]
  {
    seq(nrows, _ => seq(ncols, _ => false))
  }

  /** Two grids of the same size with the same cells are equal. */
  lemma SameCells(b1: Board, b2: Board, nrows: nat, ncols: nat)
    requires IsGrid(b1, nrows, ncols) && IsGrid(b2, nrows, ncols)
    requires forall i, j :: 0 <= i < nrows && 0 <= j < ncols ==> b1[i][j] == b2[i][j]
    ensures b1 == b2
  {
    forall i | 0 <= i < nrows
      ensures b1[i] == b2[i]
    {
      assert forall j :: 0 <= j < ncols ==> b1[i][j] == b2[i][j];
    }
  }

  // ---------------------------------------------------------------------
  // Board generation
  // ---------------------------------------------------------------------

  /**
   * The source of randomness: `draw(i)` is the value returned by the i-th
   * call of the random generator during one board generation.
   */
  type Draws = nat -> real

  /**
   * Cell (y, x) is generated by the (y * ncols + x)-th draw: the outer
   * `map` runs over rows and the inner one over the cells of a row.
   */
  function DrawIndex(ncols: nat, y: nat, x: nat): nat {
    y * ncols + x
  }

  /**
   * createBoard: an nrows-high, ncols-wide grid in which a cell is lit
   * exactly when its draw is strictly below `chanceLightStartsOn`.
   */
  function CreateBoard(nrows: nat, ncols: nat, chanceLightStartsOn: real, draw: Draws): (r: Board)
    ensures IsGrid(r, nrows, ncols)
    ensures forall y, x :: 0 <= y < nrows && 0 <= x < ncols ==>
              (r[y][x] <==> draw(DrawIndex(ncols, y, x)) < chanceLightStartsOn)
  {
    seq(nrows, (y: nat) => seq(ncols, (x: nat) => draw(DrawIndex(ncols, y, x)) < chanceLightStartsOn))
  }

  /** A draw in the range of the random generator, [0, 1). */
  ghost predicate UnitDraws(draw: Draws) {
    forall i :: 0.0 <= draw(i) < 1.0
  }

  /**
   * Every cell consumes a draw of its own: distinct cells of an
   * nrows-by-ncols board use distinct draws, all among the first
   * nrows * ncols.
   */
  lemma DrawIndexInjective(nrows: nat, ncols: nat, y1: nat, x1: nat, y2: nat, x2: nat)
    requires y1 < nrows && x1 < ncols && y2 < nrows && x2 < ncols
    ensures DrawIndex(ncols, y1, x1) < nrows * ncols
    ensures DrawIndex(ncols, y1, x1) == DrawIndex(ncols, y2, x2) ==> y1 == y2 && x1 == x2
  {
    RowStartsBelow(ncols, y1, nrows);
    if y1 < y2 {
      RowStartsBelow(ncols, y1, y2);
    } else if y2 < y1 {
      RowStartsBelow(ncols, y2, y1);
    }
  }

  /** The draws of row y all come before the first draw of any later row. */
  lemma RowStartsBelow(ncols: nat, y: nat, z: nat)
    requires y < z
    ensures y * ncols + ncols <= z * ncols
  {
    calc {
      y * ncols + ncols;
    ==
      (y + 1) * ncols;
    <=  { MulMonotone(y + 1, z, ncols); }
      z * ncols;
    }
  }

  lemma {:induction false} MulMonotone(a: nat, b: nat, c: nat)
    requires a <= b
    ensures a * c <= b * c
  {
    if a < b {
      MulMonotone(a, b - 1, c);
      assert (b - 1) * c + c == b * c;
    }
  }

  /** With draws in [0, 1), a chance of at most 0 lights no cell: the board is already won. */
  lemma CreateBoardNoChance(nrows: nat, ncols: nat, chanceLightStartsOn: real, draw: Draws)
    requires UnitDraws(draw) && chanceLightStartsOn <= 0.0
    ensures CreateBoard(nrows, ncols, chanceLightStartsOn, draw) == AllOff(nrows, ncols)
    ensures HasWon(CreateBoard(nrows, ncols, chanceLightStartsOn, draw))
  {
    var b := CreateBoard(nrows, ncols, chanceLightStartsOn, draw);
    forall y, x | 0 <= y < nrows && 0 <= x < ncols
      ensures !b[y][x]
    {
      assert 0.0 <= draw(DrawIndex(ncols, y, x));
    }
    AllOffIffWon(b, nrows, ncols);
  }

  /** With draws in [0, 1), a chance of at least 1 lights every cell. */
  lemma CreateBoardCertainChance(nrows: nat, ncols: nat, chanceLightStartsOn: real, draw: Draws)
    requires UnitDraws(draw) && chanceLightStartsOn >= 1.0
    ensures forall y, x :: 0 <= y < nrows && 0 <= x < ncols ==>
              CreateBoard(nrows, ncols, chanceLightStartsOn, draw)[y][x]
    ensures nrows > 0 && ncols > 0 ==> !HasWon(CreateBoard(nrows, ncols, chanceLightStartsOn, draw))
  {
    var b := CreateBoard(nrows, ncols, chanceLightStartsOn, draw);
    forall y, x | 0 <= y < nrows && 0 <= x < ncols
      ensures b[y][x]
    {
      assert draw(DrawIndex(ncols, y, x)) < 1.0;
    }
    if nrows > 0 && ncols > 0 {
      assert b[0][0];
    }
  }

  // ---------------------------------------------------------------------
  // Win detection
  // ---------------------------------------------------------------------

  /** `row.every(cell => !cell)`: walks the row from the front. */
  function RowOff(row: seq<bool>): (r: bool)
    ensures r <==> forall x :: 0 <= x < |row| ==> !row[x]
  {
    if row == [] then true else !row[0] && RowOff(row[1..])
  }

  /** hasWon, `board.every(row => row.every(cell => !cell))`: no cell of any row is lit. */
  function HasWon(b: Board): (r: bool)
    ensures r <==> forall y, x :: 0 <= y < |b| && 0 <= x < |b[y]| ==> !b[y][x]
  {
    if b == [] then true else RowOff(b[0]) && HasWon(b[1..])
  }

  /** On a rectangular board, winning means being the all-off board of the same size. */
  lemma AllOffIffWon(b: Board, nrows: nat, ncols: nat)
    requires IsGrid(b, nrows, ncols)
    ensures HasWon(b) <==> b == AllOff(nrows, ncols)
  {
    if HasWon(b) {
      SameCells(b, AllOff(nrows, ncols), nrows, ncols);
    }
  }

  /** The board drawn in the component's documentation, with two lit cells, is not a win. */
  lemma DocumentedBoardNotWon()
    ensures !HasWon([[false, false, false], [true, true, false], [false, false, false]])
    ensures HasWon(AllOff(3, 3))
  {
    var b := [[false, false, false], [true, true, false], [false, false, false]];
    assert b[1][0];
  }
}
