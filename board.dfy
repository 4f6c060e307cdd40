/** The Lights Out board component's state machine: a grid of lights
    created from one random draw per cell, clicks that flip a cell and its
    four orthogonal neighbours in place, and the win flag recomputed after
    every click. */
module LightsOut {
  import Coords
  import Grids

  /** The component's default properties. */
  const DefaultNrows: nat := 5
  const DefaultNcols: nat := 5
  const DefaultChangeLightStartsOn: real := 0.25

  class Board {
    const nrows: nat
    const ncols: nat
    /** The lights, board[row, col]; true is lit. The same array is kept
        for the whole game and flipped in place. */
    const board: array2<bool>
    var hasWon: bool
    /** The abstract value of the lights. */
    ghost var grid: Grids.Grid

    ghost predicate Valid()
      reads this, board
    {
      board.Length0 == nrows && board.Length1 == ncols &&
      Grids.IsGrid(grid, nrows, ncols) &&
      forall i, j :: 0 <= i < nrows && 0 <= j < ncols ==> grid[i][j] == board[i, j]
    }

    /** The initial state: a freshly generated board, and hasWon false
        whatever the board holds. */
    constructor (draws: seq<real>, nrows: nat := DefaultNrows, ncols: nat := DefaultNcols,
                 changeLightStartsOn: real := DefaultChangeLightStartsOn)
      requires |draws| == nrows * ncols
      ensures Valid() && fresh(board)
      ensures this.nrows == nrows && this.ncols == ncols
      ensures grid == Grids.Generated(nrows, ncols, draws, changeLightStartsOn)
      ensures !hasWon
    {
      this.nrows := nrows;
      this.ncols := ncols;
      var created := CreateBoard(nrows, ncols, changeLightStartsOn, draws);
      hasWon := false;
      board := created;
      grid := Grids.Generated(nrows, ncols, draws, changeLightStartsOn);
      Grids.GeneratedCells(nrows, ncols, draws, changeLightStartsOn);
    }

    /** The initial state with the win flag computed from the generated
        board, so that a board generated all off starts out won. */
    constructor WithInitialWinCheck(draws: seq<real>, nrows: nat := DefaultNrows, ncols: nat := DefaultNcols,
                                    changeLightStartsOn: real := DefaultChangeLightStartsOn)
      requires |draws| == nrows * ncols
      ensures Valid() && fresh(board)
      ensures this.nrows == nrows && this.ncols == ncols
      ensures grid == Grids.Generated(nrows, ncols, draws, changeLightStartsOn)
      ensures hasWon == Grids.AllOff(grid)
    {
      this.nrows := nrows;
      this.ncols := ncols;
      var created := CreateBoard(nrows, ncols, changeLightStartsOn, draws);
      board := created;
      grid := Grids.Generated(nrows, ncols, draws, changeLightStartsOn);
      Grids.GeneratedCells(nrows, ncols, draws, changeLightStartsOn);
      new;
      hasWon := IsAllOff();
    }

    /** A board nrows high and ncols wide, filled row by row; each cell
        consumes the next draw and is lit when that draw is below
        changeLightStartsOn. */
    static method CreateBoard(nrows: nat, ncols: nat, changeLightStartsOn: real, draws: seq<real>)
      returns (b: array2<bool>)
      requires |draws| == nrows * ncols
      ensures fresh(b)
      ensures b.Length0 == nrows && b.Length1 == ncols
      ensures forall i, j :: 0 <= i < nrows && 0 <= j < ncols ==>
        Grids.RowMajor(i, j, ncols) < |draws| &&
        b[i, j] == Grids.Lit(draws[Grids.RowMajor(i, j, ncols)], changeLightStartsOn)
    {
      b := new bool[nrows, ncols];
      var k := 0;  // draws consumed so far
      for i := 0 to nrows
        invariant k == Grids.RowMajor(i, 0, ncols)
        invariant forall i', j :: 0 <= i' < i && 0 <= j < ncols ==>
          Grids.RowMajor(i', j, ncols) < |draws| &&
          b[i', j] == Grids.Lit(draws[Grids.RowMajor(i', j, ncols)], changeLightStartsOn)
      {
        for j := 0 to ncols
          invariant k == Grids.RowMajor(i, j, ncols)
          invariant forall i', j' :: 0 <= i' < i && 0 <= j' < ncols ==>
            Grids.RowMajor(i', j', ncols) < |draws| &&
            b[i', j'] == Grids.Lit(draws[Grids.RowMajor(i', j', ncols)], changeLightStartsOn)
          invariant forall j' :: 0 <= j' < j ==>
            Grids.RowMajor(i, j', ncols) < |draws| &&
            b[i, j'] == Grids.Lit(draws[Grids.RowMajor(i, j', ncols)], changeLightStartsOn)
        {
          Grids.RowMajorBound(i, j, nrows, ncols);
          b[i, j] := Grids.Lit(draws[k], changeLightStartsOn);
          k := k + 1;
        }
        assert Grids.RowMajor(i, ncols, ncols) == Grids.RowMajor(i + 1, 0, ncols);
      }
    }

    /** The win test, every cell of every row off, read off the array. */
    predicate IsAllOff()
      reads this, board
      requires Valid()
      ensures IsAllOff() == Grids.AllOff(grid)
    {
      forall i, j | 0 <= i < nrows && 0 <= j < ncols :: !board[i, j]
    }

    /** flipCell: negate one light if the coordinate is on the board. */
    method FlipCell(y: int, x: int)
      requires Valid()
      modifies this`grid, board
      ensures Valid()
      ensures grid == Grids.FlipCell(old(grid), nrows, ncols, y, x)
    {
      if x >= 0 && x < ncols && y >= 0 && y < nrows {
        board[y, x] := !board[y, x];
      }
      grid := Grids.FlipCell(grid, nrows, ncols, y, x);
    }

    /** A click on the cell whose coordinate string is coord: flip it and
        its left, right, upper and lower neighbours, then store whether
        every light is off. A part of coord that is not a digit string is
        NaN, every bounds comparison with NaN is false, and then no flip
        changes anything. */
    method FlipCellsAround(coord: string)
      requires Valid()
      modifies this, board
      ensures Valid()
      ensures var (y, x) := Coords.ParseCoord(coord);
        grid == if y.Num? && x.Num? then Grids.FlipAround(old(grid), nrows, ncols, y.value, x.value)
                else old(grid)
      ensures hasWon == Grids.AllOff(grid)
    {
      var (yn, xn) := Coords.ParseCoord(coord);
      if yn.Num? && xn.Num? {
        var y: int, x: int := yn.value, xn.value;
        FlipCell(y, x);
        FlipCell(y, x - 1);
        FlipCell(y, x + 1);
        FlipCell(y - 1, x);
        FlipCell(y + 1, x);
      }
      hasWon := IsAllOff();
    }
  }

  /** A board can be generated all off: one cell whose draw does not light
      it. The constructor nevertheless starts with hasWon false. */
  lemma AllOffStartIsPossible()
    ensures Grids.AllOff(Grids.Generated(1, 1, [0.5], DefaultChangeLightStartsOn))
  {
  }

  /** The as-written start on that board: all lights off, yet not won. */
  method AllOffStartScenario() {
    var b := new Board([0.5], 1, 1);
    AllOffStartIsPossible();
    assert Grids.AllOff(b.grid) && !b.hasWon;
  }
}
