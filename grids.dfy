/** The board's state as a value: an nrows x ncols grid of lit (true) and
    unlit (false) cells, indexed grid[row][col]. These functions are the
    specification that the Board class is proved against, and the lemmas
    are the game's properties stated on them. */
module Grids {

  type Grid = seq<seq<bool>>

  /** g has exactly nrows rows of exactly ncols cells each. */
  predicate IsGrid(g: Grid, nrows: nat, ncols: nat) {
    |g| == nrows && forall i :: 0 <= i < |g| ==> |g[i]| == ncols
  }

  /** The guard of flipCell: the coordinate lies on the board. */
  predicate OnBoard(nrows: nat, ncols: nat, y: int, x: int) {
    x >= 0 && x < ncols && y >= 0 && y < nrows
  }

  /** The win test: every cell in every row is off. */
  predicate AllOff(g: Grid) {
    forall i :: 0 <= i < |g| ==> forall j :: 0 <= j < |g[i]| ==> !g[i][j]
  }

  /** The grid with every cell off. */
  function Dark(nrows: nat, ncols: nat): (g: Grid)
    ensures IsGrid(g, nrows, ncols)
  {
    seq(nrows, _ => seq(ncols, _ => false))
  }

  // ---------------------------------------------------------------------
  // Generation

  /** One cell's start state from one random draw. */
  predicate Lit(draw: real, changeLightStartsOn: real) {
    draw < changeLightStartsOn
  }

  /** The position of cell (i, j) in push order. */
  function RowMajor(i: nat, j: nat, ncols: nat): nat {
    i * ncols + j
  }

  lemma RowMajorBound(i: nat, j: nat, nrows: nat, ncols: nat)
    requires i < nrows && j < ncols
    ensures RowMajor(i, j, ncols) < nrows * ncols
  {
    assert i * ncols + j < (i + 1) * ncols;
    assert (i + 1) * ncols <= nrows * ncols;
  }

  /** The grid whose cell (i, j) is decided by the draw at position
      RowMajor(i, j, ncols), the position at which it is pushed. */
  ghost function Generated(nrows: nat, ncols: nat, draws: seq<real>, changeLightStartsOn: real): (g: Grid)
    requires |draws| == nrows * ncols
    ensures IsGrid(g, nrows, ncols)
  {
    seq(nrows, i requires 0 <= i < nrows =>
      seq(ncols, j requires 0 <= j < ncols =>
        RowMajorBound(i, j, nrows, ncols);
        Lit(draws[RowMajor(i, j, ncols)], changeLightStartsOn)))
  }

  /** Generated read cell by cell, with the bound on each draw's index. */
  lemma GeneratedCells(nrows: nat, ncols: nat, draws: seq<real>, p: real)
    requires |draws| == nrows * ncols
    ensures IsGrid(Generated(nrows, ncols, draws, p), nrows, ncols)
    ensures forall i, j :: 0 <= i < nrows && 0 <= j < ncols ==>
      RowMajor(i, j, ncols) < |draws| &&
      Generated(nrows, ncols, draws, p)[i][j] == Lit(draws[RowMajor(i, j, ncols)], p)
  {
    forall i, j | 0 <= i < nrows && 0 <= j < ncols
      ensures RowMajor(i, j, ncols) < |draws|
    {
      RowMajorBound(i, j, nrows, ncols);
    }
  }

  /** If no draw lights its cell, the generated grid is already won; with
      draws in [0, 1) that is so for probability 0, and probability 1
      lights every cell. */
  lemma GeneratedExtremes(nrows: nat, ncols: nat, draws: seq<real>, p: real)
    requires |draws| == nrows * ncols
    ensures (forall k :: 0 <= k < |draws| ==> !Lit(draws[k], p)) ==>
      Generated(nrows, ncols, draws, p) == Dark(nrows, ncols)
    ensures (forall k :: 0 <= k < |draws| ==> 0.0 <= draws[k] < 1.0) && p <= 0.0 ==>
      Generated(nrows, ncols, draws, p) == Dark(nrows, ncols)
    ensures (forall k :: 0 <= k < |draws| ==> 0.0 <= draws[k] < 1.0) && 1.0 <= p ==>
      forall i, j :: 0 <= i < nrows && 0 <= j < ncols ==> Generated(nrows, ncols, draws, p)[i][j]
  {
    var g := Generated(nrows, ncols, draws, p);
    GeneratedCells(nrows, ncols, draws, p);
    if forall k :: 0 <= k < |draws| ==> !Lit(draws[k], p) {
      SameCells(g, Dark(nrows, ncols), nrows, ncols);
    }
  }

  // ---------------------------------------------------------------------
  // Flipping

  /** flipCell(y, x): negate the cell when it is on the board, otherwise
      change nothing. */
  function FlipCell(g: Grid, nrows: nat, ncols: nat, y: int, x: int): (r: Grid)
    requires IsGrid(g, nrows, ncols)
    ensures IsGrid(r, nrows, ncols)
    ensures forall i, j :: 0 <= i < nrows && 0 <= j < ncols ==>
      r[i][j] == (g[i][j] != (i == y && j == x))
  {
    if OnBoard(nrows, ncols, y, x) then g[y := g[y][x := !g[y][x]]] else g
  }

  /** The five candidate targets of a click at (y, x), in the order the
      flips are applied: the cell itself, left, right, up, down. */
  function Neighbourhood(y: int, x: int): (ts: seq<(int, int)>)
    ensures |ts| == 5 && ts[0] == (y, x)
    ensures forall a, b :: 0 <= a < b < |ts| ==> ts[a] != ts[b]
    ensures forall i, j :: (i, j) in ts <==>
      (i == y && (j == x || j == x - 1 || j == x + 1)) || (j == x && (i == y - 1 || i == y + 1))
  {
    [(y, x), (y, x - 1), (y, x + 1), (y - 1, x), (y + 1, x)]
  }

  /** flipCellsAround without the win test: the five flips in source order. */
  function FlipAround(g: Grid, nrows: nat, ncols: nat, y: int, x: int): (r: Grid)
    requires IsGrid(g, nrows, ncols)
    ensures IsGrid(r, nrows, ncols)
  {
    var g1 := FlipCell(g, nrows, ncols, y, x);
    var g2 := FlipCell(g1, nrows, ncols, y, x - 1);
    var g3 := FlipCell(g2, nrows, ncols, y, x + 1);
    var g4 := FlipCell(g3, nrows, ncols, y - 1, x);
    FlipCell(g4, nrows, ncols, y + 1, x)
  }

  /** The flips of a list of targets, applied in list order. */
  function FlipAll(g: Grid, nrows: nat, ncols: nat, ts: seq<(int, int)>): (r: Grid)
    requires IsGrid(g, nrows, ncols)
    ensures IsGrid(r, nrows, ncols)
    decreases |ts|
  {
    if ts == [] then g
    else FlipAll(FlipCell(g, nrows, ncols, ts[0].0, ts[0].1), nrows, ncols, ts[1..])
  }

  /** Two grids of the same shape that agree on every cell are equal. */
  lemma SameCells(a: Grid, b: Grid, nrows: nat, ncols: nat)
    requires IsGrid(a, nrows, ncols) && IsGrid(b, nrows, ncols)
    requires forall i, j :: 0 <= i < nrows && 0 <= j < ncols ==> a[i][j] == b[i][j]
    ensures a == b
  {
    forall i | 0 <= i < nrows
      ensures a[i] == b[i]
    {
      assert forall j :: 0 <= j < ncols ==> a[i][j] == b[i][j];
    }
  }

  /** A click negates exactly the cells of the neighbourhood that lie on
      the board and keeps every other cell. */
  lemma FlipAroundCells(g: Grid, nrows: nat, ncols: nat, y: int, x: int)
    requires IsGrid(g, nrows, ncols)
    ensures forall i, j :: 0 <= i < nrows && 0 <= j < ncols ==>
      FlipAround(g, nrows, ncols, y, x)[i][j] == (g[i][j] != ((i, j) in Neighbourhood(y, x)))
  {
  }

  /** Clicking the same cell twice restores the grid. */
  lemma FlipAroundTwice(g: Grid, nrows: nat, ncols: nat, y: int, x: int)
    requires IsGrid(g, nrows, ncols)
    ensures FlipAround(FlipAround(g, nrows, ncols, y, x), nrows, ncols, y, x) == g
  {
    var once := FlipAround(g, nrows, ncols, y, x);
    FlipAroundCells(g, nrows, ncols, y, x);
    FlipAroundCells(once, nrows, ncols, y, x);
    SameCells(FlipAround(once, nrows, ncols, y, x), g, nrows, ncols);
  }

  /** After a list of flips, a cell is negated exactly when it was
      targeted an odd number of times. */
  lemma {:induction false} FlipAllCells(g: Grid, nrows: nat, ncols: nat, ts: seq<(int, int)>)
    requires IsGrid(g, nrows, ncols)
    ensures forall i, j :: 0 <= i < nrows && 0 <= j < ncols ==>
      FlipAll(g, nrows, ncols, ts)[i][j] == (g[i][j] != (multiset(ts)[(i, j)] % 2 == 1))
    decreases |ts|
  {
    if ts != [] {
      var g1 := FlipCell(g, nrows, ncols, ts[0].0, ts[0].1);
      FlipAllCells(g1, nrows, ncols, ts[1..]);
      assert ts == [ts[0]] + ts[1..];
      assert multiset(ts) == multiset{ts[0]} + multiset(ts[1..]);
    }
  }

  /** The order of the flips does not matter: any rearrangement of the
      same targets gives the same grid. */
  lemma FlipOrderIrrelevant(g: Grid, nrows: nat, ncols: nat, ts: seq<(int, int)>, us: seq<(int, int)>)
    requires IsGrid(g, nrows, ncols)
    requires multiset(ts) == multiset(us)
    ensures FlipAll(g, nrows, ncols, ts) == FlipAll(g, nrows, ncols, us)
  {
    FlipAllCells(g, nrows, ncols, ts);
    FlipAllCells(g, nrows, ncols, us);
    SameCells(FlipAll(g, nrows, ncols, ts), FlipAll(g, nrows, ncols, us), nrows, ncols);
  }

  /** A click is the five flips of its neighbourhood in any order. */
  lemma FlipAroundAnyOrder(g: Grid, nrows: nat, ncols: nat, y: int, x: int, ts: seq<(int, int)>)
    requires IsGrid(g, nrows, ncols)
    requires multiset(ts) == multiset(Neighbourhood(y, x))
    ensures FlipAll(g, nrows, ncols, ts) == FlipAround(g, nrows, ncols, y, x)
  {
    var ns := Neighbourhood(y, x);
    FlipAllCells(g, nrows, ncols, ts);
    FlipAroundCells(g, nrows, ncols, y, x);
    forall i, j | 0 <= i < nrows && 0 <= j < ncols
      ensures (multiset(ts)[(i, j)] % 2 == 1) == ((i, j) in ns)
    {
      assert multiset(ns) == multiset{ns[0], ns[1], ns[2], ns[3], ns[4]};
    }
    SameCells(FlipAll(g, nrows, ncols, ts), FlipAround(g, nrows, ncols, y, x), nrows, ncols);
  }

  // ---------------------------------------------------------------------
  // Which cells a click changes

  /** The cells on which two grids of the same shape differ. */
  ghost function Changed(g: Grid, h: Grid, nrows: nat, ncols: nat): set<(int, int)>
    requires IsGrid(g, nrows, ncols) && IsGrid(h, nrows, ncols)
  {
    set i, j | 0 <= i < nrows && 0 <= j < ncols && g[i][j] != h[i][j] :: (i, j)
  }

  /** The targets of a click at (y, x) that lie on the board. */
  ghost function OnBoardTargets(nrows: nat, ncols: nat, y: int, x: int): set<(int, int)> {
    set t | t in Neighbourhood(y, x) && OnBoard(nrows, ncols, t.0, t.1)
  }

  /** A click changes exactly the on-board cells of its neighbourhood. */
  lemma ChangedByFlipAround(g: Grid, nrows: nat, ncols: nat, y: int, x: int)
    requires IsGrid(g, nrows, ncols)
    ensures Changed(g, FlipAround(g, nrows, ncols, y, x), nrows, ncols) == OnBoardTargets(nrows, ncols, y, x)
  {
    FlipAroundCells(g, nrows, ncols, y, x);
  }

  function Indicator(b: bool): nat {
    if b then 1 else 0
  }

  /** Adding a target that is on the board grows a set by one. */
  function Include(s: set<(int, int)>, t: (int, int), onBoard: bool): set<(int, int)> {
    if onBoard then s + {t} else s
  }

  lemma IncludeSize(s: set<(int, int)>, t: (int, int), onBoard: bool)
    requires t !in s
    ensures |Include(s, t, onBoard)| == |s| + Indicator(onBoard)
    ensures Include(s, t, onBoard) <= s + {t}
  {
  }

  /** The on-board targets of an on-board click, built one side at a time. */
  lemma OnBoardTargetsBySide(nrows: nat, ncols: nat, y: int, x: int)
    requires OnBoard(nrows, ncols, y, x)
    ensures OnBoardTargets(nrows, ncols, y, x) ==
      Include(Include(Include(Include({(y, x)}, (y, x - 1), 0 < x), (y, x + 1), x + 1 < ncols),
        (y - 1, x), 0 < y), (y + 1, x), y + 1 < nrows)
  {
  }

  /** An on-board click has the cell itself plus one on-board target for
      each side on which the board continues. */
  lemma OnBoardTargetCount(nrows: nat, ncols: nat, y: int, x: int)
    requires OnBoard(nrows, ncols, y, x)
    ensures |OnBoardTargets(nrows, ncols, y, x)| ==
      1 + Indicator(0 < x) + Indicator(x + 1 < ncols) + Indicator(0 < y) + Indicator(y + 1 < nrows)
  {
    OnBoardTargetsBySide(nrows, ncols, y, x);
    var s0: set<(int, int)> := {(y, x)};
    var s1 := Include(s0, (y, x - 1), 0 < x);
    var s2 := Include(s1, (y, x + 1), x + 1 < ncols);
    var s3 := Include(s2, (y - 1, x), 0 < y);
    IncludeSize(s0, (y, x - 1), 0 < x);
    assert s1 <= {(y, x), (y, x - 1)};
    IncludeSize(s1, (y, x + 1), x + 1 < ncols);
    assert s2 <= {(y, x), (y, x - 1), (y, x + 1)};
    IncludeSize(s2, (y - 1, x), 0 < y);
    assert s3 <= {(y, x), (y, x - 1), (y, x + 1), (y - 1, x)};
    IncludeSize(s3, (y + 1, x), y + 1 < nrows);
  }

  /** A click on the board changes 3 cells in a corner, 4 elsewhere on the
      border and 5 inside. */
  lemma ToggledCount(g: Grid, nrows: nat, ncols: nat, y: int, x: int)
    requires IsGrid(g, nrows, ncols) && OnBoard(nrows, ncols, y, x)
    ensures |Changed(g, FlipAround(g, nrows, ncols, y, x), nrows, ncols)| ==
      1 + Indicator(0 < x) + Indicator(x + 1 < ncols) + Indicator(0 < y) + Indicator(y + 1 < nrows)
    ensures 2 <= nrows && 2 <= ncols && (y == 0 || y == nrows - 1) && (x == 0 || x == ncols - 1) ==>
      |Changed(g, FlipAround(g, nrows, ncols, y, x), nrows, ncols)| == 3
    ensures (0 < y < nrows - 1 && (x == 0 || x == ncols - 1) && 2 <= ncols) ||
            (0 < x < ncols - 1 && (y == 0 || y == nrows - 1) && 2 <= nrows) ==>
      |Changed(g, FlipAround(g, nrows, ncols, y, x), nrows, ncols)| == 4
    ensures 0 < y < nrows - 1 && 0 < x < ncols - 1 ==>
      |Changed(g, FlipAround(g, nrows, ncols, y, x), nrows, ncols)| == 5
  {
    ChangedByFlipAround(g, nrows, ncols, y, x);
    OnBoardTargetCount(nrows, ncols, y, x);
  }

  // ---------------------------------------------------------------------
  // Winning

  /** The all-off grid is the only winning grid of its shape. */
  lemma AllOffIsDark(g: Grid, nrows: nat, ncols: nat)
    requires IsGrid(g, nrows, ncols)
    ensures AllOff(g) <==> g == Dark(nrows, ncols)
  {
    if AllOff(g) {
      SameCells(g, Dark(nrows, ncols), nrows, ncols);
    }
  }

  /** A click on the board of a won grid lights the clicked cell again, so
      the flip stays safe to call after a win but leaves the won state. */
  lemma FlipAroundLeavesWin(g: Grid, nrows: nat, ncols: nat, y: int, x: int)
    requires IsGrid(g, nrows, ncols) && AllOff(g) && OnBoard(nrows, ncols, y, x)
    ensures FlipAround(g, nrows, ncols, y, x)[y][x]
    ensures !AllOff(FlipAround(g, nrows, ncols, y, x))
  {
    FlipAroundCells(g, nrows, ncols, y, x);
  }
}
