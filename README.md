# Lights Out board, modelled in Dafny

The model covers the state machine of the `Board` component of a React
Lights Out game (`src/Board.js`). A board is an `nrows × ncols` grid of
lights. It is generated with one random draw per cell: a cell is lit when its
draw is below `changeLightStartsOn`. Each cell's callback carries the string
`${i}-${j}`. A click decodes that string, flips the cell and its four
orthogonal neighbours in place (a neighbour off the board is skipped), and
stores `hasWon`: whether every light is now off.

Files and modules:

- `coords.dfy`, module `Coords`. Builds the coordinate string (the template
  literal on a non-negative integer). Decodes it as `split('-')` followed by
  `Number` on each piece. Proves the round trips between them.
- `grids.dfy`, module `Grids`. The grid as a value (`seq<seq<bool>>`):
  generation from the draws, `flipCell`, the five-flip click, the win test.
  Holds the lemmas about them: self-inverse clicks, order independence, exactly
  which cells change and how many, and the all-off grid as the only win.
- `board.dfy`, module `LightsOut`. Class `Board` with the component's props
  (`nrows`, `ncols`) and state (`board` as an `array2<bool>` flipped in place,
  `hasWon`). A ghost field `grid` holds the abstract value, and `Valid()` ties
  it to the array. Every method is proved against the `Grids` functions.

Randomness is a parameter: `draws` is the sequence of values `Math.random()`
would return, in call order, one per cell. Draws and the threshold are exact
reals.

Where written descriptions of the component and its code disagree, the model
follows the code:

- The component reports no error for non-positive dimensions or for a
  probability outside [0, 1]. Zero rows give an empty board. Any threshold is
  accepted.
- The doc comment (src/Board.js:11) calls the property `chanceLightStartsOn`.
  The code uses `changeLightStartsOn` both in `defaultProps` (line 36) and in
  `createBoard` (line 54), so the default 0.25 is applied. The model's
  parameter is `changeLightStartsOn`.
- `hasWon` is not always "all lights off". The constructor sets it to false
  whatever the generated board holds (lines 41-44). Only a click recomputes it.
  See "## Findings".

## Model

| member | source | states |
|---|---|---|
| `Coords.NatToString` | src/Board.js:103 | `${n}` is a non-empty string of decimal digits, with no leading zero unless the number is 0 |
| `Coords.Split` | src/Board.js:65 | `split` on one character yields at least one piece, and no piece contains the separator |
| `Coords.JoinSplit` | src/Board.js:65 | joining the pieces of a split with the separator gives back the original string |
| `Coords.SplitJoin` | src/Board.js:65 | splitting a join of one or more separator-free pieces gives back exactly those pieces |
| `Coords.DigitsValueOfNatToString` | src/Board.js:65 | reading the decimal digits of `${n}` as a number gives n |
| `Coords.NumberOfNatToString` | src/Board.js:65 | `Number` applied to `${n}` is the number n, never NaN |
| `Coords.FormatCoord` | src/Board.js:103 | builds `${i}-${j}`; what the string means is stated by `Coords.ParseFormatCoord` and `Coords.FormatCoordInjective` |
| `Coords.DigitsValue` | src/Board.js:65 | the value `Number` gives a string of decimal digits; `Coords.DigitsValueOfNatToString` states that it inverts `${n}` |
| `Coords.NumberOf` | src/Board.js:65 | `Number` on one piece: a digit string is a number, anything else NaN; its meaning on the pieces line 103 makes is `Coords.NumberOfNatToString` |
| `Coords.ParseCoord` | src/Board.js:65 | `let [y, x] = coord.split('-').map(Number)`, with a missing second piece as NaN; `Coords.ParseFormatCoord` states that it inverts `Coords.FormatCoord` |
| `Coords.ParseFormatCoord` | src/Board.js:103 | decoding the string `${i}-${j}` as line 65 does gives back the numbers i and j |
| `Coords.FormatCoordInjective` | src/Board.js:103-106 | two cells get the same coordinate string (and React key) exactly when they are the same cell |
| `Grids.Lit` | src/Board.js:54 | one cell starts lit when its draw is below `changeLightStartsOn`; `LightsOut.Board.CreateBoard` and `Grids.GeneratedExtremes` state what it gives for the whole board |
| `Grids.OnBoard` | src/Board.js:69 | the guard of `flipCell`, 0 ≤ x < ncols and 0 ≤ y < nrows; its effect is stated by the contract of `Grids.FlipCell` |
| `Grids.AllOff` | src/Board.js:81 | every cell of every row is off; `Grids.AllOffIsDark` states that exactly the all-off grid passes it |
| `Grids.Generated` | src/Board.js:49-58 | the generated grid has exactly nrows rows of exactly ncols cells |
| `Grids.GeneratedExtremes` | src/Board.js:54 | if no draw lights its cell, the board is all off; with draws in [0, 1), threshold 0 gives all off and threshold 1 gives all lit |
| `Grids.FlipCell` | src/Board.js:67-72 | exactly cell (y, x) is negated when it is on the board; otherwise nothing changes; the shape is kept |
| `Grids.Neighbourhood` | src/Board.js:74-79 | the five targets are (y,x), (y,x-1), (y,x+1), (y-1,x), (y+1,x), and they are pairwise distinct |
| `Grids.FlipAround` | src/Board.js:74-79 | the five flips keep the grid's shape |
| `Grids.FlipAll` | src/Board.js:74-79 | any list of flips keeps the grid's shape |
| `Grids.FlipAroundCells` | src/Board.js:67-79 | after a click, each on-board cell is negated if it is one of the five targets and unchanged otherwise |
| `Grids.FlipAroundTwice` | src/Board.js:70-79 | clicking the same coordinate twice restores the grid, for any coordinate |
| `Grids.FlipAllCells` | src/Board.js:70 | after a list of flips, a cell is negated exactly when it was a target an odd number of times |
| `Grids.FlipOrderIrrelevant` | src/Board.js:75-79 | two lists of flips with the same targets, in any order, give the same grid |
| `Grids.FlipAroundAnyOrder` | src/Board.js:75-79 | applying the five targets in any permutation gives the same grid as the click |
| `Grids.ChangedByFlipAround` | src/Board.js:67-79 | the cells a click changes are exactly the targets that lie on the board |
| `Grids.OnBoardTargetCount` | src/Board.js:69-79 | an on-board click has the cell itself plus one on-board target for each side where the board continues |
| `Grids.ToggledCount` | src/Board.js:69-79 | an on-board click changes 3 cells in a corner, 4 on the rest of the border, and 5 inside |
| `Grids.AllOffIsDark` | src/Board.js:81 | a grid passes the win test exactly when it is the all-off grid of its shape |
| `Grids.FlipAroundLeavesWin` | src/Board.js:74-81 | a click on the board of a won grid lights the clicked cell, so the grid is no longer won |
| `LightsOut.Board.constructor` | src/Board.js:38-45 | the initial state is a fresh board equal to the generated grid, with hasWon false unconditionally |
| `LightsOut.Board.WithInitialWinCheck` | src/Board.js:41-44 | corrected initial state: the same generated board, with hasWon true exactly when that board is all off |
| `LightsOut.Board.CreateBoard` | src/Board.js:49-59 | a fresh nrows × ncols array whose cell (i, j) is lit exactly when draw i·ncols + j is below the threshold |
| `LightsOut.Board.IsAllOff` | src/Board.js:81 | the win test on the array agrees with the win test on the abstract grid |
| `LightsOut.Board.FlipCell` | src/Board.js:67-72 | the array is flipped in place as `Grids.FlipCell` says, and the win flag is untouched |
| `LightsOut.Board.FlipCellsAround` | src/Board.js:61-84 | for a coordinate that decodes to two numbers, the board becomes the five-flip click of the old board; otherwise it is unchanged; then hasWon holds exactly when every light is off |
| `LightsOut.AllOffStartIsPossible` | src/Board.js:41-44 | a 1 × 1 board whose single draw (0.5) is not below 0.25 is generated all off |

## Left out

- Rendering is not modelled (src/Board.js:86-126). This covers the JSX, the
  `Cell` child component, the CSS import and the win screen. Once `hasWon`
  holds, `render` shows no cells, so no click can arrive. That is not a
  precondition of `FlipCellsAround`, because the flip does not rely on it.
  `Grids.FlipAroundLeavesWin` says what such a click would do.
- `Math.random()` is replaced by the `draws` parameter. Floating-point
  comparison is replaced by exact reals (src/Board.js:54). `CreateBoard`
  requires exactly one draw per cell, which is as many as the loops consume.
- `console.log` at src/Board.js:62 is left out (output only).
- React's `setState` scheduling and batching (src/Board.js:83) are left out.
  The update of `board` and `hasWon` is one atomic step. The source passes the
  same array object it mutated, so the model keeps one `board` array for the
  whole game.
- `defaultProps` plumbing (src/Board.js:33-37) is left out. Only its values are
  kept, as the constants `DefaultNrows`, `DefaultNcols` and
  `DefaultChangeLightStartsOn`. They are the default values of the
  constructors' parameters.
- The board is an `array2<bool>`, not an array of row arrays. The source never
  makes ragged rows or rows that share an array, so nothing observable is lost.
- Props are naturals. A negative `nrows` or `ncols` makes the loops run zero
  times, like 0. A fractional one is not modelled.
- `Number` is modelled only on strings of decimal digits, including the empty
  string (0). Every other string counts as NaN, although JavaScript also
  accepts whitespace, a sign, a decimal point, an exponent, radix prefixes and
  `Infinity`. Digit strings too long to be exact doubles are not modelled.
  Only the strings built at line 103 reach the decoder.
- `Coords.NatToString` always writes plain decimal digits. JavaScript does so
  only below 10^21 and switches to exponent form above that, and integers above
  2^53 are not exact. Board indices never come near either bound.
- An undefined second piece or a NaN coordinate makes every bounds test at
  line 69 false. `FlipCellsAround` therefore skips the five `flipCell` calls,
  each of which would change nothing.

## Findings

| source | as written | input that shows it | evidently intended | confidence | as-written member | corrected member |
|---|---|---|---|---|---|---|
| src/Board.js:41-44 | `hasWon` starts false whatever the generated board is | 1 × 1 board, one draw 0.5, `changeLightStartsOn` 0.25: the board is `[[false]]` and `hasWon` is false | `hasWon` is true when the board is all off, as the doc comment at line 15 says | medium; not executed | `LightsOut.AllOffStartIsPossible` | `LightsOut.Board.WithInitialWinCheck` |

The client method `LightsOut.AllOffStartScenario` builds that board with the
constructor. It proves that the board is all off while `hasWon` is false.
