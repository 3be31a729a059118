# Lights Out rules engine in Dafny

A model of the rules of the Lights Out board component (`src/Board.js`):
a grid of lit/unlit cells, created at random; a click on a cell flips that
cell and its four orthogonal neighbours, silently skipping positions off the
board; the player has won when every cell is off. Cells are addressed by a
`"y-x"` key, which the renderer builds and the toggle decodes.

Modules:

- `Grid` (`grid.dfy`): the board as a value (`seq<seq<bool>>`, `true` = lit),
  rectangularity, board generation from injected random draws, win detection.
- `CoordKey` (`coord_key.dfy`): the `` `${y}-${x}` `` key, the
  `split("-").map(Number)` decoding, and their round trip.
- `FlipCells` (`flip_cells.dfy`): one flip and the five-flip toggle as
  functions on board values, and the source's imperative procedure
  (copy the board into a fresh `array2<bool>`, flip five positions in place
  on the copy, return the copy) as methods proved against those functions.
- `Wrappers` (`wrappers.dfy`): `Option`, whose `None` stands for a
  coordinate that JavaScript would turn into `NaN` or `undefined`.

Randomness is a parameter: `draw(i)` is the value of the i-th random call
while one board is generated. The generator's nested `map`s consume draws in
row-major order, so cell `(y, x)` uses draw `y * ncols + x`.

The chance is compared raw against each draw, with no clamping to `[0, 1]`,
as the code does. Dimensions are natural numbers; a board of 0 rows or
columns is allowed, as `Array.from({length: 0})` allows it.

## Model

| member | source | states |
|---|---|---|
| `Grid.CreateBoard` | src/Board.js:35-42 | the new board has exactly `nrows` rows of exactly `ncols` cells, and cell (y, x) is lit iff its draw is strictly below `chanceLightStartsOn` |
| `Grid.DrawIndexInjective` | src/Board.js:37-40 | each cell is decided by a draw of its own: distinct cells use distinct draws, all among the first `nrows * ncols` |
| `Grid.CreateBoardNoChance` | src/Board.js:39 | with draws in [0, 1) and a chance of at most 0, the generated board is the all-off board and is already won |
| `Grid.CreateBoardCertainChance` | src/Board.js:39 | with draws in [0, 1) and a chance of at least 1, every cell is lit, and a non-empty board is not won |
| `Grid.RowOff` | src/Board.js:45 | the inner `every` over a row is true iff no cell of the row is lit |
| `Grid.HasWon` | src/Board.js:44-46 | `hasWon` is true iff no cell of any row is lit |
| `Grid.AllOffIffWon` | src/Board.js:44-46 | on an `nrows` x `ncols` board, `hasWon` holds iff the board equals the all-off board of that size |
| `Grid.DocumentedBoardNotWon` | src/Board.js:17-22 | the board of the component's documentation, `[[f,f,f],[t,t,f],[f,f,f]]`, is not a win, and the dark 3x3 board is |
| `CoordKey.NatToDecimal` | src/Board.js:85 | interpolating a non-negative integer gives a non-empty string of decimal digits without a leading zero |
| `CoordKey.Split` | src/Board.js:50 | `split` gives at least one part, no part holds the separator, and joining the parts with the separator gives back the key |
| `CoordKey.NumberOfPart` | src/Board.js:50 | `Number` of the empty part is 0, and of a non-empty part is n exactly when the part is zero or more `0`s followed by the decimal rendering of n (leading zeros are ignored, in both directions); `ParseNumber` is the plain definition of `Number` with `None` standing for NaN, and this lemma gives its meaning |
| `CoordKey.DecimalRoundTrip` | src/Board.js:50 | `Number` of the decimal rendering of n is n |
| `CoordKey.EncodeKey` | src/Board.js:85 | the key is the digits of y, one dash right after them, and digits everywhere else; `KeyRoundTrip` and `KeyInjective` below give its meaning |
| `CoordKey.DecodeKey` | src/Board.js:50 | a key without `-` has one part, so x is undefined and nothing decodes; `DecodeKeyParts`, `DecodeIgnoresExtraParts` and `KeyRoundTrip` give the decoded values of every key with a dash |
| `CoordKey.DecodeKeyParts` | src/Board.js:50 | a key of two parts decodes to the `Number` values of both when both are digit strings (so `"01-2"` gives (1, 2) and `"-1"` gives (0, 1)), and to nothing when either part is not (NaN) |
| `CoordKey.DecodeIgnoresExtraParts` | src/Board.js:50 | `const [y, x] = …` takes only the first two parts: once a key has a dash, appending a further `-` part does not change what it decodes to |
| `CoordKey.KeyRoundTrip` | src/Board.js:50 | decoding the key `` `${y}-${x}` `` built on line 85 gives back exactly (y, x) |
| `CoordKey.KeyInjective` | src/Board.js:85 | distinct cells get distinct keys |
| `FlipCells.Flipped` | src/Board.js:52-58 | one `flipCell` keeps the board's size and negates cell (y, x) only, and only when `0 <= x < ncols` and `0 <= y < nrows`; off the board it returns the board unchanged |
| `FlipCells.Toggled` | src/Board.js:62-66 | the five `flipCell` calls, in the source's order, keep the board's dimensions, and leave the board as it was when all five positions are off the board; `ToggledCells` gives every cell |
| `FlipCells.ToggledCells` | src/Board.js:62-66 | the five flips keep the size and negate exactly the on-board cells of the cross {(y,x), (y,x-1), (y,x+1), (y-1,x), (y+1,x)}; every other cell, diagonal and wrap-around ones included, is unchanged |
| `FlipCells.ToggleTwice` | src/Board.js:62-66 | toggling the same coordinate twice gives back the original board |
| `FlipCells.FlipsCommute` | src/Board.js:62-66 | any two flips commute, so by repeated swaps any reordering of the five `flipCell` calls gives the same board |
| `FlipCells.CentreClick` | src/Board.js:62-66 | on a dark 3x3 board, clicking (1, 1) gives `[[f,t,f],[t,t,t],[f,t,f]]`, and clicking it again wins |
| `FlipCells.CornerClick` | src/Board.js:62-66 | on a dark 3x3 board, clicking (0, 0) flips only three cells, giving `[[t,t,f],[t,f,f],[f,f,f]]` |
| `FlipCells.FlipCell` | src/Board.js:52-58 | the in-place flip on the copy leaves the array holding exactly `Flipped` of its previous cells |
| `FlipCells.FlipCross` | src/Board.js:62-66 | the five in-place flips on the copy, in the source's order, leave it holding exactly `Toggled` of its previous cells |
| `FlipCells.FlipCellsAround` | src/Board.js:48-70 | the result is a freshly allocated board of the same size holding `Toggled` of the old board at the decoded coordinate (the old board unflipped when the key decodes to NaN); the old board is not modified |

## Left out

- React state plumbing (`useState`, the `setBoard` updater) and rendering (the
  "You Win!" branch, the table of `Cell` components, JSX, CSS): presentation
  only. `FlipCellsAround` is a method from the old board to the new one.
- `Math.random()`: replaced by the injected `draw` function; floating-point
  values are modelled as `real`.
- `Number()` on strings other than runs of decimal digits (whitespace, signs,
  exponents, hexadecimal, `Infinity`) and its loss of precision above 2^53:
  such parts are treated as NaN. Only keys of the form built by the renderer
  reach the toggle.
- `FlipCells.FlipCellsAround` requires the board to be `nrows` x `ncols`: the
  model takes the props as fixed for the board's lifetime, which holds because
  the board is created by `createBoard` from the same props. What happens when
  the props change after creation is not modelled: with smaller props the
  source flips only inside them and leaves the rest of the larger board
  alone; with a larger `ncols` a flip writes past the end of a row and extends
  it with a lit cell; with a larger `nrows` rendering fails on a missing row.
- Props as JavaScript numbers: `nrows` and `ncols` are `nat` here, while
  `Array.from({length})` would truncate a fraction and treat a negative length
  as 0. The prop defaults (`nrows = 5`, `ncols = 5`,
  `chanceLightStartsOn = 0.25`) are not modelled; every operation takes the
  values as parameters.
- The board's rows are separate arrays in the source, and the copy is a new
  outer array of new row arrays; the model holds a board in one `array2`, so
  aliasing between rows of the old and new board is not represented (the
  model shows only that the old board, as a whole, is not modified).
