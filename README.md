# Photo Puzzle — a verified model of the tile grid

Photo Puzzle shows a photo cut into a grid of 5 rows by 8 columns of 120-pixel
tiles below a 50-pixel toolbar. The player clicks one cell to pick it up and a
second cell to exchange the two. "New Puzzle" moves on to the next of 7 photos
and scrambles the grid. "Solve Puzzle" puts every tile back in its own cell.
"Reset Puzzle" scrambles the grid again. A completion sound plays when a swap
leaves every tile in its own cell.

This project models that game core in Dafny and proves its properties:

- `arrangement.dfy`, module `Arrangement`: the arrangement as a sequence
  value. It defines the solved arrangement, the completion test, the
  permutation invariant, the exchange of two cells, and the scrambling walk,
  where step `i` exchanges cell `i` with a drawn cell. Lemmas prove that the
  walk only rearranges tiles, and that "permutation" is the same as "every
  tile in range, none twice, none missing".
- `layout.dfy`, module `Layout`: the constants and the integer screen
  arithmetic. This covers the toolbar hit tests, the click-to-cell formula,
  the source offset of a tile in the photo, the destination offset of a cell
  on screen, and the photo counter. Lemmas prove that every pixel of a drawn
  cell selects that cell, that offsets are distinct and inside the photo, and
  that the counter cycles with period 7.
- `game.dfy`, module `Game`: the program's global state as a class.
  `PhotoPuzzle` holds `tiles: array<int>`, `selected: int` (-1 when nothing is
  picked up) and `photoIndex: int`. Its methods update the array in place the
  way the program's loops do. `ResetTiles`, `ScrambleTiles` and `IsComplete`
  are proved against the functions of `Arrangement`. They ask only for an
  array of 40 cells; they keep the invariant `Valid()` because they may change
  only the array and leave it a permutation. `Valid()` says the grid is a
  permutation and the selection and photo index are in range. `Click`, `Press`
  and `Release` require and ensure `Valid()`. They are proved against
  `Game.AfterClick` and the functions of `Layout`.

Random numbers are a parameter. A scramble consumes a sequence of 40 draws,
each in `[0, 40)`, as the program's random call returns. The scrambled grid is
`ScrambledBy(draws)`, a function of the draws alone, so equal draws give equal
grids. The sound an event would play is returned as a `Sound` value.

Two behaviours of the program are worth noting:

- Resetting and scrambling do not clear the selection. Lines 201-219 of
  `PhotoPuzzle.c` never write `selectedTileIndex`, so a cell picked up before
  "Solve Puzzle" or "Reset Puzzle" stays picked up.
- A click has no out-of-range error. It is only reached through the
  photo-area hit test, so `Click` requires a valid cell. `Press` takes any
  pixel position and uses `CellAt` only inside the photo area.

## Model

| member | source | states |
|---|---|---|
| `Arrangement.Swap` | PhotoPuzzle.c:112-114 | the two cells exchange their tiles, every other cell keeps its tile, and the multiset of tiles is unchanged |
| `Arrangement.Shuffled` | PhotoPuzzle.c:212-218 | the scrambling walk over the first draws keeps the grid's length |
| `Arrangement.IdentityMultiplicity` | PhotoPuzzle.c:201-207 | the reset arrangement holds every tile number in range exactly once and nothing else |
| `Arrangement.SolvedIsIdentity` | PhotoPuzzle.c:221-231 | the completion test holds exactly when the grid equals the reset arrangement |
| `Arrangement.Identity` | PhotoPuzzle.c:201-207 | what a reset writes: a grid of `n` cells in which cell `i` holds tile `i` |
| `Arrangement.Solved` | PhotoPuzzle.c:221-231 | the condition the completion loop tests: every cell `i` holds tile `i` |
| `Arrangement.IdentityInRangeAndDistinct` | PhotoPuzzle.c:201-207 | the reset arrangement holds every tile in range and none twice, so it satisfies the grid invariant |
| `Arrangement.PermutationIsInRangeAndDistinct` | PhotoPuzzle.c:26 | a grid is a permutation if and only if every tile is in range and no tile occurs twice; a permutation misses no tile |
| `Arrangement.ShuffledRearranges` | PhotoPuzzle.c:212-218 | any number of scrambling steps only rearranges the tiles they start from |
| `Arrangement.ShuffledIsPermutation` | PhotoPuzzle.c:209-219 | scrambling the reset arrangement with any valid draws yields a permutation |
| `Arrangement.SwapPreservesPermutation` | PhotoPuzzle.c:112-114 | exchanging two cells of a permutation yields a permutation |
| `Arrangement.SwapSelf` | PhotoPuzzle.c:111-114 | exchanging a cell with itself leaves the grid unchanged |
| `Arrangement.ShuffledBySelfDraws` | PhotoPuzzle.c:212-218 | draws equal to the step numbers leave the grid unchanged, so the solved grid is a reachable scramble result |
| `Layout.InRect` | PhotoPuzzle.c:86-102 | the rectangle hit test of the toolbar buttons and the photo area: left and top edges inside, right and bottom edges outside |
| `Layout.InPhoto` | PhotoPuzzle.c:102 | the photo-area hit test that decides whether a press is a click on the grid: the 960 by 600 rectangle below the 50-pixel toolbar |
| `Layout.ButtonAt` | PhotoPuzzle.c:86-101 | a position names a button exactly when it lies in that button's rectangle, and the four rectangles are disjoint |
| `Layout.Destination` | PhotoPuzzle.c:176 | every cell is drawn on a 120-pixel boundary inside the photo area below the toolbar |
| `Layout.Source` | PhotoPuzzle.c:175 | every tile's source square lies inside the photo |
| `Layout.CellAt` | PhotoPuzzle.c:106 | a position in the photo area gives a cell in `[0, 40)` whose drawn square contains the position |
| `Layout.CellAtDestination` | PhotoPuzzle.c:111 | every pixel of cell `i`'s drawn square is in the photo area and selects cell `i` |
| `Layout.DestinationInjective` | PhotoPuzzle.c:176 | distinct cells are drawn at distinct places |
| `Layout.SourceMirrorsDestination` | PhotoPuzzle.c:175-176 | tile `t` is read from cell `t`'s place with rows counted from the bottom, so a solved grid shows the photo in order |
| `Layout.SourceInjective` | PhotoPuzzle.c:175 | distinct tiles are read from distinct places |
| `Layout.NextPhoto` | PhotoPuzzle.c:125 | from a valid photo index the next one is valid, and it is the following index or wraps from the last photo to 0 |
| `Layout.AdvancePhoto` | PhotoPuzzle.c:125 | the photo counter after `k` presses of New Puzzle stays a valid photo index |
| `Layout.AdvancePhotoIsModular` | PhotoPuzzle.c:125 | after `k` presses of New Puzzle the index has moved `k` places modulo 7 |
| `Layout.PhotoCycle` | PhotoPuzzle.c:123-126 | after any number of presses, including none, a photo is on show again exactly when the number of presses is a multiple of 7 |
| `Layout.ButtonsAbovePhoto` | PhotoPuzzle.c:86-102 | no position is both on a toolbar button and in the photo area |
| `Game.ScrambledBy` | PhotoPuzzle.c:209-219 | a scramble's result depends only on the draws and is always a permutation of the 40 tiles |
| `Game.AfterClick` | PhotoPuzzle.c:104-116 | when idle, a click picks up the cell, keeps the grid and plays the select sound; otherwise it exchanges the two cells, keeps every other cell, drops the selection, and plays the completion sound exactly when the grid is solved; a permutation stays a permutation |
| `Game.ClickSameCellTwice` | PhotoPuzzle.c:104-115 | clicking the same cell twice from idle leaves the grid unchanged and nothing selected |
| `Game.ClickPairSwaps` | PhotoPuzzle.c:104-115 | two clicks from idle exchange exactly the two clicked cells and end idle |
| `Game.PhotoPuzzle.constructor` | PhotoPuzzle.c:72-78 | start-up shows photo 0 with nothing selected and a scrambled grid that satisfies the invariant |
| `Game.PhotoPuzzle.ResetTiles` | PhotoPuzzle.c:201-207 | after a reset every cell holds its own tile, so the grid is complete; the selection is untouched |
| `Game.PhotoPuzzle.ScrambleTiles` | PhotoPuzzle.c:209-219 | after a scramble the array is `ScrambledBy(draws)`, a permutation; the selection is untouched |
| `Game.PhotoPuzzle.IsComplete` | PhotoPuzzle.c:221-231 | the result is true exactly when every cell holds its own tile, and nothing is modified |
| `Game.PhotoPuzzle.Click` | PhotoPuzzle.c:102-117 | the array, the selection and the sound become exactly what `AfterClick` gives, and the invariant is kept |
| `Game.PhotoPuzzle.Press` | PhotoPuzzle.c:83-118 | a press on the photo area clicks the cell under it; any other press leaves the grid and the selection unchanged and is silent |
| `Game.PhotoPuzzle.Release` | PhotoPuzzle.c:120-148 | New Puzzle advances the photo and scrambles, Solve Puzzle resets, Reset Puzzle scrambles, Colorize only sounds; the selection is never changed |
| `Game.SolveThenCheck` | PhotoPuzzle.c:129-133 | releasing on Solve Puzzle and then testing completion always reports a complete grid |
| `Game.ScrambleCanBeSolved` | PhotoPuzzle.c:209-219 | the solved grid is a possible scramble result and is not excluded |

## Left out

- Window, frame rate, audio device, textures, render texture, shader, drawing
  and text measuring (`PhotoPuzzle.c:52-71`, `151-199`): these are calls into
  the graphics and audio library. Only the offset arithmetic of the drawing
  loop and the highlight is modelled. Sounds are returned as values.
- The random number generator (`PhotoPuzzle.c:214`) is a sequence of draws.
  Nothing is claimed about how uniform the scramble is.
- Mouse positions are whole pixels here; the program uses floating point. The
  rectangle test is modelled as "left and top edges inside, right and bottom
  edges outside". The float-to-int truncation of the click formula is not
  modelled. In the photo area all operands are non-negative, so Dafny's
  division agrees with C's there.
- The `clicking*` highlight flags (`PhotoPuzzle.c:27-30`, `88-100`,
  `144-147`) are presentation state only.
- The Colorize action is an empty placeholder in the program
  (`PhotoPuzzle.c:141`). The model plays its button sound and changes nothing.
- Loading textures into `photos[7]` and `photos[8]` writes past the end of the
  7-element array (`PhotoPuzzle.c:68-69`). This is part of asset loading, which
  is not modelled.
- The negative-height source rectangle and the vertical flip it causes
  (`PhotoPuzzle.c:177`) are not modelled. Only the offsets of lines 175-176
  are.
- `Press` and `Release` model the two branches of the per-frame update. The
  polling of the mouse button state that picks between them is not modelled.
- Integer widths: every value handled is below 1000 in absolute value, so
  32-bit overflow cannot happen and unbounded integers model it exactly.
