# Fifteen puzzle: a verified model of the puzzle state

This project models the puzzle-state logic of the `FifteenPuzzle` class of a
Windows Forms fifteen-puzzle game. The board has 4 × 4 cells. Each cell holds
a tile that shows a number from 0 to 15, and the number 15 (or any higher
number) is the blank. The player clicks a tile next to the blank to slide it
into the blank. "New Game" shuffles the board until a solvability test
passes. A click that leaves every tile in its home cell wins the game and
locks the tiles.

The tile list is never reordered: the tile at index p keeps home cell p, and
only the numbers it shows travel. So a board is a sequence of 16 numbers, and
`board[p]` is the number shown at cell p.

* `tiles.dfy` (module `Tiles`): the `Tile` record and its two constructors,
  with C#'s truncating `/` and `%`. It also holds its queries (`InvX`, `InvY`,
  `IsEmpty`, `IsRightPlace`, `NearestWith`) and the adjacency facts.
* `board.dfy` (module `Board`): boards as values. It covers:
  - the swap of two cells;
  - permutation boards and their unique blank;
  - the win test;
  - the inversion count;
  - the solvability verdict, and the same verdict restated as a parity.
* `moves.dfy` (module `Moves`): the effect of a click. It proves that an
  accepted click never changes the verdict of the solvability test. A board
  reached from the start-up board by any clicks therefore passes the test.
* `game.dfy` (module `Game`): class `FifteenPuzzle` over an `array<int>` with
  the fields `moveCount` and `enabled`. `enabled` stands for the tiles' shared
  `Enabled` property. The methods are the constructor's board set-up,
  `SwapTiles`, `MovePuzzle`, `CheckWin`, `IsPuzzleSolvable` (the nested
  counting loops) and `NewGame` (the shuffle loop). Each method is proved
  against the value-level functions of the other modules.

Behaviour of the code that the model keeps:
* Any number of at least 15 marks the blank, not only 15 itself.
* `NearestWith` is true for a tile compared with itself. So a click on the
  blank is accepted, counts as a move and changes nothing.
* The win check runs after every click, accepted or not.
* The solved board passes the solvability test (`Board.OrderedIsSolvable`).
* A shuffle can leave the board solved: `Game.IdentityPickKeepsBoard` shows
  that picks which swap each cell with itself keep the start-up board.

`Random.Next(i, Count)` is modelled as an input. `NewGame` takes a sequence
of shuffle passes. Each pass lists, for every cell i, its partner drawn from
[i, 16). The do-while loop runs until a pass leaves a board that passes the
test. If the given passes run out first, `NewGame` reports that the game has
not started, because the program would still be shuffling, and locks the
tiles. So `NewGame`, `MovePuzzle` and `CheckWin` keep the rule that
unlocked tiles stand on a board that passes the test. `SwapTiles` and a
shuffle pass (`ShufflePass`) are inner steps that do not keep it: the
program's own `NewGame` shuffles a mid-game board while the tiles are still
enabled, and only the finished shuffle loop restores the rule.

## Model

| member | source | states |
|---|---|---|
| Tiles.NewTile | 15PuzzleGame/Program.cs:54-62 | The tile is in its place, and `Y * 4 + X` gives back the ordered number. Coordinates follow C# truncation: X has the sign of the number, and a cell from 0 to 15 lies in the 4 × 4 grid. |
| Tiles.NewTileWith | 15PuzzleGame/Program.cs:64-67 | The coordinates are those of the one-argument constructor for the same cell, and the tile shows the given number. It is in its place exactly when the two numbers agree. |
| Tiles.Tile.InvX | 15PuzzleGame/Program.cs:45-48 | The column counted from the right stays in the grid, and it is 0 exactly in the last column. |
| Tiles.Tile.InvY | 15PuzzleGame/Program.cs:49-52 | The row counted from the bottom stays in the grid, and it is 0 exactly in the last row. |
| Tiles.TruncDiv | 15PuzzleGame/Program.cs:61 | C#'s `/`: the quotient times the divisor plus C#'s remainder gives back the dividend, and the quotient has the sign of the dividend. |
| Tiles.TruncRem | 15PuzzleGame/Program.cs:60 | C#'s `%`: the remainder lies in [0, 4) for a non-negative dividend and in (-4, 0] for a negative one. |
| Tiles.Tile.IsEmpty | 15PuzzleGame/Program.cs:72-75 | A tile is the blank when its number is at least 15; among the numbers 0 to 15 that is 15 alone. |
| Tiles.Tile.IsRightPlace | 15PuzzleGame/Program.cs:80-83 | A tile in its place is the blank exactly when its home cell is the blank's home. |
| Tiles.Tile.NearestWith | 15PuzzleGame/Program.cs:90-98 | Two tiles are near exactly when their Manhattan distance is at most 1. |
| Tiles.NearestWithSymmetric | 15PuzzleGame/Program.cs:90-98 | Adjacency does not depend on which tile asks. |
| Tiles.NearestWithSelf | 15PuzzleGame/Program.cs:94 | A tile is near itself. |
| Tiles.NearestWithDistinctCells | 15PuzzleGame/Program.cs:90-98 | For two distinct cells, one coordinate differs by exactly 1 and the other is equal. Diagonal and farther cells are never near. |
| Tiles.NearestWithCells | 15PuzzleGame/Program.cs:90-98 | By cell index, the near cells are the cell itself, its left and right neighbours in the same row, and the cells 4 before and 4 after. |
| Board.TileOf | 15PuzzleGame/Program.cs:211 | The tile at cell p has home p, shows the board's number at p, and stands at column p % 4 and row p / 4. |
| Board.Ordered | 15PuzzleGame/Program.cs:144-147 | The start-up board has 16 cells, and cell p shows p. |
| Board.FirstEmpty | 15PuzzleGame/Program.cs:213 | The list search for the blank returns the first blank cell, or the length when there is none. |
| Board.IsPermutation | 15PuzzleGame/Program.cs:144-147 | The invariant the tile loop sets up and every swap keeps: a board holding each of 0 to 15 once has a blank cell, and that cell shows 15. |
| Board.EmptyIsUnique | 15PuzzleGame/Program.cs:72-75 | On a permutation board, a tile is empty exactly when it stands at the cell the search finds. |
| Board.Swapped | 15PuzzleGame/Program.cs:258-267 | The two numbers are exchanged, every other cell is unchanged, and a permutation stays a permutation. |
| Board.SwapSameCell | 15PuzzleGame/Program.cs:260 | Swapping a cell with itself changes nothing. |
| Board.SwapSymmetric | 15PuzzleGame/Program.cs:258-267 | The order of the two cells does not matter. |
| Board.SwapTwice | 15PuzzleGame/Program.cs:258-267 | Swapping the same pair twice restores the board. |
| Board.Solved | 15PuzzleGame/Program.cs:231-233 | The win test, no tile out of its place, holds exactly when every cell p shows p. |
| Board.OrderedIsSolvedPermutation | 15PuzzleGame/Program.cs:144-147 | The start-up board that the tile loop builds, one `Tile(p)` (the constructor at lines 54-58) per cell p, is a permutation and is won. |
| Board.SolvedIffOrdered | 15PuzzleGame/Program.cs:231-233 | A 16-cell board is won exactly when every cell p shows p. |
| Board.NonBlankContent | 15PuzzleGame/Program.cs:288-292 | The numbers the counting loops compare are exactly the non-blank numbers of the board. |
| Board.Inversions | 15PuzzleGame/Program.cs:284-296 | The count of out-of-order pairs of a sequence of k numbers is at most `Pairs(k)`, the number of pairs. |
| Board.PairsCount | 15PuzzleGame/Program.cs:284-286 | `Pairs(k)`, the recursive count of pairs i < j among k cells that bounds the inversion count, equals k (k - 1) / 2. |
| Board.InvCount | 15PuzzleGame/Program.cs:284-296 | The inversion count over the non-blank cells is at most `Pairs` of the board's length, the number of pairs of cells. |
| Board.Verdict | 15PuzzleGame/Program.cs:301-310 | The two branches on `InvY + 1` amount to one rule: the test passes exactly when `InvY` plus the count is even. |
| Board.Solvable | 15PuzzleGame/Program.cs:298-310 | The test passes exactly when the blank tile's row `Y`, counted from the top, plus the inversion count is odd. |
| Board.RowParity | 15PuzzleGame/Program.cs:301-308 | Since `InvY` is 3 - `Y`, the rule on `InvY` and the count is the same as asking that `Y` plus the count be odd. |
| Board.NonBlankOfPermutation | 15PuzzleGame/Program.cs:288-292 | The numbers the counting loops compare are the board with its one blank cell cut out. |
| Board.OrderedIsSolvable | 15PuzzleGame/Program.cs:282-310 | On the start-up board the blank is cell 15 and the inversion count is 0, and the test passes. |
| Moves.MoveResult | 15PuzzleGame/Program.cs:210-220 | The board after a click is a permutation, and it gets the same verdict as the board before. |
| Moves.MoveAccepted | 15PuzzleGame/Program.cs:213-216 | A click is accepted exactly on the blank, on its neighbour left or right in the same row, or on the cell above or below it. |
| Moves.MoveEffect | 15PuzzleGame/Program.cs:216-219 | After an accepted click on a non-blank cell, the blank stands at the clicked cell and the clicked number at the blank's old cell. No other cell changes. |
| Moves.MoveOnBlank | 15PuzzleGame/Program.cs:216-218 | A click on the blank is accepted and leaves the board as it was. |
| Moves.InversionsSwapAdjacent | 15PuzzleGame/Program.cs:284-296 | Exchanging two distinct neighbouring numbers changes the inversion count by exactly one. |
| Moves.RotateFlipsParity | 15PuzzleGame/Program.cs:284-296 | Moving one number past three others flips the parity of the inversion count. |
| Moves.SwapRightFacts | 15PuzzleGame/Program.cs:216-218 | When the blank moves one cell right, the blank is found there and the inversion count is unchanged. |
| Moves.SwapDownFacts | 15PuzzleGame/Program.cs:216-218 | When the blank moves one row down, the blank is found there and the inversion count changes parity. |
| Moves.SameRowSameVerdict | 15PuzzleGame/Program.cs:298-310 | Two boards with the blank in the same row and equal inversion counts get the same verdict. |
| Moves.NextRowSameVerdict | 15PuzzleGame/Program.cs:298-310 | Moving the blank one row down while the parity of the count flips keeps the verdict. |
| Moves.BlankRightKeepsVerdict | 15PuzzleGame/Program.cs:216-218 | Sliding the blank right within its row keeps the verdict. |
| Moves.BlankDownKeepsVerdict | 15PuzzleGame/Program.cs:216-218 | Sliding the blank one row down keeps the verdict. |
| Moves.MoveKeepsVerdict | 15PuzzleGame/Program.cs:216-218 | Every accepted click keeps the verdict of the solvability test. |
| Moves.Play | 15PuzzleGame/Program.cs:208-223 | Any sequence of clicks leaves a permutation board. |
| Moves.PlayKeepsVerdict | 15PuzzleGame/Program.cs:208-223 | No sequence of clicks changes the verdict. |
| Moves.ReachableIsSolvable | 15PuzzleGame/Program.cs:279-310 | Every board reached from the start-up board by clicks passes the solvability test. |
| Moves.FirstMoveExample | 15PuzzleGame/Program.cs:208-233 | A click on cell 14 of the start-up board is accepted. Cells 14 and 15 then show 15 and 14, so the board is not won, and it still passes the test. |
| Moves.SlideIntoLastCell | 15PuzzleGame/Program.cs:216-222 | With the blank in the last cell and number 14 beside it, a click on cell 14 is accepted. The two numbers trade cells, and the board is no longer won but keeps its verdict. |
| Game.IsPassPicks | 15PuzzleGame/Program.cs:187 | Each draw `rnd.Next(i, Count)` lies in [i, 16), so the last cell can only draw itself. |
| Game.ShuffleSteps | 15PuzzleGame/Program.cs:185-191 | The swaps of one shuffle pass keep a permutation a permutation. |
| Game.ShuffleFirst | 15PuzzleGame/Program.cs:183-193 | Any number of whole passes keeps a permutation a permutation. |
| Game.IdentityPickKeepsBoard | 15PuzzleGame/Program.cs:187-190 | A pass in which every cell draws itself leaves the board unchanged. |
| Game.FifteenPuzzle.TileAt | 15PuzzleGame/Program.cs:211 | The tile read from the array is the tile of the board value at that cell. |
| Game.FifteenPuzzle.constructor | 15PuzzleGame/Program.cs:144-161 | The board is built with every cell showing its own number. The board is a won permutation, no move has been made, and the tiles are locked. |
| Game.FifteenPuzzle.SwapTiles | 15PuzzleGame/Program.cs:258-267 | The array becomes the swapped board, and it stays a permutation. |
| Game.FifteenPuzzle.FindEmpty | 15PuzzleGame/Program.cs:213 | The search returns the first blank cell, and on a permutation board it is the only one. |
| Game.FifteenPuzzle.FindMisplaced | 15PuzzleGame/Program.cs:231 | It returns none exactly on a won board. Otherwise it returns the first misplaced cell. |
| Game.FifteenPuzzle.CheckWin | 15PuzzleGame/Program.cs:228-240 | The result is the win test, which holds exactly on the start-up arrangement. A win locks the tiles, and nothing else changes, so unlocked tiles still stand on a board that passes the test. |
| Game.FifteenPuzzle.MovePuzzle | 15PuzzleGame/Program.cs:208-223 | The board becomes the click's result. The counter goes up by one exactly when the click is accepted, and the tiles stay unlocked exactly when the board is not won. The verdict of the solvability test is unchanged, so unlocked tiles still stand on a board that passes. |
| Game.FifteenPuzzle.IsPuzzleSolvable | 15PuzzleGame/Program.cs:278-311 | The nested loops and the final branches return the verdict of the solvability test on the current board. |
| Game.FifteenPuzzle.ShufflePass | 15PuzzleGame/Program.cs:185-191 | One pass swaps each cell i in turn with its drawn partner. The board stays a permutation. |
| Game.FifteenPuzzle.NewGame | 15PuzzleGame/Program.cs:181-201 | The board is the result of the passes used, and no earlier pass passed the test. The game starts exactly when the last board passes. A started game has its tiles unlocked and its counter reset. Otherwise the passes ran out and the tiles are locked. Either way, unlocked tiles stand on a board that passes. |
| Game.RowStep | 15PuzzleGame/Program.cs:286-295 | One step of the inner loop adds one exactly for an inversion between two non-blank cells. |
| Game.InvCountFrom | 15PuzzleGame/Program.cs:284-296 | The pairs counted from cell i on split into those that start at i and the rest. |

## Left out

- `CreateForm` and `Main`: window layout, fonts, positions and event wiring are user interface.
- The buttons' `Visible` and `Text` updates in `SwapTiles`, and `Tile.ToString`, are presentation. The button of the blank cell is the hidden one.
- The elapsed time (`DateTime.Now`, `TimeSpan`, rounding a double), the victory sound and the message box are a clock, floating point and foreign I/O. `CheckWin`'s boolean result stands for the win notice.
- `Random`: the partner draws are an input sequence of passes. The program's do-while loop has no bound and can shuffle forever. The model stops when the given passes run out, reports that no game was started and locks the tiles, a state the program itself never reaches.
- Game.FifteenPuzzle.MovePuzzle: does not test `enabled`. The program cannot deliver a click to a disabled or hidden button, and that is event-dispatch behaviour of the user-interface toolkit.
- Game.FifteenPuzzle.MovePuzzle: `moveCount` is an unbounded integer, so C#'s 32-bit wrap-around after 2^31 - 1 clicks is not modelled.
- Board sides other than 4: the solvability rule in the code holds only for even sides, and the side is the constant 4.
- The converse of `Moves.ReachableIsSolvable`, that every board passing the test can be reached by clicks, is not proved.
