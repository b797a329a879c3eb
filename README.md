# Minesweeper board engine

A Dafny model of the board engine of a browser Minesweeper game. The model covers:

- the `Field` class of js/Field.js: its table of cells, the `_flags` counter and the two click listeners;
- the cell helpers of js/Cell.js;
- the level rule of js/Game.js.

## Modules

- `Cells` (cells.dfy): one cell, as its `data-info` (a mine, or a number where `Count(0)` is the empty string `''`, and also the info a cell has before `_placeNumbers` sets it) and its `data-type` (covered, marked, opened). It also holds `mineCounter` and `flagCounter`. Both are written as the left fold the source's `reduce` is, and are proved to count exactly the matching cells.
- `Grids` (grids.dfy): the table as a value, a sequence of rows of cells. It defines:
  - the clipped Moore neighbourhood, in the order `cellNeighbours` builds it;
  - the count of mines among positions;
  - the numbering `_placeNumbers` produces;
  - the win condition of `_doesPlayerWin`;
  - the closure a finished flood fill guarantees.

  Each step lemma says what one write to the table keeps.
- `Minefield` (minefield.dfy): class `Field`. It has the fields `table`, `flags` and `status`. `status` is `Playing` while both listeners are attached. `_endOfGame` sets it to `GameOver` or `Victory`.
  - Each click handler is a method that modifies the object.
  - `_placeMines` keeps the source's single loop, whose counter advances only when a draw lands on a cell without a mine.
  - `_placeNumbers`, `cellNeighbours` and `_doesPlayerWin` keep the source's nested loops.
  - The flood fill is the source's recursion made direct: `OpenCell` → `Uncover` → `Reveal` → `OpenNeighbours` → `VisitNeighbour` → `OpenCell`. The synthetic click a neighbour receives becomes a call.
  - Termination is proved on the set of cells not yet opened.
- `Levels` (levels.dfy): `MINES_CONFIGURATION`, `calculateNumberOfMines`, and the size `startGame` gives a new field.

## Invariants

Every click keeps the invariant `Field.Valid()`:

- no mine is opened;
- exactly `numberOfMines` cells are mined;
- every safe cell holds the number of its mined neighbours;
- a `Victory` status means the table is won;
- `flags` equals the number of marked cells plus the marked cells that clicks have opened since;
- every opened empty cell has all its neighbours opened or mined.

A ghost counter `openedMarks` tracks the marked cells opened by clicks. During a flood, the ghost set `pending` holds the empty cells whose neighbours are still being opened further up the recursion.

## What the code does

Where the game's documented behaviour and the code differ, the model follows the code:

- There is no chord operation ("open the neighbours of a satisfied number").
- A marked cell can be opened, both by a click and by the flood fill. `_flags` is not decremented when that happens. The model keeps such cells in `flags` through `openedMarks`.
- Clicking a mine ends the game and leaves that mine's `data-type` as it was.
- `Field` does not check its configuration. The constructor's preconditions stand in for that check. They are sizes of at least one, no more mines than cells, and enough distinct positions among the draws.
- On a victory reached inside a flood, `_doesPlayerWin` succeeds again in every enclosing `_openCell`, so `_endOfGame('victory')` runs more than once. In the model the status is simply set to `Victory` again.

## Model

| member | source | states |
|---|---|---|
| Cells.IsAnyMineHere | js/Cell.js:3-5 | true exactly when the cell's info is `'M'`, that is, exactly when the cell holds no number |
| Cells.MineCounter | js/Cell.js:7-15 | the fold's result is the number of indices holding a mine, so it is at most the array's length |
| Cells.FlagCounter | js/Cell.js:17-25 | the fold's result is the number of indices whose type is marked, so it is at most the array's length |
| Cells.TallyIsCount | js/Cell.js:8-14 | the `reduce` that adds one per accepted cell counts exactly the accepted cells |
| Cells.MineCounterAppend | js/Cell.js:8-14 | the mine counter of a concatenation is the sum of the two counts |
| Cells.FlagCounterAppend | js/Cell.js:18-24 | the flag counter of a concatenation is the sum of the two counts |
| Cells.FlagCounterUpdate | js/Cell.js:17-25 | replacing one cell changes the flag count by the difference of the old and new cells' marks |
| Grids.Neighbours | js/Field.js:40-52 | a position is in the neighbour list exactly when it is on the table, differs from the centre and is at row and column distance at most one |
| Grids.NeighboursDistinct | js/Field.js:40-52 | the neighbour list holds every position at most once |
| Grids.NeighboursCount | js/Field.js:43-44 | the list is as long as the clipped 3x3 window less its centre |
| Grids.NeighboursByPlace | js/Field.js:40-52 | on a table of at least 2x2, a corner cell has 3 neighbours, an edge cell 5 and an inner cell 8 |
| Grids.NeighboursAtMostEight | js/Field.js:40-52 | no cell has more than eight neighbours |
| Grids.MinesAmongCounts | js/Field.js:54-62 | over distinct positions, `mineCounter` is the number of mined positions among them |
| Grids.NeighbourMinesCount | js/Field.js:96-98 | the count `_placeNumbers` computes is the number of mined cells around the cell, found without the neighbour list, and is at most eight |
| Grids.NumberMeaning | js/Field.js:93-102 | in a correctly numbered table every safe cell holds the number of mines around it |
| Grids.Numbering | js/Field.js:93-102 | the definition of the table `_placeNumbers` leaves behind, cell by cell. What it means is proved in `NumberingIsCorrect` and `NumberMeaning` |
| Grids.NumberStep | js/Field.js:95-100 | one pass of the inner loop numbers the cell it visits and leaves the cells after it as they were |
| Grids.NumberedAll | js/Field.js:94-101 | once both loops have run, the table is the numbering of the table they started from |
| Grids.NumberingIsCorrect | js/Field.js:93-102 | numbering keeps every mine, the mined set and every kind, and makes every safe cell's number correct |
| Grids.WinsIffOnlyMinesClosed | js/Field.js:172-189 | with no mine opened, the win condition holds exactly when the closed cells are the mined cells |
| Grids.WinsIsClosed | js/Field.js:117-122 | on a won table every empty opened cell has its neighbours opened or mined |
| Grids.SettledIsAllDone | js/Field.js:157-171 | the neighbours of a cell are all opened or mined exactly when each entry of its neighbour list is |
| Grids.GrownKeepsDone | js/Field.js:158-169 | opening cells never closes one, so neighbours already handled stay handled |
| Grids.GrownUnopened | js/Field.js:157-171 | opening cells only shrinks the set of cells not yet opened, the measure of the flood's recursion |
| Grids.CloseOne | js/Field.js:119-122 | an empty cell whose neighbours are all opened or mined no longer needs a pending flood |
| Grids.OpenStep | js/Field.js:117-118 | opening one safe cell removes it from the unopened cells, keeps mines and numbers, lowers the mark count if it was marked, and keeps every other cell settled |
| Grids.OpenKeepsSettled | js/Field.js:117 | opening a cell leaves every other cell's neighbourhood as settled as it was |
| Grids.ToggleTwice | js/Field.js:143-153 | two right clicks on a cell restore the table, and their counter changes cancel |
| Grids.ToggleCounts | js/Field.js:143-153 | a right click changes the number of marked cells by exactly the change of `_flags` |
| Grids.FlagStep | js/Field.js:128-156 | a right click keeps mines, numbers, the unopened set, the flood closure and the win condition |
| Grids.ToggleKeepsSettled | js/Field.js:143-153 | a right click opens and closes nothing, so settled cells stay settled |
| Grids.DrawStep | js/Field.js:84-88 | one draw mines the drawn cell unless it is mined already, and the mines are then the distinct draws so far |
| Grids.MineStep | js/Field.js:86-87 | writing a mine into a cell adds that cell to the mined set |
| Grids.MinedFromStep | js/Field.js:86-87 | writing a mine changes only the cell's info, not its kind |
| Grids.Blank | js/Field.js:64-78 | the definition of the table `_renderField` draws: every cell covered, its info not yet set. `CoveredTable` and `FreshTable` prove what follows from it |
| Grids.FreshTable | js/Field.js:3-15 | the table after `_placeMines` and `_placeNumbers` has the placed mines, correct numbers, every cell covered, no mark and no mine opened |
| Grids.CoveredTable | js/Field.js:64-78 | an all-covered table has no opened mine, no mark and nothing left to flood |
| Minefield.Field.constructor | js/Field.js:3-22 | the new field satisfies the invariant. It has the given size, exactly `numberOfMines` mines, which are the distinct positions of a prefix of the draws, correct numbers, every cell covered, `flags` zero, and is listening |
| Minefield.Field.Flags | js/Field.js:33-35 | the `flags` getter is the number of marked cells plus the marked cells opened later, so it is never below the marks on the table |
| Minefield.Field.MinesLeft | js/Field.js:218-220 | the indicator `numberOfMines - flags` never exceeds the mines minus the marked cells |
| Minefield.Field.IsAnyMineHere | js/Field.js:37-39 | true exactly when the cell at `(y, x)` holds a mine |
| Minefield.Field.MineCounter | js/Field.js:54-62 | the number of mined cells in the list, at most its length, and for distinct positions the size of the set of mined ones |
| Minefield.Field.CellNeighbours | js/Field.js:40-52 | the loops build exactly the neighbour list, whose members are the adjacent on-table cells, each once and all on the table |
| Minefield.Field.PlaceMines | js/Field.js:80-92 | the mines written are exactly the distinct draws used, kinds are untouched, and their number is `numberOfMines` unless the draws run out of distinct positions |
| Minefield.Field.PlaceNumbers | js/Field.js:93-102 | the table becomes the numbering of the table before |
| Minefield.Field.OpenCell | js/Field.js:104-127 | with the listeners removed or off the table nothing changes. A mine changes no cell and ends the game as `GameOver`. A safe cell, marked or not, is opened. A numbered cell is the only cell that changes. An empty one ends with all its neighbours opened or mined, and the status is `Victory` exactly when the table is won. The invariant holds and `flags` is unchanged |
| Minefield.Field.Uncover | js/Field.js:117-126 | a safe cell is opened. If it holds a number, no other cell changes. If it is empty it floods, and the game ends as `Victory` exactly when the table is won |
| Minefield.Field.Reveal | js/Field.js:117-122 | the cell is opened with its number kept. A numbered cell is the only cell that changes. Otherwise cells only get opened and the empty cell ends with its neighbours settled. `flags` is unchanged |
| Minefield.Field.OpenNeighbours | js/Field.js:157-171 | after the pass every neighbour is opened or a mine, no mine is opened, and only safe cells change |
| Minefield.Field.VisitNeighbour | js/Field.js:158-169 | the neighbour ends opened or mined, and one that already was is left with table and status untouched |
| Minefield.Field.SetFlag | js/Field.js:128-156 | with the listeners removed or off the table nothing changes. Otherwise covered and marked swap with `flags` +1 and −1, an opened cell and all other cells stay as they are, and the invariant holds |
| Minefield.Field.EndOfGame | js/Field.js:190-203 | the listeners are removed: the status becomes the given end |
| Minefield.Field.DoesPlayerWin | js/Field.js:172-189 | the loops return true exactly when no safe cell is covered or marked |
| Levels.CalculateNumberOfMines | js/Game.js:3-11 | a count exists exactly for levels 9, 16 and 30, and each preset is positive and below the number of cells of its table |
| Levels.StartGame | js/Game.js:42-63 | a field is shown exactly for a non-zero level. It is as wide as the level, no higher than 16 or than its width, and takes that level's mine count |
| Levels.Presets | js/Game.js:3-7 | the presets are 9→10, 16→40 and 30→99 on tables of 9x9, 16x16 and 30x16 |
| Levels.PresetsFit | js/Game.js:51-55 | every preset level gives a size and a mine count that `Field`'s constructor accepts |

## Left out

- DOM rendering and styling are not modelled: `_renderField`'s HTML, `_showOpenedCell`, `_toggleFlag`, `_showMines`, the text of `_showMinesLeft`, and `Cell.showOpenedCell`, `toggleFlag` and `selectCells`. They move no game state. `Blank` gives the cells of the table `_renderField` produces.
- `Math.random` and `Math.round` in `_placeMines` are a parameter: the constructor takes the sequence of drawn positions. A random stream that eventually hits every cell is replaced by the precondition that the draws contain at least `numberOfMines` distinct positions.
- The table is a sequence of rows that each write replaces by a copy with one cell changed. The source updates the table's DOM nodes in place. No aliasing between the table and other objects is modelled.
- Event plumbing is not modelled: `addEventListener`, `MouseEvent` dispatch and bubbling, `event.target.closest('td')`, and the `endOfGame` `CustomEvent`. A click is a call with the cell's row and column. A click outside the table is a call with a position off the table, and it does nothing. Removing the listeners is the status leaving `Playing`.
- Minefield.Field.OpenCell: for an empty cell, the contract does not bound which safe cells the flood opens. The source opens only the empty region reached from the click and that region's numbered border. The contract states only that cells get opened, never closed, and that the closure holds afterwards. The region's minimality would need a reachability invariant carried through the whole mutual recursion, and the proof is too costly to keep within the verifier's resource limit. For the same reason it is not proved that a second click on an opened empty cell changes nothing.
- Minefield.Field.Uncover: for an empty cell, the flood is not bounded, for the reason given for `OpenCell`. A numbered cell's click is framed to that cell.
- Minefield.Field.Reveal: for an empty cell, the flood is not bounded, for the reason given for `OpenCell`. A numbered cell's click is framed to that cell.
- Minefield.Field.OpenNeighbours: the contract does not say that the pass opens only the cells its neighbours' clicks cascade to. Any safe cell may open as far as the contract goes. The limit is left out for the proof cost given for `OpenCell`.
- Minefield.Field.VisitNeighbour: when the neighbour is neither a mine nor opened, the click it receives is bounded only by "cells only get opened", for the proof cost given for `OpenCell`. A neighbour that is already done is framed: nothing changes.
- Before `_placeNumbers` runs, a freshly rendered cell has no `data-info`, so its info is `undefined` rather than `''`. Both are modelled as `Count(0)`. No read tells them apart: `isAnyMineHere` rejects both, and `_placeNumbers` overwrites every safe cell before the first click.
- A level that is non-zero and no preset passes `undefined` as the mine count to `Field`. `Levels.StartGame` returns `None` for it. What `Field` then does with it is not modelled.
- Integers are unbounded. The source's numbers are doubles, but no value here comes near 2^53.
- The `Minesweeper` class's notification flow is not modelled: `finishGame`, `_clear`, `showEl`, `hideEl` and `field.clear()`. The same goes for js/Notification.js, which is positioning and DOM work.
- js/Main.js is global DOM wiring with a duplicate of the preset table, and js/webpack.config.js is build configuration. Neither is part of this model.
