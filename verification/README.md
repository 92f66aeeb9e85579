# Conway's Game of Life simulator — verified model

This project models the logic of a browser Game of Life simulator (`script.js`).
It covers four parts:

- **Life engine** (`life.dfy`, module `Life`). One generation is computed over a square boolean grid. Every border cell is forced dead. Every interior cell follows the four Conway rules, applied to its Moore-neighbourhood count.
- **Grid model** (`grids.dfy`, module `Grids`). Covers initialising an all-dead grid, the deep copy, and the single-cell flip that is ignored while the simulation runs.
- **Saved grids** (`saved_grids.dfy`, module `SavedGrids`; `text.dfy`, module `Text`). This is the named-snapshot store. The program keeps it in a JavaScript `Map`. Here it is the sequence of the map's entries in insertion order, which is also the array written to durable storage. The module models validated saving, lookup, deletion, and rebuilding the map from the stored array at start-up. `Text` models JavaScript's `trim`, which the blank-name check uses.
- **Session** (`simulator.dfy`, module `Simulator`). The page's global variables are gathered into one `Session` value: the grid, canvas width, grid dimension, run flag, interval handle and saved grids. Each control (start, stop, reset, interval tick, cell click, save, load, delete) is a function from a session to a session or a refusal. The invariant `Valid` holds the following:
  - the grid is square, with the configured dimension;
  - the simulation runs exactly when an interval is scheduled;
  - saved names are distinct;
  - saved grids are square.

  Every control preserves `Valid`.

`results.dfy` (module `Results`) holds the `Option` and `Result` types.

Grids are immutable Dafny values. So "a copy shares no storage with the original" holds by construction. `CopyArray` still models the row-by-row copy loop and proves that it reproduces the shape and every cell. The session stores and loads grid values directly; a later edit of the live grid cannot reach a saved one (`SaveEditLoad`).

Where the model follows the program rather than the obvious reading:
- A save is keyed by the name exactly as typed; it is not trimmed. The trimmed name is only used to reject blank names. Duplicates are checked on the untrimmed name.
- Save checks capacity first, then a blank name, then a duplicate name.
- Deleting a name that is not present does nothing. `Map.delete` returns `false` for an absent key, and the delete handler (script.js:444) ignores that value, so there is no "not found" error.
- Loading a name that is absent is `Err(NotFound)`. The program only loads through the button of an existing entry; if it were given an absent name, `savedData.get` would return `undefined` and the program would fail.

## Model

| member | source | states |
|---|---|---|
| Grids.InitializeConwayData | script.js:319-328 | the new grid has `n` rows of `n` cells and no cell is alive |
| Grids.CopyArray | script.js:335-345 | the copy has the same number of rows, the same length for every row, and the same value in every cell |
| Grids.FlipTile | script.js:236-253 | while running the grid is returned unchanged; otherwise exactly cell (row, col) is negated, every other cell is kept, the shape is kept, and a square grid stays square |
| Grids.FlipTwiceRestores | script.js:250 | flipping the same cell twice gives back the original grid |
| Life.NeighbourCount | script.js:299-312 | the Moore-neighbourhood count of an interior cell is at most 8 |
| Life.BlockScanIsNeighbourCount | script.js:301-310 | scanning the 3x3 block row by row and skipping the centre counts exactly the eight Moore neighbours |
| Life.CountAliveNeighbours | script.js:299-312 | the nested loops return the number of live cells among the eight neighbours, never the cell itself; the result is at most 8, and every index read lies inside the grid |
| Life.DetermineLiveCell | script.js:261-291 | a border cell is dead; an interior cell lives iff it is alive with 2 or 3 live neighbours or dead with exactly 3 |
| Life.Advance | script.js:172-188 | the next generation as a pure function: same side as the input; each cell is dead on the border and follows the rules on its neighbour count inside |
| Life.DetermineNextGeneration | script.js:168-190 | the next grid has as many rows as the current one and each row the same length; every cell on row 0, row N-1, column 0 or column N-1 is dead; every interior cell follows the rules on its neighbour count |
| Life.AllDeadIsFixedPoint | script.js:175-190 | one generation of an all-dead N×N grid is the same all-dead grid |
| Life.AllDeadStaysDead | script.js:137-139 | any number of interval ticks leaves an all-dead grid all dead |
| Life.EdgeGuardAsWrittenMissesBottomRow | script.js:264-269 | the border test as written lets an interior-column cell of the bottom row through, so its neighbours would be read from a row beyond the grid |
| Life.EdgeGuardIsBorder | script.js:177 | the border test the program means rejects exactly the cells on row 0, row N-1, column 0 or column N-1, and passes exactly the interior ones |
| Life.GliderStep | script.js:168-190 | the 5x5 glider with cells (1,2), (2,3), (3,1), (3,2), (3,3) becomes (2,1), (2,3), (3,2), (3,3) after one generation; (4,2) is on the dead border and is not born |
| Text.TrimEmptyIffBlank | script.js:364 | `trim()` yields the empty string exactly when every character is JavaScript whitespace or a line terminator |
| SavedGrids.Find | script.js:438 | a lookup finds an entry iff the name is a key, and the entry found carries that name |
| SavedGrids.AddToSaved | script.js:351-391 | the save fails with CapacityExceeded iff 20 or more grids are saved; else with EmptyName iff the name is blank; else with DuplicateName iff the name is already a key. Otherwise exactly one entry (name, grid, width, dimension) is appended, every earlier entry is kept in place, and the size grows by one to at most 20 |
| SavedGrids.Delete | script.js:442-447 | the key is gone, every other key finds the same entry as before, the size drops by one when the key was present, the remaining entries keep their insertion order (the store is the old one with exactly that entry cut out), and a missing key leaves the store unchanged |
| SavedGrids.Put | script.js:467 | `Map.set` adds the key and no other; a new key is appended at the end, and an existing key's entry is overwritten in place |
| SavedGrids.PutStores | script.js:467 | after `Map.set` the key finds the new entry, and keys stay unique |
| SavedGrids.Restore | script.js:463-470 | rebuilding the map from any stored array gives unique keys, its keys are exactly the names in the array, and every entry comes from the array |
| SavedGrids.RestorePersisted | script.js:455-470 | writing the entries in insertion order and rebuilding the map from them gives back the same entries, with all four fields and the same order |
| SavedGrids.SaveThenFind | script.js:380-387 | after a successful save, looking up its name finds that name with the saved grid, width and dimension |
| SavedGrids.SaveThenDelete | script.js:442-447 | deleting a name just saved restores the store exactly |
| Simulator.Setup | script.js:19-97 | the page starts not running, with no interval, a 700-pixel canvas and an all-dead 20x20 grid; the saved grids are the map rebuilt from the stored array, with exactly its names as keys; the session is valid when the stored entries are well formed |
| Simulator.BeginTime | script.js:134-141 | start sets the run flag and keeps an existing interval; it creates one only when none exists; validity is preserved |
| Simulator.StopTime | script.js:146-151 | stop clears the run flag and the interval and changes nothing else; validity is preserved |
| Simulator.Reset | script.js:156-163 | reset stops as stop does and clears the grid to all dead at the configured dimension; the saved grids are kept; validity is preserved |
| Simulator.Tick | script.js:137-139 | an interval firing replaces the grid by its next generation: the border is dead, interior cells follow the rules, and the run state, interval, canvas width, dimension and saved grids are kept |
| Simulator.Click | script.js:238-250 | a click while running changes nothing; otherwise only the clicked cell flips, and the run flag, interval, canvas width, dimension and saved grids are kept; validity is preserved |
| Simulator.Save | script.js:380-390 | a save succeeds exactly when the store accepts it. On success the live grid with the current width and dimension is appended after the earlier entries, and the grid, run flag, interval, canvas width and dimension are kept; validity is preserved; on refusal the store's error is returned |
| Simulator.LoadGrid | script.js:397-404 | loading fails iff the name is not saved; otherwise the grid, width and dimension become the saved ones while the run state and store are untouched, and validity is preserved |
| Simulator.DeleteSaved | script.js:442-447 | deleting removes the name, keeps every other saved grid in its insertion order, leaves the saved grids unchanged when the name is absent, keeps the grid, run flag, interval, canvas width and dimension, and preserves validity |
| Simulator.BeginTimeIdempotent | script.js:136 | pressing start twice gives the same session as pressing it once |
| Simulator.StopTimeIdempotent | script.js:148 | pressing stop twice gives the same session as pressing it once |
| Simulator.SaveEditLoad | script.js:382-398 | after saving, editing a cell of the live grid and then loading the name brings back the grid as it was at save time |

## Left out

- DOM creation, slider and button wiring, and enabling or disabling the settings buttons (script.js:35-99, 122-129, 412-434). These are user-interface plumbing. The model assumes each saved entry's DOM id equals its key, as `addSaveItemToDOM` sets it.
- Canvas drawing (`setupGrid`, `drawPopulationGrid`, `fillCell`). This is rendering output.
- The pixel accumulators `xPos`/`yPos` in `determineNextGeneration`. They are never read.
- The tile width and the click-to-cell mapping through `Math.floor(offset / tileWidth)`. These are floating-point divisions. Clicks arrive as integer row and column indices, which must name a cell when the click is not ignored; the program itself does no bounds check there.
- The timer period `200 / speedMultiplier` and the timer service itself. The handle a new interval would get is a parameter of `BeginTime`. The interval's firings are modelled as `Tick`.
- The dimension, grid-size and speed setting handlers (script.js:62-80). They re-initialise the grid or set a number through the user interface.
- `localStorage` and `JSON.stringify`/`JSON.parse`. The stored value is the sequence of entries itself. Malformed stored text, which makes `JSON.parse` throw, is not modelled.
- `alert` messages. Save reports them as `SaveError` values instead.
- Simulator.Setup: its validity claim requires the stored entries to be square grids of their recorded dimension. The program does not check what it reads back from storage.

## Findings

| source | as written | input that shows it | evidently intended | confidence | as-written member | corrected member |
|---|---|---|---|---|---|---|
| script.js:267 | the second border test in `determineLiveCell` compares `tileXPos` (the column) with the row count | on a 5x5 grid, the cell at column 2 of row 4 passes both tests, so its neighbours would be read from row 5, which does not exist | `tileYPos == conwayDataArray.length-1` | not executed; the only caller (script.js:177) already excludes every border cell, so the slip is unreachable from the program | Life.EdgeGuardAsWrittenMissesBottomRow | Life.DetermineLiveCell |
