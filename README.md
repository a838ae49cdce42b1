# Console minesweeper: the game engine, verified

This project models the engine of a console minesweeper game written in Python,
`task6-minesweeper/minesweeper.py`, together with the input checks the console
loop runs before it calls the engine.

The class `MinesweeperField` holds the following:
- the main field, a mine or the number of mines among the 8 neighbours of each cell;
- the player's marks, hidden, opened or flagged, saved as 0, 1 and 2;
- two counters, `total_flags` and `mines_left`.

Its methods change all of these in place. The Dafny class `Field.MinesweeperField`
keeps the same state. The two lists of lists are `seq<seq<_>>` fields that the
methods reassign, and the counters are `int` fields. A ghost field `mineSet` names
the cells that hold a mine. Every method of the source except `show` is a method
of the class, with the loops of the source and their invariants. Of `show`, only the
per-cell rule is modelled, as the module-level function `Field.Display`. The methods are:
- mine placement with its 8-neighbour bump loop;
- `__load_mines__` and `__load_opened__`;
- `open` with its breadth-first flood fill `bfs`;
- `put_flag`, `is_opened` and `save`.

What the methods promise is stated against functions of the state:
- `LaidOut`: the main field shows exactly the mines of `mineSet`, with the counts around them;
- `Counted`: the counters agree with a recount of the flags;
- `Flood.Opens`: the cells the flood fill opens, defined by walks of zero-count cells;
- `SaveFormat.Encode` and `SaveFormat.Decode`: the save file as a sequence of integers.

The properties are proved about those functions. Mines placed or loaded give the
exact layout. The counters stay a recount of the flags through loading and
`put_flag`, until `bfs` overwrites a flag. With counters that agree, the win test
holds exactly when the flagged cells are the mines.
The flood fill opens exactly the cells reachable through zero-count cells, never a
mine, and takes at most one step per cell. `save` then load gives back the same main
field, mines and marks (`Field.LoadedAsSaved`). The counters are not saved; loading
recounts them. So a `total_flags` that `bfs` left too high is not reproduced.

The engine's own behaviour is kept where it differs from what one might expect:
- `bfs` opens flagged cells without taking their flags off `total_flags`.
  `Open` states by how much the counter is then too high (the ghost `Drift()`).
  `put_flag` never lowers that excess again, and while it is above zero the win test
  cannot hold (`Grids.DriftedNoWin`). So a game where `bfs` overwrote a flag can no
  longer be won, although the same game saved and loaded again can.
- When everything is shown, a flagged cell still shows as a flag (`Field.Display`).
- The loader does not validate its input. The model states the input it needs as a precondition.
- Mine picks are random in the source. Here the caller passes them in.
- `save` writes the mine coordinates in row-major order, not in the order the mines were placed.

Modules:
- `Board`: positions, cells, marks and their codes, the two shift tables, mine counts around a cell.
- `Grids`: grids as sequences of rows, the layout predicate, flag counting, and the drift `bfs` causes.
- `Flood`: what the flood fill reaches and opens, and the state of its loop.
- `Sweeps`: the flood fill's loop state as values, with the step lemmas its two loops use.
- `SaveFormat`: the save file's integers, with both round trips.
- `Validators`: `check_sizes`, `check_mines`, `check_step` and the step conversion.
- `Field`: the class, the per-cell rule of `show`, and the save/load lemmas.

## Model

| member | source | states |
|---|---|---|
| Board.MarkOf | task6-minesweeper/minesweeper.py:79 | a saved code 0, 1 or 2 reads back as the mark whose code it is |
| Board.Shift8Exact | task6-minesweeper/minesweeper.py:36-37 | the 8-entry shift table leads from a cell to exactly its 8 neighbours, each once |
| Board.Shift4Exact | task6-minesweeper/minesweeper.py:143-144 | the 4-entry shift table leads from a cell to exactly its 4 direct neighbours |
| Board.AddMineCount | task6-minesweeper/minesweeper.py:46-53 | one more mine raises by one the count of exactly the cells around it |
| Board.BumpStep | task6-minesweeper/minesweeper.py:49-53 | entry k of the 8-entry table bumps its own cell once and no other |
| Board.BumpDone | task6-minesweeper/minesweeper.py:49-53 | after all 8 entries, every cell holds its count with the new mine included |
| Board.WinIffFlagsAreMines | task6-minesweeper/minesweeper.py:185-188 | with counters that are a true recount, `mines_left == 0 and total_flags == mines` holds exactly when the flagged cells are the mines |
| Board.FlagDrift | task6-minesweeper/minesweeper.py:127-128 | when opening only removes flags and leaves the opened cell a without one, the flags before, less a's own, are the flags after plus those lost on other cells |
| Grids.Filled | task6-minesweeper/minesweeper.py:19-20 | a new grid has the given shape and holds the given value everywhere |
| Grids.LaidOutUnique | task6-minesweeper/minesweeper.py:34-71 | a set of mines determines the main field of a given shape completely |
| Grids.MinesAreMineCells | task6-minesweeper/minesweeper.py:82 | on a laid-out field, a cell is one of the mines exactly when it holds `'*'` |
| Grids.FlagListSpec | task6-minesweeper/minesweeper.py:77-81 | the row-major list of flags holds each flagged cell once, and as many as counted |
| Grids.FlagsUpToCard | task6-minesweeper/minesweeper.py:77-83 | counting flags cell by cell gives the size of the set of flagged cells |
| Grids.CountedMeans | task6-minesweeper/minesweeper.py:24-25 | the counters agree with the marks exactly when `total_flags` is the number of flags and `mines_left` the number of mines without a flag |
| Grids.CountPut | task6-minesweeper/minesweeper.py:171-183 | setting one mark moves the flag count by the flag gained or lost there |
| Grids.CountedAfterPut | task6-minesweeper/minesweeper.py:171-183 | setting one mark keeps the counters right when they move by the flag gained or lost, `mines_left` only on a mine |
| Grids.CountedWin | task6-minesweeper/minesweeper.py:185-188 | with agreeing counters, the win test holds exactly when the flagged cells are the mines |
| Field.FlagCounters | task6-minesweeper/minesweeper.py:165-188 | after one toggle, agreeing counters still agree and the win test then means the flags are the mines; the excess of `total_flags` over the flags is unchanged; and with `mines_left` agreeing, a positive excess rules out a win |
| Grids.OpenedFlags | task6-minesweeper/minesweeper.py:158-161 | opening non-mine cells loses flags but never a flag on a mine |
| Grids.OpenedCounts | task6-minesweeper/minesweeper.py:125-135 | after `open`, `mines_left` stays a true recount, and `total_flags` is too high by exactly the flags lost on cells other than the opened one |
| Grids.OpenedDrift | task6-minesweeper/minesweeper.py:125-135 | opening cells lowers the number of flags by the opened cell's flag and the flags lost elsewhere, and leaves the number of flagged mines unchanged |
| Grids.OpenedCounters | task6-minesweeper/minesweeper.py:125-135 | with `total_flags` lowered only by the opened cell's flag, its excess over the number of flags grows by exactly the flags the fill overwrote, and `mines_left` stays a recount if it was one |
| Grids.DriftedNoWin | task6-minesweeper/minesweeper.py:161 | while `mines_left` agrees with the flags and `total_flags` is above their number, `mines_left == 0 and total_flags == mines` (lines 185-188) cannot hold |
| Grids.OverwrittenMeans | task6-minesweeper/minesweeper.py:158-161 | the flags lost are the flagged cells, other than the opened one, that are no longer flagged |
| Grids.NoFlags | task6-minesweeper/minesweeper.py:20-25 | a field without flags has counters 0 and `mines` |
| Grids.CodesOf | task6-minesweeper/minesweeper.py:77-79 | marks that agree cell by cell with rows of codes have those codes |
| Grids.CodesInjective | task6-minesweeper/minesweeper.py:206-208 | different marks are saved differently |
| Flood.ReachesStep | task6-minesweeper/minesweeper.py:162-163 | a zero-count neighbour of a cell the fill goes on from is gone on from too |
| Flood.FrontierStart | task6-minesweeper/minesweeper.py:146-149 | the fill starts with its start cell seen and queued |
| Flood.FrontierStep | task6-minesweeper/minesweeper.py:151-163 | one turn of the loop keeps its state: every seen cell is opened by the fill, every queued one is gone on from, and a finished cell's non-mine neighbours are seen |
| Flood.FrontierDone | task6-minesweeper/minesweeper.py:151 | once the queue is empty, the cells seen are exactly those the fill opens |
| Flood.ClosedContainsReached | task6-minesweeper/minesweeper.py:151-163 | every cell reached by a walk of zero-count cells lies in any set that holds the start and is closed under such steps |
| Sweeps.SpreadStep | task6-minesweeper/minesweeper.py:153-163 | visiting neighbour k extends the inner loop's state from k to k + 1 |
| Sweeps.SpreadDone | task6-minesweeper/minesweeper.py:153-163 | after the four neighbours, exactly the mine-free neighbours are added, queued when zero |
| Sweeps.FloodStart | task6-minesweeper/minesweeper.py:146-149 | the outer loop's state holds at the start, with the whole field as budget |
| Sweeps.FloodStep | task6-minesweeper/minesweeper.py:151-163 | taking a cell off the queue and spreading from it keeps the outer loop's state with one more step |
| Sweeps.FloodDone | task6-minesweeper/minesweeper.py:151 | at the end, exactly the cells the fill opens are opened, in at most rows × columns steps |
| SaveFormat.Decode | task6-minesweeper/minesweeper.py:15-17 | a save that reads has the shape its header announces |
| SaveFormat.DecodeEncode | task6-minesweeper/minesweeper.py:190-208 | reading what was written gives back the rows, columns, mines, coordinates and codes |
| SaveFormat.EncodeDecode | task6-minesweeper/minesweeper.py:55-83 | a save that reads is, up to ignored trailing lines, the encoding of what was read |
| SaveFormat.MinesInRowsSpec | task6-minesweeper/minesweeper.py:199-203 | the coordinates `save` lists are exactly the mine cells, each once |
| SaveFormat.MarkRows | task6-minesweeper/minesweeper.py:77-79 | the rows of codes read follow the coordinates in the save |
| SaveFormat.ChunksOfFlatten | task6-minesweeper/minesweeper.py:206-208 | cutting the written codes back into rows gives the rows |
| Validators.CheckSizes | task6-minesweeper/minesweeper.py:265-278 | accepts exactly two numeric tokens, each between 3 and 26 |
| Validators.CheckMines | task6-minesweeper/minesweeper.py:281-292 | accepts exactly a numeric token m with 2 ≤ m ≤ size_x·size_y // 3 |
| Validators.ValidatedGameHasRoom | task6-minesweeper/minesweeper.py:40-45 | accepted sizes and mines leave at least one cell free of mines, so the pick loop can always place the next mine |
| Validators.CheckStep | task6-minesweeper/minesweeper.py:236-262 | accepts exactly three tokens: a number and a single letter in either order naming a cell of the field, then `open` or `flag` in any case |
| Validators.ToStep | task6-minesweeper/minesweeper.py:366-374 | a step accepted by `check_step` converts to a row and a column on the field, with the action it names |
| Field.Display | task6-minesweeper/minesweeper.py:101-107 | a cell is covered only when hidden and not everything is shown; a flag shows as a flag even when everything is shown; otherwise its content shows |
| Field.Toggled | task6-minesweeper/minesweeper.py:171-180 | a flag comes off, a hidden cell gets one, an opened cell stays opened |
| Field.FlagTwice | task6-minesweeper/minesweeper.py:165-183 | `put_flag` twice on a cell gives back its marks, and the counter changes cancel |
| Field.OpenedCellUnflaggable | task6-minesweeper/minesweeper.py:171-183 | on a cell whose stored code is 1, as `is_opened` tests, `put_flag` leaves the marks and the number of flags as they are |
| Field.SavedMines | task6-minesweeper/minesweeper.py:199-203 | the mines `save` lists are the field's mines, each once, as many as there are |
| Field.SavedGameLoads | task6-minesweeper/minesweeper.py:190-210 | what `save` writes reads back as itself and meets every assumption of the loader |
| Field.LoadedAsSaved | task6-minesweeper/minesweeper.py:55-83 | a game loaded from what `save` wrote has the saved main field, mines and marks |
| Field.MinesweeperField.New | task6-minesweeper/minesweeper.py:7-28 | a new game has its mines on the given cells, every cell hidden, no flag and all mines left |
| Field.MinesweeperField.Load | task6-minesweeper/minesweeper.py:12-32 | a loaded game has the saved sizes, mines and codes, and counters that are a true recount |
| Field.MinesweeperField.PlaceMine | task6-minesweeper/minesweeper.py:46-53 | placing a mine on a free cell keeps the field laid out, with that mine added |
| Field.MinesweeperField.Bump | task6-minesweeper/minesweeper.py:49-53 | one pass of the bump loop raises the count of the k-th neighbour when it is on the field and not a mine |
| Field.MinesweeperField.CreateMines | task6-minesweeper/minesweeper.py:34-53 | after the picks, the field shows exactly the picked mines with their counts |
| Field.MinesweeperField.LoadMines | task6-minesweeper/minesweeper.py:55-71 | after the coordinate lines, the field shows exactly those mines with their counts |
| Field.MinesweeperField.LoadOpened | task6-minesweeper/minesweeper.py:73-83 | the marks are the codes read, `total_flags` is the number of flags and `mines_left` the mines without one |
| Field.MinesweeperField.LoadRow | task6-minesweeper/minesweeper.py:78-83 | one row is read in, counted, and the other rows are untouched |
| Field.MinesweeperField.IsOpened | task6-minesweeper/minesweeper.py:110-117 | the test of the stored code against 1 holds exactly when the cell is opened, and never for a flagged or hidden cell |
| Field.MinesweeperField.Open | task6-minesweeper/minesweeper.py:119-136 | false on a mine with nothing changed; otherwise the cell and the cells the fill opens are opened, nothing else changes, `total_flags` drops by the cell's flag only, its excess over the flags (`Drift()`) grows by the flags the fill overwrote, and `mines_left` stays a recount; on success `is_opened` then holds of the cell |
| Field.MinesweeperField.Reveal | task6-minesweeper/minesweeper.py:130-135 | past the mine test, the cell is opened, and when it is zero so are exactly the cells the fill opens; only non-mine cells change |
| Field.MinesweeperField.Bfs | task6-minesweeper/minesweeper.py:138-163 | exactly the cells the fill from (x, y) opens are opened, nothing else changes, and the loop takes at most rows × columns turns |
| Field.MinesweeperField.Turn | task6-minesweeper/minesweeper.py:151-163 | one turn of the outer loop keeps its state |
| Field.MinesweeperField.Spread | task6-minesweeper/minesweeper.py:153-163 | the inner loop adds exactly the unvisited mine-free neighbours, opens them and queues the zero ones |
| Field.MinesweeperField.Visit | task6-minesweeper/minesweeper.py:156-163 | an unvisited mine-free neighbour on the field is visited and opened, and queued when zero; otherwise nothing changes |
| Field.MinesweeperField.PutFlag | task6-minesweeper/minesweeper.py:165-188 | the toggle with its counter changes, the result is the win test, and with agreeing counters it holds exactly when the flagged cells are the mines; `Drift()` is unchanged, and while `mines_left` agrees a positive `Drift()` means no win; on a cell `is_opened` holds of, nothing changes |
| Field.MinesweeperField.Save | task6-minesweeper/minesweeper.py:190-210 | the integers written are the encoding of the game's sizes, mines and marks |
| Field.MinesweeperField.SaveMines | task6-minesweeper/minesweeper.py:198-203 | the coordinate lines are the mines in row-major order, row then column |
| Field.MinesweeperField.SaveRowMines | task6-minesweeper/minesweeper.py:200-203 | one row appends the coordinates of its mines, left to right |
| Field.MinesweeperField.SaveMarks | task6-minesweeper/minesweeper.py:205-208 | the mark lines are the codes of all cells in row-major order |

## Left out

- Randomness: `random.randint` and the retry loop of `__create_mines__` (lines 41-45) are not modelled. `New` and `CreateMines` take the picks as a list of distinct cells on the field. `ValidatedGameHasRoom` proves that accepted input always leaves a free cell.
- File I/O: opening, reading and writing `.ms` files, and the byte encoding of lines. A save is the `seq<int>` of its lines. `int(f.readline())` on a line that is not a number is not modelled.
- Lax loading: the loader does not validate its input. Negative coordinates index from the end of the lists in Python, and repeated coordinates place a mine twice and bump its neighbours twice. Codes other than 0, 1 and 2 are stored as they are. `Load`, `LoadMines` and `LoadOpened` require a save that reads, with distinct in-bounds coordinates and codes 0 to 2 (`SaveFormat.Loadable`).
- Negative header values: with a negative size or mine count the loader builds an empty or partial game (`range` of a negative number is empty, and with a negative mine count the codes are read straight after the header). `SaveFormat.Decode` rejects such saves, so they are outside the model.
- Field.MinesweeperField.Load: a save that is too short fails in the source with an error from `int('')`. The model requires the save to read (`SaveFormat.Decode` gives a value) and does not model that error.
- Field.MinesweeperField.Open, Field.MinesweeperField.PutFlag, Field.MinesweeperField.IsOpened: coordinates must be on the field. Python would raise on too large an index and wrap a negative one. The console loop only passes coordinates that `check_step` accepted, and `Validators.ToStep` proves these are on the field.
- Printing: `show` prints the axes and rows. Only its per-cell decision is modelled (`Field.Display`). `print_menu`, `print_rules` and the `__main__` loop are left out, apart from the step conversion at lines 366-374 (`Validators.ToStep`).
- Unicode: `str.isnumeric`, `str.isalpha`, `upper` and `lower` are modelled for ASCII digits and letters only.
- `queue.Queue` is a sequence used first in, first out. Its thread safety is irrelevant here.
- Field.MinesweeperField.Bfs: `visited` is modelled as a grid of booleans rather than of 0 and 1.
- Bfs also has a ghost step counter to state the bound on the number of turns.
