# Minesweeper core in Dafny

A model of the game engine of a small Bevy Minesweeper written in Rust:

- **Board generation** (`src/board.rs`). Bomb placement fills a vector with `number` trues and
  `len - number` falses, then shuffles it. Neighbour counting loops over the Moore neighbourhood
  of each grid cell. Cell `(x, y)` has linear index `y * W + x`, and a bounds test guards every
  neighbour lookup.
- **Cell types** (`src/cell.rs`). A cell has one of four states (`Hidden`, `Exploded`, `Flagged`,
  `Revealed`). It also carries its bomb flag, its grid position and its neighbour-bomb count. Its
  background colour depends on its state alone, and there is a default cell.
- **Game systems** (`src/systems.rs`):
  - `setup` builds one hidden cell per grid position from the generator's output.
  - `click_system` gives the cell under the cursor its transition: a left press reveals or
    explodes a hidden cell, and a right press toggles a flag.
  - `auto_reveal` is a breadth-first flood fill over a work queue. It is seeded with every
    revealed, zero-count, bomb-free cell. It reveals every hidden neighbour of such a cell and
    queues the neighbours whose count is zero.
  - The text branch of `update_node_appearance` picks the glyph a cell shows.

Modules follow the source files:
- `Numeric` (`numeric.dfy`): the `u8` count type and the decimal rendering `to_string`.
- `Board` (`board.dfy`).
- `Cells` (`cell.dfy`).
- `Systems` (`systems.dfy`). Here the Bevy entity set is a class `Game` that holds an array of
  cells, with cell `i` at column `i % W` and row `i / W`.

The grid dimensions `GRID_WIDTH`, `GRID_HEIGHT` and the bomb count are parameters, because
`src/config.rs` is not part of this model. `GRID_CELLS` is their product. The `Game` invariant
`Valid` says two things:
- every cell's position is the grid position of its index;
- every count is what `compute_neighbor_counts` gives for the board's bombs.

`Setup` establishes `Valid`; `Click` and `AutoReveal` require it and keep it. Both facts are about
what a cell carries besides its state (`CellFacts`), and no system changes those.

The result of `auto_reveal` is characterised by the predicate `FloodFilled`, and the lemma
`FloodFilledUnique` proves that this characterisation admits exactly one outcome per starting
board. So a flag stops the cascade, and so does any hidden cell that no seed can reach through
zero-count cells.

The neighbour counts are checked against an independent reference. That reference is the size of
the set of in-grid cells that are bombs and Moore-adjacent to the cell. It is not the loop's own
offset walk.

## Model

| member | source | states |
|---|---|---|
| Board.GridIndex | src/board.rs:43-45 | for `x < W`, the index `y*W + x` gives back `x` as its remainder by `W` and `y` as its quotient |
| Board.GridIndexInGrid | src/board.rs:43-45 | for `x < W` and `y < H`, the index is below `W*H` |
| Board.GridIndexInjective | src/board.rs:43-45 | two in-grid positions with the same index are the same position |
| Board.IndexRoundTrip | src/board.rs:43-45 | every index below `W*H` is `grid_index` of its remainder and quotient, which lie in the grid |
| Board.CellIndex | src/board.rs:43-49 | an in-bounds signed position has an index below `W*H` whose column and row are that position |
| Board.InBounds | src/board.rs:47-49 | `is_in_bounds`: both coordinates lie in `[0, W)` and `[0, H)`; partnered by the row below |
| Board.InBoundsIffGridCell | src/board.rs:47-49 | `is_in_bounds(x, y)` holds exactly when some index below `W*H` has column `x` and row `y` |
| Board.Filled | src/board.rs:8-9 | the vector of `number` trues followed by `len - number` falses; partnered by the row below |
| Board.FilledCounts | src/board.rs:8-9 | the filled vector has length `len`, with `number` trues and `len - number` falses |
| Board.Shuffle | src/board.rs:10 | the shuffled array is a permutation of its old contents |
| Board.GenerateRandomBoolArray | src/board.rs:7-12 | needs `number <= len`; the result has length `len`, is a permutation of the filled vector and holds exactly `number` trues |
| Board.PrefixCountIsSetSize | src/board.rs:23-35 | after the first `t` offsets, the loop's count is the number of bomb cells among those offsets' in-grid neighbours |
| Board.PrefixCountBound | src/board.rs:23-35 | the centre offset never counts, so all nine offsets give at most 8 |
| Board.NeighborCountIsBruteForce | src/board.rs:22-37 | the offset walk equals the size of the reference set of in-grid Moore-adjacent bomb cells, and is at most 8 |
| Board.CountStep | src/board.rs:25-34 | one pass of the loop body at offset `(dx, dy)` adds 1 exactly when the offset is not the centre and lands in the grid on a bomb; the count so far is at most 8 |
| Board.CountAround | src/board.rs:22-36 | the `dx`/`dy` loops return the reference count of in-grid bomb neighbours; it is at most 8, so the `u8` never overflows |
| Board.ComputeNeighborCounts | src/board.rs:14-41 | needs at least `W*H` inputs; gives `W*H` counts, 0 at every bomb and the reference count at every other cell; all are at most 8 |
| Numeric.DigitChar | src/systems.rs:70 | the digit character of `d < 10` is a digit with value `d` |
| Numeric.DecimalString | src/systems.rs:70 | `to_string` of a count is a non-empty digit string with no leading zero that denotes the count |
| Cells.CellState | src/cell.rs:33-39 | the four cell states, with structural equality as the derived `PartialEq` |
| Cells.Cell | src/cell.rs:3-9 | the cell record: state, bomb flag, `(x, y)` position and `u8` neighbour count |
| Cells.GetColor | src/cell.rs:12-19 | `get_color`: hidden is white, exploded red, flagged blue, revealed none, as colour tokens; partnered by the row below |
| Cells.GetColorDistinguishesStates | src/cell.rs:12-19 | two cells get the same colour token exactly when they are in the same state |
| Cells.DefaultCell | src/cell.rs:22-31 | the default cell is hidden and bomb-free, sits at `(0, 0)` and has count 0 |
| Systems.Reveal | src/systems.rs:92-99 | a left press keeps the facts and makes a legal move: a hidden cell becomes exploded exactly when it is a bomb and revealed exactly when it is not; any other cell is unchanged |
| Systems.RevealIdempotent | src/systems.rs:92-99 | revealing a second time changes nothing |
| Systems.ToggleFlag | src/systems.rs:100-105 | a right press keeps the facts and makes a legal move: the result is flagged exactly when the cell was hidden; revealed and exploded cells are unchanged |
| Systems.ToggleFlagTwice | src/systems.rs:100-105 | toggling a flag twice is the identity |
| Systems.ClickCell | src/systems.rs:92-106 | the facts are kept and the move is legal; a left press on a hidden cell reveals or explodes it by its bomb flag; without a right press any other left press is a no-op; otherwise a right press flags exactly the hidden cells; revealed and exploded cells never change |
| Systems.Glyph | src/systems.rs:67-78 | the text is empty exactly for hidden cells and zero-count revealed cells, is "F" exactly when flagged and "B" exactly when exploded, and for a revealed cell with bomb neighbours it is the shortest digit string (no leading zero) denoting the count |
| Systems.DefaultCellAppearance | src/cell.rs:22-31 | the default cell shows no text on the white token |
| Systems.HiddenCountUpdate | src/systems.rs:135-136 | revealing one hidden cell lowers the number of hidden cells by one |
| Systems.WellFormedFacts | src/systems.rs:33-38 | the board invariant depends only on bomb flags, positions and counts, not on states |
| Systems.ZeroCountNeighborSafe | src/systems.rs:133-136 | a Moore neighbour of a bomb-free zero-count cell is not a bomb, so the flood fill never reveals a bomb |
| Systems.ExpandSkip | src/systems.rs:128-135 | an offset that is the centre, off the grid or on a non-hidden cell changes nothing and completes its step |
| Systems.ExpandReveal | src/systems.rs:134-139 | revealing the hidden neighbour at an offset, and queueing it when its count is zero, completes that offset's step |
| Systems.FreshPush | src/systems.rs:135-138 | a position queued from a hidden cell is new to the positions queued so far |
| Systems.QueueStep | src/systems.rs:125-145 | after a pop, every safe zero cell not in the remaining or new queue has no hidden neighbour |
| Systems.RecordStep | src/systems.rs:135-139 | the record of queued positions stays distinct and safe-zero, and holds every cell turned safe-zero |
| Systems.RevealOne | src/systems.rs:135-136 | turning one hidden bomb-free cell to revealed reveals only, keeps the cell's facts and lowers the hidden count by one |
| Systems.ReachStep | src/systems.rs:125-139 | one pop of a seed or recorded position records only its neighbours and uncovers only its neighbours, so the record stays chained to the seeds |
| Systems.RecordedSafe | src/systems.rs:116-145 | every position one flood-fill result records is a safe zero cell in any other result from the same board, by induction along the record's chain |
| Systems.ReachedSafe | src/systems.rs:116-145 | every seed, and every position recorded before a given point, is a safe zero cell in any other result |
| Systems.FloodFilledCovers | src/systems.rs:116-145 | every cell one result uncovers, any other result from the same board uncovers too |
| Systems.FloodFilledUnique | src/systems.rs:113-146 | two results that both meet the flood-fill characterisation from the same board are equal, so the postcondition of `AutoReveal` fixes its outcome |
| Systems.PopStep | src/systems.rs:125-145 | one pop of the queue keeps the whole flood-fill invariant |
| Systems.Game.Valid | src/systems.rs:16-38 | the board invariant: cell `i` sits at `(i % W, i / W)` and carries the neighbour count of the board's bombs |
| Systems.Game.Setup | src/systems.rs:11-52 | every cell is hidden, sits at its grid position and has the reference neighbour count of the board's bombs; the bombs are a permutation of the filled vector, exactly `bombCount` of them |
| Systems.Game.Click | src/systems.rs:87-107 | on a press over a grid position, that cell alone takes its click transition and all other cells stay the same; otherwise nothing changes; the board invariant is kept |
| Systems.Game.RevealAt | src/systems.rs:128-141 | one offset of the inner loops extends the step invariant and keeps the queued positions fresh |
| Systems.Game.RevealNeighbors | src/systems.rs:126-144 | one pop: cells change only from hidden to revealed, only when bomb-free and only next to `pos`; afterwards `pos` has no hidden neighbour; every newly safe zero cell is queued; the queued positions are distinct, safe-zero and were hidden before, and number no more than the cells revealed |
| Systems.Game.AutoReveal | src/systems.rs:113-146 | `FloodFilled`: cells change only from hidden to revealed, and only bomb-free ones; on exit no revealed zero-count bomb-free cell has an in-grid hidden neighbour; the positions queued beyond the seeds are distinct, were hidden at the start, are exactly the cells that became safe zero cells, and each neighbours a seed or an earlier queued position; every uncovered cell neighbours a seed or a queued position; a board already closed is left as it is; at most as many positions are queued as there were hidden cells; the invariant is kept |

## Left out

- Bevy plumbing is not modelled: `Commands`/`spawn`, the camera, `Query`, `ButtonInput`, `Window`. The entity set is an array indexed by `grid_index`.
- The pixel layout in `setup` and the cursor hit-test `is_cursor_over_node` are floating-point screen geometry. `Click` takes the grid position under the cursor as its input. A click over no cell is a no-op, as in the code.
- The hover and background colours in `update_node_appearance` are `Color::srgb` floats. `get_color` is modelled on abstract colour tokens.
- The `rand` generator is a foreign call. `Shuffle` is a Fisher–Yates loop whose swap index is chosen arbitrarily, so the model promises a permutation and says nothing about the distribution.
- `src/main.rs`, `src/mine_node.rs` and `examples/button.rs` are an earlier prototype and a UI demo. They do not use the modelled modules.
- `src/config.rs` is not part of this model. The grid dimensions and bomb count are parameters with `W > 0` and `H > 0`.
- The `usize`/`i32` widths of indices and positions are not modelled; dimensions are assumed to fit. The `u8` count is modelled, and its bound of 8 is proved.
- Bevy's query iteration order is modelled as index order for the seed loop of `auto_reveal`. The inner linear scan for the cell at `(nx, ny)` is a direct index lookup. Positions are unique, so the scan touches at most that one cell.
- When `auto_reveal` runs relative to `click_system` within a frame is framework scheduling and is not modelled.
- Error results: the code returns none. The underflow of `len - number` and out-of-range slice indexing are panics, so they are preconditions here.
- The record of positions queued by `auto_reveal` is a ghost out-parameter of `AutoReveal`, because the source keeps no such record.
