# Game of Life universe in Dafny

This project models the `Universe` of `src/lib.rs`. It is a Conway's Game of
Life board on a torus: `width` x `height` cells stored as a flat row-major bit
buffer. The index of cell (row, column) is `row * width + column`, and true
means alive. The model covers every in-place operation:

- creation and re-seeding with one random draw per cell;
- `clear`;
- `toggle_cell`;
- the destructive resizes `set_width` and `set_height`;
- `set_cells`;
- `tick`, which advances one generation under the B3/S23 rule;
- the helpers behind `tick`: `get_index` and `live_neighbour_count`.

Two files:

- `rules.dfy` (module `Rules`) is the pure specification. `Grid` is a value
  snapshot of a universe. It holds the row-major layout (`Index`), the
  neighbour count exactly as the code computes it (`LiveNeighbours`), a
  reference count over the eight torus neighbours (`TorusNeighbours`), the
  transition rule (`NextState`), the next generation (`NextGeneration`), and
  the values the editing operations leave behind (`DeadGrid`, `Toggled`,
  `MarkAlive`). The lemmas about them are here too.
- `universe.dfy` (module `GameOfLife`) is the class `Universe`. It has the
  fields `width`, `height` and `cells: array<bool>`. Its methods update those
  fields in place, and each is proved against the `Rules` definitions through
  `Model()`, the grid the object currently holds.

Some behaviour of the code is modelled as written, even where a bounds-checked
design would differ:

- `toggle_cell` and `set_cells` do not check row and column against the
  dimensions. The only demand on a caller is that `row * width + column` falls
  inside the buffer; past it, the bit set panics. So `toggle_cell(r, width)`
  flips cell (r + 1, 0) instead of failing (`Rules.IndexPastRowEnd`).
- `live_neighbour_count` tries the offsets `height - 1, 0, 1` by
  `width - 1, 0, 1`, and skips a pair when both offset VALUES are 0. On grids at
  least 2 x 2 this is exactly the eight torus neighbours
  (`Rules.NeighboursOnTorus`). When a dimension is 1, `height - 1` is 0 too, and
  more pairs are skipped: a single live cell on a 1 x 1 grid counts itself 5
  times, not 8 (`Rules.SingleCellCount`).
- The resizes always discard the old cells: the new grid is entirely dead.

## Model

| member | source | states |
|---|---|---|
| `Rules.Index` | src/lib.rs:157-159 | `get_index`: the row-major position `row * width + column` of a cell, computed without wrap-around |
| `Rules.IndexInRange` | src/lib.rs:157-159 | for row < height and column < width, `get_index` lies below width * height |
| `Rules.IndexInjective` | src/lib.rs:157-159 | two cells of the rectangle with the same index are the same cell |
| `Rules.IndexDivMod` | src/lib.rs:157-159 | dividing an index by the width gives back its row, and the remainder gives its column |
| `Rules.IndexCovers` | src/lib.rs:157-159 | every buffer position below width * height is the index of exactly the cell (i / width, i % width) of the rectangle |
| `Rules.IndexPastRowEnd` | src/lib.rs:91-94 | the unchecked index of (row, width + c) equals that of (row + 1, c), so an out-of-row column reaches the next row |
| `Rules.Deltas` | src/lib.rs:163-164 | the count tries three offsets per dimension, and the middle one is 0 |
| `Rules.Contribution` | src/lib.rs:165-171 | each tried offset adds at most one, and the pair of zero offsets adds nothing |
| `Rules.LiveNeighbours` | src/lib.rs:161-175 | `live_neighbour_count` as written: the sum of the contributions of every pair of a row offset from `[height - 1, 0, 1]` and a column offset from `[width - 1, 0, 1]`, in the code's order |
| `Rules.NeighbourCountBound` | src/lib.rs:161-175 | the neighbour count is at most 8 |
| `Rules.WrapBackwards` | src/lib.rs:163-170 | an offset of height - 1 (width - 1), taken modulo the dimension, reaches the same cell as -1 |
| `Rules.TorusNeighbours` | src/lib.rs:161-175 | the reference definition, not the code: the number of live cells among the eight cells ((row ± 1) mod height, (column ± 1) mod width) around a cell |
| `Rules.NeighboursOnTorus` | src/lib.rs:161-175 | on grids at least 2 x 2, the count equals the number of live cells among the eight torus neighbours ((row ± 1) mod height, (column ± 1) mod width) |
| `Rules.SingleCellCount` | src/lib.rs:163-167 | on a 1 x 1 grid a live cell counts 5 as its own neighbour, where the torus reference gives 8 |
| `Rules.CornerWrapExample` | src/lib.rs:163-170 | on a 3 x 3 grid whose only live cell is (0, 0), cell (2, 2) has exactly one live neighbour |
| `Rules.NeighboursAreLocal` | src/lib.rs:161-175 | two grids that agree on the 3 x 3 window around a cell give it the same count |
| `Rules.NextState` | src/lib.rs:132-138 | the match yields alive exactly when the cell is alive with 2 or 3 neighbours or dead with exactly 3 |
| `Rules.NextCell` | src/lib.rs:121-138 | the per-cell body of `tick`: the match applied to the cell's current state and its `live_neighbour_count` |
| `Rules.NextGeneration` | src/lib.rs:117-142 | the next generation has the same width, height and cell count |
| `Rules.NextGenerationRule` | src/lib.rs:119-138 | in the next generation, cell (row, column) is alive if and only if it was alive with 2 or 3 live neighbours or dead with exactly 3 |
| `Rules.NextCellIsLocal` | src/lib.rs:117-142 | a cell's next state depends only on the current cells of its 3 x 3 window |
| `Rules.DeadGrid` | src/lib.rs:82-89 | the cleared grid has width * height cells, all dead |
| `Rules.DeadGridIsStill` | src/lib.rs:116-143 | a tick of an all-dead grid leaves it all dead |
| `Rules.Toggled` | src/lib.rs:91-94 | toggling keeps the dimensions and the cell count |
| `Rules.ToggledFlipsOne` | src/lib.rs:91-94 | toggling (row, column) flips that cell and leaves every other cell of the rectangle as it was |
| `Rules.ToggleTwice` | src/lib.rs:91-94 | toggling the same cell twice restores the grid |
| `Rules.MarkAlive` | src/lib.rs:183-188 | marking cells keeps the dimensions and the cell count |
| `Rules.MarkAliveCells` | src/lib.rs:183-188 | after `set_cells`, a cell is alive if and only if it was alive before or some listed coordinate names it |
| `Rules.MarkAliveIdempotent` | src/lib.rs:183-188 | marking the same list a second time changes nothing |
| `GameOfLife.Universe.constructor` | src/lib.rs:55-71 | a new universe has the given dimensions, and each cell holds its own random draw |
| `GameOfLife.Universe.Reset` | src/lib.rs:73-80 | every cell takes its own random draw, and the dimensions stay |
| `GameOfLife.Universe.Clear` | src/lib.rs:82-89 | the grid becomes all dead, and the dimensions stay |
| `GameOfLife.Universe.ToggleCell` | src/lib.rs:91-94 | the new grid is the old one with exactly the bit at `get_index(row, column)` flipped |
| `GameOfLife.Universe.SetWidth` | src/lib.rs:96-102 | the width becomes the argument, the height stays, and the new buffer has width * height cells, all dead |
| `GameOfLife.Universe.SetHeight` | src/lib.rs:104-110 | the height becomes the argument, the width stays, and the new buffer has width * height cells, all dead |
| `GameOfLife.Universe.SetCells` | src/lib.rs:183-188 | the new grid is the old one with every listed cell made alive, in list order |
| `GameOfLife.Universe.Width` | src/lib.rs:145-147 | the width times the height is the number of cells |
| `GameOfLife.Universe.Height` | src/lib.rs:149-151 | the width times the height is the number of cells |
| `GameOfLife.Universe.LiveNeighbourCount` | src/lib.rs:161-175 | the nested loop over the offset lists returns `LiveNeighbours` of the current grid, which is at most 8 |
| `GameOfLife.Universe.Tick` | src/lib.rs:116-143 | the dimensions stay, and the new cells are `NextGeneration` of the cells before the call, computed into a separate buffer that replaces them after the full pass |

## Left out

- The random source of `new` and `reset` (`js_sys::Math::random() < 0.5`) is a foreign call. The model takes the outcomes as a parameter, one boolean per cell in row-major order. `new`'s fixed 64 x 64 size becomes the constructor's `width` and `height`.
- `Display` / `render` are not modelled. They chunk the bit set's packed `u32` words (`as_slice()`), not its bits, so their output does not follow the grid cell by cell.
- `cells()` is not modelled: it returns a raw pointer into the bit set's words, which only exposes memory.
- `get_cells` is not modelled: it returns a read-only reference to the bit set, and `Model()` plays that part.
- The `Cell` enum is not modelled: the logic never uses it.
- The `log!` console output, the `wee_alloc` allocator, the panic hook and the `wasm_bindgen` glue are runtime plumbing, not behaviour.
- `u32` arithmetic: the model keeps `width` and `height` within `u32`, and `width * height` too, as part of the universe's invariant. Three overflows are not modelled:
  - `row + height - 1` inside `live_neighbour_count` (src/lib.rs:168) overflows for heights above 2^31.
  - `column + width - 1` (src/lib.rs:169) overflows for widths above 2^31, which `width * height <= U32_MAX` allows when the height is 1.
  - `row * width + column` in `get_index` (src/lib.rs:158) wraps modulo 2^32 in a release build. The wrapped index can land inside the buffer. For example, on a 64 x 64 universe `toggle_cell(2^26, 3)` wraps to index 3 and flips cell (0, 3) without a panic. `GameOfLife.Universe.ToggleCell` and `GameOfLife.Universe.SetCells` exclude those inputs: they require the unwrapped index to lie inside the buffer.
- Concrete patterns are not proved: the block still life and the blinker oscillator. They follow from `Rules.NextGenerationRule`, but evaluating them cell by cell is left out.
- The browser front end in testwww/index.js is not part of this model: canvas drawing, event handlers, and the animation loop.
