// Pure specification of the Game of Life universe in src/lib.rs: the
// row-major cell layout, the wrap-around neighbour count, the B3/S23
// transition rule and the value each in-place operation of the universe
// must leave behind.

module Rules {

  /** Largest value of the `u32` dimensions and indices. */
  const U32_MAX: nat := 0xFFFF_FFFF

  /** A snapshot of a universe: its dimensions and its cells in row-major order. */
  datatype Grid = Grid(width: nat, height: nat, cells: seq<bool>)
  {
    /** The cell buffer holds exactly one bit per cell. */
    predicate Wf()
    {
      |cells| == width * height
    }
  }

  // ---------------------------------------------------------------------
  // Row-major layout (`get_index`)
  // ---------------------------------------------------------------------

  /** Position of cell (row, column) in the bit buffer of a grid `width` cells wide. */
  function Index(width: nat, row: nat, column: nat): nat
  {
    row * width + column
  }

  lemma MulMonotone(a: int, b: int, c: nat)
    requires a <= b
    ensures a * c <= b * c
  {
    assert b * c - a * c == (b - a) * c;
  }

  lemma MulStep(a: int, b: int, c: nat)
    requires a < b
    ensures a * c + c <= b * c
  {
    MulMonotone(a + 1, b, c);
    assert (a + 1) * c == a * c + c;
  }

  /** Euclidean division has one quotient and one remainder. */
  lemma DivModUnique(y: int, n: nat, q: int, m: int)
    requires n > 0 && 0 <= m < n && y == q * n + m
    ensures y / n == q && y % n == m
  {
    var q', m' := y / n, y % n;
    assert y == q' * n + m';
    if q < q' {
      MulStep(q, q', n);
      assert false;
    } else if q' < q {
      MulStep(q', q, n);
      assert false;
    }
  }

  /** Every cell of the rectangle has its index inside the buffer. */
  lemma IndexInRange(width: nat, height: nat, row: nat, column: nat)
    requires row < height && column < width
    ensures Index(width, row, column) < width * height
  {
    MulMonotone(row + 1, height, width);
    assert (row + 1) * width == row * width + width;
  }

  /** Two cells of the rectangle with the same index are the same cell. */
  lemma IndexInjective(width: nat, r1: nat, c1: nat, r2: nat, c2: nat)
    requires c1 < width && c2 < width
    requires Index(width, r1, c1) == Index(width, r2, c2)
    ensures r1 == r2 && c1 == c2
  {
    if r1 != r2 {
      var lo, hi := if r1 < r2 then r1 else r2, if r1 < r2 then r2 else r1;
      MulStep(lo, hi, width);
      assert false;
    }
  }

  /** The index of a cell gives back its row and column by division. */
  lemma IndexDivMod(width: nat, row: nat, column: nat)
    requires column < width
    ensures Index(width, row, column) / width == row
    ensures Index(width, row, column) % width == column
  {
    DivModUnique(Index(width, row, column), width, row, column);
  }

  /** Every position of the buffer is the index of a cell of the rectangle. */
  lemma IndexCovers(width: nat, height: nat, i: nat)
    requires i < width * height
    ensures width > 0 && i / width < height && i % width < width
    ensures Index(width, i / width, i % width) == i
  {
    assert width > 0;
    var q, m := i / width, i % width;
    assert i == q * width + m;
    if q >= height {
      MulMonotone(height, q, width);
      assert false;
    }
  }

  /** A column one past the end of a row names the first cell of the next row. */
  lemma IndexPastRowEnd(width: nat, row: nat, column: nat)
    ensures Index(width, row, width + column) == Index(width, row + 1, column)
  {
    assert (row + 1) * width == row * width + width;
  }

  // ---------------------------------------------------------------------
  // Neighbour count (`live_neighbour_count`)
  // ---------------------------------------------------------------------

  /** Whether the cell at (row, column), each reduced modulo its dimension, is alive. */
  function AliveAt(g: Grid, row: int, column: int): bool
    requires g.Wf() && g.width > 0 && g.height > 0
  {
    var r, c := row % g.height, column % g.width;
    IndexInRange(g.width, g.height, r, c);
    g.cells[Index(g.width, r, c)]
  }

  /** 1 for a live cell, 0 for a dead one. */
  function Bit(alive: bool): nat
  {
    if alive then 1 else 0
  }

  /** The offsets the count tries along a dimension of size `n`, in its order: n - 1, 0, 1. */
  function Deltas(n: nat): (ds: seq<nat>)
    requires n > 0
    ensures |ds| == 3 && ds[1] == 0
  {
    [n - 1, 0, 1]
  }

  /** What the neighbour at offsets (dr, dc) adds to the count: nothing when both offsets are 0. */
  function Contribution(g: Grid, row: nat, column: nat, dr: nat, dc: nat): (k: nat)
    requires g.Wf() && row < g.height && column < g.width
    ensures k <= 1
    ensures dr == 0 && dc == 0 ==> k == 0
  {
    if dr == 0 && dc == 0 then 0
    else Bit(AliveAt(g, row + dr, column + dc))
  }

  /** The count over one row offset `dr` and the column offsets `dcs`. */
  function RowCount(g: Grid, row: nat, column: nat, dr: nat, dcs: seq<nat>): nat
    requires g.Wf() && row < g.height && column < g.width
  {
    if dcs == [] then 0
    else RowCount(g, row, column, dr, dcs[..|dcs| - 1]) + Contribution(g, row, column, dr, dcs[|dcs| - 1])
  }

  /** The count over every pair of a row offset in `drs` and a column offset in `dcs`. */
  function WindowCount(g: Grid, row: nat, column: nat, drs: seq<nat>, dcs: seq<nat>): nat
    requires g.Wf() && row < g.height && column < g.width
  {
    if drs == [] then 0
    else WindowCount(g, row, column, drs[..|drs| - 1], dcs) + RowCount(g, row, column, drs[|drs| - 1], dcs)
  }

  /** The number of live neighbours of (row, column), as `live_neighbour_count` counts them. */
  function LiveNeighbours(g: Grid, row: nat, column: nat): nat
    requires g.Wf() && row < g.height && column < g.width
  {
    WindowCount(g, row, column, Deltas(g.height), Deltas(g.width))
  }

  lemma {:induction false} RowCountBound(g: Grid, row: nat, column: nat, dr: nat, dcs: seq<nat>)
    requires g.Wf() && row < g.height && column < g.width
    ensures RowCount(g, row, column, dr, dcs) <= |dcs|
    decreases |dcs|
  {
    if dcs != [] {
      RowCountBound(g, row, column, dr, dcs[..|dcs| - 1]);
    }
  }

  /** A cell has at most eight live neighbours. */
  lemma NeighbourCountBound(g: Grid, row: nat, column: nat)
    requires g.Wf() && row < g.height && column < g.width
    ensures LiveNeighbours(g, row, column) <= 8
  {
    var drs, dcs := Deltas(g.height), Deltas(g.width);
    WindowSplit(g, row, column, drs, dcs);
    RowCountBound(g, row, column, drs[0], dcs);
    RowCountBound(g, row, column, drs[2], dcs);
    RowSplit(g, row, column, 0, dcs);
  }

  /** A window of three row offsets is the sum of its three rows. */
  lemma WindowSplit(g: Grid, row: nat, column: nat, drs: seq<nat>, dcs: seq<nat>)
    requires g.Wf() && row < g.height && column < g.width && |drs| == 3
    ensures WindowCount(g, row, column, drs, dcs)
            == RowCount(g, row, column, drs[0], dcs) + RowCount(g, row, column, drs[1], dcs) + RowCount(g, row, column, drs[2], dcs)
  {
    var w := WindowCount(g, row, column, drs, dcs);
    assert drs[..3] == drs;
    assert w == WindowCount(g, row, column, drs[..2], dcs) + RowCount(g, row, column, drs[2], dcs);
    assert drs[..2][..1] == drs[..1];
    assert WindowCount(g, row, column, drs[..2], dcs) == WindowCount(g, row, column, drs[..1], dcs) + RowCount(g, row, column, drs[1], dcs);
    assert drs[..1][..0] == [];
    assert WindowCount(g, row, column, drs[..1], dcs) == RowCount(g, row, column, drs[0], dcs);
  }

  /** A row of three column offsets is the sum of its three contributions. */
  lemma RowSplit(g: Grid, row: nat, column: nat, dr: nat, dcs: seq<nat>)
    requires g.Wf() && row < g.height && column < g.width && |dcs| == 3
    ensures RowCount(g, row, column, dr, dcs)
            == Contribution(g, row, column, dr, dcs[0]) + Contribution(g, row, column, dr, dcs[1]) + Contribution(g, row, column, dr, dcs[2])
  {
    assert dcs[..3] == dcs;
    assert RowCount(g, row, column, dr, dcs) == RowCount(g, row, column, dr, dcs[..2]) + Contribution(g, row, column, dr, dcs[2]);
    assert dcs[..2][..1] == dcs[..1];
    assert RowCount(g, row, column, dr, dcs[..2]) == RowCount(g, row, column, dr, dcs[..1]) + Contribution(g, row, column, dr, dcs[1]);
    assert dcs[..1][..0] == [];
    assert RowCount(g, row, column, dr, dcs[..1]) == Contribution(g, row, column, dr, dcs[0]);
  }

  // The reference definition: the eight cells around (row, column) on the torus.

  /** The number of live cells among the eight cells around (row, column) on the torus. */
  function TorusNeighbours(g: Grid, row: nat, column: nat): nat
    requires g.Wf() && row < g.height && column < g.width
  {
    Bit(AliveAt(g, row - 1, column - 1)) + Bit(AliveAt(g, row - 1, column)) + Bit(AliveAt(g, row - 1, column + 1))
    + Bit(AliveAt(g, row, column - 1)) + Bit(AliveAt(g, row, column + 1))
    + Bit(AliveAt(g, row + 1, column - 1)) + Bit(AliveAt(g, row + 1, column)) + Bit(AliveAt(g, row + 1, column + 1))
  }

  /** Adding the dimension does not move a position on the torus. */
  lemma ModShift(x: int, n: nat)
    requires n > 0
    ensures (x + n) % n == x % n
  {
    var q, m := x / n, x % n;
    assert x == q * n + m;
    assert x + n == (q + 1) * n + m;
    DivModUnique(x + n, n, q + 1, m);
  }

  /** An offset of n - 1 reaches the same cell as an offset of -1 (the wrap-around). */
  lemma WrapBackwards(g: Grid, row: int, column: int)
    requires g.Wf() && g.width > 0 && g.height > 0
    ensures AliveAt(g, row + (g.height - 1), column) == AliveAt(g, row - 1, column)
    ensures AliveAt(g, row, column + (g.width - 1)) == AliveAt(g, row, column - 1)
  {
    ModShift(row - 1, g.height);
    ModShift(column - 1, g.width);
  }

  /** One row of the window, on a grid at least two cells wide: the live cells left, above or below, and right. */
  lemma RowOnTorus(g: Grid, row: nat, column: nat, dr: nat)
    requires g.Wf() && row < g.height && column < g.width
    requires g.width >= 2
    ensures dr != 0 ==>
              RowCount(g, row, column, dr, Deltas(g.width))
              == Bit(AliveAt(g, row + dr, column - 1)) + Bit(AliveAt(g, row + dr, column)) + Bit(AliveAt(g, row + dr, column + 1))
    ensures dr == 0 ==>
              RowCount(g, row, column, dr, Deltas(g.width))
              == Bit(AliveAt(g, row, column - 1)) + Bit(AliveAt(g, row, column + 1))
  {
    RowSplit(g, row, column, dr, Deltas(g.width));
    WrapBackwards(g, row + dr, column);
  }

  /**
   * On a grid at least two cells wide and tall, `live_neighbour_count` is the
   * number of live cells among the eight torus neighbours.
   */
  lemma NeighboursOnTorus(g: Grid, row: nat, column: nat)
    requires g.Wf() && row < g.height && column < g.width
    requires g.width >= 2 && g.height >= 2
    ensures LiveNeighbours(g, row, column) == TorusNeighbours(g, row, column)
  {
    var h := g.height;
    WindowSplit(g, row, column, Deltas(h), Deltas(g.width));
    RowOnTorus(g, row, column, h - 1);
    RowOnTorus(g, row, column, 0);
    RowOnTorus(g, row, column, 1);
    WrapBackwards(g, row, column - 1);
    WrapBackwards(g, row, column);
    WrapBackwards(g, row, column + 1);
  }

  /** A live cell alone on a 1 x 1 grid: `live_neighbour_count` counts it five times as its own neighbour, the torus eight times. */
  lemma SingleCellCount()
    ensures LiveNeighbours(Grid(1, 1, [true]), 0, 0) == 5
    ensures TorusNeighbours(Grid(1, 1, [true]), 0, 0) == 8
  {
    var g := Grid(1, 1, [true]);
    WindowSplit(g, 0, 0, Deltas(1), Deltas(1));
    RowSplit(g, 0, 0, 0, Deltas(1));
    RowSplit(g, 0, 0, 1, Deltas(1));
  }

  /** On a 3 x 3 grid whose only live cell is (0, 0), the opposite corner (2, 2) has that cell as its one live neighbour. */
  lemma CornerWrapExample()
    ensures LiveNeighbours(Grid(3, 3, [true, false, false, false, false, false, false, false, false]), 2, 2) == 1
  {
    var g := Grid(3, 3, [true, false, false, false, false, false, false, false, false]);
    DivModUnique(2, 3, 0, 2);
    DivModUnique(3, 3, 1, 0);
    DivModUnique(4, 3, 1, 1);
    var ds := Deltas(3);
    WindowSplit(g, 2, 2, ds, ds);
    RowSplit(g, 2, 2, 2, ds);
    RowSplit(g, 2, 2, 0, ds);
    RowSplit(g, 2, 2, 1, ds);
    assert AliveAt(g, 3, 3);
    assert !AliveAt(g, 4, 4) && !AliveAt(g, 4, 2) && !AliveAt(g, 4, 3);
    assert !AliveAt(g, 2, 4) && !AliveAt(g, 2, 3);
    assert !AliveAt(g, 3, 4) && !AliveAt(g, 3, 2);
  }

  /** Grids `g1` and `g2` agree on the nine cells around (row, column). */
  predicate AgreeAround(g1: Grid, g2: Grid, row: nat, column: nat)
    requires g1.Wf() && g2.Wf() && g1.width == g2.width && g1.height == g2.height
    requires row < g1.height && column < g1.width
  {
    forall x: int, y: int | row - 1 <= x <= row + 1 && column - 1 <= y <= column + 1 :: AliveAt(g1, x, y) == AliveAt(g2, x, y)
  }

  /** The position reached by an offset of the count, as an offset of -1, 0 or 1. */
  function Signed(d: nat): int
  {
    if d == 0 then 0 else if d == 1 then 1 else -1
  }

  /** Each offset the count tries reaches a cell of the 3 x 3 window around (row, column). */
  lemma ContributionInWindow(g: Grid, row: nat, column: nat, dr: nat, dc: nat)
    requires g.Wf() && row < g.height && column < g.width
    requires dr in Deltas(g.height) && dc in Deltas(g.width)
    ensures AliveAt(g, row + dr, column + dc) == AliveAt(g, row + Signed(dr), column + Signed(dc))
  {
    if dr != 0 && dr != 1 {
      WrapBackwards(g, row, column + dc);
    }
    if dc != 0 && dc != 1 {
      WrapBackwards(g, row + Signed(dr), column);
    }
  }

  /** The count of (row, column) depends on nothing but the nine cells around it. */
  lemma NeighboursAreLocal(g1: Grid, g2: Grid, row: nat, column: nat)
    requires g1.Wf() && g2.Wf() && g1.width == g2.width && g1.height == g2.height
    requires row < g1.height && column < g1.width
    requires AgreeAround(g1, g2, row, column)
    ensures LiveNeighbours(g1, row, column) == LiveNeighbours(g2, row, column)
  {
    var drs, dcs := Deltas(g1.height), Deltas(g1.width);
    forall dr, dc | dr in drs && dc in dcs
      ensures Contribution(g1, row, column, dr, dc) == Contribution(g2, row, column, dr, dc)
    {
      ContributionInWindow(g1, row, column, dr, dc);
      ContributionInWindow(g2, row, column, dr, dc);
      assert AliveAt(g1, row + Signed(dr), column + Signed(dc)) == AliveAt(g2, row + Signed(dr), column + Signed(dc));
    }
    WindowSplit(g1, row, column, drs, dcs);
    WindowSplit(g2, row, column, drs, dcs);
    forall dr | dr in drs
      ensures RowCount(g1, row, column, dr, dcs) == RowCount(g2, row, column, dr, dcs)
    {
      RowSplit(g1, row, column, dr, dcs);
      RowSplit(g2, row, column, dr, dcs);
    }
  }

  // ---------------------------------------------------------------------
  // Transition rule and the next generation (`tick`)
  // ---------------------------------------------------------------------

  /** The next state of a cell that is `alive` now and has `n` live neighbours, by the match in `tick`. */
  function NextState(alive: bool, n: nat): (next: bool)
    ensures next <==> (alive && (n == 2 || n == 3)) || (!alive && n == 3)
  {
    if alive && n < 2 then false        // underpopulation
    else if alive && (n == 2 || n == 3) then true
    else if alive && n > 3 then false   // overpopulation
    else if !alive && n == 3 then true  // birth
    else alive
  }

  /** The next state of cell (row, column) of `g`. */
  function NextCell(g: Grid, row: nat, column: nat): bool
    requires g.Wf() && row < g.height && column < g.width
  {
    IndexInRange(g.width, g.height, row, column);
    NextState(g.cells[Index(g.width, row, column)], LiveNeighbours(g, row, column))
  }

  /** The next state of the cell stored at position `i` of the buffer. */
  function NextAt(g: Grid, i: nat): bool
    requires g.Wf() && i < |g.cells|
  {
    IndexCovers(g.width, g.height, i);
    NextCell(g, i / g.width, i % g.width)
  }

  /** The generation after `g`: every cell updated from `g` alone. */
  function NextGeneration(g: Grid): (next: Grid)
    requires g.Wf()
    ensures next.Wf() && next.width == g.width && next.height == g.height
  {
    Grid(g.width, g.height, seq(|g.cells|, i requires 0 <= i < |g.cells| => NextAt(g, i)))
  }

  /**
   * In the next generation a cell is alive exactly when it was alive with two
   * or three live neighbours, or dead with exactly three.
   */
  lemma NextGenerationRule(g: Grid, row: nat, column: nat)
    requires g.Wf() && row < g.height && column < g.width
    ensures Index(g.width, row, column) < |NextGeneration(g).cells|
    ensures NextGeneration(g).cells[Index(g.width, row, column)] == NextCell(g, row, column)
    ensures var alive, n := g.cells[Index(g.width, row, column)], LiveNeighbours(g, row, column);
            NextGeneration(g).cells[Index(g.width, row, column)] <==> (alive && (n == 2 || n == 3)) || (!alive && n == 3)
  {
    IndexInRange(g.width, g.height, row, column);
    IndexDivMod(g.width, row, column);
  }

  /** Two grids that agree around a cell give it the same next state. */
  lemma NextCellIsLocal(g1: Grid, g2: Grid, row: nat, column: nat)
    requires g1.Wf() && g2.Wf() && g1.width == g2.width && g1.height == g2.height
    requires row < g1.height && column < g1.width
    requires AgreeAround(g1, g2, row, column)
    ensures NextCell(g1, row, column) == NextCell(g2, row, column)
  {
    NeighboursAreLocal(g1, g2, row, column);
    DivModUnique(row, g1.height, 0, row);
    DivModUnique(column, g1.width, 0, column);
    assert AliveAt(g1, row, column) == AliveAt(g2, row, column);
  }

  // ---------------------------------------------------------------------
  // Values left by the editing operations
  // ---------------------------------------------------------------------

  /** A `width` x `height` grid with every cell dead (`clear`, `set_width`, `set_height`). */
  function DeadGrid(width: nat, height: nat): (g: Grid)
    ensures g.Wf() && g.width == width && g.height == height
    ensures forall i | 0 <= i < |g.cells| :: !g.cells[i]
  {
    Grid(width, height, seq(width * height, _ => false))
  }

  /** No cell of a dead grid has a live neighbour. */
  lemma DeadGridNeighbours(width: nat, height: nat, row: nat, column: nat)
    requires row < height && column < width
    ensures LiveNeighbours(DeadGrid(width, height), row, column) == 0
  {
    var g := DeadGrid(width, height);
    var drs, dcs := Deltas(height), Deltas(width);
    forall x: int, y: int ensures !AliveAt(g, x, y) {
      IndexInRange(width, height, x % height, y % width);
    }
    WindowSplit(g, row, column, drs, dcs);
    RowSplit(g, row, column, drs[0], dcs);
    RowSplit(g, row, column, drs[1], dcs);
    RowSplit(g, row, column, drs[2], dcs);
  }

  /** A dead grid stays dead. */
  lemma DeadGridIsStill(width: nat, height: nat)
    ensures NextGeneration(DeadGrid(width, height)) == DeadGrid(width, height)
  {
    var g := DeadGrid(width, height);
    var next := NextGeneration(g);
    forall i | 0 <= i < |g.cells|
      ensures !next.cells[i]
    {
      IndexCovers(width, height, i);
      DeadGridNeighbours(width, height, i / width, i % width);
    }
    assert next.cells == g.cells;
  }

  /** `g` with the cell at (row, column) flipped (`toggle_cell`). */
  function Toggled(g: Grid, row: nat, column: nat): (t: Grid)
    requires g.Wf() && Index(g.width, row, column) < |g.cells|
    ensures t.Wf() && t.width == g.width && t.height == g.height
  {
    var i := Index(g.width, row, column);
    g.(cells := g.cells[i := !g.cells[i]])
  }

  /** Toggling flips cell (row, column) and no other cell of the rectangle. */
  lemma ToggledFlipsOne(g: Grid, row: nat, column: nat, r: nat, c: nat)
    requires g.Wf() && row < g.height && column < g.width
    requires r < g.height && c < g.width
    ensures Index(g.width, row, column) < |g.cells| && Index(g.width, r, c) < |g.cells|
    ensures Toggled(g, row, column).cells[Index(g.width, r, c)]
            == if r == row && c == column then !g.cells[Index(g.width, r, c)] else g.cells[Index(g.width, r, c)]
  {
    IndexInRange(g.width, g.height, row, column);
    IndexInRange(g.width, g.height, r, c);
    if Index(g.width, r, c) == Index(g.width, row, column) {
      IndexInjective(g.width, r, c, row, column);
    }
  }

  /** Toggling the same cell twice restores the grid. */
  lemma ToggleTwice(g: Grid, row: nat, column: nat)
    requires g.Wf() && Index(g.width, row, column) < |g.cells|
    ensures Toggled(Toggled(g, row, column), row, column) == g
  {
  }

  /** Every listed coordinate names a position inside the buffer. */
  predicate InBuffer(g: Grid, coords: seq<(nat, nat)>)
  {
    forall k | 0 <= k < |coords| :: Index(g.width, coords[k].0, coords[k].1) < |g.cells|
  }

  /** `g` with every listed cell made alive, one after the other (`set_cells`). */
  function MarkAlive(g: Grid, coords: seq<(nat, nat)>): (m: Grid)
    requires g.Wf() && InBuffer(g, coords)
    ensures m.Wf() && m.width == g.width && m.height == g.height
    decreases |coords|
  {
    if coords == [] then g
    else
      var last := coords[|coords| - 1];
      var h := MarkAlive(g, coords[..|coords| - 1]);
      h.(cells := h.cells[Index(g.width, last.0, last.1) := true])
  }

  /** Some listed coordinate names position `i` of a grid `width` cells wide. */
  predicate Listed(width: nat, coords: seq<(nat, nat)>, i: nat)
  {
    exists k | 0 <= k < |coords| :: Index(width, coords[k].0, coords[k].1) == i
  }

  /** A cell is alive after `MarkAlive` exactly when it was alive before or is listed. */
  lemma {:induction false} MarkAliveCells(g: Grid, coords: seq<(nat, nat)>, i: nat)
    requires g.Wf() && InBuffer(g, coords) && i < |g.cells|
    ensures MarkAlive(g, coords).cells[i]
            <==> g.cells[i] || Listed(g.width, coords, i)
    decreases |coords|
  {
    if coords != [] {
      var n := |coords| - 1;
      var init := coords[..n];
      MarkAliveCells(g, init, i);
      if Listed(g.width, init, i) {
        var k :| 0 <= k < |init| && Index(g.width, init[k].0, init[k].1) == i;
        assert coords[k] == init[k];
      }
      if Index(g.width, coords[n].0, coords[n].1) == i {
        assert Listed(g.width, coords, i);
      }
      if Listed(g.width, coords, i) && !Listed(g.width, init, i) {
        var k :| 0 <= k < |coords| && Index(g.width, coords[k].0, coords[k].1) == i;
        assert k == n;
      }
    }
  }

  /** Marking the same cells a second time changes nothing. */
  lemma MarkAliveIdempotent(g: Grid, coords: seq<(nat, nat)>)
    requires g.Wf() && InBuffer(g, coords)
    ensures InBuffer(MarkAlive(g, coords), coords)
    ensures MarkAlive(MarkAlive(g, coords), coords) == MarkAlive(g, coords)
  {
    var m := MarkAlive(g, coords);
    var mm := MarkAlive(m, coords);
    forall i | 0 <= i < |m.cells|
      ensures mm.cells[i] == m.cells[i]
    {
      MarkAliveCells(m, coords, i);
      MarkAliveCells(g, coords, i);
    }
  }
}
