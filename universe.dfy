// The `Universe` of src/lib.rs: a width x height torus of cells kept as a
// row-major bit buffer and updated in place. Each method is proved against
// the pure definitions of module Rules.

module GameOfLife {
  import opened Rules

  class Universe {
    var width: nat
    var height: nat
    /** One bit per cell, row-major: true is alive. */
    var cells: array<bool>

    /** The dimensions are `u32` values, and the buffer holds one bit per cell and its size fits `u32` arithmetic. */
    ghost predicate Valid()
      reads this
    {
      width <= U32_MAX && height <= U32_MAX &&
      cells.Length == width * height && width * height <= U32_MAX
    }

    /** The universe as a value. */
    ghost function Model(): (g: Grid)
      reads this, cells
      requires Valid()
      ensures g.Wf()
    {
      Grid(width, height, cells[..])
    }

    /**
     * `new`: a `width` x `height` universe whose cells take the values of
     * `coins`, one random draw per cell in row-major order.
     */
    constructor (width: nat, height: nat, coins: seq<bool>)
      requires width <= U32_MAX && height <= U32_MAX
      requires width * height <= U32_MAX && |coins| == width * height
      ensures Valid() && fresh(cells)
      ensures Model() == Grid(width, height, coins)
    {
      var size := width * height;
      var bits := new bool[size];
      for i := 0 to size
        invariant bits[..i] == coins[..i]
      {
        bits[i] := coins[i];
      }
      assert bits[..] == bits[..size];
      this.width, this.height, this.cells := width, height, bits;
    }

    /** `reset`: every cell takes the value of its own random draw; the dimensions stay. */
    method Reset(coins: seq<bool>)
      requires Valid() && |coins| == width * height
      modifies cells
      ensures Valid()
      ensures Model() == Grid(width, height, coins)
    {
      var size := width * height;
      for i := 0 to size
        invariant cells[..i] == coins[..i]
      {
        cells[i] := coins[i];
      }
      assert cells[..] == cells[..size];
    }

    /** `clear`: every cell dies; the dimensions stay. */
    method Clear()
      requires Valid()
      modifies cells
      ensures Valid()
      ensures Model() == DeadGrid(width, height)
    {
      var size := width * height;
      for i := 0 to size
        invariant forall k | 0 <= k < i :: !cells[k]
      {
        cells[i] := false;
      }
      assert cells[..] == DeadGrid(width, height).cells;
    }

    /**
     * `toggle_cell`: flips the bit at `get_index(row, column)`. The code does
     * not check the bounds; an index past the buffer makes it panic.
     */
    method ToggleCell(row: nat, column: nat)
      requires Valid() && Index(width, row, column) < cells.Length
      modifies cells
      ensures Valid()
      ensures Model() == Toggled(old(Model()), row, column)
    {
      var idx := Index(width, row, column);
      cells[idx] := !cells[idx];
    }

    /** `set_width`: a destructive resize to `width` columns; every cell of the new grid is dead. */
    method SetWidth(width: nat)
      requires Valid() && width <= U32_MAX && width * height <= U32_MAX
      modifies this
      ensures Valid() && fresh(cells)
      ensures Model() == DeadGrid(width, old(height))
    {
      this.width := width;
      cells := new bool[this.width * height];
      var size := this.width * height;
      for i := 0 to size
        invariant this.width == width && height == old(height) && cells.Length == size && fresh(cells)
        invariant forall k | 0 <= k < i :: !cells[k]
      {
        cells[i] := false;
      }
      assert cells[..] == DeadGrid(width, height).cells;
    }

    /** `set_height`: a destructive resize to `height` rows; every cell of the new grid is dead. */
    method SetHeight(height: nat)
      requires Valid() && height <= U32_MAX && width * height <= U32_MAX
      modifies this
      ensures Valid() && fresh(cells)
      ensures Model() == DeadGrid(old(width), height)
    {
      this.height := height;
      cells := new bool[width * this.height];
      var size := width * this.height;
      for i := 0 to size
        invariant this.height == height && width == old(width) && cells.Length == size && fresh(cells)
        invariant forall k | 0 <= k < i :: !cells[k]
      {
        cells[i] := false;
      }
      assert cells[..] == DeadGrid(width, height).cells;
    }

    /** `set_cells`: makes each listed (row, column) alive, in list order. */
    method SetCells(coords: seq<(nat, nat)>)
      requires Valid() && InBuffer(Model(), coords)
      modifies cells
      ensures Valid()
      ensures Model() == MarkAlive(old(Model()), coords)
    {
      for k := 0 to |coords|
        invariant Model() == MarkAlive(old(Model()), coords[..k])
      {
        var (row, column) := coords[k];
        var idx := Index(width, row, column);
        cells[idx] := true;
        assert coords[..k + 1][..k] == coords[..k];
      }
      assert coords[..|coords|] == coords;
    }

    /** `width`: the number of columns; times the number of rows it is the number of cells. */
    function Width(): (w: nat)
      reads this
      requires Valid()
      ensures w * height == cells.Length
    {
      width
    }

    /** `height`: the number of rows; times the number of columns it is the number of cells. */
    function Height(): (h: nat)
      reads this
      requires Valid()
      ensures width * h == cells.Length
    {
      height
    }

    /** `live_neighbour_count`: the live cells among the offsets height - 1, 0, 1 by width - 1, 0, 1. */
    method LiveNeighbourCount(row: nat, column: nat) returns (count: nat)
      requires Valid() && row < height && column < width
      ensures count == LiveNeighbours(Model(), row, column)
      ensures count <= 8
    {
      ghost var g := Model();
      var rowDeltas, columnDeltas := Deltas(height), Deltas(width);
      count := 0;
      for i := 0 to |rowDeltas|
        invariant count == WindowCount(g, row, column, rowDeltas[..i], columnDeltas)
      {
        ghost var before := count;
        for j := 0 to |columnDeltas|
          invariant count == before + RowCount(g, row, column, rowDeltas[i], columnDeltas[..j])
        {
          var deltaRow, deltaColumn := rowDeltas[i], columnDeltas[j];
          ghost var counted := count;
          ghost var k := Contribution(g, row, column, deltaRow, deltaColumn);
          if !(deltaRow == 0 && deltaColumn == 0) {
            var neighbourRow := (row + deltaRow) % height;
            var neighbourColumn := (column + deltaColumn) % width;
            IndexInRange(width, height, neighbourRow, neighbourColumn);
            var idx := Index(width, neighbourRow, neighbourColumn);
            assert k == if cells[idx] then 1 else 0;
            count := count + if cells[idx] then 1 else 0;
          }
          assert count == counted + k;
          assert columnDeltas[..j + 1][..j] == columnDeltas[..j];
          assert RowCount(g, row, column, deltaRow, columnDeltas[..j + 1])
              == RowCount(g, row, column, deltaRow, columnDeltas[..j]) + k;
        }
        assert columnDeltas[..|columnDeltas|] == columnDeltas;
        assert rowDeltas[..i + 1][..i] == rowDeltas[..i];
      }
      assert rowDeltas[..|rowDeltas|] == rowDeltas;
      NeighbourCountBound(g, row, column);
    }

    /**
     * `tick`: advances one generation. Every next state is computed from the
     * current cells and written to a separate buffer `next`, which replaces
     * the cells only after the whole pass.
     */
    method Tick()
      requires Valid()
      modifies this
      ensures Valid() && fresh(cells)
      ensures width == old(width) && height == old(height)
      ensures Model() == NextGeneration(old(Model()))
    {
      ghost var g := Model();
      ghost var target := NextGeneration(g).cells;
      var next := new bool[cells.Length];
      forall i | 0 <= i < next.Length {
        next[i] := cells[i];
      }
      for row := 0 to height
        modifies next
        invariant Index(width, row, 0) <= next.Length == |target|
        invariant forall i | 0 <= i < Index(width, row, 0) :: next[i] == target[i]
      {
        ghost var rowStart := Index(width, row, 0);
        IndexPastRowEnd(width, row, 0);
        MulMonotone(row + 1, height, width);
        assert rowStart + width <= next.Length;
        for column := 0 to width
          modifies next
          invariant rowStart + column <= next.Length
          invariant forall i | 0 <= i < rowStart + column :: next[i] == target[i]
        {
          IndexInRange(width, height, row, column);
          var idx := Index(width, row, column);
          assert idx == rowStart + column;
          var cell := cells[idx];
          var liveNeighbours := LiveNeighbourCount(row, column);
          NextGenerationRule(g, row, column);
          assert NextState(cell, liveNeighbours) == target[idx];
          next[idx] := NextState(cell, liveNeighbours);
        }
      }
      assert Index(width, height, 0) == next.Length;
      cells := next;
      assert cells[..] == target;
    }
  }
}
