/** The grid of the simulation as a mutable object: two flat row-major
    buffers of the same size, `state` holding the current generation and
    `stateBuffer` the scratch space the next one is written into, plus the
    live-cell counter `alive`. */
module LifeGrid {
  import opened Life

  class Grid {
    const width: nat
    const height: nat
    var state: array<bool>
    var stateBuffer: array<bool>
    var alive: nat

    /** Both buffers hold one entry per cell and are distinct arrays. */
    ghost predicate Valid()
      reads this
    {
      state.Length == width * height && stateBuffer.Length == width * height
      && state != stateBuffer
    }

    /** Allocates both buffers; their contents and `alive` carry no meaning
        until one of the init methods runs. */
    constructor (width: nat, height: nat)
      ensures Valid() && fresh(state) && fresh(stateBuffer)
      ensures this.width == width && this.height == height
    {
      this.width := width;
      this.height := height;
      state := new bool[width * height];
      stateBuffer := new bool[width * height];
    }

    /** Exchanges the roles of the two buffers without copying. */
    method SwapBuffers()
      requires Valid()
      modifies this
      ensures Valid()
      ensures state == old(stateBuffer) && stateBuffer == old(state) && alive == old(alive)
    {
      state, stateBuffer := stateBuffer, state;
    }

    /** Mirrors `state` into `stateBuffer`, cell by cell in raster order. */
    method CopyBuffer()
      requires Valid()
      modifies stateBuffer
      ensures stateBuffer[..] == state[..]
    {
      for y := 0 to height
        invariant width * y <= width * height
        invariant forall i | 0 <= i < width * y :: stateBuffer[i] == state[i]
      {
        RowStep(y);
        for x := 0 to width
          invariant forall i | 0 <= i < width * y + x :: stateBuffer[i] == state[i]
        {
          var idx := Index(width, height, x, y);
          stateBuffer[idx] := state[idx];
        }
      }
    }

    /** Clears every cell of both buffers. The counter `alive` is left as it was. */
    method InitEmpty()
      requires Valid()
      modifies state, stateBuffer
      ensures state[..] == Dead(width * height) && stateBuffer[..] == Dead(width * height)
    {
      for y := 0 to height
        invariant width * y <= width * height
        invariant forall i | 0 <= i < width * y :: !state[i]
      {
        RowStep(y);
        for x := 0 to width
          invariant forall i | 0 <= i < width * y + x :: !state[i]
        {
          var idx := Index(width, height, x, y);
          state[idx] := false;
        }
      }
      assert state[..] == Dead(width * height);
      CopyBuffer();
    }

    /** Fills the grid with the given cell values (standing for one random bit
        per cell) and mirrors them into `stateBuffer`. The counter `alive` is
        left as it was. */
    method InitRandom(bits: seq<bool>)
      requires Valid() && |bits| == width * height
      modifies state, stateBuffer
      ensures state[..] == bits && stateBuffer[..] == bits
    {
      for y := 0 to height
        invariant width * y <= width * height
        invariant forall i | 0 <= i < width * y :: state[i] == bits[i]
      {
        RowStep(y);
        for x := 0 to width
          invariant forall i | 0 <= i < width * y + x :: state[i] == bits[i]
        {
          var idx := Index(width, height, x, y);
          state[idx] := bits[idx];
        }
      }
      CopyBuffer();
    }

    /** Counts the live Moore neighbours of (x, y) in `state`, off-grid ones as dead. */
    method CountCellNeighbours(x: int, y: int) returns (count: nat)
      requires Valid()
      ensures count == NeighbourCount(state[..], width, height, x, y)
    {
      count := 0;
      for n := 0 to |NEIGHBOURS|
        invariant count == LiveNeighboursUpTo(state[..], width, height, x, y, n)
      {
        var idx := Index(width, height, x + NEIGHBOURS[n].0, y + NEIGHBOURS[n].1);
        if idx != -1 && state[idx] {
          count := count + 1;
        }
      }
    }

    /** The B3/S23 successor of cell (x, y) of the current generation. */
    method NextCellState(x: int, y: int) returns (next: bool)
      requires Valid() && InGrid(width, height, x, y)
      ensures next == NextCell(state[..], width, height, x, y)
    {
      var neighbours := CountCellNeighbours(x, y);
      var idx := Index(width, height, x, y);
      if state[idx] {
        next := neighbours == 2 || neighbours == 3;
      } else {
        next := neighbours == 3;
      }
    }

    /** Advances one generation: writes every next cell into `stateBuffer`
        while reading only `state`, recounts `alive`, then swaps the buffers. */
    method UpdateGrid()
      requires Valid()
      modifies this, stateBuffer
      ensures Valid()
      ensures state == old(stateBuffer) && stateBuffer == old(state)
      ensures state[..] == NextGeneration(old(state[..]), width, height)
      ensures stateBuffer[..] == old(state[..])
      ensures alive == CountTrue(state[..])
    {
      ghost var next := NextGeneration(state[..], width, height);
      alive := 0;
      for y := 0 to height
        invariant state == old(state) && stateBuffer == old(stateBuffer)
        invariant width * y <= width * height
        invariant forall i | 0 <= i < width * y :: stateBuffer[i] == next[i]
        invariant alive == CountTrue(next[..width * y])
      {
        RowStep(y);
        forall x | 0 <= x < width
          ensures next[width * y + x] == NextCell(state[..], width, height, x, y)
        {
          NextGenerationAt(state[..], width, height, x, y);
        }
        UpdateRow(y, width * y, next);
      }
      assert stateBuffer[..] == next;
      assert next[..width * height] == next;
      SwapBuffers();
    }

    /** One pass of the inner loop of UpdateGrid: writes row y, which starts
        at position `row`, of the next generation into `stateBuffer` and adds
        its live cells to `alive`. */
    method UpdateRow(y: nat, ghost row: nat, ghost next: seq<bool>)
      requires Valid() && y < height && row == width * y && row + width <= width * height
      requires |next| == width * height
      requires forall x | 0 <= x < width :: next[row + x] == NextCell(state[..], width, height, x, y)
      requires forall i | 0 <= i < row :: stateBuffer[i] == next[i]
      requires alive == CountTrue(next[..row])
      modifies this`alive, stateBuffer
      ensures forall i | 0 <= i < row + width :: stateBuffer[i] == next[i]
      ensures alive == CountTrue(next[..row + width])
    {
      for x := 0 to width
        invariant forall i | 0 <= i < row + x :: stateBuffer[i] == next[i]
        invariant alive == CountTrue(next[..row + x])
      {
        var idx := Index(width, height, x, y);
        var cell := NextCellState(x, y);
        assert idx == row + x && cell == next[idx];
        stateBuffer[idx] := cell;
        CountTruePrefix(next, row + x);
        alive := alive + if cell then 1 else 0;
      }
    }

    /** The current state of cell (x, y), which must lie on the grid. */
    method GetCell(x: int, y: int) returns (cell: bool)
      requires Valid() && InGrid(width, height, x, y)
      ensures cell == CellAt(state[..], width, height, x, y)
    {
      var idx := Index(width, height, x, y);
      cell := state[idx];
    }

    /** Sets cell (x, y) of the current generation; a point off the grid is ignored. */
    method SetCell(x: int, y: int, v: bool)
      requires Valid()
      modifies state
      ensures state[..] == WithCell(old(state[..]), width, height, x, y, v)
      ensures stateBuffer[..] == old(stateBuffer[..])
    {
      var idx := Index(width, height, x, y);
      if idx == -1 {
        return;
      }
      state[idx] := v;
    }

    /** Row y + 1 starts right after row y and the rows fit in the buffers. */
    lemma RowStep(y: nat)
      requires y < height
      ensures width * (y + 1) == width * y + width <= width * height
    {
      MulMonotone(width, y + 1, height);
    }
  }

  /** Counting a prefix one entry longer adds that entry. */
  lemma CountTruePrefix(s: seq<bool>, i: nat)
    requires i < |s|
    ensures CountTrue(s[..i + 1]) == CountTrue(s[..i]) + if s[i] then 1 else 0
  {
    assert s[..i + 1][..i] == s[..i];
  }
}
