/** The value-level part of the simulation: row-major addressing of the
    grid, the Moore neighbourhood with dead borders, the B3/S23 rule and the
    generation that follows a snapshot. A snapshot is the flat row-major
    sequence of a `width` x `height` grid's cells. */
module Life {

  /** Offsets of the eight Moore neighbours, in the order the source scans them. */
  const NEIGHBOURS: seq<(int, int)> :=
    [(-1, -1), (0, -1), (1, -1),
     (-1,  0),          (1,  0),
     (-1,  1), (0,  1), (1,  1)]

  predicate InGrid(width: nat, height: nat, x: int, y: int)
  {
    0 <= x < width && 0 <= y < height
  }

  /** Row-major position of (x, y) in a `width` x `height` grid, or -1 when
      the point is off the grid. */
  function Index(width: nat, height: nat, x: int, y: int): (r: int)
    ensures r == -1 <==> !InGrid(width, height, x, y)
    ensures r != -1 ==> 0 <= r < width * height
  {
    if x < 0 || x >= width || y < 0 || y >= height then -1
    else
      RowMajorBound(width, height, x, y);
      width * y + x
  }

  lemma RowMajorBound(width: nat, height: nat, x: int, y: int)
    requires InGrid(width, height, x, y)
    ensures 0 <= width * y + x < width * height
  {
    assert width * (y + 1) == width * y + width;
    MulMonotone(width, y + 1, height);
  }

  /** The coordinates of a cell are read back from its position: column by
      remainder, row by quotient. */
  lemma IndexInverse(width: nat, height: nat, x: int, y: int)
    requires InGrid(width, height, x, y)
    ensures Index(width, height, x, y) % width == x && Index(width, height, x, y) / width == y
  {
    DivModUnique(width, width * y + x, y, x);
  }

  lemma MulMonotone(a: nat, b: nat, c: nat)
    requires b <= c
    ensures a * b <= a * c
  {
    assert a * c == a * b + a * (c - b);
  }

  /** The quotient and remainder of n by d are the only q, r with n == d*q + r, 0 <= r < d. */
  lemma DivModUnique(d: int, n: int, q: int, r: int)
    requires 0 <= r < d && n == d * q + r
    ensures n / d == q && n % d == r
  {
    var q', r' := n / d, n % d;
    assert d * (q - q') == r' - r;
    if q > q' {
      MulMonotone(d, 1, q - q');
    } else if q < q' {
      MulMonotone(d, 1, q' - q);
    }
  }

  /** Every position of a snapshot is the row-major position of a cell. */
  lemma FlatToGrid(width: nat, height: nat, i: int)
    requires 0 <= i < width * height
    ensures InGrid(width, height, i % width, i / width)
    ensures Index(width, height, i % width, i / width) == i
  {
    assert width != 0;
    var q, r := i / width, i % width;
    assert i == width * q + r;
    if q >= height {
      MulMonotone(width, height, q);
    }
  }

  /** Distinct cells of the grid have distinct row-major positions. */
  lemma IndexInjective(width: nat, height: nat, x1: int, y1: int, x2: int, y2: int)
    requires InGrid(width, height, x1, y1) && InGrid(width, height, x2, y2)
    requires Index(width, height, x1, y1) == Index(width, height, x2, y2)
    ensures x1 == x2 && y1 == y2
  {
    IndexInverse(width, height, x1, y1);
    IndexInverse(width, height, x2, y2);
  }

  /** Whether (x, y) holds a live cell of snapshot s; points off the grid are dead. */
  function CellAt(s: seq<bool>, width: nat, height: nat, x: int, y: int): bool
    requires |s| == width * height
  {
    var i := Index(width, height, x, y);
    i != -1 && s[i]
  }

  /** The number of the first k Moore neighbours of (x, y), in scan order, that are live. */
  function LiveNeighboursUpTo(s: seq<bool>, width: nat, height: nat, x: int, y: int, k: nat): (r: nat)
    requires |s| == width * height && k <= |NEIGHBOURS|
    ensures r <= k
  {
    if k == 0 then 0
    else
      var (dx, dy) := NEIGHBOURS[k - 1];
      LiveNeighboursUpTo(s, width, height, x, y, k - 1)
        + (if CellAt(s, width, height, x + dx, y + dy) then 1 else 0)
  }

  /** The number of live Moore neighbours of (x, y); off-grid neighbours count as dead. */
  function NeighbourCount(s: seq<bool>, width: nat, height: nat, x: int, y: int): (r: nat)
    requires |s| == width * height
    ensures r <= 8
  {
    LiveNeighboursUpTo(s, width, height, x, y, |NEIGHBOURS|)
  }

  /** Reference definition: the live cells of the 3x3 box around (x, y), other than (x, y) itself. */
  ghost function LiveNeighbours(s: seq<bool>, width: nat, height: nat, x: int, y: int): set<(int, int)>
    requires |s| == width * height
  {
    set a: int, b: int | x - 1 <= a <= x + 1 && y - 1 <= b <= y + 1 && (a, b) != (x, y)
                         && CellAt(s, width, height, a, b) :: (a, b)
  }

  /** The live cells that the scan has met after its first k offsets. */
  ghost function ScannedLive(s: seq<bool>, width: nat, height: nat, x: int, y: int, k: nat): set<(int, int)>
    requires |s| == width * height && k <= |NEIGHBOURS|
  {
    set j | 0 <= j < k && CellAt(s, width, height, x + NEIGHBOURS[j].0, y + NEIGHBOURS[j].1)
      :: (x + NEIGHBOURS[j].0, y + NEIGHBOURS[j].1)
  }

  lemma {:induction false} ScannedLiveCount(s: seq<bool>, width: nat, height: nat, x: int, y: int, k: nat)
    requires |s| == width * height && k <= |NEIGHBOURS|
    ensures LiveNeighboursUpTo(s, width, height, x, y, k) == |ScannedLive(s, width, height, x, y, k)|
  {
    if k > 0 {
      ScannedLiveCount(s, width, height, x, y, k - 1);
      ScannedLiveStep(s, width, height, x, y, k);
    }
  }

  /** One more offset adds its cell to the scanned set when that cell is live, and it was not there yet. */
  lemma ScannedLiveStep(s: seq<bool>, width: nat, height: nat, x: int, y: int, k: nat)
    requires |s| == width * height && 0 < k <= |NEIGHBOURS|
    ensures var p := (x + NEIGHBOURS[k - 1].0, y + NEIGHBOURS[k - 1].1);
            var before := ScannedLive(s, width, height, x, y, k - 1);
            p !in before &&
            ScannedLive(s, width, height, x, y, k)
              == if CellAt(s, width, height, p.0, p.1) then before + {p} else before
  {
    var p := (x + NEIGHBOURS[k - 1].0, y + NEIGHBOURS[k - 1].1);
    var before := ScannedLive(s, width, height, x, y, k - 1);
    forall j | 0 <= j < k - 1 ensures (x + NEIGHBOURS[j].0, y + NEIGHBOURS[j].1) != p {
      OffsetPositionInverse(j);
      OffsetPositionInverse(k - 1);
    }
  }

  /** The scan over NEIGHBOURS counts exactly the live cells of the Moore neighbourhood:
      each of the eight surrounding cells once, the cell itself never, and nothing off the grid. */
  lemma NeighbourCountIsLiveNeighbours(s: seq<bool>, width: nat, height: nat, x: int, y: int)
    requires |s| == width * height
    ensures NeighbourCount(s, width, height, x, y) == |LiveNeighbours(s, width, height, x, y)|
  {
    ScannedLiveCount(s, width, height, x, y, |NEIGHBOURS|);
    ScannedLiveIsBox(s, width, height, x, y);
  }

  lemma ScannedLiveIsBox(s: seq<bool>, width: nat, height: nat, x: int, y: int)
    requires |s| == width * height
    ensures ScannedLive(s, width, height, x, y, |NEIGHBOURS|) == LiveNeighbours(s, width, height, x, y)
  {
    BoxInScanned(s, width, height, x, y);
    ScannedInBox(s, width, height, x, y);
  }

  lemma BoxInScanned(s: seq<bool>, width: nat, height: nat, x: int, y: int)
    requires |s| == width * height
    ensures LiveNeighbours(s, width, height, x, y) <= ScannedLive(s, width, height, x, y, |NEIGHBOURS|)
  {
    forall p | p in LiveNeighbours(s, width, height, x, y)
      ensures p in ScannedLive(s, width, height, x, y, |NEIGHBOURS|)
    {
      var j := OffsetPosition(p.0 - x, p.1 - y);
      assert p == (x + NEIGHBOURS[j].0, y + NEIGHBOURS[j].1);
    }
  }

  lemma ScannedInBox(s: seq<bool>, width: nat, height: nat, x: int, y: int)
    requires |s| == width * height
    ensures ScannedLive(s, width, height, x, y, |NEIGHBOURS|) <= LiveNeighbours(s, width, height, x, y)
  {
    forall p | p in ScannedLive(s, width, height, x, y, |NEIGHBOURS|)
      ensures p in LiveNeighbours(s, width, height, x, y)
    {
      var j :| 0 <= j < |NEIGHBOURS| && CellAt(s, width, height, x + NEIGHBOURS[j].0, y + NEIGHBOURS[j].1)
               && p == (x + NEIGHBOURS[j].0, y + NEIGHBOURS[j].1);
      OffsetPositionInverse(j);
    }
  }

  /** Where a non-zero offset of the 3x3 box appears in NEIGHBOURS. */
  function OffsetPosition(dx: int, dy: int): (j: nat)
    requires -1 <= dx <= 1 && -1 <= dy <= 1 && (dx, dy) != (0, 0)
    ensures j < |NEIGHBOURS| && NEIGHBOURS[j] == (dx, dy)
  {
    if dy == -1 then dx + 1
    else if dy == 0 then (if dx == -1 then 3 else 4)
    else dx + 6
  }

  lemma OffsetPositionInverse(j: nat)
    requires j < |NEIGHBOURS|
    ensures OffsetPosition(NEIGHBOURS[j].0, NEIGHBOURS[j].1) == j
  {
    if j == 0 {} else if j == 1 {} else if j == 2 {} else if j == 3 {}
    else if j == 4 {} else if j == 5 {} else if j == 6 {} else {}
  }

  /** Conway's rule B3/S23: a live cell survives with two or three live
      neighbours, a dead cell is born with exactly three. */
  function Rule(alive: bool, neighbours: nat): (r: bool)
    ensures r <==> neighbours == 3 || (alive && neighbours == 2)
  {
    if alive then neighbours == 2 || neighbours == 3
    else neighbours == 3
  }

  /** The state of cell (x, y) in the generation after s. */
  function NextCell(s: seq<bool>, width: nat, height: nat, x: int, y: int): bool
    requires |s| == width * height
  {
    Rule(CellAt(s, width, height, x, y), NeighbourCount(s, width, height, x, y))
  }

  function NextAt(s: seq<bool>, width: nat, height: nat, i: int): bool
    requires |s| == width * height && 0 <= i < width * height
  {
    FlatToGrid(width, height, i);
    NextCell(s, width, height, i % width, i / width)
  }

  /** The generation after snapshot s. */
  function NextGeneration(s: seq<bool>, width: nat, height: nat): (r: seq<bool>)
    requires |s| == width * height
    ensures |r| == |s|
  {
    NextCells(s, width, height, width * height)
  }

  /** The first n cells, in raster order, of the generation after s. */
  function NextCells(s: seq<bool>, width: nat, height: nat, n: nat): (r: seq<bool>)
    requires |s| == width * height && n <= width * height
    ensures |r| == n
  {
    if n == 0 then [] else NextCells(s, width, height, n - 1) + [NextAt(s, width, height, n - 1)]
  }

  lemma {:induction false} NextCellsAt(s: seq<bool>, width: nat, height: nat, n: nat, i: nat)
    requires |s| == width * height && i < n <= width * height
    ensures NextCells(s, width, height, n)[i] == NextAt(s, width, height, i)
  {
    if i < n - 1 {
      NextCellsAt(s, width, height, n - 1, i);
    }
  }

  /** Snapshot consistency: every cell of the next generation is the rule
      applied to that cell and its neighbours in the same old snapshot. */
  lemma NextGenerationAt(s: seq<bool>, width: nat, height: nat, x: int, y: int)
    requires |s| == width * height && InGrid(width, height, x, y)
    ensures NextGeneration(s, width, height)[Index(width, height, x, y)]
            == Rule(CellAt(s, width, height, x, y), NeighbourCount(s, width, height, x, y))
  {
    IndexInverse(width, height, x, y);
    NextCellsAt(s, width, height, width * height, Index(width, height, x, y));
  }

  /** The snapshot after n generations. */
  function Generations(s: seq<bool>, width: nat, height: nat, n: nat): (r: seq<bool>)
    requires |s| == width * height
    ensures |r| == |s|
    decreases n
  {
    if n == 0 then s else Generations(NextGeneration(s, width, height), width, height, n - 1)
  }

  /** The number of live cells in a snapshot. */
  function CountTrue(s: seq<bool>): (r: nat)
    ensures r <= |s|
  {
    if s == [] then 0 else CountTrue(s[..|s| - 1]) + (if s[|s| - 1] then 1 else 0)
  }

  predicate AllDead(s: seq<bool>)
  {
    forall i | 0 <= i < |s| :: !s[i]
  }

  /** The snapshot of n dead cells. */
  function Dead(n: nat): (r: seq<bool>)
    ensures |r| == n && AllDead(r)
  {
    seq(n, _ => false)
  }

  lemma {:induction false} AllDeadCountsZero(s: seq<bool>)
    ensures AllDead(s) <==> CountTrue(s) == 0
  {
    if s != [] {
      AllDeadCountsZero(s[..|s| - 1]);
      if AllDead(s[..|s| - 1]) && !s[|s| - 1] {
        assert AllDead(s);
      }
    }
  }

  /** A snapshot with no live cell has no live neighbours anywhere, so it stays dead. */
  lemma Quiescence(s: seq<bool>, width: nat, height: nat)
    requires |s| == width * height && AllDead(s)
    ensures AllDead(NextGeneration(s, width, height))
  {
    var r := NextGeneration(s, width, height);
    forall i | 0 <= i < |r| ensures !r[i] {
      FlatToGrid(width, height, i);
      NextCellsAt(s, width, height, width * height, i);
      var x, y := i % width, i / width;
      NeighbourCountIsLiveNeighbours(s, width, height, x, y);
      assert LiveNeighbours(s, width, height, x, y) == {};
    }
  }

  /** An all-dead grid stays all dead under any number of generations. */
  lemma {:induction false} QuiescenceForever(s: seq<bool>, width: nat, height: nat, n: nat)
    requires |s| == width * height && AllDead(s)
    ensures AllDead(Generations(s, width, height, n))
    decreases n
  {
    if n > 0 {
      Quiescence(s, width, height);
      QuiescenceForever(NextGeneration(s, width, height), width, height, n - 1);
    }
  }
  /** Snapshot s with cell (x, y) set to v; a point off the grid leaves s as it is. */
  function WithCell(s: seq<bool>, width: nat, height: nat, x: int, y: int, v: bool): (r: seq<bool>)
    requires |s| == width * height
    ensures |r| == |s|
    ensures !InGrid(width, height, x, y) ==> r == s
    ensures forall a, b | InGrid(width, height, a, b) ::
              CellAt(r, width, height, a, b) == if (a, b) == (x, y) then v else CellAt(s, width, height, a, b)
  {
    var i := Index(width, height, x, y);
    if i == -1 then s
    else
      assert forall a, b | InGrid(width, height, a, b) && (a, b) != (x, y) :: Index(width, height, a, b) != i
      by {
        forall a, b | InGrid(width, height, a, b) && (a, b) != (x, y) ensures Index(width, height, a, b) != i {
          if Index(width, height, a, b) == i {
            IndexInjective(width, height, a, b, x, y);
          }
        }
      }
      s[i := v]
  }

  /** Setting a cell twice to the same value is the same as setting it once. */
  lemma WithCellIdempotent(s: seq<bool>, width: nat, height: nat, x: int, y: int, v: bool)
    requires |s| == width * height
    ensures WithCell(WithCell(s, width, height, x, y, v), width, height, x, y, v)
         == WithCell(s, width, height, x, y, v)
  {
  }

  /** Of two edits of the same cell, the later one wins; so setting a dead cell
      alive and then dead again restores the snapshot. */
  lemma WithCellLastWins(s: seq<bool>, width: nat, height: nat, x: int, y: int, v: bool, w: bool)
    requires |s| == width * height
    ensures WithCell(WithCell(s, width, height, x, y, v), width, height, x, y, w)
         == WithCell(s, width, height, x, y, w)
    ensures InGrid(width, height, x, y) && CellAt(s, width, height, x, y) == w ==>
              WithCell(WithCell(s, width, height, x, y, v), width, height, x, y, w) == s
  {
  }
}
