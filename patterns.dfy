/** Known behaviours of the bounded B3/S23 world, proved on the value-level
    model: sparse grids die out, the blinker oscillates with period 2, the
    block is a still life and the glider moves one cell diagonally every four
    generations. A pattern is given by the list of its live cells. */
module Patterns {
  import opened Life

  /** p is one of the eight Moore neighbours of q. */
  predicate Adjacent(p: (int, int), q: (int, int))
  {
    p != q && -1 <= p.0 - q.0 <= 1 && -1 <= p.1 - q.1 <= 1
  }

  /** How many of the listed cells are Moore neighbours of q. */
  function AdjacentCount(cells: seq<(int, int)>, q: (int, int)): (r: nat)
    ensures r <= |cells|
  {
    if cells == [] then 0
    else (if Adjacent(cells[0], q) then 1 else 0) + AdjacentCount(cells[1..], q)
  }

  predicate Distinct(cells: seq<(int, int)>)
  {
    forall i, j | 0 <= i < j < |cells| :: cells[i] != cells[j]
  }

  predicate Inside(width: nat, height: nat, cells: seq<(int, int)>)
  {
    forall p | p in cells :: InGrid(width, height, p.0, p.1)
  }

  /** The snapshot whose live cells are exactly the listed ones. */
  function Pattern(width: nat, height: nat, cells: seq<(int, int)>): (s: seq<bool>)
    ensures |s| == width * height
  {
    seq(width * height, i requires 0 <= i < width * height => (i % width, i / width) in cells)
  }

  lemma PatternCell(width: nat, height: nat, cells: seq<(int, int)>, x: int, y: int)
    requires InGrid(width, height, x, y)
    ensures CellAt(Pattern(width, height, cells), width, height, x, y) == ((x, y) in cells)
  {
    IndexInverse(width, height, x, y);
  }

  lemma {:induction false} AdjacentSet(cells: seq<(int, int)>, q: (int, int))
    requires Distinct(cells)
    ensures |set p | p in cells && Adjacent(p, q)| == AdjacentCount(cells, q)
  {
    if cells != [] {
      var rest := cells[1..];
      assert Distinct(rest);
      AdjacentSet(rest, q);
      assert cells[0] !in rest;
      var head: set<(int, int)> := if Adjacent(cells[0], q) then {cells[0]} else {};
      assert (set p | p in cells && Adjacent(p, q)) == head + (set p | p in rest && Adjacent(p, q));
    }
  }

  /** In a pattern, the live neighbours of a cell are the listed cells next to it. */
  lemma PatternNeighbourCount(width: nat, height: nat, cells: seq<(int, int)>, x: int, y: int)
    requires Distinct(cells) && Inside(width, height, cells)
    ensures NeighbourCount(Pattern(width, height, cells), width, height, x, y) == AdjacentCount(cells, (x, y))
  {
    var s := Pattern(width, height, cells);
    NeighbourCountIsLiveNeighbours(s, width, height, x, y);
    AdjacentSet(cells, (x, y));
    var around := LiveNeighbours(s, width, height, x, y);
    var listed := set p | p in cells && Adjacent(p, (x, y));
    forall p | p in around ensures p in listed {
      PatternCell(width, height, cells, p.0, p.1);
    }
    forall p | p in listed ensures p in around {
      PatternCell(width, height, cells, p.0, p.1);
    }
    assert around == listed;
  }

  /** A pattern becomes pattern `next` in one generation when, on every cell,
      the rule applied to the listed cells gives membership in `next`. */
  lemma PatternStep(width: nat, height: nat, cells: seq<(int, int)>, next: seq<(int, int)>)
    requires Distinct(cells) && Inside(width, height, cells)
    requires forall x, y | InGrid(width, height, x, y) ::
               Rule((x, y) in cells, AdjacentCount(cells, (x, y))) == ((x, y) in next)
    ensures NextGeneration(Pattern(width, height, cells), width, height) == Pattern(width, height, next)
  {
    var s := Pattern(width, height, cells);
    var r := NextGeneration(s, width, height);
    var t := Pattern(width, height, next);
    forall i | 0 <= i < width * height ensures r[i] == t[i] {
      FlatToGrid(width, height, i);
      var x, y := i % width, i / width;
      NextGenerationAt(s, width, height, x, y);
      PatternCell(width, height, cells, x, y);
      PatternNeighbourCount(width, height, cells, x, y);
    }
  }

  function Horizontal(cx: int, cy: int): seq<(int, int)>
  {
    [(cx - 1, cy), (cx, cy), (cx + 1, cy)]
  }

  function Vertical(cx: int, cy: int): seq<(int, int)>
  {
    [(cx, cy - 1), (cx, cy), (cx, cy + 1)]
  }

  /** A row of three live cells strictly inside the grid turns into a column
      of three centred on the same cell. */
  lemma BlinkerRowToColumn(width: nat, height: nat, cx: int, cy: int)
    requires 1 <= cx < width - 1 && 1 <= cy < height - 1
    ensures NextGeneration(Pattern(width, height, Horizontal(cx, cy)), width, height)
            == Pattern(width, height, Vertical(cx, cy))
  {
    var h, v := Horizontal(cx, cy), Vertical(cx, cy);
    forall x, y | InGrid(width, height, x, y)
      ensures Rule((x, y) in h, AdjacentCount(h, (x, y))) == ((x, y) in v)
    {
      BlinkerCell(cx, cy, x, y);
    }
    assert Distinct(h) && Inside(width, height, h);
    PatternStep(width, height, h, v);
  }

  /** ... and the column turns back into the row. */
  lemma BlinkerColumnToRow(width: nat, height: nat, cx: int, cy: int)
    requires 1 <= cx < width - 1 && 1 <= cy < height - 1
    ensures NextGeneration(Pattern(width, height, Vertical(cx, cy)), width, height)
            == Pattern(width, height, Horizontal(cx, cy))
  {
    var h, v := Horizontal(cx, cy), Vertical(cx, cy);
    forall x, y | InGrid(width, height, x, y)
      ensures Rule((x, y) in v, AdjacentCount(v, (x, y))) == ((x, y) in h)
    {
      BlinkerCell(cx, cy, x, y);
    }
    assert Distinct(v) && Inside(width, height, v);
    PatternStep(width, height, v, h);
  }

  /** The blinker has period 2. */
  lemma BlinkerPeriod(width: nat, height: nat, cx: int, cy: int)
    requires 1 <= cx < width - 1 && 1 <= cy < height - 1
    ensures Generations(Pattern(width, height, Horizontal(cx, cy)), width, height, 2)
            == Pattern(width, height, Horizontal(cx, cy))
  {
    BlinkerRowToColumn(width, height, cx, cy);
    BlinkerColumnToRow(width, height, cx, cy);
  }

  lemma BlinkerCell(cx: int, cy: int, x: int, y: int)
    ensures Rule((x, y) in Horizontal(cx, cy), AdjacentCount(Horizontal(cx, cy), (x, y)))
            == ((x, y) in Vertical(cx, cy))
    ensures Rule((x, y) in Vertical(cx, cy), AdjacentCount(Vertical(cx, cy), (x, y)))
            == ((x, y) in Horizontal(cx, cy))
  {
    var h, v := Horizontal(cx, cy), Vertical(cx, cy);
    assert AdjacentCount(h[2..], (x, y)) == if Adjacent(h[2], (x, y)) then 1 else 0;
    assert AdjacentCount(v[2..], (x, y)) == if Adjacent(v[2], (x, y)) then 1 else 0;
  }

  function Block(left: int, top: int): seq<(int, int)>
  {
    [(left, top), (left + 1, top), (left, top + 1), (left + 1, top + 1)]
  }

  /** A 2x2 block anywhere on the grid is a still life: it never changes. */
  lemma {:induction false} BlockStill(width: nat, height: nat, left: int, top: int, n: nat)
    requires 0 <= left && left + 2 <= width && 0 <= top && top + 2 <= height
    ensures Generations(Pattern(width, height, Block(left, top)), width, height, n)
            == Pattern(width, height, Block(left, top))
    decreases n
  {
    var b := Block(left, top);
    forall x, y | InGrid(width, height, x, y)
      ensures Rule((x, y) in b, AdjacentCount(b, (x, y))) == ((x, y) in b)
    {
      assert AdjacentCount(b[3..], (x, y)) == if Adjacent(b[3], (x, y)) then 1 else 0;
      assert AdjacentCount(b[2..], (x, y))
          == (if Adjacent(b[2], (x, y)) then 1 else 0) + AdjacentCount(b[3..], (x, y));
    }
    PatternStep(width, height, b, b);
    if n > 0 {
      BlockStill(width, height, left, top, n - 1);
    }
  }

  /** The five cells of a glider heading right and down, in its k-th phase,
      with the corner of its 4x4 bounding box at (dx, dy). */
  function Glider(k: nat, dx: int, dy: int): seq<(int, int)>
    requires k < 4
  {
    if k == 0 then [(dx + 1, dy), (dx + 2, dy + 1), (dx, dy + 2), (dx + 1, dy + 2), (dx + 2, dy + 2)]
    else if k == 1 then [(dx, dy + 1), (dx + 2, dy + 1), (dx + 1, dy + 2), (dx + 2, dy + 2), (dx + 1, dy + 3)]
    else if k == 2 then [(dx + 2, dy + 1), (dx, dy + 2), (dx + 2, dy + 2), (dx + 1, dy + 3), (dx + 2, dy + 3)]
    else [(dx + 1, dy + 1), (dx + 2, dy + 2), (dx + 3, dy + 2), (dx + 1, dy + 3), (dx + 2, dy + 3)]
  }

  /** The phase that follows phase k of the glider at (dx, dy). */
  function GliderNext(k: nat, dx: int, dy: int): seq<(int, int)>
    requires k < 4
  {
    if k < 3 then Glider(k + 1, dx, dy) else Glider(0, dx + 1, dy + 1)
  }

  /** Five listed cells adjacent to q, counted one by one. */
  lemma AdjacentCountFive(g: seq<(int, int)>, q: (int, int))
    requires |g| == 5
    ensures AdjacentCount(g, q)
         == (if Adjacent(g[0], q) then 1 else 0) + (if Adjacent(g[1], q) then 1 else 0)
          + (if Adjacent(g[2], q) then 1 else 0) + (if Adjacent(g[3], q) then 1 else 0)
          + (if Adjacent(g[4], q) then 1 else 0)
  {
    assert AdjacentCount(g[4..], q) == if Adjacent(g[4], q) then 1 else 0;
    assert AdjacentCount(g[3..], q) == (if Adjacent(g[3], q) then 1 else 0) + AdjacentCount(g[4..], q);
    assert AdjacentCount(g[2..], q) == (if Adjacent(g[2], q) then 1 else 0) + AdjacentCount(g[3..], q);
  }

  /** By the rule, each cell is alive in the phase after phase k exactly
      when it is in GliderNext. */
  lemma GliderCell(k: nat, dx: int, dy: int, x: int, y: int)
    requires k < 4
    ensures Rule((x, y) in Glider(k, dx, dy), AdjacentCount(Glider(k, dx, dy), (x, y))) == ((x, y) in GliderNext(k, dx, dy))
  {
    AdjacentCountFive(Glider(k, dx, dy), (x, y));
  }

  /** Every phase of the glider lists five distinct cells of its 4x4 box. */
  lemma GliderShape(k: nat, dx: int, dy: int)
    requires k < 4
    ensures Distinct(Glider(k, dx, dy))
    ensures forall p | p in Glider(k, dx, dy) :: dx <= p.0 < dx + 4 && dy <= p.1 < dy + 4
  {
  }

  /** One generation of a glider: each phase turns into the next, and the
      last one into the first phase moved one cell right and one down. */
  lemma GliderPhase(width: nat, height: nat, k: nat, dx: int, dy: int)
    requires k < 4 && 0 <= dx && dx + 4 <= width && 0 <= dy && dy + 4 <= height
    ensures NextGeneration(Pattern(width, height, Glider(k, dx, dy)), width, height)
            == Pattern(width, height, GliderNext(k, dx, dy))
  {
    var g := Glider(k, dx, dy);
    forall x, y | InGrid(width, height, x, y)
      ensures Rule((x, y) in g, AdjacentCount(g, (x, y))) == ((x, y) in GliderNext(k, dx, dy))
    {
      GliderCell(k, dx, dy, x, y);
    }
    GliderShape(k, dx, dy);
    PatternStep(width, height, g, GliderNext(k, dx, dy));
  }

  /** After four generations a glider is the same shape moved by (+1, +1). */
  lemma GliderTranslates(width: nat, height: nat, dx: int, dy: int)
    requires 0 <= dx && dx + 4 <= width && 0 <= dy && dy + 4 <= height
    ensures Generations(Pattern(width, height, Glider(0, dx, dy)), width, height, 4)
            == Pattern(width, height, Glider(0, dx + 1, dy + 1))
  {
    GliderPhase(width, height, 0, dx, dy);
    GliderPhase(width, height, 1, dx, dy);
    GliderPhase(width, height, 2, dx, dy);
    GliderPhase(width, height, 3, dx, dy);
  }

  /** The live cells of a snapshot, as coordinates. */
  ghost function LiveCells(s: seq<bool>, width: nat, height: nat): set<(int, int)>
    requires |s| == width * height
  {
    set a: int, b: int | 0 <= a < width && 0 <= b < height && CellAt(s, width, height, a, b) :: (a, b)
  }

  lemma {:induction false} SubsetCardinality(a: set<(int, int)>, b: set<(int, int)>)
    requires a <= b
    ensures |a| <= |b|
    decreases |a|
  {
    if a != {} {
      var p :| p in a;
      SubsetCardinality(a - {p}, b - {p});
    }
  }

  /** A grid with at most two live cells is all dead one generation later:
      no cell has the three neighbours a birth needs, and each live cell has
      at most one. A single live cell in a corner is one case. */
  lemma SparseDiesOut(s: seq<bool>, width: nat, height: nat)
    requires |s| == width * height && |LiveCells(s, width, height)| <= 2
    ensures AllDead(NextGeneration(s, width, height))
  {
    var r := NextGeneration(s, width, height);
    var live := LiveCells(s, width, height);
    forall i | 0 <= i < |r| ensures !r[i] {
      FlatToGrid(width, height, i);
      var x, y := i % width, i / width;
      NextGenerationAt(s, width, height, x, y);
      NeighbourCountIsLiveNeighbours(s, width, height, x, y);
      var around := LiveNeighbours(s, width, height, x, y);
      assert around <= live - {(x, y)};
      SubsetCardinality(around, live - {(x, y)});
      if CellAt(s, width, height, x, y) {
        assert (x, y) in live;
      }
    }
  }
}
