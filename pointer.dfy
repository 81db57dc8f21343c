/** Mapping the pointer's position in world coordinates (pixels of the
    unzoomed grid, after the camera transform) to the grid coordinate of the
    cell under it, one axis at a time. */
module Pointer {

  /** Side of one cell in world pixels. */
  const CELL_SIZE: int := 20

  /** C's conversion of a floating value to `int`, which rounds toward zero. */
  function Truncate(w: real): (t: int)
    ensures 0.0 <= w ==> t as real <= w < t as real + 1.0
    ensures w < 0.0 ==> t as real - 1.0 < w <= t as real
  {
    if w >= 0.0 then w.Floor else -((-w).Floor)
  }

  /** C's `int` division by CELL_SIZE, which also rounds toward zero. */
  function Quotient(a: int): (q: int)
    ensures 0 <= a ==> CELL_SIZE * q <= a < CELL_SIZE * q + CELL_SIZE
    ensures a < 0 ==> CELL_SIZE * q - CELL_SIZE < a <= CELL_SIZE * q
  {
    if a >= 0 then a / CELL_SIZE else -((-a) / CELL_SIZE)
  }

  /** The coordinate as the loop computes it: the world position is cut to an
      `int`, then divided by the cell size, both rounding toward zero. */
  function CellCoordinateAsWritten(w: real): (c: int)
    ensures 0.0 <= w ==> 0 <= c
    ensures w < 0.0 ==> c <= 0
  {
    Quotient(Truncate(w))
  }

  /** As written, a pointer less than one cell to the left of (or above) the
      grid is mapped to coordinate 0, so the cell on the grid's edge is edited
      although the pointer is not over it. The point -10.0 is one instance. */
  lemma MarginMapsToZero(w: real)
    requires -(CELL_SIZE as real) < w < 0.0
    ensures CellCoordinateAsWritten(w) == 0
    ensures CellCoordinateAsWritten(-10.0) == 0 && CellCoordinate(-10.0) == -1
  {
    var t := Truncate(w);
    assert -CELL_SIZE < t <= 0;
  }

  /** The coordinate of the cell whose square contains w: the one c with
      c * CELL_SIZE <= w < (c + 1) * CELL_SIZE, rounding down on both sides
      of the origin. */
  function CellCoordinate(w: real): (c: int)
    ensures (CELL_SIZE * c) as real <= w < (CELL_SIZE * c + CELL_SIZE) as real
  {
    (w / CELL_SIZE as real).Floor
  }

  /** At most one coordinate has a square containing w. */
  lemma SquareUnique(w: real, a: int, b: int)
    requires (CELL_SIZE * a) as real <= w < (CELL_SIZE * a + CELL_SIZE) as real
    requires (CELL_SIZE * b) as real <= w < (CELL_SIZE * b + CELL_SIZE) as real
    ensures a == b
  {
  }

  /** The corrected coordinate lies in 0..n - 1 exactly when the pointer lies
      over a row (or column) of n cells starting at the origin. */
  lemma CoordinateOnGrid(w: real, n: nat)
    ensures 0 <= CellCoordinate(w) < n <==> 0.0 <= w < (CELL_SIZE * n) as real
  {
    var c := CellCoordinate(w);
    if 0.0 <= w < (CELL_SIZE * n) as real {
      assert (CELL_SIZE * c) as real < (CELL_SIZE * n) as real;
    }
  }

  /** Wherever the pointer is not left of (or above) the grid, the loop's
      mapping and the corrected one agree. */
  lemma AsWrittenAgreesOffMargin(w: real)
    requires 0.0 <= w
    ensures CellCoordinateAsWritten(w) == CellCoordinate(w)
  {
    var t := Truncate(w);
    var q := Quotient(t);
    assert (CELL_SIZE * q) as real <= w < (CELL_SIZE * q + CELL_SIZE) as real by {
      assert t + 1 <= CELL_SIZE * q + CELL_SIZE;
    }
    SquareUnique(w, q, CellCoordinate(w));
  }

  /** The loop's coordinate lies in 0..n - 1 exactly when the position lies
      over a row (or column) of n cells starting at the origin, or in the
      margin of one cell before it. */
  lemma AsWrittenOnGrid(w: real, n: nat)
    requires 0 < n
    ensures 0 <= CellCoordinateAsWritten(w) < n <==> -(CELL_SIZE as real) < w < (CELL_SIZE * n) as real
  {
    if 0.0 <= w {
      AsWrittenAgreesOffMargin(w);
      CoordinateOnGrid(w, n);
    } else if -(CELL_SIZE as real) < w {
      MarginMapsToZero(w);
    } else {
      var t := Truncate(w);
      assert t <= -CELL_SIZE;
    }
  }
}
