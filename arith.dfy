/** Facts about multiplication, Euclidean division and remainder that the
    raster-index reasoning of the stream decoders needs. */
module Arith {

  function Max0(n: int): (m: nat)
    ensures n >= 0 ==> m == n
    ensures n < 0 ==> m == 0
  {
    if n < 0 then 0 else n
  }

  lemma MulSucc(p: int, c: int)
    ensures (p + 1) * c == p * c + c
  {
  }

  lemma MulMonotone(a: int, b: int, c: nat)
    requires a <= b
    ensures a * c <= b * c
  {
    var d := b - a;
    assert d * c >= 0;
    assert b * c == a * c + d * c;
  }

  /** Division and remainder recover the quotient and the remainder. */
  lemma DivModOf(q: int, m: int, d: int)
    requires d > 0 && 0 <= m < d
    ensures (q * d + m) / d == q
    ensures (q * d + m) % d == m
  {
    var n := q * d + m;
    var t := n / d - q;
    assert n == (n / d) * d + n % d;
    assert t * d == m - n % d;
    if t >= 1 {
      MulMonotone(1, t, d);
    } else if t <= -1 {
      MulMonotone(t, -1, d);
    }
    assert t == 0;
  }

  /** A raster index below height * width addresses a row below height. */
  lemma RowColBounds(nav: int, height: nat, width: nat)
    requires 0 <= nav < height * width
    ensures width > 0
    ensures 0 <= nav / width < height
    ensures 0 <= nav % width < width
  {
    assert width > 0;
    assert nav == (nav / width) * width + nav % width;
    if nav / width >= height {
      MulMonotone(height, nav / width, width);
    }
  }

  // ------------------------------------------------- products by repeated addition

  /** a * b, written as repeated addition: raster indices built from Mul keep
      the proofs about them in linear arithmetic; MulIsProduct links it to `*`. */
  function Mul(a: nat, b: nat): nat
    decreases a
  {
    if a == 0 then 0 else Mul(a - 1, b) + b
  }

  lemma {:induction false} MulIsProduct(a: nat, b: nat)
    ensures Mul(a, b) == a * b
    decreases a
  {
    if a > 0 {
      MulIsProduct(a - 1, b);
      MulSucc(a - 1, b);
    }
  }

  /** Index of slot m of block a when blocks have `size` slots: segment
      (frame, nav) of a scan, or raster cell (y, x) of a row. */
  function Slot(a: nat, m: nat, size: nat): nat
  {
    Mul(a, size) + m
  }

  /** A slot inside block a lies before every slot of a later block b. */
  lemma {:induction false} MulBelow(a: nat, m: nat, b: nat, size: nat)
    requires a < b && m < size
    ensures Slot(a, m, size) < Mul(b, size)
    decreases b
  {
    if a < b - 1 {
      MulBelow(a, m, b - 1, size);
    }
  }

  /** Slot m of block a and slot n of block b are the same index exactly when
      a == b and m == n. */
  lemma SameSlot(a: nat, m: nat, b: nat, n: nat, size: nat)
    requires m < size && n < size
    ensures Slot(a, m, size) == Slot(b, n, size) <==> a == b && m == n
  {
    if a < b {
      MulBelow(a, m, b, size);
    } else if b < a {
      MulBelow(b, n, a, size);
    }
  }

  /** Row-major order: (y, x) with x < width is raster index nav exactly when it
      is (nav / width, nav % width). */
  lemma RasterCell(nav: nat, width: nat)
    requires width > 0
    ensures forall y: nat, x: nat :: x < width ==>
      (Slot(y, x, width) == nav <==> y == nav / width && x == nav % width)
  {
    var row: nat, column: nat := nav / width, nav % width;
    MulIsProduct(row, width);
    assert nav == Slot(row, column, width);
    forall y: nat, x: nat | x < width
      ensures Slot(y, x, width) == nav <==> y == row && x == column
    {
      SameSlot(y, x, row, column, width);
    }
  }

  /** Cells (y, x) of a height-by-width raster have indices below height * width. */
  lemma RasterBound(y: nat, x: nat, height: nat, width: nat)
    requires y < height && x < width
    ensures Slot(y, x, width) < height * width
  {
    MulBelow(y, x, height, width);
    MulIsProduct(height, width);
  }
}
