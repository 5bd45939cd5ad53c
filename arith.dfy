/** Row-major index arithmetic: an index `i` of a `w`-wide grid stands for
    row `i / w`, column `i % w`. */
module Arith {

  lemma MulMono(a: int, b: int, n: int)
    requires 0 <= a <= b && 0 <= n
    ensures a * n <= b * n
  {
  }

  lemma MulSucc(i: int, w: int)
    ensures (i + 1) * w == i * w + w
  {
  }

  /** The row-major decomposition of an index is unique. */
  lemma DivModUnique(i: int, w: int, y: int, x: int)
    requires 0 < w && 0 <= x < w && 0 <= y
    requires i == y * w + x
    ensures i / w == y && i % w == x
  {
    var q, r := i / w, i % w;
    assert i == q * w + r;
    if q < y {
      MulMono(q + 1, y, w);
    } else if y < q {
      MulMono(y + 1, q, w);
    }
  }

  /** A cell `(y, x)` with `x < w` lies inside a `w`-by-`h` row-major grid
      exactly when its row is below `h`. */
  lemma RowMajorInside(y: int, x: int, w: int, h: int)
    requires 0 <= x < w && 0 <= y && 0 <= h
    ensures (y * w + x < w * h) <==> y < h
  {
    if y < h {
      MulMono(y + 1, h, w);
    } else {
      MulMono(h, y, w);
    }
  }

  /** Every index of a non-empty `w`-by-`h` grid decomposes inside it. */
  lemma IndexInside(i: int, w: int, h: int)
    requires 0 <= i < w * h && 0 < w
    ensures i % w < w && i / w < h
  {
    var q, r := i / w, i % w;
    assert i == q * w + r;
    if q >= h {
      MulMono(h, q, w);
    }
  }

  /** An index of a `w`-by-`h` row-major grid names a row below `h` and a
      column below `w`. */
  lemma RowMajorSplit(i: int, w: int, h: int) returns (y: int, x: int)
    requires 0 <= i < w * h && 0 <= w && 0 <= h
    ensures 0 <= y < h && 0 <= x < w && i == y * w + x
  {
    IndexInside(i, w, h);
    y, x := i / w, i % w;
  }
}
