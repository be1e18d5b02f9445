/**
 * Row-major flattening of a grid of width w: cell (r, j) lives at r * w + j.
 * This is how C lays out `int res_parcial[R][X_RESN]` in memory and how the
 * coordinator addresses `vres`.
 */
module FlatIndex {

  /** Division by w is determined by any decomposition n == q * w + r with 0 <= r < w. */
  lemma DivModUnique(n: int, w: int, q: int, r: int)
    requires w > 0 && 0 <= r < w && n == q * w + r
    ensures n / w == q && n % w == r
  {
    var q0, r0 := n / w, n % w;
    assert n == q0 * w + r0 && 0 <= r0 < w;
    assert (q - q0) * w == r0 - r;
    if q - q0 >= 1 {
      MulAtLeast(q - q0, w);
    } else if q0 - q >= 1 {
      MulAtLeast(q0 - q, w);
    }
  }

  lemma MulAtLeast(d: int, w: int)
    requires d >= 1 && w >= 0
    ensures d * w >= w
  {
    assert d * w == (d - 1) * w + w;
    assert (d - 1) * w >= 0;
  }

  /** Cell (r, j) of a grid of width w is recovered from its flat index. */
  lemma CellOfIndex(r: int, j: int, w: int)
    requires w > 0 && 0 <= j < w
    ensures (r * w + j) / w == r && (r * w + j) % w == j
  {
    DivModUnique(r * w + j, w, r, j);
  }

  /** Shifting a flat index by a whole number of rows shifts its row and keeps its column. */
  lemma ShiftByRows(a: int, e: int, w: int)
    requires w > 0 && e >= 0
    ensures (a * w + e) / w == a + e / w && (a * w + e) % w == e % w
  {
    assert e == (e / w) * w + e % w;
    assert a * w + e == (a + e / w) * w + e % w;
    DivModUnique(a * w + e, w, a + e / w, e % w);
  }

  /** A cell of the first n rows has a flat index below n * w. */
  lemma CellInRows(r: int, j: int, w: int, n: int)
    requires 0 <= r < n && 0 <= j < w
    ensures 0 <= r * w + j < n * w
  {
    assert n * w == (n - r - 1) * w + r * w + w;
    assert (n - r - 1) * w >= 0;
  }

  /** Monotonicity of scaling by a width. */
  lemma ScaleMono(a: int, b: int, w: int)
    requires a <= b && w >= 0
    ensures a * w <= b * w
  {
    assert b * w == a * w + (b - a) * w;
    assert (b - a) * w >= 0;
  }

  /** Scaling distributes over a sum of rows. */
  lemma Distrib(x: int, y: int, w: int)
    ensures (x + y) * w == x * w + y * w
  {
  }

  /** A block of n rows starting at s that ends by row t still ends by t once scaled. */
  lemma ScaledBefore(s: int, n: int, t: int, w: int)
    requires s + n <= t && w >= 0
    ensures s * w + n * w <= t * w
  {
    ScaleMono(s + n, t, w);
    Distrib(s, n, w);
  }

  /** Flat index n lies in rows s..s+r-1 exactly when its row n / w does. */
  lemma InScaledRange(n: int, w: int, s: int, r: int)
    requires w >= 1 && r >= 0
    ensures s * w <= n < s * w + r * w <==> s <= n / w < s + r
  {
    var i, j := n / w, n % w;
    assert n == i * w + j && 0 <= j < w;
    Distrib(s, r, w);
    Distrib(i, 1, w);
    if s <= i < s + r {
      ScaleMono(s, i, w);
      ScaleMono(i + 1, s + r, w);
    } else if i < s {
      ScaleMono(i + 1, s, w);
    } else {
      ScaleMono(s + r, i, w);
    }
  }
}
