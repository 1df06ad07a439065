/**
 * Row-major indexing of a `w`-wide raster: the offset of column `x`, row `y`
 * is `x + y * w`. Both the tile pixels and the grid cells are addressed this way.
 */
module IndexMath {

  /** Offset of column `x`, row `y` in a raster of `w` columns and `h` rows. */
  function Idx(x: nat, y: nat, w: nat, h: nat): (i: nat)
    requires x < w && y < h
    ensures i < w * h
  {
    IdxBound(x, y, w, h);
    x + y * w
  }

  lemma MulMono(a: nat, b: nat, c: nat)
    requires a <= b
    ensures a * c <= b * c
  {
  }

  lemma IdxBound(x: nat, y: nat, w: nat, h: nat)
    requires x < w && y < h
    ensures x + y * w < w * h
  {
    MulMono(y + 1, h, w);
  }

  /** Division and remainder by `w` recover the column and row of an offset. */
  lemma {:induction false} DivModIdx(x: nat, y: nat, w: nat)
    requires x < w
    ensures (x + y * w) / w == y
    ensures (x + y * w) % w == x
  {
    var n := x + y * w;
    var q, r := n / w, n % w;
    assert q * w + r == n;
    if q > y {
      MulMono(y + 1, q, w);
      assert false;
    } else if q < y {
      MulMono(q + 1, y, w);
      assert false;
    }
  }

  /** Every offset below `w * h` splits into a column below `w` and a row below `h`. */
  lemma {:induction false} IdxSplit(i: nat, w: nat, h: nat)
    requires i < w * h
    ensures w > 0 && i % w < w && i / w < h
    ensures Idx(i % w, i / w, w, h) == i
  {
    assert w > 0;
    if i / w >= h {
      MulMono(h, i / w, w);
      assert false;
    }
  }

  /** The column and row of an offset below `w * h` are within bounds. */
  lemma SplitBounds(i: nat, w: nat, h: nat)
    requires i < w * h
    ensures w > 0 && 0 <= i % w < w && 0 <= i / w < h
  {
    IdxSplit(i, w, h);
  }
}
