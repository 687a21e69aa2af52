/**
 * Row-major layout of a `width` x `height` grid in a flat array: cell (x, y)
 * is element `x + y * width`.
 */
module Grid {

  function Offset(width: nat, x: nat, y: nat): nat
  {
    x + y * width
  }

  lemma MulMonotone(a: nat, b: nat, c: nat)
    requires a <= b
    ensures a * c <= b * c
  {
    assert b * c == a * c + (b - a) * c;
  }

  /** Every cell of the grid has an offset inside the flat array. */
  lemma OffsetInBounds(width: nat, height: nat, x: nat, y: nat)
    requires x < width && y < height
    ensures Offset(width, x, y) < width * height
  {
    calc {
      x + y * width;
    <
      width + y * width;
    ==
      (y + 1) * width;
    <= { MulMonotone(y + 1, height, width); }
      height * width;
    }
  }

  /** The offset of a cell gives back its column and its row. */
  lemma OffsetDivMod(width: nat, x: nat, y: nat)
    requires x < width
    ensures Offset(width, x, y) / width == y && Offset(width, x, y) % width == x
  {
    var i := Offset(width, x, y);
    var q, s := i / width, i % width;
    assert i == q * width + s && 0 <= s < width;
    if q < y {
      MulMonotone(q + 1, y, width);
      assert false;
    } else if q > y {
      MulMonotone(y + 1, q, width);
      assert false;
    }
  }

  /** No two cells of a row of `width` columns share an offset. */
  lemma OffsetInjective(width: nat, x1: nat, y1: nat, x2: nat, y2: nat)
    requires x1 < width && x2 < width
    requires Offset(width, x1, y1) == Offset(width, x2, y2)
    ensures x1 == x2 && y1 == y2
  {
    OffsetDivMod(width, x1, y1);
    OffsetDivMod(width, x2, y2);
  }

  /** Every element of the flat array is the offset of some cell of the grid. */
  lemma OffsetOnto(width: nat, height: nat, i: nat)
    requires i < width * height
    ensures 0 < width && i % width < width && i / width < height
    ensures Offset(width, i % width, i / width) == i
  {
    if width == 0 {
      assert false;
    }
    var q := i / width;
    if q >= height {
      MulMonotone(height, q, width);
      assert false;
    }
  }
}
