/**
 * The matrix widget: a `width` x `height` grid of booleans, stored row-major,
 * drawn into a screen buffer one character per cell, a solid block for a
 * pressed cell and a dot for a released one.
 */
module MatrixWidget {

  import opened Tui
  import opened Grid

  datatype Option<T> = None | Some(value: T)

  /** Glyph of a pressed cell, U+2588 FULL BLOCK. */
  const Block: string := "\U{2588}"

  /** Glyph of a released cell. */
  const Dot: string := "."

  function Glyph(pressed: bool): string
  {
    if pressed then Block else Dot
  }

  /**
   * The grid's dimensions are compile-time constants of the program; they are
   * fields here. The cell (x, y) is `elems[x + y * width]`.
   */
  datatype Matrix = Matrix(width: nat, height: nat, elems: seq<bool>)
  {
    ghost predicate Valid()
    {
      |elems| == width * height && width <= U16Max && height <= U16Max
    }
  }

  /** Both guards of the widget pass: the area is at least as tall and as wide as the grid. */
  predicate Fits(m: Matrix, area: Rect)
  {
    !(area.Bottom() - area.Top() < m.height) && !(area.Right() - area.Left() < m.width)
  }

  /** The block of cells the widget draws lies inside the buffer's area. */
  predicate BlockInside(m: Matrix, area: Rect, bufArea: Rect)
  {
    m.width > 0 && m.height > 0 ==>
      && bufArea.Left() <= area.Left() && area.Left() + m.width <= bufArea.Right()
      && bufArea.Top() <= area.Top() && area.Top() + m.height <= bufArea.Bottom()
  }

  /** Whether the absolute position (px, py) is in the grid-sized block anchored at the area's top-left. */
  predicate InBlock(m: Matrix, area: Rect, px: int, py: int)
  {
    area.Left() <= px < area.Left() + m.width && area.Top() <= py < area.Top() + m.height
  }

  /**
   * The element of the grid that rendering into `area` shows at the absolute
   * position (px, py), if any; it always indexes inside `elems`.
   */
  function SourceIndex(m: Matrix, area: Rect, px: int, py: int): (k: Option<nat>)
    requires m.Valid()
    ensures k.Some? ==> k.value < |m.elems|
    ensures k.Some? <==> Fits(m, area) && InBlock(m, area, px, py)
  {
    if Fits(m, area) && InBlock(m, area, px, py) then
      var x, y := px - area.Left(), py - area.Top();
      OffsetInBounds(m.width, m.height, x, y);
      Some(Offset(m.width, x, y))
    else
      None
  }

  /** The cell at (px, py) after rendering, given the cell `before` that was there. */
  function RenderedAt(m: Matrix, area: Rect, px: int, py: int, before: Cell): Cell
    requires m.Valid()
  {
    match SourceIndex(m, area, px, py)
    case Some(k) => before.(symbol := Glyph(m.elems[k]))
    case None => before
  }

  /**
   * Rendering puts element `x + y * width` at (left + x, top + y), as a block
   * when it is true and a dot when it is false, and leaves the style alone.
   */
  lemma RenderedBlockCell(m: Matrix, area: Rect, x: nat, y: nat, before: Cell)
    requires m.Valid() && Fits(m, area) && x < m.width && y < m.height
    ensures Offset(m.width, x, y) < |m.elems|
    ensures RenderedAt(m, area, area.Left() + x, area.Top() + y, before)
            == before.(symbol := if m.elems[Offset(m.width, x, y)] then "\U{2588}" else ".")
  {
    OffsetInBounds(m.width, m.height, x, y);
  }

  /**
   * When both guards pass, the element at offset `x + y * width` is shown at
   * (left + x, top + y) and at no other position.
   */
  lemma ShownOnlyAt(m: Matrix, area: Rect, x: nat, y: nat)
    requires m.Valid() && Fits(m, area) && x < m.width && y < m.height
    ensures forall px, py :: SourceIndex(m, area, px, py) == Some(Offset(m.width, x, y))
              <==> px == area.Left() + x && py == area.Top() + y
  {
    var i := Offset(m.width, x, y);
    forall px, py
      ensures SourceIndex(m, area, px, py) == Some(i) <==> px == area.Left() + x && py == area.Top() + y
    {
      if InBlock(m, area, px, py) {
        var x', y' := px - area.Left(), py - area.Top();
        if Offset(m.width, x', y') == i {
          OffsetInjective(m.width, x', y', x, y);
        }
      }
    }
  }

  /**
   * Each element of the grid is shown in exactly one cell of the area: the
   * positions showing element i are exactly (left + i % width, top + i / width).
   */
  lemma ShownExactlyOnce(m: Matrix, area: Rect, i: nat)
    requires m.Valid() && Fits(m, area) && i < |m.elems|
    ensures forall px, py :: SourceIndex(m, area, px, py) == Some(i)
              <==> px == area.Left() + i % m.width && py == area.Top() + i / m.width
  {
    OffsetOnto(m.width, m.height, i);
    ShownOnlyAt(m, area, i % m.width, i / m.width);
  }

  /**
   * `Matrix::render`: when the area is shorter or narrower than the grid,
   * nothing is drawn; otherwise column by column, row by row, the cell at
   * (left + x, top + y) gets the glyph of element `x + y * width`.
   */
  method Render(m: Matrix, area: Rect, buf: Buffer)
    requires m.Valid() && buf.Valid()
    requires Fits(m, area) ==> BlockInside(m, area, buf.area)
    modifies buf.content
    ensures forall r, c :: 0 <= r < buf.content.Length0 && 0 <= c < buf.content.Length1 ==>
              buf.content[r, c] == RenderedAt(m, area, buf.area.x + c, buf.area.y + r, old(buf.content[r, c]))
    ensures area.Bottom() - area.Top() < m.height ==>
              forall r, c :: 0 <= r < buf.content.Length0 && 0 <= c < buf.content.Length1 ==>
                buf.content[r, c] == old(buf.content[r, c])
    ensures area.Right() - area.Left() < m.width ==>
              forall r, c :: 0 <= r < buf.content.Length0 && 0 <= c < buf.content.Length1 ==>
                buf.content[r, c] == old(buf.content[r, c])
    ensures forall r, c ::
              (0 <= r < buf.content.Length0 && 0 <= c < buf.content.Length1 &&
               !InBlock(m, area, buf.area.x + c, buf.area.y + r)) ==>
                buf.content[r, c] == old(buf.content[r, c])
  {
    if area.Bottom() - area.Top() < m.height {
      return;
    }
    if area.Right() - area.Left() < m.width {
      return;
    }
    for x := 0 to m.width
      invariant forall r, c :: 0 <= r < buf.content.Length0 && 0 <= c < buf.content.Length1 ==>
                  buf.content[r, c] == if buf.area.x + c < area.Left() + x
                    then RenderedAt(m, area, buf.area.x + c, buf.area.y + r, old(buf.content[r, c]))
                    else old(buf.content[r, c])
    {
      for y := 0 to m.height
        invariant forall r, c :: 0 <= r < buf.content.Length0 && 0 <= c < buf.content.Length1 ==>
                    buf.content[r, c] == if buf.area.x + c < area.Left() + x
                                            || (buf.area.x + c == area.Left() + x && buf.area.y + r < area.Top() + y)
                      then RenderedAt(m, area, buf.area.x + c, buf.area.y + r, old(buf.content[r, c]))
                      else old(buf.content[r, c])
      {
        var offset := Offset(m.width, x, y);
        OffsetInBounds(m.width, m.height, x, y);
        if m.elems[offset] {
          buf.SetSymbol(area.Left() + x, area.Top() + y, Block);
        } else {
          buf.SetSymbol(area.Left() + x, area.Top() + y, Dot);
        }
      }
    }
  }
}
