/**
 * The few pieces of the terminal UI library that the matrix widget writes into:
 * rectangles with 16-bit coordinates, buffer cells, and a buffer of cells
 * covering a rectangle of the screen.
 */
module Tui {

  /** Unsigned 16-bit integer: every coordinate and size of the library is one. */
  type u16 = n: int | 0 <= n < 0x1_0000

  const U16Max: u16 := 0xFFFF

  /** Addition of two 16-bit values that sticks at the maximum instead of wrapping. */
  function SaturatingAdd(a: u16, b: u16): u16
  {
    if a + b <= U16Max then a + b else U16Max
  }

  /** A rectangle of character cells whose top-left corner is (x, y). */
  datatype Rect = Rect(x: u16, y: u16, width: u16, height: u16)
  {
    function Left(): u16 { x }
    function Right(): u16 { SaturatingAdd(x, width) }
    function Top(): u16 { y }
    function Bottom(): u16 { SaturatingAdd(y, height) }
  }

  /** Foreground, background and modifier of a cell, as opaque codes. */
  datatype Style = Style(fg: nat, bg: nat, modifier: nat)

  /** One character cell of the screen: the symbol shown there and its style. */
  datatype Cell = Cell(symbol: string, style: Style)

  /**
   * A buffer of cells covering `area`. The cell at absolute position (px, py)
   * is `content[py - area.y, px - area.x]`: rows first, as the library lays
   * its cells out row by row.
   */
  class Buffer {
    const area: Rect
    const content: array2<Cell>

    ghost predicate Valid()
    {
      content.Length0 == area.height && content.Length1 == area.width
    }

    /** Whether the absolute position (px, py) is one of the buffer's cells. */
    predicate Contains(px: int, py: int)
    {
      area.Left() <= px < area.Right() && area.Top() <= py < area.Bottom()
    }

    /** A buffer over `area` whose every cell is `fill`. */
    constructor Filled(area: Rect, fill: Cell)
      ensures this.area == area && Valid() && fresh(content)
      ensures forall r, c :: 0 <= r < content.Length0 && 0 <= c < content.Length1 ==> content[r, c] == fill
    {
      this.area := area;
      content := new Cell[area.height, area.width]((r, c) => fill);
    }

    /**
     * `get_mut(px, py).set_symbol(s)`: the cell at (px, py) shows `s` and keeps
     * its style; every other cell is unchanged. The library panics when
     * (px, py) is outside the buffer, hence the precondition.
     */
    method SetSymbol(px: int, py: int, s: string)
      requires Valid() && Contains(px, py)
      modifies content
      ensures content[py - area.y, px - area.x] == old(content[py - area.y, px - area.x]).(symbol := s)
      ensures forall r, c :: 0 <= r < content.Length0 && 0 <= c < content.Length1 && (r, c) != (py - area.y, px - area.x)
                ==> content[r, c] == old(content[r, c])
    {
      var r, c := py - area.y, px - area.x;
      content[r, c] := content[r, c].(symbol := s);
    }
  }
}
