/**
 * One cycle of the visualiser, without its I/O: the 110 bytes of a frame are
 * decoded into an 11 x 10 matrix, which is drawn over the whole screen.
 */
module Viz {

  import opened Tui
  import opened Grid
  import opened Decoder
  import opened MatrixWidget

  /** The deployed grid: 11 columns, 10 rows. */
  const Width: nat := 11
  const Height: nat := 10

  /** Length of the byte buffer read from the serial line, and of the cell array. */
  const FrameBytes: nat := 10 * 11

  /** Decodes one frame's bytes into the deployed matrix. */
  method FrameToMatrix(buf: seq<u8>) returns (m: Matrix)
    requires |buf| == FrameBytes
    ensures m.Valid() && m.width == Width && m.height == Height
    ensures m.elems == Decode(buf)
  {
    var arr := DecodeFrame(buf, FrameBytes);
    m := Matrix(Width, Height, arr[..]);
  }

  /**
   * In the deployed matrix, cell (x, y) is pressed exactly when byte x + 11 * y
   * of the frame is '1': the 11 x 10 layout, a corollary of `Decode`'s contract.
   */
  lemma DeployedCell(buf: seq<u8>, x: nat, y: nat)
    requires |buf| == FrameBytes && x < Width && y < Height
    ensures Offset(Width, x, y) < |buf|
    ensures Decode(buf)[Offset(Width, x, y)] <==> buf[x + 11 * y] == AsciiOne
  {
  }

  /**
   * Decodes the frame and renders it into the whole screen, as the draw
   * closure does with the frame's full size as the area. The widget's
   * precondition holds because the area is the buffer's own.
   */
  method DrawFrame(buf: seq<u8>, screen: Buffer)
    requires |buf| == FrameBytes && screen.Valid()
    modifies screen.content
    ensures forall r, c :: 0 <= r < screen.content.Length0 && 0 <= c < screen.content.Length1 ==>
              screen.content[r, c]
              == RenderedAt(Matrix(Width, Height, Decode(buf)), screen.area,
                            screen.area.x + c, screen.area.y + r, old(screen.content[r, c]))
  {
    var m := FrameToMatrix(buf);
    Render(m, screen.area, screen);
  }
}
