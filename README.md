# viz-debug: frame decoder and matrix widget

The visualiser reads frames from a button-matrix device on a serial line and
draws them in a terminal. Each frame is 110 bytes, one per button. A released
button is `'0'` and a pressed one is `'1'`. The bytes are decoded into an
11 x 10 grid of booleans, stored row-major. The grid is then drawn as a
terminal widget: a solid block for each pressed cell and a dot for each
released one.

This project models the two pieces of logic in `src/main.rs` and proves
properties of them:

- **Frame decoder** (`decoder.dfy`). `Decode` is the reference definition:
  cell `i` is true exactly when byte `i` is ASCII `'1'`. `ZipDecode` gives the
  meaning of the zip/for_each into a pre-zeroed array for any two lengths.
  `DecodeFrame` is that loop over a fresh `array<bool>`.
- **Matrix widget** (`matrix.dfy`). `Matrix` is the grid together with its
  dimensions. `SourceIndex` and `RenderedAt` say which element the widget
  shows at each screen position, and with which glyph. `Render` is the widget's
  nested loop over a screen buffer, proved against `RenderedAt`.
- **Row-major indexing** (`grid.dfy`). The offset `x + y * width` stays inside
  the array, is injective on the grid, and reaches every element.
- **Screen buffer** (`tui.dfy`). Only what the widget touches: `Rect` with
  its edge functions, `Cell`, and `Buffer` as a class over an `array2<Cell>`.
  `SetSymbol` models `get_mut(x, y).set_symbol(s)`.
- **Deployment** (`viz.dfy`). The 11 x 10 instance, covering the decode and
  the draw of one acquisition cycle without its I/O.

The program does no change detection between frames and sends no events.
The widget draws one character per cell, at scale 1 (src/main.rs:28, 30).
The newline skip at src/main.rs:83 builds an iterator that is never
consumed, so there is no resynchronisation step before a frame is read.

## Model

| member | source | states |
|---|---|---|
| Decoder.Decode | src/main.rs:88 | the decoded frame has one cell per byte, and cell `i` is true exactly when byte `i` is `'1'` (0x31); every other byte, `'0'` and `'\n'` included, gives false |
| Decoder.ZipDecode | src/main.rs:87-88 | zipping bytes with cells assigns cell `i` to "byte `i` is `'1'`" for every `i` below both lengths, and every later cell keeps its initial value; the result has the cell array's length |
| Decoder.ZipDecodeFullLength | src/main.rs:84-88 | when the byte buffer and the cell array have the same length, the result is the decoded frame whatever the initial cells were, so no cell keeps its initial `false` by accident |
| Decoder.DecodeFrame | src/main.rs:87-88 | a fresh array of the requested length, starting all false, ends up holding the zip of the bytes with that all-false array; with equal lengths it holds exactly the decoded frame |
| Grid.OffsetInBounds | src/main.rs:25-27 | for `x < WIDTH` and `y < HEIGHT` the offset `x + y*WIDTH` is below `WIDTH*HEIGHT`, so `elems[offset]` is in bounds |
| Grid.OffsetDivMod | src/main.rs:25 | for `x < WIDTH`, dividing the offset by `WIDTH` gives back `y`, and the remainder gives back `x` |
| Grid.OffsetInjective | src/main.rs:23-25 | two grid cells with the same offset are the same cell |
| Grid.OffsetOnto | src/main.rs:23-25 | every index below `WIDTH*HEIGHT` is the offset of the cell `(i % WIDTH, i / WIDTH)`, which lies on the grid |
| MatrixWidget.SourceIndex | src/main.rs:14-27 | a screen position shows an element exactly when both size guards pass and the position lies in the grid-sized block at the area's top-left; the element shown is always a valid index into `elems` |
| MatrixWidget.RenderedBlockCell | src/main.rs:25-31 | when both guards pass, the cell at `(left + x, top + y)` ends up with symbol "█" if `elems[x + y*WIDTH]` is true and "." otherwise, and its style is unchanged |
| MatrixWidget.ShownOnlyAt | src/main.rs:23-27 | when both guards pass, the element at offset `x + y*WIDTH` is shown at `(left + x, top + y)` and at no other screen position |
| MatrixWidget.ShownExactlyOnce | src/main.rs:23-27 | when both guards pass, element `i` is shown at exactly one screen position, `(left + i % WIDTH, top + i / WIDTH)` |
| MatrixWidget.Render | src/main.rs:13-34 | every buffer cell ends as `RenderedAt` of its old value; a too-short or too-narrow area leaves the whole buffer unchanged; every cell outside the block is unchanged |
| Tui.Buffer.SetSymbol | src/main.rs:28-30 | the addressed cell gets the new symbol and keeps its style, and every other cell is unchanged; the cell must lie inside the buffer |
| Viz.FrameToMatrix | src/main.rs:84-90 | a 110-byte frame becomes a valid 11 x 10 matrix whose elements are the decoded frame |
| Viz.DeployedCell | src/main.rs:88-90 | in the deployed matrix, cell `(x, y)` is pressed exactly when byte `x + 11*y` of the frame is `'1'` |
| Viz.DrawFrame | src/main.rs:84-91 | decoding a frame and rendering it over the whole screen leaves every screen cell as `RenderedAt` of the decoded matrix; the widget's buffer precondition holds because the area is the whole buffer |

## Left out

- Serial I/O (src/main.rs:50-52, 81, 85): opening the port, flushing its input and `read_exact` are library calls. The bytes read are the method parameter `buf`. Its length is the fixed 110 of the source's buffer, since `read_exact` either fills the buffer or fails and the program unwraps.
- The newline skip at src/main.rs:83: it builds a lazy iterator and drops it without consuming a byte, so there is no resynchronisation step to model.
- Terminal setup and drawing (src/main.rs:54-60, 91): raw mode, alternate screen, the backend, and how `terminal.draw` diffs and flushes the buffer. `DrawFrame` stops at the buffer the widget writes into.
- The keyboard thread, the shutdown `RwLock`, the joins and the 90 ms sleep (src/main.rs:62-97): concurrency and timing.
- osc.py: a loop that sends two fixed OSC messages over UDP and sleeps. It is a network client with no logic.
- The tui library's own code is not part of this model. `Rect`'s right and bottom edges are modelled as saturating 16-bit sums. `get_mut` is modelled as requiring its position to lie inside the buffer, where the library panics otherwise.
- MatrixWidget.Render: requires the grid-sized block to lie inside the buffer whenever both guards pass. The source relies on this to avoid a panic, and in the program it holds because the area is the whole frame.
- MatrixWidget.Matrix: dimensions are limited to at most 0xFFFF, so the source's `WIDTH as u16` and `HEIGHT as u16` casts never truncate. The deployed 11 x 10 is well inside that limit.
