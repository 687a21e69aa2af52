/**
 * The frame decoder: the bytes of one frame read from the serial line become
 * one boolean per cell, true exactly where the device sent the ASCII digit '1'.
 */
module Decoder {

  newtype u8 = b: int | 0 <= b < 0x100

  /** The ASCII code of the character '1'. */
  const AsciiOne: u8 := 0x31

  /** A byte marks its cell as pressed when it is '1'; '0', '\n' and every other byte do not. */
  predicate IsPressed(b: u8)
  {
    b == AsciiOne
  }

  /** The decoded frame: one cell per byte, pressed exactly where the byte is '1'. */
  function Decode(buf: seq<u8>): (cells: seq<bool>)
    ensures |cells| == |buf|
    ensures forall i :: 0 <= i < |buf| ==> (cells[i] <==> buf[i] == AsciiOne)
  {
    if buf == [] then [] else [IsPressed(buf[0])] + Decode(buf[1..])
  }

  /** `[false; n]`: the array the decoder starts from. */
  function Zeroed(n: nat): seq<bool>
  {
    seq(n, _ => false)
  }

  /**
   * Zipping the bytes with the cells and assigning `cell := byte == '1'`:
   * only the first min(|buf|, |init|) cells are assigned, the rest keep their
   * initial value.
   */
  function ZipDecode(buf: seq<u8>, init: seq<bool>): (cells: seq<bool>)
    ensures |cells| == |init|
    ensures forall i :: 0 <= i < |init| ==> cells[i] == (if i < |buf| then IsPressed(buf[i]) else init[i])
  {
    var n := if |buf| < |init| then |buf| else |init|;
    Decode(buf[..n]) + init[n..]
  }

  /**
   * When the byte buffer and the cell array have the same length, every cell
   * is assigned, so the initial contents do not show through.
   */
  lemma ZipDecodeFullLength(buf: seq<u8>, init: seq<bool>)
    requires |buf| == |init|
    ensures ZipDecode(buf, init) == Decode(buf)
  {
  }

  /**
   * Decodes `buf` into a fresh array of `cells` cells that starts all false,
   * assigning cell by cell alongside the bytes, as the zip / for_each does.
   */
  method DecodeFrame(buf: seq<u8>, cells: nat) returns (arr: array<bool>)
    ensures fresh(arr) && arr.Length == cells
    ensures arr[..] == ZipDecode(buf, Zeroed(cells))
    ensures |buf| == cells ==> arr[..] == Decode(buf)
  {
    arr := new bool[cells](_ => false);
    var n := if |buf| < cells then |buf| else cells;
    for i := 0 to n
      invariant forall k :: 0 <= k < i ==> arr[k] == IsPressed(buf[k])
      invariant forall k :: i <= k < cells ==> !arr[k]
    {
      arr[i] := IsPressed(buf[i]);
    }
    if |buf| == cells {
      ZipDecodeFullLength(buf, Zeroed(cells));
    }
  }
}
