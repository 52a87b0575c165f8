/** Pixel lookup in a one-bit-per-pixel bitmap: eight pixels per byte, the
    leftmost in the most significant bit, and the bit choosing entry 0 or 1
    of the colour table. The pixel array (rows of bytes) is given as a
    parameter. */
module MonochromeBitmaps {
  import opened Common
  import opened Bytes
  import opened ColourTables
  import opened Bitmaps

  /** `128 >> (x % 8)`: a byte with the single bit 7 - x%8 set. */
  function PixelMask(x: int): (m: Byte)
    ensures m as bv8 == 1 << (7 - x % 8)
  {
    ((128 as bv8) >> (x % 8)) as int
  }

  /** `1 if byte & mask else 0`: the bit of pixel x in its byte. */
  function PixelBit(byte: Byte, x: int): (bit: nat)
    ensures bit <= 1
    ensures bit as bv8 == (byte as bv8 & PixelMask(x) as bv8) >> (7 - x % 8)
  {
    if byte as bv8 & PixelMask(x) as bv8 != 0 then 1 else 0
  }

  /** The mask is the power of two of the pixel's bit position. */
  lemma PixelMaskPow2(x: int)
    ensures PixelMask(x) == Pow2(7 - x % 8)
  {
    var p := x % 8;
    if p == 0 { assert Pow2(7) == 128; }
    else if p == 1 { assert Pow2(6) == 64; }
    else if p == 2 { assert Pow2(5) == 32; }
    else if p == 3 { assert Pow2(4) == 16; }
    else if p == 4 { assert Pow2(3) == 8; }
    else if p == 5 { assert Pow2(2) == 4; }
    else if p == 6 { assert Pow2(1) == 2; }
    else { assert Pow2(0) == 1; }
  }

  /** The first pixel of each byte is its most significant bit. */
  lemma FirstPixelIsHighBit(byte: Byte, x: int)
    requires x % 8 == 0
    ensures PixelBit(byte, x) == 1 <==> byte >= 128
  {
    assert PixelMask(x) == 128;
    assert byte >= 128 <==> byte as bv8 & 128 != 0;
  }

  /** Pixels x and x + 8 use the same mask on adjacent bytes. */
  lemma PixelsRepeatEveryByte(byte: Byte, x: int)
    ensures (x + 8) / 8 == x / 8 + 1
    ensures PixelMask(x + 8) == PixelMask(x)
    ensures PixelBit(byte, x + 8) == PixelBit(byte, x)
  {
    assert (x + 8) % 8 == x % 8;
  }

  /** `query_pixel_colour`: the colour-table entry of pixel (x, y), read from
      byte x // 8 of row y. Python's indexing wraps a negative row or byte
      index and raises (None here) on one out of range; so does the colour
      table when it has fewer entries than the bit needs. */
  function QueryPixelColour(raw: seq<Byte>, pixelArray: seq<seq<Byte>>, x: int, y: int)
    : (r: Option<ColourTableEntry>)
    ensures r.Some? ==> (|ColourTableOf(raw)| >= 1 && r.value == ColourTableOf(raw)[0]) ||
                        (|ColourTableOf(raw)| >= 2 && r.value == ColourTableOf(raw)[1])
    ensures |ColourTableOf(raw)| >= 2 && 0 <= y < |pixelArray| && 0 <= x / 8 < |pixelArray[y]| ==>
      r == Some(ColourTableOf(raw)[PixelBit(pixelArray[y][x / 8], x)])
    ensures !(-|pixelArray| <= y < |pixelArray|) ==> r == None
    ensures 0 <= y < |pixelArray| && !(-|pixelArray[y]| <= x / 8 < |pixelArray[y]|) ==> r == None
    ensures |ColourTableOf(raw)| == 0 ==> r == None
    ensures |ColourTableOf(raw)| == 1 && 0 <= y < |pixelArray| && 0 <= x / 8 < |pixelArray[y]| ==>
      r == if PixelBit(pixelArray[y][x / 8], x) == 0 then Some(ColourTableOf(raw)[0]) else None
  {
    match Index(pixelArray, y)
    case None => None
    case Some(row) =>
      match Index(row, x / 8)
      case None => None
      case Some(byte) => Index(ColourTableOf(raw), PixelBit(byte, x))
  }

  /** A negative row index counts from the last row. */
  lemma NegativeRowWraps(raw: seq<Byte>, pixelArray: seq<seq<Byte>>, x: int, y: int)
    requires -|pixelArray| <= y < 0
    ensures QueryPixelColour(raw, pixelArray, x, y) == QueryPixelColour(raw, pixelArray, x, |pixelArray| + y)
  {
  }

  /** A negative byte index counts from the end of the row: pixel x is read
      from byte |row| + x // 8, at its usual bit position. */
  lemma NegativeByteWraps(raw: seq<Byte>, pixelArray: seq<seq<Byte>>, x: int, y: int)
    requires 0 <= y < |pixelArray| && -|pixelArray[y]| <= x / 8 < 0
    ensures QueryPixelColour(raw, pixelArray, x, y) ==
            Index(ColourTableOf(raw), PixelBit(pixelArray[y][|pixelArray[y]| + x / 8], x))
  {
  }
}
