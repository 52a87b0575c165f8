/** The header accessors of a Windows BMP file held in memory as `raw`: the
    14-byte BITMAPFILEHEADER (`bfType` at 0, `bfSize` at 2, `bfOffBits` at
    10), the BITMAPINFOHEADER that follows it (`biSize` at 14, then width at
    +4, height at +8, bit count at +14 and colours used at +32) and the
    RGBQUAD colour table between the two headers and the pixel data. Every
    field is a clamped slice decoded little-endian and unsigned, so a short
    file yields short fields and zeros rather than an error. */
module Bitmaps {
  import opened Common
  import opened Bytes
  import opened ColourTables

  /** `bmp_header`: the first 14 bytes, or the whole of a shorter file. */
  function BmpHeader(raw: seq<Byte>): (h: seq<Byte>)
    ensures |h| == if |raw| < 14 then |raw| else 14
    ensures h == raw[..|h|]
  {
    Slice(raw, 0, 14)
  }

  // ----- file_header: UTF-8 decoding of the first two bytes -----

  /** `bytes.decode()` (strict UTF-8) of at most two bytes; None where Python
      raises UnicodeDecodeError. Two bytes are either two ASCII characters or
      one two-byte sequence (lead byte C2..DF, continuation byte 80..BF). */
  function DecodeUtf8(bs: seq<Byte>): (r: Option<string>)
    requires |bs| <= 2
    ensures (forall i | 0 <= i < |bs| :: bs[i] < 0x80) ==>
              r.Some? && |r.value| == |bs| &&
              forall i | 0 <= i < |bs| :: r.value[i] as int == bs[i]
    ensures r.Some? ==> 1 <= |r.value| <= |bs| || |bs| == 0
  {
    if |bs| == 0 then Some("")
    else if |bs| == 1 then
      if bs[0] < 0x80 then Some([bs[0] as char]) else None
    else if bs[0] < 0x80 && bs[1] < 0x80 then Some([bs[0] as char, bs[1] as char])
    else if 0xC2 <= bs[0] <= 0xDF && 0x80 <= bs[1] <= 0xBF then
      Some([((bs[0] as int - 0xC0) * 64 + (bs[1] as int - 0x80)) as char])
    else None
  }

  /** The UTF-8 encoding of a character below U+0800: one byte below U+0080,
      otherwise a lead and a continuation byte. */
  function EncodeUtf8Char(c: char): (bs: seq<Byte>)
    requires c as int < 0x800
    ensures 1 <= |bs| <= 2
  {
    var v := c as int;
    if v < 0x80 then [v] else [0xC0 + v / 64, 0x80 + v % 64]
  }

  predicate Encodable(s: string)
  {
    forall i | 0 <= i < |s| :: s[i] as int < 0x800
  }

  function EncodeUtf8(s: string): (bs: seq<Byte>)
    requires Encodable(s)
    ensures |bs| >= |s|
  {
    if |s| == 0 then [] else EncodeUtf8Char(s[0]) + EncodeUtf8(s[1..])
  }

  /** Every text of at most two bytes decodes back to itself. */
  lemma DecodeEncodeUtf8(s: string)
    requires Encodable(s) && |EncodeUtf8(s)| <= 2
    ensures DecodeUtf8(EncodeUtf8(s)) == Some(s)
  {
    if |s| == 2 {
      assert EncodeUtf8(s) == EncodeUtf8Char(s[0]) + EncodeUtf8Char(s[1]) by {
        assert EncodeUtf8(s[1..]) == EncodeUtf8Char(s[1]) + EncodeUtf8(s[1..][1..]);
      }
      var a, b := s[0] as int, s[1] as int;
      assert a < 0x80 && b < 0x80;
      assert EncodeUtf8(s) == [a, b];
      assert [a as char, b as char] == s;
    } else if |s| == 1 {
      assert EncodeUtf8(s) == EncodeUtf8Char(s[0]);
      var v := s[0] as int;
      if v >= 0x80 {
        assert EncodeUtf8Char(s[0]) == [0xC0 + v / 64, 0x80 + v % 64];
        assert (v / 64) * 64 + v % 64 == v;
      }
      assert [v as char] == s;
    }
  }

  /** Whatever decodes is the encoding of what it decodes to. */
  lemma EncodeDecodeUtf8(bs: seq<Byte>)
    requires |bs| <= 2 && DecodeUtf8(bs).Some?
    ensures Encodable(DecodeUtf8(bs).value)
    ensures EncodeUtf8(DecodeUtf8(bs).value) == bs
  {
    var s := DecodeUtf8(bs).value;
    if |s| == 2 {
      assert EncodeUtf8(s[1..]) == EncodeUtf8Char(s[1]) + EncodeUtf8(s[1..][1..]);
    } else if |s| == 1 {
      assert EncodeUtf8(s) == EncodeUtf8Char(s[0]) + EncodeUtf8(s[1..]);
    }
  }

  /** `file_header`: the first two bytes (fewer in a shorter file) decoded
      as strict UTF-8; None where the decoding raises. */
  function FileHeader(raw: seq<Byte>): (r: Option<string>)
    ensures r == DecodeUtf8(raw[..if |raw| < 2 then |raw| else 2])
    ensures |raw| >= 2 && raw[0] == 0x42 && raw[1] == 0x4D ==> r == Some("BM")
    ensures r.Some? ==> |r.value| <= 2
  {
    var bs := Slice(BmpHeader(raw), 0, 2);
    var r := DecodeUtf8(bs);
    if |raw| >= 2 && raw[0] == 0x42 && raw[1] == 0x4D then
      assert bs == [0x42, 0x4D];
      r
    else r
  }

  // ----- The file header's integer fields -----

  /** `file_size_in_bytes`: only the two bytes at offsets 2 and 3, the low
      half of the four-byte `bfSize`. */
  function FileSizeInBytes(raw: seq<Byte>): (v: nat)
    ensures v < 65536
    ensures |raw| >= 4 ==> v == raw[2] as int + 256 * raw[3] as int
  {
    var bs := Slice(BmpHeader(raw), 2, 4);
    SmallFields(bs);
    FromBytesLE(bs)
  }

  /** `image_data_offset`: the last four bytes of the file header, which is
      `bfOffBits` at offsets 10..13 in a file of at least 14 bytes and the
      last (up to) four bytes of a shorter file. */
  function ImageDataOffset(raw: seq<Byte>): (v: nat)
    ensures v < Pow256(4)
    ensures |raw| >= 14 ==> v == FromBytesLE(raw[10..14])
    ensures |raw| < 14 ==> v == FromBytesLE(raw[(if |raw| >= 4 then |raw| - 4 else 0)..])
  {
    var h := BmpHeader(raw);
    var bs := Slice(h, -4, |h|);
    assert bs == h[(if |h| >= 4 then |h| - 4 else 0)..];
    assert |raw| >= 14 ==> bs == raw[10..14];
    assert |raw| < 14 ==> bs == raw[(if |raw| >= 4 then |raw| - 4 else 0)..];
    Pow256Monotone(|bs|, 4);
    FromBytesLE(bs)
  }

  lemma {:induction false} Pow256Monotone(m: nat, n: nat)
    requires m <= n
    ensures Pow256(m) <= Pow256(n)
  {
    if m < n {
      Pow256Monotone(m, n - 1);
    }
  }

  // ----- The DIB header -----

  /** `dib_header_size_bytes`: `biSize`, the four bytes at offsets 14..17;
      0 when the file ends before them. */
  function DibHeaderSizeBytes(raw: seq<Byte>): (v: nat)
    ensures v < Pow256(4)
    ensures |raw| >= 18 ==> v == FromBytesLE(raw[14..18])
    ensures |raw| <= 14 ==> v == 0
  {
    var bs := Slice(raw, 14, 18);
    Pow256Monotone(|bs|, 4);
    FromBytesLE(bs)
  }

  /** `dib_header`: the `biSize` bytes from offset 14, cut short by the end
      of the file. */
  function DibHeader(raw: seq<Byte>): (d: seq<Byte>)
    ensures |raw| <= 14 ==> d == []
    ensures |raw| > 14 ==>
      var end := if 14 + DibHeaderSizeBytes(raw) <= |raw| then 14 + DibHeaderSizeBytes(raw) else |raw|;
      d == raw[14..end]
  {
    Slice(raw, 14, 14 + DibHeaderSizeBytes(raw))
  }

  /** The DIB header reaches past offset `end` of itself inside the file. */
  predicate DibHolds(raw: seq<Byte>, end: nat)
  {
    end <= DibHeaderSizeBytes(raw) && 14 + end <= |raw|
  }

  /** The little-endian field at [lo, hi) of the DIB header. A field that
      starts at or past the end of the header, or of the file, is an empty
      slice and reads as 0. */
  function DibField(raw: seq<Byte>, lo: nat, hi: nat): (v: nat)
    requires lo <= hi
    ensures v < Pow256(hi - lo)
    ensures DibHolds(raw, hi) ==> v == FromBytesLE(raw[14 + lo..14 + hi])
    ensures DibHeaderSizeBytes(raw) <= lo || |raw| <= 14 + lo ==> v == 0
  {
    var bs := Slice(DibHeader(raw), lo, hi);
    Pow256Monotone(|bs|, hi - lo);
    if DibHolds(raw, hi) then
      assert bs == raw[14 + lo..14 + hi];
      FromBytesLE(bs)
    else FromBytesLE(bs)
  }

  /** `image_width_px`: `biWidth`, offsets 18..21, read as unsigned. */
  function ImageWidthPx(raw: seq<Byte>): (v: nat)
    ensures v < Pow256(4)
    ensures DibHolds(raw, 8) ==> v == FromBytesLE(raw[18..22])
    ensures DibHeaderSizeBytes(raw) <= 4 || |raw| <= 18 ==> v == 0
  {
    DibField(raw, 4, 8)
  }

  /** `image_height_px`: `biHeight`, offsets 22..25, read as unsigned. */
  function ImageHeightPx(raw: seq<Byte>): (v: nat)
    ensures v < Pow256(4)
    ensures DibHolds(raw, 12) ==> v == FromBytesLE(raw[22..26])
    ensures DibHeaderSizeBytes(raw) <= 8 || |raw| <= 22 ==> v == 0
  {
    DibField(raw, 8, 12)
  }

  /** `bits_per_pixel`: `biBitCount`, offsets 28..29. */
  function BitsPerPixel(raw: seq<Byte>): (v: nat)
    ensures v < 65536
    ensures DibHolds(raw, 16) ==> v == raw[28] as int + 256 * raw[29] as int
    ensures DibHeaderSizeBytes(raw) <= 14 || |raw| <= 28 ==> v == 0
  {
    var v := DibField(raw, 14, 16);
    if DibHolds(raw, 16) then
      SmallFields(raw[28..30]);
      v
    else
      assert Pow256(2) == 65536;
      v
  }

  /** `n_colours_in_palette`: `biClrUsed`, offsets 46..49. */
  function NColoursInPalette(raw: seq<Byte>): (v: nat)
    ensures v < Pow256(4)
    ensures DibHolds(raw, 36) ==> v == FromBytesLE(raw[46..50])
    ensures DibHeaderSizeBytes(raw) <= 32 || |raw| <= 46 ==> v == 0
  {
    DibField(raw, 32, 36)
  }

  // ----- The colour table -----

  /** The bytes between the end of the DIB header and the pixel data. */
  function ColourTableBytes(raw: seq<Byte>): (bs: seq<Byte>)
    ensures 14 + DibHeaderSizeBytes(raw) <= ImageDataOffset(raw) <= |raw| ==>
      bs == raw[14 + DibHeaderSizeBytes(raw)..ImageDataOffset(raw)]
    ensures ImageDataOffset(raw) <= 14 + DibHeaderSizeBytes(raw) ==> bs == []
  {
    Slice(raw, 14 + DibHeaderSizeBytes(raw), ImageDataOffset(raw))
  }

  /** Entry i of a colour table: the four bytes at 4i, or what is left of
      them at the end of the table. */
  function Entry(table: seq<Byte>, i: nat): (e: ColourTableEntry)
    ensures |e.inbytes| <= 4
    ensures 4 * i + 4 <= |table| ==> e.inbytes == table[4 * i..4 * i + 4]
    ensures 4 * i >= |table| ==> e.inbytes == []
  {
    ColourTableEntry(Slice(table, i * 4, (i + 1) * 4))
  }

  /** The table `colour_table` builds: one entry per palette colour, entry i
      made of the four bytes at 4i of the table bytes. An entry that lies
      inside the table is those four bytes of the file; one that runs past
      the end of the table is short or empty. */
  function ColourTableOf(raw: seq<Byte>): (t: seq<ColourTableEntry>)
    ensures |t| == NColoursInPalette(raw)
    ensures forall i | 0 <= i < |t| :: t[i] == Entry(ColourTableBytes(raw), i)
  {
    var table := ColourTableBytes(raw);
    seq(NColoursInPalette(raw), i requires 0 <= i => Entry(table, i))
  }

  /** `colour_table`: appends one entry per palette colour. */
  method ColourTable(raw: seq<Byte>) returns (output: seq<ColourTableEntry>)
    ensures output == ColourTableOf(raw)
  {
    var colourTableBytes := ColourTableBytes(raw);
    var n := NColoursInPalette(raw);
    output := [];
    for colour := 0 to n
      invariant |output| == colour
      invariant forall i | 0 <= i < colour :: output[i] == Entry(colourTableBytes, i)
    {
      output := output + [Entry(colourTableBytes, colour)];
    }
    assert output == ColourTableOf(raw);
  }

  /** A one-bit-per-pixel file laid out like the test image (321 x 240, a
      40-byte DIB header, two palette colours, pixel data at offset 62)
      decodes to those values, with black first and white second. */
  lemma MonochromeLayout(raw: seq<Byte>)
    requires |raw| >= 62
    requires raw[..2] == [0x42, 0x4D]
    requires raw[10..14] == [62, 0, 0, 0] && raw[14..18] == [40, 0, 0, 0]
    requires raw[18..22] == [0x41, 0x01, 0, 0] && raw[22..26] == [0xF0, 0, 0, 0]
    requires raw[28..30] == [1, 0] && raw[46..50] == [2, 0, 0, 0]
    requires raw[54..62] == [0, 0, 0, 0, 0xff, 0xff, 0xff, 0]
    ensures FileHeader(raw) == Some("BM")
    ensures ImageWidthPx(raw) == 321 && ImageHeightPx(raw) == 240
    ensures BitsPerPixel(raw) == 1 && NColoursInPalette(raw) == 2
    ensures |ColourTableOf(raw)| == 2
    ensures IsBlack(ColourTableOf(raw)[0]) && IsWhite(ColourTableOf(raw)[1])
  {
    FromBytesLE4(raw[10..14]);
    FromBytesLE4(raw[14..18]);
    FromBytesLE4(raw[18..22]);
    FromBytesLE4(raw[22..26]);
    FromBytesLE4(raw[46..50]);
    var table := ColourTableBytes(raw);
    assert table == raw[54..62];
    assert table[0..4] == [0, 0, 0, 0];
    assert table[4..8] == [0xff, 0xff, 0xff, 0];
  }

  /** A file with the 12-byte BITMAPCOREHEADER: its header ends before the
      bit count and colour count offsets the reader uses, so both read as 0
      and the colour table is empty. */
  lemma CoreHeaderReadsNoPalette(raw: seq<Byte>)
    requires |raw| >= 18 && raw[14..18] == [12, 0, 0, 0]
    ensures DibHeaderSizeBytes(raw) == 12
    ensures BitsPerPixel(raw) == 0 && NColoursInPalette(raw) == 0
    ensures ColourTableOf(raw) == []
  {
    FromBytesLE4(raw[14..18]);
  }

}
