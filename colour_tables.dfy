/** One entry of a bitmap's colour table: the bytes (blue, green, red,
    reserved) of an RGBQUAD, kept as given, with the colour channels decoded
    from them. */
module ColourTables {
  import opened Common
  import opened Bytes

  /** An entry holds whatever bytes it was built from; a short slice at the
      end of the table gives an entry of fewer than four bytes. */
  datatype ColourTableEntry = ColourTableEntry(inbytes: seq<Byte>)

  /** The value of the one byte at `index`, or 0 when the entry is shorter
      (`int.from_bytes` of an empty slice). */
  function Channel(e: ColourTableEntry, index: nat): (v: nat)
    ensures v < 256
    ensures index < |e.inbytes| ==> v == e.inbytes[index]
    ensures index >= |e.inbytes| ==> v == 0
  {
    var bs := Slice(e.inbytes, index, index + 1);
    SmallFields(bs);
    FromBytesLE(bs)
  }

  /** The red channel, the third byte. */
  function Red(e: ColourTableEntry): (v: nat)
    ensures v < 256
    ensures v == if |e.inbytes| > 2 then e.inbytes[2] else 0
  {
    Channel(e, 2)
  }

  /** The green channel, the second byte. */
  function Green(e: ColourTableEntry): (v: nat)
    ensures v < 256
    ensures v == if |e.inbytes| > 1 then e.inbytes[1] else 0
  {
    Channel(e, 1)
  }

  /** The blue channel, the first byte. */
  function Blue(e: ColourTableEntry): (v: nat)
    ensures v < 256
    ensures v == if |e.inbytes| > 0 then e.inbytes[0] else 0
  {
    Channel(e, 0)
  }

  /** The channels in the order red, green, blue: the reverse of their order
      in the entry's bytes. */
  function Rgb(e: ColourTableEntry): (c: (nat, nat, nat))
    ensures c.0 < 256 && c.1 < 256 && c.2 < 256
    ensures |e.inbytes| >= 3 ==> c == (e.inbytes[2], e.inbytes[1], e.inbytes[0])
  {
    (Red(e), Green(e), Blue(e))
  }

  /** White is exactly the four bytes ff ff ff 00; such an entry has the
      channels (255, 255, 255). */
  predicate IsWhite(e: ColourTableEntry)
    ensures IsWhite(e) ==> |e.inbytes| == 4 && Rgb(e) == (255, 255, 255)
  {
    e.inbytes == [0xff, 0xff, 0xff, 0x00]
  }

  /** Black is exactly the four bytes 00 00 00 00; such an entry has the
      channels (0, 0, 0). */
  predicate IsBlack(e: ColourTableEntry)
    ensures IsBlack(e) ==> |e.inbytes| == 4 && Rgb(e) == (0, 0, 0)
  {
    e.inbytes == [0x00, 0x00, 0x00, 0x00]
  }

  /** No entry is both white and black. */
  lemma WhiteIsNotBlack(e: ColourTableEntry)
    ensures !(IsWhite(e) && IsBlack(e))
  {
    if IsWhite(e) {
      assert e.inbytes[0] != 0;
    }
  }

  /** The byte comparisons agree with the channel comparisons they replace
      in one direction only (see IsWhite and IsBlack). The other direction
      fails: a non-zero reserved byte, or a short entry,
      has white or black channels without being white or black. */
  lemma ChannelsDoNotGiveExactBytes()
    ensures Rgb(ColourTableEntry([0xff, 0xff, 0xff, 0x07])) == (255, 255, 255)
    ensures !IsWhite(ColourTableEntry([0xff, 0xff, 0xff, 0x07]))
    ensures Rgb(ColourTableEntry([])) == (0, 0, 0) && !IsBlack(ColourTableEntry([]))
  {
  }
}
