/** `ncgr_get_pixels`: the CHAR payload of a graphics chunk turned into one palette
    index per pixel, row by row. */
module Pixels {
  import opened Bytes
  import opened Headers
  import opened Formats
  import opened Tiles

  /** A CHAR width of 0xffff means the dimensions are not stored. */
  const NO_DIMENSIONS := 0xffff

  /** The CHAR bit-depth codes: 3 for 4 bits per pixel, 4 for 8 bits per pixel. */
  const FOUR_BPP := 3
  const EIGHT_BPP := 4

  /** The width and height in pixels, and the number of pixels in the buffer. */
  datatype Dims = Dims(width: int, height: int, size: int)

  /** The `assert`s of `ncgr_get_pixels` that depend on the file. */
  datatype PixelAbort =
    | SizeMismatch  // the payload does not hold `size` pixels
    | NotFourBpp    // the assertion after the unpacking switch (see Findings)

  datatype PixelResult =
    | Decoded(pixels: seq<byte>, height: int, width: int)
    | NoImage                         // an unknown bit depth: a warning and NULL
    | PixelsAborted(why: PixelAbort)

  predicate KnownDepth(ch: CharHeader)
  {
    ch.bitDepth == FOUR_BPP || ch.bitDepth == EIGHT_BPP
  }

  /** The header values for which the size computation stays inside a 32-bit `int`:
      when it does not, the C program computes with an overflowed `size`. */
  predicate DimensionsDefined(ch: CharHeader)
  {
    if ch.width == NO_DIMENSIONS then
      && (ch.bitDepth == FOUR_BPP ==> 2 * ch.dataSize + 63 < 0x8000_0000)
      && (ch.bitDepth == EIGHT_BPP ==> ch.dataSize + 63 < 0x8000_0000)
    else (8 * ch.width) * (8 * ch.height) < 0x8000_0000
  }

  /** The dimensions: given in tiles by the header, or, when they are not, 64 pixels
      wide and as many rows as the payload's pixels need. */
  function Dimensions(ch: CharHeader): Dims
    requires DimensionsDefined(ch) && KnownDepth(ch)
  {
    if ch.width == NO_DIMENSIONS then
      var size := if ch.bitDepth == FOUR_BPP then ch.dataSize * 2 else ch.dataSize;
      Dims(64, (size + 63) / 64, size)
    else
      Dims(ch.width * 8, ch.height * 8, (ch.width * 8) * (ch.height * 8))
  }

  /** The 4-bit pixels of a payload, two per byte, the low nibble first. */
  function Unpack4(data: seq<byte>): (p: seq<byte>)
    ensures |p| == 2 * |data|
  {
    seq(2 * |data|, k requires 0 <= k < 2 * |data| =>
      if k % 2 == 0 then data[k / 2] % 16 else data[k / 2] / 16)
  }

  /** The inverse of `Unpack4`: pairs of 4-bit pixels packed back into bytes. */
  function Pack4(p: seq<byte>): (data: seq<byte>)
    requires |p| % 2 == 0 && forall k :: 0 <= k < |p| ==> p[k] < 16
    ensures |data| == |p| / 2
  {
    seq(|p| / 2, i requires 0 <= i < |p| / 2 => p[2 * i] as int + 16 * (p[2 * i + 1] as int))
  }

  /** What the size assertion of a bit depth checks. The one for 4-bit data compares an
      unsigned product, which wraps at 2^32. */
  predicate SizeMatches(ch: CharHeader)
    requires DimensionsDefined(ch) && KnownDepth(ch)
  {
    if ch.bitDepth == FOUR_BPP then (ch.dataSize * 2) % 0x1_0000_0000 == Dimensions(ch).size
    else ch.dataSize == Dimensions(ch).size
  }

  /** The graphics chunks `ncgr_get_pixels` is defined on: the payload is as long as the
      header says (`ncgr_read` guarantees this), the size does not overflow, the
      unpacking loop writes only inside the buffer, and the untiling loop reads only
      inside it. */
  predicate PixelsDefined(c: Chunk)
  {
    && c.Ncgr?
    && |c.data| == c.charHeader.dataSize
    && DimensionsDefined(c.charHeader)
    && (KnownDepth(c.charHeader) && SizeMatches(c.charHeader) ==>
          var d := Dimensions(c.charHeader);
          && (c.charHeader.bitDepth == FOUR_BPP ==> 2 * c.charHeader.dataSize == d.size)
          && (c.charHeader.tiled % 0x100 == 0 ==> UntileDefined(d.size, d.width, d.height)))
  }

  /** The buffer after the unpacking switch: one byte per pixel. */
  function Unpacked(c: Chunk): (buf: seq<byte>)
    requires PixelsDefined(c) && KnownDepth(c.charHeader) && SizeMatches(c.charHeader)
    ensures |buf| == Dimensions(c.charHeader).size
  {
    if c.charHeader.bitDepth == FOUR_BPP then Unpack4(c.data) else c.data
  }

  /** The image, untiled when the low byte of the `tiled` field is 0. */
  function Image(c: Chunk): (r: PixelResult)
    requires PixelsDefined(c) && KnownDepth(c.charHeader) && SizeMatches(c.charHeader)
  {
    var d := Dimensions(c.charHeader);
    var buf := Unpacked(c);
    Decoded(if c.charHeader.tiled % 0x100 == 0 then Untile(buf, d.width, d.height) else buf,
            d.height, d.width)
  }

  /** `ncgr_get_pixels` as written: the assertion after the switch aborts on every 8-bit
      graphic that the switch has just unpacked. */
  function PixelsAsWritten(c: Chunk): (r: PixelResult)
    requires PixelsDefined(c)
    ensures r == NoImage <==> !KnownDepth(c.charHeader)
    ensures r.Decoded? ==> c.charHeader.bitDepth == FOUR_BPP
  {
    var ch := c.charHeader;
    if !KnownDepth(ch) then NoImage
    else if !SizeMatches(ch) then PixelsAborted(SizeMismatch)
    else if ch.bitDepth != FOUR_BPP then PixelsAborted(NotFourBpp)
    else Image(c)
  }

  /** `ncgr_get_pixels` without the assertion that contradicts the switch before it: both
      bit depths give their image. */
  function Pixels(c: Chunk): (r: PixelResult)
    requires PixelsDefined(c)
    ensures r == NoImage <==> !KnownDepth(c.charHeader)
    ensures r.PixelsAborted? ==> r.why == SizeMismatch
    ensures r.Decoded? ==> KnownDepth(c.charHeader) && |r.pixels| == Dimensions(c.charHeader).size
  {
    var ch := c.charHeader;
    if !KnownDepth(ch) then NoImage
    else if !SizeMatches(ch) then PixelsAborted(SizeMismatch)
    else Image(c)
  }

  /** ncgr_get_pixels (without the assertion of line 592): the dimensions, a zeroed
      buffer, the unpacking loop of the bit depth, then the untiling pass. */
  method GetPixels(c: Chunk) returns (r: PixelResult)
    requires PixelsDefined(c)
    ensures r == Pixels(c)
  {
    var ch := c.charHeader;
    if !KnownDepth(ch) {
      return NoImage;
    }
    var width, height, size: int;
    if ch.width == NO_DIMENSIONS {
      width := 64;
      if ch.bitDepth == FOUR_BPP {
        size := ch.dataSize * 2;
      } else {
        size := ch.dataSize;
      }
      height := (size + 63) / width;
    } else {
      width := ch.width * 8;
      height := ch.height * 8;
      size := width * height;
    }
    assert Dims(width, height, size) == Dimensions(ch);
    var pixels := new byte[size](_ => 0);
    if ch.bitDepth == FOUR_BPP {
      if (ch.dataSize * 2) % 0x1_0000_0000 != size {
        return PixelsAborted(SizeMismatch);
      }
      UnpackFour(pixels, c.data);
    } else {
      if ch.dataSize != size {
        return PixelsAborted(SizeMismatch);
      }
      CopyEight(pixels, c.data);
    }
    if ch.tiled % 0x100 == 0 {
      UntileInPlace(pixels, width, height);
    }
    return Decoded(pixels[..], height, width);
  }

  /** The unpacking loop for 4 bits per pixel: `byte & 0x0f`, then `(byte >> 4) & 0x0f`. */
  method UnpackFour(pixels: array<byte>, data: seq<byte>)
    requires pixels.Length == 2 * |data|
    modifies pixels
    ensures pixels[..] == Unpack4(data)
  {
    for i := 0 to |data|
      invariant forall k :: 0 <= k < 2 * i ==> pixels[k] == Unpack4(data)[k]
    {
      var b := data[i];
      pixels[i * 2] := b % 16;
      pixels[i * 2 + 1] := b / 16;
    }
  }

  /** The unpacking loop for 8 bits per pixel: a copy. */
  method CopyEight(pixels: array<byte>, data: seq<byte>)
    requires pixels.Length == |data|
    modifies pixels
    ensures pixels[..] == data
  {
    for i := 0 to |data|
      invariant forall k :: 0 <= k < i ==> pixels[k] == data[k]
    {
      pixels[i] := data[i];
    }
  }

  /** The outcome, case by case: no image exactly for an unknown bit depth, an abort
      exactly when the payload's size is not the image's, and otherwise an image of the
      computed dimensions with one byte per pixel. */
  lemma PixelsCases(c: Chunk)
    requires PixelsDefined(c)
    ensures Pixels(c).NoImage? <==> !KnownDepth(c.charHeader)
    ensures Pixels(c).PixelsAborted? <==> KnownDepth(c.charHeader) && !SizeMatches(c.charHeader)
    ensures Pixels(c).Decoded? ==>
      var d := Dimensions(c.charHeader);
      Pixels(c).width == d.width && Pixels(c).height == d.height && |Pixels(c).pixels| == d.size
  {
  }

  /** The dimensions hold the buffer: given dimensions are whole tiles and the buffer
      fills them; guessed ones are 64 pixels wide with just enough rows for the buffer. */
  lemma DimensionsCover(ch: CharHeader)
    requires DimensionsDefined(ch) && KnownDepth(ch)
    ensures var d := Dimensions(ch);
      && d.width % 8 == 0 && 0 <= d.height && 0 <= d.size <= d.width * d.height
      && (ch.width != NO_DIMENSIONS ==> d.height % 8 == 0 && d.size == d.width * d.height)
      && (ch.width == NO_DIMENSIONS ==> d.width == 64 && (d.height > 0 ==> 64 * (d.height - 1) < d.size))
  {
    var d := Dimensions(ch);
    if ch.width == NO_DIMENSIONS {
      assert d.size + 63 == 64 * d.height + (d.size + 63) % 64;
    }
  }

  /** With given dimensions the untiling pass stays inside the buffer: the requirement
      on untiling only restricts the guessed dimensions. */
  lemma GivenDimensionsUntile(ch: CharHeader)
    requires DimensionsDefined(ch) && KnownDepth(ch) && ch.width != NO_DIMENSIONS
    ensures var d := Dimensions(ch); UntileDefined(d.size, d.width, d.height)
  {
    var d := Dimensions(ch);
    assert (d.height / 8) * (d.width / 8) * 64 == (ch.height * ch.width) * 64;
    assert d.size == (ch.width * ch.height) * 64;
  }

  /** With guessed dimensions a buffer that falls short of the last row of tiles is read
      past its end: 500 pixels of 8 bits give 8 rows, one row of tiles of 512 pixels. */
  lemma GuessedDimensionsOverread()
    ensures var ch := CharHeader(0, 0, 0, NO_DIMENSIONS, EIGHT_BPP, 0, 0, 500, 0);
      && DimensionsDefined(ch) && KnownDepth(ch)
      && Dimensions(ch) == Dims(64, 8, 500)
      && !UntileDefined(500, 64, 8)
  {
  }

  /** With guessed dimensions the untiling pass stays inside the buffer unless the guessed
      height is a whole number of tile rows and is reached only by rounding up: it reads
      past the buffer exactly when the height is a multiple of 8 and the size is not a
      multiple of 64. */
  lemma GuessedDimensionsUntile(ch: CharHeader)
    requires DimensionsDefined(ch) && KnownDepth(ch) && ch.width == NO_DIMENSIONS
    ensures var d := Dimensions(ch);
      UntileDefined(d.size, d.width, d.height) <==> d.height % 8 != 0 || d.size % 64 == 0
  {
    var d := Dimensions(ch);
    DimensionsCover(ch);
    var h, q := d.height, d.height / 8;
    assert h == 8 * q + h % 8;
    assert (h / 8) * (d.width / 8) * 64 == 512 * q;
    if h % 8 == 0 {
      if d.size % 64 == 0 {
        assert d.size == 64 * (d.size / 64);
        assert d.size + 63 == 64 * (d.size / 64) + 63;
        DivModUnique(d.size + 63, 64, d.size / 64, 63);
      } else {
        assert d.size == 64 * (d.size / 64) + d.size % 64;
        DivModUnique(d.size + 63, 64, d.size / 64 + 1, d.size % 64 - 1);
      }
    } else {
      assert 512 * q <= 64 * (h - 1);
    }
  }

  /** With guessed dimensions a tiled image whose last row of tiles is incomplete keeps
      only the whole rows of tiles: the pixels of the partial row stay blank. */
  lemma GuessedDimensionsBlank(c: Chunk, k: int)
    requires PixelsDefined(c) && Pixels(c).Decoded?
    requires c.charHeader.width == NO_DIMENSIONS && c.charHeader.tiled % 0x100 == 0
    requires 64 * (8 * (Pixels(c).height / 8)) <= k < |Pixels(c).pixels|
    ensures Pixels(c).pixels[k] == 0
  {
    var d := Dimensions(c.charHeader);
    UntileBlanksPartialRow(Unpacked(c), d.width, d.height, k);
  }

  /** 288 bytes of 4-bit pixels give 576 pixels in 9 rows: the untiled image holds the
      first row of tiles, and its last 64 pixels are blank. */
  lemma GuessedNineRows(c: Chunk, k: int)
    requires PixelsDefined(c) && c.charHeader.width == NO_DIMENSIONS
    requires c.charHeader.bitDepth == FOUR_BPP && c.charHeader.dataSize == 288
    requires c.charHeader.tiled % 0x100 == 0 && 512 <= k < 576
    ensures Pixels(c).Decoded? && Pixels(c).height == 9 && |Pixels(c).pixels| == 576
    ensures Pixels(c).pixels[k] == 0
  {
    assert Dimensions(c.charHeader) == Dims(64, 9, 576);
    GuessedDimensionsBlank(c, k);
  }

  /** 4-bit pixels are the nibbles of the payload, low nibble first; they are below 16
      and pack back into the payload. */
  lemma {:induction false} Unpack4RoundTrip(data: seq<byte>)
    ensures var p := Unpack4(data);
      && (forall i :: 0 <= i < |data| ==> p[2 * i] == data[i] % 16 && p[2 * i + 1] == data[i] / 16)
      && (forall k :: 0 <= k < |p| ==> p[k] < 16)
      && Pack4(p) == data
  {
    var p := Unpack4(data);
    forall i | 0 <= i < |data|
      ensures p[2 * i] == data[i] % 16 && p[2 * i + 1] == data[i] / 16
    {
      Nibbles(data, i);
    }
    Unpack4Bound(data);
    Unpack4Packs(data);
  }

  /** Every unpacked pixel is a 4-bit value. */
  lemma Unpack4Bound(data: seq<byte>)
    ensures forall k :: 0 <= k < |Unpack4(data)| ==> Unpack4(data)[k] < 16
  {
    forall k | 0 <= k < |Unpack4(data)|
      ensures Unpack4(data)[k] < 16
    {
      NibbleBound(data, k);
    }
  }

  lemma NibbleBound(data: seq<byte>, k: int)
    requires 0 <= k < 2 * |data|
    ensures Unpack4(data)[k] < 16
  {
    var b := data[k / 2];
    assert b / 16 < 16;
  }

  /** Packing the unpacked pixels gives the bytes back. */
  lemma Unpack4Packs(data: seq<byte>)
    requires forall k :: 0 <= k < |Unpack4(data)| ==> Unpack4(data)[k] < 16
    ensures Pack4(Unpack4(data)) == data
  {
    var p := Unpack4(data);
    assert |p| % 2 == 0;
    forall i | 0 <= i < |data|
      ensures Pack4(p)[i] == data[i]
    {
      Nibbles(data, i);
    }
  }

  /** The two pixels of byte `i`, and the byte they pack back into. */
  lemma Nibbles(data: seq<byte>, i: int)
    requires 0 <= i < |data|
    ensures Unpack4(data)[2 * i] == data[i] % 16 && Unpack4(data)[2 * i + 1] == data[i] / 16
    ensures data[i] == data[i] % 16 + 16 * (data[i] / 16)
  {
    assert (2 * i) / 2 == i && (2 * i) % 2 == 0;
    assert (2 * i + 1) / 2 == i && (2 * i + 1) % 2 == 1;
  }

  /** Packing pixels below 16 and unpacking them gives the pixels back. */
  lemma {:induction false} Pack4RoundTrip(p: seq<byte>)
    requires |p| % 2 == 0 && forall k :: 0 <= k < |p| ==> p[k] < 16
    ensures Unpack4(Pack4(p)) == p
  {
    var d := Pack4(p);
    forall k | 0 <= k < |p|
      ensures Unpack4(d)[k] == p[k]
    {
      var i := k / 2;
      assert k == 2 * i + k % 2;
      assert d[i] == p[2 * i] as int + 16 * (p[2 * i + 1] as int);
      DivModUnique(d[i], 16, p[2 * i + 1], p[2 * i]);
    }
  }

  /** An untiled image of given dimensions holds the same pixels as the unpacked
      buffer, in a different order: putting it back into tile order restores it. */
  lemma TiledImagePermutes(c: Chunk)
    requires PixelsDefined(c) && Pixels(c).Decoded?
    requires c.charHeader.width != NO_DIMENSIONS && c.charHeader.width > 0
    requires c.charHeader.tiled % 0x100 == 0
    ensures var d := Dimensions(c.charHeader);
      Retile(Pixels(c).pixels, d.width, d.height) == Unpacked(c)
  {
    var d := Dimensions(c.charHeader);
    DimensionsCover(c.charHeader);
    UntileRetile(Unpacked(c), d.width, d.height);
  }

  /** A graphic whose `tiled` field has a non-zero low byte is used as stored; with 4-bit
      pixels that means the nibbles of the payload, which pack back into it. */
  lemma LinearFourBpp(c: Chunk)
    requires PixelsDefined(c) && Pixels(c).Decoded?
    requires c.charHeader.bitDepth == FOUR_BPP && c.charHeader.tiled % 0x100 != 0
    ensures Pixels(c).pixels == Unpack4(c.data)
  {
  }

  /** As written, every 8-bit graphic whose size matches aborts, while without the
      assertion it yields its payload (untiled when tiled); for 4-bit graphics and all
      other inputs the two agree. */
  lemma EightBppAborts(c: Chunk)
    requires PixelsDefined(c)
    ensures c.charHeader.bitDepth == EIGHT_BPP && SizeMatches(c.charHeader) ==>
      && PixelsAsWritten(c) == PixelsAborted(NotFourBpp)
      && Pixels(c).Decoded?
      && Unpacked(c) == c.data
    ensures !(c.charHeader.bitDepth == EIGHT_BPP && SizeMatches(c.charHeader)) ==>
      PixelsAsWritten(c) == Pixels(c)
  {
  }

  /** A concrete case: one 8x8 tile of 8-bit pixels, stored linearly. */
  lemma EightBppTile(data: seq<byte>)
    requires |data| == 64
    ensures var c := Ncgr(StandardHeader(0, 0, 0, 0, 0, 1), CharHeader(0, 0, 1, 1, EIGHT_BPP, 0, 1, 64, 0), data);
      && PixelsDefined(c)
      && PixelsAsWritten(c) == PixelsAborted(NotFourBpp)
      && Pixels(c) == Decoded(data, 8, 8)
  {
  }
}
