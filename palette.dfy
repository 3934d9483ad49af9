/** `nclr_get_colors`: a palette chunk's BGR555 words unpacked into RGBA entries whose
    channels keep the 5-bit scale of the DS. */
module Palette {
  import opened Wrappers
  import opened Bytes
  import opened Headers
  import opened Formats

  /** struct rgba. */
  datatype Rgba = Rgba(r: byte, g: byte, b: byte, a: byte)

  /** How many entries `nclr_get_colors` unpacks: 256 for an 8-bit palette, otherwise the
      declared count (as a 32-bit `int`), less 256 when it exceeds 256. */
  function ColorCount(ph: PlttHeader): (n: int)
    ensures ph.bitDepth == 4 ==> n == 256
    ensures -0x8000_0000 <= n < 0x8000_0000 - 256
  {
    if ph.bitDepth == 4 then 256
    else
      var c := Int32(ph.colorCount);
      if c > 256 then c - 256 else c
  }

  /** Entry `i` of a palette, from its stored word `w`: red in bits 0-4, green in bits
      5-9, blue in bits 10-14; the first entry is opaque (31), every other one 0. */
  function ColorOf(w: u16, i: int): (c: Rgba)
    ensures c.r < 32 && c.g < 32 && c.b < 32
    ensures c.a == 31 <==> i == 0
  {
    Rgba(w % 0x20, (w / 0x20) % 0x20, (w / 0x400) % 0x20, if i == 0 then 31 else 0)
  }

  /** The `i`th 16-bit word of the palette data. */
  function WordAt(data: seq<byte>, i: nat): u16
    requires 2 * i + 2 <= |data|
  {
    Le16(data, 2 * i)
  }

  /** Whether the palette holds a word for every entry `nclr_get_colors` reads; when it
      does not, the C code reads past the end of the payload. */
  predicate ColorsInBounds(c: Chunk, index: int)
    requires c.Nclr?
  {
    0 <= index < c.header.chunkCount && ColorCount(c.plttHeader) >= 0 ==>
      2 * ColorCount(c.plttHeader) <= |c.data|
  }

  /** What `nclr_get_colors(c, index)` returns: NULL for an index outside the chunk
      count, and for a negative entry count, where `calloc` is asked for more memory
      than exists; otherwise the entries. */
  function Colors(c: Chunk, index: int): (r: Option<seq<Rgba>>)
    requires c.Nclr? && ColorsInBounds(c, index)
    ensures r.Some? ==> |r.value| == ColorCount(c.plttHeader)
  {
    if !(0 <= index < c.header.chunkCount) then None
    else
      var n := ColorCount(c.plttHeader);
      if n < 0 then None
      else Some(seq(n, i requires 0 <= i < n => ColorOf(WordAt(c.data, i), i)))
  }

  /** nclr_get_colors: allocates the entries and fills them in one loop. */
  method GetColors(c: Chunk, index: int) returns (colors: array?<Rgba>)
    requires c.Nclr? && ColorsInBounds(c, index)
    ensures colors == null <==> Colors(c, index).None?
    ensures colors != null ==> fresh(colors) && colors[..] == Colors(c, index).value
  {
    if !(0 <= index < c.header.chunkCount) {
      return null;
    }
    var size := Int32(c.plttHeader.colorCount);
    if c.plttHeader.bitDepth == 4 {
      size := 256;
    } else if size > 256 {
      size := size - 256;
    }
    if size < 0 {
      return null;
    }
    colors := new Rgba[size](_ => Rgba(0, 0, 0, 0));
    for i := 0 to size
      invariant forall j :: 0 <= j < i ==> colors[j] == ColorOf(WordAt(c.data, j), j)
    {
      var w := Le16(c.data, 2 * i);
      colors[i] := Rgba(w % 0x20, (w / 0x20) % 0x20, (w / 0x400) % 0x20, if i == 0 then 31 else 0);
    }
  }

  /** The entry count, case by case: 256 for a palette of bit depth 4; otherwise the
      declared count when it is at most 256, that count less 256 when it is above 256
      but fits a 32-bit `int`, and a negative number when it does not. */
  lemma ColorCountCases(ph: PlttHeader)
    ensures ph.bitDepth == 4 ==> ColorCount(ph) == 256
    ensures ph.bitDepth != 4 && ph.colorCount <= 256 ==> ColorCount(ph) == ph.colorCount
    ensures ph.bitDepth != 4 && 256 < ph.colorCount < 0x8000_0000 ==> ColorCount(ph) == ph.colorCount - 256
    ensures ph.bitDepth != 4 && ph.colorCount >= 0x8000_0000 ==> ColorCount(ph) < 0
  {
  }

  /** The call yields entries exactly when the index is below the chunk
      count and the entry count is not negative. */
  lemma ColorsExactly(c: Chunk, index: int)
    requires c.Nclr? && ColorsInBounds(c, index)
    ensures Colors(c, index).Some? <==> 0 <= index < c.header.chunkCount && ColorCount(c.plttHeader) >= 0
  {
  }

  /** The three channels of an entry are 5-bit values that together give back the low
      15 bits of the stored word: the unpacking loses nothing but the top bit. */
  lemma ChannelsLossless(w: u16, i: int)
    ensures var e := ColorOf(w, i);
      && e.r <= 31 && e.g <= 31 && e.b <= 31
      && e.r as int + 0x20 * (e.g as int) + 0x400 * (e.b as int) == w % 0x8000
  {
    var q1: int := w / 0x20;
    var q2: int := q1 / 0x20;
    assert w == 0x20 * q1 + w % 0x20;
    assert q1 == 0x20 * q2 + q1 % 0x20;
    assert w / 0x400 == q2;
    assert w == 0x400 * q2 + 0x20 * (q1 % 0x20) + w % 0x20;
    assert q2 == 0x20 * (q2 / 0x20) + q2 % 0x20;
    assert w == 0x8000 * (q2 / 0x20) + (0x400 * (q2 % 0x20) + 0x20 * (q1 % 0x20) + w % 0x20);
  }

  /** Every entry: channels at most 31, alpha 31 for the first entry and 0 for the rest,
      and the channels are the fields of the entry's own word of the payload. */
  lemma ColorsContents(c: Chunk, index: int)
    requires c.Nclr? && ColorsInBounds(c, index) && Colors(c, index).Some?
    ensures var cs := Colors(c, index).value;
      forall i :: 0 <= i < |cs| ==>
        && cs[i].r <= 31 && cs[i].g <= 31 && cs[i].b <= 31
        && cs[i].a == (if i == 0 then 31 else 0)
        && cs[i].r as int + 0x20 * (cs[i].g as int) + 0x400 * (cs[i].b as int) == Le16(c.data, 2 * i) % 0x8000
  {
    var cs := Colors(c, index).value;
    forall i | 0 <= i < |cs|
      ensures && cs[i].r <= 31 && cs[i].g <= 31 && cs[i].b <= 31
              && cs[i].a == (if i == 0 then 31 else 0)
              && cs[i].r as int + 0x20 * (cs[i].g as int) + 0x400 * (cs[i].b as int) == Le16(c.data, 2 * i) % 0x8000
    {
      ChannelsLossless(WordAt(c.data, i), i);
    }
  }

  /** White (0x7fff) unpacks to full intensity in every channel, and black to zero. */
  lemma WhiteAndBlack()
    ensures ColorOf(0x7fff, 1) == Rgba(31, 31, 31, 0)
    ensures ColorOf(0, 0) == Rgba(0, 0, 0, 31)
  {
  }
}
