/** The fixed-layout structs the readers fill with one `fread` each, and how their
    fields sit in the bytes (little-endian, no padding between fields). */
module Headers {
  import opened Bytes
  import opened Tags

  /** struct standard_header: 16 bytes opening an archive and every Nitro file. */
  datatype StandardHeader = StandardHeader(
    magic: tag, bom: u16, version: u16, size: u32, headerSize: u16, chunkCount: u16)

  const STANDARD_HEADER_SIZE := 16

  function ParseStandardHeader(b: seq<byte>): StandardHeader
    requires |b| == STANDARD_HEADER_SIZE
  {
    StandardHeader(Le32(b, 0), Le16(b, 4), Le16(b, 6), Le32(b, 8), Le16(b, 12), Le16(b, 14))
  }

  /** The header of the FATB chunk: tag, chunk size, number of members (12 bytes). */
  datatype FatbHeader = FatbHeader(magic: tag, size: u32, fileCount: u32)

  const FATB_HEADER_SIZE := 12

  function ParseFatbHeader(b: seq<byte>): FatbHeader
    requires |b| == FATB_HEADER_SIZE
  {
    FatbHeader(Le32(b, 0), Le32(b, 4), Le32(b, 8))
  }

  /** struct fatb_record: a member's byte range, relative to the start of FIMG's data. */
  datatype Record = Record(start: u32, end: u32)

  const RECORD_SIZE := 8

  /** The `n` records stored back to back in `b`. */
  function ParseRecords(b: seq<byte>, n: nat): (r: seq<Record>)
    requires |b| == RECORD_SIZE * n
    ensures |r| == n
    ensures forall i :: 0 <= i < n ==> r[i] == Record(Le32(b, 8 * i), Le32(b, 8 * i + 4))
  {
    seq(n, i requires 0 <= i < n => Record(Le32(b, 8 * i), Le32(b, 8 * i + 4)))
  }

  /** A bare chunk header, tag and size (8 bytes): FNTB's, and FIMG's. */
  datatype SectionHeader = SectionHeader(magic: tag, size: u32)

  const SECTION_HEADER_SIZE := 8

  function ParseSectionHeader(b: seq<byte>): SectionHeader
    requires |b| == SECTION_HEADER_SIZE
  {
    SectionHeader(Le32(b, 0), Le32(b, 4))
  }

  /** The header of the CHAR chunk inside an NCGR file (32 bytes). `width` and `height`
      count 8-pixel tiles; a width of 0xffff means the dimensions are not given. */
  datatype CharHeader = CharHeader(
    magic: tag, size: u32, height: u16, width: u16,
    bitDepth: u32, padding: u32, tiled: u32, dataSize: u32, unknown: u32)

  const CHAR_HEADER_SIZE := 32

  function ParseCharHeader(b: seq<byte>): CharHeader
    requires |b| == CHAR_HEADER_SIZE
  {
    CharHeader(Le32(b, 0), Le32(b, 4), Le16(b, 8), Le16(b, 10),
               Le32(b, 12), Le32(b, 16), Le32(b, 20), Le32(b, 24), Le32(b, 28))
  }

  /** The header of the PLTT chunk inside an NCLR file (24 bytes). */
  datatype PlttHeader = PlttHeader(
    magic: tag, size: u32, bitDepth: u16, unknown: u16,
    padding: u32, dataSize: u32, colorCount: u32)

  const PLTT_HEADER_SIZE := 24

  function ParsePlttHeader(b: seq<byte>): PlttHeader
    requires |b| == PLTT_HEADER_SIZE
  {
    PlttHeader(Le32(b, 0), Le32(b, 4), Le16(b, 8), Le16(b, 10),
               Le32(b, 12), Le32(b, 16), Le32(b, 20))
  }

  /** The tag at the front of a struct filled by a possibly short read: when fewer
      than four bytes arrived, its top byte is one of the zeros already there, so it
      is none of the tags the readers look for. */
  lemma ShortTag(s: seq<byte>, n: nat)
    requires |s| < 4 && 4 <= n
    ensures !FullTag(Le32(Pad(s, n), 0))
  {
    assert Pad(s, n)[3] == 0;
  }

  /** A tag read in full is the same whichever struct it was read into. */
  lemma {:induction false} TagOfPrefix(s: seq<byte>, n: nat, t: seq<byte>, m: nat)
    requires |s| <= n && |t| <= m && 4 <= |s| && 4 <= |t| && s[..4] == t[..4]
    ensures Le32(Pad(s, n), 0) == Le32(Pad(t, m), 0)
  {
    var p, q := Pad(s, n), Pad(t, m);
    assert p[..|s|] == s && q[..|t|] == t;
    assert p[0] == s[0] == t[0] == q[0] && p[1] == s[1] == t[1] == q[1];
    assert p[2] == s[2] == t[2] == q[2] && p[3] == s[3] == t[3] == q[3];
  }
}
