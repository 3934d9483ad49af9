/** Four-character chunk tags (`magic_t`). GCC packs a multi-character constant such as
    'NCGR' with its first character in the most significant byte, and the files store each
    tag so that a little-endian 32-bit read gives exactly that constant. */
module Tags {
  import opened Bytes

  type tag = u32

  /** 'CRAN': what the archive magic reads as ("NARC" stored byte-reversed). */
  const CRAN: tag := 0x4352_414E
  const FATB: tag := 0x4641_5442
  const FNTB: tag := 0x464E_5442
  const FIMG: tag := 0x4649_4D47
  const NCGR: tag := 0x4E43_4752
  const NCLR: tag := 0x4E43_4C52
  const NCER: tag := 0x4E43_4552
  const NMAR: tag := 0x4E4D_4152
  const NMCR: tag := 0x4E4D_4352
  const NANR: tag := 0x4E41_4E52
  const CHAR: tag := 0x4348_4152
  const PLTT: tag := 0x504C_5454

  /** `m >> bits & 0xff` for the shifts `strmagic` uses. */
  function ByteOf(m: tag, shift: nat): byte
    requires shift in {0, 8, 16, 24}
  {
    if shift == 24 then m / 0x100_0000
    else if shift == 16 then (m / 0x1_0000) % 0x100
    else if shift == 8 then (m / 0x100) % 0x100
    else m % 0x100
  }

  /** The tag's four characters in reading order, most significant byte first. */
  function TagBytes(m: tag): (b: seq<byte>)
    ensures |b| == 4
  {
    [ByteOf(m, 24), ByteOf(m, 16), ByteOf(m, 8), ByteOf(m, 0)]
  }

  /** The tag spelled by four characters in reading order. */
  function TagOf(b: seq<byte>): tag
    requires |b| == 4
  {
    0x100_0000 * (b[0] as int) + 0x1_0000 * (b[1] as int) + 0x100 * (b[2] as int) + b[3] as int
  }

  function CharOfByte(b: byte): char { b as char }

  function ByteOfChar(c: char): byte
    requires c as int < 0x100
  {
    c as int
  }

  /** The five characters `strmagic` writes: the tag's four bytes, then a NUL. */
  function MagicString(m: tag): (s: string)
    ensures |s| == 5
  {
    var b := TagBytes(m);
    [CharOfByte(b[0]), CharOfByte(b[1]), CharOfByte(b[2]), CharOfByte(b[3]), '\0']
  }

  /** strmagic: renders `magic` into the five-character buffer `buf` and returns it. */
  method StrMagic(magic: tag, buf: array<char>) returns (r: array<char>)
    requires buf.Length == 5
    modifies buf
    ensures r == buf && buf[..] == MagicString(magic)
  {
    for i := 0 to 4
      invariant forall j :: 0 <= j < i ==> buf[j] == MagicString(magic)[j]
    {
      var shift: nat := (3 - i) * 8;
      buf[i] := CharOfByte(ByteOf(magic, shift));
    }
    buf[4] := '\0';
    r := buf;
  }

  /** The four characters in reading order spell the tag back. */
  lemma {:induction false} TagBytesRoundTrip(m: tag)
    ensures TagOf(TagBytes(m)) == m
  {
    var hi: int := m / 0x1_0000;
    var lo: int := m % 0x1_0000;
    assert m == 0x1_0000 * hi + lo;
    assert hi == 0x100 * (hi / 0x100) + hi % 0x100;
    assert lo == 0x100 * (lo / 0x100) + lo % 0x100;
    assert ByteOf(m, 16) == hi % 0x100 && ByteOf(m, 24) == hi / 0x100;
    assert ByteOf(m, 8) == lo / 0x100 && ByteOf(m, 0) == lo % 0x100;
  }

  /** The rendering loses nothing: the four characters spell the tag back, and the
      string is NUL-terminated. */
  lemma {:induction false} MagicStringRoundTrip(m: tag)
    ensures var s := MagicString(m);
      && s[4] == '\0'
      && (forall i :: 0 <= i < 4 ==> s[i] as int < 0x100)
      && TagOf(seq(4, i requires 0 <= i < 4 => ByteOfChar(s[i]))) == m
  {
    var s := MagicString(m);
    var b := TagBytes(m);
    assert seq(4, i requires 0 <= i < 4 => ByteOfChar(s[i])) == b;
    TagBytesRoundTrip(m);
  }

  /** A file stores a tag as the reverse of its reading order ("RGCN" for 'NCGR'), so
      that the little-endian read of those bytes is the tag. */
  lemma StoredTag(m: tag, s: seq<byte>, off: nat)
    requires off + 4 <= |s|
    requires s[off .. off + 4] == [TagBytes(m)[3], TagBytes(m)[2], TagBytes(m)[1], TagBytes(m)[0]]
    ensures Le32(s, off) == m
  {
    assert s[off] == TagBytes(m)[3] && s[off + 1] == TagBytes(m)[2];
    assert s[off + 2] == TagBytes(m)[1] && s[off + 3] == TagBytes(m)[0];
    TagBytesRoundTrip(m);
  }

  /** Every tag the readers look for begins with a nonzero character, so a tag read
      short (its missing bytes left zero) never equals one of them. */
  predicate FullTag(m: tag) { m >= 0x100_0000 }

  lemma KnownTagsAreFull()
    ensures FullTag(CRAN) && FullTag(FATB) && FullTag(FNTB) && FullTag(FIMG)
    ensures FullTag(NCGR) && FullTag(NCLR) && FullTag(NCER) && FullTag(NMAR)
    ensures FullTag(NMCR) && FullTag(NANR) && FullTag(CHAR) && FullTag(PLTT)
  {
  }
}
