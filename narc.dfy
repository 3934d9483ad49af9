/** The NARC archive reader: `narc_init`, `narc_load` and `narc_load_file`.

    `ParseNarc` and `MemberAt` say, over the bytes of the file and absolute offsets, what
    loading an archive and one of its members yields; the `Archive` class is the
    `struct NARC` that the C functions fill through a moving file cursor, and its
    methods are proved to agree with those two functions. */
module Narc {
  import opened Wrappers
  import opened Bytes
  import opened Tags
  import opened Headers
  import opened Stream
  import opened Formats

  /** Why `narc_load` returns FAIL, or aborts. */
  datatype LoadError =
    | NotANarc                 // the magic is not 'CRAN'
    | Truncated                // a read came up short
    | LoadAborted(why: Abort)  // a chunk tag assertion failed

  /** What a successful `narc_load` records in struct NARC. */
  datatype NarcInfo = NarcInfo(
    header: StandardHeader, fatb: FatbHeader, records: seq<Record>,
    fntb: SectionHeader, dataOffset: nat)

  /** Where the FNTB chunk's header starts, after the FATB records. */
  function FntbAt(fileCount: nat): nat { 16 + FATB_HEADER_SIZE + RECORD_SIZE * fileCount }

  /** fseeko(fp, (off_t)(fntb.size - sizeof fntb.header), SEEK_CUR): the unsigned
      difference, truncated to a 32-bit `int`. */
  function FntbSkip(fntb: SectionHeader): int
  {
    Int32((fntb.size - SECTION_HEADER_SIZE) % 0x1_0000_0000)
  }

  /** Where the FIMG header is read: past the FNTB header and its skip, unless that
      target is negative, in which case the seek fails and the position stays. */
  function FimgAt(fileCount: nat, fntb: SectionHeader): nat
  {
    var here := FntbAt(fileCount) + SECTION_HEADER_SIZE;
    if here + FntbSkip(fntb) >= 0 then here + FntbSkip(fntb) else here
  }

  /** narc_load on a freshly initialised archive whose file holds `file`. The header
      structs were zeroed by `narc_init`, so a short read leaves zeros after the bytes
      it delivered (the FIMG header is a local; it is taken as zeroed too, and either
      way such a read fails). */
  function ParseNarc(file: seq<byte>): Result<NarcInfo, LoadError>
  {
    var header := ParseStandardHeader(Pad(Slice(file, 0, STANDARD_HEADER_SIZE), STANDARD_HEADER_SIZE));
    if header.magic != CRAN then Err(NotANarc)
    else ParseFatb(file, header)
  }

  /** The FATB chunk: its header, then its records. */
  function ParseFatb(file: seq<byte>, header: StandardHeader): Result<NarcInfo, LoadError>
  {
    var fatb := ParseFatbHeader(Pad(Slice(file, 16, FATB_HEADER_SIZE), FATB_HEADER_SIZE));
    if fatb.magic != FATB then Err(LoadAborted(MissingTag(FATB)))
    else if |file| < FntbAt(0) || |file| < FntbAt(fatb.fileCount) then Err(Truncated)
    else ParseFntb(file, header, fatb, ParseRecords(file[FntbAt(0) .. FntbAt(fatb.fileCount)], fatb.fileCount))
  }

  /** The FNTB chunk's header, which is checked and then skipped. */
  function ParseFntb(file: seq<byte>, header: StandardHeader, fatb: FatbHeader, records: seq<Record>)
    : Result<NarcInfo, LoadError>
  {
    var at := FntbAt(fatb.fileCount);
    var fntb := ParseSectionHeader(Pad(Slice(file, at, SECTION_HEADER_SIZE), SECTION_HEADER_SIZE));
    if fntb.magic != FNTB then Err(LoadAborted(MissingTag(FNTB)))
    else if |file| < at + SECTION_HEADER_SIZE then Err(Truncated)
    else ParseFimg(file, header, fatb, records, fntb)
  }

  /** The FIMG chunk's header, after which the members' data begins. */
  function ParseFimg(file: seq<byte>, header: StandardHeader, fatb: FatbHeader, records: seq<Record>,
                     fntb: SectionHeader): Result<NarcInfo, LoadError>
  {
    var at := FimgAt(fatb.fileCount, fntb);
    var fimg := ParseSectionHeader(Pad(Slice(file, at, SECTION_HEADER_SIZE), SECTION_HEADER_SIZE));
    if fimg.magic != FIMG then Err(LoadAborted(MissingTag(FIMG)))
    else if |file| < at + SECTION_HEADER_SIZE then Err(Truncated)
    else Ok(NarcInfo(header, fatb, records, fntb, at + SECTION_HEADER_SIZE))
  }

  /** Why `narc_load_file` returns NULL. The C code returns the same NULL in all three
      cases; the reason is kept here in place of its warnings. */
  datatype NullReason =
    | Empty                      // the member spans at most 4 bytes
    | UnknownFormat(magic: tag)  // the member's tag is not in the registry
    | ReadFailed                 // the chunk reader failed or hit end-of-file

  /** What `narc_load_file` returns for one member. */
  datatype Member = Loaded(chunk: Chunk) | Null(reason: NullReason) | MemberAborted(why: Abort)

  /** Where a member starts in the file: data_offset + record.start, computed in
      32-bit unsigned arithmetic. */
  function MemberOffset(dataOffset: nat, rec: Record): nat
  {
    (dataOffset + rec.start) % 0x1_0000_0000
  }

  /** The tag peeked at a member's start (the `magic` local is taken as zeroed before
      the read, so a short read leaves zeros in its missing bytes). */
  function PeekTag(file: seq<byte>, at: nat): tag
  {
    Le32(Pad(Slice(file, at, 4), 4), 0)
  }

  /** narc_load_file for the member with record `rec` of an archive loaded from `file`. */
  function MemberAt(file: seq<byte>, dataOffset: nat, rec: Record): Member
  {
    if rec.start > rec.end then MemberAborted(RecordReversed)
    else if Int32(rec.end - rec.start) <= 4 then Null(Empty)
    else
      var at := MemberOffset(dataOffset, rec);
      var magic := PeekTag(file, at);
      match Lookup(magic)
      case None => Null(UnknownFormat(magic))
      case Some(fmt) =>
        match ReadAt(fmt.read, file, at)
        case Done(c) => Loaded(c)
        case Failed => Null(ReadFailed)
        case Aborted(why) => MemberAborted(why)
  }

  /** The reads of `narc_load`, from the archive header on. */
  method LoadArchive(file: File) returns (header: StandardHeader, r: Result<NarcInfo, LoadError>)
    requires file.pos == 0 && !file.eof
    modifies file
    ensures header == ParseStandardHeader(Pad(Slice(file.contents, 0, STANDARD_HEADER_SIZE), STANDARD_HEADER_SIZE))
    ensures r == ParseNarc(file.contents)
  {
    var hb := file.Read(STANDARD_HEADER_SIZE);
    header := ParseStandardHeader(Pad(hb, STANDARD_HEADER_SIZE));
    if header.magic != CRAN {
      return header, Err(NotANarc);
    }
    r := LoadFatb(file, header);
  }

  /** The reads of `narc_load` after the archive header: the FATB chunk. */
  method LoadFatb(file: File, header: StandardHeader) returns (r: Result<NarcInfo, LoadError>)
    requires file.pos == Min(16, |file.contents|) && file.eof == (|file.contents| < 16)
    modifies file
    ensures r == ParseFatb(file.contents, header)
  {
    ghost var bytes := file.contents;
    assert Slice(bytes, file.pos, FATB_HEADER_SIZE) == Slice(bytes, 16, FATB_HEADER_SIZE);
    var fb := file.Read(FATB_HEADER_SIZE);
    var fatb := ParseFatbHeader(Pad(fb, FATB_HEADER_SIZE));
    assert fatb == ParseFatbHeader(Pad(Slice(bytes, 16, FATB_HEADER_SIZE), FATB_HEADER_SIZE));
    if fatb.magic != FATB {
      return Err(LoadAborted(MissingTag(FATB)));
    }
    if file.eof {
      assert |bytes| < FntbAt(0);
      return Err(Truncated);
    }
    assert file.pos == FntbAt(0) <= |bytes|;
    var rb := file.Read(RECORD_SIZE * fatb.fileCount);
    if file.eof {
      assert |bytes| < FntbAt(fatb.fileCount);
      return Err(Truncated);
    }
    assert rb == bytes[FntbAt(0) .. FntbAt(fatb.fileCount)];
    var records := ParseRecords(rb, fatb.fileCount);
    r := LoadFntb(file, header, fatb, records);
  }

  /** The FNTB chunk's header, and the skip past its body. */
  method LoadFntb(file: File, header: StandardHeader, fatb: FatbHeader, records: seq<Record>)
    returns (r: Result<NarcInfo, LoadError>)
    requires file.pos == FntbAt(fatb.fileCount) && !file.eof
    modifies file
    ensures r == ParseFntb(file.contents, header, fatb, records)
  {
    var tb := file.Read(SECTION_HEADER_SIZE);
    var fntb := ParseSectionHeader(Pad(tb, SECTION_HEADER_SIZE));
    if fntb.magic != FNTB {
      return Err(LoadAborted(MissingTag(FNTB)));
    }
    if file.eof {
      return Err(Truncated);
    }
    file.SeekCur(FntbSkip(fntb));
    r := LoadFimg(file, header, fatb, records, fntb);
  }

  /** The FIMG chunk's header; the position after it is where the members' data begins. */
  method LoadFimg(file: File, header: StandardHeader, fatb: FatbHeader, records: seq<Record>,
                  fntb: SectionHeader) returns (r: Result<NarcInfo, LoadError>)
    requires file.pos == FimgAt(fatb.fileCount, fntb) && !file.eof
    modifies file
    ensures r == ParseFimg(file.contents, header, fatb, records, fntb)
  {
    var gb := file.Read(SECTION_HEADER_SIZE);
    var fimg := ParseSectionHeader(Pad(gb, SECTION_HEADER_SIZE));
    if fimg.magic != FIMG {
      return Err(LoadAborted(MissingTag(FIMG)));
    }
    if file.eof {
      return Err(Truncated);
    }
    return Ok(NarcInfo(header, fatb, records, fntb, file.Tell()));
  }

  /** `narc_load` reports "Not a NARC" exactly when the file does not begin with the
      four bytes of 'CRAN' (an empty or shorter file included). */
  lemma NotANarcExactly(file: seq<byte>)
    ensures ParseNarc(file) == Err(NotANarc) <==> |file| < 4 || Le32(file, 0) != CRAN
  {
    var header := ParseStandardHeader(Pad(Slice(file, 0, STANDARD_HEADER_SIZE), STANDARD_HEADER_SIZE));
    if |file| < 4 {
      ShortTag(Slice(file, 0, STANDARD_HEADER_SIZE), STANDARD_HEADER_SIZE);
      KnownTagsAreFull();
      assert header.magic != CRAN;
    } else {
      PaddedWord(file, 0, STANDARD_HEADER_SIZE, 0);
      assert header.magic == Le32(file, 0);
    }
  }

  /** What a successful load has found at the front of the file: the archive tag and
      header, then the FATB tag and header. */
  lemma LoadedHeaders(file: seq<byte>)
    requires ParseNarc(file).Ok?
    ensures var info := ParseNarc(file).value;
      && FntbAt(info.fatb.fileCount) + SECTION_HEADER_SIZE <= |file|
      && Le32(file, 0) == CRAN && info.header == ParseStandardHeader(file[0 .. 16])
      && Le32(file, 16) == FATB && info.fatb == ParseFatbHeader(file[16 .. 28])
  {
    var info := ParseNarc(file).value;
    var hs := Slice(file, 0, STANDARD_HEADER_SIZE);
    var fs := Slice(file, 16, FATB_HEADER_SIZE);
    NotANarcExactly(file);
    if |file| < 16 {
      ShortTag(fs, FATB_HEADER_SIZE);
      KnownTagsAreFull();
      assert false;
    }
    PadFull(hs);
    PadFull(fs);
    assert info.fatb == ParseFatbHeader(fs);
    assert Le32(fs, 0) == Le32(file, 16);
  }

  /** A successful load has one record per member, each read from the eight bytes it
      occupies after the FATB header. */
  lemma LoadedRecords(file: seq<byte>)
    requires ParseNarc(file).Ok?
    ensures var info := ParseNarc(file).value;
      var n := info.fatb.fileCount;
      && FntbAt(n) <= |file|
      && |info.records| == n
      && (forall i :: 0 <= i < n ==>
            info.records[i] == Record(Le32(file, 28 + 8 * i), Le32(file, 28 + 8 * i + 4)))
  {
    var info := ParseNarc(file).value;
    var n := info.fatb.fileCount;
    LoadedHeaders(file);
    var b := file[28 .. FntbAt(n)];
    assert info.records == ParseRecords(b, n);
    forall i | 0 <= i < n
      ensures info.records[i] == Record(Le32(file, 28 + 8 * i), Le32(file, 28 + 8 * i + 4))
    {
      Le32Sub(file, 28, FntbAt(n), 8 * i);
      Le32Sub(file, 28, FntbAt(n), 8 * i + 4);
    }
  }

  /** After the records a successful load has found the FNTB tag and the FNTB chunk
      header. */
  lemma LoadedFntb(file: seq<byte>)
    requires ParseNarc(file).Ok?
    ensures var info := ParseNarc(file).value;
      var n := info.fatb.fileCount;
      && FntbAt(n) + SECTION_HEADER_SIZE <= |file|
      && Le32(file, FntbAt(n)) == FNTB
      && info.fntb == ParseSectionHeader(file[FntbAt(n) .. FntbAt(n) + 8])
      && ParseNarc(file) == ParseFimg(file, info.header, info.fatb, info.records, info.fntb)
  {
    var info := ParseNarc(file).value;
    var n := info.fatb.fileCount;
    LoadedHeaders(file);
    var ts := Slice(file, FntbAt(n), SECTION_HEADER_SIZE);
    PadFull(ts);
    assert info.fntb == ParseSectionHeader(ts);
    assert Le32(ts, 0) == Le32(file, FntbAt(n));
  }

  /** The FIMG tag lies just before the data offset of a successful load, and the data
      offset inside the file. When the FNTB size minus 8 fits a 32-bit `int`, the data
      begins right after the FNTB chunk and the 8-byte FIMG header. */
  lemma LoadedDataOffset(file: seq<byte>)
    requires ParseNarc(file).Ok?
    ensures var info := ParseNarc(file).value;
      var n := info.fatb.fileCount;
      && 8 <= info.dataOffset <= |file| && Le32(file, info.dataOffset - 8) == FIMG
      && (info.fntb.size < 0x8000_0008 ==> info.dataOffset == FntbAt(n) + info.fntb.size + 8)
  {
    var info := ParseNarc(file).value;
    LoadedFntb(file);
    FimgFound(file, info.header, info.fatb, info.records, info.fntb);
  }

  lemma FimgFound(file: seq<byte>, header: StandardHeader, fatb: FatbHeader, records: seq<Record>,
                  fntb: SectionHeader)
    requires ParseFimg(file, header, fatb, records, fntb).Ok?
    ensures var off := ParseFimg(file, header, fatb, records, fntb).value.dataOffset;
      && 8 <= off <= |file| && Le32(file, off - 8) == FIMG
      && (fntb.size < 0x8000_0008 ==> off == FntbAt(fatb.fileCount) + fntb.size + 8)
  {
    var at := FimgAt(fatb.fileCount, fntb);
    PaddedWord(file, at, SECTION_HEADER_SIZE, 0);
    if 8 <= fntb.size < 0x8000_0008 {
      var d := fntb.size - 8;
      assert d % 0x1_0000_0000 == d;
      assert FntbSkip(fntb) == d;
    } else if fntb.size < 8 {
      var d := fntb.size - 8;
      assert d % 0x1_0000_0000 == d + 0x1_0000_0000;
      assert FntbSkip(fntb) == d;
    }
  }

  /** A member is aborted on as reversed exactly when its record starts after it ends,
      and is skipped as empty exactly when its length, read as a 32-bit `int`, is at
      most 4: a length of 4 bytes or fewer, or one of 2^31 bytes or more. */
  lemma {:induction false} MemberCases(file: seq<byte>, dataOffset: nat, rec: Record)
    ensures MemberAt(file, dataOffset, rec) == MemberAborted(RecordReversed) <==> rec.start > rec.end
    ensures MemberAt(file, dataOffset, rec) == Null(Empty)
      <==> rec.start <= rec.end && (rec.end - rec.start <= 4 || rec.end - rec.start >= 0x8000_0000)
  {
    if rec.start <= rec.end && Int32(rec.end - rec.start) > 4 {
      var at := MemberOffset(dataOffset, rec);
      var magic := PeekTag(file, at);
      if Lookup(magic).Some? {
        var r := Lookup(magic).value.read;
        assert ReadAt(r, file, at) != Aborted(RecordReversed);
      }
    }
  }

  /** A member that loads is the chunk its tag names: it starts with that tag and its
      standard header, its tag is registered, its kind follows the tag, and `nitro_free`
      releases its payload exactly when it is NCGR or NCLR data rather than a stub. */
  lemma LoadedMember(file: seq<byte>, dataOffset: nat, rec: Record)
    requires MemberAt(file, dataOffset, rec).Loaded?
    ensures var at := MemberOffset(dataOffset, rec);
      var c := MemberAt(file, dataOffset, rec).chunk;
      && at + STANDARD_HEADER_SIZE <= |file|
      && c.header == ParseStandardHeader(file[at .. at + STANDARD_HEADER_SIZE])
      && c.header.magic == Le32(file, at) == PeekTag(file, at)
      && Lookup(c.header.magic).Some?
      && (c.Ncgr? <==> c.header.magic == NCGR)
      && (c.Nclr? <==> c.header.magic == NCLR)
      && (c.Unsupported? <==> c.header.magic in {NCER, NMAR, NMCR, NANR})
      && (NitroFree(Some(c)) <==> !c.Unsupported?)
  {
    var at := MemberOffset(dataOffset, rec);
    var magic := PeekTag(file, at);
    var fmt := Lookup(magic).value;
    var c := MemberAt(file, dataOffset, rec).chunk;
    ReadDelivers(fmt.read, file, at);
    PaddedWord(file, at, 4, 0);
    var hb := file[at .. at + STANDARD_HEADER_SIZE];
    assert hb[0] == file[at] && hb[1] == file[at + 1] && hb[2] == file[at + 2] && hb[3] == file[at + 3];
    assert c.header.magic == Le32(file, at);
    RegistryShape(magic);
    NitroFreeReleases(Some(c));
    if magic !in {NCGR, NCLR, NCER, NMAR, NMCR, NANR} {
      LookupUnknown(magic);
    }
  }

  /** A member of a sane, nonempty length whose tag the registry does not know is
      skipped with that tag as the reason. */
  lemma UnknownMember(file: seq<byte>, dataOffset: nat, rec: Record)
    requires rec.start <= rec.end && 4 < rec.end - rec.start < 0x8000_0000
    requires PeekTag(file, MemberOffset(dataOffset, rec)) !in {NCGR, NCLR, NCER, NMAR, NMCR, NANR}
    ensures MemberAt(file, dataOffset, rec) == Null(UnknownFormat(PeekTag(file, MemberOffset(dataOffset, rec))))
  {
    LookupUnknown(PeekTag(file, MemberOffset(dataOffset, rec)));
  }

  /** What `narc_load` returns: OKAY, or FAIL with its reason. */
  datatype LoadStatus = Okay | Fail(why: LoadError)

  /** struct NARC. */
  class Archive {
    var header: StandardHeader
    var fp: File?
    var fatb: FatbHeader
    var records: seq<Record>
    var fntb: SectionHeader
    var dataOffset: nat

    /** A loaded archive: it has its file and one record per member. */
    ghost predicate Valid()
      reads this
    {
      fp != null && |records| == fatb.fileCount
    }

    /** The archive as `narc_load` left it, when it succeeded on `file`. */
    ghost predicate LoadedFrom(file: File)
      reads this
    {
      && fp == file
      && ParseNarc(file.contents).Ok?
      && var info := ParseNarc(file.contents).value;
      && header == info.header && fatb == info.fatb && records == info.records
      && fntb == info.fntb && dataOffset == info.dataOffset
    }

    /** narc_init: every field zero, no file. */
    constructor Init()
      ensures fp == null && records == [] && dataOffset == 0
      ensures header == StandardHeader(0, 0, 0, 0, 0, 0)
      ensures fatb == FatbHeader(0, 0, 0) && fntb == SectionHeader(0, 0)
    {
      header := StandardHeader(0, 0, 0, 0, 0, 0);
      fp := null;
      fatb := FatbHeader(0, 0, 0);
      records := [];
      fntb := SectionHeader(0, 0);
      dataOffset := 0;
    }

    /** narc_load, given the file already opened. On FAIL only `header` and `fp` are
        set; the callers look at nothing else then. */
    method Load(file: File) returns (status: LoadStatus)
      requires file.pos == 0 && !file.eof
      modifies this, file
      ensures fp == file
      ensures status == (match ParseNarc(file.contents)
                         case Ok(_) => Okay
                         case Err(e) => Fail(e))
      ensures status.Okay? ==> LoadedFrom(file) && Valid()
    {
      fp := file;
      var h, r := LoadArchive(file);
      header := h;
      match r {
        case Err(e) =>
          status := Fail(e);
        case Ok(info) =>
          LoadedRecords(file.contents);
          fatb, records, fntb, dataOffset := info.fatb, info.records, info.fntb, info.dataOffset;
          status := Okay;
      }
    }

    /** narc_load_file: the member at `index`, which the C code asserts is in range. It
        seeks to the member, peeks its tag, seeks back, and dispatches on the registry. */
    method LoadFile(index: nat) returns (r: Member)
      requires Valid() && index < |records|
      modifies fp
      ensures r == MemberAt(fp.contents, dataOffset, records[index])
    {
      var rec := records[index];
      if rec.start > rec.end {
        return MemberAborted(RecordReversed);
      }
      var chunkSize := Int32(rec.end - rec.start);
      if chunkSize <= 4 {
        return Null(Empty);
      }
      var at := MemberOffset(dataOffset, rec);
      fp.Seek(at);
      var mb := fp.Read(4);
      var magic := Le32(Pad(mb, 4), 0);
      fp.SeekCur(-4);
      var fmt := FormatLookup(magic);
      if fmt.None? {
        return Null(UnknownFormat(magic));
      }
      if |mb| < 4 {
        ShortTag(mb, 4);
        RegistryShape(magic);
        assert false;
      }
      assert fp.pos == at && !fp.eof;
      // A zero-size entry gets a header-sized stub, any other its own struct; both
      // start zeroed and are filled by the entry's reader (or the header-only read).
      var out: ReadOutcome;
      match fmt.value.read {
        case NoReader => out := StubRead(fp);
        case NcgrReader => out := NcgrRead(fp);
        case NclrReader => out := NclrRead(fp);
      }
      match out {
        case Done(c) =>
          if fp.eof {
            return Null(ReadFailed);
          }
          return Loaded(c);
        case Failed => return Null(ReadFailed);
        case Aborted(why) => return MemberAborted(why);
      }
    }
  }
}
