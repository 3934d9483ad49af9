/** The Nitro file formats an archive member can hold: the decoded chunks, the format
    registry (`formats` and `format_lookup`), the two chunk readers (`ncgr_read`,
    `nclr_read`), the header-only read used for formats without a reader, and the
    finaliser dispatch of `nitro_free`. */
module Formats {
  import opened Wrappers
  import opened Bytes
  import opened Tags
  import opened Headers
  import opened Stream

  /** A decoded member, the struct `narc_load_file` allocates and fills. */
  datatype Chunk =
    | Unsupported(header: StandardHeader)
      // the header-only stub of a known but unsupported format
    | Ncgr(header: StandardHeader, charHeader: CharHeader, data: seq<byte>)
      // struct NCGR: indexed-colour graphics and its CHAR payload
    | Nclr(header: StandardHeader, plttHeader: PlttHeader, data: seq<byte>)
      // struct NCLR: a palette and its PLTT payload

  /** A C `assert` that fails, ending the program. */
  datatype Abort =
    | RecordReversed   // a FATB record whose start lies after its end
    | BadChunkCount    // an NCGR header declaring neither 1 nor 2 chunks
    | MissingTag(expected: tag)  // a chunk whose tag is not the one asserted

  /** What a chunk reader does: fills the chunk, fails (returns nonzero, or leaves the
      stream at end-of-file or in error), or aborts on an assertion. */
  datatype ReadOutcome = Done(chunk: Chunk) | Failed | Aborted(why: Abort)

  /** The routines a registry entry points at. */
  datatype Reader = NoReader | NcgrReader | NclrReader
  datatype Finalizer = NoFree | NcgrFree | NclrFree

  /** struct format_info. No registered format has an initialiser, so `init` is absent. */
  datatype FormatInfo = FormatInfo(magic: tag, size: nat, read: Reader, free: Finalizer)

  /** sizeof(struct NCGR) and sizeof(struct NCLR) on a 64-bit target. */
  const NCGR_STRUCT_SIZE := 56
  const NCLR_STRUCT_SIZE := 48

  /** UNSUPPORTED(m): a known format with no reader, no finaliser and size 0. */
  function UnsupportedFormat(m: tag): FormatInfo { FormatInfo(m, 0, NoReader, NoFree) }

  /** The `formats` table, in its order; its NULL terminator is the end of the sequence.
      NCER is listed twice. */
  const Formats: seq<FormatInfo> := [
    FormatInfo(NCGR, NCGR_STRUCT_SIZE, NcgrReader, NcgrFree),
    FormatInfo(NCLR, NCLR_STRUCT_SIZE, NclrReader, NclrFree),
    UnsupportedFormat(NCER),
    UnsupportedFormat(NCER),
    UnsupportedFormat(NMAR),
    UnsupportedFormat(NMCR),
    UnsupportedFormat(NANR)
  ]

  /** The first entry of `fmts` whose tag is `magic`, or None when no entry has it. */
  function LookupIn(fmts: seq<FormatInfo>, magic: tag): (r: Option<FormatInfo>)
    ensures r.None? <==> forall i :: 0 <= i < |fmts| ==> fmts[i].magic != magic
    ensures r.Some? ==> exists i :: 0 <= i < |fmts| && fmts[i] == r.value && r.value.magic == magic
                                    && forall j :: 0 <= j < i ==> fmts[j].magic != magic
    decreases |fmts|
  {
    if fmts == [] then None
    else if fmts[0].magic == magic then Some(fmts[0])
    else
      var r := LookupIn(fmts[1..], magic);
      assert forall i :: 1 <= i < |fmts| ==> fmts[i] == fmts[1..][i - 1];
      r
  }

  function Lookup(magic: tag): Option<FormatInfo> { LookupIn(Formats, magic) }

  /** format_lookup: the linear scan of the registry up to its terminator. */
  method FormatLookup(magic: tag) returns (fmt: Option<FormatInfo>)
    ensures fmt == Lookup(magic)
  {
    var fmts := Formats;
    var i := 0;
    while i < |fmts|
      invariant 0 <= i <= |fmts|
      invariant LookupIn(fmts[i..], magic) == Lookup(magic)
    {
      var rest := fmts[i..];
      assert rest[0] == fmts[i] && rest[1..] == fmts[i + 1..];
      if fmts[i].magic == magic {
        return Some(fmts[i]);
      }
      LookupSkip(rest, magic);
      i := i + 1;
    }
    return None;
  }

  /** An entry with another tag is passed over. */
  lemma LookupSkip(fmts: seq<FormatInfo>, magic: tag)
    requires fmts != [] && fmts[0].magic != magic
    ensures LookupIn(fmts, magic) == LookupIn(fmts[1..], magic)
  {
  }

  /** The entry at `k` is returned when it is the first one carrying `magic`. */
  lemma LookupFirst(fmts: seq<FormatInfo>, magic: tag, k: nat)
    requires k < |fmts| && fmts[k].magic == magic
    requires forall j :: 0 <= j < k ==> fmts[j].magic != magic
    ensures LookupIn(fmts, magic) == Some(fmts[k])
  {
    var r := LookupIn(fmts, magic);
    assert r.Some?;
    var i :| 0 <= i < |fmts| && fmts[i] == r.value && r.value.magic == magic
             && forall j :: 0 <= j < i ==> fmts[j].magic != magic;
    assert !(i < k) && !(k < i);
  }

  /** What the registry says about the two supported tags: a reader, a finaliser and
      the size of the struct to allocate. */
  lemma RegistrySupported()
    ensures Lookup(NCGR) == Some(FormatInfo(NCGR, NCGR_STRUCT_SIZE, NcgrReader, NcgrFree))
    ensures Lookup(NCLR) == Some(FormatInfo(NCLR, NCLR_STRUCT_SIZE, NclrReader, NclrFree))
  {
    assert Formats[0].magic == NCGR && Formats[1].magic == NCLR && Formats[0].magic != NCLR;
    LookupFirst(Formats, NCGR, 0);
    LookupFirst(Formats, NCLR, 1);
  }

  /** The known but unsupported tags: size 0, no reader, no finaliser. */
  lemma RegistryUnsupported(m: tag)
    requires m in {NCER, NMAR, NMCR, NANR}
    ensures Lookup(m) == Some(UnsupportedFormat(m))
  {
    var k := if m == NCER then 2 else if m == NMAR then 4 else if m == NMCR then 5 else 6;
    assert Formats[k] == UnsupportedFormat(m);
    assert forall j :: 0 <= j < k ==> Formats[j].magic != m;
    LookupFirst(Formats, m, k);
  }

  /** A tag outside the six registered ones is unknown to the registry. */
  lemma LookupUnknown(m: tag)
    requires m !in {NCGR, NCLR, NCER, NMAR, NMCR, NANR}
    ensures Lookup(m).None?
  {
    assert forall i :: 0 <= i < |Formats| ==> Formats[i].magic in {NCGR, NCLR, NCER, NMAR, NMCR, NANR};
  }

  /** Every registered entry is of one of two kinds: a reader and a nonzero size, or
      neither; and every registered tag is a full tag. */
  lemma RegistryShape(m: tag)
    requires Lookup(m).Some?
    ensures var f := Lookup(m).value;
      && FullTag(m)
      && (f.size == 0 <==> f.read == NoReader)
      && (f.read == NcgrReader <==> m == NCGR)
      && (f.read == NclrReader <==> m == NCLR)
      && (f.free == NcgrFree <==> m == NCGR)
      && (f.free == NclrFree <==> m == NCLR)
  {
    KnownTagsAreFull();
    RegistrySupported();
    if m in {NCER, NMAR, NMCR, NANR} {
      RegistryUnsupported(m);
    } else if m !in {NCGR, NCLR} {
      LookupUnknown(m);
    }
  }

  /** ncgr_read, starting at offset `at` of a file holding `file`. */
  function ReadNcgrAt(file: seq<byte>, at: nat): (r: ReadOutcome)
    ensures r.Aborted? ==> r.why == BadChunkCount || r.why == MissingTag(CHAR)
    ensures r.Done? ==> r.chunk.Ncgr? && at + 48 + |r.chunk.data| <= |file|
  {
    var header := ParseStandardHeader(Pad(Slice(file, at, STANDARD_HEADER_SIZE), STANDARD_HEADER_SIZE));
    if header.chunkCount != 1 && header.chunkCount != 2 then Aborted(BadChunkCount)
    else if |file| < at + 48 then Failed
    else ReadCharAt(file, at, header)
  }

  /** The rest of ncgr_read, once the standard header is in: the CHAR chunk. */
  function ReadCharAt(file: seq<byte>, at: nat, header: StandardHeader): ReadOutcome
    requires at + 48 <= |file|
  {
    var ch := ParseCharHeader(file[at + 16 .. at + 48]);
    if ch.magic != CHAR then Aborted(MissingTag(CHAR))
    else ReadCharDataAt(file, at, header, ch)
  }

  /** The payload of the CHAR chunk, `data_size` bytes after its header. */
  function ReadCharDataAt(file: seq<byte>, at: nat, header: StandardHeader, ch: CharHeader): ReadOutcome
  {
    if |file| < at + 48 + ch.dataSize then Failed
    else Done(Ncgr(header, ch, file[at + 48 .. at + 48 + ch.dataSize]))
  }

  /** nclr_read, starting at offset `at`. */
  function ReadNclrAt(file: seq<byte>, at: nat): (r: ReadOutcome)
    ensures r.Aborted? ==> r.why == MissingTag(PLTT)
    ensures r.Done? ==> r.chunk.Nclr? && at + 40 + |r.chunk.data| <= |file|
  {
    var header := ParseStandardHeader(Pad(Slice(file, at, STANDARD_HEADER_SIZE), STANDARD_HEADER_SIZE));
    if |file| < at + 40 then Failed
    else ReadPlttAt(file, at, header)
  }

  /** The rest of nclr_read, once the standard header is in: the PLTT chunk. */
  function ReadPlttAt(file: seq<byte>, at: nat, header: StandardHeader): ReadOutcome
    requires at + 40 <= |file|
  {
    var ph := ParsePlttHeader(file[at + 16 .. at + 40]);
    if ph.magic != PLTT then Aborted(MissingTag(PLTT))
    else if |file| < at + 40 + ph.dataSize then Failed
    else Done(Nclr(header, ph, file[at + 40 .. at + 40 + ph.dataSize]))
  }

  /** The read `narc_load_file` falls back on for a format without a reader: the
      standard header alone. */
  function ReadStubAt(file: seq<byte>, at: nat): (r: ReadOutcome)
    ensures r.Done? <==> at + STANDARD_HEADER_SIZE <= |file|
    ensures r.Done? ==> r.chunk.Unsupported?
  {
    if |file| < at + STANDARD_HEADER_SIZE then Failed
    else Done(Unsupported(ParseStandardHeader(file[at .. at + STANDARD_HEADER_SIZE])))
  }

  /** The read a registry entry selects. */
  function ReadAt(r: Reader, file: seq<byte>, at: nat): (o: ReadOutcome)
    ensures o.Aborted? ==> r != NoReader && o.why != RecordReversed
    ensures o.Done? ==> at + STANDARD_HEADER_SIZE <= |file|
  {
    match r
    case NoReader => ReadStubAt(file, at)
    case NcgrReader => ReadNcgrAt(file, at)
    case NclrReader => ReadNclrAt(file, at)
  }

  /** What a successful read delivers, whichever reader ran: the chunk's standard header
      is the 16 bytes at `at`, and its payload is the `dataSize` bytes that follow the
      inner header, all inside the file. */
  lemma ReadDelivers(r: Reader, file: seq<byte>, at: nat)
    requires ReadAt(r, file, at).Done?
    ensures var c := ReadAt(r, file, at).chunk;
      && at + STANDARD_HEADER_SIZE <= |file|
      && c.header == ParseStandardHeader(file[at .. at + STANDARD_HEADER_SIZE])
      && (r == NoReader <==> c.Unsupported?)
      && (r == NcgrReader <==> c.Ncgr?)
      && (c.Ncgr? ==> c.charHeader.magic == CHAR && |c.data| == c.charHeader.dataSize
                      && at + 48 + |c.data| <= |file| && c.data == file[at + 48 .. at + 48 + |c.data|]
                      && (c.header.chunkCount == 1 || c.header.chunkCount == 2))
      && (c.Nclr? ==> c.plttHeader.magic == PLTT && |c.data| == c.plttHeader.dataSize
                      && at + 40 + |c.data| <= |file| && c.data == file[at + 40 .. at + 40 + |c.data|])
  {
    StandardHeaderAt(file, at);
    match r
    case NoReader =>
    case NcgrReader =>
    case NclrReader =>
  }

  /** Where the file holds a whole standard header at `at`, what the readers parse
      there is that header. */
  lemma StandardHeaderAt(file: seq<byte>, at: nat)
    requires at + STANDARD_HEADER_SIZE <= |file|
    ensures ParseStandardHeader(Pad(Slice(file, at, STANDARD_HEADER_SIZE), STANDARD_HEADER_SIZE))
         == ParseStandardHeader(file[at .. at + STANDARD_HEADER_SIZE])
  {
    PadFull(file[at .. at + STANDARD_HEADER_SIZE]);
    assert Slice(file, at, STANDARD_HEADER_SIZE) == file[at .. at + STANDARD_HEADER_SIZE];
  }

  /** ncgr_read on a stream whose end-of-file indicator is clear. */
  method NcgrRead(f: File) returns (r: ReadOutcome)
    requires !f.eof
    modifies f
    ensures r == ReadNcgrAt(f.contents, old(f.pos))
    ensures r.Done? ==> !f.eof
  {
    ghost var at := f.pos;
    var hb := f.Read(STANDARD_HEADER_SIZE);
    var header := ParseStandardHeader(Pad(hb, STANDARD_HEADER_SIZE));
    if header.chunkCount != 1 && header.chunkCount != 2 {
      return Aborted(BadChunkCount);
    }
    r := CharRead(f, header, at);
  }

  /** The CHAR part of ncgr_read, after the standard header was read from `at`. */
  method CharRead(f: File, header: StandardHeader, ghost at: nat) returns (r: ReadOutcome)
    requires f.pos == Min(at + STANDARD_HEADER_SIZE, |f.contents|) && at <= |f.contents|
    requires f.eof == (|f.contents| < at + STANDARD_HEADER_SIZE)
    modifies f
    ensures r == (if |f.contents| < at + 48 then Failed else ReadCharAt(f.contents, at, header))
    ensures r.Done? ==> !f.eof
  {
    var cb := f.Read(CHAR_HEADER_SIZE);
    if f.eof {
      assert |f.contents| < at + 48;
      return Failed;
    }
    assert |cb| == 32 && f.pos == at + 48 <= |f.contents|;
    assert cb == f.contents[at + 16 .. at + 48];
    var ch := ParseCharHeader(cb);
    if ch.magic != CHAR {
      return Aborted(MissingTag(CHAR));
    }
    r := CharDataRead(f, header, ch, at);
  }

  /** The payload read of ncgr_read, after the CHAR header was read. */
  method CharDataRead(f: File, header: StandardHeader, ch: CharHeader, ghost at: nat) returns (r: ReadOutcome)
    requires f.pos == at + 48 <= |f.contents| && !f.eof
    modifies f
    ensures r == ReadCharDataAt(f.contents, at, header, ch)
    ensures r.Done? ==> !f.eof
  {
    var data := f.Read(ch.dataSize);
    if f.eof {
      assert |f.contents| < at + 48 + ch.dataSize;
      return Failed;
    }
    assert data == f.contents[at + 48 .. at + 48 + ch.dataSize];
    return Done(Ncgr(header, ch, data));
  }

  /** nclr_read on a stream whose end-of-file indicator is clear. */
  method NclrRead(f: File) returns (r: ReadOutcome)
    requires !f.eof
    modifies f
    ensures r == ReadNclrAt(f.contents, old(f.pos))
    ensures r.Done? ==> !f.eof
  {
    ghost var at := f.pos;
    var hb := f.Read(STANDARD_HEADER_SIZE);
    var header := ParseStandardHeader(Pad(hb, STANDARD_HEADER_SIZE));
    var pb := f.Read(PLTT_HEADER_SIZE);
    if f.eof {
      assert |f.contents| < at + 40;
      return Failed;
    }
    assert |hb| == 16 && f.pos == at + 40;
    assert pb == f.contents[at + 16 .. at + 40];
    var ph := ParsePlttHeader(pb);
    if ph.magic != PLTT {
      return Aborted(MissingTag(PLTT));
    }
    var data := f.Read(ph.dataSize);
    if f.eof {
      assert |f.contents| < at + 40 + ph.dataSize;
      return Failed;
    }
    assert data == f.contents[at + 40 .. at + 40 + ph.dataSize];
    return Done(Nclr(header, ph, data));
  }

  /** The fallback read of a standard header only. */
  method StubRead(f: File) returns (r: ReadOutcome)
    requires !f.eof
    modifies f
    ensures r == ReadStubAt(f.contents, old(f.pos))
    ensures r.Done? ==> !f.eof
  {
    var hb := f.Read(STANDARD_HEADER_SIZE);
    if f.eof {
      return Failed;
    }
    return Done(Unsupported(ParseStandardHeader(hb)));
  }

  /** ncgr_free and nclr_free: each releases the payload only after checking the
      chunk's own tag. Returns whether the payload was released. */
  function RunFinalizer(f: Finalizer, c: Chunk): (released: bool)
    ensures released ==> f != NoFree && c.header.magic in {NCGR, NCLR}
  {
    match f
    case NoFree => false
    case NcgrFree => c.header.magic == NCGR
    case NclrFree => c.header.magic == NCLR
  }

  /** nitro_free: looks the chunk's tag up and runs the entry's finaliser, if any.
      Returns whether a payload was released. */
  function NitroFree(chunk: Option<Chunk>): (released: bool)
    ensures released ==> chunk.Some? && chunk.value.header.magic in {NCGR, NCLR}
  {
    match chunk
    case None => false
    case Some(c) =>
      match Lookup(c.header.magic)
      case None => false
      case Some(fmt) => RunFinalizer(fmt.free, c)
  }

  /** nitro_free releases a payload exactly for the chunks tagged NCGR or NCLR. */
  lemma NitroFreeReleases(chunk: Option<Chunk>)
    ensures NitroFree(chunk) <==> chunk.Some? && chunk.value.header.magic in {NCGR, NCLR}
  {
    RegistrySupported();
    if chunk.Some? {
      var m := chunk.value.header.magic;
      if Lookup(m).Some? {
        RegistryShape(m);
      }
    }
  }
}
