# NARC archive reader and sprite decoder, in Dafny

This project models the decoding core of `rip.c`, a tool that pulls sprites out of
Nintendo DS "NARC" archives, and proves properties of that model:

- **Tags** (`tags.dfy`): the four-character chunk tags (`magic_t`), packed by GCC with the
  first character in the most significant byte. Also `strmagic`, which renders a tag
  into a five-character buffer.
- **Byte layout** (`bytes.dfy`, `headers.dfy`): little-endian words. A struct filled by a
  short `fread` keeps the zeros it was initialised with. A `u32` stored into an `int`
  takes its two's-complement value. The fixed-layout headers (standard header, FATB,
  FNTB/FIMG, CHAR, PLTT) are parsed from their bytes.
- **The stream** (`stream.dfy`): a `FILE*` opened for reading, as a class. Its fields
  are the file's bytes, the position indicator and the end-of-file indicator. Its
  methods are `fread`, `fseek` (`SEEK_SET`, `SEEK_CUR`) and `ftell`.
- **The format registry and the chunk readers** (`formats.dfy`):
  - the `formats` table and `format_lookup` (a loop proved equal to a first-match
    function);
  - `ncgr_read` and `nclr_read`, plus the header-only read for known but unsupported
    formats. Each is a method on the stream, proved equal to a function of the file's
    bytes and the start offset;
  - the finaliser dispatch of `nitro_free`.
- **The archive** (`narc.dfy`): `struct NARC` is a class.
  - `narc_init` is its constructor; `narc_load` and `narc_load_file` are its methods.
  - The methods move the file cursor as the C code does.
  - They are proved to agree with `ParseNarc` and `MemberAt`, two functions over the
    file's bytes.
  - Lemmas state what a successful load has found in the file: the tags, the records,
    the FNTB header and the data offset. Further lemmas state when a member is skipped,
    aborted on, or loaded.
- **Palettes** (`palette.dfy`): `nclr_get_colors`. It picks the entry count, then
  splits each BGR555 word into three 5-bit channels and an alpha chosen by index.
- **Pixels** (`pixels.dfy`, `tiles.dfy`): `ncgr_get_pixels`.
  - It resolves the dimensions, guessing them when the width is 0xffff.
  - It unpacks 4-bit or 8-bit pixels into a byte-per-pixel buffer.
  - It removes the 8x8 tiling in place: four nested loops write into a zeroed 2-D array,
    which is then copied back. That pass is proved equal to `Untile`.
  - For dimensions given in the header (whole rows of tiles) `Untile` is proved to be a
    permutation with `Retile` as its inverse.
  - With guessed dimensions it copies only the whole rows of tiles, and the pixels of a
    last, incomplete row stay blank (zero).
- **Descrambling** (`scramble.dfy`): `unscramble_pt` and `unscramble_dp`.
  - Each is an in-place XOR of a `u16` array with the keystream of the linear
    congruential generator `seed * 0x41C64E6D + 0x6073`, kept to 16 bits.
  - The seed is the first word (walking forward) or the last word (walking backward).
  - XOR is defined on numbers bit by bit; its involution, commutativity and self-inverse
    laws are proved.

Bytes, words and tags are the numbers they hold (`int` subranges) rather than bit
vectors. Every shift and mask of the C code becomes a division or remainder by a power
of two. Every unsigned wrap-around is written out as `% 0x1_0000_0000` or
`% 0x1_0000`.

Where the C code `assert`s something about data that comes from the file, the model
returns an abort outcome (`Abort`, `PixelAbort`). Asserts about the caller's own
arguments (a non-NULL chunk, an index below the file count) become preconditions.

## Model

| member | source | states |
|---|---|---|
| Bytes.Slice | rip.c:200-222 | the bytes an `fread` delivers: as many as remain from the offset, each equal to the file's byte there, all of them when the file is long enough |
| Bytes.Pad | rip.c:304-308 | a zeroed struct filled by a possibly short read: the delivered bytes, then zeros |
| Bytes.PaddedWord | rip.c:322-331 | a word of a struct filled by a read that reached it is the file's word at that offset |
| Bytes.Int32 | rip.c:410-412 | a `u32` stored into an `int`: a value in the 32-bit signed range with the same bits modulo 2^32 |
| Tags.StrMagic | rip.c:185-193 | `strmagic` fills the buffer with the tag's four bytes, most significant first, then a NUL, and returns the buffer |
| Tags.TagBytesRoundTrip | rip.c:185-193 | the four characters in reading order spell the tag back |
| Tags.MagicStringRoundTrip | rip.c:185-193 | the rendered string is NUL-terminated, its characters are bytes, and they spell the tag back |
| Tags.StoredTag | rip.c:324-325 | a tag stored byte-reversed ("RGCN") reads little-endian as the tag ('NCGR') |
| Tags.KnownTagsAreFull | rip.c:285-301 | every tag the readers compare against has a nonzero first character |
| Headers.ParseRecords | rip.c:344-347 | the FATB records are the pairs of words stored back to back, one per member |
| Headers.ShortTag | rip.c:322-325 | a tag of which fewer than four bytes arrived is none of the known tags |
| Headers.TagOfPrefix | rip.c:420-455 | a tag read in full is the same whatever struct holds it |
| Stream.File.Read | rip.c:200-222 | `fread`: the delivered bytes, the position advanced past them, end-of-file set on a short read |
| Stream.File.Seek | rip.c:416 | `fseek(SEEK_SET)`: a non-negative target becomes the position and clears end-of-file; a negative one changes nothing |
| Stream.File.SeekCur | rip.c:360 | `fseek(SEEK_CUR)`: the same, relative to the position |
| Stream.File.Tell | rip.c:372 | `ftello`: the position indicator (no contract of its own; `LoadFimg` reads the data offset through it) |
| Formats.LookupIn | rip.c:382-395 | the result is None exactly when no entry has the tag; otherwise it is the first entry that has it |
| Formats.FormatLookup | rip.c:382-395 | the loop over the registry returns what `LookupIn` gives for the `formats` table |
| Formats.LookupFirst | rip.c:382-395 | the first entry carrying the tag is the one returned |
| Formats.RegistrySupported | rip.c:285-289 | NCGR and NCLR map to their reader, finaliser and struct size |
| Formats.RegistryUnsupported | rip.c:291-298 | NCER, NMAR, NMCR and NANR are known, with size 0, no reader and no finaliser |
| Formats.LookupUnknown | rip.c:285-301 | any other tag is not found |
| Formats.RegistryShape | rip.c:277-301 | every found entry has a nonzero size exactly when it has a reader; the NCGR reader and finaliser belong only to NCGR, the NCLR ones only to NCLR |
| Formats.ReadDelivers | rip.c:197-251 | a successful read of any kind: its standard header is the 16 bytes at the start; its kind follows the reader; the CHAR or PLTT tag and payload are the declared bytes after the chunk header; an NCGR declares 1 or 2 chunks |
| Formats.StandardHeaderAt | rip.c:201 | where the file holds a whole header, the padded read is that header |
| Formats.ReadNcgrAt | rip.c:197-224 | `ncgr_read` from an offset: an abort only for a chunk count other than 1 or 2 or a missing CHAR tag; filled, it is an NCGR chunk whose payload lies inside the file |
| Formats.ReadNclrAt | rip.c:226-251 | `nclr_read` from an offset: an abort only for a missing PLTT tag; filled, it is an NCLR chunk whose payload lies inside the file |
| Formats.ReadStubAt | rip.c:454-456 | the header-only read: it succeeds exactly when 16 bytes remain, gives the header-only chunk and never aborts |
| Formats.ReadAt | rip.c:450-456 | the read an entry selects: only a real reader can abort, and never for a reversed record; a success lies past a whole standard header |
| Formats.NcgrRead | rip.c:197-224 | `ncgr_read` on the stream returns an abort for a bad chunk count, a failure on a short read, an abort for a missing CHAR tag, or the chunk; in every case the outcome is `ReadNcgrAt` of the bytes from the start offset |
| Formats.CharRead | rip.c:205-215 | the CHAR part of `ncgr_read`: failure when fewer than 48 bytes lie from the start, an abort for a missing CHAR tag, else the payload read; end-of-file stays clear on success |
| Formats.CharDataRead | rip.c:212-223 | the payload read of `ncgr_read`: failure when fewer than `data_size` bytes follow the CHAR header, else the chunk with exactly those bytes |
| Formats.NclrRead | rip.c:226-251 | `nclr_read`: failure on a short header, abort on a missing PLTT tag, failure on a short payload, or the chunk; this is `ReadNclrAt` exactly |
| Formats.StubRead | rip.c:454-456 | the header-only read for formats without a reader: failure when fewer than 16 bytes remain, else a stub holding the parsed header |
| Formats.RunFinalizer | rip.c:253-275 | `ncgr_free` and `nclr_free`: a payload is released only by a real finaliser, and only when the chunk's tag is NCGR or NCLR (each checks its own tag) |
| Formats.NitroFree | rip.c:479-490 | `nitro_free`: a release happens only for a non-NULL chunk tagged NCGR or NCLR |
| Formats.NitroFreeReleases | rip.c:479-490 | `nitro_free` releases a payload exactly for a chunk tagged NCGR or NCLR |
| Narc.LoadArchive | rip.c:321-328 | the reads of `narc_load` from the archive header on are `ParseNarc` of the file's bytes |
| Narc.LoadFatb | rip.c:330-351 | the FATB part of `narc_load`: an abort for a missing FATB tag, FAIL when the header or the records are cut short, else the records read from the file; it equals `ParseFatb` |
| Narc.LoadFntb | rip.c:354-360 | the FNTB header and the skip past its body by its declared size, as a 32-bit `int` |
| Narc.LoadFimg | rip.c:363-372 | the FIMG header; the position after it is the data offset |
| Narc.ParseNarc | rip.c:310-379 | `narc_load` over the file's bytes: 'CRAN', the FATB header and records, the FNTB header and its skip, the FIMG header, each stage failing or aborting as the C code does (its properties are the `Loaded*` and `NotANarcExactly` lemmas) |
| Narc.MemberAt | rip.c:397-468 | `narc_load_file` over the file's bytes: abort on a reversed record, NULL for an empty or unknown member or a failed read, else the chunk the entry's reader delivers (its properties are `MemberCases`, `LoadedMember` and `UnknownMember`) |
| Narc.NotANarcExactly | rip.c:322-328 | "Not a NARC" exactly when the file does not start with the bytes of 'CRAN' |
| Narc.LoadedHeaders | rip.c:322-335 | a successful load found 'CRAN' at 0 and 'FATB' at 16, and parsed the headers there |
| Narc.LoadedRecords | rip.c:337-351 | a successful load has one record per member, each the two words at 28 + 8i |
| Narc.LoadedFntb | rip.c:354-359 | a successful load found 'FNTB' just after the records |
| Narc.LoadedDataOffset | rip.c:360-372 | the data offset lies inside the file just after the 'FIMG' tag and header; for any FNTB size below 2^31 + 8 it is 16 + 12 + 8 * file_count + fntb.size + 8 |
| Narc.FimgFound | rip.c:360-372 | the same, stated for the FIMG stage |
| Narc.MemberCases | rip.c:409-414 | a member is aborted on exactly when start > end, and skipped exactly when its length as an `int` is at most 4 (4 bytes or fewer, or 2^31 or more) |
| Narc.LoadedMember | rip.c:416-467 | a loaded member starts at data_offset + start with its tag and header; its tag is registered and selects its kind; `nitro_free` releases it exactly when it is not a stub |
| Narc.UnknownMember | rip.c:424-428 | a member with an unregistered tag gives NULL with that tag as the reason |
| Narc.Archive.Init | rip.c:304-308 | `narc_init`: every field zero, no file |
| Narc.Archive.Load | rip.c:310-379 | `narc_load` returns OKAY or FAIL as `ParseNarc` says, and on success the struct holds what `ParseNarc` found |
| Narc.Archive.LoadFile | rip.c:397-468 | `narc_load_file` (seek, peek, seek back, look up, dispatch, end-of-file check) returns what `MemberAt` says for the member's record |
| Palette.Colors | rip.c:494-535 | the entries, one per counted index, or NULL |
| Palette.ColorCount | rip.c:510-516 | the entry count: 256 for bit depth 4, and always within the range of an `int` (cases in `ColorCountCases`) |
| Palette.ColorOf | rip.c:527-531 | one entry: three channels below 32, and an alpha of 31 exactly for entry 0 |
| Palette.GetColors | rip.c:494-535 | `nclr_get_colors` returns NULL exactly when `Colors` is None, and otherwise a fresh array holding `Colors` |
| Palette.ColorCountCases | rip.c:510-516 | 256 entries for bit depth 4; otherwise the declared count, less 256 when it exceeds 256; negative when the count does not fit an `int` |
| Palette.ColorsExactly | rip.c:501-521 | entries are returned exactly when the index is below the chunk count and the entry count is not negative |
| Palette.ChannelsLossless | rip.c:527-529 | each channel is at most 31, and the three give back the low 15 bits of the word |
| Palette.ColorsContents | rip.c:525-532 | every entry's channels are the 5-bit fields of its own payload word; alpha is 31 for entry 0 and 0 after |
| Palette.WhiteAndBlack | rip.c:527-531 | 0x7fff gives (31, 31, 31) and 0 gives (0, 0, 0) |
| Pixels.GetPixels | rip.c:537-621 | `ncgr_get_pixels` without the assertion of line 592 returns `Pixels` of the chunk |
| Pixels.PixelsAsWritten | rip.c:537-621 | `ncgr_get_pixels` as written: NULL exactly for an unknown bit depth, and an image only for 4-bit pixels |
| Pixels.Pixels | rip.c:537-621 | `ncgr_get_pixels` without the assertion of line 592: NULL exactly for an unknown bit depth, an abort only for a size mismatch, an image of `size` pixels otherwise |
| Pixels.UnpackFour | rip.c:573-579 | the 4-bit loop fills the buffer with `Unpack4` of the payload |
| Pixels.CopyEight | rip.c:581-587 | the 8-bit loop copies the payload |
| Pixels.Unpacked | rip.c:570-587 | the unpacked buffer has one byte per pixel of the image |
| Pixels.PixelsCases | rip.c:570-591 | NULL exactly for an unknown bit depth; an abort exactly when the payload's size does not match; otherwise an image of the computed dimensions with one byte per pixel |
| Pixels.DimensionsCover | rip.c:544-557 | given dimensions are whole tiles filled by the buffer; guessed ones are 64 wide with just enough rows for the buffer |
| Pixels.GivenDimensionsUntile | rip.c:553-616 | with given dimensions the untiling pass reads only inside the buffer |
| Pixels.GuessedDimensionsOverread | rip.c:544-616 | with guessed dimensions the untiling pass can read past the buffer: 500 8-bit pixels give one row of tiles of 512 |
| Pixels.GuessedDimensionsUntile | rip.c:544-616 | with guessed dimensions the untiling pass reads past the buffer exactly when the height is a multiple of 8 and the size is not a multiple of 64 |
| Pixels.GuessedDimensionsBlank | rip.c:596-616 | with guessed dimensions a tiled image leaves every pixel past its last whole row of tiles blank |
| Pixels.GuessedNineRows | rip.c:544-616 | 288 bytes of 4-bit pixels give 9 rows of 64; pixels 512 to 575 are blank |
| Pixels.Unpack4RoundTrip | rip.c:573-579 | 4-bit pixels are the payload's nibbles in order, low nibble first; each is below 16; they pack back into the payload |
| Pixels.Pack4RoundTrip | rip.c:573-579 | packed 4-bit pixels unpack back to the pixels |
| Pixels.TiledImagePermutes | rip.c:596-616 | for dimensions given in the header, a decoded tiled image holds the unpacked buffer's pixels in another order: retiling restores the buffer |
| Pixels.LinearFourBpp | rip.c:596 | with a nonzero low byte of `tiled`, a 4-bit image is the payload's nibbles unchanged |
| Pixels.EightBppAborts | rip.c:581-592 | as written, every size-matching 8-bit graphic aborts, while without the assertion it yields its payload; on all other inputs the two agree |
| Pixels.EightBppTile | rip.c:581-592 | one 8x8 tile of 8-bit pixels: aborted as written, its payload as an 8x8 image without the assertion |
| Tiles.TileDecode | rip.c:603-612 | the pixel a buffer position is computed from is recovered from the position |
| Tiles.TileEncode | rip.c:603-612 | every buffer position decodes to a pixel whose position it is |
| Tiles.TileIndexInjective | rip.c:603-612 | distinct pixels have distinct buffer positions |
| Tiles.TileIndexBound | rip.c:601-612 | pixels in whole rows of tiles have positions below the pixel count of those tiles |
| Tiles.UntileBlanksPartialRow | rip.c:596-616 | a pixel comes from the buffer exactly when it lies before row 8 * (height / 8); every later pixel is the zero of the `memset` |
| Tiles.Untile | rip.c:596-616 | the untiled image has as many pixels as the buffer |
| Tiles.Retile | rip.c:596-616 | the tile-order arrangement of an image has as many pixels as the image |
| Tiles.UntileInPlace | rip.c:596-616 | the four nested loops into the zeroed array, then the copy back, leave `Untile` of the old buffer |
| Tiles.FillTiles | rip.c:601-613 | after the loops, each cell of whole rows of tiles holds its buffer pixel and every other cell 0 |
| Tiles.TileBlock | rip.c:603-612 | one tile copies the next 64 buffer pixels into its block |
| Tiles.TileRowCopy | rip.c:605-610 | one tile row copies the next 8 buffer pixels |
| Tiles.WritePixel | rip.c:606-609 | pixel i goes to its cell, extending what is written to positions below i + 1 |
| Tiles.CopyBack | rip.c:615 | the `memcpy` of the 2-D array into the buffer gives `Untile` of the buffer |
| Tiles.UntileRetile | rip.c:596-616 | untiling a buffer of whole tiles is a permutation: retiling restores the buffer |
| Tiles.RetileUntile | rip.c:596-616 | and untiling a retiled image restores the image |
| Tiles.SingleTile | rip.c:596-616 | a single 8x8 tile maps to itself |
| Tiles.SecondTile | rip.c:596-616 | in a 16-pixel-wide image, pixel (9, 0) comes from position 65 |
| Scramble.XorLaws | rip.c:792 | `^` on `u16`: XORing twice with a key restores the word, it is commutative, and a word XORed with itself is 0 |
| Scramble.XorBitsTwice | rip.c:792 | XORing twice with a key restores the low bits |
| Scramble.Next | rip.c:793 | one generator step, `seed * MULT + ADD` kept to 16 bits (no contract of its own; its values are in `FirstKeys`) |
| Scramble.Key | rip.c:800-803 | the key n steps from the seed, the seed itself for n = 0 (no contract of its own; `UnscramblePt` and `UnscrambleDp` are stated with it) |
| Scramble.UnscrambledPt | rip.c:797-805 | the words after `unscramble_pt`: as many as before |
| Scramble.UnscrambledDp | rip.c:787-795 | the words after `unscramble_dp`: as many as before |
| Scramble.UnscramblePt | rip.c:797-805 | `unscramble_pt` XORs word i < size with the key i generator steps from the old first word, and leaves every other word |
| Scramble.UnscrambleDp | rip.c:784-795 | `unscramble_dp` XORs word i < size with the key size - 1 - i steps from the old last word, and leaves every other word |
| Scramble.SeedWordCleared | rip.c:787-805 | the seed's own word becomes 0: the first after `unscramble_pt`, the last after `unscramble_dp` |
| Scramble.PtRoundTrip | rip.c:797-805 | `unscramble_pt` undoes a forward scrambling of a plaintext starting with 0, and scrambling its result with the old first word restores the data |
| Scramble.DpRoundTrip | rip.c:787-795 | the same, backward from the last word |
| Scramble.DpKeystreamFromLastWord | rip.c:787-795 | the keystream of `unscramble_dp` depends only on the last of the size words |
| Scramble.FirstKeys | rip.c:784-785 | from seed 0 the keys are 0x6073 and then 0x7B6A |

## Left out

- LZSS decompression: `lzss.h` only declares it, and its implementation is not part of this model.
- `write_png`, `write_pam`, `ncgr_to_png`, `ncgr_to_pam` and `write_sprite`: output through libpng and stdio.
- `list`, `rip_sprites`, `rip_trainers`, `rip_trainers2` and `main`: directory creation, path formatting and fixed member ranges.
- `warn` and `pmagic`: they only print. The reason `narc_load_file` returns NULL is kept in the result instead (`NullReason`).
- `narc_free`: it asserts the magic 'NARC', which a loaded archive never has (loading requires 'CRAN'), so it aborts on every archive that loaded.
- Allocation failure (`NOMEM`, a NULL `malloc`/`calloc`) and the freeing of buffers on error paths: allocation always succeeds here, and memory release appears only as the boolean result of `NitroFree`.
- `fopen` failure in `narc_load`, and `ferror`: `Narc.Archive.Load` takes the already-opened file, and reads never fail with an operating-system error.
- The `init` hook of the registry: no registered format has one, so `FormatInfo` has no such field.
- Narc.Archive.Load: on FAIL it states only that `fp` is set; the other fields are left as the partial reads put them, and no caller reads them then.
- Narc.Archive.LoadFile: it does not state where the cursor ends up; the C code's peek and seek back are in its body.
- `off_t` is `int` here: `chunk_size` and the FNTB skip are `u32` values read as `int` (`Int32`), and `data_offset + record.start` is an unsigned 32-bit sum (`MemberOffset`).
- Narc.Archive.Load: the `long` that `ftell` returns is stored into the `int` `data_offset`; the model keeps the position as it is, which differs only for files of 2 GiB or more.
- The uninitialised locals of `narc_load` (`fimg_header`) and `narc_load_file` (`magic`) are taken as zeroed before their reads; a short read fails either way.
- Pixels.GetPixels: requires `PixelsDefined`, which excludes behaviour the C code leaves undefined. That covers a `size` overflowing `int`, and a 4-bit payload whose doubled `u32` size wraps yet matches. It also covers an untiling pass that reads past the buffer. With guessed dimensions that happens exactly when the guessed height is a multiple of 8 and the size is not a multiple of 64, such as 500 8-bit pixels (`Pixels.GuessedDimensionsUntile`, `Pixels.GuessedDimensionsOverread`). Other guessed dimensions are modelled, and their last, incomplete row of tiles stays blank (`Pixels.GuessedDimensionsBlank`).
- Pixels.GetPixels: with an unknown bit depth and guessed dimensions the C code allocates an uninitialised `size` before returning NULL; the model returns `NoImage` directly.
- Palette.GetColors: for an entry count of 0 it returns an empty array, where `calloc(0, ...)` may return either NULL or a pointer.
- Palette.GetColors: requires `ColorsInBounds`, that the payload holds a word for every entry read; the C code reads past the payload otherwise.
- Palette.ColorOf: the alpha follows the code, 31 for entry 0 and 0 for the others. Index 0 is transparent in the PNG output only through its `tRNS` chunk, which is left out.
- Scramble.UnscramblePt and Scramble.UnscrambleDp: `MULT` and `ADD` are `long` constants, so the product is computed in 64 bits; only its low 16 bits are kept in the `u16` seed, and the model computes that remainder directly.
- Tags.StrMagic: C `char` is signed on the usual targets, so a byte of 0x80 or more is stored as a negative `char`; the model's characters are the unsigned byte values, with the same bits.
- Scramble.Next: the same. The generator is unbounded integer arithmetic modulo 2^16.

## Findings

| source | as written | input that shows it | evidently intended | confidence | as-written member | corrected member |
|---|---|---|---|---|---|---|
| rip.c:592 | `assert(bit_depth == 3)` after the unpacking switch aborts every 8-bit graphic that the `case 4` branch has just unpacked | one 8x8 tile of 8-bit pixels (`bit_depth` 4, 1x1 tiles, 64 bytes of data), as in `Pixels.EightBppTile` | 8-bit graphics are decoded like 4-bit ones (the switch handles both depths) | not executed | Pixels.EightBppAborts | Pixels.GetPixels |
