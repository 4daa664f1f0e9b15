# LXOB decoder model

This is a Dafny model of the binary decoder of `rust-parse-binary-nom`. The decoder reads
`.lxo` files written by 3D modelling tools. Such a file is an IFF-style "FORM" container with the
file type tag "LXOB". The Rust code in `src/parser.rs` is built from nom combinators; the model assumes the behaviour
of nom's `complete` combinators `take`, `take_until` and `be_u32`/`be_f32`, and of `many1` and
`count`. Its
records and layout constants live in `src/parser/lxob.rs`. The model covers:

- the primitive readers: big-endian `u32`, a four-byte text tag, and text up to a null byte;
- the file header decoder;
- the chunk step, which reads a chunk header and skips the data and the pad byte after
  odd-sized data;
- the chunk walk, which is `many1` over the chunk step;
- the PNTS extraction, which searches for the tag "PNTS", reads that chunk's header and then
  decodes `data_size / 12` points;
- the LXOB identity check.

Every decoder is a pure function.

- A slice `input[at..]` is written as the whole buffer `input` plus the offset `at`.
- A decoder returns `Ok(next, value)`, whose remains are `input[next..]`, or `Err(error)`.
- Recoverable errors have three kinds, named by this model: `Eof` for nom's `Eof` kind (with
  nom's `Count` kind, which `count` adds to the error of a point that is cut short, folded
  into it), `PatternNotFound` for nom's `TakeUntil` kind, and `NoProgress` for nom's `Many1`
  kind.
- The places where the Rust code panics are explicit outcomes: `Panic(InvalidUtf8)`,
  `Panic(PointsSize)`, `Panic(TagMismatch)`, `Panic(IndexOutOfRange)` and
  `Panic(ExpectFailed)`. This matches `many1`, which stops on a recoverable error but lets a
  panic end the whole walk.

Files:

- `nom.dfy` (module `Nom`): bytes, errors, and the nom primitives `take`, `take_until` and
  `be_u32`, with complete-input semantics.
- `utf8.dfy` (module `Utf8`): well-formed UTF-8, as `std::str::from_utf8` accepts it. This is
  table 3-7 of the Unicode Standard, the same set as section 4 of RFC 3629.
- `geom.dfy` (module `Geom`): the point record. `src/geom.rs` is not part of this model; the
  point's shape is taken from its uses in `src/parser.rs`.
- `lxob.dfy` (module `Lxob`): the constants and records of `src/parser/lxob.rs`.
- `parser.dfy` (module `Parser`): the decoder, one function per Rust function, with the lemmas
  that characterise it.
- `encoding.dfy` (module `Encoding`): a reference encoder for the same layout. It is not in the
  source. Its role is to be the decoder's partner: decoding an encoding gives the value back,
  and encoding a decoded value gives back exactly the bytes consumed. Its functions
  (`EncodeHeader`, `EncodeChunk`, `EncodeChunks`, `EncodePoint`, `EncodePoints`, `EncodePnts`
  and `BigEndianBytes`) are described by the round-trip lemmas in the table below.
- `properties.dfy` (module `Properties`): facts that tie several parts together, or tie the
  decoder to the constants.
- `tests.dfy` (module `TestVectors`): the unit tests of `src/parser.rs`, stated as lemmas.

## Model

| member | source | states |
|---|---|---|
| Nom.Take | src/parser.rs:26 | `take(n)` succeeds iff `n` bytes remain; it returns exactly those bytes and advances by `n`; otherwise it fails with `Eof` |
| Nom.BeU32 | src/parser.rs:117-119 | `be_u32`/`be_f32` succeed iff 4 bytes remain; they advance 4 and give the big-endian value of those bytes; otherwise they fail with `Eof` |
| Nom.FindFrom | src/parser.rs:112 | gives the first offset at or after the start where the pattern occurs, or reports that it occurs nowhere after the start |
| Nom.TakeUntil | src/parser.rs:75 | `take_until` succeeds iff the pattern occurs at or after the start; the remains then start at its first occurrence and the value is the bytes before it; otherwise it fails with `PatternNotFound` |
| Nom.TakeUntilAt | src/parser.rs:75 | given the first occurrence of the pattern, `take_until` stops exactly there |
| Utf8.AsciiIsValidUtf8 | src/parser.rs:60-65 | ASCII bytes always pass the UTF-8 check of `to_str` |
| Parser.ToStr | src/parser.rs:60-65 | `to_str` returns the bytes unchanged iff they are valid UTF-8, and otherwise panics (`Panic(InvalidUtf8)`) |
| Parser.ParseU32 | src/parser.rs:46-48 | consumes exactly 4 bytes and returns b0·2^24 + b1·2^16 + b2·2^8 + b3; fails with `Eof` when fewer than 4 bytes remain |
| Parser.ParseTag | src/parser.rs:50-53 | consumes exactly 4 bytes and returns them unchanged when they are text; `Eof` on fewer than 4 bytes; panics on 4 bytes that are not text; no check for letters |
| Parser.ParseUsize | src/parser.rs:55-58 | as `parse_u32`, with the value as a byte count |
| Parser.NullOccursAt | src/parser.rs:75 | the one-byte pattern `"\0"` occurs at an offset iff that offset holds a null byte |
| Parser.ParseFileTypeAuthor | src/parser.rs:74-77 | with no null byte after the start it fails with `PatternNotFound`; on success the remains start at the first null byte and the value is the text before it, so it holds no null byte |
| Parser.FileTypeAuthorAtFirstNull | src/parser.rs:74-77 | whenever a null byte follows, the author is the bytes before the first one, or the decoder panics if those bytes are not text |
| Parser.ParseFileHeader | src/parser.rs:17-41 | fails on fewer than 28 bytes, and with `Eof` on fewer than 4; on success it consumes at least 29 bytes |
| Parser.FileHeaderLayout | src/parser.rs:17-41 | a decoded header sits on a layout: three text tags at offsets 0, 8 and 12, then the author text and its null byte from offset 28 |
| Parser.FileHeaderFields | src/parser.rs:17-41 | on success the fields are the ones read at offsets 0, 4, 8, 12, 16, 20, 24 and 28, and the remains start at 28 + \|author\| + 1, just after the author's null byte |
| Parser.FileHeaderNeedsNull | src/parser.rs:25 | with no null byte after the fixed fields, decoding the header fails |
| Parser.FileHeaderComplete | src/parser.rs:17-41 | every byte layout of a header decodes, to the fields at their offsets |
| Parser.ParseChunkHeader | src/parser.rs:79-83 | succeeds iff 8 bytes remain and the first 4 are text; then it consumes 8 and returns that tag and the big-endian size; it panics on a tag that is not text, and fails with `Eof` otherwise |
| Parser.SkipChunkData | src/parser.rs:85-95 | consumes `data_size` bytes, plus one pad byte when `data_size` is odd, so an even number of bytes; fails with `Eof` if that many bytes do not remain |
| Parser.ParseChunkHeaderSkipData | src/parser.rs:97-101 | succeeds iff a whole chunk starts here; then it returns its header and consumes 8 + data_size + data_size mod 2 bytes; the error is a panic exactly when the tag is not text |
| Parser.ChunkRunCons | src/parser.rs:106 | a whole chunk followed by a run of whole chunks is a run, and its extent is the sum |
| Parser.ChunkHeadersFrom | src/parser.rs:106 | the repetition inside `many1` returns the headers of consecutive whole chunks in file order; it consumes the sum of their padded sizes and stops where no whole chunk starts; it fails, with a panic, iff the walk meets a tag that is not text |
| Parser.ParseChunkHeaders | src/parser.rs:105-108 | fails iff the first chunk cannot be decoded or the walk meets a tag that is not text; on success it gives at least one header in file order, consumes the sum of the padded chunk sizes, and leaves as remains whatever follows the last whole chunk |
| Parser.ChunkRunUnique | src/parser.rs:105-108 | the bytes determine the chunk boundaries: two runs from one offset that both end where no chunk starts are equal |
| Parser.ChunkRunAvoidsBadTag | src/parser.rs:105-108 | a run of whole chunks that ends where no chunk starts meets no tag that is not text |
| Parser.ChunkHeadersFromComplete | src/parser.rs:106 | the walk returns exactly each such run |
| Parser.ChunkHeadersComplete | src/parser.rs:105-108 | `parse_chunk_headers` decodes every non-empty run of whole chunks that ends where no further chunk starts |
| Parser.TakeUntilChunk | src/parser.rs:110-114 | it succeeds exactly when the tag occurs at or after the cursor; the remains then start at its first occurrence, and no earlier offset matches; otherwise it fails with `PatternNotFound` |
| Parser.ParsePoint | src/parser.rs:116-121 | consumes exactly 12 bytes: x, y and z, big-endian, in that order; fails with `Eof` otherwise |
| Parser.CountPoints | src/parser.rs:128 | `count(parse_point, n)` succeeds iff 12·n bytes remain; it gives n points, the i-th read at offset 12·i |
| Parser.ParsePoints | src/parser.rs:123-130 | a data size that is below 12 or not a multiple of 12 panics (`Panic(PointsSize)`); otherwise it decodes data_size/12 points and consumes exactly data_size bytes |
| Parser.ParseChunkPntsAtTag | src/parser.rs:136-141 | from a "PNTS" tag: the tag assertion cannot fire; a zero or non-multiple-of-12 size panics; on success the value holds ChunkHeaderAt and data_size/12 points, and it consumes the binary size, with no pad byte |
| Parser.ParseChunkPnts | src/parser.rs:133-142 | fails with `PatternNotFound` when "PNTS" does not occur, never with `TagMismatch`; on success the chunk lies inside the input |
| Parser.ChunkPntsAt | src/parser.rs:134 | the chunk decoded is the one at the first "PNTS" at or after the start |
| Parser.PntsIsText | src/parser/lxob.rs:14 | the "PNTS" tag is text |
| Parser.LxobIsText | src/parser/lxob.rs:13 | the "LXOB" tag is text |
| Parser.IsLxob | src/parser.rs:145-149 | answers iff at least 12 bytes are present and bytes 8..12 are text; then the answer is true iff bytes 8..12 are "LXOB"; it panics on fewer than 8 bytes (slice), on 8 to 11 bytes (`expect`) and on a tag that is not text |
| Lxob.NewFileHeader | src/parser/lxob.rs:37-48 | empty texts and zero numbers |
| Lxob.DefaultFileHeader | src/parser/lxob.rs:51-55 | the same as `FileHeader::new` |
| Lxob.NewChunkHeader | src/parser/lxob.rs:65-72 | an empty name and data size 0 |
| Lxob.DefaultChunkHeader | src/parser/lxob.rs:74-78 | the same as `ChunkHeader::new` |
| Lxob.NewChunk | src/parser/lxob.rs:90-95 | no contract of its own; what it builds is stated by `Lxob.NewChunkIsEmpty` |
| Lxob.NewChunkIsEmpty | src/parser/lxob.rs:88-95 | the empty chunk header and no records |
| Lxob.DefaultChunk | src/parser/lxob.rs:102-107 | no contract of its own; `Lxob.DefaultChunkIsNew` states it equals `Chunk::new` |
| Lxob.DefaultChunkIsNew | src/parser/lxob.rs:102-107 | the same as `Chunk::new` |
| Lxob.BinarySize | src/parser/lxob.rs:97-99 | no contract of its own; `Properties.ChunkStepIsEven` states that the header plus the declared data, plus the pad byte after odd data, is the whole step of the chunk walk, and `Properties.PntsChunkIsWhole` that a PNTS chunk's size is 8 plus 12 bytes per point |
| Properties.LayoutConstants | src/parser/lxob.rs:3-14 | BYTES_PER_3D_POINT = 12; IFF_ID_FIELD_SIZE + IFF_SIZE_FIELD_SIZE = 8; both tags have length TAG_CHAR_LEN, so the assert in `take_until_chunk` holds; CHUNK_HEADER_SIZE is a tag plus a size; LXOB_HEADER_SIZE = 28 + 23 + 1 |
| Properties.HeaderEndsAtFixedSize | src/main.rs:25 | the fixed offset LXOB_HEADER_SIZE where the chunks are read is where a decoded header ends iff its author has 23 bytes |
| Properties.IsLxobOfHeader | src/parser.rs:145-149 | on input that holds a header, `is_lxob` answers whether the decoded file type tag is "LXOB" |
| Properties.ChunkStepIsEven | src/parser/lxob.rs:97-99 | a chunk step advances by `binary_size` plus the pad byte, which is an even number of bytes; `binary_size` leaves the pad byte out |
| Properties.PntsChunkIsWhole | src/parser/lxob.rs:97-99 | a decoded PNTS chunk has binary size 8 + 12n for n points, and the chunk step would consume exactly the same bytes |
| Encoding.FromBigEndianBytes | src/parser.rs:46-48 | reading the bytes of a number gives the number back |
| Encoding.BigEndianBytesOf | src/parser.rs:46-48 | writing the number four bytes hold gives the bytes back |
| Encoding.HeaderRoundTrip | src/parser.rs:17-41 | decoding an encoded header, whatever follows it, gives the header back, with the remains right after its null byte |
| Encoding.HeaderFieldsEncode | src/parser.rs:17-41 | the fields of every header layout can be encoded, and encoding them gives the layout's bytes |
| Encoding.HeaderEncodesConsumed | src/parser.rs:17-41 | a decoded header re-encodes to exactly the bytes the decoder consumed |
| Encoding.ChunkAtEncoding | src/parser.rs:79-101 | where an encoded chunk sits, a whole chunk starts; its header is the chunk's, and its extent is the encoding's length |
| Encoding.ChunkRoundTrip | src/parser.rs:97-101 | where an encoded chunk sits, the chunk step gives its header back and advances by the encoding's length |
| Encoding.ChunksExtentOfEncoding | src/parser.rs:105-108 | the extent of the decoded headers is the length of the encoding |
| Encoding.ChunkRunOfEncoding | src/parser.rs:105-108 | encoded chunks form a run of whole chunks with their headers |
| Encoding.ChunksRoundTrip | src/parser.rs:105-108 | decoding one or more encoded chunks, followed by bytes where no chunk starts, gives all their headers in order and consumes the whole encoding |
| Encoding.PointOfEncoding | src/parser.rs:116-121 | where an encoded point sits, the point is read back |
| Encoding.EncodePointAt | src/parser.rs:116-121 | the point at an offset re-encodes to its 12 bytes |
| Encoding.EncodePointsCons | src/parser.rs:123-130 | the encoding of a list of points is the first point's encoding, then the rest's |
| Encoding.CountPointsStep | src/parser.rs:128 | one step of `count`: the first point, then the others |
| Encoding.CountPointsRun | src/parser.rs:128 | the points `count` decodes are read one after another |
| Encoding.PointsOfEncoding | src/parser.rs:128 | encoded points are read one after another |
| Encoding.CountPointsOfRun | src/parser.rs:128 | `count` decodes every run of points |
| Encoding.CountPointsOfEncoding | src/parser.rs:128 | `count` gives encoded points back and consumes their encoding |
| Encoding.EncodePointsRun | src/parser.rs:128 | a run of points re-encodes to the bytes it was read from |
| Encoding.CountPointsEncode | src/parser.rs:128 | the points `count` decodes re-encode to exactly the bytes it consumed |
| Encoding.PntsChunkPoints | src/parser.rs:139 | the points of a decoded PNTS chunk are the ones `count` reads after its header |
| Encoding.PntsChunkAt | src/parser.rs:136-141 | a PNTS header declaring the size of the points that follow decodes to that header and those points |
| Encoding.PntsLayout | src/parser.rs:134-136 | where an encoded PNTS chunk sits, its tag, header and points are found |
| Encoding.PntsRoundTrip | src/parser.rs:133-142 | decoding at an encoded PNTS chunk, whatever follows it, gives its points back with the remains right after the last point |
| Encoding.PntsBytes | src/parser.rs:133-142 | the bytes of a PNTS chunk read off the input are its encoding |
| Encoding.PntsEncodesConsumed | src/parser.rs:133-142 | a decoded PNTS chunk re-encodes to exactly the bytes from its tag to the remains |
| TestVectors.NexusAuthorIsText | src/parser.rs:169-171 | the author of the test header is text without a null byte |
| TestVectors.TestHeaderIsEncodable | src/parser.rs:157-172 | the fields of the test header fit the layout |
| TestVectors.TestHeaderIsEncoded | src/parser.rs:157-172 | the test header is the encoding of the header the test expects |
| TestVectors.FileHeaderGoodInput | src/parser.rs:203-217 | the 52-byte test header decodes to FORM, 18666, LXOB, VRSN, 32, 4, 1 and "nexus 10 by The Foundry", with empty remains |
| TestVectors.FileHeaderEmpty | src/parser.rs:178-182 | the empty input gives `Eof` |
| TestVectors.FileHeaderIncomplete | src/parser.rs:184-188 | "FORM0000LXOBVRSN003200040001" is rejected |
| TestVectors.SwappedTagIsNotText | src/parser.rs:190-201 | the bytes 0, 0, 72, 234 of 18666 are not UTF-8 |
| TestVectors.FileHeaderFieldsOutOfOrder | src/parser.rs:190-201 | with the byte count and the file type tag swapped, the decoder panics on the tag |
| TestVectors.FileTypeAuthorGoodInput | src/parser.rs:219-226 | "Who created this?\0" gives the text without its null byte, with the remains at the null byte |
| TestVectors.TagIsAlphabetic | src/parser.rs:235-241 | "ARTS" reads back unchanged |
| TestVectors.TagNotAlphabetic | src/parser.rs:228-233 | the big-endian bytes of 15432 are accepted as a tag |
| TestVectors.ByteCountOfTestHeader | src/parser.rs:46-48 | 0, 0, 72, 234 read as 18666; three bytes give `Eof` |
| TestVectors.IsLxobOfTestHeader | src/parser.rs:145-149 | the test header is an LXOB file |
| TestVectors.OddChunkStep | src/parser.rs:85-101 | a chunk with data size 3 advances 12 bytes; without its pad byte the step fails with `Eof` |
| TestVectors.PointsSizeZero | src/parser.rs:124 | a PNTS chunk that declares data size 0 panics in the size asserts |

## Left out

- `src/reader.rs`: file I/O (`read_file_to_buffer`). `check_file_extension` is not modelled either: it wraps `std::path::Path::extension`, whose behaviour is outside this model. So `LXO_FILE_EXTENSION` is declared but used by nothing.
- `src/main.rs`: command-line glue, printing and aborts. Its one relevant fact, the slice at `LXOB_HEADER_SIZE`, is `Properties.HeaderEndsAtFixedSize`.
- Floating point: `be_f32` decodes the same four bytes as `be_u32` and reinterprets the bits as IEEE 754. The model keeps each coordinate as its 32-bit pattern, as read big-endian.
- `to_usize` (src/parser.rs:67-72): `usize` is taken to hold every `u32`, so its panic cannot happen and a byte count is an unbounded `nat`. This also leaves out any `usize` overflow in `data_size + 1` and in the offsets.
- nom's error values: they collapse to this model's kinds `Eof`, `PatternNotFound` and `NoProgress`; the failing input slice they carry, and the `Count` kind stacked on a cut-short point, are not modelled.
- the `Debug` derives and panic messages.
- `Lxob.BinarySize` carries no contract of its own; what it means (it excludes the pad byte) is stated by `Properties.ChunkStepIsEven` and `Properties.PntsChunkIsWhole`.
- the `assert!` in `take_until_chunk` (src/parser.rs:111) is a precondition of `Parser.TakeUntilChunk`; its only caller passes "PNTS", whose length is proved to be 4.
- the re-encoding of a chunk step's bytes from its header: the decoder never reads the pad byte, so a non-zero pad byte would not round-trip. The chunk round trip is stated in the encoding direction only (`Encoding.ChunkRoundTrip`, `Encoding.ChunksRoundTrip`).

## Notes on the code

A reader might expect a fixed 52-byte header, distinct errors and a chunk walk that must end exactly at the end of the buffer. The code behaves differently, and this model follows the code.

- The doc comment of `parse_file_header` (src/parser.rs:15) says the header consists of 52 bytes. The code reads the author up to its null byte; the remains start at that null byte, and `take(1)` consumes it. So a header takes 29 + |author| bytes. That is 52 only for a 23-byte author, as in the test vector, whose byte 51 is the only null byte from offset 28 on. `Parser.FileHeaderFields` states the code's length, and `Properties.HeaderEndsAtFixedSize` states when it meets 52.
- Nothing checks for 52 bytes: `Parser.FileHeaderComplete` decodes headers of any length of at least 29.
- A partial chunk at the end is not an error. The code uses `many1`, which stops at the first step that fails with a recoverable error and returns `Ok` with the partial chunk's bytes as remains. Only a tag that is not text aborts the walk, because `to_str` panics (`Parser.ChunkHeadersFrom`, `Parser.ParseChunkHeaders`).
- A bad tag, a wrong chunk tag or a bad points size is not a returned error. The code panics in those places: `to_str`, the asserts in `parse_points`, the `assert_eq!` in `parse_chunk_pnts`, and the slice and `expect` in `is_lxob`. The checked chunk tag can never mismatch, since the chunk is found by searching for that tag (`Parser.ParseChunkPntsAtTag`).
- The test `tag_not_alphabetic` expects a panic. `parse_tag` accepts the four bytes of 15432, because they are valid UTF-8. The panic the test sees comes from its own `assert_eq!`, which fails (`TestVectors.TagNotAlphabetic`).
