/** The LXOB decoder. Each parser reads the slice `input[at..]` and returns
    the offset `next` where its remains start and the decoded value, or an
    error. */
module Parser {
  import opened Nom
  import opened Utf8
  import opened Geom
  import opened Lxob

  // ---------------------------------------------------------------------
  // Primitive readers

  /** `to_str`: the bytes as text, or the panic on bytes that are not UTF-8. */
  function ToStr(val: seq<Byte>): (r: Result<seq<Byte>>)
    ensures r.Success? <==> ValidUtf8(val)
    ensures r.Success? ==> r.value == val
    ensures r.Failure? ==> r.error == Panic(InvalidUtf8)
  {
    if ValidUtf8(val) then Success(val) else Failure(Panic(InvalidUtf8))
  }

  /** `parse_u32`: a big-endian 32-bit unsigned integer. */
  function ParseU32(input: seq<Byte>, at: nat): (r: Parsed<U32>)
    ensures r.Ok? <==> at + 4 <= |input|
    ensures r.Ok? ==> r.next == at + 4 && r.value == FromBigEndian(input[at..at + 4])
    ensures r.Err? ==> r.error == NomError(Eof)
  {
    BeU32(input, at)
  }

  /** `parse_tag`: four bytes of text, unchanged; they need not be letters. */
  function ParseTag(input: seq<Byte>, at: nat): (r: Parsed<seq<Byte>>)
    ensures r.Ok? <==> at + 4 <= |input| && ValidUtf8(input[at..at + 4])
    ensures r.Ok? ==> r.next == at + 4 && r.value == input[at..r.next]
    ensures r.Err? ==> r.error == if at + 4 > |input| then NomError(Eof) else Panic(InvalidUtf8)
  {
    var tag := Take(input, at, TAG_CHAR_LEN);
    if tag.Err? then Err(tag.error) else
    match ToStr(tag.value)
    case Success(text) => Ok(tag.next, text)
    case Failure(e) => Err(e)
  }

  /** `parse_usize`: a big-endian 32-bit unsigned integer as a byte count. */
  function ParseUsize(input: seq<Byte>, at: nat): (r: Parsed<ByteCount>)
    ensures r.Ok? <==> at + 4 <= |input|
    ensures r.Ok? ==> r.next == at + 4 && r.value == FromBigEndian(input[at..at + 4])
    ensures r.Err? ==> r.error == NomError(Eof)
  {
    var n := ParseU32(input, at);
    if n.Err? then Err(n.error) else Ok(n.next, n.value as ByteCount)
  }

  /** A null byte at `i` is a match of the one-byte pattern `[0]`. */
  lemma NullOccursAt(s: seq<Byte>, i: nat)
    ensures OccursAt([0], s, i) <==> i < |s| && s[i] == 0
  {
    if i < |s| {
      assert s[i..i + 1] == [s[i]];
    }
  }

  /** `k` holds the first null byte at or after `at`. */
  predicate FirstNullFrom(input: seq<Byte>, at: nat, k: nat) {
    at <= k < |input| && input[k] == 0 && forall i :: at <= i < k ==> input[i] != 0
  }

  /** `parse_file_type_author`: the text before the first null byte; the
      remains start at that null byte. */
  function ParseFileTypeAuthor(input: seq<Byte>, at: nat): (r: Parsed<seq<Byte>>)
    ensures (forall i :: at <= i < |input| ==> input[i] != 0) ==> r == Err(NomError(PatternNotFound))
    ensures r.Ok? ==> FirstNullFrom(input, at, r.next) && r.value == input[at..r.next] && ValidUtf8(r.value)
    ensures r.Err? ==> r.error == NomError(PatternNotFound) || r.error == Panic(InvalidUtf8)
  {
    var author := TakeUntil([0], input, at);
    if author.Err? then
      assert forall i :: at <= i < |input| ==> input[i] != 0 by {
        forall i | at <= i < |input| ensures input[i] != 0 {
          NullOccursAt(input, i);
        }
      }
      Err(author.error)
    else
      assert FirstNullFrom(input, at, author.next) by {
        NullOccursAt(input, author.next);
        forall i | at <= i < author.next ensures input[i] != 0 {
          NullOccursAt(input, i);
        }
      }
      match ToStr(author.value)
      case Success(text) => Ok(author.next, text)
      case Failure(e) => Err(e)
  }

  /** Given where the first null byte is, the author is the text before it,
      or the decoder panics on bytes that are not UTF-8. */
  lemma FileTypeAuthorAtFirstNull(input: seq<Byte>, at: nat, k: nat)
    requires FirstNullFrom(input, at, k)
    ensures ParseFileTypeAuthor(input, at) ==
              if ValidUtf8(input[at..k]) then Ok(k, input[at..k]) else Err(Panic(InvalidUtf8))
  {
    NullOccursAt(input, k);
    var author := TakeUntil([0], input, at);
    assert author.Ok?;
    NullOccursAt(input, author.next);
  }

  // ---------------------------------------------------------------------
  // The file header

  /** The header fields at their offsets from `at`, for an author of `a`
      bytes. */
  function HeaderFields(input: seq<Byte>, at: nat, a: nat): FileHeader
    requires at + 28 + a <= |input|
  {
    FileHeader(input[at..at + 4], FromBigEndian(input[at + 4..at + 8]),
               input[at + 8..at + 12], input[at + 12..at + 16],
               FromBigEndian(input[at + 16..at + 20]), FromBigEndian(input[at + 20..at + 24]),
               FromBigEndian(input[at + 24..at + 28]), input[at + 28..at + 28 + a])
  }

  /** The bytes from `at` hold a header with an author of `a` bytes: three
      tags of text, the author text and the null byte that ends it. */
  predicate HeaderAt(input: seq<Byte>, at: nat, a: nat) {
    && at + 28 + a < |input|
    && ValidUtf8(input[at..at + 4])
    && ValidUtf8(input[at + 8..at + 12])
    && ValidUtf8(input[at + 12..at + 16])
    && FirstNullFrom(input, at + 28, at + 28 + a)
    && ValidUtf8(input[at + 28..at + 28 + a])
  }

  /** `parse_file_header`: tag, size, tag, tag, three version numbers and
      the null-terminated author, then one byte, which is the null byte that
      ends the author. */
  function ParseFileHeader(input: seq<Byte>, at: nat): (r: Parsed<FileHeader>)
    ensures at + 4 > |input| ==> r == Err(NomError(Eof))
    ensures at + 28 > |input| ==> r.Err?
    ensures r.Ok? ==> at + 29 <= r.next <= |input|
  {
    var iffId := ParseTag(input, at);
    if iffId.Err? then Err(iffId.error) else
    var byteCount := ParseUsize(input, iffId.next);
    if byteCount.Err? then Err(byteCount.error) else
    var fileTypeTag := ParseTag(input, byteCount.next);
    if fileTypeTag.Err? then Err(fileTypeTag.error) else
    var versionTag := ParseTag(input, fileTypeTag.next);
    if versionTag.Err? then Err(versionTag.error) else
    var major := ParseU32(input, versionTag.next);
    if major.Err? then Err(major.error) else
    var minor := ParseU32(input, major.next);
    if minor.Err? then Err(minor.error) else
    var patch := ParseU32(input, minor.next);
    if patch.Err? then Err(patch.error) else
    var author := ParseFileTypeAuthor(input, patch.next);
    if author.Err? then Err(author.error) else
    var pad := Take(input, author.next, 1);
    if pad.Err? then Err(NomError(Eof)) else
    Ok(pad.next, FileHeader(iffId.value, byteCount.value, fileTypeTag.value, versionTag.value,
                            major.value, minor.value, patch.value, author.value))
  }

  /** A decoded header sits on a header layout whose author is the decoded
      one. */
  lemma FileHeaderLayout(input: seq<Byte>, at: nat)
    requires ParseFileHeader(input, at).Ok?
    ensures HeaderAt(input, at, |ParseFileHeader(input, at).value.fileTypeAuthor|)
  {
    var author := ParseFileTypeAuthor(input, at + 28);
    assert ParseTag(input, at).Ok? && ParseTag(input, at + 8).Ok? && ParseTag(input, at + 12).Ok?;
    assert author.Ok? && author.next < |input|;
  }

  /** What a decoded header is made of: the fields at their offsets, and
      the header takes 29 bytes besides the author. */
  lemma FileHeaderFields(input: seq<Byte>, at: nat)
    requires ParseFileHeader(input, at).Ok?
    ensures var r := ParseFileHeader(input, at);
            var a := |r.value.fileTypeAuthor|;
            && at + 28 + a < |input|
            && r.next == at + 28 + a + 1
            && r.value == HeaderFields(input, at, a)
  {
    FileHeaderLayout(input, at);
    FileHeaderComplete(input, at, |ParseFileHeader(input, at).value.fileTypeAuthor|);
  }

  /** Without a null byte after the fixed fields there is no header. */
  lemma FileHeaderNeedsNull(input: seq<Byte>, at: nat)
    requires forall i :: at + 28 <= i < |input| ==> input[i] != 0
    ensures ParseFileHeader(input, at).Err?
  {
    assert ParseFileTypeAuthor(input, at + 28).Err?;
  }

  /** Every header layout decodes. */
  lemma FileHeaderComplete(input: seq<Byte>, at: nat, a: nat)
    requires HeaderAt(input, at, a)
    ensures ParseFileHeader(input, at) == Ok(at + 28 + a + 1, HeaderFields(input, at, a))
  {
    FileTypeAuthorAtFirstNull(input, at + 28, at + 28 + a);
  }

  // ---------------------------------------------------------------------
  // Chunks

  /** The chunk header at `at`: its tag and its declared data size. */
  function ChunkHeaderAt(input: seq<Byte>, at: nat): ChunkHeader
    requires at + 8 <= |input|
  {
    ChunkHeader(input[at..at + 4], FromBigEndian(input[at + 4..at + 8]))
  }

  /** The bytes at `at` start with a four-byte tag that is not text. */
  predicate BadTagAt(input: seq<Byte>, at: nat) {
    at + 4 <= |input| && !ValidUtf8(input[at..at + 4])
  }

  /** `parse_chunk_header`: a tag and a big-endian data size. */
  function ParseChunkHeader(input: seq<Byte>, at: nat): (r: Parsed<ChunkHeader>)
    ensures r.Ok? <==> at + 8 <= |input| && ValidUtf8(input[at..at + 4])
    ensures r.Ok? ==> r.next == at + 8 && r.value == ChunkHeaderAt(input, at)
    ensures r.Err? ==> r.error == if BadTagAt(input, at) then Panic(InvalidUtf8) else NomError(Eof)
  {
    var name := ParseTag(input, at);
    if name.Err? then Err(name.error) else
    var dataSize := ParseUsize(input, name.next);
    if dataSize.Err? then Err(dataSize.error) else
    Ok(dataSize.next, ChunkHeader(name.value, dataSize.value))
  }

  /** `skip_chunk_data`: the data and, after odd-sized data, the pad byte
      that keeps chunks on even offsets. */
  function SkipChunkData(input: seq<Byte>, at: nat, dataSize: ByteCount): (r: Parsed<seq<Byte>>)
    ensures r.Ok? <==> at + dataSize + dataSize % 2 <= |input|
    ensures r.Ok? ==> r.next == at + dataSize + dataSize % 2 && r.value == input[at..r.next]
    ensures r.Ok? ==> dataSize <= r.next - at <= dataSize + 1 && (r.next - at) % 2 == 0
    ensures r.Err? ==> r.error == NomError(Eof)
  {
    var skipBytesCount := if dataSize % 2 != 0 then dataSize + 1 else dataSize;
    Take(input, at, skipBytesCount)
  }

  /** The bytes a chunk takes in the file: header, data and pad byte. */
  function ChunkExtent(h: ChunkHeader): nat {
    8 + h.dataSize + h.dataSize % 2
  }

  /** A whole chunk, header, data and pad byte, starts at `at`. */
  predicate ChunkAt(input: seq<Byte>, at: nat) {
    && at + 8 <= |input|
    && ValidUtf8(input[at..at + 4])
    && at + ChunkExtent(ChunkHeaderAt(input, at)) <= |input|
  }

  /** `parse_chunk_header_skip_data`: one chunk's header; the remains start
      after its data and pad byte. */
  function ParseChunkHeaderSkipData(input: seq<Byte>, at: nat): (r: Parsed<ChunkHeader>)
    ensures r.Ok? <==> ChunkAt(input, at)
    ensures r.Ok? ==> r.value == ChunkHeaderAt(input, at) && r.next == at + ChunkExtent(r.value)
    ensures r.Err? ==> r.error == if BadTagAt(input, at) then Panic(InvalidUtf8) else NomError(Eof)
  {
    var header := ParseChunkHeader(input, at);
    if header.Err? then Err(header.error) else
    var data := SkipChunkData(input, header.next, header.value.dataSize);
    if data.Err? then Err(data.error) else
    Ok(data.next, header.value)
  }

  /** The total extent of a run of chunks. */
  function ChunksExtent(hs: seq<ChunkHeader>): nat {
    if hs == [] then 0 else ChunkExtent(hs[0]) + ChunksExtent(hs[1..])
  }

  /** `hs` are the headers of consecutive whole chunks from `at`. */
  predicate ChunkRun(input: seq<Byte>, at: nat, hs: seq<ChunkHeader>)
    decreases |hs|
  {
    hs == [] ||
    (ChunkAt(input, at) && hs[0] == ChunkHeaderAt(input, at)
     && ChunkRun(input, at + ChunkExtent(hs[0]), hs[1..]))
  }

  /** A whole chunk followed by a run is a run. */
  lemma ChunkRunCons(input: seq<Byte>, at: nat, h: ChunkHeader, hs: seq<ChunkHeader>)
    requires ChunkAt(input, at) && h == ChunkHeaderAt(input, at)
    requires ChunkRun(input, at + ChunkExtent(h), hs)
    ensures ChunkRun(input, at, [h] + hs)
    ensures ChunksExtent([h] + hs) == ChunkExtent(h) + ChunksExtent(hs)
  {
    assert ([h] + hs)[1..] == hs;
  }

  /** Where the walk over chunks stops: no whole chunk starts at `at`, and
      the bytes there are not a tag that fails to be text. */
  predicate EndOfChunks(input: seq<Byte>, at: nat) {
    !ChunkAt(input, at) && !BadTagAt(input, at)
  }

  /** Walking whole chunks from `at` meets a tag that is not text. */
  predicate ReachesBadTag(input: seq<Byte>, at: nat)
    decreases |input| - at
  {
    BadTagAt(input, at) ||
    (ChunkAt(input, at) && ReachesBadTag(input, at + ChunkExtent(ChunkHeaderAt(input, at))))
  }

  /** The repetition inside `many1(parse_chunk_header_skip_data)` after its
      first success: it stops, keeping what it has, at the first nom error;
      a panic aborts the walk; a step that consumes nothing is an error. */
  function ChunkHeadersFrom(input: seq<Byte>, at: nat): (r: Parsed<seq<ChunkHeader>>)
    ensures r.Ok? ==> ChunkRun(input, at, r.value) && r.next == at + ChunksExtent(r.value)
    ensures r.Ok? ==> EndOfChunks(input, r.next)
    ensures r.Err? ==> ReachesBadTag(input, at)
    ensures ReachesBadTag(input, at) ==> r.Err?
    ensures r.Err? ==> r.error == Panic(InvalidUtf8)
    decreases |input| - at
  {
    var step := ParseChunkHeaderSkipData(input, at);
    if step.Err? then
      if step.error.NomError? then
        assert !BadTagAt(input, at) && !ChunkAt(input, at);
        Ok(at, [])
      else Err(step.error)
    else if step.next == at then Err(NomError(NoProgress))
    else
      assert ChunkAt(input, at) && !BadTagAt(input, at);
      assert step.next == at + ChunkExtent(ChunkHeaderAt(input, at));
      var more := ChunkHeadersFrom(input, step.next);
      if more.Err? then Err(more.error) else
      ChunkRunCons(input, at, step.value, more.value);
      Ok(more.next, [step.value] + more.value)
  }

  /** `parse_chunk_headers`: the headers of one or more chunks; the remains
      start after the last whole chunk. */
  function ParseChunkHeaders(input: seq<Byte>, at: nat): (r: Parsed<seq<ChunkHeader>>)
    ensures r.Ok? ==> |r.value| >= 1 && ChunkRun(input, at, r.value)
    ensures r.Ok? ==> r.next == at + ChunksExtent(r.value) && EndOfChunks(input, r.next)
    ensures r.Err? <==> !ChunkAt(input, at) || ReachesBadTag(input, at)
    ensures !ChunkAt(input, at) ==>
              r == Err(if BadTagAt(input, at) then Panic(InvalidUtf8) else NomError(Eof))
    ensures ChunkAt(input, at) && r.Err? ==> r.error == Panic(InvalidUtf8)
  {
    var first := ParseChunkHeaderSkipData(input, at);
    if first.Err? then Err(first.error) else
    var more := ChunkHeadersFrom(input, first.next);
    if more.Err? then Err(more.error) else
    ChunkRunCons(input, at, first.value, more.value);
    Ok(more.next, [first.value] + more.value)
  }

  /** Chunk boundaries are determined by the bytes: two runs of whole chunks
      from the same offset that both end where no chunk starts are equal. */
  lemma {:induction false} ChunkRunUnique(input: seq<Byte>, at: nat, hs: seq<ChunkHeader>, gs: seq<ChunkHeader>)
    requires ChunkRun(input, at, hs) && EndOfChunks(input, at + ChunksExtent(hs))
    requires ChunkRun(input, at, gs) && EndOfChunks(input, at + ChunksExtent(gs))
    ensures hs == gs
    decreases |hs|
  {
    if hs != [] && gs != [] {
      ChunkRunUnique(input, at + ChunkExtent(hs[0]), hs[1..], gs[1..]);
      assert hs == [hs[0]] + hs[1..];
      assert gs == [gs[0]] + gs[1..];
    }
  }

  /** A run of whole chunks that ends where no chunk starts meets no tag
      that is not text. */
  lemma {:induction false} ChunkRunAvoidsBadTag(input: seq<Byte>, at: nat, hs: seq<ChunkHeader>)
    requires ChunkRun(input, at, hs) && EndOfChunks(input, at + ChunksExtent(hs))
    ensures !ReachesBadTag(input, at)
    decreases |hs|
  {
    if hs != [] {
      ChunkRunAvoidsBadTag(input, at + ChunkExtent(hs[0]), hs[1..]);
    }
  }

  /** The walk returns every run of whole chunks that ends where no chunk
      starts. */
  lemma ChunkHeadersFromComplete(input: seq<Byte>, at: nat, hs: seq<ChunkHeader>)
    requires ChunkRun(input, at, hs) && EndOfChunks(input, at + ChunksExtent(hs))
    ensures ChunkHeadersFrom(input, at) == Ok(at + ChunksExtent(hs), hs)
  {
    ChunkRunAvoidsBadTag(input, at, hs);
    var r := ChunkHeadersFrom(input, at);
    ChunkRunUnique(input, at, r.value, hs);
  }

  /** `parse_chunk_headers` decodes every non-empty run of whole chunks
      that ends where no further chunk starts. */
  lemma ChunkHeadersComplete(input: seq<Byte>, at: nat, hs: seq<ChunkHeader>)
    requires |hs| >= 1 && ChunkRun(input, at, hs) && EndOfChunks(input, at + ChunksExtent(hs))
    ensures ParseChunkHeaders(input, at) == Ok(at + ChunksExtent(hs), hs)
  {
    var first := ParseChunkHeaderSkipData(input, at);
    assert first.Ok? && first.value == hs[0];
    ChunkHeadersFromComplete(input, first.next, hs[1..]);
    assert hs == [hs[0]] + hs[1..];
  }

  // ---------------------------------------------------------------------
  // Points

  /** `take_until_chunk`: the bytes before the first occurrence of the
      four-byte tag; the remains start at the tag. */
  function TakeUntilChunk(input: seq<Byte>, at: nat, tag: Tag): (r: Parsed<seq<Byte>>)
    requires |tag| == TAG_CHAR_LEN
    ensures r.Ok? <==> exists i: nat :: at <= i && OccursAt(tag, input, i)
    ensures r.Ok? ==> FirstOccurrence(tag, input, at, r.next) && r.value == input[at..r.next]
    ensures r.Err? ==> r.error == NomError(PatternNotFound)
  {
    TakeUntil(tag, input, at)
  }

  /** The point at `at`: three big-endian 32-bit coordinates. */
  function PointAt(input: seq<Byte>, at: nat): Point
    requires at + 12 <= |input|
  {
    Point(FromBigEndian(input[at..at + 4]), FromBigEndian(input[at + 4..at + 8]),
          FromBigEndian(input[at + 8..at + 12]))
  }

  /** `parse_point`: x, y and z. */
  function ParsePoint(input: seq<Byte>, at: nat): (r: Parsed<Point>)
    ensures r.Ok? <==> at + 12 <= |input|
    ensures r.Ok? ==> r.next == at + 12 && r.value == PointAt(input, at)
    ensures r.Err? ==> r.error == NomError(Eof)
  {
    var x := BeU32(input, at);
    if x.Err? then Err(x.error) else
    var y := BeU32(input, x.next);
    if y.Err? then Err(y.error) else
    var z := BeU32(input, y.next);
    if z.Err? then Err(z.error) else
    Ok(z.next, Point(x.value, y.value, z.value))
  }

  /** `count(parse_point, n)`: exactly `n` points in a row. */
  function CountPoints(input: seq<Byte>, at: nat, n: nat): (r: Parsed<seq<Point>>)
    requires at <= |input|
    ensures r.Ok? <==> at + n * 12 <= |input|
    ensures r.Ok? ==> r.next == at + n * 12 && |r.value| == n
    ensures r.Ok? ==> forall i :: 0 <= i < n ==> r.value[i] == PointAt(input, at + i * 12)
    ensures r.Err? ==> r.error == NomError(Eof)
    decreases n
  {
    if n == 0 then Ok(at, []) else
    var point := ParsePoint(input, at);
    if point.Err? then Err(point.error) else
    var more := CountPoints(input, point.next, n - 1);
    if more.Err? then Err(more.error) else
    Ok(more.next, [point.value] + more.value)
  }

  /** `parse_points`: the data size must be a positive multiple of a
      point's size (two asserts); then that many points. */
  function ParsePoints(input: seq<Byte>, at: nat, dataSize: ByteCount): (r: Parsed<seq<Point>>)
    requires at <= |input|
    ensures (dataSize < 12 || dataSize % 12 != 0) ==>
              r == Err(Panic(PointsSize))
    ensures dataSize >= 12 && dataSize % 12 == 0 ==>
              (r.Ok? <==> at + dataSize <= |input|)
    ensures r.Ok? ==> r.next == at + dataSize && |r.value| * 12 == dataSize && |r.value| >= 1
    ensures r.Ok? ==> forall i :: 0 <= i < |r.value| ==> r.value[i] == PointAt(input, at + i * 12)
    ensures r.Err? ==> r.error == Panic(PointsSize) || r.error == NomError(Eof)
  {
    if dataSize < BYTES_PER_3D_POINT then Err(Panic(PointsSize))
    else if dataSize % BYTES_PER_3D_POINT != 0 then Err(Panic(PointsSize))
    else
      var pointCount := dataSize / BYTES_PER_3D_POINT;
      CountPoints(input, at, pointCount)
  }

  /** The part of `parse_chunk_pnts` after the skip, with the remains at a
      "PNTS" tag: the chunk header, the tag check, and the points. The tag
      check never fails, since the header's tag is the one just found. */
  function ParseChunkPntsAtTag(input: seq<Byte>, k: nat): (r: Parsed<Chunk<Point>>)
    requires OccursAt(PNTS_CHUNK_TAG, input, k)
    ensures k + 8 > |input| ==> r == Err(NomError(Eof))
    ensures k + 8 <= |input| ==>
              var h := ChunkHeaderAt(input, k);
              && h.name == PNTS_CHUNK_TAG
              && ((h.dataSize < 12 || h.dataSize % 12 != 0) ==> r == Err(Panic(PointsSize)))
              && ((h.dataSize >= 12 && h.dataSize % 12 == 0) ==>
                    (r.Ok? <==> k + 8 + h.dataSize <= |input|))
              && (r.Err? && h.dataSize >= 12 && h.dataSize % 12 == 0 ==> r.error == NomError(Eof))
    ensures r.Ok? ==> && k + 8 <= |input|
                      && r.value.header == ChunkHeaderAt(input, k)
                      && r.next == k + BinarySize(r.value) <= |input|
    ensures r.Ok? ==> && |r.value.data| * 12 == r.value.header.dataSize
                      && |r.value.data| >= 1
                      && forall i :: 0 <= i < |r.value.data| ==>
                           r.value.data[i] == PointAt(input, k + 8 + i * 12)
  {
    PntsIsText();
    var header := ParseChunkHeader(input, k);
    if header.Err? then Err(header.error) else
    if PNTS_CHUNK_TAG != header.value.name then Err(Panic(TagMismatch)) else
    var data := ParsePoints(input, header.next, header.value.dataSize);
    if data.Err? then Err(data.error) else
    Ok(data.next, Chunk(header.value, data.value))
  }

  /** `parse_chunk_pnts`: skips to the first "PNTS" tag and decodes that
      chunk's points; the remains start after the points. */
  function ParseChunkPnts(input: seq<Byte>, at: nat): (r: Parsed<Chunk<Point>>)
    ensures (forall j: nat :: at <= j ==> !OccursAt(PNTS_CHUNK_TAG, input, j)) ==>
              r == Err(NomError(PatternNotFound))
    ensures r.Err? ==> r.error in {NomError(PatternNotFound), NomError(Eof), Panic(PointsSize)}
    ensures r.Ok? ==> at + BinarySize(r.value) <= r.next <= |input|
  {
    var skipped := TakeUntilChunk(input, at, PNTS_CHUNK_TAG);
    if skipped.Err? then Err(skipped.error) else
    ParseChunkPntsAtTag(input, skipped.next)
  }

  /** Given the first "PNTS" tag at or after `at`, the chunk decoded is
      the one that starts there. */
  lemma ChunkPntsAt(input: seq<Byte>, at: nat, k: nat)
    requires FirstOccurrence(PNTS_CHUNK_TAG, input, at, k)
    ensures ParseChunkPnts(input, at) == ParseChunkPntsAtTag(input, k)
  {
    TakeUntilAt(PNTS_CHUNK_TAG, input, at, k);
  }

  /** The "PNTS" tag is text. */
  lemma PntsIsText()
    ensures ValidUtf8(PNTS_CHUNK_TAG)
  {
    AsciiIsValidUtf8(PNTS_CHUNK_TAG);
  }

  /** The "LXOB" tag is text. */
  lemma LxobIsText()
    ensures ValidUtf8(LXOB_FILE_TYPE_TAG)
  {
    AsciiIsValidUtf8(LXOB_FILE_TYPE_TAG);
  }

  // ---------------------------------------------------------------------
  // File type

  /** `is_lxob`: whether the file type tag after the IFF id and size reads
      "LXOB". The slice panics on fewer than 8 bytes, the `expect` on a
      missing tag, and `to_str` on a tag that is not text. */
  function IsLxob(input: seq<Byte>): (r: Result<bool>)
    ensures r.Success? <==> 12 <= |input| && ValidUtf8(input[8..12])
    ensures r.Success? ==> (r.value <==> input[8..12] == LXOB_FILE_TYPE_TAG)
    ensures |input| < 8 ==> r == Failure(Panic(IndexOutOfRange))
    ensures 8 <= |input| < 12 ==> r == Failure(Panic(ExpectFailed))
    ensures 12 <= |input| && !ValidUtf8(input[8..12]) ==> r == Failure(Panic(InvalidUtf8))
  {
    var tagAt := IFF_ID_FIELD_SIZE + IFF_SIZE_FIELD_SIZE;
    if |input| < tagAt then Failure(Panic(IndexOutOfRange)) else
    var tag := ParseTag(input, tagAt);
    if tag.Err? then
      if tag.error.NomError? then Failure(Panic(ExpectFailed)) else Failure(tag.error)
    else Success(tag.value == LXOB_FILE_TYPE_TAG)
  }
}
