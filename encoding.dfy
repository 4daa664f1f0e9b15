/** A reference encoder for the LXOB layout the decoder reads. It is not
    part of the source; it writes each record the way the decoder expects
    to find it, so that decoding can be checked against it in both
    directions. */
module Encoding {
  import opened Nom
  import opened Utf8
  import opened Geom
  import opened Lxob
  import opened Parser

  // ---------------------------------------------------------------------
  // Numbers

  /** The four bytes of `n`, most significant first. */
  function BigEndianBytes(n: U32): (b: seq<Byte>)
    ensures |b| == 4
  {
    [n / 0x100_0000, (n / 0x1_0000) % 0x100, (n / 0x100) % 0x100, n % 0x100]
  }

  /** Reading the bytes of a number gives the number back. */
  lemma FromBigEndianBytes(n: U32)
    ensures FromBigEndian(BigEndianBytes(n)) == n
  {
    var b := BigEndianBytes(n);
    assert n / 0x100 == (n / 0x1_0000) * 0x100 + b[2] as int;
    assert n / 0x1_0000 == b[0] as int * 0x100 + b[1] as int;
  }

  /** Writing the number that four bytes hold gives the bytes back. */
  lemma BigEndianBytesOf(b: seq<Byte>)
    requires |b| == 4
    ensures BigEndianBytes(FromBigEndian(b)) == b
  {
    var n := FromBigEndian(b);
    assert n == ((b[0] as int * 0x100 + b[1] as int) * 0x100 + b[2] as int) * 0x100 + b[3] as int;
    assert n % 0x100 == b[3] as int;
    assert n / 0x100 == (b[0] as int * 0x100 + b[1] as int) * 0x100 + b[2] as int;
    assert (n / 0x100) % 0x100 == b[2] as int;
    assert n / 0x1_0000 == b[0] as int * 0x100 + b[1] as int;
    assert (n / 0x1_0000) % 0x100 == b[1] as int;
    assert n / 0x100_0000 == b[0] as int;
  }

  // ---------------------------------------------------------------------
  // The file header

  /** No byte of `s` is the null byte. */
  predicate NoNull(s: seq<Byte>) {
    forall i :: 0 <= i < |s| ==> s[i] != 0
  }

  /** Four bytes of text. */
  predicate IsTag(t: seq<Byte>) {
    |t| == TAG_CHAR_LEN && ValidUtf8(t)
  }

  /** The headers the layout can hold: tags of four bytes of text, a byte
      count that fits 32 bits, and author text without a null byte. */
  predicate EncodableHeader(h: FileHeader) {
    && IsTag(h.iffId) && h.byteCount < 0x1_0000_0000
    && IsTag(h.fileTypeTag) && IsTag(h.versionTag)
    && ValidUtf8(h.fileTypeAuthor) && NoNull(h.fileTypeAuthor)
  }

  /** The bytes of a header: the fields in order, then the author and the
      null byte that ends it. */
  function EncodeHeader(h: FileHeader): (e: seq<Byte>)
    requires EncodableHeader(h)
    ensures |e| == 29 + |h.fileTypeAuthor|
  {
    h.iffId + BigEndianBytes(h.byteCount) + h.fileTypeTag + h.versionTag
      + BigEndianBytes(h.major) + BigEndianBytes(h.minor) + BigEndianBytes(h.patch)
      + h.fileTypeAuthor + [0]
  }

  /** Decoding an encoded header, whatever follows it, gives the header
      back and leaves the remains right after its null byte. */
  lemma HeaderRoundTrip(h: FileHeader, rest: seq<Byte>)
    requires EncodableHeader(h)
    ensures ParseFileHeader(EncodeHeader(h) + rest, 0) == Ok(29 + |h.fileTypeAuthor|, h)
  {
    var input := EncodeHeader(h) + rest;
    var a := |h.fileTypeAuthor|;
    assert input[0..4] == h.iffId;
    assert input[4..8] == BigEndianBytes(h.byteCount);
    assert input[8..12] == h.fileTypeTag;
    assert input[12..16] == h.versionTag;
    assert input[16..20] == BigEndianBytes(h.major);
    assert input[20..24] == BigEndianBytes(h.minor);
    assert input[24..28] == BigEndianBytes(h.patch);
    assert input[28..28 + a] == h.fileTypeAuthor;
    assert input[28 + a] == 0;
    FromBigEndianBytes(h.byteCount);
    FromBigEndianBytes(h.major);
    FromBigEndianBytes(h.minor);
    FromBigEndianBytes(h.patch);
    assert FirstNullFrom(input, 28, 28 + a) by {
      forall i | 28 <= i < 28 + a ensures input[i] != 0 {
        assert input[i] == h.fileTypeAuthor[i - 28];
      }
    }
    assert HeaderAt(input, 0, a);
    FileHeaderComplete(input, 0, a);
  }

  /** The header fields of a header layout are encodable, and encoding
      them gives back the bytes of the layout. */
  lemma HeaderFieldsEncode(input: seq<Byte>, at: nat, a: nat)
    requires HeaderAt(input, at, a)
    ensures EncodableHeader(HeaderFields(input, at, a))
    ensures EncodeHeader(HeaderFields(input, at, a)) == input[at..at + 29 + a]
  {
    BigEndianBytesOf(input[at + 4..at + 8]);
    BigEndianBytesOf(input[at + 16..at + 20]);
    BigEndianBytesOf(input[at + 20..at + 24]);
    BigEndianBytesOf(input[at + 24..at + 28]);
    assert input[at..at + 29 + a]
        == input[at..at + 4] + input[at + 4..at + 8] + input[at + 8..at + 12]
           + input[at + 12..at + 16] + input[at + 16..at + 20] + input[at + 20..at + 24]
           + input[at + 24..at + 28] + input[at + 28..at + 28 + a] + [input[at + 28 + a]];
  }

  /** A decoded header is encodable, and encoding it gives back exactly
      the bytes the decoder consumed. */
  lemma HeaderEncodesConsumed(input: seq<Byte>, at: nat)
    requires ParseFileHeader(input, at).Ok?
    ensures var r := ParseFileHeader(input, at);
            && EncodableHeader(r.value)
            && at <= r.next <= |input|
            && EncodeHeader(r.value) == input[at..r.next]
  {
    FileHeaderLayout(input, at);
    FileHeaderFields(input, at);
    HeaderFieldsEncode(input, at, |ParseFileHeader(input, at).value.fileTypeAuthor|);
  }

  // ---------------------------------------------------------------------
  // Chunks

  /** A chunk as it is stored: a four-byte tag and its data bytes. */
  datatype RawChunk = RawChunk(name: seq<Byte>, data: seq<Byte>)

  /** The chunks the layout can hold: a tag of text, and data whose size
      fits 32 bits. */
  predicate EncodableChunk(c: RawChunk) {
    IsTag(c.name) && |c.data| < 0x1_0000_0000
  }

  /** The bytes of a chunk: tag, data size, data, and a null pad byte
      after odd-sized data. */
  function EncodeChunk(c: RawChunk): (e: seq<Byte>)
    requires EncodableChunk(c)
    ensures |e| == 8 + |c.data| + |c.data| % 2
  {
    c.name + BigEndianBytes(|c.data|) + c.data + (if |c.data| % 2 == 1 then [0] else [])
  }

  /** The header the decoder reports for a chunk. */
  function HeaderOf(c: RawChunk): (h: ChunkHeader)
    ensures h.name == c.name && h.dataSize == |c.data|
  {
    ChunkHeader(c.name, |c.data|)
  }

  /** The bytes `e` sit in `input` at offset `at`. */
  predicate EncodedAt(input: seq<Byte>, at: nat, e: seq<Byte>) {
    at + |e| <= |input| && input[at..at + |e|] == e
  }

  /** A slice is its two halves. */
  lemma SliceConcat(s: seq<Byte>, i: nat, j: nat, k: nat)
    requires i <= j <= k <= |s|
    ensures s[i..k] == s[i..j] + s[j..k]
  {
  }

  /** Two encodings in a row sit one after the other. */
  lemma EncodedAtSplit(input: seq<Byte>, at: nat, x: seq<Byte>, y: seq<Byte>)
    requires EncodedAt(input, at, x + y)
    ensures EncodedAt(input, at, x) && EncodedAt(input, at + |x|, y)
  {
    assert input[at..at + |x|] == (x + y)[..|x|];
    assert input[at + |x|..at + |x| + |y|] == (x + y)[|x|..];
  }

  /** Where an encoded chunk sits, a whole chunk with the chunk's header
      starts, whatever surrounds it. */
  lemma ChunkAtEncoding(input: seq<Byte>, at: nat, c: RawChunk)
    requires EncodableChunk(c) && EncodedAt(input, at, EncodeChunk(c))
    ensures ChunkAt(input, at)
    ensures ChunkHeaderAt(input, at) == HeaderOf(c)
    ensures ChunkExtent(HeaderOf(c)) == |EncodeChunk(c)|
  {
    var size := BigEndianBytes(|c.data|);
    var pad: seq<Byte> := if |c.data| % 2 == 1 then [0] else [];
    EncodedAtSplit(input, at, c.name + size + c.data, pad);
    EncodedAtSplit(input, at, c.name + size, c.data);
    EncodedAtSplit(input, at, c.name, size);
    FromBigEndianBytes(|c.data|);
  }

  /** Decoding one encoded chunk gives its header and skips its data and
      pad byte. */
  lemma ChunkRoundTrip(input: seq<Byte>, at: nat, c: RawChunk)
    requires EncodableChunk(c) && EncodedAt(input, at, EncodeChunk(c))
    ensures ParseChunkHeaderSkipData(input, at) == Ok(at + |EncodeChunk(c)|, HeaderOf(c))
  {
    ChunkAtEncoding(input, at, c);
  }

  /** Every chunk of `cs` is encodable. */
  predicate AllEncodable(cs: seq<RawChunk>) {
    cs == [] || (EncodableChunk(cs[0]) && AllEncodable(cs[1..]))
  }

  /** The bytes of consecutive chunks. */
  function EncodeChunks(cs: seq<RawChunk>): (e: seq<Byte>)
    requires AllEncodable(cs)
  {
    if cs == [] then [] else EncodeChunk(cs[0]) + EncodeChunks(cs[1..])
  }

  /** The headers the decoder reports for consecutive chunks. */
  function HeadersOf(cs: seq<RawChunk>): (hs: seq<ChunkHeader>)
    ensures |hs| == |cs|
  {
    if cs == [] then [] else [HeaderOf(cs[0])] + HeadersOf(cs[1..])
  }

  /** Encoded chunks are as long as the extents of their headers. */
  lemma {:induction false} ChunksExtentOfEncoding(cs: seq<RawChunk>)
    requires AllEncodable(cs)
    ensures ChunksExtent(HeadersOf(cs)) == |EncodeChunks(cs)|
    decreases |cs|
  {
    if cs != [] {
      ChunksExtentOfEncoding(cs[1..]);
      assert HeadersOf(cs)[1..] == HeadersOf(cs[1..]);
    }
  }

  /** Where encoded chunks sit, a run of whole chunks with their headers
      starts. */
  lemma {:induction false} ChunkRunOfEncoding(input: seq<Byte>, at: nat, cs: seq<RawChunk>)
    requires AllEncodable(cs) && EncodedAt(input, at, EncodeChunks(cs))
    ensures ChunkRun(input, at, HeadersOf(cs))
    decreases |cs|
  {
    if cs != [] {
      var e := EncodeChunk(cs[0]);
      var h := HeaderOf(cs[0]);
      EncodedAtSplit(input, at, e, EncodeChunks(cs[1..]));
      assert ChunkAt(input, at) && h == ChunkHeaderAt(input, at) && ChunkExtent(h) == |e| by {
        ChunkAtEncoding(input, at, cs[0]);
      }
      assert ChunkRun(input, at + ChunkExtent(h), HeadersOf(cs[1..])) by {
        ChunkRunOfEncoding(input, at + |e|, cs[1..]);
      }
      ChunkRunCons(input, at, h, HeadersOf(cs[1..]));
      assert HeadersOf(cs) == [h] + HeadersOf(cs[1..]);
    }
  }

  /** Decoding one or more encoded chunks gives their headers in order and
      leaves the remains where the encoding ends, when the bytes that
      follow end the walk. */
  lemma ChunksRoundTrip(input: seq<Byte>, at: nat, cs: seq<RawChunk>)
    requires |cs| >= 1 && AllEncodable(cs) && EncodedAt(input, at, EncodeChunks(cs))
    requires EndOfChunks(input, at + |EncodeChunks(cs)|)
    ensures ParseChunkHeaders(input, at) == Ok(at + |EncodeChunks(cs)|, HeadersOf(cs))
  {
    var hs := HeadersOf(cs);
    ChunkRunOfEncoding(input, at, cs);
    assert at + ChunksExtent(hs) == at + |EncodeChunks(cs)| by { ChunksExtentOfEncoding(cs); }
    ChunkHeadersComplete(input, at, hs);
  }

  // ---------------------------------------------------------------------
  // The PNTS chunk

  /** The bytes of a point: x, y and z, each most significant byte first. */
  function EncodePoint(pt: Point): (e: seq<Byte>)
    ensures |e| == 12
  {
    BigEndianBytes(pt.x) + BigEndianBytes(pt.y) + BigEndianBytes(pt.z)
  }

  /** Where an encoded point sits, the point is read back. */
  lemma PointOfEncoding(input: seq<Byte>, at: nat, pt: Point)
    requires EncodedAt(input, at, EncodePoint(pt))
    ensures PointAt(input, at) == pt
  {
    EncodedAtSplit(input, at, BigEndianBytes(pt.x) + BigEndianBytes(pt.y), BigEndianBytes(pt.z));
    EncodedAtSplit(input, at, BigEndianBytes(pt.x), BigEndianBytes(pt.y));
    FromBigEndianBytes(pt.x);
    FromBigEndianBytes(pt.y);
    FromBigEndianBytes(pt.z);
  }

  /** Encoding the point read at `at` gives back its twelve bytes. */
  lemma EncodePointAt(input: seq<Byte>, at: nat)
    requires at + 12 <= |input|
    ensures EncodePoint(PointAt(input, at)) == input[at..at + 12]
  {
    BigEndianBytesOf(input[at..at + 4]);
    BigEndianBytesOf(input[at + 4..at + 8]);
    BigEndianBytesOf(input[at + 8..at + 12]);
    assert input[at..at + 12] == input[at..at + 4] + input[at + 4..at + 8] + input[at + 8..at + 12];
  }

  /** The bytes of points in order: twelve bytes per point. */
  function EncodePoints(ps: seq<Point>): (e: seq<Byte>)
    ensures |e| == 12 * |ps|
  {
    seq(12 * |ps|, j requires 0 <= j < 12 * |ps| => EncodePoint(ps[j / 12])[j % 12])
  }

  /** The bytes of points are those of the first point, then those of the
      rest. */
  lemma EncodePointsCons(ps: seq<Point>)
    requires ps != []
    ensures EncodePoints(ps) == EncodePoint(ps[0]) + EncodePoints(ps[1..])
  {
    var e := EncodePoints(ps);
    var more := EncodePoints(ps[1..]);
    forall j | 0 <= j < |e| ensures e[j] == (EncodePoint(ps[0]) + more)[j] {
      if j >= 12 {
        assert (j - 12) / 12 == j / 12 - 1 && (j - 12) % 12 == j % 12;
        assert more[j - 12] == EncodePoint(ps[1..][(j - 12) / 12])[(j - 12) % 12];
      }
    }
  }

  /** `count` of one or more points reads one point, then the rest. */
  lemma CountPointsStep(input: seq<Byte>, at: nat, n: nat)
    requires at <= |input| && n > 0 && CountPoints(input, at, n).Ok?
    ensures at + 12 <= |input| && CountPoints(input, at + 12, n - 1).Ok?
    ensures CountPoints(input, at, n).value == [PointAt(input, at)] + CountPoints(input, at + 12, n - 1).value
  {
  }

  /** `ps` are the points stored one after another from `at`. */
  predicate PointsAt(input: seq<Byte>, at: nat, ps: seq<Point>)
    decreases |ps|
  {
    ps == [] || (at + 12 <= |input| && ps[0] == PointAt(input, at) && PointsAt(input, at + 12, ps[1..]))
  }

  /** `count` reads the points stored one after another. */
  lemma {:induction false} CountPointsRun(input: seq<Byte>, at: nat, n: nat)
    requires at <= |input| && CountPoints(input, at, n).Ok?
    ensures PointsAt(input, at, CountPoints(input, at, n).value)
    decreases n
  {
    if n > 0 {
      CountPointsStep(input, at, n);
      CountPointsRun(input, at + 12, n - 1);
      assert CountPoints(input, at, n).value[1..] == CountPoints(input, at + 12, n - 1).value;
    }
  }

  /** Where encoded points sit, the points are stored one after
      another. */
  lemma {:induction false} PointsOfEncoding(input: seq<Byte>, at: nat, ps: seq<Point>)
    requires EncodedAt(input, at, EncodePoints(ps))
    ensures PointsAt(input, at, ps)
    decreases |ps|
  {
    if ps != [] {
      EncodePointsCons(ps);
      EncodedAtSplit(input, at, EncodePoint(ps[0]), EncodePoints(ps[1..]));
      PointOfEncoding(input, at, ps[0]);
      PointsOfEncoding(input, at + 12, ps[1..]);
    }
  }

  /** `count` reads back the points stored one after another, and the
      remains start right after them. */
  lemma {:induction false} CountPointsOfRun(input: seq<Byte>, at: nat, ps: seq<Point>)
    requires at <= |input| && PointsAt(input, at, ps)
    ensures CountPoints(input, at, |ps|) == Ok(at + 12 * |ps|, ps)
    decreases |ps|
  {
    if ps != [] {
      CountPointsOfRun(input, at + 12, ps[1..]);
      assert ps == [ps[0]] + ps[1..];
    }
  }

  /** Where encoded points sit, `count` reads them all back and the
      remains start right after them. */
  lemma CountPointsOfEncoding(input: seq<Byte>, at: nat, ps: seq<Point>)
    requires EncodedAt(input, at, EncodePoints(ps))
    ensures CountPoints(input, at, |ps|) == Ok(at + 12 * |ps|, ps)
  {
    PointsOfEncoding(input, at, ps);
    CountPointsOfRun(input, at, ps);
  }

  /** Points stored one after another re-encode to the bytes they are
      stored in. */
  lemma {:induction false} EncodePointsRun(input: seq<Byte>, at: nat, ps: seq<Point>)
    requires at <= |input| && PointsAt(input, at, ps)
    ensures at + 12 * |ps| <= |input| && EncodePoints(ps) == input[at..at + 12 * |ps|]
    decreases |ps|
  {
    if ps != [] {
      EncodePointsCons(ps);
      EncodePointAt(input, at);
      EncodePointsRun(input, at + 12, ps[1..]);
      assert at + 12 + 12 * |ps[1..]| == at + 12 * |ps|;
      SliceConcat(input, at, at + 12, at + 12 * |ps|);
    }
  }

  /** The points `count` reads re-encode to the bytes it consumed. */
  lemma CountPointsEncode(input: seq<Byte>, at: nat, n: nat)
    requires at <= |input| && CountPoints(input, at, n).Ok?
    ensures EncodePoints(CountPoints(input, at, n).value) == input[at..at + 12 * n]
  {
    CountPointsRun(input, at, n);
    EncodePointsRun(input, at, CountPoints(input, at, n).value);
  }

  /** The point lists a PNTS chunk can hold: at least one point, and a data
      size that fits 32 bits. */
  predicate EncodablePoints(ps: seq<Point>) {
    1 <= |ps| && 12 * |ps| < 0x1_0000_0000
  }

  /** The bytes of a PNTS chunk: the tag, the data size and the points. A
      point is 12 bytes, so no pad byte follows. */
  function EncodePnts(ps: seq<Point>): (e: seq<Byte>)
    requires EncodablePoints(ps)
    ensures |e| == 8 + 12 * |ps|
  {
    PNTS_CHUNK_TAG + BigEndianBytes(12 * |ps|) + EncodePoints(ps)
  }

  /** The chunk the decoder reports for points. */
  function PntsChunkOf(ps: seq<Point>): (c: Chunk<Point>)
    ensures c.header.name == PNTS_CHUNK_TAG && c.header.dataSize == 12 * |ps| && c.data == ps
    ensures BinarySize(c) == 8 + 12 * |ps|
  {
    Chunk(ChunkHeader(PNTS_CHUNK_TAG, 12 * |ps|), ps)
  }

  /** The points of a PNTS chunk at a tag are the ones `count` reads
      after its header. */
  lemma PntsChunkPoints(input: seq<Byte>, k: nat)
    requires OccursAt(PNTS_CHUNK_TAG, input, k) && ParseChunkPntsAtTag(input, k).Ok?
    ensures var r := ParseChunkPntsAtTag(input, k);
            && r.value.header.dataSize % 12 == 0
            && CountPoints(input, k + 8, r.value.header.dataSize / 12).Ok?
            && r.value.data == CountPoints(input, k + 8, r.value.header.dataSize / 12).value
  {
    PntsIsText();
  }

  /** A PNTS chunk at a tag whose header declares the size of the points
      that follow decodes to that header and those points. */
  lemma PntsChunkAt(input: seq<Byte>, k: nat, ps: seq<Point>)
    requires OccursAt(PNTS_CHUNK_TAG, input, k) && k + 8 <= |input| && |ps| >= 1
    requires ChunkHeaderAt(input, k) == ChunkHeader(PNTS_CHUNK_TAG, 12 * |ps|)
    requires CountPoints(input, k + 8, |ps|) == Ok(k + 8 + 12 * |ps|, ps)
    ensures ParseChunkPntsAtTag(input, k) == Ok(k + 8 + 12 * |ps|, PntsChunkOf(ps))
  {
    PntsIsText();
    assert ParseChunkHeader(input, k) == Ok(k + 8, ChunkHeaderAt(input, k));
    assert 12 * |ps| / 12 == |ps|;
    assert ParsePoints(input, k + 8, 12 * |ps|) == CountPoints(input, k + 8, |ps|);
  }

  /** Where an encoded PNTS chunk sits, its tag, its header and its
      points are found. */
  lemma PntsLayout(input: seq<Byte>, at: nat, ps: seq<Point>)
    requires EncodablePoints(ps) && EncodedAt(input, at, EncodePnts(ps))
    ensures OccursAt(PNTS_CHUNK_TAG, input, at) && at + 8 <= |input|
    ensures ChunkHeaderAt(input, at) == ChunkHeader(PNTS_CHUNK_TAG, 12 * |ps|)
    ensures EncodedAt(input, at + 8, EncodePoints(ps))
  {
    var size := BigEndianBytes(12 * |ps|);
    EncodedAtSplit(input, at, PNTS_CHUNK_TAG + size, EncodePoints(ps));
    EncodedAtSplit(input, at, PNTS_CHUNK_TAG, size);
    FromBigEndianBytes(12 * |ps|);
  }

  /** Where an encoded PNTS chunk sits, decoding from there gives its
      points back, whatever surrounds it, and the remains start right
      after the last point. */
  lemma PntsRoundTrip(input: seq<Byte>, at: nat, ps: seq<Point>)
    requires EncodablePoints(ps) && EncodedAt(input, at, EncodePnts(ps))
    ensures ParseChunkPnts(input, at) == Ok(at + 8 + 12 * |ps|, PntsChunkOf(ps))
  {
    PntsLayout(input, at, ps);
    CountPointsOfEncoding(input, at + 8, ps);
    PntsChunkAt(input, at, ps);
    ChunkPntsAt(input, at, at);
  }

  /** The bytes of a PNTS chunk, read off the input. */
  lemma PntsBytes(input: seq<Byte>, k: nat, ps: seq<Point>)
    requires EncodablePoints(ps) && k + 8 + 12 * |ps| <= |input|
    requires input[k..k + 4] == PNTS_CHUNK_TAG && FromBigEndian(input[k + 4..k + 8]) == 12 * |ps|
    requires EncodePoints(ps) == input[k + 8..k + 8 + 12 * |ps|]
    ensures EncodePnts(ps) == input[k..k + 8 + 12 * |ps|]
  {
    BigEndianBytesOf(input[k + 4..k + 8]);
    SliceConcat(input, k, k + 4, k + 8);
    SliceConcat(input, k, k + 8, k + 8 + 12 * |ps|);
  }

  /** A decoded PNTS chunk re-encodes to exactly the bytes from its tag to
      the remains. */
  lemma PntsEncodesConsumed(input: seq<Byte>, k: nat)
    requires OccursAt(PNTS_CHUNK_TAG, input, k) && ParseChunkPntsAtTag(input, k).Ok?
    ensures var r := ParseChunkPntsAtTag(input, k);
            && EncodablePoints(r.value.data)
            && r.value == PntsChunkOf(r.value.data)
            && EncodePnts(r.value.data) == input[k..r.next]
  {
    var r := ParseChunkPntsAtTag(input, k);
    PntsChunkPoints(input, k);
    CountPointsEncode(input, k + 8, r.value.header.dataSize / 12);
    PntsBytes(input, k, r.value.data);
  }
}
