/** Properties of the decoder that relate several of its parts, or the
    decoder to the layout constants. */
module Properties {
  import opened Nom
  import opened Geom
  import opened Lxob
  import opened Parser

  /** The layout constants agree with each other: a point is three 4-byte
      floats, the file type tag sits after the 4-byte IFF id and the 4-byte
      size, both tags have the tag length (so the assert in
      `take_until_chunk` holds), a chunk header is a tag and a size, and
      the fixed header size is the fixed fields, a 23-byte author and its
      null byte. */
  lemma LayoutConstants()
    ensures BYTES_PER_3D_POINT == 12
    ensures IFF_ID_FIELD_SIZE + IFF_SIZE_FIELD_SIZE == 8
    ensures |LXOB_FILE_TYPE_TAG| == TAG_CHAR_LEN && |PNTS_CHUNK_TAG| == TAG_CHAR_LEN
    ensures CHUNK_HEADER_SIZE == TAG_CHAR_LEN + 4
    ensures LXOB_HEADER_SIZE == 28 + 23 + 1
  {
  }

  /** The chunks after the header are read from offset `LXOB_HEADER_SIZE`;
      that is where the decoded header ends exactly when its author has 23
      bytes. */
  lemma HeaderEndsAtFixedSize(input: seq<Byte>)
    requires ParseFileHeader(input, 0).Ok?
    ensures ParseFileHeader(input, 0).next == LXOB_HEADER_SIZE <==>
              |ParseFileHeader(input, 0).value.fileTypeAuthor| == 23
  {
    FileHeaderFields(input, 0);
  }

  /** On input that holds a header, `is_lxob` answers whether the decoded
      file type tag is "LXOB". */
  lemma IsLxobOfHeader(input: seq<Byte>)
    requires ParseFileHeader(input, 0).Ok?
    ensures IsLxob(input) == Success(ParseFileHeader(input, 0).value.fileTypeTag == LXOB_FILE_TYPE_TAG)
  {
    FileHeaderLayout(input, 0);
    FileHeaderFields(input, 0);
  }

  /** Each step of the chunk walk advances by the chunk's binary size and
      its pad byte, an even number of bytes: chunks end on even
      boundaries. */
  lemma ChunkStepIsEven(input: seq<Byte>, at: nat)
    requires ParseChunkHeaderSkipData(input, at).Ok?
    ensures var r := ParseChunkHeaderSkipData(input, at);
            && r.next == at + BinarySize<Point>(Chunk(r.value, [])) + r.value.dataSize % 2
            && (r.next - at) % 2 == 0
  {
  }

  /** A decoded PNTS chunk has no pad byte: its points take 12 bytes each,
      its binary size is the whole chunk, and the chunk walk would step
      over exactly the bytes it consumed. */
  lemma PntsChunkIsWhole(input: seq<Byte>, k: nat)
    requires OccursAt(PNTS_CHUNK_TAG, input, k) && ParseChunkPntsAtTag(input, k).Ok?
    ensures var r := ParseChunkPntsAtTag(input, k);
            && BinarySize(r.value) == 8 + 12 * |r.value.data|
            && ParseChunkHeaderSkipData(input, k) == Ok(r.next, r.value.header)
  {
    PntsIsText();
  }
}
