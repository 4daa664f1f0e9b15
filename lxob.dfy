/** Layout constants and decoded records of the LXOB format: an IFF "FORM"
    container whose file type tag is "LXOB". Text fields hold the UTF-8
    bytes of the text, which is what a Rust `String` holds. */
module Lxob {
  import opened Nom
  import opened Geom

  /** `usize`; assumed wide enough for every `u32` (see README). */
  type ByteCount = nat

  const IFF_ID_FIELD_SIZE: ByteCount := 4
  const IFF_SIZE_FIELD_SIZE: ByteCount := 4
  const LXOB_HEADER_SIZE: ByteCount := 52
  const CHUNK_HEADER_SIZE: ByteCount := 8

  const BYTES_PER_LXOB_FLOAT: ByteCount := 4
  const BYTES_PER_3D_POINT: ByteCount := 3 * BYTES_PER_LXOB_FLOAT

  /** A tag is text of `TAG_CHAR_LEN` bytes. */
  type Tag = seq<Byte>
  const TAG_CHAR_LEN: nat := 4
  const LXOB_FILE_TYPE_TAG: Tag := [0x4C, 0x58, 0x4F, 0x42]  // "LXOB"
  const PNTS_CHUNK_TAG: Tag := [0x50, 0x4E, 0x54, 0x53]      // "PNTS"

  const LXO_FILE_EXTENSION: seq<string> := ["lxo"]

  /** The decoded header of a .lxo file. */
  datatype FileHeader = FileHeader(
    iffId: seq<Byte>,
    byteCount: ByteCount,
    fileTypeTag: seq<Byte>,
    versionTag: seq<Byte>,
    major: U32,
    minor: U32,
    patch: U32,
    fileTypeAuthor: seq<Byte>)

  /** `FileHeader::new`: empty texts and zero numbers. */
  function NewFileHeader(): (h: FileHeader)
    ensures h.iffId == [] && h.fileTypeTag == [] && h.versionTag == [] && h.fileTypeAuthor == []
    ensures h.byteCount == 0 && h.major == 0 && h.minor == 0 && h.patch == 0
  {
    FileHeader([], 0, [], [], 0, 0, 0, [])
  }

  /** `Default for FileHeader`, which is `FileHeader::new`. */
  function DefaultFileHeader(): (h: FileHeader)
    ensures h == NewFileHeader()
  {
    NewFileHeader()
  }

  /** The decoded header of one chunk. */
  datatype ChunkHeader = ChunkHeader(name: seq<Byte>, dataSize: ByteCount)

  /** `ChunkHeader::new`: an empty name and no data. */
  function NewChunkHeader(): (h: ChunkHeader)
    ensures h.name == [] && h.dataSize == 0
  {
    ChunkHeader([], 0)
  }

  /** `Default for ChunkHeader`, which is `ChunkHeader::new`. */
  function DefaultChunkHeader(): (h: ChunkHeader)
    ensures h == NewChunkHeader()
  {
    NewChunkHeader()
  }

  /** A decoded chunk: its header and its records, in file order. */
  datatype Chunk<T> = Chunk(header: ChunkHeader, data: seq<T>)

  /** `Chunk::new`: the empty chunk header and no records. */
  function NewChunk<T>(): Chunk<T> {
    Chunk(NewChunkHeader(), [])
  }

  /** `Default for Chunk`, which is `Chunk::new`. */
  function DefaultChunk<T>(): Chunk<T> {
    NewChunk()
  }

  /** A new chunk, of any record type, has the empty chunk header and no
      records. */
  lemma NewChunkIsEmpty<T>()
    ensures NewChunk<T>().header == NewChunkHeader() && NewChunk<T>().data == []
  {
  }

  /** The default chunk, of any record type, is the new one. */
  lemma DefaultChunkIsNew<T>()
    ensures DefaultChunk<T>() == NewChunk<T>()
  {
  }

  /** `Chunk::binary_size`: the header plus the declared data; a pad byte
      after odd-sized data is not included. */
  function BinarySize<T>(c: Chunk<T>): ByteCount
  {
    CHUNK_HEADER_SIZE + c.header.dataSize
  }
}
