/** The decoder's unit tests, as lemmas about the model, and a few more
    inputs for the chunk and points decoders. Text appears as its ASCII
    bytes; a test input is written as the concatenation of its fields,
    which are the same bytes in the same order. */
module TestVectors {
  import opened Nom
  import opened Utf8
  import opened Lxob
  import opened Parser
  import opened Encoding
  import opened Properties

  const FORM: seq<Byte> := [70, 79, 82, 77]
  const VRSN: seq<Byte> := [86, 82, 83, 78]

  /** "nexus 10 by The Foundry", word by word. */
  const NEXUS_AUTHOR: seq<Byte> :=
    [110, 101, 120, 117, 115] + [32, 49, 48] + [32, 98, 121] + [32, 84, 104, 101] + [32, 70, 111, 117, 110, 100, 114, 121]

  /** The 52-byte header of the tests: "FORM", 18666, "LXOB", "VRSN",
      32, 4, 1 and "nexus 10 by The Foundry" with its null byte. */
  const TEST_INPUT_HEADER: seq<Byte> :=
    FORM + [0, 0, 72, 234] + LXOB_FILE_TYPE_TAG + VRSN
      + [0, 0, 0, 32] + [0, 0, 0, 4] + [0, 0, 0, 1] + NEXUS_AUTHOR + [0]

  /** The header the test expects. */
  const TEST_HEADER: FileHeader := FileHeader(FORM, 18666, LXOB_FILE_TYPE_TAG, VRSN, 32, 4, 1, NEXUS_AUTHOR)

  /** The author of the test header is text without a null byte. */
  lemma NexusAuthorIsText()
    ensures ValidUtf8(NEXUS_AUTHOR) && NoNull(NEXUS_AUTHOR)
  {
    assert IsAscii(NEXUS_AUTHOR);
    AsciiIsValidUtf8(NEXUS_AUTHOR);
  }

  /** The test header's fields fit the layout. */
  lemma TestHeaderIsEncodable()
    ensures EncodableHeader(TEST_HEADER)
  {
    assert IsTag(FORM) by { AsciiIsValidUtf8(FORM); }
    assert IsTag(VRSN) by { AsciiIsValidUtf8(VRSN); }
    assert IsTag(LXOB_FILE_TYPE_TAG) by { LxobIsText(); }
    NexusAuthorIsText();
  }

  /** The test header is the encoding of the header the test expects. */
  lemma TestHeaderIsEncoded()
    requires EncodableHeader(TEST_HEADER)
    ensures TEST_INPUT_HEADER == EncodeHeader(TEST_HEADER)
  {
    assert BigEndianBytes(18666) == [0, 0, 72, 234];
    assert BigEndianBytes(32) == [0, 0, 0, 32];
    assert BigEndianBytes(4) == [0, 0, 0, 4];
    assert BigEndianBytes(1) == [0, 0, 0, 1];
  }

  /** The test header decodes to its fields and consumes all 52 bytes. */
  lemma FileHeaderGoodInput()
    ensures |TEST_INPUT_HEADER| == LXOB_HEADER_SIZE
    ensures ParseFileHeader(TEST_INPUT_HEADER, 0) == Ok(LXOB_HEADER_SIZE, TEST_HEADER)
  {
    TestHeaderIsEncodable();
    TestHeaderIsEncoded();
    assert TEST_INPUT_HEADER == EncodeHeader(TEST_HEADER) + [];
    HeaderRoundTrip(TEST_HEADER, []);
  }

  /** The empty input holds no header. */
  lemma FileHeaderEmpty()
    ensures ParseFileHeader([], 0) == Err(NomError(Eof))
  {
  }

  /** "FORM0000LXOBVRSN003200040001": the fixed fields without an author
      or its null byte. */
  const INCOMPLETE_HEADER: seq<Byte> := [
    70, 79, 82, 77, 48, 48, 48, 48, 76, 88, 79, 66, 86, 82, 83, 78,
    48, 48, 51, 50, 48, 48, 48, 52, 48, 48, 48, 49
  ]

  /** Without the null byte that ends the author, no header decodes. */
  lemma FileHeaderIncomplete()
    ensures ParseFileHeader(INCOMPLETE_HEADER, 0).Err?
  {
    FileHeaderNeedsNull(INCOMPLETE_HEADER, 0);
  }

  /** The test header with its byte count and file type tag swapped. */
  const SWAPPED_HEADER: seq<Byte> :=
    FORM + LXOB_FILE_TYPE_TAG + [0, 0, 72, 234] + VRSN
      + [0, 0, 0, 32] + [0, 0, 0, 4] + [0, 0, 0, 1] + NEXUS_AUTHOR + [0]

  /** The bytes of 18666 are not text: 234 starts a three-byte sequence
      that the input does not complete. */
  lemma SwappedTagIsNotText()
    ensures !ValidUtf8([0, 0, 72, 234])
  {
    var s: seq<Byte> := [0, 0, 72, 234];
    assert !ValidUtf8(s[3..]) by {
      assert s[3..] == [234];
      assert FirstCharLength([234]) == 0;
    }
    assert !ValidUtf8(s[2..]) by {
      assert FirstCharLength(s[2..]) == 1;
      assert s[2..][1..] == s[3..];
    }
    assert !ValidUtf8(s[1..]) by {
      assert FirstCharLength(s[1..]) == 1;
      assert s[1..][1..] == s[2..];
    }
    assert FirstCharLength(s) == 1;
  }

  /** With the fields out of order, the decoder panics on the tag that is
      not text (the test expects a panic). */
  lemma FileHeaderFieldsOutOfOrder()
    ensures ParseFileHeader(SWAPPED_HEADER, 0) == Err(Panic(InvalidUtf8))
  {
    var s := SWAPPED_HEADER;
    assert s[0..4] == FORM;
    assert s[8..12] == [0, 0, 72, 234];
    AsciiIsValidUtf8(FORM);
    SwappedTagIsNotText();
  }

  /** "Who created this?", word by word. */
  const WHO_CREATED_THIS: seq<Byte> :=
    [87, 104, 111] + [32, 99, 114, 101, 97, 116, 101, 100] + [32, 116, 104, 105, 115, 63]

  /** "Who created this?" and its null byte. */
  const TEST_INPUT_FILE_TYPE_AUTHOR: seq<Byte> := WHO_CREATED_THIS + [0]

  /** The author is the text before the null byte, without it; the remains
      start at the null byte. */
  lemma FileTypeAuthorGoodInput()
    ensures ParseFileTypeAuthor(TEST_INPUT_FILE_TYPE_AUTHOR, 0) == Ok(17, WHO_CREATED_THIS)
  {
    var a := TEST_INPUT_FILE_TYPE_AUTHOR;
    assert a[0..17] == WHO_CREATED_THIS;
    AsciiIsValidUtf8(WHO_CREATED_THIS);
    assert FirstNullFrom(a, 0, 17);
    FileTypeAuthorAtFirstNull(a, 0, 17);
  }

  /** "ARTS" is read back unchanged. */
  lemma TagIsAlphabetic()
    ensures ParseTag([65, 82, 84, 83], 0) == Ok(4, [65, 82, 84, 83])
  {
    var s: seq<Byte> := [65, 82, 84, 83];
    assert s[0..4] == s;
    AsciiIsValidUtf8(s);
  }

  /** The big-endian bytes of 15432 are text, so they are a tag: the tag
      reader does not check for letters (the test expects a panic, which
      comes from its own failing assertion). */
  lemma TagNotAlphabetic()
    ensures BigEndianBytes(15432) == [0, 0, 60, 72]
    ensures ParseTag(BigEndianBytes(15432), 0) == Ok(4, [0, 0, 60, 72])
  {
    var s: seq<Byte> := [0, 0, 60, 72];
    assert s[0..4] == s;
    AsciiIsValidUtf8(s);
  }

  /** The byte count of the test header, and a byte short of it. */
  lemma ByteCountOfTestHeader()
    ensures ParseU32([0, 0, 72, 234], 0) == Ok(4, 18666)
    ensures ParseU32([0, 0, 72], 0) == Err(NomError(Eof))
  {
  }

  /** The test header is an LXOB file. */
  lemma IsLxobOfTestHeader()
    ensures IsLxob(TEST_INPUT_HEADER) == Success(true)
  {
    FileHeaderGoodInput();
    IsLxobOfHeader(TEST_INPUT_HEADER);
  }

  const ABCD: seq<Byte> := [65, 66, 67, 68]

  /** A chunk "ABCD" with three data bytes. */
  const ODD_CHUNK: RawChunk := RawChunk(ABCD, [1, 2, 3])

  /** Its bytes: tag, size 3, data and the pad byte. */
  const ODD_CHUNK_BYTES: seq<Byte> := ABCD + [0, 0, 0, 3] + [1, 2, 3] + [0]

  /** The same bytes without the pad byte. */
  const ODD_CHUNK_UNPADDED: seq<Byte> := ABCD + [0, 0, 0, 3] + [1, 2, 3]

  /** A data size of 3 advances 12 bytes: header, data and pad byte; without
      the pad byte, the step fails. */
  lemma OddChunkStep()
    ensures ParseChunkHeaderSkipData(ODD_CHUNK_BYTES, 0) == Ok(12, ChunkHeader(ABCD, 3))
    ensures ParseChunkHeaderSkipData(ODD_CHUNK_UNPADDED, 0) == Err(NomError(Eof))
  {
    AsciiIsValidUtf8(ABCD);
    assert ODD_CHUNK_BYTES == EncodeChunk(ODD_CHUNK);
    ChunkRoundTrip(ODD_CHUNK_BYTES, 0, ODD_CHUNK);
    var u := ODD_CHUNK_UNPADDED;
    assert u[0..4] == ABCD;
    assert u[4..8] == [0, 0, 0, 3];
  }

  /** A PNTS chunk that declares no data. */
  const EMPTY_PNTS: seq<Byte> := PNTS_CHUNK_TAG + [0, 0, 0, 0]

  /** A data size of zero is rejected by the size asserts. */
  lemma PointsSizeZero()
    ensures ParseChunkPnts(EMPTY_PNTS, 0) == Err(Panic(PointsSize))
  {
    var p := EMPTY_PNTS;
    assert p[0..4] == PNTS_CHUNK_TAG;
    assert p[4..8] == [0, 0, 0, 0];
    PntsIsText();
    ChunkPntsAt(p, 0, 0);
  }
}
