/** The two packed records at the start of a BMP file.

    The file header is 14 bytes (fields of 2, 4, 2, 2 and 4 bytes) and the
    info header that follows it is 40 bytes; neither has alignment bytes
    between its fields. Each record is read field by field from its bytes
    and written back the same way.
 */
module BmpHeader {
  import opened Bytes
  import opened Packed

  /** Field widths of the file header: bfType, bfSize, bfReserved1,
      bfReserved2, bfOffBits. */
  const FileHeaderLayout: seq<nat> := [2, 4, 2, 2, 4]
  /** Field widths of the info header: biSize, biWidth, biHeight, biPlanes,
      biBitCount, biCompression, biSizeImage, biXPelsPerMeter,
      biYPelsPerMeter, biClrUsed, biClrImportant. */
  const InfoHeaderLayout: seq<nat> := [4, 4, 4, 2, 2, 4, 4, 4, 4, 4, 4]

  const FileHeaderSize: nat := 14
  const InfoHeaderSize: nat := 40
  /** Offset of the first pixel triplet: both headers, back to back. */
  const HeaderSize: nat := FileHeaderSize + InfoHeaderSize

  /** Packed, the file header is exactly 14 bytes long. */
  lemma FileHeaderLayoutSize()
    ensures Size(FileHeaderLayout) == FileHeaderSize
  {
    assert Offset(FileHeaderLayout, 1) == 2;
    assert Offset(FileHeaderLayout, 2) == 6;
    assert Offset(FileHeaderLayout, 3) == 8;
    assert Offset(FileHeaderLayout, 4) == 10;
  }

  /** Packed, the info header is exactly 40 bytes long, with biWidth at
      offset 4 and biHeight at offset 8. */
  lemma InfoHeaderLayoutSize()
    ensures Size(InfoHeaderLayout) == InfoHeaderSize
    ensures Offset(InfoHeaderLayout, 1) == 4
    ensures Offset(InfoHeaderLayout, 2) == 8
    ensures Offset(InfoHeaderLayout, 3) == 12
  {
    assert Offset(InfoHeaderLayout, 1) == 4;
    assert Offset(InfoHeaderLayout, 2) == 8;
    assert Offset(InfoHeaderLayout, 3) == 12;
    assert Offset(InfoHeaderLayout, 4) == 14;
    assert Offset(InfoHeaderLayout, 5) == 16;
    assert Offset(InfoHeaderLayout, 6) == 20;
    assert Offset(InfoHeaderLayout, 7) == 24;
    assert Offset(InfoHeaderLayout, 8) == 28;
    assert Offset(InfoHeaderLayout, 9) == 32;
    assert Offset(InfoHeaderLayout, 10) == 36;
  }

  datatype FileHeader = FileHeader(
    bfType: U16,
    bfSize: U32,
    bfReserved1: U16,
    bfReserved2: U16,
    bfOffBits: U32)

  datatype InfoHeader = InfoHeader(
    biSize: U32,
    biWidth: I32,
    biHeight: I32,
    biPlanes: U16,
    biBitCount: U16,
    biCompression: U32,
    biSizeImage: U32,
    biXPelsPerMeter: I32,
    biYPelsPerMeter: I32,
    biClrUsed: U32,
    biClrImportant: U32)

  function ParseFileHeader(b: seq<Byte>): (h: FileHeader)
    requires |b| == FileHeaderSize
  {
    FileHeaderLayoutSize();
    var f := Fields(b, FileHeaderLayout);
    FileHeader(DecodeU16(f[0]), DecodeU32(f[1]), DecodeU16(f[2]), DecodeU16(f[3]), DecodeU32(f[4]))
  }

  /** The encoded fields of a file header, in file order. */
  function FileHeaderChunks(h: FileHeader): (chunks: seq<seq<Byte>>)
    ensures Fits(chunks, FileHeaderLayout)
  {
    [EncodeU16(h.bfType), EncodeU32(h.bfSize), EncodeU16(h.bfReserved1),
     EncodeU16(h.bfReserved2), EncodeU32(h.bfOffBits)]
  }

  function SerializeFileHeader(h: FileHeader): (b: seq<Byte>)
    ensures |b| == FileHeaderSize
  {
    FileHeaderLayoutSize();
    ConcatSize(FileHeaderChunks(h), FileHeaderLayout);
    Concat(FileHeaderChunks(h))
  }

  function ParseInfoHeader(b: seq<Byte>): (h: InfoHeader)
    requires |b| == InfoHeaderSize
  {
    InfoHeaderLayoutSize();
    var f := Fields(b, InfoHeaderLayout);
    InfoHeader(
      DecodeU32(f[0]), DecodeI32(f[1]), DecodeI32(f[2]), DecodeU16(f[3]),
      DecodeU16(f[4]), DecodeU32(f[5]), DecodeU32(f[6]), DecodeI32(f[7]),
      DecodeI32(f[8]), DecodeU32(f[9]), DecodeU32(f[10]))
  }

  /** The encoded fields of an info header, in file order. */
  function InfoHeaderChunks(h: InfoHeader): (chunks: seq<seq<Byte>>)
    ensures Fits(chunks, InfoHeaderLayout)
  {
    [EncodeU32(h.biSize), EncodeI32(h.biWidth), EncodeI32(h.biHeight),
     EncodeU16(h.biPlanes), EncodeU16(h.biBitCount), EncodeU32(h.biCompression),
     EncodeU32(h.biSizeImage), EncodeI32(h.biXPelsPerMeter), EncodeI32(h.biYPelsPerMeter),
     EncodeU32(h.biClrUsed), EncodeU32(h.biClrImportant)]
  }

  function SerializeInfoHeader(h: InfoHeader): (b: seq<Byte>)
    ensures |b| == InfoHeaderSize
  {
    InfoHeaderLayoutSize();
    ConcatSize(InfoHeaderChunks(h), InfoHeaderLayout);
    Concat(InfoHeaderChunks(h))
  }

  /** Writing a file header and reading it back gives every field unchanged. */
  lemma ParseSerializeFileHeader(h: FileHeader)
    ensures ParseFileHeader(SerializeFileHeader(h)) == h
  {
    var chunks := FileHeaderChunks(h);
    ConcatSize(chunks, FileHeaderLayout);
    forall k | 0 <= k < |FileHeaderLayout|
      ensures Field(Concat(chunks), FileHeaderLayout, k) == chunks[k]
    {
      FieldOfConcat(chunks, FileHeaderLayout, k);
    }
  }

  /** Reading 14 bytes as a file header and writing it back reproduces them. */
  lemma SerializeParseFileHeader(b: seq<Byte>)
    requires |b| == FileHeaderSize
    ensures SerializeFileHeader(ParseFileHeader(b)) == b
  {
    FileHeaderLayoutSize();
    var f := Fields(b, FileHeaderLayout);
    EncodeDecodeU16(f[0]);
    EncodeDecodeU32(f[1]);
    EncodeDecodeU16(f[2]);
    EncodeDecodeU16(f[3]);
    EncodeDecodeU32(f[4]);
    assert FileHeaderChunks(ParseFileHeader(b)) == f;
    ConcatFields(b, FileHeaderLayout);
  }

  /** Writing an info header and reading it back gives every field unchanged. */
  lemma ParseSerializeInfoHeader(h: InfoHeader)
    ensures ParseInfoHeader(SerializeInfoHeader(h)) == h
  {
    var chunks := InfoHeaderChunks(h);
    ConcatSize(chunks, InfoHeaderLayout);
    forall k | 0 <= k < |InfoHeaderLayout|
      ensures Field(Concat(chunks), InfoHeaderLayout, k) == chunks[k]
    {
      FieldOfConcat(chunks, InfoHeaderLayout, k);
    }
  }

  /** Reading 40 bytes as an info header and writing it back reproduces them. */
  lemma SerializeParseInfoHeader(b: seq<Byte>)
    requires |b| == InfoHeaderSize
    ensures SerializeInfoHeader(ParseInfoHeader(b)) == b
  {
    InfoHeaderLayoutSize();
    var f := Fields(b, InfoHeaderLayout);
    EncodeDecodeU32(f[0]);
    EncodeDecodeI32(f[1]);
    EncodeDecodeI32(f[2]);
    EncodeDecodeU16(f[3]);
    EncodeDecodeU16(f[4]);
    EncodeDecodeU32(f[5]);
    EncodeDecodeU32(f[6]);
    EncodeDecodeI32(f[7]);
    EncodeDecodeI32(f[8]);
    EncodeDecodeU32(f[9]);
    EncodeDecodeU32(f[10]);
    assert InfoHeaderChunks(ParseInfoHeader(b)) == f;
    ConcatFields(b, InfoHeaderLayout);
  }

  /** The header pass-through: both records are read from the first 54 bytes
      and written out again, and the bytes written are the bytes read. */
  function CopyHeaders(b: seq<Byte>): (out: seq<Byte>)
    requires |b| >= HeaderSize
    ensures out == b[..HeaderSize]
  {
    SerializeParseFileHeader(b[..FileHeaderSize]);
    SerializeParseInfoHeader(b[FileHeaderSize..HeaderSize]);
    assert b[..HeaderSize] == b[..FileHeaderSize] + b[FileHeaderSize..HeaderSize];
    SerializeFileHeader(ParseFileHeader(b[..FileHeaderSize]))
    + SerializeInfoHeader(ParseInfoHeader(b[FileHeaderSize..HeaderSize]))
  }

  /** Image width: the signed little-endian word at file bytes 18..21. */
  function Width(b: seq<Byte>): I32
    requires |b| >= HeaderSize
  {
    DecodeI32(b[18..22])
  }

  /** Image height: the signed little-endian word at file bytes 22..25. */
  function Height(b: seq<Byte>): I32
    requires |b| >= HeaderSize
  {
    DecodeI32(b[22..26])
  }

  /** The info header read from bytes 14..53 holds biWidth at file bytes
      18..21 and biHeight at 22..25. */
  lemma DimensionOffsets(b: seq<Byte>)
    requires |b| >= HeaderSize
    ensures ParseInfoHeader(b[FileHeaderSize..HeaderSize]).biWidth == Width(b)
    ensures ParseInfoHeader(b[FileHeaderSize..HeaderSize]).biHeight == Height(b)
  {
    InfoHeaderLayoutSize();
    var info := b[FileHeaderSize..HeaderSize];
    assert Field(info, InfoHeaderLayout, 1) == info[4..8];
    assert Field(info, InfoHeaderLayout, 2) == info[8..12];
    SliceOfSlice(b, FileHeaderSize, HeaderSize, 4, 8);
    SliceOfSlice(b, FileHeaderSize, HeaderSize, 8, 12);
  }
}
