/** The scan-line layout of the BMP format, which the program's comments
    cite (scan lines zero-padded to a 4-byte boundary), and the transform
    that follows it: `biHeight` rows, each of `biWidth` triplets followed by
    enough zero bytes to make the row a multiple of 4 bytes, complemented
    line by line with each line's padding rewritten as zeros.

    The program as written differs in three ways (module ImageComplement
    models it): it runs one row too many, it derives the padding from the
    pixel count instead of the byte count, and it skips and writes the
    padding once, after all rows, instead of after every line. The lemmas
    at the end exhibit each difference on a small image.
 */
module Intended {
  import opened Bytes
  import opened Packed
  import opened BmpHeader
  import opened Pixels
  import opened Layout
  import opened ImageComplement

  /** Zero bytes after a scan line of `width` pixels: what rounds its 3 *
      width bytes up to a multiple of 4. */
  function RowPadding(width: nat): (p: nat)
    ensures p < 4
    ensures (3 * width + p) % 4 == 0
  {
    (4 - (3 * width) % 4) % 4
  }

  /** Bytes per scan line, padding included. */
  function Stride(width: nat): (s: nat)
    ensures s % 4 == 0 && 3 * width <= s
  {
    3 * width + RowPadding(width)
  }

  /** Offset of scan line r within the pixel array: the strides of the r
      lines before it. */
  function RowStart(width: nat, r: nat): nat
  {
    if r == 0 then 0 else RowStart(width, r - 1) + Stride(width)
  }

  lemma {:induction false} RowStartIsProduct(width: nat, r: nat)
    ensures RowStart(width, r) == r * Stride(width)
  {
    if r > 0 {
      RowStartIsProduct(width, r - 1);
      assert (r - 1) * Stride(width) + Stride(width) == r * Stride(width);
    }
  }

  lemma {:induction false} RowStartMonotone(width: nat, r: nat, r': nat)
    requires r <= r'
    ensures RowStart(width, r) <= RowStart(width, r')
  {
    if r < r' {
      RowStartMonotone(width, r, r' - 1);
    }
  }

  lemma SumAligned(a: nat, b: nat)
    requires a % 4 == 0 && b % 4 == 0
    ensures (a + b) % 4 == 0
  {
  }

  /** Every scan line starts on a 4-byte boundary. */
  lemma {:induction false} RowStartAligned(width: nat, r: nat)
    ensures RowStart(width, r) % 4 == 0
  {
    if r > 0 {
      RowStartAligned(width, r - 1);
      SumAligned(RowStart(width, r - 1), Stride(width));
    }
  }

  /** Scan line r of a pixel array whose lines are `Stride(width)` bytes. */
  function Row(s: seq<Byte>, width: nat, r: nat): seq<Byte>
    requires RowStart(width, r + 1) <= |s|
  {
    s[RowStart(width, r)..RowStart(width, r + 1)]
  }

  /** One output scan line: the line's pixels complemented, then zero padding. */
  function ComplementRow(line: seq<Byte>, width: nat): (out: seq<Byte>)
    requires 3 * width <= |line|
    ensures |out| == Stride(width)
  {
    ComplementPixels(line, width) + Zeros(RowPadding(width))
  }

  /** Scan lines sit where a packed record of `rows` fields, each one stride
      wide, puts its fields. */
  lemma {:induction false} RowStartIsOffset(width: nat, rows: nat, r: nat)
    requires r <= rows
    ensures Offset(Uniform(Stride(width), rows), r) == RowStart(width, r)
  {
    if r > 0 {
      RowStartIsOffset(width, rows, r - 1);
    }
  }

  /** Each of the first `rows` scan lines, complemented. */
  function RowImages(data: seq<Byte>, width: nat, rows: nat): (images: seq<seq<Byte>>)
    requires RowStart(width, rows) <= |data|
    ensures |images| == rows
    ensures forall r :: 0 <= r < rows ==> |images[r]| == Stride(width)
  {
    seq(rows, r requires 0 <= r < rows =>
      RowStartMonotone(width, r + 1, rows);
      ComplementRow(Row(data, width, r), width))
  }

  /** The first `rows` scan lines of a pixel array, each complemented, laid
      end to end. */
  function ComplementRows(data: seq<Byte>, width: nat, rows: nat): (out: seq<Byte>)
    requires RowStart(width, rows) <= |data|
    ensures |out| == RowStart(width, rows)
  {
    var images := RowImages(data, width, rows);
    ConcatSize(images, Uniform(Stride(width), rows));
    RowStartIsOffset(width, rows, rows);
    Concat(images)
  }

  /** Output scan line r comes from input scan line r, at the same offset:
      its pixels complemented, its padding zero. */
  lemma ComplementRowsLine(data: seq<Byte>, width: nat, rows: nat, r: nat)
    requires RowStart(width, rows) <= |data|
    requires r < rows
    ensures RowStart(width, r + 1) <= RowStart(width, rows) <= |data|
    ensures Row(ComplementRows(data, width, rows), width, r) == ComplementRow(Row(data, width, r), width)
  {
    RowStartMonotone(width, r + 1, rows);
    var images := RowImages(data, width, rows);
    var layout := Uniform(Stride(width), rows);
    FieldOfConcat(images, layout, r);
    RowStartIsOffset(width, rows, r);
    RowStartIsOffset(width, rows, r + 1);
  }

  /** A file laid out as the BMP format lays it out: non-negative
      dimensions and `biHeight` full scan lines after the headers. */
  predicate StandardImage(input: seq<Byte>)
  {
    && |input| >= HeaderSize
    && Width(input) >= 0
    && Height(input) >= 0
    && |input| >= HeaderSize + RowStart(Width(input), Height(input))
  }

  /** The corrected program: the headers copied, then every scan line
      complemented in place with its padding rewritten as zeros. */
  function TransformIntended(input: seq<Byte>): (output: seq<Byte>)
    requires StandardImage(input)
    ensures |output| == HeaderSize + RowStart(Width(input), Height(input))
    ensures output[..HeaderSize] == input[..HeaderSize]
  {
    var body := ComplementRows(input[HeaderSize..], Width(input), Height(input));
    TakeFront(input[..HeaderSize], body);
    input[..HeaderSize] + body
  }

  /** A standard file holding exactly its scan lines comes out the same size,
      so the output is again a well-formed bitmap of the same dimensions. */
  lemma IntendedPreservesSize(input: seq<Byte>)
    requires StandardImage(input)
    requires |input| == HeaderSize + RowStart(Width(input), Height(input))
    ensures |TransformIntended(input)| == |input|
    ensures (|TransformIntended(input)| - HeaderSize) % 4 == 0
  {
    RowStartAligned(Width(input), Height(input));
  }

  /** A 4-pixel-wide, 1-row file of exactly 54 + 12 bytes is complete as a
      BMP, but the program as written reads two rows of 12 bytes from it, so
      its reads run past the end of the file. */
  lemma ExtraRowReadsPastEnd(input: seq<Byte>)
    requires |input| == HeaderSize + 12
    requires Width(input) == 4 && Height(input) == 1
    ensures StandardImage(input)
    ensures !WellFormed(input)
  {
    assert PixelCount(4, 1) == 8;
  }

  /** For a 1-pixel-wide image the program pads with 3 bytes, taking 4 minus
      the pixel count mod 4, but a 3-byte scan line needs 1. */
  lemma PaddingFromPixelCount()
    ensures Padding(1) == 3
    ensures (3 * 1 + Padding(1)) % 4 != 0
    ensures RowPadding(1) == 1
  {
  }

  /** For a 1-pixel-wide image the second triplet the program reads starts
      at offset 57, inside the first scan line's padding, and the program's
      output has its padding at the very end instead of after the first
      line. */
  lemma PaddingNotPerRow(input: seq<Byte>)
    requires WellFormed(input)
    requires Width(input) == 1 && Height(input) == 1
    ensures ImagePixels(input) == 2
    ensures |Transform(input)| == HeaderSize + 6 + 3
    ensures FilePixel(Transform(input), 1) == Complement(PixelAt(input, 57))
  {
    assert PixelCount(1, 1) == 2;
    assert Padding(1) == 3;
    TransformPixels(input, 1);
  }

  /** The format puts the second scan line of a 1-pixel-wide image at file
      offset 58, after one pixel and one padding byte. */
  lemma SecondLineOfNarrowImage()
    ensures HeaderSize + RowStart(1, 1) == 58
  {
  }
}
