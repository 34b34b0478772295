/** The whole program as a function from the bytes of the input bitmap to the
    bytes of the output bitmap, and a method that follows the program's own
    loops and is proved to compute the same bytes.

    The output is the 54 header bytes copied through, then one gray triplet
    for each pixel the loops visit, read from consecutive input triplets
    starting at offset 54, then the padding bytes, written once at the end.
 */
module ImageComplement {
  import opened Bytes
  import opened Packed
  import opened BmpHeader
  import opened Pixels
  import opened Layout

  /** The pixel triplets the program reads: one per iteration of the inner
      loop, over every iteration of the outer loop. */
  function ImagePixels(input: seq<Byte>): nat
    requires |input| >= HeaderSize
  {
    PixelCount(Width(input), Height(input))
  }

  /** The input holds both headers and every pixel triplet the loops read,
      so no read comes up short. */
  predicate WellFormed(input: seq<Byte>)
  {
    && |input| >= HeaderSize
    && |input| >= HeaderSize + 3 * ImagePixels(input)
  }

  /** The three bytes at the given offset, read as one pixel. */
  function PixelAt(s: seq<Byte>, offset: nat): Pixel
    requires offset + 3 <= |s|
  {
    Pixel(s[offset], s[offset + 1], s[offset + 2])
  }

  lemma PixelAtAppendLeft(a: seq<Byte>, b: seq<Byte>, offset: nat)
    requires offset + 3 <= |a|
    ensures PixelAt(a + b, offset) == PixelAt(a, offset)
  {
  }

  lemma PixelAtAppendRight(a: seq<Byte>, b: seq<Byte>, offset: nat)
    requires offset + 3 <= |b|
    ensures PixelAt(a + b, |a| + offset) == PixelAt(b, offset)
  {
  }

  lemma PixelAtSuffix(s: seq<Byte>, start: nat, offset: nat)
    requires start + offset + 3 <= |s|
    ensures PixelAt(s[start..], offset) == PixelAt(s, start + offset)
  {
  }

  /** Pixel k of a stream of triplets that starts at offset 0. */
  function NthPixel(s: seq<Byte>, k: nat): Pixel
    requires 3 * k + 3 <= |s|
  {
    PixelAt(s, 3 * k)
  }

  /** Pixel k of a file, counting from the end of the headers. */
  function FilePixel(s: seq<Byte>, k: nat): Pixel
    requires HeaderSize + 3 * k + 3 <= |s|
  {
    PixelAt(s, HeaderSize + 3 * k)
  }

  /** A pixel as the program writes it: blue, green, red. */
  function PixelBytes(p: Pixel): (b: seq<Byte>)
    ensures |b| == 3 && PixelAt(b, 0) == p
  {
    [p.blue, p.green, p.red]
  }

  function Zeros(n: nat): (z: seq<Byte>)
    ensures |z| == n
    ensures forall i :: 0 <= i < |z| ==> z[i] == 0
  {
    seq(n, _ => 0)
  }

  /** The bytes the scan loops write: the first n triplets of data, each
      replaced by its complement, in the order they were read. */
  function ComplementPixels(data: seq<Byte>, n: nat): (out: seq<Byte>)
    requires 3 * n <= |data|
    ensures |out| == 3 * n
  {
    if n == 0 then [] else ComplementPixels(data, n - 1) + PixelBytes(Complement(NthPixel(data, n - 1)))
  }

  /** Written triplet k is the complement of read triplet k. */
  lemma {:induction false} ComplementedPixel(data: seq<Byte>, n: nat, k: nat)
    requires 3 * n <= |data|
    requires k < n
    ensures NthPixel(ComplementPixels(data, n), k) == Complement(NthPixel(data, k))
  {
    var front := ComplementPixels(data, n - 1);
    var last := PixelBytes(Complement(NthPixel(data, n - 1)));
    if k < n - 1 {
      ComplementedPixel(data, n - 1, k);
      PixelAtAppendLeft(front, last, 3 * k);
    } else {
      PixelAtAppendRight(front, last, 0);
    }
  }

  /** The output file the program writes for the given input file: the
      header bytes as read (which is what CopyHeaders writes), the
      complemented triplets, then the padding. */
  function Transform(input: seq<Byte>): (output: seq<Byte>)
    requires WellFormed(input)
    ensures |output| == HeaderSize + 3 * ImagePixels(input) + Padding(Width(input))
    ensures output[..HeaderSize] == input[..HeaderSize]
  {
    var body := ComplementPixels(input[HeaderSize..], ImagePixels(input)) + Zeros(Padding(Width(input)));
    TakeFront(input[..HeaderSize], body);
    input[..HeaderSize] + body
  }

  /** The output length in closed form: the headers, three bytes for each
      of width pixels in each of height + 1 rows, then the padding. */
  lemma TransformLength(input: seq<Byte>)
    requires WellFormed(input)
    ensures |Transform(input)|
         == HeaderSize + 3 * (ColumnCount(Width(input)) * RowCount(Height(input))) + Padding(Width(input))
  {
    PixelCountIsProduct(Width(input), Height(input));
  }

  /** Every triplet the loops write is the complement of the triplet read at
      the same position: output pixel k comes from input offset 54 + 3k, with
      nothing skipped between rows. */
  lemma {:induction false} TransformPixels(input: seq<Byte>, k: nat)
    requires WellFormed(input)
    requires k < ImagePixels(input)
    ensures HeaderSize + 3 * k + 3 <= |Transform(input)|
    ensures FilePixel(Transform(input), k) == Complement(FilePixel(input, k))
  {
    var n := ImagePixels(input);
    var data := input[HeaderSize..];
    var body := ComplementPixels(data, n);
    var head := input[..HeaderSize];
    var tail := Zeros(Padding(Width(input)));
    PixelAtAppendLeft(body, tail, 3 * k);
    PixelAtAppendRight(head, body + tail, 3 * k);
    PixelAtSuffix(input, HeaderSize, 3 * k);
    ComplementedPixel(data, n, k);
  }

  /** Every pixel written is gray. */
  lemma AchromaticOutput(input: seq<Byte>, k: nat)
    requires WellFormed(input)
    requires k < ImagePixels(input)
    ensures HeaderSize + 3 * k + 3 <= |Transform(input)|
    ensures Achromatic(FilePixel(Transform(input), k))
  {
    TransformPixels(input, k);
  }

  /** The last Padding(biWidth) bytes are zero and come after every pixel:
      the padding is written once, not after each row. */
  lemma TrailingPadding(input: seq<Byte>, i: nat)
    requires WellFormed(input)
    requires HeaderSize + 3 * ImagePixels(input) <= i < |Transform(input)|
    ensures Transform(input)[i] == 0
  {
    var n := ImagePixels(input);
    var prefix := input[..HeaderSize] + ComplementPixels(input[HeaderSize..], n);
    var z := Zeros(Padding(Width(input)));
    assert Transform(input) == prefix + z;
    assert Transform(input)[i] == z[i - |prefix|];
  }

  /** The loops read only the first n triplets of their data. */
  lemma {:induction false} ComplementPixelsPrefix(a: seq<Byte>, b: seq<Byte>, n: nat)
    requires 3 * n <= |a| && 3 * n <= |b|
    requires a[..3 * n] == b[..3 * n]
    ensures ComplementPixels(a, n) == ComplementPixels(b, n)
  {
    if n > 0 {
      assert a[..3 * (n - 1)] == a[..3 * n][..3 * (n - 1)];
      assert b[..3 * (n - 1)] == b[..3 * n][..3 * (n - 1)];
      ComplementPixelsPrefix(a, b, n - 1);
      assert NthPixel(a, n - 1) == PixelAt(a[..3 * n], 3 * (n - 1));
      assert NthPixel(b, n - 1) == PixelAt(b[..3 * n], 3 * (n - 1));
    }
  }

  /** The output depends only on the headers and the triplets the loops read:
      bytes after them, including the ones the final seek skips, do not
      matter. */
  lemma IgnoresUnreadInput(a: seq<Byte>, b: seq<Byte>)
    requires WellFormed(a)
    requires |b| >= HeaderSize + 3 * ImagePixels(a)
    requires a[..HeaderSize + 3 * ImagePixels(a)] == b[..HeaderSize + 3 * ImagePixels(a)]
    ensures WellFormed(b)
    ensures Transform(a) == Transform(b)
  {
    var n := ImagePixels(a);
    var end := HeaderSize + 3 * n;
    assert a[..HeaderSize] == b[..HeaderSize] by {
      SliceOfSlice(a, 0, end, 0, HeaderSize);
      SliceOfSlice(b, 0, end, 0, HeaderSize);
    }
    assert a[18..26] == b[18..26] by {
      SliceOfSlice(a, 0, end, 18, 26);
      SliceOfSlice(b, 0, end, 18, 26);
    }
    SameDimensions(a, b);
    var da := a[HeaderSize..];
    var db := b[HeaderSize..];
    assert da[..3 * n] == db[..3 * n] by {
      SliceOfSlice(a, HeaderSize, |a|, 0, 3 * n);
      SliceOfSlice(b, HeaderSize, |b|, 0, 3 * n);
      SliceOfSlice(a, 0, end, HeaderSize, end);
      SliceOfSlice(b, 0, end, HeaderSize, end);
    }
    ComplementPixelsPrefix(da, db, n);
  }

  /** Two files that agree on bytes 18..25 declare the same dimensions. */
  lemma SameDimensions(a: seq<Byte>, b: seq<Byte>)
    requires |a| >= HeaderSize && |b| >= HeaderSize
    requires a[18..26] == b[18..26]
    ensures Width(a) == Width(b) && Height(a) == Height(b)
  {
    assert a[18..22] == b[18..22] by {
      SliceOfSlice(a, 18, 26, 0, 4);
      SliceOfSlice(b, 18, 26, 0, 4);
    }
    assert a[22..26] == b[22..26] by {
      SliceOfSlice(a, 18, 26, 4, 8);
      SliceOfSlice(b, 18, 26, 4, 8);
    }
  }

  /** Of the header, only biWidth (bytes 18..21) and biHeight (bytes 22..25)
      steer the loops: two inputs that agree on those and on the pixel
      triplets produce the same bytes after the header. */
  lemma OnlyDimensionsMatter(a: seq<Byte>, b: seq<Byte>)
    requires WellFormed(a) && WellFormed(b)
    requires a[18..26] == b[18..26]
    requires |a| == |b| && a[HeaderSize..] == b[HeaderSize..]
    ensures Transform(a)[HeaderSize..] == Transform(b)[HeaderSize..]
  {
    SameDimensions(a, b);
    var rest := ComplementPixels(a[HeaderSize..], ImagePixels(a)) + Zeros(Padding(Width(a)));
    DropFront(a[..HeaderSize], rest);
    DropFront(b[..HeaderSize], rest);
  }

  /** A header declaring a 2 by 2 image makes the loops visit three rows of
      two pixels: 54 + 18 bytes of header and pixels, then 2 padding bytes. */
  lemma TwoByTwoLength(input: seq<Byte>)
    requires WellFormed(input)
    requires Width(input) == 2 && Height(input) == 2
    ensures |Transform(input)| == 74
  {
  }

  /** One inner-loop iteration: read the triplet at the cursor, write its
      complement, and advance the cursor past it. */
  method ScanPixel(input: seq<Byte>, cursor: nat, output: seq<Byte>,
                   ghost header: seq<Byte>, ghost k: nat)
    returns (cursor': nat, output': seq<Byte>)
    requires cursor == HeaderSize + 3 * k && cursor + 3 <= |input|
    requires output == header + ComplementPixels(input[HeaderSize..], k)
    ensures cursor' == cursor + 3
    ensures output' == header + ComplementPixels(input[HeaderSize..], k + 1)
  {
    var pixel := PixelAt(input, cursor);
    PixelAtSuffix(input, HeaderSize, 3 * k);
    output' := output + PixelBytes(Complement(pixel));
    cursor' := cursor + 3;
  }

  /** One pass of the inner loop: read `width` triplets from the cursor on,
      write the complement of each, and leave the cursor after the last.
      The counter takes the values ColumnOrder(width), in that order. */
  method ScanRow(input: seq<Byte>, width: I32, cursor: nat, output: seq<Byte>,
                 ghost header: seq<Byte>, ghost done: nat)
    returns (cursor': nat, output': seq<Byte>, ghost columns: seq<int>)
    requires cursor == HeaderSize + 3 * done
    requires cursor + 3 * ColumnCount(width) <= |input|
    requires output == header + ComplementPixels(input[HeaderSize..], done)
    ensures cursor' == cursor + 3 * ColumnCount(width)
    ensures output' == header + ComplementPixels(input[HeaderSize..], done + ColumnCount(width))
    ensures columns == ColumnOrder(width)
  {
    cursor', output' := cursor, output;
    ghost var k := done;
    columns := [];
    var j := 0;
    while j < width
      invariant 0 <= j <= ColumnCount(width)
      invariant k == done + j
      invariant cursor' == HeaderSize + 3 * k
      invariant output' == header + ComplementPixels(input[HeaderSize..], k)
      invariant columns == ColumnOrder(j)
    {
      cursor', output' := ScanPixel(input, cursor', output', header, k);
      columns := columns + [j];
      j, k := j + 1, k + 1;
    }
    assert k == done + ColumnCount(width);
  }

  /** The final block: `padding` zero bytes appended to what was written. */
  method WritePadding(output: seq<Byte>, padding: nat) returns (output': seq<Byte>)
    ensures output' == output + Zeros(padding)
  {
    output' := output;
    var k := 0;
    while k < padding
      invariant 0 <= k <= padding
      invariant output' == output + Zeros(k)
    {
      assert Zeros(k + 1) == Zeros(k) + [0];
      output' := output' + [0];
      k := k + 1;
    }
  }

  /** The outer loop: rows from height down to 0, one inner-loop pass each,
      reading triplets consecutively from the end of the headers. The
      counter takes the values RowOrder(height), in that order. */
  method ScanRows(input: seq<Byte>, width: I32, height: I32, header: seq<Byte>)
    returns (cursor: nat, output: seq<Byte>, ghost rows: seq<int>)
    requires HeaderSize + 3 * PixelCount(width, height) <= |input|
    ensures cursor == HeaderSize + 3 * PixelCount(width, height)
    ensures output == header + ComplementPixels(input[HeaderSize..], PixelCount(width, height))
    ensures rows == RowOrder(height)
  {
    ghost var n := PixelCount(width, height);
    ghost var done: nat := 0;
    cursor, output := HeaderSize, header;
    rows := [];
    var i := height;
    while i >= 0
      invariant i <= height
      invariant height >= 0 ==> -1 <= i
      invariant cursor == HeaderSize + 3 * done
      invariant done + PixelCount(width, i) == n
      invariant output == header + ComplementPixels(input[HeaderSize..], done)
      invariant rows + RowOrder(i) == RowOrder(height)
    {
      ghost var columns;
      cursor, output, columns := ScanRow(input, width, cursor, output, header, done);
      assert rows + RowOrder(i) == (rows + [i]) + RowOrder(i - 1);
      rows := rows + [i];
      done := done + ColumnCount(width);
      i := i - 1;
    }
  }

  /** The header step: read both records, write them back unchanged, and
      take the loop bounds from the info header. */
  method ReadHeaders(input: seq<Byte>) returns (header: seq<Byte>, width: I32, height: I32)
    requires |input| >= HeaderSize
    ensures header == input[..HeaderSize]
    ensures width == Width(input) && height == Height(input)
  {
    var fileHeader := ParseFileHeader(input[..FileHeaderSize]);
    var infoHeader := ParseInfoHeader(input[FileHeaderSize..HeaderSize]);
    header := SerializeFileHeader(fileHeader) + SerializeInfoHeader(infoHeader);
    assert header == CopyHeaders(input);
    DimensionOffsets(input);
    width, height := infoHeader.biWidth, infoHeader.biHeight;
  }

  /** The whole program, step by step: copy the headers, compute the
      padding, run the scan loops, then skip and write the padding once. */
  method Run(input: seq<Byte>) returns (output: seq<Byte>)
    requires WellFormed(input)
    ensures output == Transform(input)
  {
    var header, width, height := ReadHeaders(input);

    var padding := 0;
    var paddingNeeded := false;
    if CRem4(width) != 0 {
      padding := 4 - CRem4(width);
      paddingNeeded := true;
    }

    var cursor;
    ghost var rows;
    cursor, output, rows := ScanRows(input, width, height, header);
    ghost var pixels := ComplementPixels(input[HeaderSize..], ImagePixels(input));
    assert output == header + pixels;

    if paddingNeeded {
      cursor := cursor + padding;
      output := WritePadding(output, padding);
    } else {
      assert Zeros(padding) == [];
    }
    assert output == header + pixels + Zeros(Padding(width));
    assert output == header + (pixels + Zeros(Padding(width)));
  }
}
