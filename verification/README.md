# image-complement in Dafny

`complement.c` reads a 24-bit Windows bitmap and writes its photographic
complement in grayscale. It copies the 14-byte file header and the 40-byte
info header unchanged. It then turns every B,G,R triplet into three copies of
`255 - round((b + g + r) / 3)` and appends zero padding. This project models
the body of `main` as a pure function from the input file's bytes to the
output file's bytes. A method follows the program's own loops and is proved
to compute the same bytes. The model follows the code as written, including
three places where it departs from the BMP scan-line layout its comments cite.
Those are listed under Findings, each with a corrected definition beside it.

Modules, one file each:

- `Bytes` (`bytes.dfy`): bytes, 16- and 32-bit fields, and little-endian
  codecs with both round trips.
- `Packed` (`packed.dfy`): records whose fields follow one another with no
  alignment bytes, which is what `#pragma pack(1)` gives the two header
  structs. It covers field offsets, cutting a record into fields, and writing
  fields back.
- `BmpHeader` (`bmp_header.dfy`): `bitmapfileheader_t` and
  `bitmapinfoheader_t` as datatypes, parsed from and written back to their
  packed byte layouts. It also defines the header copy and where `biWidth`
  and `biHeight` sit in the file.
- `Pixels` (`pixels.dfy`): `RGBQUAD_t` and the per-pixel grayscale
  complement, with the float average and `round` replaced by exact integer
  arithmetic.
- `Layout` (`layout.dfy`): C's truncating remainder, the padding count, and
  how many rows and columns the two loops visit.
- `ImageComplement` (`image_complement.dfy`): the whole transform
  `Transform(input)`, its properties, and the method `Run` that mirrors the
  loops in `main`.
- `Intended` (`intended.dfy`): the scan-line layout of the BMP format and
  the corrected transform, plus counterexamples for the three departures.

The float arithmetic is replaced exactly. Three channel bytes sum to an
integer s, so s / 3 has fractional part 0, 1/3 or 2/3. It is never halfway
between two integers, so `round` gives the integer nearest s / 3, which is
`(s + 1) / 3` in integer division. The source stores the quotient in a
`float`. Near 255 that type is accurate to about 1e-5, far less than the
1/6 that separates s / 3 from the nearest half, so the narrowing cannot
change the rounded value.

The remainder `biWidth % 4` is C's, which truncates toward zero. For a
negative width that is not a multiple of 4 the remainder is negative, and
the padding comes out as 5, 6 or 7 bytes; the model keeps this. A negative
height makes the outer loop run zero times. A width of zero or less makes
the inner loop run zero times.

The comment at complement.c:121-122 says each scan line is zero-padded to
the nearest 4-byte boundary, at the end of every scan line. In the BMP
layout a line of 21 pixels is 63 bytes, so it needs 1 padding byte. The
code computes `4 - biWidth % 4` from the pixel count, which is 3 for a
width of 21, and writes it once, after all rows. The model follows the
code; `Layout.PaddingExamples` pins the code's value, and the Findings
below give the per-line padding beside it.

## Model

| member | source | states |
|---|---|---|
| Bytes.DecodeLE | complement.c:36-54 | the value of a little-endian field (first byte least significant) is below 256 to the power of its length; `EncodeDecodeLE` and `EncodeLE` show it is the inverse of the field write |
| Bytes.EncodeLE | complement.c:36-54 | an n-byte little-endian encoding of v has n bytes and decodes back to v |
| Bytes.EncodeDecodeLE | complement.c:78-82 | re-encoding the value of a byte string at its own width gives back the same bytes, so reading a field and writing it loses nothing |
| Bytes.DecodeLE4 | complement.c:37 | a 4-byte field weighs its bytes by 1, 2^8, 2^16 and 2^24, least significant first |
| Bytes.DecodeI32Sign | complement.c:45-46 | an `int32_t` field is negative exactly when its top byte has the high bit set |
| Bytes.EncodeDecodeU16 | complement.c:36 | every 2-byte string is the encoding of its decoded `uint16_t` value |
| Bytes.EncodeDecodeU32 | complement.c:37 | every 4-byte string is the encoding of its decoded `uint32_t` value |
| Bytes.EncodeDecodeI32 | complement.c:45 | every 4-byte string is the two's-complement encoding of its decoded `int32_t` value |
| Packed.FieldOfConcat | complement.c:28-41 | in a record written field after field with no alignment bytes, field k reads back as exactly the k-th value written |
| Packed.ConcatFields | complement.c:28-41 | cutting a packed record into its fields and writing them back in order reproduces the record |
| Packed.FieldsOfPrefix | complement.c:28-41 | the first n fields of a record are the fields of its first Offset(n) bytes |
| BmpHeader.FileHeaderLayoutSize | complement.c:29-41 | the packed file header (fields 2,4,2,2,4) is 14 bytes |
| BmpHeader.InfoHeaderLayoutSize | complement.c:43-55 | the packed info header is 40 bytes, with `biWidth` at offset 4 and `biHeight` at offset 8 |
| BmpHeader.ParseFileHeader | complement.c:78 | the `fread` of the 14-byte file header, field by field; no contract of its own: `SerializeParseFileHeader` and `ParseSerializeFileHeader` state that it inverts the write |
| BmpHeader.SerializeFileHeader | complement.c:81 | the `fwrite` of the file header always emits 14 bytes; `ParseSerializeFileHeader` states that they read back as the same header |
| BmpHeader.ParseInfoHeader | complement.c:79 | the `fread` of the 40-byte info header, field by field; no contract of its own: `SerializeParseInfoHeader` and `ParseSerializeInfoHeader` state that it inverts the write |
| BmpHeader.SerializeInfoHeader | complement.c:82 | the `fwrite` of the info header always emits 40 bytes; `ParseSerializeInfoHeader` states that they read back as the same header |
| BmpHeader.ParseSerializeFileHeader | complement.c:29-41 | writing any file header and reading it back gives every field unchanged |
| BmpHeader.SerializeParseFileHeader | complement.c:78-81 | reading 14 bytes as a file header and writing it back reproduces the 14 bytes |
| BmpHeader.ParseSerializeInfoHeader | complement.c:43-55 | writing any info header and reading it back gives every field unchanged |
| BmpHeader.SerializeParseInfoHeader | complement.c:79-82 | reading 40 bytes as an info header and writing it back reproduces the 40 bytes |
| BmpHeader.CopyHeaders | complement.c:78-82 | the two header reads followed by the two writes emit exactly the first 54 input bytes |
| BmpHeader.DimensionOffsets | complement.c:43-55 | the info header read from bytes 14..53 has as `biWidth` the signed little-endian word at file bytes 18..21 and as `biHeight` the one at 22..25 |
| BmpHeader.Width | complement.c:93-94 | `width = bmih.biWidth`; no contract of its own: `DimensionOffsets` states that it is the `biWidth` of the info header read at line 79 |
| BmpHeader.Height | complement.c:93-94 | `height = bmih.biHeight`; no contract of its own: `DimensionOffsets` states that it is the `biHeight` of the info header read at line 79 |
| Pixels.RoundedAverage | complement.c:108-109 | `round((b + g + r) / 3.0)` as `(s + 1) / 3`; no contract of its own: `RoundedAverageBounds`, `RoundedAverageIsNearest` and `RoundedAverageMatchesRound` state that it is C's rounding of the exact average |
| Pixels.RoundedAverageBounds | complement.c:108-109 | the rounded average is within 1/3 of the true average: three times it is within 1 of the channel sum |
| Pixels.RoundHalfAwayFromZero | complement.c:109 | C's `round` of a non-negative quotient: the result brackets num/den within half a unit, halves rounding up |
| Pixels.RoundedAverageIsNearest | complement.c:108-109 | the rounded average is strictly nearer to the true average than any other integer, so no tie ever arises |
| Pixels.RoundedAverageMatchesRound | complement.c:108-109 | the integer formula equals C's `round` applied to the exact quotient |
| Pixels.Complement | complement.c:108-114 | the output pixel is gray: all three channels get the same value |
| Pixels.ComplementLevel | complement.c:108-111 | the output level, subtracted from 255, is within 1/3 of the channel average |
| Pixels.ComplementOfBlack | complement.c:108-114 | (0,0,0) becomes (255,255,255) |
| Pixels.ComplementOfWhite | complement.c:108-114 | (255,255,255) becomes (0,0,0) |
| Pixels.ComplementOfMixed | complement.c:108-114 | (100,150,200) becomes gray 105 |
| Pixels.ComplementAntitone | complement.c:108-111 | a pixel with a larger channel sum never gives a brighter output |
| Pixels.ComplementOfGray | complement.c:108-114 | a gray input v becomes exactly gray 255 - v |
| Pixels.ComplementTwice | complement.c:108-114 | applying the step twice gives the rounded gray level, which equals the input exactly when the input was gray |
| Pixels.ComplementTwiceIsLossy | complement.c:108-114 | the pixel (0,0,1) does not survive two applications |
| Layout.CRem4 | complement.c:87-88 | C's `% 4`: differs from the argument by a multiple of 4, lies strictly between -4 and 4, and takes the argument's sign |
| Layout.Padding | complement.c:85-90 | the padding is zero exactly when `biWidth` is a multiple of 4; it brings `biWidth` up to a multiple of 4; it is below 4 for a non-negative width and 5..7 for a negative one |
| Layout.PaddingModular | complement.c:85-90 | for a non-negative width the padding equals (4 - width mod 4) mod 4 |
| Layout.PaddingExamples | complement.c:85-90 | width 21 gives 3, width 20 gives 0, width -1 gives 5 |
| Layout.RowOrder | complement.c:96 | the outer loop visits height, height-1, ..., 0: height + 1 rows, or none for a negative height |
| Layout.RowOrderVisitsEachRow | complement.c:96 | a row index is visited exactly when it lies in 0..height |
| Layout.ColumnOrder | complement.c:100 | the inner loop visits 0..width-1 in ascending order, or nothing for a width of 0 or less |
| Layout.RowCount | complement.c:96 | iterations of the outer loop, height + 1 or none; no contract of its own: `RowOrder` has exactly this many values |
| Layout.ColumnCount | complement.c:100 | iterations of the inner loop, width or none; no contract of its own: `ColumnOrder` has exactly this many values |
| Layout.PixelCount | complement.c:96-100 | triplets the two loops read, one row's columns per row visited; no contract of its own: `PixelCountIsProduct` gives it in closed form |
| Layout.PixelCountIsProduct | complement.c:96-100 | the loops visit columns times rows pixels |
| ImageComplement.WellFormed | complement.c:78-79 | the input holds both headers (read here) and every triplet the loops read at line 105, so no `fread` comes up short; a predicate, the precondition of `Transform` and `Run` |
| ImageComplement.PixelBytes | complement.c:105-116 | writing a pixel as three bytes and reading them back gives the pixel |
| ImageComplement.ComplementPixels | complement.c:100-116 | the bytes the loops write for the first n triplets read: 3 bytes per triplet; `ComplementedPixel` states that triplet k written is the complement of triplet k read |
| ImageComplement.ComplementedPixel | complement.c:100-116 | written triplet k is the complement of read triplet k |
| ImageComplement.Transform | complement.c:74-128 | the output is 54 + 3 * pixels visited + padding bytes long and starts with the input's 54 header bytes |
| ImageComplement.TransformLength | complement.c:96-128 | the output length is 54 + 3 * width * (height + 1) + padding, with non-positive counts read as 0 |
| ImageComplement.TransformPixels | complement.c:96-116 | output pixel k is the complement of the input triplet at file offset 54 + 3k: no padding is skipped between rows |
| ImageComplement.AchromaticOutput | complement.c:112-116 | every pixel written is gray |
| ImageComplement.TrailingPadding | complement.c:120-128 | every byte after the last pixel is zero, so the padding is written once, after all rows |
| ImageComplement.ComplementPixelsPrefix | complement.c:105 | the first n written triplets depend only on the first 3n bytes read |
| ImageComplement.IgnoresUnreadInput | complement.c:96-128 | two inputs that agree on the headers and the triplets the loops read give the same output; bytes after them, including those the final seek skips, do not matter |
| ImageComplement.SameDimensions | complement.c:93-94 | files that agree on bytes 18..25 declare the same width and height |
| ImageComplement.OnlyDimensionsMatter | complement.c:85-118 | of the header only `biWidth` and `biHeight` steer the output: inputs that agree on them and on the pixel data give the same bytes after the header |
| ImageComplement.TwoByTwoLength | complement.c:96-128 | a 2 by 2 image gives a 74-byte output: three rows of two pixels, then 2 padding bytes |
| ImageComplement.ReadHeaders | complement.c:78-94 | the header step writes exactly the first 54 input bytes and takes as loop bounds the width and height at bytes 18..25 |
| ImageComplement.ScanPixel | complement.c:104-116 | one inner-loop iteration reads the triplet at the cursor, appends its complement and advances the cursor by 3 |
| ImageComplement.ScanRow | complement.c:100-117 | one pass of the inner loop consumes and writes width triplets, its counter taking exactly the values `ColumnOrder(width)` |
| ImageComplement.WritePadding | complement.c:125-127 | the `fputc` loop appends exactly `padding` zero bytes |
| ImageComplement.ScanRows | complement.c:93-118 | the nested loops read the triplets consecutively from offset 54 and write their complements in order; the outer counter takes exactly the values `RowOrder(height)` |
| ImageComplement.Run | complement.c:74-128 | the program's steps, loop by loop, produce exactly `Transform(input)` |
| Intended.RowPadding | complement.c:121-123 | a scan line of width pixels gets fewer than 4 padding bytes, and its 3 * width bytes plus them are a multiple of 4 |
| Intended.Stride | complement.c:121-123 | a padded scan line is a multiple of 4 bytes and holds all its pixel bytes |
| Intended.RowStartIsProduct | complement.c:121-123 | scan line r starts r strides into the pixel array |
| Intended.RowStartAligned | complement.c:121-123 | every scan line starts on a 4-byte boundary |
| Intended.RowStartIsOffset | complement.c:121-123 | scan lines are the fields of a packed record of equal-width fields |
| Intended.ComplementRowsLine | complement.c:96-128 | corrected transform: output scan line r is input scan line r with its pixels complemented and its padding zeroed |
| Intended.TransformIntended | complement.c:74-128 | corrected transform: header copied, output the size of header plus height padded scan lines |
| Intended.IntendedPreservesSize | complement.c:74-128 | corrected transform: a file holding exactly its scan lines comes out the same size, with the pixel array a multiple of 4 bytes |
| Intended.ExtraRowReadsPastEnd | complement.c:96 | a complete 4 by 1 image of 66 bytes makes the loops read past the end of the file |
| Intended.PaddingFromPixelCount | complement.c:87-88 | for width 1 the program pads by 3 bytes, which does not align a 3-byte line; 1 would |
| Intended.PaddingNotPerRow | complement.c:120-128 | for a 1 by 1 image the second triplet read starts at offset 57, inside the first line's padding, and the output's padding comes only at the end |
| Intended.SecondLineOfNarrowImage | complement.c:121-123 | in the format, the second scan line of a 1-pixel-wide image starts at file offset 58 |

## Left out

- Opening, closing and naming the files, the console message and the
  return codes (complement.c:64-72, 130-133). The model is a function on
  the input file's bytes.
- The output `fopen` is never checked (complement.c:72). The model always
  has an output.
- Short reads. A failed `fread` leaves the struct indeterminate (partly
  filled on a partial read); the header structs and `COLORS` are
  uninitialised locals. The model requires `WellFormed(input)`: at least
  54 bytes, plus 3 bytes for every pixel the loops visit.
- `float` and `round` are replaced by the exact integer formula, as
  explained above. IEEE arithmetic is not modelled.
- `#pragma pack(1)` is modelled by the explicit packed layout in `Packed`,
  not by any struct representation.
- The `fseek` past the padding (complement.c:124) moves only the input
  cursor, after the last read, so it has no effect on the output. `Run`
  advances its cursor to mirror it, and `IgnoresUnreadInput` states that
  the skipped bytes do not matter.
- `Width`, `Height`: the program reads the headers straight into struct
  memory (complement.c:78-79), so `biWidth` and `biHeight` at lines 87 and
  93-94 take the host's byte order. The model always decodes them
  little-endian, as a little-endian host does. The header copy is
  byte-exact on any host; the loop bounds and the padding are modelled
  for a little-endian host only.
- Neither the program nor the model validates the header fields (magic
  number, bit depth, compression).

## Findings

| source | as written | input that shows it | evidently intended | confidence | as-written member | corrected member |
|---|---|---|---|---|---|---|
| complement.c:96 | `for (i = height; i >= 0; i--)` visits height + 1 rows | a complete 66-byte file with width 4 and height 1 holds 12 pixel bytes; the loops read 24 | visit exactly `biHeight` rows | not executed | Intended.ExtraRowReadsPastEnd | Intended.IntendedPreservesSize |
| complement.c:87-88 | padding is `4 - biWidth % 4`, computed from the pixel count | width 1: a 3-byte scan line gets 3 padding bytes, making 6, not a multiple of 4 | pad 3 * `biWidth` bytes up to a multiple of 4 | not executed | Intended.PaddingFromPixelCount | Intended.RowPadding |
| complement.c:120-128 | the input padding is skipped and the output padding written once, after the row loop | a 1 by 1 image: the second triplet is read from offset 57, inside the first line's padding, and no padding follows the first output line | skip and write the padding after every scan line | not executed | Intended.PaddingNotPerRow | Intended.ComplementRowsLine |
