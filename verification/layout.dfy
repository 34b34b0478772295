/** How many rows and columns the scan loops visit, and how much padding
    the program writes, all derived from biWidth and biHeight.

    The arithmetic follows C on `int`: the remainder truncates toward zero,
    so a negative width has a negative remainder.
 */
module Layout {
  import opened Bytes

  /** C's `a % 4` on `int`: truncating, so the result takes the sign of a.
      Dafny's own `%` is Euclidean and never negative. */
  function CRem4(a: int): (r: int)
    ensures -4 < r < 4
    ensures (a - r) % 4 == 0
    ensures a >= 0 ==> r >= 0
    ensures a <= 0 ==> r <= 0
  {
    if a >= 0 then a % 4 else -((-a) % 4)
  }

  /** The count of zero bytes the program appends: nothing when biWidth is
      a multiple of 4, otherwise 4 minus C's remainder of biWidth by 4. */
  function Padding(width: I32): (p: nat)
    ensures p == 0 <==> width % 4 == 0
    ensures (width + p) % 4 == 0
    ensures width >= 0 ==> p < 4
    ensures width < 0 && p != 0 ==> 5 <= p <= 7
  {
    var rem := CRem4(width);
    if rem != 0 then 4 - rem else 0
  }

  /** For a non-negative width the padding is the modular formula
      (4 - width mod 4) mod 4, the amount that rounds the width up to a
      multiple of 4. */
  lemma PaddingModular(width: I32)
    requires width >= 0
    ensures Padding(width) == (4 - width % 4) % 4
  {
  }

  /** A width of 21 pixels gets 3 padding bytes, one of 20 gets none, and a
      width of -1 gets 5 because C's remainder of -1 by 4 is -1. */
  lemma PaddingExamples()
    ensures Padding(21) == 3
    ensures Padding(20) == 0
    ensures Padding(-1) == 5
  {
  }

  /** The values the outer loop counter takes: from height down to 0
      inclusive, one step at a time. */
  function RowOrder(height: int): (rows: seq<int>)
    ensures |rows| == RowCount(height)
    ensures forall k :: 0 <= k < |rows| ==> rows[k] == height - k
  {
    if height < 0 then [] else [height] + RowOrder(height - 1)
  }

  /** The number of outer-loop iterations: height + 1, or none for a
      negative height. */
  function RowCount(height: int): nat
  {
    if height >= 0 then height + 1 else 0
  }

  /** The values the inner loop counter takes: 0 up to width, exclusive. */
  function ColumnOrder(width: int): (cols: seq<int>)
    ensures |cols| == ColumnCount(width)
    ensures forall k :: 0 <= k < |cols| ==> cols[k] == k
  {
    if width <= 0 then [] else ColumnOrder(width - 1) + [width - 1]
  }

  /** The number of inner-loop iterations per row: width, or none for a
      width that is not positive. */
  function ColumnCount(width: int): nat
  {
    if width > 0 then width else 0
  }

  /** Pixel triplets the two loops read and write in all, counted the way
      the loops count them: one row's columns for each row visited. */
  function PixelCount(width: int, height: int): nat
    decreases height + 1
  {
    if height < 0 then 0 else PixelCount(width, height - 1) + ColumnCount(width)
  }

  /** In closed form: columns times rows. */
  lemma {:induction false} PixelCountIsProduct(width: int, height: int)
    ensures PixelCount(width, height) == ColumnCount(width) * RowCount(height)
  {
    if height >= 0 {
      PixelCountIsProduct(width, height - 1);
      var c := ColumnCount(width);
      assert c * (height + 1) == c * RowCount(height - 1) + c;
    }
  }

  /** The loop visits every row index 0..height exactly once, in descending
      order, and nothing else. */
  lemma RowOrderVisitsEachRow(height: int, i: int)
    ensures i in RowOrder(height) <==> 0 <= i <= height
  {
    var rows := RowOrder(height);
    if 0 <= i <= height {
      assert rows[height - i] == i;
    }
  }
}
