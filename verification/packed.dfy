/** Packed records: fields placed one directly after another, with no
    alignment bytes between them.

    A record layout is the list of its field widths in bytes. Field k then
    starts at the sum of the widths before it, and writing a record is
    concatenating the encodings of its fields.
 */
module Packed {
  import opened Bytes

  /** A slice of a slice is a slice of the original, shifted by the outer
      start. */
  lemma SliceOfSlice(s: seq<Byte>, lo: nat, hi: nat, i: nat, j: nat)
    requires lo <= hi <= |s|
    requires i <= j <= hi - lo
    ensures s[lo..hi][i..j] == s[lo + i..lo + j]
  {
    var inner := s[lo..hi][i..j];
    assert forall t | 0 <= t < j - i :: inner[t] == s[lo + i + t];
  }

  /** Dropping the front of a concatenation leaves its back. */
  lemma DropFront(x: seq<Byte>, y: seq<Byte>)
    ensures (x + y)[|x|..] == y
    ensures (x + y)[|x|..|x| + |y|] == y
  {
    assert forall t | 0 <= t < |y| :: (x + y)[|x|..][t] == y[t];
  }

  /** Taking the length of the front of a concatenation gives the front. */
  lemma TakeFront(x: seq<Byte>, y: seq<Byte>)
    ensures (x + y)[..|x|] == x
  {
    assert forall t | 0 <= t < |x| :: (x + y)[..|x|][t] == x[t];
  }

  /** Start of field k: the widths of fields 0..k-1 added up. */
  function Offset(widths: seq<nat>, k: nat): nat
    requires k <= |widths|
  {
    if k == 0 then 0 else Offset(widths, k - 1) + widths[k - 1]
  }

  /** The size of a whole record. */
  function Size(widths: seq<nat>): nat
  {
    Offset(widths, |widths|)
  }

  lemma {:induction false} OffsetMonotone(widths: seq<nat>, j: nat, k: nat)
    requires j <= k <= |widths|
    ensures Offset(widths, j) <= Offset(widths, k)
  {
    if j < k {
      OffsetMonotone(widths, j, k - 1);
    }
  }

  /** Dropping trailing fields moves none of the fields before them. */
  lemma {:induction false} OffsetPrefix(widths: seq<nat>, n: nat, k: nat)
    requires k <= n <= |widths|
    ensures Offset(widths[..n], k) == Offset(widths, k)
  {
    if k > 0 {
      OffsetPrefix(widths, n, k - 1);
    }
  }

  /** The bytes of field k of a record. */
  function Field(b: seq<Byte>, widths: seq<nat>, k: nat): (f: seq<Byte>)
    requires k < |widths|
    requires |b| == Size(widths)
    ensures |f| == widths[k]
  {
    OffsetMonotone(widths, k + 1, |widths|);
    b[Offset(widths, k)..Offset(widths, k + 1)]
  }

  /** A record cut into its fields. */
  function Fields(b: seq<Byte>, widths: seq<nat>): (fs: seq<seq<Byte>>)
    requires |b| == Size(widths)
    ensures |fs| == |widths|
    ensures forall k :: 0 <= k < |fs| ==> fs[k] == Field(b, widths, k)
  {
    seq(|widths|, k requires 0 <= k < |widths| => Field(b, widths, k))
  }

  /** Field encodings laid end to end. */
  function Concat(chunks: seq<seq<Byte>>): seq<Byte>
  {
    if |chunks| == 0 then [] else Concat(chunks[..|chunks| - 1]) + chunks[|chunks| - 1]
  }

  /** Each chunk has the width the layout gives its field. */
  predicate Fits(chunks: seq<seq<Byte>>, widths: seq<nat>)
  {
    && |chunks| == |widths|
    && forall k :: 0 <= k < |chunks| ==> |chunks[k]| == widths[k]
  }

  lemma {:induction false} ConcatSize(chunks: seq<seq<Byte>>, widths: seq<nat>)
    requires Fits(chunks, widths)
    ensures |Concat(chunks)| == Size(widths)
  {
    var n := |chunks|;
    if n > 0 {
      ConcatSize(chunks[..n - 1], widths[..n - 1]);
      OffsetPrefix(widths, n - 1, n - 1);
    }
  }

  /** Reading field k of a written record gives back chunk k. */
  lemma {:induction false} FieldOfConcat(chunks: seq<seq<Byte>>, widths: seq<nat>, k: nat)
    requires Fits(chunks, widths)
    requires k < |widths|
    ensures |Concat(chunks)| == Size(widths)
    ensures Field(Concat(chunks), widths, k) == chunks[k]
  {
    ConcatSize(chunks, widths);
    var n := |chunks|;
    var front := Concat(chunks[..n - 1]);
    ConcatSize(chunks[..n - 1], widths[..n - 1]);
    OffsetPrefix(widths, n - 1, n - 1);
    if k < n - 1 {
      FieldOfConcat(chunks[..n - 1], widths[..n - 1], k);
      OffsetPrefix(widths, n - 1, k);
      OffsetPrefix(widths, n - 1, k + 1);
      OffsetMonotone(widths, k + 1, n - 1);
      assert Field(Concat(chunks), widths, k) == front[Offset(widths, k)..Offset(widths, k + 1)];
    }
  }

  /** The first n fields of a record are the fields of its first n fields'
      bytes. */
  lemma FieldsOfPrefix(b: seq<Byte>, widths: seq<nat>, n: nat)
    requires |b| == Size(widths)
    requires n <= |widths|
    ensures Offset(widths, n) <= |b|
    ensures Offset(widths[..n], n) == Offset(widths, n)
    ensures Fields(b, widths)[..n] == Fields(b[..Offset(widths, n)], widths[..n])
  {
    OffsetMonotone(widths, n, |widths|);
    OffsetPrefix(widths, n, n);
    var front := b[..Offset(widths, n)];
    var kept := Fields(b, widths)[..n];
    var frontFields := Fields(front, widths[..n]);
    forall k | 0 <= k < n
      ensures kept[k] == frontFields[k]
    {
      OffsetPrefix(widths, n, k);
      OffsetPrefix(widths, n, k + 1);
      OffsetMonotone(widths, k + 1, n);
      assert kept[k] == b[Offset(widths, k)..Offset(widths, k + 1)];
      assert frontFields[k] == front[Offset(widths, k)..Offset(widths, k + 1)];
    }
  }

  /** Writing the fields of a record back in order reproduces the record. */
  lemma {:induction false} ConcatFields(b: seq<Byte>, widths: seq<nat>)
    requires |b| == Size(widths)
    ensures Concat(Fields(b, widths)) == b
    decreases |widths|
  {
    var n := |widths|;
    if n > 0 {
      var fs := Fields(b, widths);
      var cut := Offset(widths, n - 1);
      assert Concat(fs[..n - 1]) == b[..cut] by {
        FieldsOfPrefix(b, widths, n - 1);
        ConcatFields(b[..cut], widths[..n - 1]);
      }
      assert fs[n - 1] == b[cut..];
      assert b == b[..cut] + b[cut..];
    }
  }

  /** The layout of n fields that are all w bytes wide. */
  function Uniform(w: nat, n: nat): (widths: seq<nat>)
    ensures |widths| == n
    ensures forall k :: 0 <= k < n ==> widths[k] == w
  {
    seq(n, _ => w)
  }
}
