/** One 24-bit pixel and the fused grayscale-and-complement step applied to it.

    The program averages the three channels in floating point, rounds to the
    nearest integer and subtracts from 255. Three bytes sum to an integer,
    so their average has fractional part 0, 1/3 or 2/3: it is never halfway
    between two integers, and rounding it is the integer division below.
 */
module Pixels {
  import opened Bytes

  /** A pixel triplet in file order: blue, then green, then red. */
  datatype Pixel = Pixel(blue: Byte, green: Byte, red: Byte)

  function Sum(p: Pixel): nat
  {
    p.blue + p.green + p.red
  }

  /** A pixel whose three channels are equal: a shade of gray. */
  predicate Achromatic(p: Pixel)
  {
    p.blue == p.green == p.red
  }

  function Gray(v: Byte): (p: Pixel)
    ensures Achromatic(p) && p.blue == v
  {
    Pixel(v, v, v)
  }

  /** The channel average rounded to the nearest integer. */
  function RoundedAverage(p: Pixel): Byte
  {
    (Sum(p) + 1) / 3
  }

  /** Three times the rounded average is within one of the channel sum: the
      rounded average is within 1/3 of the true average. */
  lemma RoundedAverageBounds(p: Pixel)
    ensures -1 <= 3 * RoundedAverage(p) - Sum(p) <= 1
  {
  }

  /** C's round() on the non-negative rational num/den: halves go up. */
  function RoundHalfAwayFromZero(num: nat, den: nat): (r: nat)
    requires den > 0
    ensures 2 * den * r <= 2 * num + den < 2 * den * (r + 1)
  {
    (2 * num + den) / (2 * den)
  }

  /** The rounded average is the unique nearest integer to Sum(p)/3: any
      other integer is strictly farther away, so no tie ever arises. */
  lemma RoundedAverageIsNearest(p: Pixel, m: int)
    requires m != RoundedAverage(p)
    ensures Distance(3 * RoundedAverage(p), Sum(p)) < Distance(3 * m, Sum(p))
  {
    var avg: int := RoundedAverage(p);
    if m < avg {
      assert 3 * m <= 3 * avg - 3;
    } else {
      assert 3 * m >= 3 * avg + 3;
    }
  }

  function Distance(a: int, b: int): nat
  {
    if a < b then b - a else a - b
  }

  /** The integer formula agrees with rounding the true quotient the way C's
      round() does. */
  lemma RoundedAverageMatchesRound(p: Pixel)
    ensures RoundedAverage(p) == RoundHalfAwayFromZero(Sum(p), 3)
  {
    var s: int := Sum(p);
    var avg: int := RoundedAverage(p);
    var r: int := RoundHalfAwayFromZero(s, 3);
    assert 6 * r <= 2 * s + 3 < 6 * r + 6;
    assert 3 * avg <= s + 1 < 3 * avg + 3;
  }

  /** The output pixel: gray, at 255 minus the rounded channel average. */
  function Complement(p: Pixel): (q: Pixel)
    ensures Achromatic(q)
  {
    Gray(0xFF - RoundedAverage(p))
  }

  /** 255 minus the output level is within 1/3 of the channel average. */
  lemma ComplementLevel(p: Pixel)
    ensures -1 <= 3 * (0xFF - Complement(p).blue as int) - Sum(p) <= 1
  {
    RoundedAverageBounds(p);
  }

  /** Black becomes white. */
  lemma ComplementOfBlack()
    ensures Complement(Pixel(0, 0, 0)) == Gray(0xFF)
  {
    assert RoundedAverage(Pixel(0, 0, 0)) == 0;
  }

  /** White becomes black. */
  lemma ComplementOfWhite()
    ensures Complement(Pixel(0xFF, 0xFF, 0xFF)) == Gray(0)
  {
    assert RoundedAverage(Pixel(0xFF, 0xFF, 0xFF)) == 0xFF;
  }

  /** The triplet (100, 150, 200) averages to 150 and becomes 105. */
  lemma ComplementOfMixed()
    ensures Complement(Pixel(100, 150, 200)) == Gray(105)
  {
    assert RoundedAverage(Pixel(100, 150, 200)) == 150;
  }

  /** A brighter input never gives a brighter output. */
  lemma ComplementAntitone(p: Pixel, q: Pixel)
    requires Sum(p) <= Sum(q)
    ensures Complement(q).blue <= Complement(p).blue
  {
    assert 3 * RoundedAverage(p) <= Sum(p) + 1 <= Sum(q) + 1 < 3 * RoundedAverage(q) + 3;
  }

  /** On a gray pixel no rounding happens: the output is the exact complement. */
  lemma ComplementOfGray(v: Byte)
    ensures Complement(Gray(v)) == Gray(0xFF - v)
  {
    assert Sum(Gray(v)) + 1 == 3 * v + 1;
  }

  /** Complementing twice gives back the rounded gray level, which equals the
      input exactly when the input was already gray. */
  lemma ComplementTwice(p: Pixel)
    ensures Complement(Complement(p)) == Gray(RoundedAverage(p))
    ensures Complement(Complement(p)) == p <==> Achromatic(p)
  {
    ComplementOfGray(0xFF - RoundedAverage(p));
    if Achromatic(p) {
      ComplementOfGray(p.blue);
      assert p == Gray(p.blue);
    }
  }

  /** The transform is lossy: complementing twice does not always restore the
      input. */
  lemma ComplementTwiceIsLossy()
    ensures Complement(Complement(Pixel(0, 0, 1))) == Gray(0)
  {
    assert Sum(Pixel(0, 0, 1)) == 1;
    ComplementTwice(Pixel(0, 0, 1));
  }
}
