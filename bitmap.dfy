/** The sample size getScaledBitmap passes to the bitmap decoder, computed
    with Java's 32-bit int arithmetic. */
module BitmapSampling {
  import opened Blocks

  const MinInt: int := -0x8000_0000
  const MaxInt: int := 0x7fff_ffff

  newtype int32 = x: int | -0x8000_0000 <= x < 0x8000_0000

  /** Two's-complement wrap-around of a mathematical integer into an int. */
  function Wrap(x: int): (r: int32)
    ensures MinInt <= x <= MaxInt ==> r as int == x
    ensures (r as int - x) % 0x1_0000_0000 == 0
  {
    (((x - MinInt) % 0x1_0000_0000) + MinInt) as int32
  }

  function Abs(x: int): nat
  {
    if x < 0 then -x else x
  }

  /** Java's int division: it truncates toward zero, overflows only for
      MIN_VALUE / -1, and throws (None) on a zero divisor. */
  function JavaDiv(a: int32, b: int32): (r: Option<int32>)
    ensures b == 0 <==> r.None?
  {
    if b == 0 then None
    else
      var q := if (a >= 0) == (b > 0) then Abs(a as int) / Abs(b as int)
               else -(Abs(a as int) / Abs(b as int));
      Some(Wrap(q))
  }

  /** An image wider than the view is sampled by one more than the truncated
      quotient of the widths, in int arithmetic; one that fits is sampled by 1.
      None stands for the division by a zero width that throws before the
      sample size is set, the only way to get no sample size. */
  function SampleSize(outWidth: int32, width: int32): (r: Option<int32>)
    ensures r.None? <==> width == 0 && outWidth > 0
    ensures outWidth <= width ==> r == Some(1)
  {
    if outWidth > width then
      match JavaDiv(outWidth, width)
      case None => None
      case Some(q) => Some(Wrap(q as int + 1))
    else Some(1)
  }

  /** For a positive view width the sample size is at least 1 and shrinks the
      image to at most the view width: 1 when it already fits, and otherwise
      the smallest s with outWidth < s * width. The single exception is
      outWidth = MAX_VALUE with width 1, where the addition wraps. */
  lemma SampleSizeBounds(outWidth: int32, width: int32)
    requires width > 0 && !(outWidth as int == MaxInt && width == 1)
    ensures SampleSize(outWidth, width).Some?
    ensures var s := SampleSize(outWidth, width).value as int;
      s >= 1 && outWidth as int <= s * width as int
      && (outWidth <= width ==> s == 1)
      && (outWidth > width ==> s >= 2 && (s - 1) * width as int <= outWidth as int < s * width as int)
  {
    if outWidth > width {
      var o, w := outWidth as int, width as int;
      var q := o / w;
      QuotientBounds(o, w);
      assert JavaDiv(outWidth, width) == Some(q as int32);
      assert q + 1 <= MaxInt;
      assert SampleSize(outWidth, width).value as int == q + 1;
      assert (q + 1) * w == q * w + w;
    }
  }

  /** Euclidean division of o > w > 0: the quotient is positive, brackets o,
      and for w >= 2 is at most half of o. */
  lemma QuotientBounds(o: int, w: int)
    requires o > w > 0
    ensures var q := o / w;
      1 <= q <= o && q * w <= o < q * w + w && (w >= 2 ==> 2 * q <= o)
  {
    var q, m := o / w, o % w;
    assert o == q * w + m && 0 <= m < w;
    if q <= 0 {
      MulLeq(q, 0, w);
      assert false;
    }
    MulLeq(1, w, q);
    if w >= 2 {
      MulLeq(2, w, q);
    }
  }

  /** a <= b and c >= 0 give a * c <= b * c. */
  lemma MulLeq(a: int, b: int, c: int)
    requires a <= b && c >= 0
    ensures a * c <= b * c
  {
    assert b * c - a * c == (b - a) * c;
  }

  /** The one case where the sample size overflows: an image of width
      MAX_VALUE drawn into a view of width 1 gets sample size MIN_VALUE. */
  lemma SampleSizeWraps()
    ensures SampleSize(MaxInt as int32, 1) == Some(MinInt as int32)
  {
    assert JavaDiv(MaxInt as int32, 1) == Some(MaxInt as int32);
  }

  /** A zero view width throws for any positive image width; it yields 1
      otherwise. */
  lemma SampleSizeZeroWidth(outWidth: int32)
    ensures outWidth > 0 <==> SampleSize(outWidth, 0).None?
    ensures outWidth <= 0 ==> SampleSize(outWidth, 0) == Some(1)
  {
  }

  /** Division truncates toward zero. A decode failure (outWidth -1) against
      a negative width of -3 gets 1, where Euclidean division would give 2;
      outWidth 10 against width -3 gets -2, where floor division would give
      -3. */
  lemma SampleSizeTruncates()
    ensures SampleSize(-1, -3) == Some(1)
    ensures SampleSize(10, -3) == Some(-2)
  {
    assert JavaDiv(-1, -3) == Some(0);
    assert JavaDiv(10, -3) == Some(-3);
  }
}
