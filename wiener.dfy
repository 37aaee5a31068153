/**
 The adaptive Wiener filter, `manualWienerFilter`: every byte whose kSize x kSize window
 lies inside the image moves from its value towards the window mean, less so where the
 window varies more; the border band of width kSize / 2 is copied. The window is a
 rectangle of pixels and its statistics are those of channel 0 (`mean[0]`, `stddev[0]`),
 while the value read and written is byte j of row i, as `at<float>(i, j)` and
 `at<uchar>(i, j)` address it; on a single-channel image the two coincide. The window
 statistics are taken exactly, in place of `float` arithmetic.
 */
module Wiener {
  import opened Images

  /** `noiseVar`, the assumed variance of the noise. */
  const NoiseVar: real := 0.0001

  /** The `1e-5` that keeps the gain's denominator away from zero. */
  const Epsilon: real := 0.00001

  /** The sum of a sequence of reals, taken from the front. */
  function SumOf(p: seq<real>): real {
    if |p| == 0 then 0.0 else SumOf(p[..|p| - 1]) + p[|p| - 1]
  }

  /** `mean[0]` of `meanStdDev`. */
  function Mean(p: seq<real>): real
    requires |p| > 0
  {
    SumOf(p) / (|p| as real)
  }

  /** The squared deviations from m. */
  function Deviations(p: seq<real>, m: real): (d: seq<real>)
    ensures |d| == |p|
  {
    seq(|p|, t requires 0 <= t < |p| => (p[t] - m) * (p[t] - m))
  }

  /** `localVar = stddev[0] * stddev[0]`: the population variance of the window. */
  function Variance(p: seq<real>): real
    requires |p| > 0
  {
    SumOf(Deviations(p, Mean(p))) / (|p| as real)
  }

  /** `max(localVar - noiseVar, 0) / (localVar + 1e-5)`: how much of the deviation from the
      mean survives. */
  function Gain(variance: real): real
    requires variance >= 0.0
  {
    (if variance - NoiseVar > 0.0 then variance - NoiseVar else 0.0) / (variance + Epsilon)
  }

  /** `newVal` for a pixel of value val in window p. */
  function WienerValue(p: seq<real>, val: real): real
    requires |p| > 0
  {
    VarianceNonNegative(p);
    Mean(p) + Gain(Variance(p)) * (val - Mean(p))
  }

  /** `cvRound`, which `saturate_cast<uchar>` applies to a `float`: round to nearest, ties
      to even. */
  function RoundHalfEven(x: real): (r: int)
    ensures x - 0.5 <= r as real <= x + 0.5
  {
    var f := x.Floor;
    if x - f as real < 0.5 then f
    else if x - f as real > 0.5 then f + 1
    else if f % 2 == 0 then f else f + 1
  }

  /** Channel 0 of rows top .. top + n - 1 of the window with corner (top, left), row by row. */
  function PatchRows(img: Image, top: int, left: int, kSize: int, n: int): seq<real>
    requires img.Valid() && 0 <= n <= kSize
    requires 0 <= top && top + kSize <= img.rows && 0 <= left && left + kSize <= img.cols
  {
    if n == 0 then [] else
      PatchRows(img, top, left, kSize, n - 1) + seq(kSize, b requires 0 <= b < kSize => At(img, top + n - 1, left + b, 0) as real)
  }

  /** `imgFloat(Rect(left, top, kSize, kSize))`. */
  function Patch(img: Image, top: int, left: int, kSize: int): (p: seq<real>)
    requires img.Valid() && 0 <= kSize
    requires 0 <= top && top + kSize <= img.rows && 0 <= left && left + kSize <= img.cols
    ensures |p| == kSize * kSize && (kSize >= 1 ==> |p| >= 1)
  {
    PatchSize(img, top, left, kSize, kSize);
    PatchRows(img, top, left, kSize, kSize)
  }

  /** Byte j of row i is filtered: the window centred on pixel (i, j) fits inside the image. */
  predicate Interior(img: Image, kSize: int, i: int, j: int) {
    kSize / 2 <= i < img.rows - kSize / 2 && kSize / 2 <= j < img.cols - kSize / 2
  }

  /** The window of an interior pixel lies inside the image, and it is not empty. */
  lemma WindowInside(img: Image, kSize: int, i: int, j: int)
    requires kSize >= 1 && Interior(img, kSize, i, j)
    ensures 0 <= i - kSize / 2 && i - kSize / 2 + kSize <= img.rows
    ensures 0 <= j - kSize / 2 && j - kSize / 2 + kSize <= img.cols
  {
  }

  /** The stored value of an interior byte. */
  function FilteredPixel(img: Image, kSize: int, i: int, j: int): uint8
    requires img.Valid() && kSize >= 1 && Interior(img, kSize, i, j)
  {
    WindowInside(img, kSize, i, j);
    ColumnInRow(img, i, j);
    Saturate(RoundHalfEven(WienerValue(Patch(img, i - kSize / 2, j - kSize / 2, kSize), img.data[i][j] as real)))
  }

  /** Byte j < cols of a row exists whatever the channel count. */
  lemma ColumnInRow(img: Image, i: int, j: int)
    requires img.Valid() && 0 <= i < img.rows && 0 <= j < img.cols
    ensures j < |img.data[i]|
  {
  }

  /** The filtered image: interior bytes filtered, every other byte copied. */
  function Filtered(img: Image, kSize: int): Image
    requires img.Valid() && kSize >= 1
  {
    Image(img.rows, img.cols, img.channels,
      seq(img.rows, i requires 0 <= i < img.rows =>
        seq(img.cols * img.channels, b requires 0 <= b < img.cols * img.channels =>
          if Interior(img, kSize, i, b) then FilteredPixel(img, kSize, i, b) else img.data[i][b])))
  }

  lemma {:induction false} PatchSize(img: Image, top: int, left: int, kSize: int, n: int)
    requires img.Valid() && 0 <= n <= kSize
    requires 0 <= top && top + kSize <= img.rows && 0 <= left && left + kSize <= img.cols
    ensures |PatchRows(img, top, left, kSize, n)| == n * kSize
    ensures n >= 1 ==> |PatchRows(img, top, left, kSize, n)| >= 1
  {
    if n > 0 {
      PatchSize(img, top, left, kSize, n - 1);
      assert (n - 1) * kSize + kSize == n * kSize;
    }
  }

  lemma {:induction false} PatchHolds(img: Image, top: int, left: int, kSize: int, n: int, c: uint8)
    requires img.Valid() && 0 <= n <= kSize
    requires 0 <= top && top + kSize <= img.rows && 0 <= left && left + kSize <= img.cols
    ensures forall t | 0 <= t < |PatchRows(img, top, left, kSize, n)| ::
      0.0 <= PatchRows(img, top, left, kSize, n)[t] <= 255.0
    ensures (forall a, b | top <= a < top + kSize && left <= b < left + kSize :: At(img, a, b, 0) == c) ==>
      forall t | 0 <= t < |PatchRows(img, top, left, kSize, n)| :: PatchRows(img, top, left, kSize, n)[t] == c as real
  {
    if n > 0 {
      PatchHolds(img, top, left, kSize, n - 1, c);
    }
  }

  /** A window whose channel-0 bytes lie in [lo, hi] gives values in [lo, hi]. */
  lemma {:induction false} PatchWithin(img: Image, top: int, left: int, kSize: int, n: int, lo: uint8, hi: uint8)
    requires img.Valid() && 0 <= n <= kSize
    requires 0 <= top && top + kSize <= img.rows && 0 <= left && left + kSize <= img.cols
    requires forall a, b | top <= a < top + kSize && left <= b < left + kSize :: lo <= At(img, a, b, 0) <= hi
    ensures forall t | 0 <= t < |PatchRows(img, top, left, kSize, n)| ::
      lo as real <= PatchRows(img, top, left, kSize, n)[t] <= hi as real
  {
    if n > 0 {
      PatchWithin(img, top, left, kSize, n - 1, lo, hi);
    }
  }

  /** Sums of values in [lo, hi]. */
  lemma {:induction false} SumBounds(p: seq<real>, lo: real, hi: real)
    requires forall t | 0 <= t < |p| :: lo <= p[t] <= hi
    ensures lo * (|p| as real) <= SumOf(p) <= hi * (|p| as real)
  {
    if |p| > 0 {
      SumBounds(p[..|p| - 1], lo, hi);
    }
  }

  /** The sum of n copies of c. */
  lemma {:induction false} SumConstant(p: seq<real>, c: real)
    requires forall t | 0 <= t < |p| :: p[t] == c
    ensures SumOf(p) == c * (|p| as real)
  {
    if |p| > 0 {
      SumConstant(p[..|p| - 1], c);
    }
  }

  /** Dividing by a positive count keeps bounds scaled by that count. */
  lemma DivideBounds(s: real, n: real, lo: real, hi: real)
    requires n > 0.0 && lo * n <= s <= hi * n
    ensures lo <= s / n <= hi
  {
    var q := s / n;
    assert q * n == s;
    assert (q - lo) * n >= 0.0 && (hi - q) * n >= 0.0;
  }

  /** The mean of values in [lo, hi] lies in [lo, hi]. */
  lemma MeanBetween(p: seq<real>, lo: real, hi: real)
    requires |p| > 0 && forall t | 0 <= t < |p| :: lo <= p[t] <= hi
    ensures lo <= Mean(p) <= hi
  {
    SumBounds(p, lo, hi);
    DivideBounds(SumOf(p), |p| as real, lo, hi);
  }

  /** The variance is a mean of squares, so it is never negative. */
  lemma VarianceNonNegative(p: seq<real>)
    requires |p| > 0
    ensures Variance(p) >= 0.0
  {
    var d := Deviations(p, Mean(p));
    forall t | 0 <= t < |d|
      ensures d[t] >= 0.0
    {
      SquareNonNegative(p[t] - Mean(p));
    }
    SumNonNegative(d);
    DivideBounds(SumOf(d), |p| as real, 0.0, SumOf(d) / (|p| as real));
  }

  /** A sum of non-negative values is non-negative. */
  lemma {:induction false} SumNonNegative(p: seq<real>)
    requires forall t | 0 <= t < |p| :: p[t] >= 0.0
    ensures SumOf(p) >= 0.0
  {
    if |p| > 0 {
      SumNonNegative(p[..|p| - 1]);
    }
  }

  /** A square is never negative. */
  lemma SquareNonNegative(x: real)
    ensures x * x >= 0.0
  {
    if x >= 0.0 {
      NonNegativeProduct(x, x);
    } else {
      NonNegativeProduct(-x, -x);
      assert x * x == (-x) * (-x);
    }
  }

  lemma NonNegativeProduct(a: real, b: real)
    requires a >= 0.0
    ensures b >= 0.0 ==> a * b >= 0.0
    ensures b <= 0.0 ==> a * b <= 0.0
  {
  }

  /** The gain lies in [0, 1). */
  lemma GainBounds(variance: real)
    requires variance >= 0.0
    ensures 0.0 <= Gain(variance) < 1.0
  {
    var num := if variance - NoiseVar > 0.0 then variance - NoiseVar else 0.0;
    var den := variance + Epsilon;
    var g := num / den;
    assert g * den == num;
    assert (1.0 - g) * den == den - num;
  }

  /** The new value is a convex combination of the window mean and the pixel value, so it
      lies between them. */
  lemma WienerValueBetween(p: seq<real>, val: real)
    requires |p| > 0
    ensures Variance(p) >= 0.0 && 0.0 <= Gain(Variance(p)) < 1.0
    ensures Mean(p) <= val ==> Mean(p) <= WienerValue(p, val) <= val
    ensures val <= Mean(p) ==> val <= WienerValue(p, val) <= Mean(p)
  {
    VarianceNonNegative(p);
    GainBounds(Variance(p));
    var m, g := Mean(p), Gain(Variance(p));
    assert WienerValue(p, val) - m == g * (val - m);
    assert val - WienerValue(p, val) == (1.0 - g) * (val - m);
    NonNegativeProduct(g, val - m);
    NonNegativeProduct(1.0 - g, val - m);
    NonNegativeProduct(g, m - val);
    NonNegativeProduct(1.0 - g, m - val);
  }

  /** A window of one value c has mean c and variance 0, so its centre keeps the value c. */
  lemma FlatWindow(p: seq<real>, c: real)
    requires |p| > 0 && forall t | 0 <= t < |p| :: p[t] == c
    ensures Mean(p) == c && Variance(p) == 0.0 && WienerValue(p, c) == c
  {
    SumConstant(p, c);
    assert SumOf(p) / (|p| as real) == c;
    var d := Deviations(p, c);
    SumConstant(d, 0.0);
  }

  /** An interior pixel is stored within the range spanned by its window mean and its own
      value, rounded: the filter never overshoots either. */
  lemma FilteredPixelBetween(img: Image, kSize: int, i: int, j: int)
    requires img.Valid() && kSize >= 1 && Interior(img, kSize, i, j)
    ensures var m := Mean(Patch(img, i - kSize / 2, j - kSize / 2, kSize));
      var v := img.data[i][j] as real;
      (if m <= v then m else v) - 0.5 <= FilteredPixel(img, kSize, i, j) as real <= (if m <= v then v else m) + 0.5
  {
    WindowInside(img, kSize, i, j);
    var top, left := i - kSize / 2, j - kSize / 2;
    PatchHolds(img, top, left, kSize, kSize, 0);
    var p := Patch(img, top, left, kSize);
    MeanBetween(p, 0.0, 255.0);
    WienerValueBetween(p, img.data[i][j] as real);
  }

  /** The filter never moves a byte out of a range that holds its own value and every
      value of its window: rounding and clamping keep the new value inside it. */
  lemma FilteredPixelWithin(img: Image, kSize: int, i: int, j: int, lo: uint8, hi: uint8)
    requires img.Valid() && kSize >= 1 && Interior(img, kSize, i, j)
    requires forall a, b | i - kSize / 2 <= a < i - kSize / 2 + kSize && j - kSize / 2 <= b < j - kSize / 2 + kSize ::
      lo <= At(img, a, b, 0) <= hi
    requires lo <= img.data[i][j] <= hi
    ensures lo <= FilteredPixel(img, kSize, i, j) <= hi
  {
    WindowInside(img, kSize, i, j);
    var top, left := i - kSize / 2, j - kSize / 2;
    PatchWithin(img, top, left, kSize, kSize, lo, hi);
    var p := Patch(img, top, left, kSize);
    MeanBetween(p, lo as real, hi as real);
    WienerValueBetween(p, img.data[i][j] as real);
    var x := WienerValue(p, img.data[i][j] as real);
    assert lo as real <= x <= hi as real;
    var r := RoundHalfEven(x);
    assert lo as int <= r <= hi as int;
  }

  /** An image whose every byte is c is left unchanged. */
  lemma FlatImageUnchanged(img: Image, kSize: int, c: uint8)
    requires img.Valid() && kSize >= 1
    requires forall i, b | 0 <= i < img.rows && 0 <= b < img.cols * img.channels :: img.data[i][b] == c
    ensures Filtered(img, kSize) == img
  {
    forall a, b | 0 <= a < img.rows && 0 <= b < img.cols
      ensures At(img, a, b, 0) == c
    {
      PixelInRow(b, 0, img.cols, img.channels);
    }
    var r := Filtered(img, kSize);
    forall i | 0 <= i < img.rows
      ensures r.data[i] == img.data[i]
    {
      forall b | 0 <= b < img.cols * img.channels
        ensures r.data[i][b] == img.data[i][b]
      {
        if Interior(img, kSize, i, b) {
          FlatPixel(img, kSize, c, i, b);
        }
      }
    }
  }

  /** An interior byte of value c whose window holds c everywhere keeps the value c. */
  lemma FlatPixel(img: Image, kSize: int, c: uint8, i: int, j: int)
    requires img.Valid() && kSize >= 1 && Interior(img, kSize, i, j)
    requires forall a, b | 0 <= a < img.rows && 0 <= b < img.cols :: At(img, a, b, 0) == c
    requires img.data[i][j] == c
    ensures FilteredPixel(img, kSize, i, j) == c
  {
    WindowInside(img, kSize, i, j);
    var top, left := i - kSize / 2, j - kSize / 2;
    PatchHolds(img, top, left, kSize, kSize, c);
    FlatWindow(Patch(img, top, left, kSize), c as real);
  }

  /** Filtered is determined by its bytes. */
  lemma FilteredBytes(img: Image, kSize: int, r: Image)
    requires img.Valid() && kSize >= 1 && r.Valid()
    requires r.rows == img.rows && r.cols == img.cols && r.channels == img.channels
    requires forall i, b | 0 <= i < img.rows && 0 <= b < img.cols * img.channels ::
      r.data[i][b] == if Interior(img, kSize, i, b) then FilteredPixel(img, kSize, i, b) else img.data[i][b]
    ensures r == Filtered(img, kSize)
  {
    forall i | 0 <= i < img.rows
      ensures r.data[i] == Filtered(img, kSize).data[i]
    {
    }
  }

  /** The body of the inner loop of manualWienerFilter (pixel_imp.cpp:120-131): the window
      statistics, the new value, and its rounding and saturation. */
  method WienerPixel(img: Image, kSize: int, i: int, j: int) returns (v: uint8)
    requires img.Valid() && kSize >= 1 && Interior(img, kSize, i, j)
    ensures v == FilteredPixel(img, kSize, i, j)
    ensures var m := Mean(Patch(img, i - kSize / 2, j - kSize / 2, kSize));
      var val := img.data[i][j] as real;
      (if m <= val then m else val) - 0.5 <= v as real <= (if m <= val then val else m) + 0.5
    ensures (forall a, b | i - kSize / 2 <= a < i - kSize / 2 + kSize && j - kSize / 2 <= b < j - kSize / 2 + kSize ::
      At(img, a, b, 0) == img.data[i][j]) ==> v == img.data[i][j]
  {
    var h := kSize / 2;
    WindowInside(img, kSize, i, j);
    var patch := Patch(img, i - h, j - h, kSize);
    var mean := Mean(patch);
    VarianceNonNegative(patch);
    var localVar := Variance(patch);
    ColumnInRow(img, i, j);
    var val := img.data[i][j] as real;
    var newVal := mean + Gain(localVar) * (val - mean);
    assert newVal == WienerValue(patch, val);
    v := Saturate(RoundHalfEven(newVal));
    FilteredPixelBetween(img, kSize, i, j);
    ghost var c := img.data[i][j];
    if forall a, b | i - h <= a < i - h + kSize && j - h <= b < j - h + kSize :: At(img, a, b, 0) == c {
      FilteredPixelWithin(img, kSize, i, j, c, c);
    }
  }

  /** The inner loop of manualWienerFilter (pixel_imp.cpp:119-132): filter the interior
      bytes of row i of `out` and nothing else. */
  method FilterRow(img: Image, kSize: int, out: array2<uint8>, i: int)
    requires img.Valid() && kSize >= 1
    requires out.Length0 == img.rows && out.Length1 == img.cols * img.channels
    requires kSize / 2 <= i < img.rows - kSize / 2
    modifies out
    ensures forall i', b | 0 <= i' < img.rows && 0 <= b < img.cols * img.channels ::
      out[i', b] == if i' == i && Interior(img, kSize, i', b) then FilteredPixel(img, kSize, i', b) else old(out[i', b])
  {
    var h, width := kSize / 2, img.cols * img.channels;
    var j := h;
    while j < img.cols - h
      invariant h <= j
      invariant forall i', b | 0 <= i' < img.rows && i' != i && 0 <= b < width :: out[i', b] == old(out[i', b])
      invariant forall b | 0 <= b < width ::
        out[i, b] == if h <= b < j && b < img.cols - h then FilteredPixel(img, kSize, i, b) else old(out[i, b])
    {
      ColumnInRow(img, i, j);
      out[i, j] := WienerPixel(img, kSize, i, j);
      j := j + 1;
    }
  }

  /** manualWienerFilter (pixel_imp.cpp:113-136): clone, then replace every interior byte
      by its rounded, saturated Wiener estimate. */
  method ManualWienerFilter(img: Image, kSize: int) returns (result: Image)
    requires img.Valid() && kSize >= 1
    ensures result.Valid() && result.rows == img.rows && result.cols == img.cols
    ensures result.channels == img.channels
    ensures forall i, b | 0 <= i < img.rows && 0 <= b < img.cols * img.channels && !Interior(img, kSize, i, b) ::
      result.data[i][b] == img.data[i][b]
    ensures result == Filtered(img, kSize)
  {
    var rows, width, h := img.rows, img.cols * img.channels, kSize / 2;
    var out := new uint8[rows, width]((i, b) requires 0 <= i < rows && 0 <= b < width => img.data[i][b]);
    var i := h;
    while i < rows - h
      invariant h <= i
      invariant forall i', b | 0 <= i' < rows && 0 <= b < width ::
        out[i', b] == if i' < i && Interior(img, kSize, i', b) then FilteredPixel(img, kSize, i', b) else img.data[i'][b]
    {
      FilterRow(img, kSize, out, i);
      i := i + 1;
    }
    result := Image(rows, img.cols, img.channels, Rows(out));
    FilteredBytes(img, kSize, result);
  }
}
