/**
 Gaussian smoothing, `manualGaussianFilter`: build a kSize x kSize kernel of weights that
 depend on the squared distance from the centre, divide it by its sum, and replace every
 byte whose window fits inside the image by the kernel-weighted sum of its window,
 truncated to a byte; the border band of width kSize / 2 is copied. The loops address
 `at<uchar>`, so on a three-channel image the window runs over neighbouring bytes of a
 row. `exp(-(i*i + j*j) / (2 * sigma * sigma))` is the parameter `weight`, applied to the
 squared distance `i*i + j*j`; sums are taken exactly, in place of `double` arithmetic.
 */
module Gaussian {
  import opened Images

  function Square(x: int): int {
    x * x
  }

  /** The sum of the first n entries of a row. */
  function RowSum(row: seq<real>, n: int): real
    requires 0 <= n <= |row|
  {
    if n == 0 then 0.0 else RowSum(row, n - 1) + row[n - 1]
  }

  /** The sum of rows 0 .. m - 1 of a grid, each row in full. */
  function GridSum(g: seq<seq<real>>, m: int): real
    requires 0 <= m <= |g|
  {
    if m == 0 then 0.0 else GridSum(g, m - 1) + RowSum(g[m - 1], |g[m - 1]|)
  }

  /** g is an n x n grid. */
  predicate IsSquare(g: seq<seq<real>>, n: int) {
    |g| == n && forall a | 0 <= a < n :: |g[a]| == n
  }

  /** Every weight is positive, as `exp` is. */
  ghost predicate Positive(weight: int -> real) {
    forall r :: weight(r) > 0.0
  }

  /** The kernel before `kernel /= sum`: cell (a, b) holds the weight of the squared
      distance of (a - k, b - k) from the centre. */
  function RawKernel(kSize: int, weight: int -> real): (g: seq<seq<real>>)
    requires kSize >= 0
    ensures IsSquare(g, kSize)
  {
    seq(kSize, a requires 0 <= a < kSize =>
      seq(kSize, b requires 0 <= b < kSize => weight(Square(a - kSize / 2) + Square(b - kSize / 2))))
  }

  /** `sum`, the total of the raw weights. */
  function RawSum(kSize: int, weight: int -> real): real
    requires kSize >= 0
  {
    GridSum(RawKernel(kSize, weight), kSize)
  }

  /** The normalised kernel: every raw weight divided by their total. */
  function Kernel(kSize: int, weight: int -> real): (g: seq<seq<real>>)
    requires kSize >= 1 && Positive(weight)
    ensures IsSquare(g, kSize)
  {
    RawSumPositive(kSize, weight);
    var raw, sum := RawKernel(kSize, weight), RawSum(kSize, weight);
    seq(kSize, a requires 0 <= a < kSize => seq(kSize, b requires 0 <= b < kSize => raw[a][b] / sum))
  }

  lemma {:induction false} RowSumPositive(row: seq<real>, n: int)
    requires 1 <= n <= |row| && forall b | 0 <= b < |row| :: row[b] > 0.0
    ensures RowSum(row, n) > 0.0
  {
    if n > 1 {
      RowSumPositive(row, n - 1);
    }
  }

  lemma {:induction false} GridSumPositive(g: seq<seq<real>>, m: int)
    requires 1 <= m <= |g|
    requires forall a | 0 <= a < |g| :: |g[a]| >= 1 && forall b | 0 <= b < |g[a]| :: g[a][b] > 0.0
    ensures GridSum(g, m) > 0.0
  {
    RowSumPositive(g[m - 1], |g[m - 1]|);
    if m > 1 {
      GridSumPositive(g, m - 1);
    }
  }

  /** A kernel of positive weights has a positive total, so `kernel /= sum` is defined. */
  lemma RawSumPositive(kSize: int, weight: int -> real)
    requires kSize >= 1 && Positive(weight)
    ensures RawSum(kSize, weight) > 0.0
  {
    GridSumPositive(RawKernel(kSize, weight), kSize);
  }

  lemma {:induction false} RowSumScaled(row: seq<real>, scaled: seq<real>, s: real, n: int)
    requires s > 0.0 && |scaled| == |row| && 0 <= n <= |row|
    requires forall b | 0 <= b < |row| :: scaled[b] == row[b] / s
    ensures RowSum(scaled, n) == RowSum(row, n) / s
  {
    if n > 0 {
      RowSumScaled(row, scaled, s, n - 1);
      assert (RowSum(row, n - 1) + row[n - 1]) / s == RowSum(row, n - 1) / s + row[n - 1] / s;
    }
  }

  lemma {:induction false} GridSumScaled(g: seq<seq<real>>, scaled: seq<seq<real>>, s: real, m: int)
    requires s > 0.0 && |scaled| == |g| && 0 <= m <= |g|
    requires forall a | 0 <= a < |g| :: |scaled[a]| == |g[a]| && forall b | 0 <= b < |g[a]| :: scaled[a][b] == g[a][b] / s
    ensures GridSum(scaled, m) == GridSum(g, m) / s
  {
    if m > 0 {
      GridSumScaled(g, scaled, s, m - 1);
      RowSumScaled(g[m - 1], scaled[m - 1], s, |g[m - 1]|);
      assert (GridSum(g, m - 1) + RowSum(g[m - 1], |g[m - 1]|)) / s ==
        GridSum(g, m - 1) / s + RowSum(g[m - 1], |g[m - 1]|) / s;
    }
  }

  /** Normalisation makes the kernel weights positive fractions that sum to exactly one. */
  lemma KernelNormalised(kSize: int, weight: int -> real)
    requires kSize >= 1 && Positive(weight)
    ensures GridSum(Kernel(kSize, weight), kSize) == 1.0
    ensures forall a, b | 0 <= a < kSize && 0 <= b < kSize :: 0.0 < Kernel(kSize, weight)[a][b]
  {
    RawSumPositive(kSize, weight);
    var raw, sum, kernel := RawKernel(kSize, weight), RawSum(kSize, weight), Kernel(kSize, weight);
    GridSumScaled(raw, kernel, sum, kSize);
    QuotientSelf(sum);
    forall a, b | 0 <= a < kSize && 0 <= b < kSize
      ensures 0.0 < kernel[a][b]
    {
      QuotientPositive(raw[a][b], sum);
    }
  }

  lemma QuotientSelf(s: real)
    requires s > 0.0
    ensures s / s == 1.0
  {
    assert (s / s) * s == s;
  }

  lemma QuotientPositive(x: real, s: real)
    requires x > 0.0 && s > 0.0
    ensures x / s > 0.0
  {
    assert (x / s) * s == x;
  }

  /** For odd kSize the kernel is symmetric about its diagonal and about its middle row. */
  lemma KernelSymmetric(kSize: int, weight: int -> real, a: int, b: int)
    requires kSize >= 1 && kSize % 2 == 1 && Positive(weight) && 0 <= a < kSize && 0 <= b < kSize
    ensures Kernel(kSize, weight)[a][b] == Kernel(kSize, weight)[b][a]
    ensures Kernel(kSize, weight)[a][b] == Kernel(kSize, weight)[kSize - 1 - a][b]
  {
    var k := kSize / 2;
    assert Square(kSize - 1 - a - k) == Square(a - k) by {
      assert kSize - 1 - a - k == -(a - k);
    }
  }

  /** The kernel has odd side 2k + 1 and no negative weight. */
  predicate Weights(kernel: seq<seq<real>>, k: int) {
    && k >= 0 && IsSquare(kernel, 2 * k + 1)
    && forall a, b | 0 <= a < 2 * k + 1 && 0 <= b < 2 * k + 1 :: kernel[a][b] >= 0.0
  }

  /** Byte j of row i is smoothed: its window of 2k + 1 rows and bytes fits inside the image. */
  predicate Interior(img: Image, k: int, i: int, j: int) {
    k <= i < img.rows - k && k <= j < img.cols - k
  }

  /** `pixel` after n steps of the inner loop over window row a (m = a - k): the weighted
      bytes j - k .. j - k + n - 1 of row i + a - k. */
  function WindowRow(img: Image, kernel: seq<seq<real>>, k: int, i: int, j: int, a: int, n: int): real
    requires img.Valid() && Weights(kernel, k) && Interior(img, k, i, j)
    requires 0 <= a < 2 * k + 1 && 0 <= n <= 2 * k + 1
  {
    if n == 0 then 0.0
    else
      assert img.cols <= |img.data[i + a - k]|;
      WindowRow(img, kernel, k, i, j, a, n - 1) + img.data[i + a - k][j + n - 1 - k] as real * kernel[a][n - 1]
  }

  /** The weighted sum over window rows 0 .. m - 1. */
  function WindowRows(img: Image, kernel: seq<seq<real>>, k: int, i: int, j: int, m: int): real
    requires img.Valid() && Weights(kernel, k) && Interior(img, k, i, j) && 0 <= m <= 2 * k + 1
  {
    if m == 0 then 0.0 else WindowRows(img, kernel, k, i, j, m - 1) + WindowRow(img, kernel, k, i, j, m - 1, 2 * k + 1)
  }

  /** A weighted byte lies between 0 and 255 times its weight. */
  lemma WeightedByte(x: uint8, w: real)
    requires w >= 0.0
    ensures 0.0 <= x as real * w <= 255.0 * w
  {
    assert 255.0 * w - x as real * w == (255.0 - x as real) * w;
  }

  lemma {:induction false} WindowRowBounded(img: Image, kernel: seq<seq<real>>, k: int, i: int, j: int, a: int, n: int)
    requires img.Valid() && Weights(kernel, k) && Interior(img, k, i, j)
    requires 0 <= a < 2 * k + 1 && 0 <= n <= 2 * k + 1
    ensures 0.0 <= WindowRow(img, kernel, k, i, j, a, n) <= 255.0 * RowSum(kernel[a], n)
  {
    if n > 0 {
      WindowRowBounded(img, kernel, k, i, j, a, n - 1);
      assert img.cols <= |img.data[i + a - k]|;
      var x, w := img.data[i + a - k][j + n - 1 - k], kernel[a][n - 1];
      var before, total := WindowRow(img, kernel, k, i, j, a, n - 1), RowSum(kernel[a], n - 1);
      WeightedByte(x, w);
      assert WindowRow(img, kernel, k, i, j, a, n) == before + x as real * w;
      assert RowSum(kernel[a], n) == total + w;
      assert before + x as real * w <= 255.0 * total + 255.0 * w;
    } else {
      assert WindowRow(img, kernel, k, i, j, a, n) == 0.0 && RowSum(kernel[a], n) == 0.0;
    }
  }

  lemma {:induction false} WindowRowsBounded(img: Image, kernel: seq<seq<real>>, k: int, i: int, j: int, m: int)
    requires img.Valid() && Weights(kernel, k) && Interior(img, k, i, j) && 0 <= m <= 2 * k + 1
    ensures 0.0 <= WindowRows(img, kernel, k, i, j, m) <= 255.0 * GridSum(kernel, m)
  {
    if m > 0 {
      WindowRowsBounded(img, kernel, k, i, j, m - 1);
      WindowRowBounded(img, kernel, k, i, j, m - 1, 2 * k + 1);
    }
  }

  /** With non-negative weights summing to one the weighted sum of a window is a convex
      combination of bytes, so it lies in [0, 255] and `static_cast<uchar>` is defined. */
  lemma WindowBounded(img: Image, kernel: seq<seq<real>>, k: int, i: int, j: int)
    requires img.Valid() && Weights(kernel, k) && GridSum(kernel, 2 * k + 1) == 1.0 && Interior(img, k, i, j)
    ensures 0.0 <= WindowRows(img, kernel, k, i, j, 2 * k + 1) <= 255.0
  {
    WindowRowsBounded(img, kernel, k, i, j, 2 * k + 1);
  }

  /** `static_cast<uchar>(pixel)` of the window sum; the cast truncates, which on a
      non-negative value is the floor. */
  function SmoothedByte(img: Image, kernel: seq<seq<real>>, k: int, i: int, j: int): uint8
    requires img.Valid() && Weights(kernel, k) && GridSum(kernel, 2 * k + 1) == 1.0 && Interior(img, k, i, j)
  {
    WindowBounded(img, kernel, k, i, j);
    WindowRows(img, kernel, k, i, j, 2 * k + 1).Floor as uint8
  }

  /** The smoothed image: interior bytes replaced, every other byte copied. */
  function Smoothed(img: Image, kernel: seq<seq<real>>, k: int): Image
    requires img.Valid() && Weights(kernel, k) && GridSum(kernel, 2 * k + 1) == 1.0
  {
    Image(img.rows, img.cols, img.channels,
      seq(img.rows, i requires 0 <= i < img.rows =>
        seq(img.cols * img.channels, b requires 0 <= b < img.cols * img.channels =>
          if Interior(img, k, i, b) then SmoothedByte(img, kernel, k, i, b) else img.data[i][b])))
  }

  /** Smoothed, with the kernel built from kSize and weight. */
  function GaussianSmoothed(img: Image, kSize: int, weight: int -> real): Image
    requires img.Valid() && kSize >= 1 && kSize % 2 == 1 && Positive(weight)
  {
    KernelNormalised(kSize, weight);
    Smoothed(img, Kernel(kSize, weight), kSize / 2)
  }

  lemma {:induction false} FlatWindowRow(img: Image, kernel: seq<seq<real>>, k: int, i: int, j: int, a: int, n: int, c: uint8)
    requires img.Valid() && Weights(kernel, k) && Interior(img, k, i, j)
    requires 0 <= a < 2 * k + 1 && 0 <= n <= 2 * k + 1
    requires forall r, b | 0 <= r < img.rows && 0 <= b < img.cols :: img.data[r][b] == c
    ensures WindowRow(img, kernel, k, i, j, a, n) == c as real * RowSum(kernel[a], n)
  {
    if n > 0 {
      FlatWindowRow(img, kernel, k, i, j, a, n - 1, c);
    }
  }

  lemma {:induction false} FlatWindowRows(img: Image, kernel: seq<seq<real>>, k: int, i: int, j: int, m: int, c: uint8)
    requires img.Valid() && Weights(kernel, k) && Interior(img, k, i, j) && 0 <= m <= 2 * k + 1
    requires forall a, b | 0 <= a < img.rows && 0 <= b < img.cols :: img.data[a][b] == c
    ensures WindowRows(img, kernel, k, i, j, m) == c as real * GridSum(kernel, m)
  {
    if m > 0 {
      FlatWindowRows(img, kernel, k, i, j, m - 1, c);
      FlatWindowRow(img, kernel, k, i, j, m - 1, 2 * k + 1, c);
    }
  }

  /** An image whose every byte is c is left unchanged: a normalised kernel averages c
      to c. */
  lemma FlatImageUnchanged(img: Image, kernel: seq<seq<real>>, k: int, c: uint8)
    requires img.Valid() && Weights(kernel, k) && GridSum(kernel, 2 * k + 1) == 1.0
    requires forall i, b | 0 <= i < img.rows && 0 <= b < img.cols * img.channels :: img.data[i][b] == c
    ensures Smoothed(img, kernel, k) == img
  {
    forall a, b | 0 <= a < img.rows && 0 <= b < img.cols
      ensures img.data[a][b] == c
    {
      assert b < img.cols * img.channels;
    }
    var r := Smoothed(img, kernel, k);
    forall i | 0 <= i < img.rows
      ensures r.data[i] == img.data[i]
    {
      forall b | 0 <= b < img.cols * img.channels
        ensures r.data[i][b] == img.data[i][b]
      {
        if Interior(img, k, i, b) {
          FlatWindowRows(img, kernel, k, i, b, 2 * k + 1, c);
        }
      }
    }
  }

  /** Smoothed is determined by its bytes. */
  lemma SmoothedBytes(img: Image, kernel: seq<seq<real>>, k: int, r: Image)
    requires img.Valid() && Weights(kernel, k) && GridSum(kernel, 2 * k + 1) == 1.0 && r.Valid()
    requires r.rows == img.rows && r.cols == img.cols && r.channels == img.channels
    requires forall i, b | 0 <= i < img.rows && 0 <= b < img.cols * img.channels ::
      r.data[i][b] == if Interior(img, k, i, b) then SmoothedByte(img, kernel, k, i, b) else img.data[i][b]
    ensures r == Smoothed(img, kernel, k)
  {
    forall i | 0 <= i < img.rows
      ensures r.data[i] == Smoothed(img, kernel, k).data[i]
    {
    }
  }

  /** The weight loops of manualGaussianFilter (pixel_imp.cpp:142-150): fill the raw
      weights row by row into `kernel` while summing them. */
  method FillKernel(kSize: int, weight: int -> real, kernel: array2<real>) returns (sum: real)
    requires kSize >= 1 && kSize % 2 == 1 && kernel.Length0 == kSize && kernel.Length1 == kSize
    modifies kernel
    ensures sum == RawSum(kSize, weight)
    ensures forall a, b | 0 <= a < kSize && 0 <= b < kSize :: kernel[a, b] == RawKernel(kSize, weight)[a][b]
  {
    var k := kSize / 2;
    ghost var raw := RawKernel(kSize, weight);
    sum := 0.0;
    for i := -k to k + 1
      invariant sum == GridSum(raw, i + k)
      invariant forall a, b | 0 <= a < i + k && 0 <= b < kSize :: kernel[a, b] == raw[a][b]
    {
      for j := -k to k + 1
        invariant sum == GridSum(raw, i + k) + RowSum(raw[i + k], j + k)
        invariant forall a, b | 0 <= a < kSize && 0 <= b < kSize && (a < i + k || (a == i + k && b < j + k)) ::
          kernel[a, b] == raw[a][b]
      {
        var val := weight(i * i + j * j);
        assert raw[i + k][j + k] == val by {
          assert Square(i + k - kSize / 2) == i * i && Square(j + k - kSize / 2) == j * j;
        }
        kernel[i + k, j + k] := val;
        sum := sum + val;
      }
    }
  }

  /** `kernel /= sum` (pixel_imp.cpp:152): divide every cell by the sum. */
  method DivideKernel(kernel: array2<real>, sum: real)
    requires sum != 0.0
    modifies kernel
    ensures forall a, b | 0 <= a < kernel.Length0 && 0 <= b < kernel.Length1 :: kernel[a, b] == old(kernel[a, b]) / sum
  {
    for a := 0 to kernel.Length0
      invariant forall a', b | 0 <= a' < kernel.Length0 && 0 <= b < kernel.Length1 ::
        kernel[a', b] == if a' < a then old(kernel[a', b]) / sum else old(kernel[a', b])
    {
      for b := 0 to kernel.Length1
        invariant forall a', b' | 0 <= a' < kernel.Length0 && 0 <= b' < kernel.Length1 ::
          kernel[a', b'] == if a' < a || (a' == a && b' < b) then old(kernel[a', b']) / sum else old(kernel[a', b'])
      {
        kernel[a, b] := kernel[a, b] / sum;
      }
    }
  }

  /** The kernel of manualGaussianFilter (pixel_imp.cpp:140-152). */
  method BuildKernel(kSize: int, weight: int -> real) returns (kernel: array2<real>)
    requires kSize >= 1 && kSize % 2 == 1 && Positive(weight)
    ensures fresh(kernel) && kernel.Length0 == kSize && kernel.Length1 == kSize
    ensures forall a, b | 0 <= a < kSize && 0 <= b < kSize :: kernel[a, b] == Kernel(kSize, weight)[a][b]
  {
    kernel := new real[kSize, kSize];
    var sum := FillKernel(kSize, weight, kernel);
    RawSumPositive(kSize, weight);
    DivideKernel(kernel, sum);
  }

  /** The window sum of byte (i, j) by the two innermost loops of manualGaussianFilter
      (pixel_imp.cpp:157-162). */
  method WindowSum(img: Image, kernel: array2<real>, ghost weights: seq<seq<real>>, k: int, i: int, j: int)
    returns (pixel: real)
    requires img.Valid() && Weights(weights, k) && Interior(img, k, i, j)
    requires kernel.Length0 == 2 * k + 1 && kernel.Length1 == 2 * k + 1
    requires forall a, b | 0 <= a < 2 * k + 1 && 0 <= b < 2 * k + 1 :: kernel[a, b] == weights[a][b]
    ensures pixel == WindowRows(img, weights, k, i, j, 2 * k + 1)
  {
    pixel := 0.0;
    for m := -k to k + 1
      invariant pixel == WindowRows(img, weights, k, i, j, m + k)
    {
      assert img.cols <= |img.data[i + m]|;
      for n := -k to k + 1
        invariant pixel == WindowRows(img, weights, k, i, j, m + k) + WindowRow(img, weights, k, i, j, m + k, n + k)
      {
        pixel := pixel + img.data[i + m][j + n] as real * kernel[m + k, n + k];
      }
    }
  }

  /** The smoothing loops of manualGaussianFilter for row i (pixel_imp.cpp:156-164). */
  method SmoothRow(img: Image, kernel: array2<real>, ghost weights: seq<seq<real>>, k: int, out: array2<uint8>, i: int)
    requires img.Valid() && Weights(weights, k) && GridSum(weights, 2 * k + 1) == 1.0
    requires kernel.Length0 == 2 * k + 1 && kernel.Length1 == 2 * k + 1
    requires forall a, b | 0 <= a < 2 * k + 1 && 0 <= b < 2 * k + 1 :: kernel[a, b] == weights[a][b]
    requires out.Length0 == img.rows && out.Length1 == img.cols * img.channels && k <= i < img.rows - k
    modifies out
    ensures forall i', b | 0 <= i' < img.rows && 0 <= b < img.cols * img.channels ::
      out[i', b] == if i' == i && Interior(img, k, i', b) then SmoothedByte(img, weights, k, i', b) else old(out[i', b])
  {
    var width := img.cols * img.channels;
    var j := k;
    while j < img.cols - k
      invariant k <= j
      invariant forall i', b | 0 <= i' < img.rows && i' != i && 0 <= b < width :: out[i', b] == old(out[i', b])
      invariant forall b | 0 <= b < width ::
        out[i, b] == if k <= b < j && b < img.cols - k then SmoothedByte(img, weights, k, i, b) else old(out[i, b])
    {
      var pixel := WindowSum(img, kernel, weights, k, i, j);
      WindowBounded(img, weights, k, i, j);
      assert j < width;
      out[i, j] := pixel.Floor as uint8;
      j := j + 1;
    }
  }

  /** The smoothing loops of manualGaussianFilter (pixel_imp.cpp:154-165): clone the image
      and smooth its interior row by row. */
  method SmoothInterior(img: Image, kernel: array2<real>, ghost weights: seq<seq<real>>, k: int) returns (result: Image)
    requires img.Valid() && Weights(weights, k) && GridSum(weights, 2 * k + 1) == 1.0
    requires kernel.Length0 == 2 * k + 1 && kernel.Length1 == 2 * k + 1
    requires forall a, b | 0 <= a < 2 * k + 1 && 0 <= b < 2 * k + 1 :: kernel[a, b] == weights[a][b]
    ensures result == Smoothed(img, weights, k)
  {
    var rows, width := img.rows, img.cols * img.channels;
    var out := new uint8[rows, width]((i, b) requires 0 <= i < rows && 0 <= b < width => img.data[i][b]);
    var i := k;
    while i < rows - k
      invariant k <= i
      invariant forall i', b | 0 <= i' < rows && 0 <= b < width ::
        out[i', b] == if i' < i && Interior(img, k, i', b) then SmoothedByte(img, weights, k, i', b) else img.data[i'][b]
    {
      SmoothRow(img, kernel, weights, k, out, i);
      i := i + 1;
    }
    result := Image(rows, img.cols, img.channels, Rows(out));
    SmoothedBytes(img, weights, k, result);
  }

  /** manualGaussianFilter (pixel_imp.cpp:139-168): build the normalised kernel, clone the
      image, and replace every interior byte by its truncated window sum. */
  method ManualGaussianFilter(img: Image, kSize: int, weight: int -> real) returns (result: Image)
    requires img.Valid() && kSize >= 1 && kSize % 2 == 1 && Positive(weight)
    ensures result.Valid() && result.rows == img.rows && result.cols == img.cols
    ensures result.channels == img.channels
    ensures forall i, b | 0 <= i < img.rows && 0 <= b < img.cols * img.channels && !Interior(img, kSize / 2, i, b) ::
      result.data[i][b] == img.data[i][b]
    ensures result == GaussianSmoothed(img, kSize, weight)
  {
    var kernel := BuildKernel(kSize, weight);
    KernelNormalised(kSize, weight);
    result := SmoothInterior(img, kernel, Kernel(kSize, weight), kSize / 2);
  }
}
