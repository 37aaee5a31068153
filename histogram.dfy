/**
 The counting half of `manualEqualizeHist`: which bytes the loops read, their histogram,
 and the running sums that make up the cumulative distribution. The loops read
 `at<uchar>(i, j)` for j < cols, the first cols bytes of every row, which on a
 single-channel image are all of its pixels.
 */
module Histogram {
  import opened Images

  /** The bytes read from rows 0 .. n - 1, in loop order. */
  function SampleRows(img: Image, n: int): seq<uint8>
    requires img.Valid() && 0 <= n <= img.rows
  {
    if n == 0 then [] else SampleRows(img, n - 1) + img.data[n - 1][..img.cols]
  }

  /** Every byte the equalisation reads. */
  function Sample(img: Image): seq<uint8>
    requires img.Valid()
  {
    SampleRows(img, img.rows)
  }

  /** `int total = img.rows * img.cols`. */
  function Total(img: Image): int {
    img.rows * img.cols
  }

  /** The histogram of s, built as the source builds it: start from 256 zero bins and add
      one to bin x for every byte x in turn. */
  function Counts(s: seq<uint8>): (h: seq<int>)
    ensures |h| == 256
  {
    if |s| == 0 then seq(256, v => 0)
    else var h := Counts(s[..|s| - 1]); h[s[|s| - 1] as int := h[s[|s| - 1]] + 1]
  }

  /** `hist`: the histogram of the bytes read. */
  function Hist(img: Image): seq<int>
    requires img.Valid()
  {
    Counts(Sample(img))
  }

  /** The sum of a sequence, taken from the front. */
  function Sum(h: seq<int>): int {
    if |h| == 0 then 0 else Sum(h[..|h| - 1]) + h[|h| - 1]
  }

  /** The number of elements of s below k. */
  function CountBelow(s: seq<uint8>, k: int): nat {
    if |s| == 0 then 0 else CountBelow(s[..|s| - 1], k) + (if (s[|s| - 1] as int) < k then 1 else 0)
  }

  /** The largest byte of a non-empty sequence. */
  function MaxOf(s: seq<uint8>): (m: uint8)
    requires |s| > 0
    ensures m in s && forall x | x in s :: x <= m
  {
    if |s| == 1 then s[0]
    else
      var s' := s[..|s| - 1];
      assert s == s' + [s[|s| - 1]];
      var m := MaxOf(s');
      if s[|s| - 1] > m then s[|s| - 1] else m
  }

  /** `cdf[v]` before normalisation: hist[0] + ... + hist[v]. */
  function Cumulative(h: seq<int>, v: int): int
    requires 0 <= v < |h|
  {
    Sum(h[..v + 1])
  }

  /** The `float cdf[256]` array after the second loop, as exact values. */
  function Cdf(h: seq<int>): (cdf: seq<real>)
    requires |h| == 256
    ensures |cdf| == 256
  {
    seq(256, v requires 0 <= v < 256 => Cumulative(h, v) as real)
  }

  /** `cdf[0]` is `hist[0]`. */
  lemma CumulativeFirst(h: seq<int>)
    requires |h| > 0
    ensures Cumulative(h, 0) == h[0]
  {
    var h1 := h[..1];
    assert h1[..0] == [];
    assert Sum(h1) == Sum(h1[..0]) + h1[0];
  }

  lemma {:induction false} SampleRowsSize(img: Image, n: int)
    requires img.Valid() && 0 <= n <= img.rows
    ensures |SampleRows(img, n)| == n * img.cols
  {
    if n > 0 {
      SampleRowsSize(img, n - 1);
      assert (n - 1) * img.cols + img.cols == n * img.cols;
    }
  }

  /** The loops read rows * cols bytes, so `total` is their number. */
  lemma SampleSize(img: Image)
    requires img.Valid()
    ensures |Sample(img)| == Total(img)
  {
    SampleRowsSize(img, img.rows);
  }

  lemma {:induction false} SampledInRows(img: Image, n: int, i: int, j: int)
    requires img.Valid() && 0 <= i < n <= img.rows && 0 <= j < img.cols
    ensures img.data[i][j] in SampleRows(img, n)
  {
    if i == n - 1 {
      assert img.data[i][j] == img.data[i][..img.cols][j];
    } else {
      SampledInRows(img, n - 1, i, j);
    }
  }

  /** Every byte at position j < cols of every row is among the bytes read. */
  lemma SampledIn(img: Image, i: int, j: int)
    requires img.Valid() && 0 <= i < img.rows && 0 <= j < img.cols
    ensures img.data[i][j] in Sample(img)
  {
    SampledInRows(img, img.rows, i, j);
  }

  lemma {:induction false} SampledFromRows(img: Image, n: int, x: uint8)
    requires img.Valid() && 0 <= n <= img.rows && x in SampleRows(img, n)
    ensures exists i, j | 0 <= i < n && 0 <= j < img.cols :: img.data[i][j] == x
  {
    if x in SampleRows(img, n - 1) {
      SampledFromRows(img, n - 1, x);
    } else {
      var row := img.data[n - 1][..img.cols];
      var j :| 0 <= j < |row| && row[j] == x;
      assert img.data[n - 1][j] == x;
    }
  }

  /** Every byte read sits at some position j < cols of some row. */
  lemma SampledFrom(img: Image, x: uint8)
    requires img.Valid() && x in Sample(img)
    ensures exists i, j | 0 <= i < img.rows && 0 <= j < img.cols :: img.data[i][j] == x
  {
    SampledFromRows(img, img.rows, x);
  }

  /** Bin v of the histogram is the number of occurrences of v. */
  lemma {:induction false} CountsOccurrences(s: seq<uint8>, v: uint8)
    ensures Counts(s)[v] == multiset(s)[v]
  {
    if |s| > 0 {
      var s', x := s[..|s| - 1], s[|s| - 1];
      assert s == s' + [x];
      CountsOccurrences(s', v);
    }
  }

  /** Adding one at position x adds one to every prefix sum that covers x. */
  lemma {:induction false} SumIncrement(h: seq<int>, x: int, k: int)
    requires 0 <= x < |h| && 0 <= k <= |h|
    ensures Sum(h[x := h[x] + 1][..k]) == Sum(h[..k]) + (if x < k then 1 else 0)
  {
    if k > 0 {
      SumIncrement(h, x, k - 1);
      assert h[x := h[x] + 1][..k][..k - 1] == h[x := h[x] + 1][..k - 1];
      assert h[..k][..k - 1] == h[..k - 1];
    }
  }

  /** The sum of the first k counts is the number of bytes below k. */
  lemma {:induction false} CountsPrefixSum(s: seq<uint8>, k: int)
    requires 0 <= k <= 256
    ensures Sum(Counts(s)[..k]) == CountBelow(s, k)
  {
    if |s| == 0 {
      ZeroPrefixSum(Counts(s), k);
    } else {
      var s', x := s[..|s| - 1], s[|s| - 1];
      CountsPrefixSum(s', k);
      SumIncrement(Counts(s'), x as int, k);
    }
  }

  lemma {:induction false} ZeroPrefixSum(h: seq<int>, k: int)
    requires 0 <= k <= |h| && forall v | 0 <= v < |h| :: h[v] == 0
    ensures Sum(h[..k]) == 0
  {
    if k > 0 {
      assert h[..k][..k - 1] == h[..k - 1];
      ZeroPrefixSum(h, k - 1);
    }
  }

  lemma {:induction false} CountBelowAtMostSize(s: seq<uint8>, k: int)
    ensures CountBelow(s, k) <= |s|
  {
    if |s| > 0 {
      CountBelowAtMostSize(s[..|s| - 1], k);
    }
  }

  lemma {:induction false} CountBelowAll(s: seq<uint8>, k: int)
    requires forall x | x in s :: (x as int) < k
    ensures CountBelow(s, k) == |s|
  {
    if |s| > 0 {
      var s' := s[..|s| - 1];
      forall x | x in s'
        ensures (x as int) < k
      {
        assert x in s;
      }
      CountBelowAll(s', k);
      assert s[|s| - 1] in s;
    }
  }

  lemma {:induction false} CountBelowMonotone(s: seq<uint8>, k: int, k': int)
    requires k <= k'
    ensures CountBelow(s, k) <= CountBelow(s, k')
  {
    if |s| > 0 {
      CountBelowMonotone(s[..|s| - 1], k, k');
    }
  }

  /** `cdf[v]` counts the bytes read whose value is at most v. */
  lemma CumulativeCounts(img: Image, v: int)
    requires img.Valid() && 0 <= v < 256
    ensures Cumulative(Hist(img), v) == CountBelow(Sample(img), v + 1)
  {
    CountsPrefixSum(Sample(img), v + 1);
  }

  /** The histogram accounts for every byte read: its 256 bins sum to `total`. */
  lemma HistogramTotal(img: Image)
    requires img.Valid()
    ensures Sum(Hist(img)) == Total(img)
  {
    var s := Sample(img);
    CountsPrefixSum(s, 256);
    assert Counts(s)[..256] == Counts(s);
    CountBelowAll(s, 256);
    SampleSize(img);
  }

  /** The cumulative distribution never decreases, never exceeds `total`, and reaches it. */
  lemma CumulativeShape(img: Image, u: int, v: int)
    requires img.Valid() && 0 <= u <= v < 256
    ensures 0 <= Cumulative(Hist(img), u) <= Cumulative(Hist(img), v) <= Total(img)
    ensures Cumulative(Hist(img), 255) == Total(img)
  {
    CumulativeCounts(img, u);
    CumulativeCounts(img, v);
    CumulativeCounts(img, 255);
    CountBelowMonotone(Sample(img), u + 1, v + 1);
    CountBelowAtMostSize(Sample(img), v + 1);
    CountBelowAll(Sample(img), 256);
    SampleSize(img);
  }

  /** When no byte read exceeds m, `cdf[m]` is `total`. */
  lemma CumulativeAtMaximum(img: Image, m: int)
    requires img.Valid() && 0 <= m < 256
    requires forall x | x in Sample(img) :: (x as int) <= m
    ensures Cumulative(Hist(img), m) == Total(img)
  {
    CumulativeCounts(img, m);
    CountBelowAll(Sample(img), m + 1);
    SampleSize(img);
  }

  /** Reading byte j of a row adds one to its bin. */
  lemma CountsStep(before: seq<uint8>, row: seq<uint8>, j: int)
    requires 0 <= j < |row|
    ensures Counts(before + row[..j + 1]) ==
      Counts(before + row[..j])[row[j] as int := Counts(before + row[..j])[row[j]] + 1]
  {
    assert (before + row[..j + 1])[..|before| + j] == before + row[..j];
  }

  /** The first loop nest of manualEqualizeHist (pixel_imp.cpp:91-95): count every byte read. */
  method ComputeHistogram(img: Image) returns (hist: array<int>)
    requires img.Valid()
    ensures fresh(hist) && hist[..] == Hist(img)
  {
    hist := new int[256](v => 0);
    assert hist[..] == Counts([]);
    for i := 0 to img.rows
      invariant hist[..] == Counts(SampleRows(img, i))
    {
      assert SampleRows(img, i) + img.data[i][..0] == SampleRows(img, i);
      for j := 0 to img.cols
        invariant hist[..] == Counts(SampleRows(img, i) + img.data[i][..j])
      {
        CountsStep(SampleRows(img, i), img.data[i], j);
        hist[img.data[i][j]] := hist[img.data[i][j]] + 1;
      }
    }
  }

  /** The second loop of manualEqualizeHist (pixel_imp.cpp:97-100): running sums of the
      histogram, kept in `float` in the source and exactly here. */
  method AccumulateCdf(hist: array<int>) returns (cdf: array<real>)
    requires hist.Length == 256
    ensures fresh(cdf) && cdf[..] == Cdf(hist[..])
  {
    cdf := new real[256](v => 0.0);
    cdf[0] := hist[0] as real;
    CumulativeFirst(hist[..]);
    for i := 1 to 256
      invariant forall v | 0 <= v < i :: cdf[v] == Cumulative(hist[..], v) as real
    {
      assert hist[..][..i + 1][..i] == hist[..][..i];
      cdf[i] := cdf[i - 1] + hist[i] as real;
    }
  }
}
