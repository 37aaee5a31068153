/**
 The normalising half of `manualEqualizeHist`: the cumulative distribution is rescaled in
 place to the range 0 .. 255, then every byte read is replaced by the truncated entry for
 its value. `float` arithmetic is taken to be exact.

 The rescaling loop subtracts `cdf[0]` from every entry, but it reads `cdf[0]` from the
 array it is overwriting: the first iteration sets `cdf[0]` to 0, so every later entry has
 nothing subtracted. `LevelsAsWritten` models that; `LevelsIntended` subtracts the original
 `cdf[0]`, as the formula evidently means.
 */
module Equalize {
  import opened Images
  import opened Histogram

  /** `(c - base) / (total - 1) * 255`: one entry of the rescaling loop. */
  function Normalized(c: real, base: real, total: int): real
    requires total != 1
  {
    (c - base) / ((total - 1) as real) * 255.0
  }

  /** The table the rescaling loop leaves behind as written: entry 0 is rescaled against
      itself, and every later entry against the already rescaled entry 0. */
  function LevelsAsWritten(cdf: seq<real>, total: int): (lut: seq<real>)
    requires |cdf| == 256 && total != 1
    ensures |lut| == 256
  {
    var base := Normalized(cdf[0], cdf[0], total);
    seq(256, v requires 0 <= v < 256 => if v == 0 then base else Normalized(cdf[v], base, total))
  }

  /** The evidently intended table: every entry rescaled against the original `cdf[0]`. */
  function LevelsIntended(cdf: seq<real>, total: int): (lut: seq<real>)
    requires |cdf| == 256 && total != 1
    ensures |lut| == 256
  {
    seq(256, v requires 0 <= v < 256 => Normalized(cdf[v], cdf[0], total))
  }

  /** `static_cast<uchar>` is defined on an entry iff it truncates into 0 .. 255; the tables
      are never negative, so this asks for 0 <= entry < 256 at every byte the loop casts. */
  predicate Fits(lut: seq<real>, img: Image)
    requires img.Valid() && |lut| == 256
  {
    forall i, j | 0 <= i < img.rows && 0 <= j < img.cols :: 0.0 <= lut[img.data[i][j]] < 256.0
  }

  /** The clone with every byte read replaced by its truncated table entry. */
  function Mapped(img: Image, lut: seq<real>): Image
    requires img.Valid() && |lut| == 256 && Fits(lut, img)
  {
    Image(img.rows, img.cols, img.channels,
      seq(img.rows, i requires 0 <= i < img.rows =>
        seq(img.cols * img.channels, b requires 0 <= b < img.cols * img.channels =>
          if b < img.cols then lut[img.data[i][b]].Floor as uint8 else img.data[i][b])))
  }

  /** The table manualEqualizeHist builds for img. */
  function TableAsWritten(img: Image): (lut: seq<real>)
    requires img.Valid() && Total(img) != 1
    ensures |lut| == 256
  {
    LevelsAsWritten(Cdf(Hist(img)), Total(img))
  }

  function TableIntended(img: Image): (lut: seq<real>)
    requires img.Valid() && Total(img) != 1
    ensures |lut| == 256
  {
    LevelsIntended(Cdf(Hist(img)), Total(img))
  }

  /** manualEqualizeHist has defined behaviour on img: `total - 1` is not zero and every
      cast is in range. */
  predicate Defined(img: Image)
    requires img.Valid()
  {
    Total(img) != 1 && Fits(TableAsWritten(img), img)
  }

  predicate DefinedIntended(img: Image)
    requires img.Valid()
  {
    Total(img) != 1 && Fits(TableIntended(img), img)
  }

  /** The image manualEqualizeHist returns. */
  function Equalized(img: Image): Image
    requires img.Valid() && Defined(img)
  {
    Mapped(img, TableAsWritten(img))
  }

  /** The image the intended formula gives. */
  function EqualizedIntended(img: Image): Image
    requires img.Valid() && DefinedIntended(img)
  {
    Mapped(img, TableIntended(img))
  }

  /** Mapped is determined by its bytes. */
  lemma MappedBytes(img: Image, lut: seq<real>, r: Image)
    requires img.Valid() && |lut| == 256 && Fits(lut, img) && r.Valid()
    requires r.rows == img.rows && r.cols == img.cols && r.channels == img.channels
    requires forall i, b | 0 <= i < img.rows && 0 <= b < img.cols * img.channels ::
      r.data[i][b] == if b < img.cols then lut[img.data[i][b]].Floor as uint8 else img.data[i][b]
    ensures r == Mapped(img, lut)
  {
    forall i | 0 <= i < img.rows
      ensures r.data[i] == Mapped(img, lut).data[i]
    {
    }
  }

  /** Multiplying by a positive number keeps the sign. */
  lemma SignOfProduct(a: real, d: real)
    requires d > 0.0
    ensures a * d > 0.0 <==> a > 0.0
    ensures a * d >= 0.0 <==> a >= 0.0
  {
  }

  /** `x / d * 255` for a count x and a positive divisor d is never negative, is below 256
      exactly when 255 x < 256 d, and reaches 255 once x >= d. */
  lemma Scaled(x: int, d: int)
    requires 0 <= x && 0 < d
    ensures 0.0 <= (x as real) / (d as real) * 255.0
    ensures (x as real) / (d as real) * 255.0 < 256.0 <==> 255 * x < 256 * d
    ensures x >= d ==> (x as real) / (d as real) * 255.0 >= 255.0
  {
    var q, dr := (x as real) / (d as real), d as real;
    assert q * dr == x as real;
    ScaledBelow256(q, x, dr);
    ScaledReaches255(q, x, dr);
  }

  lemma ScaledBelow256(q: real, x: int, d: real)
    requires 0 <= x && d > 0.0 && q * d == x as real
    ensures 0.0 <= q * 255.0
    ensures q * 255.0 < 256.0 <==> 255.0 * (x as real) < 256.0 * d
  {
    SignOfProduct(q, d);
    SignOfProduct(256.0 - 255.0 * q, d);
    assert (256.0 - 255.0 * q) * d == 256.0 * d - 255.0 * (x as real);
  }

  lemma ScaledReaches255(q: real, x: int, d: real)
    requires 0 <= x && d > 0.0 && q * d == x as real
    ensures x as real >= d ==> q * 255.0 >= 255.0
  {
    SignOfProduct(q - 1.0, d);
    assert (q - 1.0) * d == (x as real) - d;
  }

  /** Scaling by the same divisor keeps order. */
  lemma ScaledMonotone(x: int, y: int, d: int)
    requires 0 <= x <= y && 0 < d
    ensures (x as real) / (d as real) * 255.0 <= (y as real) / (d as real) * 255.0
  {
    var p, q, dr := (x as real) / (d as real), (y as real) / (d as real), d as real;
    assert p * dr == x as real && q * dr == y as real;
    SignOfProduct(q - p, dr);
    assert (q - p) * dr == (y as real) - (x as real);
  }

  /** What the source's table holds: entry 0 is 0, and every other entry v is
      cdf[v] / (total - 1) * 255 with nothing subtracted. */
  lemma TableAsWrittenEntries(img: Image, v: int)
    requires img.Valid() && Total(img) != 1 && 0 <= v < 256
    ensures TableAsWritten(img)[v] ==
      if v == 0 then 0.0 else (Cumulative(Hist(img), v) as real) / ((Total(img) - 1) as real) * 255.0
  {
    var c0 := Cdf(Hist(img))[0];
    assert c0 - c0 == 0.0;
    assert Normalized(c0, c0, Total(img)) == 0.0;
  }

  /** The intended table: entry v is (cdf[v] - hist[0]) / (total - 1) * 255. */
  lemma TableIntendedEntries(img: Image, v: int)
    requires img.Valid() && Total(img) != 1 && 0 <= v < 256
    ensures TableIntended(img)[v] ==
      ((Cumulative(Hist(img), v) - Hist(img)[0]) as real) / ((Total(img) - 1) as real) * 255.0
  {
    CumulativeFirst(Hist(img));
  }

  /** An image with no pixels has nothing to cast. */
  lemma EmptyFits(img: Image, lut: seq<real>)
    requires img.Valid() && |lut| == 256 && Total(img) == 0
    ensures Fits(lut, img)
  {
    assert img.rows == 0 || img.cols == 0;
  }

  /** With at least two pixels, the source's casts are all in range when there are more
      than 256 pixels or every byte read is 0. */
  lemma AsWrittenFits(img: Image)
    requires img.Valid() && Total(img) >= 2
    requires Total(img) > 256 || forall x | x in Sample(img) :: x == 0
    ensures Fits(TableAsWritten(img), img)
  {
    var t, lut := Total(img), TableAsWritten(img);
    forall i, j | 0 <= i < img.rows && 0 <= j < img.cols
      ensures 0.0 <= lut[img.data[i][j]] < 256.0
    {
      var x := img.data[i][j];
      SampledIn(img, i, j);
      TableAsWrittenEntries(img, x as int);
      if x != 0 {
        CumulativeShape(img, x as int, x as int);
        Scaled(Cumulative(Hist(img), x as int), t - 1);
      }
    }
  }

  /** With 2 .. 256 pixels and some byte read not 0, the brightest byte m has cdf[m] = total
      and is mapped to total * 255 / (total - 1) >= 256. */
  lemma AsWrittenOverflows(img: Image, x: uint8)
    requires img.Valid() && 2 <= Total(img) <= 256 && x in Sample(img) && x != 0
    ensures !Fits(TableAsWritten(img), img)
  {
    var t, lut := Total(img), TableAsWritten(img);
    var m := MaxOf(Sample(img));
    SampledFrom(img, m);
    CumulativeAtMaximum(img, m as int);
    TableAsWrittenEntries(img, m as int);
    Scaled(t, t - 1);
    assert !(0.0 <= lut[m] < 256.0);
  }

  /** manualEqualizeHist is defined exactly on images with other than one pixel whose
      bytes read are all 0 or that have more than 256 pixels. */
  lemma DefinedIff(img: Image)
    requires img.Valid()
    ensures Defined(img) <==> Total(img) != 1 && (Total(img) > 256 || forall x | x in Sample(img) :: x == 0)
  {
    var t := Total(img);
    SampleSize(img);
    if t == 0 {
      EmptyFits(img, TableAsWritten(img));
    } else if t >= 2 {
      if t > 256 || forall x | x in Sample(img) :: x == 0 {
        AsWrittenFits(img);
      } else {
        var x :| x in Sample(img) && x != 0;
        AsWrittenOverflows(img, x);
      }
    }
  }

  /** With at least two pixels, the intended casts are all in range when some byte read is
      0 or there are more than 256 pixels. */
  lemma IntendedFits(img: Image)
    requires img.Valid() && Total(img) >= 2 && (Hist(img)[0] > 0 || Total(img) > 256)
    ensures Fits(TableIntended(img), img)
  {
    var t, lut, h0 := Total(img), TableIntended(img), Hist(img)[0];
    CumulativeFirst(Hist(img));
    forall i, j | 0 <= i < img.rows && 0 <= j < img.cols
      ensures 0.0 <= lut[img.data[i][j]] < 256.0
    {
      var x := img.data[i][j];
      TableIntendedEntries(img, x as int);
      CumulativeShape(img, 0, x as int);
      Scaled(Cumulative(Hist(img), x as int) - h0, t - 1);
    }
  }

  /** With 2 .. 256 pixels and no byte 0, the brightest byte is mapped to
      total * 255 / (total - 1) >= 256 by the intended formula too. */
  lemma IntendedOverflows(img: Image)
    requires img.Valid() && 2 <= Total(img) <= 256 && Hist(img)[0] == 0
    ensures !Fits(TableIntended(img), img)
  {
    var t, lut := Total(img), TableIntended(img);
    SampleSize(img);
    var m := MaxOf(Sample(img));
    SampledFrom(img, m);
    CumulativeAtMaximum(img, m as int);
    TableIntendedEntries(img, m as int);
    Scaled(t, t - 1);
    assert !(0.0 <= lut[m] < 256.0);
  }

  /** The intended formula is defined exactly on images with no pixel, or with more than
      one pixel and either some byte 0 or more than 256 pixels. */
  lemma DefinedIntendedIff(img: Image)
    requires img.Valid()
    ensures DefinedIntended(img) <==>
      Total(img) != 1 && (Total(img) == 0 || Hist(img)[0] > 0 || Total(img) > 256)
  {
    var t := Total(img);
    CountsOccurrences(Sample(img), 0);
    if t == 0 {
      EmptyFits(img, TableIntended(img));
    } else if t >= 2 {
      if Hist(img)[0] > 0 || t > 256 {
        IntendedFits(img);
      } else {
        IntendedOverflows(img);
      }
    }
  }

  /** The source's table never decreases from one value to the next. */
  lemma TableAsWrittenMonotone(img: Image, u: int, v: int)
    requires img.Valid() && Total(img) >= 2 && 0 <= u <= v < 256
    ensures 0.0 <= TableAsWritten(img)[u] <= TableAsWritten(img)[v]
  {
    var t := Total(img);
    TableAsWrittenEntries(img, u);
    TableAsWrittenEntries(img, v);
    CumulativeShape(img, u, v);
    Scaled(Cumulative(Hist(img), u), t - 1);
    Scaled(Cumulative(Hist(img), v), t - 1);
    if u != 0 {
      ScaledMonotone(Cumulative(Hist(img), u), Cumulative(Hist(img), v), t - 1);
    }
  }

  /** Neither does the intended table. */
  lemma TableIntendedMonotone(img: Image, u: int, v: int)
    requires img.Valid() && Total(img) >= 2 && 0 <= u <= v < 256
    ensures 0.0 <= TableIntended(img)[u] <= TableIntended(img)[v]
  {
    var t, h0 := Total(img), Hist(img)[0];
    CumulativeFirst(Hist(img));
    TableIntendedEntries(img, u);
    TableIntendedEntries(img, v);
    CumulativeShape(img, 0, u);
    CumulativeShape(img, u, v);
    Scaled(Cumulative(Hist(img), u) - h0, t - 1);
    ScaledMonotone(Cumulative(Hist(img), u) - h0, Cumulative(Hist(img), v) - h0, t - 1);
  }

  /** Equalisation keeps the brightness order of any two bytes it converts. */
  lemma EqualizedKeepsOrder(img: Image, i: int, j: int, i': int, j': int)
    requires img.Valid() && Defined(img)
    requires 0 <= i < img.rows && 0 <= j < img.cols && 0 <= i' < img.rows && 0 <= j' < img.cols
    requires img.data[i][j] <= img.data[i'][j']
    ensures Equalized(img).data[i][j] <= Equalized(img).data[i'][j']
  {
    assert img.rows >= 1 && img.cols >= 1;
    TableAsWrittenMonotone(img, img.data[i][j] as int, img.data[i'][j'] as int);
  }

  /** So does the intended formula. */
  lemma EqualizedIntendedKeepsOrder(img: Image, i: int, j: int, i': int, j': int)
    requires img.Valid() && DefinedIntended(img)
    requires 0 <= i < img.rows && 0 <= j < img.cols && 0 <= i' < img.rows && 0 <= j' < img.cols
    requires img.data[i][j] <= img.data[i'][j']
    ensures EqualizedIntended(img).data[i][j] <= EqualizedIntended(img).data[i'][j']
  {
    assert img.rows >= 1 && img.cols >= 1;
    TableIntendedMonotone(img, img.data[i][j] as int, img.data[i'][j'] as int);
  }

  /** Three black pixels and one of value 5. */
  const BlackMajority := Image(2, 2, 1, [[0, 0], [0, 5]])

  /** The bytes BlackMajority's loops read, and how many lie below k. */
  lemma BlackMajorityCounts(k: int)
    requires 1 <= k
    ensures BlackMajority.Valid() && Sample(BlackMajority) == [0, 0, 0, 5]
    ensures CountBelow(Sample(BlackMajority), k) == if 5 < k then 4 else 3
  {
    assert BlackMajority.data[0][..2] == [0, 0] && BlackMajority.data[1][..2] == [0, 5];
    assert SampleRows(BlackMajority, 0) == [];
    assert SampleRows(BlackMajority, 1) == [0, 0];
    assert SampleRows(BlackMajority, 2) == [0, 0, 0, 5];
    var s1: seq<uint8> := [0];
    var s2: seq<uint8> := [0, 0];
    var s3: seq<uint8> := [0, 0, 0];
    var s4: seq<uint8> := [0, 0, 0, 5];
    assert s1[..0] == [];
    assert CountBelow(s1, k) == 1;
    assert s2[..1] == s1;
    assert CountBelow(s2, k) == 2;
    assert s3[..2] == s2;
    assert CountBelow(s3, k) == 3;
    assert s4[..3] == s3;
  }

  /** As written, cdf[5] = 4 is rescaled against the overwritten cdf[0] = 0 to
      4 / 3 * 255 = 340, out of range for the cast. */
  lemma BlackMajorityAsWritten()
    ensures BlackMajority.Valid() && Total(BlackMajority) == 4
    ensures TableAsWritten(BlackMajority)[5] == 340.0
    ensures !Defined(BlackMajority)
  {
    BlackMajorityCounts(6);
    CumulativeCounts(BlackMajority, 5);
    TableAsWrittenEntries(BlackMajority, 5);
    DefinedIff(BlackMajority);
    assert 5 in Sample(BlackMajority);
  }

  /** Against the original cdf[0] = 3, cdf[5] = 4 becomes 1 / 3 * 255 = 85 and the black
      pixels stay 0. */
  lemma BlackMajorityIntended()
    ensures BlackMajority.Valid() && Total(BlackMajority) == 4
    ensures DefinedIntended(BlackMajority)
    ensures EqualizedIntended(BlackMajority).data == [[0, 0], [0, 85]]
  {
    var img := BlackMajority;
    BlackMajorityTableIntended();
    DefinedIntendedIff(img);
    var lut := TableIntended(img);
    var r := Image(2, 2, 1, [[0, 0], [0, 85]]);
    assert lut[img.data[0][0]] == 0.0 && lut[img.data[1][1]] == 85.0;
    MappedBytes(img, lut, r);
  }

  /** The intended table's entries for the two values BlackMajority holds. */
  lemma BlackMajorityTableIntended()
    ensures BlackMajority.Valid() && Total(BlackMajority) == 4
    ensures Hist(BlackMajority)[0] == 3
    ensures TableIntended(BlackMajority)[0] == 0.0 && TableIntended(BlackMajority)[5] == 85.0
  {
    var img := BlackMajority;
    BlackMajorityCounts(6);
    CumulativeCounts(img, 5);
    BlackMajorityCounts(1);
    CumulativeCounts(img, 0);
    CumulativeFirst(Hist(img));
    TableIntendedEntries(img, 5);
    TableIntendedEntries(img, 0);
  }

  /** An image whose bytes read all equal v: the source is defined on it iff v = 0 or it has
      more than 256 pixels, and then every byte read becomes 0 when v = 0 and 255 when v > 0. */
  lemma UniformImage(img: Image, v: uint8)
    requires img.Valid() && Total(img) >= 2
    requires forall i, j | 0 <= i < img.rows && 0 <= j < img.cols :: img.data[i][j] == v
    ensures Defined(img) <==> v == 0 || Total(img) > 256
    ensures Defined(img) ==> forall i, j | 0 <= i < img.rows && 0 <= j < img.cols ::
      Equalized(img).data[i][j] == if v == 0 then 0 else 255
  {
    var t := Total(img);
    assert img.rows >= 1 && img.cols >= 1;
    forall x | x in Sample(img)
      ensures x == v
    {
      SampledFrom(img, x);
    }
    SampledIn(img, 0, 0);
    DefinedIff(img);
    CumulativeAtMaximum(img, v as int);
    TableAsWrittenEntries(img, v as int);
    Scaled(t, t - 1);
  }

  /** Sixteen pixels of value 100: cdf[100] = 16 is rescaled to 16 / 15 * 255 = 272, so the
      cast is out of range and the result is undefined rather than all zeros. */
  lemma SixteenPixelsOf100()
    ensures Image(4, 4, 1, seq(4, i => seq(4, j => 100))).Valid()
    ensures !Defined(Image(4, 4, 1, seq(4, i => seq(4, j => 100))))
  {
    UniformImage(Image(4, 4, 1, seq(4, i => seq(4, j => 100))), 100);
  }

  /** The third loop of manualEqualizeHist (pixel_imp.cpp:102-103), in place and as written:
      it reads `cdf[0]` from the array it is updating. */
  method NormalizeAsWritten(cdf: array<real>, total: int)
    requires cdf.Length == 256 && total != 1
    modifies cdf
    ensures cdf[..] == LevelsAsWritten(old(cdf[..]), total)
  {
    ghost var c := cdf[..];
    for i := 0 to 256
      invariant forall v | 0 <= v < i :: cdf[v] == LevelsAsWritten(c, total)[v]
      invariant forall v | i <= v < 256 :: cdf[v] == c[v]
    {
      cdf[i] := (cdf[i] - cdf[0]) / ((total - 1) as real) * 255.0;
    }
  }

  /** The intended rescaling: `cdf[0]` is saved before the loop overwrites it. */
  method NormalizeIntended(cdf: array<real>, total: int)
    requires cdf.Length == 256 && total != 1
    modifies cdf
    ensures cdf[..] == LevelsIntended(old(cdf[..]), total)
  {
    ghost var c := cdf[..];
    var base := cdf[0];
    for i := 0 to 256
      invariant forall v | 0 <= v < i :: cdf[v] == LevelsIntended(c, total)[v]
      invariant forall v | i <= v < 256 :: cdf[v] == c[v]
    {
      cdf[i] := (cdf[i] - base) / ((total - 1) as real) * 255.0;
    }
  }

  /** The last loop nest of manualEqualizeHist (pixel_imp.cpp:105-109): clone, then replace
      byte j of every row, j < cols, by its truncated table entry. */
  method ApplyLevels(img: Image, lut: array<real>) returns (result: Image)
    requires img.Valid() && lut.Length == 256 && Fits(lut[..], img)
    ensures result == Mapped(img, lut[..])
  {
    var rows, cols, width := img.rows, img.cols, img.cols * img.channels;
    var out := new uint8[rows, width]((i, b) requires 0 <= i < rows && 0 <= b < width => img.data[i][b]);
    assert cols <= width;
    for i := 0 to rows
      invariant forall i', b | 0 <= i' < rows && 0 <= b < width ::
        out[i', b] == if i' < i && b < cols then lut[img.data[i'][b]].Floor as uint8 else img.data[i'][b]
    {
      for j := 0 to cols
        invariant forall i', b | 0 <= i' < rows && 0 <= b < width ::
          out[i', b] == if (i' < i || (i' == i && b < j)) && b < cols
            then lut[img.data[i'][b]].Floor as uint8 else img.data[i'][b]
      {
        out[i, j] := lut[img.data[i][j]].Floor as uint8;
      }
    }
    result := Image(rows, cols, img.channels, Rows(out));
    MappedBytes(img, lut[..], result);
  }

  /** manualEqualizeHist (pixel_imp.cpp:90-110), for images on which it is defined. */
  method ManualEqualizeHist(img: Image) returns (result: Image)
    requires img.Valid() && Defined(img)
    ensures result == Equalized(img)
  {
    var hist := ComputeHistogram(img);
    var total := img.rows * img.cols;
    var cdf := AccumulateCdf(hist);
    NormalizeAsWritten(cdf, total);
    result := ApplyLevels(img, cdf);
  }

  /** The same stages with the intended rescaling. */
  method ManualEqualizeHistIntended(img: Image) returns (result: Image)
    requires img.Valid() && DefinedIntended(img)
    ensures result == EqualizedIntended(img)
  {
    var hist := ComputeHistogram(img);
    var total := img.rows * img.cols;
    var cdf := AccumulateCdf(hist);
    NormalizeIntended(cdf, total);
    result := ApplyLevels(img, cdf);
  }
}
