/**
 The grayscale converter, `manualGrayscale`: a 3-channel B, G, R image becomes a
 single-channel image of truncated luma 0.299 R + 0.587 G + 0.114 B. The weights are
 kept as exact thousandths, so the truncation is integer division by 1000.
 */
module Grayscale {
  import opened Images

  /** Truncated luma of one pixel given in the buffer's B, G, R order. */
  function Luma(b: uint8, g: uint8, r: uint8): (y: uint8)
    ensures 1000 * (y as int) <= 114 * (b as int) + 587 * (g as int) + 299 * (r as int)
    ensures 114 * (b as int) + 587 * (g as int) + 299 * (r as int) < 1000 * (y as int + 1)
  {
    ((114 * (b as int) + 587 * (g as int) + 299 * (r as int)) / 1000) as uint8
  }

  /** The weights sum to one, so the luma lies between the darkest and the brightest channel,
      and a pixel whose three channels agree keeps that value. */
  lemma LumaBetweenChannels(b: uint8, g: uint8, r: uint8, lo: uint8, hi: uint8)
    requires lo <= b <= hi && lo <= g <= hi && lo <= r <= hi
    ensures lo <= Luma(b, g, r) <= hi
  {
    var s := 114 * (b as int) + 587 * (g as int) + 299 * (r as int);
    assert 1000 * (lo as int) <= s <= 1000 * (hi as int);
  }

  /** Luma is monotone in each channel: brightening any channel never darkens the result. */
  lemma LumaMonotone(b: uint8, g: uint8, r: uint8, b': uint8, g': uint8, r': uint8)
    requires b <= b' && g <= g' && r <= r'
    ensures Luma(b, g, r) <= Luma(b', g', r')
  {
    var s := 114 * (b as int) + 587 * (g as int) + 299 * (r as int);
    var s' := 114 * (b' as int) + 587 * (g' as int) + 299 * (r' as int);
    assert s <= s';
  }

  /** The pixel (B = 10, G = 20, R = 30) becomes 21: 1.14 + 11.74 + 8.97 = 21.85, truncated. */
  lemma LumaOfSample()
    ensures Luma(10, 20, 30) == 21
  {
    assert 114 * 10 + 587 * 20 + 299 * 30 == 21850;
  }

  /** The converted image: pixel (i, j) is the luma of the three channels of input pixel (i, j). */
  function Grayscale(img: Image): Image
    requires img.Valid() && img.channels == 3
  {
    Image(img.rows, img.cols, 1,
      seq(img.rows, i requires 0 <= i < img.rows =>
        seq(img.cols, j requires 0 <= j < img.cols =>
          Luma(At(img, i, j, 0), At(img, i, j, 1), At(img, i, j, 2)))))
  }

  /** manualGrayscale (pixel_imp.cpp:11-20): allocate a single-channel buffer and store the
      luma of every pixel, row by row. */
  method ManualGrayscale(img: Image) returns (gray: Image)
    requires img.Valid() && img.channels == 3
    ensures gray.Valid() && gray.rows == img.rows && gray.cols == img.cols && gray.channels == 1
    ensures forall i, j | 0 <= i < img.rows && 0 <= j < img.cols ::
      gray.data[i][j] == Luma(At(img, i, j, 0), At(img, i, j, 1), At(img, i, j, 2))
    ensures gray == Grayscale(img)
  {
    var rows, cols := img.rows, img.cols;
    var out := new uint8[rows, cols];
    for i := 0 to rows
      invariant forall i', j' | 0 <= i' < i && 0 <= j' < cols ::
        out[i', j'] == Luma(At(img, i', j', 0), At(img, i', j', 1), At(img, i', j', 2))
    {
      for j := 0 to cols
        invariant forall i', j' | 0 <= i' < i && 0 <= j' < cols ::
          out[i', j'] == Luma(At(img, i', j', 0), At(img, i', j', 1), At(img, i', j', 2))
        invariant forall j' | 0 <= j' < j ::
          out[i, j'] == Luma(At(img, i, j', 0), At(img, i, j', 1), At(img, i, j', 2))
      {
        out[i, j] := Luma(At(img, i, j, 0), At(img, i, j, 1), At(img, i, j, 2));
      }
    }
    gray := Image(rows, cols, 1, Rows(out));
    forall i | 0 <= i < rows
      ensures gray.data[i] == Grayscale(img).data[i]
    {
    }
  }
}
