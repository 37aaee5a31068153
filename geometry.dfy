/**
 The two geometric stages, `manualRotate90Clockwise` and `manualFlipVertical`.
 Both address the image through `at<uchar>`, so they move the first `cols` bytes of
 every row; on a single-channel image that is every pixel.
 */
module Geometry {
  import opened Images

  /** The clockwise quarter turn of a single-channel image: pixel (i, j) lands on
      (j, rows - 1 - i), so the result has the dimensions swapped. */
  function Rotated90(img: Image): Image
    requires img.Valid() && img.channels == 1
  {
    Image(img.cols, img.rows, 1,
      seq(img.cols, r requires 0 <= r < img.cols =>
        seq(img.rows, c requires 0 <= c < img.rows => img.data[img.rows - 1 - c][r])))
  }

  /** The upside-down mirror image of a single-channel image: row i becomes row rows - 1 - i. */
  function Flipped(img: Image): Image
    requires img.Valid() && img.channels == 1
  {
    Image(img.rows, img.cols, 1, seq(img.rows, i requires 0 <= i < img.rows => img.data[img.rows - 1 - i]))
  }

  /** Each pixel of the turned image, stated from the source pixel. */
  lemma RotatedAt(img: Image, i: int, j: int)
    requires img.Valid() && img.channels == 1 && 0 <= i < img.rows && 0 <= j < img.cols
    ensures Rotated90(img).Valid()
    ensures At(Rotated90(img), j, img.rows - 1 - i, 0) == At(img, i, j, 0)
  {
  }

  /** Each pixel of the mirrored image, stated from the source pixel. */
  lemma FlippedAt(img: Image, i: int, j: int)
    requires img.Valid() && img.channels == 1 && 0 <= i < img.rows && 0 <= j < img.cols
    ensures Flipped(img).Valid()
    ensures At(Flipped(img), img.rows - 1 - i, j, 0) == At(img, i, j, 0)
  {
  }

  /** Four clockwise quarter turns give back the original image. */
  lemma RotateFourTimes(img: Image)
    requires img.Valid() && img.channels == 1
    ensures Rotated90(Rotated90(Rotated90(Rotated90(img)))) == img
  {
    var r1 := Rotated90(img);
    var r2 := Rotated90(r1);
    var r3 := Rotated90(r2);
    var r4 := Rotated90(r3);
    forall i, j, c | 0 <= i < img.rows && 0 <= j < img.cols && 0 <= c < 1
      ensures At(r4, i, j, c) == At(img, i, j, c)
    {
      RotatedAt(img, i, j);
      RotatedAt(r1, j, img.rows - 1 - i);
      RotatedAt(r2, img.rows - 1 - i, img.cols - 1 - j);
      RotatedAt(r3, img.cols - 1 - j, i);
    }
    Extensionality(r4, img);
  }

  /** Mirroring twice gives back the original image. */
  lemma FlipTwice(img: Image)
    requires img.Valid() && img.channels == 1
    ensures Flipped(Flipped(img)) == img
  {
    var f2 := Flipped(Flipped(img));
    forall i, j, c | 0 <= i < img.rows && 0 <= j < img.cols && 0 <= c < 1
      ensures At(f2, i, j, c) == At(img, i, j, c)
    {
      FlippedAt(img, i, j);
      FlippedAt(Flipped(img), img.rows - 1 - i, j);
    }
    Extensionality(f2, img);
  }

  /** manualRotate90Clockwise (pixel_imp.cpp:23-29). The new Mat has the source's type,
      so a three-channel result has bytes the loop never writes; only the written bytes
      are determined, and for one channel they are the whole turned image. */
  method ManualRotate90Clockwise(img: Image) returns (r: Image)
    requires img.Valid()
    ensures r.Valid() && r.rows == img.cols && r.cols == img.rows && r.channels == img.channels
    ensures forall i, j | 0 <= i < img.rows && 0 <= j < img.cols ::
      r.data[j][img.rows - 1 - i] == img.data[i][j]
    ensures img.channels == 1 ==> r == Rotated90(img)
  {
    var rows, cols, ch := img.rows, img.cols, img.channels;
    var out := new uint8[cols, rows * ch];
    for i := 0 to rows
      invariant forall i', j' | 0 <= i' < i && 0 <= j' < cols :: out[j', rows - 1 - i'] == img.data[i'][j']
    {
      for j := 0 to cols
        invariant forall i', j' | 0 <= i' < i && 0 <= j' < cols :: out[j', rows - 1 - i'] == img.data[i'][j']
        invariant forall j' | 0 <= j' < j :: out[j', rows - 1 - i] == img.data[i][j']
      {
        out[j, rows - 1 - i] := img.data[i][j];
      }
    }
    r := Image(cols, rows, ch, Rows(out));
    if ch == 1 {
      forall j | 0 <= j < cols
        ensures r.data[j] == Rotated90(img).data[j]
      {
        forall c | 0 <= c < rows
          ensures r.data[j][c] == img.data[rows - 1 - c][j]
        {
          assert out[j, rows - 1 - (rows - 1 - c)] == img.data[rows - 1 - c][j];
        }
      }
    }
  }

  /** manualFlipVertical (pixel_imp.cpp:32-38), with the same caveat on three channels. */
  method ManualFlipVertical(img: Image) returns (r: Image)
    requires img.Valid()
    ensures r.Valid() && r.rows == img.rows && r.cols == img.cols && r.channels == img.channels
    ensures forall i, j | 0 <= i < img.rows && 0 <= j < img.cols ::
      r.data[img.rows - 1 - i][j] == img.data[i][j]
    ensures img.channels == 1 ==> r == Flipped(img)
  {
    var rows, cols, ch := img.rows, img.cols, img.channels;
    var out := new uint8[rows, cols * ch];
    for i := 0 to rows
      invariant forall i', j' | 0 <= i' < i && 0 <= j' < cols :: out[rows - 1 - i', j'] == img.data[i'][j']
    {
      for j := 0 to cols
        invariant forall i', j' | 0 <= i' < i && 0 <= j' < cols :: out[rows - 1 - i', j'] == img.data[i'][j']
        invariant forall j' | 0 <= j' < j :: out[rows - 1 - i, j'] == img.data[i][j']
      {
        out[rows - 1 - i, j] := img.data[i][j];
      }
    }
    r := Image(rows, cols, ch, Rows(out));
    if ch == 1 {
      forall i | 0 <= i < rows
        ensures r.data[i] == Flipped(img).data[i]
      {
        assert forall j | 0 <= j < cols :: r.data[i][j] == img.data[rows - 1 - i][j];
      }
    }
  }
}
