/**
 The clipping stage, `manualClip`: drop a 10-pixel margin on every side. An image whose
 width or height would become zero or negative is returned unchanged (after an error
 message on the standard error stream, which is not modelled).
 */
module Clip {
  import opened Images

  /** The margin removed from each of the four borders. */
  const Margin: nat := 10

  /** The source's refusal condition: `width <= 0 || height <= 0` for width = cols - 20 and
      height = rows - 20. */
  predicate TooSmall(img: Image) {
    img.cols - 2 * Margin <= 0 || img.rows - 2 * Margin <= 0
  }

  /** The clipped image: row i is the window of row 10 + i that starts at pixel 10 and holds
      cols - 20 pixels; a too-small image is its own result. */
  function Clipped(img: Image): (r: Image)
    requires img.Valid()
  {
    if TooSmall(img) then img
    else
      var ch := img.channels;
      Image(img.rows - 2 * Margin, img.cols - 2 * Margin, ch,
        seq(img.rows - 2 * Margin, i requires 0 <= i < img.rows - 2 * Margin =>
          img.data[Margin + i][Margin * ch .. Margin * ch + (img.cols - 2 * Margin) * ch]))
  }

  /** Pixel (i, j) of a clipped image is pixel (10 + i, 10 + j) of the input, channel by
      channel. */
  lemma ClippedAt(img: Image, i: int, j: int, c: int)
    requires img.Valid() && !TooSmall(img)
    requires 0 <= i < img.rows - 2 * Margin && 0 <= j < img.cols - 2 * Margin && 0 <= c < img.channels
    ensures Clipped(img).Valid()
    ensures At(Clipped(img), i, j, c) == At(img, Margin + i, Margin + j, c)
  {
    ClipChangesIffLarge(img);
    var ch := img.channels;
    PixelInRow(j, c, img.cols - 2 * Margin, ch);
    MarginOffset(j, c, ch);
    var row := img.data[Margin + i][Margin * ch .. Margin * ch + (img.cols - 2 * Margin) * ch];
    assert Clipped(img).data[i] == row;
    assert row[j * ch + c] == img.data[Margin + i][(Margin + j) * ch + c];
  }

  /** Byte j * ch + c of a row that starts at pixel 10 is byte (10 + j) * ch + c of the input. */
  lemma MarginOffset(j: int, c: int, ch: int)
    ensures Margin * ch + (j * ch + c) == (Margin + j) * ch + c
  {
  }

  /** Clipping changes the image exactly when it is large enough: the result shrinks by 20
      pixels in each direction, and otherwise it is the input itself. */
  lemma ClipChangesIffLarge(img: Image)
    requires img.Valid()
    ensures Clipped(img).Valid()
    ensures Clipped(img) == img <==> TooSmall(img)
    ensures !TooSmall(img) ==>
      Clipped(img).rows == img.rows - 2 * Margin && Clipped(img).cols == img.cols - 2 * Margin
  {
    if !TooSmall(img) {
      var r := Clipped(img);
      forall i | 0 <= i < r.rows
        ensures |r.data[i]| == r.cols * r.channels
      {
        PixelInRow(img.cols - 2 * Margin - 1, img.channels - 1, img.cols - 2 * Margin, img.channels);
        assert Margin * img.channels + (img.cols - 2 * Margin) * img.channels == img.cols * img.channels - Margin * img.channels;
      }
      assert r.rows != img.rows;
    }
  }

  /** Clipping twice removes a 20-pixel margin: pixel (i, j) of the twice-clipped image is
      pixel (20 + i, 20 + j) of the input. */
  lemma ClipTwice(img: Image, i: int, j: int, c: int)
    requires img.Valid() && img.rows > 4 * Margin && img.cols > 4 * Margin
    requires 0 <= i < img.rows - 4 * Margin && 0 <= j < img.cols - 4 * Margin && 0 <= c < img.channels
    ensures Clipped(img).Valid() && !TooSmall(Clipped(img)) && Clipped(Clipped(img)).Valid()
    ensures At(Clipped(Clipped(img)), i, j, c) == At(img, 2 * Margin + i, 2 * Margin + j, c)
  {
    ClipChangesIffLarge(img);
    ClipChangesIffLarge(Clipped(img));
    ClippedAt(Clipped(img), i, j, c);
    ClippedAt(img, Margin + i, Margin + j, c);
  }

  /** Clipped is determined by its bytes: a large enough image's clipping is any image of
      the clipped shape whose row i holds bytes 10 * channels onwards of row 10 + i. */
  lemma ClippedBytes(img: Image, r: Image)
    requires img.Valid() && !TooSmall(img) && r.Valid()
    requires r.rows == img.rows - 2 * Margin && r.cols == img.cols - 2 * Margin
    requires r.channels == img.channels
    requires forall i, b | 0 <= i < r.rows && 0 <= b < r.cols * r.channels ::
      r.data[i][b] == img.data[Margin + i][Margin * img.channels + b]
    ensures r == Clipped(img)
  {
    ClipChangesIffLarge(img);
    var s := Clipped(img);
    forall i | 0 <= i < r.rows
      ensures r.data[i] == s.data[i]
    {
    }
  }

  /** The inner loop of manualClip (pixel_imp.cpp:77-84): copy the width inner pixels of
      row 10 + i into row i of `clipped`, byte by byte for one channel and as three-byte
      pixels for three. */
  method CopyRow(img: Image, clipped: array2<uint8>, i: int)
    requires img.Valid() && !TooSmall(img) && 0 <= i < img.rows - 2 * Margin
    requires clipped.Length0 == img.rows - 2 * Margin && clipped.Length1 == (img.cols - 2 * Margin) * img.channels
    modifies clipped
    ensures forall i', b | 0 <= i' < clipped.Length0 && 0 <= b < clipped.Length1 ::
      clipped[i', b] == if i' == i then img.data[Margin + i][Margin * img.channels + b] else old(clipped[i', b])
  {
    var x, y, ch := 10, 10, img.channels;
    var width := img.cols - 20;
    for j := 0 to width
      invariant forall i', b | 0 <= i' < clipped.Length0 && i' != i && 0 <= b < clipped.Length1 ::
        clipped[i', b] == old(clipped[i', b])
      invariant ch == 1 ==> forall b | 0 <= b < width ::
        clipped[i, b] == if b < j then img.data[Margin + i][Margin + b] else old(clipped[i, b])
      invariant ch == 3 ==> forall b | 0 <= b < 3 * width ::
        clipped[i, b] == if b < 3 * j then img.data[Margin + i][3 * Margin + b] else old(clipped[i, b])
    {
      if ch == 1 {
        clipped[i, j] := img.data[y + i][x + j];
      } else if ch == 3 {
        clipped[i, 3 * j], clipped[i, 3 * j + 1], clipped[i, 3 * j + 2] :=
          At(img, y + i, x + j, 0), At(img, y + i, x + j, 1), At(img, y + i, x + j, 2);
      }
    }
  }

  /** manualClip (pixel_imp.cpp:63-87): return the input when it is too small, otherwise
      copy the inner (rows - 20) x (cols - 20) pixels row by row. */
  method ManualClip(img: Image) returns (clipped: Image)
    requires img.Valid()
    ensures clipped.Valid() && clipped.channels == img.channels
    ensures TooSmall(img) ==> clipped == img
    ensures !TooSmall(img) ==>
      && clipped.rows == img.rows - 2 * Margin && clipped.cols == img.cols - 2 * Margin
      && forall i, j, c | 0 <= i < clipped.rows && 0 <= j < clipped.cols && 0 <= c < img.channels ::
           At(clipped, i, j, c) == At(img, Margin + i, Margin + j, c)
    ensures clipped == Clipped(img)
  {
    var width, height := img.cols - 20, img.rows - 20;
    if width <= 0 || height <= 0 {
      return img;
    }
    var ch := img.channels;
    var out := new uint8[height, width * ch];
    for i := 0 to height
      invariant forall i', b | 0 <= i' < i && 0 <= b < width * ch ::
        out[i', b] == img.data[Margin + i'][Margin * ch + b]
    {
      CopyRow(img, out, i);
    }
    clipped := Image(height, width, ch, Rows(out));
    ClippedBytes(img, clipped);
    forall i, j, c | 0 <= i < height && 0 <= j < width && 0 <= c < ch
      ensures At(clipped, i, j, c) == At(img, Margin + i, Margin + j, c)
    {
      ClippedAt(img, i, j, c);
    }
  }
}
