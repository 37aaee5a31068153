/**
 The image buffer every stage consumes and produces: an OpenCV `Mat` of bytes seen as
 `rows` rows of `cols * channels` bytes each. Byte b of row i is what `at<uchar>(i, b)`
 reads; channel c of pixel (i, j) is byte j * channels + c of row i (`at<Vec3b>(i, j)[c]`).
 */
module Images {

  /** One stored intensity (OpenCV's `uchar`). A conversion `x as uint8` must be proved in
      range, as a C++ `static_cast<uchar>` of an out-of-range value is undefined. */
  newtype uint8 = x: int | 0 <= x < 256

  datatype Image = Image(rows: nat, cols: nat, channels: nat, data: seq<seq<uint8>>)
  {
    /** The buffer invariant: 1 or 3 channels, `rows` rows of exactly cols * channels bytes. */
    predicate Valid() {
      && (channels == 1 || channels == 3)
      && |data| == rows
      && forall i | 0 <= i < rows :: |data[i]| == cols * channels
    }
  }

  /** Channel c of pixel (i, j). */
  function At(img: Image, i: int, j: int, c: int): uint8
    requires img.Valid() && 0 <= i < img.rows && 0 <= j < img.cols && 0 <= c < img.channels
  {
    PixelInRow(j, c, img.cols, img.channels);
    img.data[i][j * img.channels + c]
  }

  /** `saturate_cast<uchar>` of an integer: clamp into [0, 255]. */
  function Saturate(x: int): (r: uint8)
    ensures 0 <= x <= 255 ==> r as int == x
    ensures x < 0 ==> r == 0
    ensures x > 255 ==> r == 255
  {
    if x < 0 then 0 else if x > 255 then 255 else x as uint8
  }

  /** The rows of a 2-D byte array, as an image's `data`. */
  function Rows(a: array2<uint8>): (s: seq<seq<uint8>>)
    reads a
    ensures |s| == a.Length0
    ensures forall i | 0 <= i < a.Length0 :: |s[i]| == a.Length1
    ensures forall i, b | 0 <= i < a.Length0 && 0 <= b < a.Length1 :: s[i][b] == a[i, b]
  {
    seq(a.Length0, i requires 0 <= i < a.Length0 reads a =>
      seq(a.Length1, b requires 0 <= b < a.Length1 reads a => a[i, b]))
  }

  /** The bytes of pixel j lie inside a row of cols pixels of ch bytes. */
  lemma PixelInRow(j: int, c: int, cols: int, ch: int)
    requires 0 <= j < cols && 0 <= c < ch
    ensures 0 <= j * ch + c < cols * ch
  {
    assert cols * ch - (j * ch + c) == (cols - j - 1) * ch + (ch - c);
    assert (cols - j - 1) * ch >= 0;
  }

  /** Two images with the same shape and the same value at every pixel and channel are equal. */
  lemma Extensionality(a: Image, b: Image)
    requires a.Valid() && b.Valid()
    requires a.rows == b.rows && a.cols == b.cols && a.channels == b.channels
    requires forall i, j, c | 0 <= i < a.rows && 0 <= j < a.cols && 0 <= c < a.channels ::
      At(a, i, j, c) == At(b, i, j, c)
    ensures a == b
  {
    var ch := a.channels;
    forall i | 0 <= i < a.rows
      ensures a.data[i] == b.data[i]
    {
      forall k | 0 <= k < a.cols * ch
        ensures a.data[i][k] == b.data[i][k]
      {
        var j, c := k / ch, k % ch;
        assert k == j * ch + c;
        assert At(a, i, j, c) == At(b, i, j, c);
      }
    }
  }
}
