/**
 The 3-channel promotion, `manualHSV`: every gray value v becomes the pixel (v, v, v).
 Only the value channel is meant; hue and saturation are not computed.
 */
module Promotion {
  import opened Images
  import Grayscale

  /** The promoted image: all three channels of pixel (i, j) hold byte j of row i of the
      input, which is the gray value when the input has one channel. */
  function Replicated(gray: Image): Image
    requires gray.Valid()
  {
    Image(gray.rows, gray.cols, 3,
      seq(gray.rows, i requires 0 <= i < gray.rows =>
        seq(gray.cols * 3, b requires 0 <= b < gray.cols * 3 => gray.data[i][b / 3])))
  }

  /** Every channel of a promoted pixel is the gray value it came from. */
  lemma ReplicatedAt(gray: Image, i: int, j: int, c: int)
    requires gray.Valid() && 0 <= i < gray.rows && 0 <= j < gray.cols && 0 <= c < 3
    ensures Replicated(gray).Valid()
    ensures At(Replicated(gray), i, j, c) == gray.data[i][j]
  {
    assert (j * 3 + c) / 3 == j;
  }

  /** Converting the promoted image back to grayscale gives the original gray image:
      equal weights on equal channels reproduce the value exactly. */
  lemma GrayscaleOfReplicated(gray: Image)
    requires gray.Valid() && gray.channels == 1
    ensures Grayscale.Grayscale(Replicated(gray)) == gray
  {
    var p := Replicated(gray);
    var r := Grayscale.Grayscale(p);
    forall i, j, c | 0 <= i < gray.rows && 0 <= j < gray.cols && 0 <= c < 1
      ensures At(r, i, j, c) == At(gray, i, j, c)
    {
      ReplicatedAt(gray, i, j, 0);
      ReplicatedAt(gray, i, j, 1);
      ReplicatedAt(gray, i, j, 2);
      var v := gray.data[i][j];
      Grayscale.LumaBetweenChannels(v, v, v, v, v);
    }
    Extensionality(r, gray);
  }

  /** manualHSV (pixel_imp.cpp:41-49): allocate a 3-channel buffer and store (v, v, v) for
      the byte v at every pixel position, row by row. */
  method ManualHSV(gray: Image) returns (hsv: Image)
    requires gray.Valid()
    ensures hsv.Valid() && hsv.rows == gray.rows && hsv.cols == gray.cols && hsv.channels == 3
    ensures forall i, j, c | 0 <= i < gray.rows && 0 <= j < gray.cols && 0 <= c < 3 ::
      At(hsv, i, j, c) == gray.data[i][j]
    ensures hsv == Replicated(gray)
  {
    var rows, cols := gray.rows, gray.cols;
    var out := new uint8[rows, cols * 3];
    for i := 0 to rows
      invariant forall i', b | 0 <= i' < i && 0 <= b < cols * 3 :: out[i', b] == gray.data[i'][b / 3]
    {
      for j := 0 to cols
        invariant forall i', b | 0 <= i' < i && 0 <= b < cols * 3 :: out[i', b] == gray.data[i'][b / 3]
        invariant forall b | 0 <= b < j * 3 :: out[i, b] == gray.data[i][b / 3]
      {
        var v := gray.data[i][j];
        out[i, j * 3], out[i, j * 3 + 1], out[i, j * 3 + 2] := v, v, v;
      }
    }
    hsv := Image(rows, cols, 3, Rows(out));
    forall i | 0 <= i < rows
      ensures hsv.data[i] == Replicated(gray).data[i]
    {
    }
    forall i, j, c | 0 <= i < rows && 0 <= j < cols && 0 <= c < 3
      ensures At(hsv, i, j, c) == gray.data[i][j]
    {
      ReplicatedAt(gray, i, j, c);
    }
  }
}
