/**
 The brightness stage, `manualBrightness`: clone the image, then add a signed offset,
 saturated into [0, 255], to every byte the loop addresses. The loop addresses
 `at<uchar>(i, j)` for j < cols, which is every pixel of a single-channel image but only
 the first third of each row of a three-channel one.
 */
module Brightness {
  import opened Images

  /** The image as the source produces it: byte b of row i is shifted iff b < cols. */
  function Brightened(img: Image, brightness: int): Image
    requires img.Valid()
  {
    Image(img.rows, img.cols, img.channels,
      seq(img.rows, i requires 0 <= i < img.rows =>
        seq(img.cols * img.channels, b requires 0 <= b < img.cols * img.channels =>
          if b < img.cols then Saturate(img.data[i][b] as int + brightness) else img.data[i][b])))
  }

  /** On a single-channel image every pixel is shifted and clamped. */
  lemma BrightenedSingleChannel(img: Image, brightness: int, i: int, j: int)
    requires img.Valid() && img.channels == 1 && 0 <= i < img.rows && 0 <= j < img.cols
    ensures Brightened(img, brightness).Valid()
    ensures At(Brightened(img, brightness), i, j, 0) == Saturate(At(img, i, j, 0) as int + brightness)
  {
  }

  /** On a three-channel image channel c of pixel (i, j) is shifted iff 3 j + c < cols, so
      only pixels in the left third of the image are touched. */
  lemma BrightenedThreeChannels(img: Image, brightness: int, i: int, j: int, c: int)
    requires img.Valid() && img.channels == 3
    requires 0 <= i < img.rows && 0 <= j < img.cols && 0 <= c < 3
    ensures Brightened(img, brightness).Valid()
    ensures At(Brightened(img, brightness), i, j, c) ==
      if 3 * j + c < img.cols then Saturate(At(img, i, j, c) as int + brightness) else At(img, i, j, c)
  {
  }

  /** A colour image of one pixel whose three channels are 100: brightening by 50 changes
      channel 0 only, so the grey pixel turns blue-tinted instead of lighter grey. */
  lemma BrightnessTintsColourPixel()
    ensures Brightened(Image(1, 1, 3, [[100, 100, 100]]), 50).data == [[150, 100, 100]]
  {
    var img := Image(1, 1, 3, [[100, 100, 100]]);
    var r := Brightened(img, 50);
    assert |r.data| == 1 && |r.data[0]| == 3;
    assert r.data[0][0] == 150 && r.data[0][1] == 100 && r.data[0][2] == 100;
    assert r.data[0] == [150, 100, 100];
  }

  /** The evidently intended adjustment: every channel of every pixel is shifted and clamped. */
  function BrightenedAll(img: Image, brightness: int): (r: Image)
    requires img.Valid()
  {
    Image(img.rows, img.cols, img.channels,
      seq(img.rows, i requires 0 <= i < img.rows =>
        seq(img.cols * img.channels, b requires 0 <= b < img.cols * img.channels =>
          Saturate(img.data[i][b] as int + brightness))))
  }

  /** Every channel of every pixel of the intended result is the clamped shifted value. */
  lemma BrightenedAllAt(img: Image, brightness: int, i: int, j: int, c: int)
    requires img.Valid() && 0 <= i < img.rows && 0 <= j < img.cols && 0 <= c < img.channels
    ensures BrightenedAll(img, brightness).Valid()
    ensures At(BrightenedAll(img, brightness), i, j, c) == Saturate(At(img, i, j, c) as int + brightness)
  {
    PixelInRow(j, c, img.cols, img.channels);
  }

  /** On a single-channel image the source and the intended adjustment agree. */
  lemma SingleChannelAgrees(img: Image, brightness: int)
    requires img.Valid() && img.channels == 1
    ensures Brightened(img, brightness) == BrightenedAll(img, brightness)
  {
    var a, b := Brightened(img, brightness), BrightenedAll(img, brightness);
    forall i | 0 <= i < img.rows
      ensures a.data[i] == b.data[i]
    {
      assert |a.data[i]| == img.cols;
    }
  }

  /** A zero offset leaves the image unchanged; so does the intended adjustment. */
  lemma BrightenZero(img: Image)
    requires img.Valid()
    ensures Brightened(img, 0) == img
    ensures BrightenedAll(img, 0) == img
  {
    forall i | 0 <= i < img.rows
      ensures Brightened(img, 0).data[i] == img.data[i] && BrightenedAll(img, 0).data[i] == img.data[i]
    {
    }
  }

  /** A non-negative offset never darkens a byte, a non-positive one never lightens it, both
      in the source's loop and in the corrected one. */
  lemma BrightenDirection(img: Image, brightness: int, i: int, b: int)
    requires img.Valid() && 0 <= i < img.rows && 0 <= b < img.cols * img.channels
    ensures brightness >= 0 ==> Brightened(img, brightness).data[i][b] >= img.data[i][b]
    ensures brightness <= 0 ==> Brightened(img, brightness).data[i][b] <= img.data[i][b]
    ensures brightness >= 0 ==> BrightenedAll(img, brightness).data[i][b] >= img.data[i][b]
    ensures brightness <= 0 ==> BrightenedAll(img, brightness).data[i][b] <= img.data[i][b]
  {
  }

  /** Brightened is determined by its bytes: any image of the same shape whose bytes follow
      the source's rule is Brightened. */
  lemma BrightenedBytes(img: Image, brightness: int, r: Image)
    requires img.Valid() && r.Valid()
    requires r.rows == img.rows && r.cols == img.cols && r.channels == img.channels
    requires forall i, b | 0 <= i < img.rows && 0 <= b < img.cols * img.channels ::
      r.data[i][b] == if b < img.cols then Saturate(img.data[i][b] as int + brightness) else img.data[i][b]
    ensures r == Brightened(img, brightness)
  {
    forall i | 0 <= i < img.rows
      ensures r.data[i] == Brightened(img, brightness).data[i]
    {
    }
  }

  /** BrightenedAll is determined by its bytes in the same way. */
  lemma BrightenedAllBytes(img: Image, brightness: int, r: Image)
    requires img.Valid() && r.Valid()
    requires r.rows == img.rows && r.cols == img.cols && r.channels == img.channels
    requires forall i, b | 0 <= i < img.rows && 0 <= b < img.cols * img.channels ::
      r.data[i][b] == Saturate(img.data[i][b] as int + brightness)
    ensures r == BrightenedAll(img, brightness)
  {
    forall i | 0 <= i < img.rows
      ensures r.data[i] == BrightenedAll(img, brightness).data[i]
    {
    }
  }

  /** manualBrightness (pixel_imp.cpp:52-60): clone, then shift and clamp byte j of every
      row for j < cols. */
  method ManualBrightness(img: Image, brightness: int) returns (output: Image)
    requires img.Valid()
    ensures output.Valid() && output.rows == img.rows && output.cols == img.cols
    ensures output.channels == img.channels
    ensures forall i, b | 0 <= i < img.rows && 0 <= b < img.cols * img.channels ::
      output.data[i][b] == if b < img.cols then Saturate(img.data[i][b] as int + brightness) else img.data[i][b]
    ensures output == Brightened(img, brightness)
  {
    var rows, cols, width := img.rows, img.cols, img.cols * img.channels;
    var out := new uint8[rows, width]((i, b) requires 0 <= i < rows && 0 <= b < width => img.data[i][b]);
    assert cols <= width;
    for i := 0 to rows
      invariant forall i', b | 0 <= i' < rows && 0 <= b < width ::
        out[i', b] == if i' < i && b < cols then Saturate(img.data[i'][b] as int + brightness) else img.data[i'][b]
    {
      for j := 0 to cols
        invariant forall i', b | 0 <= i' < rows && 0 <= b < width ::
          out[i', b] == if (i' < i || (i' == i && b < j)) && b < cols
            then Saturate(img.data[i'][b] as int + brightness) else img.data[i'][b]
      {
        var value := img.data[i][j] as int + brightness;
        out[i, j] := Saturate(value);
      }
    }
    output := Image(rows, cols, img.channels, Rows(out));
    BrightenedBytes(img, brightness, output);
  }

  /** The intended adjustment as a loop over every byte of every row; it computes
      BrightenedAll, which agrees with the source on single-channel images. */
  method ManualBrightnessAllChannels(img: Image, brightness: int) returns (output: Image)
    requires img.Valid()
    ensures output.Valid() && output.rows == img.rows && output.cols == img.cols
    ensures output.channels == img.channels
    ensures forall i, j, c | 0 <= i < img.rows && 0 <= j < img.cols && 0 <= c < img.channels ::
      At(output, i, j, c) == Saturate(At(img, i, j, c) as int + brightness)
    ensures output == BrightenedAll(img, brightness)
  {
    var rows, width := img.rows, img.cols * img.channels;
    var out := new uint8[rows, width]((i, b) requires 0 <= i < rows && 0 <= b < width => img.data[i][b]);
    for i := 0 to rows
      invariant forall i', b | 0 <= i' < rows && 0 <= b < width ::
        out[i', b] == if i' < i then Saturate(img.data[i'][b] as int + brightness) else img.data[i'][b]
    {
      for b := 0 to width
        invariant forall i', b' | 0 <= i' < rows && 0 <= b' < width ::
          out[i', b'] == if i' < i || (i' == i && b' < b)
            then Saturate(img.data[i'][b'] as int + brightness) else img.data[i'][b']
      {
        out[i, b] := Saturate(img.data[i][b] as int + brightness);
      }
    }
    output := Image(rows, img.cols, img.channels, Rows(out));
    BrightenedAllBytes(img, brightness, output);
    forall i, j, c | 0 <= i < rows && 0 <= j < img.cols && 0 <= c < img.channels
      ensures At(output, i, j, c) == Saturate(At(img, i, j, c) as int + brightness)
    {
      BrightenedAllAt(img, brightness, i, j, c);
    }
  }
}
