# Hand-written pixel algorithms of a SAR image-processing pipeline

This project models and proves the hand-written pixel loops of `pixel_imp.cpp`. Each stage
takes an OpenCV `Mat` of bytes and returns a new one:

- grayscale conversion;
- quarter-turn rotation;
- vertical flip;
- promotion of a gray image to three channels;
- saturating brightness;
- a fixed 10-pixel crop;
- histogram equalisation;
- an adaptive Wiener filter;
- Gaussian smoothing.

An image is a value, `Images.Image(rows, cols, channels, data)`:

- `channels` is 1 or 3.
- `data` holds `rows` rows of `cols * channels` bytes each.
- Byte b of row i is what `at<uchar>(i, b)` addresses.
- Channel c of pixel (i, j) is byte `j * channels + c`, which is what `at<Vec3b>(i, j)[c]` addresses.

Every stage is a method that works as the source does. It allocates a fresh `array2<uint8>`, or clones its input into one, and fills it with nested loops. It then returns the rows as an `Image`. Each method is proved equal to a specification function of its input, and the properties of each stage are lemmas about that function.

Rotate, flip, brightness, equalisation, Wiener and Gaussian address `at<uchar>`. Grayscale reads `at<Vec3b>`, HSV writes `at<Vec3b>`, and the crop copies `at<Vec3b>` on three channels. The model keeps each stage's addressing on
every channel count. Several stages are therefore modelled on three-channel images too,
with what the code really does there:

- rotation and flip move bytes;
- brightness changes the first `cols` bytes of a row;
- equalisation reads the first `cols` bytes of a row.

This matters because the pipeline in `main` passes the three-channel result of `manualHSV` to every later stage.

Floating-point arithmetic is modelled as exact arithmetic on `real`:

- the grayscale weights (as integer thousandths);
- the `float` cumulative histogram;
- the Wiener window statistics;
- the Gaussian sums.

The rounding or truncation that the source applies when it stores a value is modelled exactly. Three different conversions appear:

- `static_cast<uchar>` truncates, and an out-of-range value is undefined behaviour. The `uint8` newtype makes every such cast a proof obligation.
- `saturate_cast<uchar>` of an `int` clamps.
- `saturate_cast<uchar>` of a `float` rounds half to even and then clamps.

The equalisation is undefined on some images (see Findings). On those images the model either states the precondition under which the source is defined, or proves that the source is undefined.

Two behaviours of the code differ from what one might expect of these operations:

- A textbook equaliser maps an image of uniform intensity to zeros.
  - As written, a uniform image of a non-zero value is defined only when it has more than 256 pixels, and then every pixel becomes 255 (`Equalize.UniformImage`).
  - A 4×4 image of value 100 gives 16 / 15 × 255 = 272, and the cast is undefined (`Equalize.SixteenPixelsOf100`).
- Brightness is written as a single-channel loop, but `main` applies it to the three-channel HSV image (see Findings).

## Model

| member | source | states |
|---|---|---|
| Images.Saturate | pixel_imp.cpp:57 | `saturate_cast<uchar>` of an int stores values in 0..255 exactly, and clamps values below to 0 and above to 255 |
| Geometry.RotatedAt | pixel_imp.cpp:27 | in the quarter turn, source pixel (i, j) lands at (j, rows - 1 - i) |
| Geometry.RotateFourTimes | pixel_imp.cpp:23-29 | four clockwise quarter turns give back the original image |
| Geometry.ManualRotate90Clockwise | pixel_imp.cpp:23-29 | the result has rows and cols swapped and the same channel count; for every i < rows and j < cols, byte rows - 1 - i of row j is byte j of row i; on one channel the result is the quarter turn |
| Geometry.FlippedAt | pixel_imp.cpp:36 | in the flip, source pixel (i, j) lands at (rows - 1 - i, j) |
| Geometry.FlipTwice | pixel_imp.cpp:32-38 | flipping twice gives back the original image |
| Geometry.ManualFlipVertical | pixel_imp.cpp:32-38 | the result has the same shape; byte j of row rows - 1 - i is byte j of row i; on one channel the result is the flip |
| Grayscale.Luma | pixel_imp.cpp:16 | the stored gray value is the floor of (114 B + 587 G + 299 R) / 1000 |
| Grayscale.LumaBetweenChannels | pixel_imp.cpp:16 | the weights sum to one, so the gray value lies between the darkest and the brightest channel; a pixel of equal channels v becomes v, and white stays 255 |
| Grayscale.LumaMonotone | pixel_imp.cpp:16 | raising any channel never lowers the gray value |
| Grayscale.LumaOfSample | pixel_imp.cpp:16 | (B = 10, G = 20, R = 30) becomes 21 |
| Grayscale.ManualGrayscale | pixel_imp.cpp:11-20 | the result is single-channel with the same rows and cols, and every pixel is the luma of the matching input pixel |
| Promotion.ReplicatedAt | pixel_imp.cpp:45-46 | all three channels of promoted pixel (i, j) hold gray byte (i, j) |
| Promotion.GrayscaleOfReplicated | pixel_imp.cpp:41-49 | converting a promoted image back to grayscale gives the original gray image |
| Promotion.ManualHSV | pixel_imp.cpp:41-49 | the result has three channels and the same rows and cols, and every channel of every pixel is the gray value |
| Brightness.BrightenedSingleChannel | pixel_imp.cpp:54-57 | on one channel, every pixel becomes its value plus the offset, clamped to 0..255 |
| Brightness.BrightenedThreeChannels | pixel_imp.cpp:54-57 | on three channels, channel c of pixel (i, j) changes iff 3 j + c < cols; every other byte is copied |
| Brightness.BrightnessTintsColourPixel | pixel_imp.cpp:54-57 | the grey three-channel pixel (100, 100, 100) brightened by 50 becomes (150, 100, 100) |
| Brightness.BrightenedAllAt | pixel_imp.cpp:52-60 | the intended adjustment clamps the shifted value of every channel of every pixel |
| Brightness.SingleChannelAgrees | pixel_imp.cpp:52-60 | on one channel, the source and the intended adjustment give the same image |
| Brightness.BrightenZero | pixel_imp.cpp:53-57 | a zero offset leaves the image unchanged, both as written and as intended |
| Brightness.BrightenDirection | pixel_imp.cpp:54-57 | in the source's loop and in the corrected one, a non-negative offset never darkens a byte and a non-positive one never lightens it |
| Brightness.ManualBrightness | pixel_imp.cpp:52-60 | the clone has the same shape; byte b < cols of every row is shifted and clamped; every other byte is copied |
| Brightness.ManualBrightnessAllChannels | pixel_imp.cpp:52-60 | the corrected loop shifts and clamps every channel of every pixel |
| Clip.ClippedAt | pixel_imp.cpp:76-84 | in the crop, channel c of pixel (i, j) is channel c of input pixel (10 + i, 10 + j) |
| Clip.ClipChangesIffLarge | pixel_imp.cpp:63-87 | the crop returns its input iff cols <= 20 or rows <= 20; otherwise it shrinks each side by 20 |
| Clip.ClipTwice | pixel_imp.cpp:63-87 | cropping twice drops a 20-pixel margin on every side |
| Clip.ManualClip | pixel_imp.cpp:63-87 | a too-small image is returned unchanged; otherwise the result is (rows - 20) × (cols - 20) with the same channel count and holds the inner pixels |
| Clip.CopyRow | pixel_imp.cpp:77-84 | copying one row of the crop sets row i of the output to the inner bytes of input row 10 + i and leaves every other row unchanged |
| Histogram.SampleSize | pixel_imp.cpp:92-95 | the loops read exactly `total` = rows × cols bytes |
| Histogram.CountsOccurrences | pixel_imp.cpp:91-95 | bin v of the histogram is the number of occurrences of v among the bytes read |
| Histogram.HistogramTotal | pixel_imp.cpp:91-95 | the 256 bins sum to `total` |
| Histogram.CumulativeFirst | pixel_imp.cpp:98 | `cdf[0]` is `hist[0]` |
| Histogram.CumulativeCounts | pixel_imp.cpp:97-100 | `cdf[v]` is the number of bytes read that are at most v |
| Histogram.CumulativeShape | pixel_imp.cpp:97-100 | the cumulative histogram never decreases, stays within 0..total, and reaches `total` at 255 |
| Histogram.CumulativeAtMaximum | pixel_imp.cpp:97-100 | when no byte read exceeds m, `cdf[m]` is `total` |
| Histogram.ComputeHistogram | pixel_imp.cpp:91-95 | the histogram array holds the counts of the bytes read |
| Histogram.AccumulateCdf | pixel_imp.cpp:97-100 | the cdf array holds the running sums of the histogram |
| Equalize.TableAsWrittenEntries | pixel_imp.cpp:102-103 | as written, table entry 0 is 0, and entry v > 0 is `cdf[v] / (total - 1) * 255`, rescaled against the overwritten `cdf[0]` |
| Equalize.TableIntendedEntries | pixel_imp.cpp:102-103 | as intended, entry v is `(cdf[v] - hist[0]) / (total - 1) * 255` |
| Equalize.EmptyFits | pixel_imp.cpp:105-108 | an image with no pixel has no cast to make |
| Equalize.AsWrittenFits | pixel_imp.cpp:102-108 | with at least two pixels, every cast is defined when total > 256 or every byte read is 0 |
| Equalize.AsWrittenOverflows | pixel_imp.cpp:102-108 | with 2..256 pixels and a non-zero byte read, some cast is out of range |
| Equalize.DefinedIff | pixel_imp.cpp:90-110 | the source is defined iff total != 1 and (total > 256 or every byte read is 0) |
| Equalize.IntendedFits | pixel_imp.cpp:102-108 | with at least two pixels, the intended casts are defined when hist[0] > 0 or total > 256 |
| Equalize.IntendedOverflows | pixel_imp.cpp:102-108 | with 2..256 pixels and hist[0] = 0, some intended cast is out of range |
| Equalize.DefinedIntendedIff | pixel_imp.cpp:102-108 | the intended formula is defined iff total != 1 and (total = 0, hist[0] > 0 or total > 256) |
| Equalize.TableAsWrittenMonotone | pixel_imp.cpp:97-103 | the source's table is non-negative and never decreases |
| Equalize.TableIntendedMonotone | pixel_imp.cpp:97-103 | the intended table is non-negative and never decreases |
| Equalize.EqualizedKeepsOrder | pixel_imp.cpp:90-110 | equalisation keeps the order of any two bytes it converts |
| Equalize.EqualizedIntendedKeepsOrder | pixel_imp.cpp:90-110 | so does the intended formula |
| Equalize.BlackMajorityAsWritten | pixel_imp.cpp:102-103 | on the 2×2 image [[0, 0], [0, 5]], entry 5 becomes 340 and the source is undefined |
| Equalize.BlackMajorityIntended | pixel_imp.cpp:102-108 | on the same image, the intended formula gives [[0, 0], [0, 85]] |
| Equalize.UniformImage | pixel_imp.cpp:90-110 | a uniform image of value v is equalised iff v = 0 or total > 256, and then every byte becomes 0 (v = 0) or 255 |
| Equalize.SixteenPixelsOf100 | pixel_imp.cpp:90-110 | the 4×4 image of value 100 makes the cast undefined |
| Equalize.NormalizeAsWritten | pixel_imp.cpp:102-103 | rescaling in place against the `cdf[0]` that the loop itself overwrites gives the as-written table |
| Equalize.NormalizeIntended | pixel_imp.cpp:102-103 | rescaling against the original `cdf[0]`, saved before the loop, gives the intended table |
| Equalize.ApplyLevels | pixel_imp.cpp:105-109 | the clone replaces every byte read by its truncated table entry and copies every other byte |
| Equalize.ManualEqualizeHist | pixel_imp.cpp:90-110 | on images where it is defined, the loops compute the as-written equalisation |
| Equalize.ManualEqualizeHistIntended | pixel_imp.cpp:90-110 | the corrected loops compute the intended equalisation |
| Wiener.PatchSize | pixel_imp.cpp:120-121 | the window holds kSize × kSize values |
| Wiener.WindowInside | pixel_imp.cpp:118-121 | the window of every byte the loops visit lies inside the image |
| Wiener.RoundHalfEven | pixel_imp.cpp:131 | the rounding of `saturate_cast<uchar>(float)` lies within 0.5 of its argument |
| Wiener.MeanBetween | pixel_imp.cpp:124 | the window mean lies between the window's smallest and largest values |
| Wiener.VarianceNonNegative | pixel_imp.cpp:124-125 | `localVar` is never negative, so `localVar + 1e-5` is never zero |
| Wiener.GainBounds | pixel_imp.cpp:129 | the gain `max(localVar - noiseVar, 0) / (localVar + 1e-5)` lies in [0, 1) |
| Wiener.WienerValueBetween | pixel_imp.cpp:129 | `newVal` lies between the window mean and the byte's own value |
| Wiener.FlatWindow | pixel_imp.cpp:123-129 | a window of one value c has mean c and variance 0, so a byte of value c keeps c |
| Wiener.FilteredPixelBetween | pixel_imp.cpp:118-131 | a filtered byte lies within 0.5 of the range spanned by its window mean and its value |
| Wiener.FilteredPixelWithin | pixel_imp.cpp:118-131 | a filtered byte stays inside any byte range [lo, hi] that holds its own value and every channel-0 value of its window |
| Wiener.FlatImageUnchanged | pixel_imp.cpp:113-136 | an image whose every byte is c is left unchanged |
| Wiener.WienerPixel | pixel_imp.cpp:120-131 | the stored byte lies within 0.5 of the range spanned by the window mean and the byte's own value; when every channel-0 value of the window equals the byte, the byte is stored unchanged |
| Wiener.FilterRow | pixel_imp.cpp:119-132 | the inner loop filters the interior bytes of one row and changes nothing else |
| Wiener.ManualWienerFilter | pixel_imp.cpp:113-136 | the clone has the same shape; every byte within kSize / 2 of an edge is copied; every interior byte is filtered |
| Gaussian.RawSumPositive | pixel_imp.cpp:144-152 | the sum of the positive raw weights is positive, so `kernel /= sum` is defined |
| Gaussian.KernelNormalised | pixel_imp.cpp:140-152 | the normalised weights are positive and sum to exactly 1 |
| Gaussian.KernelSymmetric | pixel_imp.cpp:146 | for odd kSize the kernel is symmetric about its diagonal and about its middle row |
| Gaussian.WindowBounded | pixel_imp.cpp:157-163 | with non-negative weights summing to 1, the window sum lies in [0, 255], so `static_cast<uchar>` is defined |
| Gaussian.FlatImageUnchanged | pixel_imp.cpp:139-168 | an image whose every byte is c is left unchanged |
| Gaussian.FillKernel | pixel_imp.cpp:142-150 | the weight loops store every raw weight and return their sum |
| Gaussian.DivideKernel | pixel_imp.cpp:152 | `kernel /= sum` divides every cell by the sum |
| Gaussian.BuildKernel | pixel_imp.cpp:140-152 | the kernel array holds the normalised kernel |
| Gaussian.WindowSum | pixel_imp.cpp:157-162 | the two innermost loops compute the kernel-weighted sum of the byte's window |
| Gaussian.SmoothRow | pixel_imp.cpp:156-164 | the j loop smooths the interior bytes of one row and changes nothing else |
| Gaussian.SmoothInterior | pixel_imp.cpp:154-165 | the clone's interior bytes are replaced by their truncated window sums and every other byte is copied |
| Gaussian.ManualGaussianFilter | pixel_imp.cpp:139-168 | the result has the same shape; every byte within kSize / 2 of an edge is copied; every interior byte is smoothed by the normalised kernel |

## Left out

- `main` (pixel_imp.cpp:170-273) is not modelled: image loading, display, timing and CSV output are I/O.
- The standard-error message of `manualClip` is not modelled.
- main.cpp and the Python timing scripts are not part of this model.
- Floating-point rounding is not modelled. The grayscale weights, the `float` cdf, the Wiener statistics, `exp` and the `double` Gaussian sums are exact reals here. A result that rounding moves just below an integer is truncated one lower in the source than in the model. For example, the pixel B = 24, G = 72, R = 0 has exact luma 45, but `0.299 * 0 + 0.587 * 72 + 0.114 * 24` in `double` is 44.99999999999999, which the cast truncates to 44.
- Grayscale.LumaBetweenChannels: holds only under exact arithmetic. In `double` the grey pixel (1, 1, 1) gives 0.9999999999999999, which truncates to 0, so some grey values v come out as v - 1.
- Promotion.GrayscaleOfReplicated: holds only under exact arithmetic, for the same reason: grayscale of a promoted grey value v can give v - 1 in `double`.
- Gaussian.FlatImageUnchanged: holds only under exact arithmetic. In `double` the normalised kernel's weights need not sum to exactly 1, so a flat image of value c can sum to just below c and truncate to c - 1. Wiener.FlatImageUnchanged is not affected: a flat window has variance exactly 0, and rounding gives back c.
- The 32-bit `int` of `hist` and `total` is unbounded here. It matters only for images of 2^31 pixels or more.
- The 32-bit `int value = img.at<uchar>(i, j) + brightness` (pixel_imp.cpp:56) is unbounded here: for `brightness > INT_MAX - 255` the source's addition overflows, which is undefined, while the model clamps to 255.
- Gaussian.ManualGaussianFilter: `exp(-(i*i + j*j) / (2*sigma*sigma))` is the positive parameter `weight`, applied to the squared distance, since `exp` and `sigma` are library numerics. A weight that underflows to zero in `double` is not covered.
- Gaussian.ManualGaussianFilter: it requires an odd `kSize` of at least 1. An even `kSize` or `kSize = 0` indexes the kernel out of range, which is undefined; a negative one is rejected by the `Mat kernel(kSize, kSize, CV_64F)` constructor (pixel_imp.cpp:141).
- Wiener.ManualWienerFilter: it requires `kSize >= 1`. A window of size 0 or less is rejected by OpenCV.
- Wiener.ManualWienerFilter: `meanStdDev` is modelled as the exact population mean and variance of channel 0 of the window. The `float` single-precision noise constant `0.0001f` and `1e-5` are taken as exact decimals.
- Geometry.ManualRotate90Clockwise: on three channels only the bytes the loop writes are stated. The other two thirds of the new `Mat` are never written and hold unspecified bytes.
- Geometry.ManualFlipVertical: the same caveat applies on three channels.
- Equalize.ManualEqualizeHist: it requires the source to be defined on the image, which rules out an out-of-range cast or a division by zero. `Equalize.DefinedIff` states exactly which images those are.

## Findings

| source | as written | input that shows it | evidently intended | confidence | as-written member | corrected member |
|---|---|---|---|---|---|---|
| pixel_imp.cpp:102-103 | the loop overwrites `cdf[0]` with 0 at i = 0, so every later entry is rescaled against 0 instead of `hist[0]` | the 2×2 image [[0, 0], [0, 5]]: entry 5 becomes 4 / 3 × 255 = 340 and the `uchar` cast is undefined | rescale against `hist[0]` saved before the loop: 5 maps to 85 | not executed | Equalize.BlackMajorityAsWritten | Equalize.BlackMajorityIntended |
| pixel_imp.cpp:54-57 | `at<uchar>(i, j)` for j < cols changes only the first `cols` bytes of a row; on the three-channel image the pipeline passes, those bytes are all three channels of the pixels in the left third, so the left third is brightened evenly, the pixel straddling byte `cols` is tinted, and the rest is unchanged | the single pixel (100, 100, 100) brightened by 50 becomes (150, 100, 100) | every channel of every pixel brightened: (150, 150, 150) | not executed | Brightness.BrightnessTintsColourPixel | Brightness.BrightenedAllAt |

For the first row:

- `Equalize.ManualEqualizeHist` and `Equalize.DefinedIff` model and characterise the loops as written.
- `Equalize.ManualEqualizeHistIntended` and `Equalize.DefinedIntendedIff` model the correction. The corrected table maps 0 to 0 (`Equalize.TableIntendedEntries` with `Histogram.CumulativeFirst`). Whenever hist[0] > 0 or total > 256, every entry the image reads truncates to a byte (`Equalize.IntendedFits`). The table entry itself can exceed 255: with hist[0] = 0 and total > 256 the top entry is total / (total - 1) × 255, which lies strictly between 255 and 256.

For the second row:

- `Brightness.ManualBrightness` models the source.
- `Brightness.ManualBrightnessAllChannels` models the corrected loop.
- `Brightness.SingleChannelAgrees` shows that the two agree on one channel.
