# Botox inpainting engine in Dafny

Botox fills a hole in an image. The hole is marked in a mask image, and each
hole pixel receives a weighted mean of the pixels on the hole's boundary.
This project models the engine of `botox/botox.cpp` and the API that
`botox/botox.h` declares for it. The engine works in four stages:

1. **Channel reduction.** `channelAverage` folds the `channels` bytes of one
   pixel into a single `u_char`. `normalise` maps that byte onto [0, 1].
   `denormalise` scales a sample back by 255.
2. **Classification.**
   - `findHole` scans the mask row by row. It appends every pixel whose
     reduced value lies strictly below `255 * intensityThreshold`.
   - `findBoundaries` visits the 3x3 neighbourhood of each hole pixel, with
     the corners skipped under `FOUR` connectivity. It appends every
     neighbour whose reduced value lies strictly above the threshold.
3. **Preparation.** `prepareImage` writes the normalised grey value of
   every pixel into a flat buffer. It then carves the hole cells with a
   sentinel, which is `DEFAULT_MASK_VALUE = -1` unless the caller gives
   another value.
4. **Filling.** `fillHole` overwrites each hole cell with
   `sum(w(h, b) * v(b)) / sum(w(h, b))` taken over the boundary pixels `b`.
   The weight `w` comes from a pixel weight calculator.

The project has five modules:

| file | module | contents |
|---|---|---|
| `pixels.dfy` | `Pixels` | the `Pixel` record (`botox/pixel.h`), the row-major address `x * width + y`, and the integer squared distance inside `euclideanDistance` |
| `reduction.dfy` | `Reduction` | `channelAverage` modelled exactly over bytes: `int` promotion, C division truncating toward zero, and narrowing back to `u_char`. Also `normalise`, `denormalise` and `prepareImage` |
| `classification.dfy` | `Classification` | `findHole` and `findBoundaries`, written as loops that append to the caller's vector, with specification functions that give the expected output in its exact order |
| `diffusion.dfy` | `Diffusion` | `fillHole`, written as an in-place loop over a `real` buffer, with the weight calculator as an abstract positive function |
| `pipeline.dfy` | `Pipeline` | a lemma composing the stages: after filling, every cell lies in [0, 1] and denormalises into [0, 255] |

**Modelling choices.**
- **Buffers.** Buffers that the source mutates in place are Dafny arrays.
  These are the float buffers of `prepareImage`, `fillHole` and
  `denormalise`. The methods that change them name them in `modifies`.
- **Read-only image.** The `const u_char *` image is an `array<byte>` that
  no method modifies.
- **Output vectors.** `findHole` and `findBoundaries` fill a
  `std::vector<Pixel>` that the caller passes by reference. The model takes
  the vector's contents as an in parameter and returns its new contents.
- **Addressing.** Every address is `x * width + y`.
  - `prepareImage` names its stride parameter `height`. Its only caller,
    `main.cpp:65`, passes the image's column count there, so the model
    treats that parameter as the row width.
- **Reduced image.** The classifiers are specified on the reduced image.
  `Reduce(input, channels, n)` is the sequence of `channelAverage` values
  of the first `n` pixels.

**`channelAverage` is not a running mean.** A running mean would divide
the update at the k-th channel by `k + 1`, but the code divides every update
by `channels + 1` (`botox/botox.cpp:13`). The model follows the code, and
`Reduction.AverageIsNotTheMean` shows the consequences:
  - a white three-channel pixel reduces to 147, not 255;
  - a one-channel pixel reduces to half its value.

## Model

| member | source | states |
|---|---|---|
| `Pixels.SquaredDistanceZero` | botox/botox.cpp:91-95 | the integer squared distance `(a.x-b.x)^2 + (a.y-b.y)^2` is non-negative, and it is zero exactly when the two pixels are equal |
| `Pixels.SquaredDistanceSymmetric` | botox/botox.cpp:91-95 | the squared distance does not depend on the order of the two pixels |
| `Reduction.TruncDiv` | botox/botox.cpp:13 | C integer division truncates toward zero: the quotient lies between 0 and the dividend, and the remainder `a - q*b` is smaller than the divisor in magnitude and zero or of the dividend's sign |
| `Reduction.StepNeverWraps` | botox/botox.cpp:13 | narrowing an update back to `u_char` never wraps. The new running value moves from the old value toward the sample and never passes it |
| `Reduction.AverageAtMostMaxSample` | botox/botox.cpp:10-16 | after k channels, the running value is at most the largest channel byte read so far |
| `Reduction.AverageReadsOnlyItsFrame` | botox/botox.cpp:10-16 | channelAverage reads only bytes `frame*channels .. frame*channels+channels-1`. Two buffers that agree on those bytes give the same average |
| `Reduction.AverageIsNotTheMean` | botox/botox.cpp:10-16 | because the divisor is `channels + 1`, the result is not the arithmetic mean: (255, 255, 255) reduces to 147, and a single byte `s` reduces to `s / 2` |
| `Reduction.ChannelAverage` | botox/botox.cpp:10-16 | the loop computes the fold of the per-channel update over the pixel's bytes, and the result never exceeds the pixel's largest byte |
| `Reduction.Normalise` | botox/botox.h:32-38 | for inputs in the byte range [0, 255], the normalised value lies in [0.0, 1.0] |
| `Reduction.NormaliseRoundTrip` | botox/botox.cpp:18-27 | over the reals, denormalise undoes normalise, and normalise undoes denormalise |
| `Reduction.SentinelIsNotASample` | botox/botox.h:12 | every normalised byte lies in [0, 1], so the default hole value -1.0 is never a real sample |
| `Reduction.PrepareImage` | botox/botox.cpp:97-111 | afterwards, each cell addressed by a mask pixel holds `holeValue`, and every other cell holds `normalise(channelAverage(input, i, channels))`. `holeValue` defaults to `DEFAULT_MASK_VALUE` as in the header |
| `Reduction.Denormalise` | botox/botox.cpp:23-27 | every cell `i < output.size()` becomes 255 times the old input cell. This holds even when input and output are the same buffer |
| `Classification.HoleIsNeverBoundary` | botox/botox.cpp:38-58 | "strictly below" and "strictly above" the same threshold exclude each other, so a hole pixel and a boundary pixel never share a cell |
| `Classification.ReducedCell` | botox/botox.cpp:37 | for a pixel inside a height-by-width image, the frame `x*width+y` lies in the image buffer, and the reduced image holds that frame's channelAverage |
| `Classification.FindHole` | botox/botox.cpp:29-43 | the old vector contents are kept, followed by the hole pixels of the height-by-width image in row-major scan order. The image is not modified |
| `Classification.HolesBeforeMembers` | botox/botox.cpp:34-40 | once the scan reaches (x, y), it has appended exactly the hole pixels of rows 0..x-1 and of columns 0..y-1 of row x |
| `Classification.ScanHolesMembers` | botox/botox.cpp:29-43 | findHole appends a pixel if and only if `0 <= x < height`, `0 <= y < width`, and the pixel's average is below `255 * intensityThreshold` |
| `Classification.HolesBeforeSorted` | botox/botox.cpp:34-40 | the pixels appended so far are strictly increasing in row-major order, lie within the image's columns, and all come before the scan position |
| `Classification.PrecedesIndex` | botox/botox.cpp:37 | for columns inside the image, row-major order is the order of linear indices `x*width+y` |
| `Classification.HolesBeforeLength` | botox/botox.cpp:34-40 | at most one pixel is appended per cell scanned |
| `Classification.ScanHolesIncreasing` | botox/botox.cpp:34-40 | findHole's output is strictly increasing in `x*width+y`, so it has no duplicates. Every pixel addresses the image, and there are at most `height*width` pixels |
| `Classification.CornerTest` | botox/botox.cpp:55 | for offsets in {-1, 0, 1}, `abs(x) + abs(y) == 2` holds exactly at the four diagonal corners |
| `Classification.FindBoundaries` | botox/botox.cpp:45-65 | the old vector contents are kept, then one group per hole pixel in hole order, duplicates included. The image is not modified |
| `Classification.ScanNeighbours` | botox/botox.cpp:51-63 | the dx loop for one hole pixel appends the neighbours at dx = -1..1 and dy = -1..1, in that order |
| `Classification.ScanColumn` | botox/botox.cpp:52-62 | the dy loop for a fixed dx skips the corners under FOUR, and appends each neighbour whose average is strictly above `255 * intensityThreshold` |
| `Classification.ColumnScanMembers` | botox/botox.cpp:52-62 | a pixel is in one column's output if and only if it sits at that dx, at a visited dy, is not skipped, and is above the threshold |
| `Classification.NeighbourScanMembers` | botox/botox.cpp:51-63 | a pixel is in one hole pixel's group if and only if it sits at a visited offset in {-1,0,1}^2 and is above the threshold |
| `Classification.BoundaryScanMembers` | botox/botox.cpp:50-64 | findBoundaries appends q if and only if q is at a visited offset from some hole pixel and above the threshold. Under FOUR that offset has `abs(dx)+abs(dy) <= 1` |
| `Classification.BoundariesAvoidHoles` | botox/botox.cpp:38-58 | with the image and threshold that findHole used, no appended boundary pixel is a hole pixel or addresses a hole pixel's cell, including the unskipped (0, 0) offset |
| `Classification.ColumnScanLength` | botox/botox.cpp:52-62 | one column appends at most 3 pixels, or at most 1 under FOUR when dx is not 0 |
| `Classification.NeighbourScanLength` | botox/botox.cpp:51-63 | one hole pixel's group has at most 9 pixels, or at most 5 under FOUR |
| `Classification.BoundaryScanLength` | botox/botox.cpp:50-64 | findBoundaries appends at most `9 * |holes|` pixels, or at most `5 * |holes|` under FOUR |
| `Classification.ColumnScanAsEight` | botox/botox.cpp:55 | any connectivity other than FOUR gives one column the same output as EIGHT |
| `Classification.NeighbourScanAsEight` | botox/botox.cpp:51-63 | any connectivity other than FOUR gives one hole pixel the same group as EIGHT |
| `Classification.OtherModesActAsEight` | botox/botox.cpp:50-61 | every connectivity value other than FOUR yields exactly the EIGHT output |
| `Classification.ColumnScanFourInEight` | botox/botox.cpp:52-62 | one column's FOUR output is a subsequence of its EIGHT output |
| `Classification.NeighbourScanFourInEight` | botox/botox.cpp:51-63 | one hole pixel's FOUR group is a subsequence of its EIGHT group |
| `Classification.FourIsSubsequenceOfEight` | botox/botox.cpp:50-63 | for the same inputs, the FOUR output is the EIGHT output with some pixels deleted and the order kept |
| `Diffusion.WeightSum` | botox/botox.cpp:72-77 | with positive weights, weightSum is non-negative, and it is strictly positive once at least one boundary pixel has been visited |
| `Diffusion.Filled` | botox/botox.cpp:67-83 | filling keeps the buffer's length |
| `Diffusion.FillHole` | botox/botox.cpp:67-83 | the buffer is updated in place, hole by hole in list order. Each hole cell takes dotProductSum / weightSum over the buffer as earlier holes left it |
| `Diffusion.Accumulate` | botox/botox.cpp:72-79 | the inner loop computes weightSum and dotProductSum over all boundary pixels of the current buffer, without modifying it |
| `Diffusion.DotProductBounds` | botox/botox.cpp:75-79 | if every boundary sample lies in [lo, hi], then dotProductSum lies between `lo * weightSum` and `hi * weightSum` |
| `Diffusion.InterpolatedBounds` | botox/botox.cpp:81 | the value written to a hole cell lies between the least and the greatest boundary sample |
| `Diffusion.InterpolatedSingle` | botox/botox.cpp:81 | with one boundary pixel, the hole cell takes that pixel's value, whatever its weight |
| `Diffusion.DotProductReadsBoundaries` | botox/botox.cpp:78 | dotProductSum reads only the boundary cells of the buffer |
| `Diffusion.FilledOutsideHoles` | botox/botox.cpp:67-83 | a cell that no hole pixel addresses is unchanged by fillHole |
| `Diffusion.FilledHoles` | botox/botox.cpp:67-83 | suppose hole cells are distinct and no boundary pixel addresses a hole cell. Then every hole cell ends with `sum(w*v)/sum(w)` over the original boundary samples, whatever the fill order |
| `Pipeline.FilledImageInRange` | botox/botox.cpp:23-111 | for a mask whose hole pixels are all interior (the domain of findBoundaries), after findHole, findBoundaries, prepareImage and fillHole, cells outside the hole keep their normalised sample. Hole cells get the weighted mean of the boundary samples, every cell lies in [0, 1] and is not the sentinel, and denormalise gives values in [0, 255] |

## Left out

- The I/O around the engine is left out: image decoding and encoding, directory handling, logging and command-line parsing in `main.cpp` and `args_parser.h`.
- Floating point is modelled as `real`. IEEE rounding is not modelled, and neither is the single-precision `thresholdValue`, which the model writes as the exact real `255 * intensityThreshold`.
- The weight kernel is not modelled:
  - `lightricksPixelWeight` uses `pow` with a real exponent;
  - `euclideanDistance` takes a `sqrt` (only its integer squared distance is modelled);
  - the `IPixelWeightCalculator` classes wrap these.
  In their place, the model takes an abstract weight function from two pixels to a positive real.
- `fillHole2` is not modelled: `botox/botox.h` declares it, but nothing defines it.
- The `denormalise` doc comment claims the range [-128..127]. The model follows the code, which multiplies by 255.
- 32-bit `int` overflow is not modelled, because integers are unbounded. It is left out in two places:
  - the index arithmetic `x * width + y`;
  - the conversion of `pow(a.x - b.x, 2)` from `double` to `int` in `euclideanDistance`, which goes out of range once a coordinate difference exceeds 46340 (`Pixels.SquaredDistance`).
- `Diffusion.FillHole`: requires a non-empty boundary list whenever the hole list is non-empty. With no boundary pixels, the source divides 0 by 0 and writes NaN.
- `Diffusion.FillHole`: requires every weight to be positive, as `1 / (d^z + e)` is for `e > 0`. The zero and negative weights that the source's parameters allow are not modelled.
- `Classification.FindBoundaries`: requires every hole pixel to be interior (`1 <= x < height-1`, `1 <= y < width-1`). The source does no bounds check, so near an edge it reads a neighbouring row or outside the buffer. The model does not model those reads. The extra `height` parameter is ghost and only states that requirement.
- `Classification.FindBoundaries`: its dx loop and dy loop are separate methods, `Classification.ScanNeighbours` and `Classification.ScanColumn`, each with its own loop invariant.
- `Classification.FindHole` and `Classification.FindBoundaries`: require `0 <= intensityThreshold <= 1`, the range the header documents.
- `Diffusion.FilledHoles` and `Pipeline.FilledImageInRange`: state the "weighted mean of the original boundary samples" result only when no boundary pixel addresses a hole cell. findHole and findBoundaries guarantee this when they use the same threshold, and `Pipeline.FilledImageInRange` proves it for that case. Otherwise each hole reads the values that earlier holes wrote, which `Diffusion.Filled` models.
