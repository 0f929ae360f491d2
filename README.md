# Gear inspection decision logic, in Dafny

This project models the decision logic of a gear-ring inspection program
(`Task.py`). The program compares a reference ("ideal") grey image of the
ring with a test image of the same ring. It reports three things: how many
teeth are worn, how many are missing, and the state of the inner diameter
(`Normal`, `Missing`, `Bigger` or `Smaller`).

The pipeline works like this:

- An inner-disc mask and its complement split each grey image into an
  inner region and an outer (tooth) region.
- The inner regions are binarised with a fixed threshold and XOR-ed. The
  first contour of that difference decides the diameter status.
- The outer regions are binarised with `adaptiveThreshold` and XOR-ed.
  The contours of that difference are filtered for noise (fewer than 15
  points) and counted by area: an area inside the inclusive band
  `[minimum_value_missing_teeth, maximum_value_missing_teeth]` is a missing
  tooth; any other area is a worn tooth.

Files:

- `Images.dfy` (module `Images`): 8-bit single-channel images as rows of
  `bv8` pixels. It holds the per-pixel stages: fixed threshold, XOR, OR,
  NOT and masking.
- `Contours.dfy` (module `Contours`): a contour is a sequence of integer
  points. Its area is twice the `cv.contourArea` value, computed exactly
  as the absolute shoelace sum.
- `Inspection.dfy` (module `Inspection`): the contour filter and the tooth
  counter as loop methods; the inner-diameter classifier; and the main
  block as the method `Inspect`.
- `Wrappers.dfy` (module `Wrappers`): `Option`, which stands for the
  `None` that the diameter check returns when it finds no difference.

How the model represents the program:

- **Areas.** `cv.contourArea` with `oriented=False` is a multiple of one
  half for integer points. The model uses twice the area, so it is an
  integer. It compares that value with twice each configured constant,
  which gives the same outcome as the program's comparison.
- **Constants.** `minimum_value_missing_teeth`, `maximum_value_missing_teeth`
  and `inner_diameter_normal_size` live in the configuration module
  `fixed_values`. That module is not part of this model. The constants are
  fields of `Config`, taken as integers.
- **Library routines as parameters.** `cv.findContours` and
  `cv.adaptiveThreshold` are function parameters.
  - The diameter check extracts contours in `CHAIN_APPROX_NONE` mode
    (`findContoursFull`).
  - The tooth check extracts them in `CHAIN_APPROX_SIMPLE` mode
    (`findContoursSimple`). So the 15-point noise filter counts the points
    of the simplified contour, as the code does.
  - The inner-disc mask is an input image.
- **Threshold.** The fixed threshold turns a pixel on when it is strictly
  above 90 (`THRESH_BINARY`). A pixel equal to 90 becomes 0. The model
  follows the code's strict comparison, not a "90 or more" reading.
- **Masking.** `cv.bitwise_and(src, src, mask=m)` writes `src & src`
  where the mask is non-zero and 0 elsewhere, in a freshly allocated
  output.
  - The two regions split every non-zero pixel between them only when the
    mask is binary. The mask drawn by `cv.circle` with 255 on a zero canvas
    is binary.
  - `NonBinaryMaskOverlaps` shows a one-pixel example of a non-binary mask
    sending a pixel to both regions.

## Model

| member | source | states |
|---|---|---|
| `Images.Threshold` | Task.py:34-35 | The output has the input's shape and is binary. A pixel is 255 exactly when the input pixel is strictly greater than 90 and 0 otherwise, so 90 itself maps to 0. |
| `Images.Xor` | Task.py:36 | Defined on two images of equal shape. Each output pixel is the bitwise XOR of the two input pixels. |
| `Images.XorSymmetric` | Task.py:103 | `xor(a, b) == xor(b, a)`. |
| `Images.XorSelfIsZero` | Task.py:36 | An image XOR-ed with itself is all zero. |
| `Images.XorMarksDisagreement` | Task.py:36 | On binary inputs the XOR is binary. It is 255 exactly where the two inputs differ. |
| `Images.ThresholdXorMarksCrossing` | Task.py:34-36 | The inner-diameter difference is 255 at a pixel exactly when one grey image is above 90 there and the other is not. |
| `Images.Or` | Task.py:106 | Defined on two images of equal shape. Each output pixel is the bitwise OR of the inputs. |
| `Images.OrMarksEither` | Task.py:106 | On binary inputs the OR is binary. It is 255 exactly where at least one input is 255. |
| `Images.Not` | Task.py:88 | Has the input's shape. Each pixel is the bitwise complement. |
| `Images.Masked` | Task.py:90-93 | Has the source's shape. A pixel keeps the source value where the mask is non-zero and is 0 elsewhere. |
| `Images.MaskPartition` | Task.py:88-93 | For a binary mask, every non-zero source pixel survives in exactly one of the two masked images (mask and complement). OR-ing the two images gives back the source. |
| `Images.NonBinaryMaskOverlaps` | Task.py:88-91 | A mask pixel of 100 sends a source pixel to both regions, so the partition needs a binary mask. |
| `Contours.TwiceArea` | Task.py:23 | Twice `contourArea`: never negative, and zero for a contour of at most two points. |
| `Contours.FewPointsEncloseNothing` | Task.py:40 | The shoelace sum of a contour with at most two points is zero. |
| `Contours.AreaIndependentOfStart` | Task.py:40 | Starting the boundary at any of its points gives the same signed and unsigned area. |
| `Contours.AreaIndependentOfDirection` | Task.py:23 | Tracing the boundary backwards negates the signed area and leaves the unsigned area unchanged. |
| `Contours.RectangleArea` | Task.py:23 | An axis-aligned w×h rectangle has twice-area `2·w·h`, that is `contourArea` `w·h`. |
| `Inspection.Significant` | Task.py:12-16 | The filtered list is never longer than the input. Every contour in it has at least 15 points. |
| `Inspection.SignificantMembers` | Task.py:13-15 | A contour is in the filtered list exactly when it is in the input and has at least 15 points. |
| `Inspection.SignificantIsSubsequence` | Task.py:12-16 | The filtered list is a subsequence of the input: contours are only dropped, never reordered. |
| `Inspection.SignificantAppend` | Task.py:13-15 | Filtering `a + b` gives the filtered `a` followed by the filtered `b`, so input order is preserved. |
| `Inspection.SignificantIdempotent` | Task.py:12-16 | Filtering an already filtered list changes nothing. |
| `Inspection.OnlyShortContoursFilterToEmpty` | Task.py:14 | An input made only of contours with fewer than 15 points filters to the empty list. |
| `Inspection.FilterSmallContours` | Task.py:8-16 | The loop that appends long contours returns exactly the specified filtered list. That list holds the input contours with at least 15 points, as a subsequence of the input. |
| `Inspection.MissingCount` | Task.py:24-25 | The number of contours whose area is in the inclusive missing-tooth band is at most the number of contours. |
| `Inspection.WornCount` | Task.py:26-27 | The number of contours whose area is outside the band is at most the number of contours. |
| `Inspection.CountsPartition` | Task.py:22-27 | Missing count plus worn count equals the number of contours: each contour is counted once, into exactly one of them. |
| `Inspection.CountsAppend` | Task.py:18-28 | Both counts add up over concatenation. Carrying the counts as accumulators across calls therefore equals one call on the joined list. |
| `Inspection.NoMissingIff` | Task.py:24-25 | The missing count is zero exactly when no contour's area lies in the band. |
| `Inspection.CheckContourType` | Task.py:18-28 | The missing result is `missing_in` plus the in-band count. The worn result is `worn_in` plus the out-of-band count. Their sum grows by exactly the number of contours, and neither counter decreases. |
| `Inspection.ClassifyDiameterArea` | Task.py:44-49 | Never `Normal`. `Missing` iff the area equals the normal size, `Bigger` iff greater, `Smaller` iff less. |
| `Inspection.DiameterDecision` | Task.py:39-49 | `Normal` iff there are no contours. Otherwise the status is Missing, Bigger or Smaller as the first contour's area is equal to, greater than or less than the normal size. |
| `Inspection.FirstContourDecides` | Task.py:40 | Two contour lists with the same first contour get the same status, so later contours never matter. |
| `Inspection.InnerDifference` | Task.py:34-36 | The thresholded XOR is binary. It is 255 exactly where one image is above 90 and the other is not. |
| `Inspection.CheckInnerDiameter` | Task.py:30-49 | The result is `(Normal, None)` exactly when extraction yields no contours. Otherwise the status is the first contour's area class, given by `DiameterDecision`, paired with `Some` of the difference image. |
| `Inspection.OverallDifference` | Task.py:104-106 | The overall difference has the shape of the tooth difference. |
| `Inspection.OverallDifferenceMarksDeviations` | Task.py:104-106 | On binary maps the result is binary. At every pixel it is 255 exactly where the tooth difference is, or where the inner difference is and the status is not Normal. |
| `Inspection.ToothDifference` | Task.py:88-103 | The outer-region difference has the grey image's shape and is binary. It is 255 exactly where the two adaptively thresholded outer regions disagree, and all zero when reference and test are equal. |
| `Inspection.Inspect` | Task.py:68-122 | The report holds the diameter status from the masked inner regions, the overall difference, the filtered tooth contours, and their missing and worn counts from zero, which add up to the number of those contours. The overall difference is binary and is 255 exactly where the tooth difference is, or where the inner difference is and the status is not Normal. For identical images, and extractors that find nothing in a blank image, the result is 0 worn, 0 missing, `Normal` and an all-zero difference. |

## Left out

- `taking_user_input` (Task.py:51-66) is not modelled. It reads a text file, prints it, reads a choice from the console and exits on an invalid choice. Its only check is membership in `valid_choices`, which belongs to the configuration module.
- Image loading and colour conversion are left out: `cv.imread` and `cv.cvtColor` (Task.py:71-82). `Inspect` takes the two grey images as inputs.
- Drawing and display are left out: the blank canvases, `cv.drawContours` (Task.py:38, 117-119), the `print` of the report (Task.py:125-129) and `cv.imshow`/`cv.waitKey` (Task.py:132-134). These are output side effects only. The `findContours` calls on the two thresholded images (Task.py:109-110) feed only that drawing, so they are left out too.
- `cv.circle` (Task.py:85-87) is not modelled. Its pixel coverage of the disc is defined by the library, so the mask is an input image.
- `cv.adaptiveThreshold` with `ADAPTIVE_THRESH_GAUSSIAN_C` (Task.py:99-100) is a Gaussian-weighted floating-point neighbourhood computation. It is a function parameter. The model assumes only what the call with `THRESH_BINARY` and 255 guarantees: the output keeps the image's shape and holds only 0 and 255.
- The border-following algorithm of `cv.findContours` (Task.py:37, 111) and the order of its output are not modelled. It is a function parameter, one per approximation mode.
- The configuration module `fixed_values` is not part of this model. Its three area constants are the fields of `Config` and are assumed to be integers.
- OpenCV raises an error when two images of different sizes are combined. The program does not handle that error. The model states it as a `SameShape` precondition.
- Inspection.OverallDifference: its contract states only the shape. What the pixels hold is stated by `OverallDifferenceMarksDeviations`, because that meaning needs binary inputs.
- Floating point: `cv.contourArea` returns a double. The model takes its value to be exact, that is, twice the area is an integer. This holds for pixel coordinates.
