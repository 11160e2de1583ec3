# Head-and-shoulders framing, modelled in Dafny

This project models the geometric core of a portrait-cropping tool. The tool takes a photo, asks
a face detector for face boxes and keeps the largest one. It then cuts a 4:5 head-and-shoulders
region out of the photo and resizes that region to a fixed output size. If no detector or no
face is available, it falls back to a 4:5 crop centred across and placed a third of the way down.
Only the rectangles and sizes are modelled, not the pixels.

Files:

- `wrappers.dfy`: `Option` and `Result`.
- `geometry.dfy`: rectangles, sizes, the 4:5 `TargetRatio` and `Trunc`. `Trunc` is Python's
  `int()` applied to a real, which truncates toward zero.
- `face_locator.dfy`: the largest-face scan of `detect_face_bbox`. `LargestFace` is the
  specification function. `DetectFaceBbox` is the loop, proved against that function.
- `framing.dfy`: `crop_headshot` as functions.
  - `FallbackCrop` is the crop used when no face is found.
  - `FaceCrop` is the clamped head-and-shoulders box.
  - `Normalize` is the 4:5 cut applied to the first crop.
  - `OutputSize` is the resize target.
  - `CropHeadshot` puts these together and returns either the region of the source image or
    the error the code raises.
- `framing_proofs.dfy`: integer-only reference definitions, the containment, aspect and
  output-size lemmas, and the worked examples.

Modelling choices:

- The constants 0.8, 2.2, 3.0 and 0.35 are exact Dafny reals.
- Every `int(...)` is `Trunc`.
- Every `//` by 2 or 3 is Dafny's `/`. For a positive divisor, both round toward negative
  infinity.
- The detector is a parameter of `DetectFaceBbox`, typed `Option<seq<Box>>`. `None` means no
  detector could be loaded. `Some(boxes)` is what one detection call returned.
- `CropHeadshot` takes the chosen box as an `Option<Box>` parameter, instead of calling the
  detector at utils.py:75.

Behaviours of the code to note:

- The output height is `int(out_size / 0.8)`, which truncates. It is not rounded.
- A face crop does not always have positive area. A box lying off the image can clamp to an
  inverted rectangle, and Pillow's `crop` raises on an inverted rectangle (this model assumes
  that Pillow check). A first crop of height 0 makes `cw / ch` at utils.py:105 raise
  `ZeroDivisionError`. `CropHeadshot` returns `Failure(InvertedCrop)` or
  `Failure(ZeroHeightCrop)` in these cases.
- An `out_size` below 1 gives a target size Pillow's `resize` refuses, on both paths
  (utils.py:86 and utils.py:115). `CropHeadshot` returns `Failure(EmptyOutput)` then. On the
  face path the crop errors come first, as in the code.
- `CropHeadshotFailsIff` gives the exact condition for each error. `CropHeadshotFaceSucceeds`
  shows that a positive `out_size` and a face whose origin lies in the image, with sides of at
  least one pixel, always succeed.

## Model

| member | source | states |
|---|---|---|
| `Framing.OutputSize` | utils.py:86 | The target is `out_size` wide. For a non-negative `out_size` it is `5 * out_size div 4` high (`int(out_size / 0.8)`, truncated). Pillow accepts it exactly when `out_size` is positive. `OutputSizeFixed` restates the fixed size as a lemma |
| `Framing.FallbackCrop` | utils.py:79-85 | The fallback crop lies inside the image, and its height is `5 * width div 4`. `FallbackCropInside` adds its width and its position |
| `Framing.FaceCrop` | utils.py:88-99 | The clamped face crop never reaches past the image's right or bottom edge. `FaceCropClamped` adds the lower clamps and the bottom computed from the clamped top. `FaceCropMatchesRef` gives every edge in integer form |
| `Framing.Normalize` | utils.py:103-113 | The 4:5 cut fails exactly when the first crop has height 0, and that failure is the division by zero. `NormalizeWide`, `NormalizeTall` and `NormalizeInside` state both branches and containment |
| `Framing.CropHeadshot` | utils.py:69-115 | A successful result always has the output size `(out_size, 5 * out_size div 4)` with `out_size` positive. Without a face it succeeds exactly when `out_size` is positive, and its region is the fallback crop. `CropHeadshotFailsIff` and `CropHeadshotFrames` state the errors, containment and 4:5 |
| `FaceLocator.LargestFace` | utils.py:58-66 | The box the scan keeps is one of the candidates and has positive area. `LargestFaceNoneIff`, `LargestFaceBound`, `LargestFaceIsFirstLargest` and `LargestFaceFindsFirstLargest` characterise it fully |
| `Geometry.Trunc` | utils.py:96-99 | Python's `int()` on a real truncates toward zero: the result lies within 1 of the value, on the side of zero |
| `FaceLocator.DetectFaceBbox` | utils.py:43-66 | With no detector, or with an empty list, the result is None. Otherwise the loop returns what the scan specification gives: None exactly when every area is at most 0, and otherwise the first box of maximal, positive area |
| `FaceLocator.LargestFaceNoneIff` | utils.py:58-66 | The strict `>` scan, starting from `best_area = 0`, returns None exactly when no box has positive area. This includes the empty list |
| `FaceLocator.LargestFaceBound` | utils.py:58-66 | The area of the box kept (0 if none is kept) is non-negative and at least every candidate's area |
| `FaceLocator.LargestFaceIsFirstLargest` | utils.py:58-66 | A kept box is the earliest box of maximal, positive area: every earlier box has a strictly smaller area |
| `FaceLocator.LargestFaceFindsFirstLargest` | utils.py:58-66 | Conversely, when a box is the first of maximal, positive area, the scan returns exactly that box |
| `FaceLocator.FirstLargestUnique` | utils.py:58-66 | At most one index is the first of maximal positive area, so the box chosen is fully determined |
| `FramingProofs.OutputSizeFixed` | utils.py:86 | The resize target is `(out_size, 5 * out_size div 4)` for every non-negative `out_size` |
| `FramingProofs.OutputSizeExample` | utils.py:115 | `out_size = 1024` gives a 1024 by 1280 output |
| `FramingProofs.FallbackCropInside` | utils.py:79-85 | The fallback crop lies inside the image. Its width is `min(w, 4h div 5)` and its height is `5 * width div 4`. It is centred across, with a third of the spare height above it |
| `FramingProofs.FallbackCropExample` | utils.py:81-85 | A 1000 by 1000 image falls back to the crop (100, 0, 900, 1000) |
| `FramingProofs.FaceCropLeft` | utils.py:91-96 | The left edge `int(max(0, cx - box_w / 2))` is `max(0, (5x - 3fw) div 5)` |
| `FramingProofs.FaceCropTop` | utils.py:92-97 | The top edge `int(max(0, cy - box_h * 0.35))` is `max(0, (20y - 11fh) div 20)` |
| `FramingProofs.FaceCropRight` | utils.py:91-98 | The right edge is `w` when `x + 1.6 fw` reaches the image's width. Otherwise it is `(5x + 8fw) / 5` truncated toward zero |
| `FramingProofs.FaceCropBottom` | utils.py:94-99 | The bottom edge is `min(h, top + 3fh)`. It uses the clamped, truncated `top`, not the raw one |
| `FramingProofs.FaceCropMatchesRef` | utils.py:88-99 | The real-valued face crop equals the integer-only reference `FaceCropRef`, edge by edge |
| `FramingProofs.FaceCropClamped` | utils.py:96-99 | The face crop is clamped to the image. Its bottom is `min(h, top + 3fh)`, computed from the clamped, truncated top |
| `FramingProofs.FaceCropNonEmpty` | utils.py:91-99 | If the face origin lies in the image and both sides are at least 1, the crop has `left <= x < right` and `top <= y < bottom`, so it has positive width and height |
| `FramingProofs.FaceCropExample` | utils.py:91-99 | The face (100, 100, 200, 200) on 1000 by 1000 gives (0, 0, 420, 600). The raw top of -10 is clamped before the bottom is computed |
| `FramingProofs.FaceCropWideExample` | utils.py:91-99 | The face (0, 0, 400, 200) on 1000 by 1000 gives the first crop (0, 0, 640, 600) |
| `FramingProofs.WideIff` | utils.py:105-106 | For a crop of positive height, `cw / ch > 0.8` holds exactly when `5 cw > 4 ch`. The two branches are exclusive and together they cover every such crop |
| `FramingProofs.NormalizeWide` | utils.py:106-109 | A crop wider than 4:5 keeps its height and the width `4ch div 5`. The width is centred, and the odd column goes to the right |
| `FramingProofs.NormalizeTall` | utils.py:110-113 | A crop no wider than 4:5 keeps its width and the height `5cw div 4`. A third of the spare height goes above it |
| `FramingProofs.NormalizeInside` | utils.py:103-113 | For a crop of positive height, normalisation never fails and the second cut lies inside the first crop |
| `FramingProofs.NormalizeFourByFive` | utils.py:103-113 | The normalised crop is 4:5 up to truncation: its height is `5 * width div 4`, or its width is `4 * height div 5` |
| `FramingProofs.NormalizeExample` | utils.py:110-113 | A 420 by 600 crop takes the height branch: 525 rows from row 25 |
| `FramingProofs.NormalizeWideExample` | utils.py:106-109 | A 640 by 600 crop takes the width branch: 480 columns from column 80 |
| `FramingProofs.CropHeadshotFailsIff` | utils.py:86-115 | `crop_headshot` raises exactly when `out_size` is below 1, or when a face was given and its clamped crop is inverted or has height 0. Each error names its cause: a division by zero means the crop's top equals its bottom, and `EmptyOutput` means `out_size` is below 1. Without a face only the resize can raise |
| `FramingProofs.CropHeadshotFaceSucceeds` | utils.py:88-115 | With a positive `out_size`, a face whose origin lies in the image, with sides of at least 1 pixel, is always framed without an error |
| `FramingProofs.CropHeadshotFrames` | utils.py:69-115 | On either path, a successful result cuts a region inside the source image. The region is 4:5 up to truncation, and the output size is `(out_size, 5 * out_size div 4)` |
| `FramingProofs.CropHeadshotFallbackExample` | utils.py:79-86 | No face on 1000 by 1000 gives the region (100, 0, 900, 1000) and output 1024 by 1280 |
| `FramingProofs.CropHeadshotFaceExample` | utils.py:88-115 | The face (100, 100, 200, 200) on 1000 by 1000 gives the region (0, 25, 420, 550) and output 1024 by 1280 |
| `FramingProofs.CropHeadshotWideExample` | utils.py:88-115 | The face (0, 0, 400, 200) on 1000 by 1000 gives the region (80, 0, 560, 600), from the width branch |
| `FramingProofs.CropHeadshotTallExample` | utils.py:88-115 | The face (0, 0, 100, 400) on 1000 by 1000 gives the region (0, 266, 160, 466), from the height branch |

## Left out

- Floating point: the model uses exact rationals where the code uses IEEE doubles. `2.2` is
  not exact in binary. For the face (16, y, 25, fh), Python computes `int(28.5 - 27.500000000000004) = 0`,
  while the exact model gives `left = 1`. The model describes the intended arithmetic, not
  double rounding.
- Pixel work: `crop`, `resize`, `convert` and the resampling filter are not modelled. Only the
  rectangles and target sizes are.
- Resizing an empty crop is not modelled. The model treats it as succeeding, and whether Pillow
  accepts it is not captured. An empty crop arises in these cases:
  - the fallback on an image with `h = 1` or `w = 0` gives width 0;
  - the fallback on an image with `h = 0` gives height 0;
  - a first face crop of width 0 and positive height takes the height branch with a new
    height of 0;
  - a first face crop one pixel high and too wide takes the width branch with a new width
    of 0;
  - in `CropHeadshotFaceSucceeds`, the face (0, 0, 1, 1) on a 1 by 1 image gives a second crop
    0 pixels wide.
- Pillow's `resize` returns a copy when the crop already has the target size. This matters
  only for a 0 by 0 crop with `out_size = 0`, where the model reports `EmptyOutput`.
- `_get_face_detector` (utils.py:20-40): the MediaPipe import, the model-file check and the
  `lru_cache` one-time initialisation are foreign library calls and filesystem I/O. Their
  outcome is the `None` / `Some` parameter of `DetectFaceBbox`.
- The detection call itself (utils.py:49-53): the image conversion and `detector.detect` are
  foreign calls. Only the reduction over the returned boxes is modelled. The 0.5 confidence
  threshold is applied by the detector, not by this code.
- Pillow's refusal to crop an inverted rectangle is library behaviour. It is assumed here, as
  the error `InvertedCrop`.
- `basic_polish` (utils.py:118-124): floating-point contrast, colour and sharpness filters on
  pixels.
- `to_png_bytes` (utils.py:127-130): PNG encoding inside the imaging library.
- app.py: the user interface, session state, prompt text and the network call to the image
  generation service are user-interface and network glue.
