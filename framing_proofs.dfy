/**
 * What `crop_headshot` promises about its rectangles: every crop stays inside
 * the image it is cut from, the result is 4:5 up to truncation, the output size
 * is the same on both paths, and the worked examples come out as expected.
 * The real-valued definitions in module Framing are related here to
 * independent integer-only reference definitions.
 */
module FramingProofs {
  import opened Wrappers
  import opened Geometry
  import opened FaceLocator
  import opened Framing

  /** Python's `int(n / d)` on integers: division truncated toward zero. */
  function TruncDiv(n: int, d: int): int
    requires 0 < d
  {
    if n >= 0 then n / d else -((-n) / d)
  }

  /** A width and height that are 4:5 up to the truncation of one of them. */
  predicate FourByFive(rw: int, rh: int) {
    rh == 5 * rw / 4 || rw == 4 * rh / 5
  }

  // ---------------------------------------------------------------- output size

  /** The output is `out_size` wide and `out_size * 5 / 4`, truncated, tall. */
  lemma OutputSizeFixed(outSize: int)
    requires 0 <= outSize
    ensures OutputSize(outSize) == Size(outSize, 5 * outSize / 4)
  {
    TruncFiveQuarters(outSize);
  }

  /** The application's `out_size=1024` gives a 1024 by 1280 image. */
  lemma OutputSizeExample()
    ensures OutputSize(1024) == Size(1024, 1280)
  {
    OutputSizeFixed(1024);
  }

  // ---------------------------------------------------------------- fallback crop

  /**
   * The fallback crop lies inside the image, is as wide as 4:5 allows
   * (`min(w, 4h div 5)`), has the 4:5 height of that width, and is centred
   * across with a third of the spare height above it.
   */
  lemma FallbackCropInside(w: nat, h: nat)
    ensures FallbackCrop(w, h).InsideImage(w, h)
    ensures FallbackCrop(w, h).Width() == Min(w, 4 * h / 5)
    ensures FallbackCrop(w, h).Height() == 5 * FallbackCrop(w, h).Width() / 4
    ensures FallbackCrop(w, h).left == (w - FallbackCrop(w, h).Width()) / 2
    ensures FallbackCrop(w, h).top == (h - FallbackCrop(w, h).Height()) / 3
  {
    TruncFourFifths(h);
    var newW := Min(w, 4 * h / 5);
    TruncFiveQuarters(newW);
    assert 5 * newW / 4 <= h by {
      assert 5 * newW <= 5 * (4 * h / 5) <= 4 * h;
    }
  }

  /** A 1000 by 1000 image falls back to the crop (100, 0, 900, 1000). */
  lemma FallbackCropExample()
    ensures FallbackCrop(1000, 1000) == Rect(100, 0, 900, 1000)
  {
    FallbackCropInside(1000, 1000);
  }

  // ---------------------------------------------------------------- face crop

  /** The face crop computed in integers only, with every real written over a common denominator. */
  function FaceCropRef(w: nat, h: nat, b: Box): Rect {
    var left := Max(0, (5 * b.x - 3 * b.width) / 5);
    var top := Max(0, (20 * b.y - 11 * b.height) / 20);
    var rightNum := 5 * b.x + 8 * b.width;
    var right := if 5 * w <= rightNum then w else TruncDiv(rightNum, 5);
    var bottom := Min(h, top + 3 * b.height);
    Rect(left, top, right, bottom)
  }

  /** The left edge: `max(0, x - 0.6 fw)` truncated is `max(0, (5x - 3fw) div 5)`. */
  lemma FaceCropLeft(w: nat, h: nat, b: Box)
    ensures FaceCrop(w, h, b).left == Max(0, (5 * b.x - 3 * b.width) / 5)
  {
    var lv := (b.x as real + b.width as real / 2.0) - b.width as real * 2.2 / 2.0;
    assert lv == (5 * b.x - 3 * b.width) as real / 5.0;
    if lv >= 0.0 {
      FloorOverConstant(lv, 5 * b.x - 3 * b.width, 5);
    }
  }

  /** The top edge: `max(0, y - 0.55 fh)` truncated is `max(0, (20y - 11fh) div 20)`. */
  lemma FaceCropTop(w: nat, h: nat, b: Box)
    ensures FaceCrop(w, h, b).top == Max(0, (20 * b.y - 11 * b.height) / 20)
  {
    var tv := (b.y as real + b.height as real / 2.0) - b.height as real * 3.0 * 0.35;
    assert tv == (20 * b.y - 11 * b.height) as real / 20.0;
    if tv >= 0.0 {
      FloorOverConstant(tv, 20 * b.y - 11 * b.height, 20);
    }
  }

  /** The right edge: `min(w, x + 1.6 fw)` truncated toward zero. */
  lemma FaceCropRight(w: nat, h: nat, b: Box)
    ensures var n := 5 * b.x + 8 * b.width;
      FaceCrop(w, h, b).right == if 5 * w <= n then w else TruncDiv(n, 5)
  {
    var n := 5 * b.x + 8 * b.width;
    var rv := (b.x as real + b.width as real / 2.0) + b.width as real * 2.2 / 2.0;
    assert rv == n as real / 5.0;
    if !(w as real <= rv) {
      if rv >= 0.0 {
        FloorOverConstant(rv, n, 5);
      } else {
        FloorOverConstant(-rv, -n, 5);
      }
    }
  }

  /** The bottom edge: `min(h, top + 3 fh)`, from the clamped and truncated top. */
  lemma FaceCropBottom(w: nat, h: nat, b: Box)
    ensures FaceCrop(w, h, b).bottom == Min(h, FaceCrop(w, h, b).top + 3 * b.height)
  {
    var top := FaceCrop(w, h, b).top;
    assert top as real + b.height as real * 3.0 == (top + 3 * b.height) as real;
  }

  /** The real-valued face crop agrees with its integer reference. */
  lemma FaceCropMatchesRef(w: nat, h: nat, b: Box)
    ensures FaceCrop(w, h, b) == FaceCropRef(w, h, b)
  {
    FaceCropLeft(w, h, b);
    FaceCropTop(w, h, b);
    FaceCropRight(w, h, b);
    FaceCropBottom(w, h, b);
  }

  /**
   * The face crop is clamped to the image, and its bottom is three face
   * heights below the already clamped and truncated top, or the image's bottom.
   */
  lemma FaceCropClamped(w: nat, h: nat, b: Box)
    ensures 0 <= FaceCrop(w, h, b).left && FaceCrop(w, h, b).right <= w
    ensures 0 <= FaceCrop(w, h, b).top && FaceCrop(w, h, b).bottom <= h
    ensures FaceCrop(w, h, b).bottom == Min(h, FaceCrop(w, h, b).top + 3 * b.height)
  {
    FaceCropMatchesRef(w, h, b);
  }

  /**
   * A face whose origin lies in the image and whose sides are at least one
   * pixel gives a crop of positive width and height that holds the origin.
   */
  lemma FaceCropNonEmpty(w: nat, h: nat, b: Box)
    requires 0 <= b.x < w && 0 <= b.y < h
    requires 1 <= b.width && 1 <= b.height
    ensures FaceCrop(w, h, b).left <= b.x < FaceCrop(w, h, b).right
    ensures FaceCrop(w, h, b).top <= b.y < FaceCrop(w, h, b).bottom
  {
    FaceCropMatchesRef(w, h, b);
  }

  /**
   * The face (100, 100, 200, 200) on a 1000 by 1000 image is cut to
   * (0, 0, 420, 600): the top, raw -10, is clamped to 0 before the bottom
   * is computed from it.
   */
  lemma FaceCropExample()
    ensures FaceCrop(1000, 1000, Box(100, 100, 200, 200)) == Rect(0, 0, 420, 600)
  {
    FaceCropMatchesRef(1000, 1000, Box(100, 100, 200, 200));
  }

  // ---------------------------------------------------------------- 4:5 normalisation

  /** Comparing `cw / ch` with 0.8 is comparing `5 cw` with `4 ch`. */
  lemma WideIff(cw: int, ch: int)
    requires 0 < ch
    ensures cw as real / ch as real > TargetRatio <==> 5 * cw > 4 * ch
  {
    var q := cw as real / ch as real;
    assert q * ch as real == cw as real;
    if q > TargetRatio {
      assert q * ch as real > TargetRatio * ch as real;
    } else {
      assert q * ch as real <= TargetRatio * ch as real;
    }
  }

  /**
   * A crop wider than 4:5 keeps its height and the width `4 ch div 5`,
   * centred, with the odd column on the right.
   */
  lemma NormalizeWide(cw: int, ch: int)
    requires 0 < ch && 5 * cw > 4 * ch
    ensures var newCw := 4 * ch / 5;
      Normalize(cw, ch) == Success(Rect((cw - newCw) / 2, 0, (cw - newCw) / 2 + newCw, ch))
  {
    WideIff(cw, ch);
    TruncFourFifths(ch);
  }

  /**
   * A crop no wider than 4:5 keeps its width and the height `5 cw div 4`,
   * a third of the spare height above it and two thirds below.
   */
  lemma NormalizeTall(cw: int, ch: int)
    requires 0 <= cw && 0 < ch && 5 * cw <= 4 * ch
    ensures var newCh := 5 * cw / 4;
      Normalize(cw, ch) == Success(Rect(0, (ch - newCh) / 3, cw, (ch - newCh) / 3 + newCh))
  {
    WideIff(cw, ch);
    TruncFiveQuarters(cw);
  }

  /** On a non-empty `cw` by `ch` crop the normalisation succeeds and stays inside it. */
  lemma NormalizeInside(cw: int, ch: int)
    requires 0 <= cw && 0 < ch
    ensures Normalize(cw, ch).Success?
    ensures Normalize(cw, ch).value.InsideImage(cw, ch)
  {
    if 5 * cw > 4 * ch {
      NormalizeWide(cw, ch);
    } else {
      NormalizeTall(cw, ch);
    }
  }

  /** Normalising a crop gives 4:5 up to truncation. */
  lemma NormalizeFourByFive(cw: int, ch: int)
    requires 0 <= cw && 0 < ch
    ensures Normalize(cw, ch).Success?
    ensures FourByFive(Normalize(cw, ch).value.Width(), Normalize(cw, ch).value.Height())
  {
    if 5 * cw > 4 * ch {
      NormalizeWide(cw, ch);
    } else {
      NormalizeTall(cw, ch);
    }
  }

  /** A 420 by 600 crop is too tall: it keeps 525 rows starting 25 rows down. */
  lemma NormalizeExample()
    ensures Normalize(420, 600) == Success(Rect(0, 25, 420, 550))
  {
    NormalizeTall(420, 600);
  }

  // ---------------------------------------------------------------- crop_headshot

  /**
   * `crop_headshot` raises exactly when a face was given and its clamped crop
   * is inverted (which Pillow's crop refuses) or has height 0 (the ratio
   * divides by it), or when `out_size` is below 1 (which Pillow's resize
   * refuses). Each error names its cause; on the fallback path only the
   * resize can raise.
   */
  lemma CropHeadshotFailsIff(w: nat, h: nat, bbox: Option<Box>, outSize: int)
    ensures CropHeadshot(w, h, bbox, outSize).Failure? <==>
      || outSize <= 0
      || (bbox.Some? &&
          var c := FaceCrop(w, h, bbox.value);
          c.right < c.left || c.bottom <= c.top)
    ensures var r := CropHeadshot(w, h, bbox, outSize);
      r.Failure? && r.error == ZeroHeightCrop ==>
        bbox.Some? && FaceCrop(w, h, bbox.value).bottom == FaceCrop(w, h, bbox.value).top
    ensures var r := CropHeadshot(w, h, bbox, outSize);
      r.Failure? && r.error == InvertedCrop ==>
        bbox.Some? &&
        var c := FaceCrop(w, h, bbox.value);
        c.right < c.left || c.bottom < c.top
    ensures var r := CropHeadshot(w, h, bbox, outSize);
      r.Failure? && r.error == EmptyOutput ==> outSize <= 0
  {
    var size := OutputSize(outSize);
    if bbox.Some? {
      var c := FaceCrop(w, h, bbox.value);
      if c.left <= c.right && c.top < c.bottom {
        NormalizeInside(c.Width(), c.Height());
      }
    }
  }

  /**
   * A face whose origin lies in the image, with sides of at least a pixel, is
   * always framed when the output size is positive.
   */
  lemma CropHeadshotFaceSucceeds(w: nat, h: nat, b: Box, outSize: int)
    requires 0 <= b.x < w && 0 <= b.y < h
    requires 1 <= b.width && 1 <= b.height
    requires 0 < outSize
    ensures CropHeadshot(w, h, Some(b), outSize).Success?
  {
    FaceCropNonEmpty(w, h, b);
    CropHeadshotFailsIff(w, h, Some(b), outSize);
  }

  /**
   * Whenever `crop_headshot` returns, on either path, the region it cut lies
   * inside the source image, is 4:5 up to truncation, and the output has the
   * fixed size `(out_size, out_size * 5 / 4)`.
   */
  lemma CropHeadshotFrames(w: nat, h: nat, bbox: Option<Box>, outSize: int)
    requires CropHeadshot(w, h, bbox, outSize).Success?
    ensures CropHeadshot(w, h, bbox, outSize).value.region.InsideImage(w, h)
    ensures var r := CropHeadshot(w, h, bbox, outSize).value.region;
      FourByFive(r.Width(), r.Height())
    ensures CropHeadshot(w, h, bbox, outSize).value.output == Size(outSize, 5 * outSize / 4)
  {
    OutputSizeFixed(outSize);
    match bbox
    case None =>
      FallbackCropInside(w, h);
    case Some(b) =>
      var c := FaceCrop(w, h, b);
      FaceCropClamped(w, h, b);
      NormalizeInside(c.Width(), c.Height());
      NormalizeFourByFive(c.Width(), c.Height());
  }

  /** No face on a 1000 by 1000 image: crop (100, 0, 900, 1000), output 1024 by 1280. */
  lemma CropHeadshotFallbackExample()
    ensures CropHeadshot(1000, 1000, None, 1024)
         == Success(Framing(Rect(100, 0, 900, 1000), Size(1024, 1280)))
  {
    FallbackCropExample();
    OutputSizeExample();
  }

  /**
   * The face (100, 100, 200, 200) on 1000 by 1000: first crop (0, 0, 420, 600),
   * too tall, so 525 rows are kept from row 25.
   */
  lemma CropHeadshotFaceExample()
    ensures CropHeadshot(1000, 1000, Some(Box(100, 100, 200, 200)), 1024)
         == Success(Framing(Rect(0, 25, 420, 550), Size(1024, 1280)))
  {
    FaceCropExample();
    NormalizeExample();
    OutputSizeExample();
  }

  /** The wide face (0, 0, 400, 200) on 1000 by 1000 is first cut to (0, 0, 640, 600). */
  lemma FaceCropWideExample()
    ensures FaceCrop(1000, 1000, Box(0, 0, 400, 200)) == Rect(0, 0, 640, 600)
  {
    FaceCropMatchesRef(1000, 1000, Box(0, 0, 400, 200));
  }

  /** A 640 by 600 crop is too wide: it keeps 480 columns starting 80 columns in. */
  lemma NormalizeWideExample()
    ensures Normalize(640, 600) == Success(Rect(80, 0, 560, 600))
  {
    NormalizeWide(640, 600);
  }

  /** A wide face (0, 0, 400, 200): first crop (0, 0, 640, 600), too wide, 480 columns from 80. */
  lemma CropHeadshotWideExample()
    ensures CropHeadshot(1000, 1000, Some(Box(0, 0, 400, 200)), 1024)
         == Success(Framing(Rect(80, 0, 560, 600), Size(1024, 1280)))
  {
    FaceCropWideExample();
    NormalizeWideExample();
    OutputSizeExample();
  }

  /** The narrow face (0, 0, 100, 400) on 1000 by 1000 is first cut to (0, 0, 160, 1000). */
  lemma FaceCropTallExample()
    ensures FaceCrop(1000, 1000, Box(0, 0, 100, 400)) == Rect(0, 0, 160, 1000)
  {
    FaceCropMatchesRef(1000, 1000, Box(0, 0, 100, 400));
  }

  /** A 160 by 1000 crop is too tall: it keeps 200 rows starting 266 rows down. */
  lemma NormalizeTallExample()
    ensures Normalize(160, 1000) == Success(Rect(0, 266, 160, 466))
  {
    NormalizeTall(160, 1000);
  }

  /** A narrow face (0, 0, 100, 400): first crop (0, 0, 160, 1000), too tall, 200 rows from 266. */
  lemma CropHeadshotTallExample()
    ensures CropHeadshot(1000, 1000, Some(Box(0, 0, 100, 400)), 1024)
         == Success(Framing(Rect(0, 266, 160, 466), Size(1024, 1280)))
  {
    FaceCropTallExample();
    NormalizeTallExample();
    OutputSizeExample();
  }
}
