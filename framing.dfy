/**
 * The framing engine of `crop_headshot`: the rectangle cut out of a `w` by `h`
 * source image, with or without a detected face, its normalisation to 4:5 and
 * the fixed output size. Pixels are not modelled, only the rectangles.
 *
 * Python's `//` by a positive constant is written as Dafny's `/`: for a
 * positive divisor both round toward negative infinity.
 */
module Framing {
  import opened Wrappers
  import opened Geometry
  import opened FaceLocator

  /** Why `crop_headshot` raises instead of returning an image. */
  datatype CropError =
    | InvertedCrop   // Pillow's crop refuses right < left or lower < upper
    | ZeroHeightCrop // `cw / ch` with `ch == 0` raises ZeroDivisionError
    | EmptyOutput    // Pillow's resize refuses a target width or height below 1

  /** The rectangle cut from the source image and the size it is resized to. */
  datatype Framing = Framing(region: Rect, output: Size)

  /** The size every result is resized to: `(out_size, int(out_size / 0.8))`. */
  function OutputSize(outSize: int): (r: Size)
    ensures r.width == outSize
    ensures 0 <= outSize ==> r.height == 5 * outSize / 4
    ensures ValidOutput(r) <==> 0 < outSize
  {
    TruncFiveQuarters(if outSize < 0 then 0 else outSize);
    Size(outSize, Trunc(outSize as real / TargetRatio))
  }

  /** A size Pillow's resize accepts: both sides at least 1. */
  predicate ValidOutput(s: Size) {
    0 < s.width && 0 < s.height
  }

  /** The fallback crop when no face is known: 4:5, centred across, a third down. */
  function FallbackCrop(w: nat, h: nat): (r: Rect)
    ensures r.InsideImage(w, h)
    ensures r.Height() == 5 * r.Width() / 4
  {
    var newW := Min(w, Trunc(h as real * TargetRatio));
    var newH := Min(h, Trunc(newW as real / TargetRatio));
    var left := (w - newW) / 2;
    var top := Max(0, (h - newH) / 3);
    Rect(left, top, left + newW, top + newH)
  }

  /**
   * The head-and-shoulders box around a face: 2.2 face widths across, centred
   * on the face, and 3 face heights down, 35% of them above the face centre;
   * clamped to the image. `bottom` is computed from the clamped `top`.
   */
  function FaceCrop(w: nat, h: nat, b: Box): (r: Rect)
    ensures r.right <= w && r.bottom <= h
  {
    var cx := b.x as real + b.width as real / 2.0;
    var cy := b.y as real + b.height as real / 2.0;
    var boxW := b.width as real * 2.2;
    var boxH := b.height as real * 3.0;
    var left := Trunc(MaxR(0.0, cx - boxW / 2.0));
    var top := Trunc(MaxR(0.0, cy - boxH * 0.35));
    var right := Trunc(MinR(w as real, cx + boxW / 2.0));
    var bottom := Trunc(MinR(h as real, top as real + boxH));
    Rect(left, top, right, bottom)
  }

  /**
   * The second cut, in the coordinates of a `cw` by `ch` crop: too wide a crop
   * loses width evenly on both sides, any other loses height, a third of the
   * excess above and two thirds below.
   */
  function Normalize(cw: int, ch: int): (r: Result<Rect, CropError>)
    ensures r.Failure? <==> ch == 0
    ensures r.Failure? ==> r.error == ZeroHeightCrop
  {
    if ch == 0 then Failure(ZeroHeightCrop)
    else if cw as real / ch as real > TargetRatio then
      var newCw := Trunc(ch as real * TargetRatio);
      var left2 := (cw - newCw) / 2;
      Success(Rect(left2, 0, left2 + newCw, ch))
    else
      var newCh := Trunc(cw as real / TargetRatio);
      var top2 := Max(0, (ch - newCh) / 3);
      Success(Rect(0, top2, cw, top2 + newCh))
  }

  /**
   * `crop_headshot` on a `w` by `h` image whose face detection gave `bbox`:
   * the region of the source image that ends up in the output, and the output
   * size, or the error raised on the way. The crop checks of the face path come
   * before the resize, which checks the target size.
   */
  function CropHeadshot(w: nat, h: nat, bbox: Option<Box>, outSize: int): (r: Result<Framing, CropError>)
    ensures r.Success? ==> r.value.output == Size(outSize, 5 * outSize / 4) && 0 < outSize
    ensures bbox.None? ==> (r.Success? <==> 0 < outSize)
    ensures r.Success? && bbox.None? ==> r.value.region == FallbackCrop(w, h)
  {
    var size := OutputSize(outSize);
    match bbox
    case None =>
      if !ValidOutput(size) then Failure(EmptyOutput)
      else Success(Framing(FallbackCrop(w, h), size))
    case Some(b) =>
      var c := FaceCrop(w, h, b);
      if c.right < c.left || c.bottom < c.top then Failure(InvertedCrop)
      else
        match Normalize(c.Width(), c.Height())
        case Failure(e) => Failure(e)
        case Success(n) =>
          if !ValidOutput(size) then Failure(EmptyOutput)
          else
            Success(Framing(Rect(c.left + n.left, c.top + n.top, c.left + n.right, c.top + n.bottom), size))
  }
}
