/**
 * Spatial part of one detection tick: turning the detector's first prediction into a
 * bounding box, the acceptance test (large enough and centred), and the padded crop
 * rectangle handed to the capture.
 */
module Geometry {
  import opened Wrappers

  /** A point in frame pixel coordinates. */
  datatype Point = Point(x: real, y: real)

  /** One raw prediction of the face model: its top-left and bottom-right corners. */
  datatype Prediction = Prediction(topLeft: Point, bottomRight: Point)

  /** A bounding box `[x, y, width, height]` as the component stores it. */
  datatype Box = Box(x: real, y: real, w: real, h: real)

  /** The source rectangle `sx, sy, sw, sh` drawn into the capture canvas. */
  datatype Crop = Crop(sx: real, sy: real, sw: real, sh: real)

  /** Minimum share of the frame area a face must cover (strictly more than this). */
  const MIN_AREA_FRACTION: real := 0.12
  /** Open window, as fractions of the frame side, in which the centre must lie. */
  const CENTER_LOW: real := 0.25
  const CENTER_HIGH: real := 0.75
  /** Pixels of padding added on every side of the crop. */
  const CROP_PADDING: real := 40.0

  function Max(a: real, b: real): real { if a >= b then a else b }
  function Min(a: real, b: real): real { if a <= b then a else b }

  /** The box spanned by a prediction's two corners (width and height may be negative). */
  function BoxOf(p: Prediction): Box
  {
    Box(p.topLeft.x, p.topLeft.y,
        p.bottomRight.x - p.topLeft.x, p.bottomRight.y - p.topLeft.y)
  }

  function Center(b: Box): Point
  {
    Point(b.x + b.w / 2.0, b.y + b.h / 2.0)
  }

  /** The box covers strictly more than 12% of the frame. */
  predicate LargeEnough(b: Box, width: nat, height: nat)
  {
    b.w * b.h > (width as real * height as real) * MIN_AREA_FRACTION
  }

  /** The box centre lies strictly inside the middle 25%..75% window on both axes. */
  predicate Centered(b: Box, width: nat, height: nat)
  {
    var c := Center(b);
    c.x > width as real * CENTER_LOW && c.x < width as real * CENTER_HIGH &&
    c.y > height as real * CENTER_LOW && c.y < height as real * CENTER_HIGH
  }

  predicate Accepted(b: Box, width: nat, height: nat)
  {
    LargeEnough(b, width, height) && Centered(b, width, height)
  }

  /** The face of this tick: the first prediction's box when it passes the acceptance test. */
  function BestFace(predictions: seq<Prediction>, width: nat, height: nat): (r: Option<Box>)
    ensures r.Some? ==> |predictions| > 0 && r.value == BoxOf(predictions[0])
  {
    if |predictions| > 0 && Accepted(BoxOf(predictions[0]), width, height) then
      Some(BoxOf(predictions[0]))
    else
      None
  }

  /**
   * The acceptance test stated against the raw corners: a face is kept exactly when
   * there is a first prediction, the area spanned by its corners is strictly more
   * than 12% of the frame, and the midpoint of its corners lies strictly inside the
   * 25%..75% window on both axes. The kept box starts at the top-left corner and
   * ends at the bottom-right one.
   */
  lemma BestFaceIffCorners(predictions: seq<Prediction>, width: nat, height: nat)
    ensures var r := BestFace(predictions, width, height);
      (r.Some? <==>
        |predictions| > 0 &&
        (var p, W, H := predictions[0], width as real, height as real;
         (p.bottomRight.x - p.topLeft.x) * (p.bottomRight.y - p.topLeft.y) > 0.12 * W * H &&
         0.25 * W < (p.topLeft.x + p.bottomRight.x) / 2.0 < 0.75 * W &&
         0.25 * H < (p.topLeft.y + p.bottomRight.y) / 2.0 < 0.75 * H)) &&
      (r.Some? ==>
        r.value.x == predictions[0].topLeft.x && r.value.y == predictions[0].topLeft.y &&
        r.value.x + r.value.w == predictions[0].bottomRight.x &&
        r.value.y + r.value.h == predictions[0].bottomRight.y)
  {
  }

  /** Only the first prediction is ever looked at: the others can be anything. */
  lemma OnlyFirstPredictionCounts(p: Prediction, rest1: seq<Prediction>, rest2: seq<Prediction>,
                                  width: nat, height: nat)
    ensures BestFace([p] + rest1, width, height) == BestFace([p] + rest2, width, height)
    ensures BestFace([p] + rest1, width, height) == BestFace([p], width, height)
  {
  }

  /** A box whose area is exactly 12% of the frame is rejected, whatever its position. */
  lemma ExactMinimumAreaRejected(b: Box, width: nat, height: nat)
    requires b.w * b.h == 0.12 * (width as real) * (height as real)
    ensures !Accepted(b, width, height)
  {
  }

  /** A centre exactly on an edge of the window is rejected, whatever the size. */
  lemma WindowEdgeRejected(b: Box, width: nat, height: nat)
    requires Center(b).x == 0.25 * width as real || Center(b).x == 0.75 * width as real ||
             Center(b).y == 0.25 * height as real || Center(b).y == 0.75 * height as real
    ensures !Accepted(b, width, height)
  {
  }

  /**
   * The crop: the box padded by 40 px on each side, with the top-left corner clamped
   * to the frame origin and the extent clamped to the frame's right and bottom edges.
   */
  function CropOf(b: Box, width: nat, height: nat): Crop
  {
    var sx := Max(0.0, b.x - CROP_PADDING);
    var sy := Max(0.0, b.y - CROP_PADDING);
    Crop(sx, sy,
         Min(width as real - sx, b.w + CROP_PADDING * 2.0),
         Min(height as real - sy, b.h + CROP_PADDING * 2.0))
  }

  /**
   * The crop never leaves the frame: it starts at or after the origin, ends at or
   * before the right and bottom edges, and is at most 80 px wider and taller than the
   * box. It still covers the part of the box inside the frame: it starts no later
   * than the box and ends no earlier than the box or the frame edge.
   */
  lemma CropWithinFrame(b: Box, width: nat, height: nat)
    ensures var r := CropOf(b, width, height);
      r.sx >= 0.0 && r.sy >= 0.0 &&
      r.sx + r.sw <= width as real && r.sy + r.sh <= height as real &&
      r.sw <= b.w + 80.0 && r.sh <= b.h + 80.0 &&
      r.sx <= Max(b.x, 0.0) && r.sy <= Max(b.y, 0.0) &&
      r.sx + r.sw >= Min(width as real, b.x + b.w) && r.sy + r.sh >= Min(height as real, b.y + b.h)
  {
  }

  /** When the padded box fits in the frame, the crop is exactly the padded box. */
  lemma CropIsPaddedBoxWhenInside(b: Box, width: nat, height: nat)
    requires b.x >= 40.0 && b.y >= 40.0
    requires b.x + b.w + 40.0 <= width as real && b.y + b.h + 40.0 <= height as real
    ensures CropOf(b, width, height) == Crop(b.x - 40.0, b.y - 40.0, b.w + 80.0, b.h + 80.0)
  {
  }

  /**
   * An accepted box with positive extent always yields a crop of positive size: its
   * left and top edges lie before the frame's 75% lines, so the clamped extent stays positive.
   */
  lemma AcceptedCropIsNonEmpty(b: Box, width: nat, height: nat)
    requires Accepted(b, width, height)
    requires b.w > 0.0 && b.h > 0.0
    ensures CropOf(b, width, height).sw > 0.0 && CropOf(b, width, height).sh > 0.0
  {
  }

  /**
   * Nothing guards against a prediction whose corners are swapped: both sides of the
   * box are then negative, their product is positive, so the box can pass the
   * acceptance test, and its crop has negative width and height.
   */
  lemma SwappedCornersGiveNegativeCrop()
    ensures BestFace([Prediction(Point(840.0, 560.0), Point(440.0, 160.0))], 1280, 720) ==
              Some(Box(840.0, 560.0, -400.0, -400.0))
    ensures CropOf(Box(840.0, 560.0, -400.0, -400.0), 1280, 720) == Crop(800.0, 520.0, -320.0, -320.0)
  {
  }
}
