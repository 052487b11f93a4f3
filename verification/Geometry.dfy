/** Rotation and dirty boxes of t6-virtual-display.rs. */
module Geometry {
  import opened Arithmetic
  import opened Wrappers

  const USIZE_MAX: nat := 0xFFFF_FFFF_FFFF_FFFF

  function SatAdd(a: nat, b: nat): nat { Min(a + b, USIZE_MAX) }

  function SatSub(a: nat, b: nat): nat { if a <= b then 0 else a - b }

  datatype Rotation = Deg0 | Deg90 | Deg180 | Deg270

  datatype Point = Point(x: nat, y: nat)

  predicate InFrame(p: Point, width: nat, height: nat) { p.x < width && p.y < height }

  /** rotated_size and Rotation::output_size. */
  function RotatedSize(width: nat, height: nat, rotation: Rotation): (nat, nat) {
    if rotation.Deg0? || rotation.Deg180? then (width, height) else (height, width)
  }

  predicate InOutput(p: Point, width: nat, height: nat, rotation: Rotation) {
    var (w, h) := RotatedSize(width, height, rotation);
    InFrame(p, w, h)
  }

  function OutputCoordinate(p: Point, width: nat, height: nat, rotation: Rotation): Point
    requires InFrame(p, width, height)
  {
    match rotation
    case Deg0 => p
    case Deg90 => Point(height - 1 - p.y, p.x)
    case Deg180 => Point(width - 1 - p.x, height - 1 - p.y)
    case Deg270 => Point(p.y, width - 1 - p.x)
  }

  function SourceCoordinate(p: Point, width: nat, height: nat, rotation: Rotation): Point
    requires InOutput(p, width, height, rotation)
  {
    match rotation
    case Deg0 => p
    case Deg90 => Point(p.y, height - 1 - p.x)
    case Deg180 => Point(width - 1 - p.x, height - 1 - p.y)
    case Deg270 => Point(width - 1 - p.y, p.x)
  }

  lemma CoordinatesInverse(p: Point, width: nat, height: nat, rotation: Rotation)
    ensures InFrame(p, width, height) ==>
      var q := OutputCoordinate(p, width, height, rotation);
      InOutput(q, width, height, rotation) && SourceCoordinate(q, width, height, rotation) == p
    ensures InOutput(p, width, height, rotation) ==>
      var q := SourceCoordinate(p, width, height, rotation);
      InFrame(q, width, height) && OutputCoordinate(q, width, height, rotation) == p
  {
  }

  // ---- boxes ----

  datatype Box = Box(x: nat, y: nat, width: nat, height: nat)
  {
    predicate Has(p: Point) { x <= p.x < x + width && y <= p.y < y + height }

    predicate Within(w: nat, h: nat) { x + width <= w && y + height <= h }

    predicate Nonempty() { width > 0 && height > 0 }
  }

  predicate IsFrame(width: nat, height: nat) { width <= USIZE_MAX && height <= USIZE_MAX }

  /** What a capture callback reports. */
  datatype DirtySummary = DirtySummary(minX: nat, minY: nat, width: nat, height: nat)

  function ClampedDirtyBbox(dirty: DirtySummary, frameWidth: nat, frameHeight: nat): Option<Box> {
    if dirty.width == 0 || dirty.height == 0 || frameWidth == 0 || frameHeight == 0 then None
    else
      var x := Min(dirty.minX, frameWidth);
      var y := Min(dirty.minY, frameHeight);
      var maxX := Min(SatAdd(dirty.minX, dirty.width), frameWidth);
      var maxY := Min(SatAdd(dirty.minY, dirty.height), frameHeight);
      if maxX <= x || maxY <= y then None else Some(Box(x, y, maxX - x, maxY - y))
  }

  /** Clamping loses no pixel of the frame, adds none, and fails only when there is none. */
  lemma ClampedDirtyBboxExact(dirty: DirtySummary, frameWidth: nat, frameHeight: nat, p: Point)
    requires IsFrame(frameWidth, frameHeight) && InFrame(p, frameWidth, frameHeight)
    ensures var b := ClampedDirtyBbox(dirty, frameWidth, frameHeight);
            (dirty.minX <= p.x < dirty.minX + dirty.width && dirty.minY <= p.y < dirty.minY + dirty.height)
            <==> b.Some? && b.value.Has(p)
  {
  }

  lemma ClampedDirtyBboxInside(dirty: DirtySummary, frameWidth: nat, frameHeight: nat)
    ensures var b := ClampedDirtyBbox(dirty, frameWidth, frameHeight);
            b.Some? ==> b.value.Nonempty() && b.value.Within(frameWidth, frameHeight)
  {
  }

  function UnionBbox(a: Box, b: Box, frameWidth: nat, frameHeight: nat): Box {
    var minX := Min(Min(a.x, b.x), frameWidth);
    var minY := Min(Min(a.y, b.y), frameHeight);
    var maxX := Min(Max(SatAdd(a.x, a.width), SatAdd(b.x, b.width)), frameWidth);
    var maxY := Min(Max(SatAdd(a.y, a.height), SatAdd(b.y, b.height)), frameHeight);
    Box(minX, minY, SatSub(maxX, minX), SatSub(maxY, minY))
  }

  predicate Covers(outer: Box, inner: Box) {
    outer.x <= inner.x && outer.y <= inner.y
    && inner.x + inner.width <= outer.x + outer.width && inner.y + inner.height <= outer.y + outer.height
  }

  /** The union of two boxes of a frame is the least box of the frame that covers both. */
  lemma UnionBboxLeast(a: Box, b: Box, frameWidth: nat, frameHeight: nat, other: Box)
    requires IsFrame(frameWidth, frameHeight)
    requires a.Within(frameWidth, frameHeight) && b.Within(frameWidth, frameHeight)
    ensures var u := UnionBbox(a, b, frameWidth, frameHeight);
            u.Within(frameWidth, frameHeight) && Covers(u, a) && Covers(u, b)
            && (Covers(other, a) && Covers(other, b) ==> Covers(other, u))
            && (a.Nonempty() || b.Nonempty() ==> u.width > 0 && u.height > 0)
  {
  }

  function Min4(a: nat, b: nat, c: nat, d: nat): nat { Min(Min(a, b), Min(c, d)) }

  function Max4(a: nat, b: nat, c: nat, d: nat): nat { Max(Max(a, b), Max(c, d)) }

  /** rotate_bbox: the box around the four rotated corners. */
  function RotateBbox(b: Box, frameWidth: nat, frameHeight: nat, rotation: Rotation): Box
    requires b.Nonempty() && b.Within(frameWidth, frameHeight) && IsFrame(frameWidth, frameHeight)
  {
    var x2 := SatSub(SatAdd(b.x, b.width), 1);
    var y2 := SatSub(SatAdd(b.y, b.height), 1);
    var p := OutputCoordinate(Point(b.x, b.y), frameWidth, frameHeight, rotation);
    var q := OutputCoordinate(Point(x2, b.y), frameWidth, frameHeight, rotation);
    var r := OutputCoordinate(Point(b.x, y2), frameWidth, frameHeight, rotation);
    var s := OutputCoordinate(Point(x2, y2), frameWidth, frameHeight, rotation);
    var minX := Min4(p.x, q.x, r.x, s.x);
    var maxX := Max4(p.x, q.x, r.x, s.x);
    var minY := Min4(p.y, q.y, r.y, s.y);
    var maxY := Max4(p.y, q.y, r.y, s.y);
    Box(minX, minY, maxX - minX + 1, maxY - minY + 1)
  }

  /** rotate_bbox is exactly the image of the box: a pixel is in the box if and only if the place
      it goes to is in the rotated box. */
  lemma RotateBboxImage(b: Box, frameWidth: nat, frameHeight: nat, rotation: Rotation, p: Point)
    requires b.Nonempty() && b.Within(frameWidth, frameHeight) && IsFrame(frameWidth, frameHeight)
    requires InFrame(p, frameWidth, frameHeight)
    ensures b.Has(p)
       <==> RotateBbox(b, frameWidth, frameHeight, rotation).Has(OutputCoordinate(p, frameWidth, frameHeight, rotation))
  {
    CornersAre(b, frameWidth, frameHeight);
    hide SatAdd, SatSub;
    match rotation
    case Deg0 =>
    case Deg90 =>
    case Deg180 =>
    case Deg270 =>
  }

  lemma RotateBboxInside(b: Box, frameWidth: nat, frameHeight: nat, rotation: Rotation)
    requires b.Nonempty() && b.Within(frameWidth, frameHeight) && IsFrame(frameWidth, frameHeight)
    ensures var (w, h) := RotatedSize(frameWidth, frameHeight, rotation);
            var r := RotateBbox(b, frameWidth, frameHeight, rotation);
            r.Within(w, h) && r.Nonempty() && (r.width, r.height) == RotatedSize(b.width, b.height, rotation)
  {
    CornersAre(b, frameWidth, frameHeight);
    hide SatAdd, SatSub;
    match rotation
    case Deg0 =>
    case Deg90 =>
    case Deg180 =>
    case Deg270 =>
  }

  lemma CornersAre(b: Box, frameWidth: nat, frameHeight: nat)
    requires b.Nonempty() && b.Within(frameWidth, frameHeight) && IsFrame(frameWidth, frameHeight)
    ensures SatSub(SatAdd(b.x, b.width), 1) == b.x + b.width - 1
    ensures SatSub(SatAdd(b.y, b.height), 1) == b.y + b.height - 1
  {
  }
}
