/** Conversion of captured BGRA frames to NV12 and YV12 (t6-virtual-display.rs), and the flip headers
    that tell the device where the planes are (lib.rs). */
module Yuv {
  import opened Arithmetic
  import opened Wrappers
  import opened Bytes
  import opened Geometry
  import opened Pictures
  import opened Planes
  import opened Tiles

  /** What bgr_to_yuv makes of a pixel. */
  datatype Yuv = Yuv(y: byte, u: byte, v: byte)

  // ---- chroma ----

  datatype ChromaMode = Average | TopLeft | Saturated

  type Chroma = (byte, byte)

  function SumU(s: seq<Chroma>): nat { if s == [] then 0 else SumU(s[..|s| - 1]) + s[|s| - 1].0 }

  function SumV(s: seq<Chroma>): nat { if s == [] then 0 else SumV(s[..|s| - 1]) + s[|s| - 1].1 }

  function Score(c: Chroma): nat {
    var du, dv := c.0 - 128, c.1 - 128;
    Square(du) + Square(dv)
  }

  function Square(x: int): nat { if x < 0 then (-x) * (-x) else x * x }

  /** The first sample that is farthest from grey. */
  function Farthest(s: seq<Chroma>): Chroma
    requires s != []
  {
    if |s| == 1 then s[0]
    else
      var before := Farthest(s[..|s| - 1]);
      if Score(s[|s| - 1]) > Score(before) then s[|s| - 1] else before
  }

  /** No sample is farther from grey than sample `i`, and none before it is as far. */
  ghost predicate FirstFarthest(s: seq<Chroma>, i: nat)
    requires i < |s|
  {
    (forall j :: 0 <= j < |s| ==> Score(s[j]) <= Score(s[i])) && (forall j :: 0 <= j < i ==> Score(s[j]) < Score(s[i]))
  }

  lemma {:induction false} FarthestIs(s: seq<Chroma>) returns (i: nat)
    requires s != []
    ensures i < |s| && Farthest(s) == s[i] && FirstFarthest(s, i)
  {
    hide Score;
    var n := |s| - 1;
    if n == 0 {
      i := 0;
    } else {
      var t := s[..n];
      var k := FarthestIs(t);
      assert forall j :: 0 <= j < n ==> s[j] == t[j];
      i := if Score(s[n]) > Score(t[k]) then n else k;
    }
  }

  function Mean(sum: nat, n: nat): byte
    requires n > 0 && sum <= 255 * n
  {
    MeanFits(sum, n);
    sum / n
  }

  function Chosen(mode: ChromaMode, s: seq<Chroma>): Chroma
    requires 0 < |s| <= 257
  {
    match mode
    case Average => SumsSmall(s); (Mean(SumU(s), |s|), Mean(SumV(s), |s|))
    case TopLeft => s[0]
    case Saturated => Farthest(s)
  }

  lemma {:induction false} SumsSmall(s: seq<Chroma>)
    ensures SumU(s) <= 255 * |s| && SumV(s) <= 255 * |s|
  {
    if s != [] { SumsSmall(s[..|s| - 1]); }
  }

  lemma MeanFits(a: nat, n: nat)
    requires n > 0 && a <= 255 * n
    ensures a / n <= 255
  {
  }

  class ChromaAccumulator {
    const mode: ChromaMode
    var count: u16
    var uSum: u16
    var vSum: u16
    var selectedU: byte
    var selectedV: byte
    var selectedScore: int
    ghost var pushed: seq<Chroma>

    ghost predicate Valid()
      reads this
    {
      && count == |pushed| <= 257 && uSum == SumU(pushed) && vSum == SumV(pushed)
      && (mode == TopLeft && pushed != [] ==> (selectedU, selectedV) == pushed[0])
      && (mode == Saturated && pushed != [] ==>
          (selectedU, selectedV) == Farthest(pushed) && selectedScore == Score((selectedU, selectedV)))
      && (mode == Saturated && pushed == [] ==> selectedScore == -1)
    }

    constructor (mode: ChromaMode)
      ensures Valid() && pushed == [] && this.mode == mode
    {
      this.mode := mode;
      count, uSum, vSum, selectedU, selectedV, selectedScore, pushed := 0, 0, 0, 128, 128, -1, [];
    }

    /** The 16-bit sums do not overflow before the 258th sample. */
    method Push(u: byte, v: byte)
      requires Valid() && |pushed| < 257
      modifies this
      ensures Valid() && pushed == old(pushed) + [(u, v)]
    {
      ghost var was, now := pushed, pushed + [(u, v)];
      assert now[..|now| - 1] == was;
      SumsSmall(was);
      SumsSmall(now);
      count := count + 1;
      uSum := uSum + u;
      vSum := vSum + v;
      pushed := now;
      hide SumU, SumV;
      match mode
      case Average =>
      case TopLeft =>
        if count == 1 { selectedU, selectedV := u, v; }
      case Saturated =>
        var score := Score((u, v));
        if score > selectedScore { selectedScore, selectedU, selectedV := score, u, v; }
    }

    method Finish() returns (u: byte, v: byte)
      requires Valid() && pushed != []
      ensures (u, v) == Chosen(mode, pushed)
    {
      SumsSmall(pushed);
      hide SumU, SumV, Farthest, Score;
      if mode == Average { u, v := Mean(uSum, count), Mean(vSum, count); } else { u, v := selectedU, selectedV; }
    }
  }

  // ---- what the buffers are to hold ----

  type Convert = Pixel -> Yuv

  function ChromaOf(toYuv: Convert, p: Pixel): Chroma { var c := toYuv(p); (c.u, c.v) }

  /** The four samples of a block, left to right and top to bottom. */
  function BlockSamples(picture: Picture, toYuv: Convert, i: nat, j: nat): (s: seq<Chroma>)
    ensures |s| == 4
  {
    [ChromaOf(toYuv, picture(Point(2 * i, 2 * j))), ChromaOf(toYuv, picture(Point(2 * i + 1, 2 * j))),
     ChromaOf(toYuv, picture(Point(2 * i, 2 * j + 1))), ChromaOf(toYuv, picture(Point(2 * i + 1, 2 * j + 1)))]
  }

  function BlockChroma(picture: Picture, toYuv: Convert, mode: ChromaMode, i: nat, j: nat): Chroma {
    Chosen(mode, BlockSamples(picture, toYuv, i, j))
  }

  function LumaPlane(picture: Picture, toYuv: Convert, w: nat, h: nat): Plane {
    Plane(0, Align(w, 16), w, h, (p: Point) => toYuv(picture(p)).y)
  }

  /** NV12: U and V side by side, with the pitch of the luma plane. */
  function UvPlane(picture: Picture, toYuv: Convert, mode: ChromaMode, w: nat, h: nat): Plane {
    Plane(Align(w, 16) * h, Align(w, 16), w, h / 2,
          (p: Point) => if p.x % 2 == 0 then BlockChroma(picture, toYuv, mode, p.x / 2, p.y).0
                        else BlockChroma(picture, toYuv, mode, p.x / 2, p.y).1)
  }

  /** YV12: U and V behind each other, each with its own pitch. */
  function UPlane(picture: Picture, toYuv: Convert, mode: ChromaMode, w: nat, h: nat): Plane {
    Plane(Align(w, 16) * h, Align(w / 2, 16), w / 2, h / 2, (p: Point) => BlockChroma(picture, toYuv, mode, p.x, p.y).0)
  }

  function VPlane(picture: Picture, toYuv: Convert, mode: ChromaMode, w: nat, h: nat): Plane {
    Plane(Align(w, 16) * h + Align(w / 2, 16) * (h / 2), Align(w / 2, 16), w / 2, h / 2,
          (p: Point) => BlockChroma(picture, toYuv, mode, p.x, p.y).1)
  }

  /** Every plane of a buffer is full, and the rest is zero. */
  ghost predicate AllFilled(out: seq<byte>, planes: seq<Plane>) {
    (forall i :: 0 <= i < |planes| ==> Filled(out, planes[i], (p: Point) => true)) && PaddingZero(out, planes)
  }

  // ---- the loops ----

  /** The places of a plane that the blocks before (x, y) cover, block by block in rows; a plane may have
      fewer samples than pixels in either direction. */
  function Before(x: nat, y: nat, height: nat): Point -> bool {
    (p: Point) => p.y < y || (p.y < y + height && p.x < x)
  }

  /** Within the block at (x, y): the pixels before column dx of row dy. */
  function BeforeIn(x: nat, y: nat, dx: nat, dy: nat): Point -> bool {
    (p: Point) => p.y < y || (p.y < y + 2 && p.x < x)
                  || (p.y < y + dy && p.x < x + 2) || (p.y == y + dy && x <= p.x < x + dx)
  }

  /** A buffer changes in cells of one plane only. */
  ghost predicate OnlyCells(before: seq<byte>, after: seq<byte>, k: Plane) {
    |before| == |after| && forall a: nat :: a < |after| && !IsCell(k, a) ==> after[a] == before[a]
  }

  lemma OtherPlane(before: seq<byte>, after: seq<byte>, k: Plane, other: Plane, done: Point -> bool)
    requires OnlyCells(before, after, k) && k.Good() && other.Good() && (k.End() <= other.base || other.End() <= k.base)
    requires Filled(before, other, done)
    ensures Filled(after, other, done)
  {
    forall q: Point | other.Has(q) ensures InBuffer(after, other, q) == if done(q) then other.value(q) else 0 {
      CellInside(other, q);
      if IsCell(k, other.At(q)) {
        var p: Point :| k.Has(p) && k.At(p) == other.At(q);
        CellInside(k, p);
      }
      assert InBuffer(before, other, q) == if done(q) then other.value(q) else 0;
    }
  }

  lemma PaddingStays(before: seq<byte>, after: seq<byte>, planes: seq<Plane>, i: nat)
    requires i < |planes| && OnlyCells(before, after, planes[i]) && PaddingZero(before, planes)
    ensures PaddingZero(after, planes)
  {
    forall a: nat | a < |after| && (forall j :: 0 <= j < |planes| ==> !IsCell(planes[j], a)) ensures after[a] == 0 {
      assert !IsCell(planes[i], a);
    }
  }

  lemma Changed(before: seq<byte>, after: seq<byte>, k: Plane, p: Point, v: byte)
    requires k.Has(p) && k.At(p) < |before| && after == before[k.At(p) := v]
    ensures OnlyCells(before, after, k)
  {
    assert IsCell(k, k.At(p));
  }

  lemma OnlyCellsTwice(a: seq<byte>, b: seq<byte>, c: seq<byte>, k: Plane)
    requires OnlyCells(a, b, k) && OnlyCells(b, c, k)
    ensures OnlyCells(a, c, k)
  {
  }

  /** One sample goes to its cell, to which none has gone yet. The converters write in no other way, so every
      sample is written once. */
  method Put(
    out: array<byte>, ghost k: Plane, ghost done: Point -> bool, ghost p: Point, ghost now: Point -> bool, at: nat,
    v: byte)
    requires k.Good() && k.Has(p) && Filled(out[..], k, done) && at == k.At(p) && v == k.value(p) && !done(p)
    requires forall q: Point :: k.Has(q) ==> now(q) == (done(q) || q == p)
    modifies out
    ensures Filled(out[..], k, now) && OnlyCells(old(out[..]), out[..], k)
  {
    CellInside(k, p);
    ghost var before := out[..];
    assert at < |before|;
    out[at] := v;
    PutHere(before, k, done, p, now);
    Changed(before, out[..], k, p, v);
    assert out[..] == before[at := v];
  }

  /** The pixels of one block: their luma goes to the buffer, their chroma to the accumulator. */
  method Block(
    frame: Frame, rotation: Rotation, toYuv: Convert, outX: nat, outY: nat, yPitch: nat, out: array<byte>,
    chroma: ChromaAccumulator)
    requires frame.Valid()
    requires var (w, h) := RotatedSize(frame.width, frame.height, rotation);
             w % 2 == 0 && h % 2 == 0 && outX + 2 <= w && outY + 2 <= h && outX % 2 == 0 && outY % 2 == 0
             && yPitch == Align(w, 16)
    requires var (w, h) := RotatedSize(frame.width, frame.height, rotation);
             Filled(out[..], LumaPlane(Rotated(frame.Shown(), frame.width, frame.height, rotation), toYuv, w, h),
                    Before(outX, outY, 2))
    requires chroma.Valid() && chroma.pushed == []
    modifies out, chroma
    ensures var (w, h) := RotatedSize(frame.width, frame.height, rotation);
            var picture := Rotated(frame.Shown(), frame.width, frame.height, rotation);
            Filled(out[..], LumaPlane(picture, toYuv, w, h), Before(outX + 2, outY, 2))
            && OnlyCells(old(out[..]), out[..], LumaPlane(picture, toYuv, w, h))
            && chroma.Valid() && chroma.pushed == BlockSamples(picture, toYuv, outX / 2, outY / 2)
  {
    ghost var (w, h) := RotatedSize(frame.width, frame.height, rotation);
    ghost var picture := Rotated(frame.Shown(), frame.width, frame.height, rotation);
    ghost var k := LumaPlane(picture, toYuv, w, h);
    LumaGood(picture, toYuv, w, h);
    SameDone(out[..], k, Before(outX, outY, 2), BeforeIn(outX, outY, 0, 0));
    hide *;
    ghost var start := out[..];
    var dy := 0;
    while dy < 2
      invariant 0 <= dy <= 2
      invariant Filled(out[..], k, BeforeIn(outX, outY, 0, dy)) && OnlyCells(start, out[..], k)
      invariant chroma.Valid() && chroma.pushed == BlockSamples(picture, toYuv, outX / 2, outY / 2)[..2 * dy]
    {
      var dx := 0;
      while dx < 2
        invariant 0 <= dx <= 2
        invariant Filled(out[..], k, BeforeIn(outX, outY, dx, dy)) && OnlyCells(start, out[..], k)
        invariant chroma.Valid() && chroma.pushed == BlockSamples(picture, toYuv, outX / 2, outY / 2)[..2 * dy + dx]
      {
        OnePixel(frame, rotation, toYuv, outX, outY, dx, dy, yPitch, out, chroma, k, start);
        dx := dx + 1;
      }
      SameDone(out[..], k, BeforeIn(outX, outY, 2, dy), BeforeIn(outX, outY, 0, dy + 1));
      dy := dy + 1;
    }
    SameDone(out[..], k, BeforeIn(outX, outY, 0, 2), Before(outX + 2, outY, 2));
    assert chroma.pushed == BlockSamples(picture, toYuv, outX / 2, outY / 2);
  }

  lemma LumaGood(picture: Picture, toYuv: Convert, w: nat, h: nat)
    ensures LumaPlane(picture, toYuv, w, h).Good()
  {
    Align16Is(w);
  }

  method OnePixel(frame: Frame, rotation: Rotation, toYuv: Convert, outX: nat, outY: nat, dx: nat, dy: nat, yPitch: nat,
                  out: array<byte>, chroma: ChromaAccumulator, ghost k: Plane, ghost start: seq<byte>)
    requires frame.Valid() && dx < 2 && dy < 2
    requires var (w, h) := RotatedSize(frame.width, frame.height, rotation);
             outX + 2 <= w && outY + 2 <= h && outX % 2 == 0 && outY % 2 == 0 && yPitch == Align(w, 16)
             && k == LumaPlane(Rotated(frame.Shown(), frame.width, frame.height, rotation), toYuv, w, h)
    requires k.Good() && Filled(out[..], k, BeforeIn(outX, outY, dx, dy)) && OnlyCells(start, out[..], k)
    requires chroma.Valid()
    requires var picture := Rotated(frame.Shown(), frame.width, frame.height, rotation);
             chroma.pushed == BlockSamples(picture, toYuv, outX / 2, outY / 2)[..2 * dy + dx]
    modifies out, chroma
    ensures Filled(out[..], k, BeforeIn(outX, outY, dx + 1, dy)) && OnlyCells(start, out[..], k) && chroma.Valid()
    ensures var picture := Rotated(frame.Shown(), frame.width, frame.height, rotation);
            chroma.pushed == BlockSamples(picture, toYuv, outX / 2, outY / 2)[..2 * dy + dx + 1]
  {
    hide *;
    ghost var picture := Rotated(frame.Shown(), frame.width, frame.height, rotation);
    ghost var p := Point(outX + dx, outY + dy);
    PixelIs(frame, rotation, toYuv, outX, outY, dx, dy, k);
    var src := SourceCoordinate(Point(outX + dx, outY + dy), frame.width, frame.height, rotation);
    var c := toYuv(frame.At(src));
    ghost var samples := BlockSamples(picture, toYuv, outX / 2, outY / 2);
    ghost var before := out[..];
    InNext(outX, outY, dx, dy, k, p);
    Put(out, k, BeforeIn(outX, outY, dx, dy), p, BeforeIn(outX, outY, dx + 1, dy),
        LumaOffset(yPitch, outX + dx, outY + dy), c.y);
    OnlyCellsTwice(start, before, out[..], k);
    chroma.Push(c.u, c.v);
    assert samples[..2 * dy + dx] + [samples[2 * dy + dx]] == samples[..2 * dy + dx + 1];
  }

  function LumaOffset(yPitch: nat, x: nat, y: nat): nat { y * yPitch + x }

  lemma InNext(outX: nat, outY: nat, dx: nat, dy: nat, k: Plane, p: Point)
    requires p == Point(outX + dx, outY + dy) && dx < 2 && dy < 2
    ensures forall q: Point :: k.Has(q) ==>
              BeforeIn(outX, outY, dx + 1, dy)(q) == (BeforeIn(outX, outY, dx, dy)(q) || q == p)
    ensures !BeforeIn(outX, outY, dx, dy)(p)
  {
  }

  /** What one turn of the inner loop reads and where it belongs. */
  lemma PixelIs(frame: Frame, rotation: Rotation, toYuv: Convert, outX: nat, outY: nat, dx: nat, dy: nat, k: Plane)
    requires frame.Valid() && dx < 2 && dy < 2
    requires var (w, h) := RotatedSize(frame.width, frame.height, rotation);
             outX + 2 <= w && outY + 2 <= h && outX % 2 == 0 && outY % 2 == 0
             && k == LumaPlane(Rotated(frame.Shown(), frame.width, frame.height, rotation), toYuv, w, h)
    ensures InOutput(Point(outX + dx, outY + dy), frame.width, frame.height, rotation)
    ensures var (w, h) := RotatedSize(frame.width, frame.height, rotation);
            var p := Point(outX + dx, outY + dy);
            var src := SourceCoordinate(p, frame.width, frame.height, rotation);
            InFrame(src, frame.width, frame.height) && k.Has(p) && k.value(p) == toYuv(frame.At(src)).y
            && k.At(p) == LumaOffset(Align(w, 16), p.x, p.y)
            && BlockSamples(Rotated(frame.Shown(), frame.width, frame.height, rotation), toYuv, outX / 2,
                            outY / 2)[2 * dy + dx]
               == (toYuv(frame.At(src)).u, toYuv(frame.At(src)).v)
  {
    var picture := Rotated(frame.Shown(), frame.width, frame.height, rotation);
    var p := Point(outX + dx, outY + dy);
    assert InOutput(p, frame.width, frame.height, rotation);
    CoordinatesInverse(p, frame.width, frame.height, rotation);
    assert picture(p) == frame.At(SourceCoordinate(p, frame.width, frame.height, rotation));
    NextSample(picture, toYuv, outX, outY, dx, dy);
    hide Rotated, SourceCoordinate, Align, BlockSamples, Frame.At;
  }

  lemma NextSample(picture: Picture, toYuv: Convert, outX: nat, outY: nat, dx: nat, dy: nat)
    requires outX % 2 == 0 && outY % 2 == 0 && dx < 2 && dy < 2
    ensures BlockSamples(picture, toYuv, outX / 2, outY / 2)[2 * dy + dx]
         == ChromaOf(toYuv, picture(Point(outX + dx, outY + dy)))
  {
    assert 2 * (outX / 2) == outX && 2 * (outY / 2) == outY;
  }

  // ---- the converters ----

  function Nv12Planes(picture: Picture, toYuv: Convert, mode: ChromaMode, w: nat, h: nat): seq<Plane> {
    [LumaPlane(picture, toYuv, w, h), UvPlane(picture, toYuv, mode, w, h)]
  }

  function Yv12Planes(picture: Picture, toYuv: Convert, mode: ChromaMode, w: nat, h: nat): seq<Plane> {
    [LumaPlane(picture, toYuv, w, h), UPlane(picture, toYuv, mode, w, h), VPlane(picture, toYuv, mode, w, h)]
  }

  function Nv12Size(w: nat, h: nat): nat { Align(w, 16) * h + Align(w, 16) * (h / 2) }

  function Yv12Size(w: nat, h: nat): nat { Align(w, 16) * h + Align(w / 2, 16) * (h / 2) + Align(w / 2, 16) * (h / 2) }

  /** The planes lie behind each other and fill their buffer. */
  lemma Nv12Laid(picture: Picture, toYuv: Convert, mode: ChromaMode, w: nat, h: nat)
    ensures var p := Nv12Planes(picture, toYuv, mode, w, h);
            p[0].Good() && p[1].Good() && p[0].End() <= p[1].base && p[1].End() == Nv12Size(w, h)
            && p[0].End() <= Nv12Size(w, h)
  {
    Align16Is(w);
    NotNegative(Align(w, 16), h / 2);
    hide Align;
  }

  lemma Yv12Laid(picture: Picture, toYuv: Convert, mode: ChromaMode, w: nat, h: nat)
    ensures var p := Yv12Planes(picture, toYuv, mode, w, h);
            p[0].Good() && p[1].Good() && p[2].Good() && p[0].End() <= p[1].base && p[1].End() <= p[2].base
            && p[2].End() == Yv12Size(w, h)
            && p[0].End() <= Yv12Size(w, h) && p[1].End() <= Yv12Size(w, h) && p[0].End() <= p[2].base
  {
    Align16Is(w);
    Align16Is(w / 2);
    NotNegative(Align(w / 2, 16), h / 2);
    hide Align;
  }

  /** How far the loops have come: all planes hold the blocks before (x, y), and nothing else. */
  ghost predicate Nv12At(
    out: seq<byte>, picture: Picture, toYuv: Convert, mode: ChromaMode, w: nat, h: nat, x: nat, y: nat) {
    var p := Nv12Planes(picture, toYuv, mode, w, h);
    |out| == Nv12Size(w, h) && Filled(out, p[0], Before(x, y, 2)) && Filled(out, p[1], Before(x, y / 2, 1))
    && PaddingZero(out, p)
  }

  ghost predicate Yv12At(
    out: seq<byte>, picture: Picture, toYuv: Convert, mode: ChromaMode, w: nat, h: nat, x: nat, y: nat) {
    var p := Yv12Planes(picture, toYuv, mode, w, h);
    |out| == Yv12Size(w, h) && Filled(out, p[0], Before(x, y, 2)) && Filled(out, p[1], Before(x / 2, y / 2, 1))
    && Filled(out, p[2], Before(x / 2, y / 2, 1)) && PaddingZero(out, p)
  }

  lemma Nv12Start(out: seq<byte>, picture: Picture, toYuv: Convert, mode: ChromaMode, w: nat, h: nat)
    requires |out| == Nv12Size(w, h) && forall a :: 0 <= a < |out| ==> out[a] == 0
    ensures Nv12At(out, picture, toYuv, mode, w, h, 0, 0)
  {
    Nv12Laid(picture, toYuv, mode, w, h);
    var p := Nv12Planes(picture, toYuv, mode, w, h);
    ZeroFilled(out, p[0]);
    ZeroFilled(out, p[1]);
    SameDone(out, p[0], (q: Point) => false, Before(0, 0, 2));
    SameDone(out, p[1], (q: Point) => false, Before(0, 0, 1));
    hide LumaPlane, UvPlane, Nv12Size, Filled;
  }

  lemma Nv12NextRow(out: seq<byte>, picture: Picture, toYuv: Convert, mode: ChromaMode, w: nat, h: nat, y: nat)
    requires y % 2 == 0 && Nv12At(out, picture, toYuv, mode, w, h, w, y)
    ensures Nv12At(out, picture, toYuv, mode, w, h, 0, y + 2)
  {
    var p := Nv12Planes(picture, toYuv, mode, w, h);
    assert p[0].width == w && p[1].width == w;
    hide LumaPlane, UvPlane, Nv12Size, Filled, Nv12Planes;
    SameDone(out, p[0], Before(w, y, 2), Before(0, y + 2, 2));
    assert (y + 2) / 2 == y / 2 + 1;
    SameDone(out, p[1], Before(w, y / 2, 1), Before(0, y / 2 + 1, 1));
  }

  lemma Nv12Done(out: seq<byte>, picture: Picture, toYuv: Convert, mode: ChromaMode, w: nat, h: nat)
    requires Nv12At(out, picture, toYuv, mode, w, h, 0, h)
    ensures AllFilled(out, Nv12Planes(picture, toYuv, mode, w, h))
  {
    var p := Nv12Planes(picture, toYuv, mode, w, h);
    assert p[0].rows == h && p[1].rows == h / 2;
    hide LumaPlane, UvPlane, Nv12Size, Filled;
    SameDone(out, p[0], Before(0, h, 2), (q: Point) => true);
    SameDone(out, p[1], Before(0, h / 2, 1), (q: Point) => true);
  }

  lemma Yv12Start(out: seq<byte>, picture: Picture, toYuv: Convert, mode: ChromaMode, w: nat, h: nat)
    requires |out| == Yv12Size(w, h) && forall a :: 0 <= a < |out| ==> out[a] == 0
    ensures Yv12At(out, picture, toYuv, mode, w, h, 0, 0)
  {
    Yv12Laid(picture, toYuv, mode, w, h);
    var p := Yv12Planes(picture, toYuv, mode, w, h);
    ZeroFilled(out, p[0]);
    ZeroFilled(out, p[1]);
    ZeroFilled(out, p[2]);
    SameDone(out, p[0], (q: Point) => false, Before(0, 0, 2));
    SameDone(out, p[1], (q: Point) => false, Before(0, 0, 1));
    SameDone(out, p[2], (q: Point) => false, Before(0, 0, 1));
    hide LumaPlane, UPlane, VPlane, Yv12Size, Filled;
  }

  lemma Yv12NextRow(out: seq<byte>, picture: Picture, toYuv: Convert, mode: ChromaMode, w: nat, h: nat, y: nat)
    requires y % 2 == 0 && Yv12At(out, picture, toYuv, mode, w, h, w, y)
    ensures Yv12At(out, picture, toYuv, mode, w, h, 0, y + 2)
  {
    var p := Yv12Planes(picture, toYuv, mode, w, h);
    assert p[0].width == w && p[1].width == w / 2 && p[2].width == w / 2;
    hide LumaPlane, UPlane, VPlane, Yv12Size, Filled, Yv12Planes;
    SameDone(out, p[0], Before(w, y, 2), Before(0, y + 2, 2));
    assert (y + 2) / 2 == y / 2 + 1;
    SameDone(out, p[1], Before(w / 2, y / 2, 1), Before(0, y / 2 + 1, 1));
    SameDone(out, p[2], Before(w / 2, y / 2, 1), Before(0, y / 2 + 1, 1));
  }

  lemma Yv12Done(out: seq<byte>, picture: Picture, toYuv: Convert, mode: ChromaMode, w: nat, h: nat)
    requires Yv12At(out, picture, toYuv, mode, w, h, 0, h)
    ensures AllFilled(out, Yv12Planes(picture, toYuv, mode, w, h))
  {
    var p := Yv12Planes(picture, toYuv, mode, w, h);
    assert p[0].rows == h && p[1].rows == h / 2 && p[2].rows == h / 2;
    hide LumaPlane, UPlane, VPlane, Yv12Size, Filled;
    SameDone(out, p[0], Before(0, h, 2), (q: Point) => true);
    SameDone(out, p[1], Before(0, h / 2, 1), (q: Point) => true);
    SameDone(out, p[2], Before(0, h / 2, 1), (q: Point) => true);
  }

  /** bgra_to_nv12: odd output sizes are refused; else every sample of the turned picture is in its
      plane, and the padding is zero. */
  method BgraToNv12(frame: Frame, rotation: Rotation, mode: ChromaMode, toYuv: Convert) returns (r: Option<array<byte>>)
    requires frame.Valid()
    ensures var (w, h) := RotatedSize(frame.width, frame.height, rotation);
            (r.None? <==> w % 2 != 0 || h % 2 != 0)
            && (r.Some? ==> fresh(r.value) && r.value.Length == Nv12Size(w, h) &&
                            AllFilled(r.value[..],
                                      Nv12Planes(Rotated(frame.Shown(), frame.width, frame.height, rotation),
                                                 toYuv, mode, w, h)))
  {
    hide *;
    var (w, h) := RotatedSize(frame.width, frame.height, rotation);
    if w % 2 != 0 || h % 2 != 0 { return None; }
    ghost var picture := Rotated(frame.Shown(), frame.width, frame.height, rotation);
    var out := new byte[Nv12Size(w, h)](i => 0);
    Nv12Start(out[..], picture, toYuv, mode, w, h);
    var outY := 0;
    while outY < h
      invariant 0 <= outY <= h && outY % 2 == 0
      invariant Nv12At(out[..], picture, toYuv, mode, w, h, 0, outY)
    {
      var outX := 0;
      while outX < w
        invariant 0 <= outX <= w && outX % 2 == 0
        invariant Nv12At(out[..], picture, toYuv, mode, w, h, outX, outY)
      {
        Nv12Block(frame, rotation, mode, toYuv, outX, outY, w, h, out);
        outX := outX + 2;
      }
      Nv12NextRow(out[..], picture, toYuv, mode, w, h, outY);
      outY := outY + 2;
    }
    Nv12Done(out[..], picture, toYuv, mode, w, h);
    return Some(out);
  }

  method Nv12Block(
    frame: Frame, rotation: Rotation, mode: ChromaMode, toYuv: Convert, outX: nat, outY: nat, w: nat, h: nat,
    out: array<byte>)
    requires frame.Valid() && (w, h) == RotatedSize(frame.width, frame.height, rotation) && w % 2 == 0 && h % 2 == 0
    requires outX + 2 <= w && outY + 2 <= h && outX % 2 == 0 && outY % 2 == 0
    requires Nv12At(out[..], Rotated(frame.Shown(), frame.width, frame.height, rotation), toYuv, mode, w, h, outX, outY)
    modifies out
    ensures Nv12At(out[..], Rotated(frame.Shown(), frame.width, frame.height, rotation), toYuv, mode, w, h, outX + 2,
                   outY)
  {
    ghost var picture := Rotated(frame.Shown(), frame.width, frame.height, rotation);
    ghost var p := Nv12Planes(picture, toYuv, mode, w, h);
    ghost var before := out[..];
    var chroma := new ChromaAccumulator(mode);
    var yPitch := Align(w, 16);
    Nv12Laid(picture, toYuv, mode, w, h);
    hide Filled, PaddingZero, OnlyCells, Rotated, RotatedSize, BlockSamples, Nv12Size, LumaPlane, UvPlane, Align,
         Plane.End, Plane.Good, Chosen, ChromaAccumulator.Valid;
    Block(frame, rotation, toYuv, outX, outY, yPitch, out, chroma);
    ghost var middle := out[..];
    OtherPlane(before, middle, p[0], p[1], Before(outX, outY / 2, 1));
    PaddingStays(before, middle, p, 0);
    var u, v := chroma.Finish();
    assert (u, v) == BlockChroma(picture, toYuv, mode, outX / 2, outY / 2);
    PutUv(picture, toYuv, mode, outX, outY, w, h, out, u, v);
    OtherPlane(middle, out[..], p[1], p[0], Before(outX + 2, outY, 2));
    PaddingStays(middle, out[..], p, 1);
  }

  method PutUv(
    ghost picture: Picture, ghost toYuv: Convert, ghost mode: ChromaMode, outX: nat, outY: nat, w: nat, h: nat,
    out: array<byte>, u: byte, v: byte)
    requires w % 2 == 0 && h % 2 == 0 && outX + 2 <= w && outY + 2 <= h && outX % 2 == 0 && outY % 2 == 0
    requires (u, v) == BlockChroma(picture, toYuv, mode, outX / 2, outY / 2)
    requires UvPlane(picture, toYuv, mode, w, h).Good()
    requires Filled(out[..], UvPlane(picture, toYuv, mode, w, h), Before(outX, outY / 2, 1))
    modifies out
    ensures Filled(out[..], UvPlane(picture, toYuv, mode, w, h), Before(outX + 2, outY / 2, 1))
    ensures OnlyCells(old(out[..]), out[..], UvPlane(picture, toYuv, mode, w, h))
  {
    hide *;
    ghost var k := UvPlane(picture, toYuv, mode, w, h);
    var uvOffset := UvOffset(w, h, outX, outY);
    ghost var p, q := Point(outX, outY / 2), Point(outX + 1, outY / 2);
    UvPlace(picture, toYuv, mode, w, h, outX, outY);
    ghost var before := out[..];
    BeforeNext(outX, outY / 2, k, p);
    BeforeNext(outX + 1, outY / 2, k, q);
    Put(out, k, Before(outX, outY / 2, 1), p, Before(outX + 1, outY / 2, 1), uvOffset, u);
    ghost var middle := out[..];
    Put(out, k, Before(outX + 1, outY / 2, 1), q, Before(outX + 1 + 1, outY / 2, 1), uvOffset + 1, v);
    OnlyCellsTwice(before, middle, out[..], k);
  }

  /** One more sample of a row. */
  lemma BeforeNext(x: nat, y: nat, k: Plane, p: Point)
    requires p == Point(x, y)
    ensures forall q: Point :: k.Has(q) ==> Before(x + 1, y, 1)(q) == (Before(x, y, 1)(q) || q == p)
    ensures !Before(x, y, 1)(p)
  {
  }

  function UvOffset(w: nat, h: nat, outX: nat, outY: nat): nat {
    LumaOffset(Align(w, 16), 0, h) + LumaOffset(Align(w, 16), outX, outY / 2)
  }

  lemma UvPlace(picture: Picture, toYuv: Convert, mode: ChromaMode, w: nat, h: nat, outX: nat, outY: nat)
    requires w % 2 == 0 && h % 2 == 0 && outX + 2 <= w && outY + 2 <= h && outX % 2 == 0 && outY % 2 == 0
    ensures var k, p, q := UvPlane(picture, toYuv, mode, w, h), Point(outX, outY / 2), Point(outX + 1, outY / 2);
            k.Has(p) && k.Has(q) && k.At(p) == UvOffset(w, h, outX, outY) && k.At(q) == UvOffset(w, h, outX, outY) + 1
            && (k.value(p), k.value(q)) == BlockChroma(picture, toYuv, mode, outX / 2, outY / 2)
  {
    hide Align, BlockChroma;
    assert (outX + 1) / 2 == outX / 2;
  }

  /** bgra_to_yv12. */
  method BgraToYv12(frame: Frame, rotation: Rotation, mode: ChromaMode, toYuv: Convert) returns (r: Option<array<byte>>)
    requires frame.Valid()
    ensures var (w, h) := RotatedSize(frame.width, frame.height, rotation);
            (r.None? <==> w % 2 != 0 || h % 2 != 0)
            && (r.Some? ==> fresh(r.value) && r.value.Length == Yv12Size(w, h) &&
                            AllFilled(r.value[..],
                                      Yv12Planes(Rotated(frame.Shown(), frame.width, frame.height, rotation),
                                                 toYuv, mode, w, h)))
  {
    hide *;
    var (w, h) := RotatedSize(frame.width, frame.height, rotation);
    if w % 2 != 0 || h % 2 != 0 { return None; }
    ghost var picture := Rotated(frame.Shown(), frame.width, frame.height, rotation);
    var out := new byte[Yv12Size(w, h)](i => 0);
    Yv12Start(out[..], picture, toYuv, mode, w, h);
    var outY := 0;
    while outY < h
      invariant 0 <= outY <= h && outY % 2 == 0
      invariant Yv12At(out[..], picture, toYuv, mode, w, h, 0, outY)
    {
      var outX := 0;
      while outX < w
        invariant 0 <= outX <= w && outX % 2 == 0
        invariant Yv12At(out[..], picture, toYuv, mode, w, h, outX, outY)
      {
        Yv12Block(frame, rotation, mode, toYuv, outX, outY, w, h, out);
        outX := outX + 2;
      }
      Yv12NextRow(out[..], picture, toYuv, mode, w, h, outY);
      outY := outY + 2;
    }
    Yv12Done(out[..], picture, toYuv, mode, w, h);
    return Some(out);
  }

  method Yv12Block(
    frame: Frame, rotation: Rotation, mode: ChromaMode, toYuv: Convert, outX: nat, outY: nat, w: nat, h: nat,
    out: array<byte>)
    requires frame.Valid() && (w, h) == RotatedSize(frame.width, frame.height, rotation) && w % 2 == 0 && h % 2 == 0
    requires outX + 2 <= w && outY + 2 <= h && outX % 2 == 0 && outY % 2 == 0
    requires Yv12At(out[..], Rotated(frame.Shown(), frame.width, frame.height, rotation), toYuv, mode, w, h, outX, outY)
    modifies out
    ensures Yv12At(out[..], Rotated(frame.Shown(), frame.width, frame.height, rotation), toYuv, mode, w, h, outX + 2,
                   outY)
  {
    ghost var picture := Rotated(frame.Shown(), frame.width, frame.height, rotation);
    ghost var p := Yv12Planes(picture, toYuv, mode, w, h);
    ghost var before := out[..];
    var chroma := new ChromaAccumulator(mode);
    var yPitch := Align(w, 16);
    Yv12Laid(picture, toYuv, mode, w, h);
    hide Filled, PaddingZero, OnlyCells, Rotated, RotatedSize, BlockSamples, Yv12Size, LumaPlane, UPlane, VPlane, Align,
         Plane.End, Plane.Good, Chosen,
         ChromaAccumulator.Valid;
    Block(frame, rotation, toYuv, outX, outY, yPitch, out, chroma);
    ghost var middle := out[..];
    OtherPlane(before, middle, p[0], p[1], Before(outX / 2, outY / 2, 1));
    OtherPlane(before, middle, p[0], p[2], Before(outX / 2, outY / 2, 1));
    PaddingStays(before, middle, p, 0);
    var u, v := chroma.Finish();
    assert (u, v) == BlockChroma(picture, toYuv, mode, outX / 2, outY / 2);
    PutU(picture, toYuv, mode, outX, outY, w, h, out, u);
    ghost var later := out[..];
    OtherPlane(middle, later, p[1], p[0], Before(outX + 2, outY, 2));
    OtherPlane(middle, later, p[1], p[2], Before(outX / 2, outY / 2, 1));
    PaddingStays(middle, later, p, 1);
    PutV(picture, toYuv, mode, outX, outY, w, h, out, v);
    OtherPlane(later, out[..], p[2], p[0], Before(outX + 2, outY, 2));
    OtherPlane(later, out[..], p[2], p[1], Before(outX / 2 + 1, outY / 2, 1));
    PaddingStays(later, out[..], p, 2);
    assert (outX + 2) / 2 == outX / 2 + 1;
  }

  method PutU(
    ghost picture: Picture, ghost toYuv: Convert, ghost mode: ChromaMode, outX: nat, outY: nat, w: nat, h: nat,
    out: array<byte>, u: byte)
    requires w % 2 == 0 && h % 2 == 0 && outX + 2 <= w && outY + 2 <= h && outX % 2 == 0 && outY % 2 == 0
    requires u == BlockChroma(picture, toYuv, mode, outX / 2, outY / 2).0
    requires UPlane(picture, toYuv, mode, w, h).Good()
    requires Filled(out[..], UPlane(picture, toYuv, mode, w, h), Before(outX / 2, outY / 2, 1))
    modifies out
    ensures Filled(out[..], UPlane(picture, toYuv, mode, w, h), Before(outX / 2 + 1, outY / 2, 1))
    ensures OnlyCells(old(out[..]), out[..], UPlane(picture, toYuv, mode, w, h))
  {
    hide *;
    ghost var k := UPlane(picture, toYuv, mode, w, h);
    ghost var p := Point(outX / 2, outY / 2);
    UPlace(picture, toYuv, mode, w, h, outX, outY);
    BeforeNext(outX / 2, outY / 2, k, p);
    Put(out, k, Before(outX / 2, outY / 2, 1), p, Before(outX / 2 + 1, outY / 2, 1), UOffset(w, h, outX, outY), u);
  }

  function UOffset(w: nat, h: nat, outX: nat, outY: nat): nat {
    LumaOffset(Align(w, 16), 0, h) + LumaOffset(Align(w / 2, 16), outX / 2, outY / 2)
  }

  function VOffset(w: nat, h: nat, outX: nat, outY: nat): nat {
    LumaOffset(Align(w, 16), 0, h) + LumaOffset(Align(w / 2, 16), 0, h / 2)
    + LumaOffset(Align(w / 2, 16), outX / 2, outY / 2)
  }

  lemma UPlace(picture: Picture, toYuv: Convert, mode: ChromaMode, w: nat, h: nat, outX: nat, outY: nat)
    requires w % 2 == 0 && h % 2 == 0 && outX + 2 <= w && outY + 2 <= h && outX % 2 == 0 && outY % 2 == 0
    ensures var k, p := UPlane(picture, toYuv, mode, w, h), Point(outX / 2, outY / 2);
            k.Has(p) && k.At(p) == UOffset(w, h, outX, outY)
            && k.value(p) == BlockChroma(picture, toYuv, mode, outX / 2, outY / 2).0
  {
    hide Align, BlockChroma;
  }

  lemma VPlace(picture: Picture, toYuv: Convert, mode: ChromaMode, w: nat, h: nat, outX: nat, outY: nat)
    requires w % 2 == 0 && h % 2 == 0 && outX + 2 <= w && outY + 2 <= h && outX % 2 == 0 && outY % 2 == 0
    ensures var k, p := VPlane(picture, toYuv, mode, w, h), Point(outX / 2, outY / 2);
            k.Has(p) && k.At(p) == VOffset(w, h, outX, outY)
            && k.value(p) == BlockChroma(picture, toYuv, mode, outX / 2, outY / 2).1
  {
    hide Align, BlockChroma;
  }

  method PutV(
    ghost picture: Picture, ghost toYuv: Convert, ghost mode: ChromaMode, outX: nat, outY: nat, w: nat, h: nat,
    out: array<byte>, v: byte)
    requires w % 2 == 0 && h % 2 == 0 && outX + 2 <= w && outY + 2 <= h && outX % 2 == 0 && outY % 2 == 0
    requires v == BlockChroma(picture, toYuv, mode, outX / 2, outY / 2).1
    requires VPlane(picture, toYuv, mode, w, h).Good()
    requires Filled(out[..], VPlane(picture, toYuv, mode, w, h), Before(outX / 2, outY / 2, 1))
    modifies out
    ensures Filled(out[..], VPlane(picture, toYuv, mode, w, h), Before(outX / 2 + 1, outY / 2, 1))
    ensures OnlyCells(old(out[..]), out[..], VPlane(picture, toYuv, mode, w, h))
  {
    hide *;
    ghost var k := VPlane(picture, toYuv, mode, w, h);
    ghost var p := Point(outX / 2, outY / 2);
    VPlace(picture, toYuv, mode, w, h, outX, outY);
    BeforeNext(outX / 2, outY / 2, k, p);
    Put(out, k, Before(outX / 2, outY / 2, 1), p, Before(outX / 2 + 1, outY / 2, 1), VOffset(w, h, outX, outY), v);
  }
}
