/** Device memory, the canvas of a Type4 setup frame, and what drawing full frames and tiles does to it
    (t6-virtual-display.rs; the planes are what the packet headers describe). */
module Canvas {
  import opened Arithmetic
  import opened Bytes
  import opened Geometry
  import opened Tiles
  import opened Pictures

  type Memory = int -> byte

  /** A bulk transfer puts bytes at an address. */
  function Write(mem: Memory, addr: nat, data: seq<byte>): Memory {
    (a: int) => if addr <= a < addr + |data| then data[a - addr] else mem(a)
  }

  /** How pixels become samples: one luma sample for a pixel, two chroma samples for a block of four.
      The codec loses nothing else. */
  datatype Codec = Codec(luma: Pixel -> byte, chroma: (nat, Pixel, Pixel, Pixel, Pixel) -> byte)

  function LumaOf(codec: Codec, picture: Picture, x: nat, y: nat): byte {
    codec.luma(picture(Point(x, y)))
  }

  /** Sample `c` (0 for U, 1 for V) of the block at (2 * i, 2 * j). */
  function ChromaOf(codec: Codec, picture: Picture, i: nat, j: nat, c: nat): byte {
    codec.chroma(c, picture(Point(2 * i, 2 * j)), picture(Point(2 * i + 1, 2 * j)),
                 picture(Point(2 * i, 2 * j + 1)), picture(Point(2 * i + 1, 2 * j + 1)))
  }

  // ---- planes ----

  /** An address is a cell of a plane of rows. */
  predicate InPlane(a: int, plane: int, stride: nat, width: nat, rows: nat)
    requires stride > 0
  {
    plane <= a && (a - plane) / stride < rows && (a - plane) % stride < width
  }

  function RowOf(a: int, plane: int, stride: nat): nat
    requires stride > 0 && plane <= a
  {
    (a - plane) / stride
  }

  function ColumnOf(a: int, plane: int, stride: nat): nat
    requires stride > 0
  {
    (a - plane) % stride
  }

  function CellAt(plane: int, stride: nat, x: nat, y: nat): int { plane + stride * y + x }

  /** What a packet asks the device to do with its image. */
  datatype Drawing = Drawing(plane0: u32, plane1: u32, stride: nat, width: nat, height: nat, picture: Picture)

  function Drawn(codec: Codec, mem: Memory, d: Drawing): Memory
    requires d.stride > 0
  {
    (a: int) =>
      if InPlane(a, d.plane1, d.stride, d.width, d.height / 2) then
        ChromaOf(codec, d.picture, ColumnOf(a, d.plane1, d.stride) / 2, RowOf(a, d.plane1, d.stride),
                 ColumnOf(a, d.plane1, d.stride) % 2)
      else if InPlane(a, d.plane0, d.stride, d.width, d.height) then
        LumaOf(codec, d.picture, ColumnOf(a, d.plane0, d.stride), RowOf(a, d.plane0, d.stride))
      else mem(a)
  }

  lemma {:induction false} DivMod(stride: nat, q: nat, r: nat)
    requires r < stride
    ensures (stride * q + r) / stride == q && (stride * q + r) % stride == r
  {
    var a := stride * q + r;
    Quotient(stride, a / stride, a % stride, q, r);
  }

  lemma Quotient(stride: nat, q: nat, r: nat, p: nat, s: nat)
    requires r < stride && s < stride && stride * q + r == stride * p + s
    ensures q == p && r == s
  {
    if q < p { Steps(stride, q, p); assert false; }
    if p < q { Steps(stride, p, q); assert false; }
  }

  /** A cell of the canvas belongs to the cells of a tile whose planes start at its corner exactly if
      it lies in the tile, and then at the tile's own place. */
  lemma CellInTile(
    plane: int, stride: nat, canvasWidth: nat, x: nat, y: nat, left: nat, top: nat, width: nat, rows: nat)
    requires 0 < stride && canvasWidth <= stride && left + width <= canvasWidth && x < canvasWidth
    ensures var a, tile := CellAt(plane, stride, x, y), CellAt(plane, stride, left, top);
            (InPlane(a, tile, stride, width, rows) <==> left <= x < left + width && top <= y < top + rows)
            && (InPlane(a, tile, stride, width, rows) ==>
                  ColumnOf(a, tile, stride) == x - left && RowOf(a, tile, stride) == y - top)
  {
    var a, tile := CellAt(plane, stride, x, y), CellAt(plane, stride, left, top);
    if y < top {
      Steps(stride, y, top);
    } else {
      Spread(stride, top, y);
      if left <= x {
        DivMod(stride, y - top, x - left);
        assert a - tile == stride * (y - top) + (x - left);
      } else if y > top {
        Spread(stride, 1, y - top);
        DivMod(stride, y - top - 1, stride + x - left);
        assert a - tile == stride * (y - top - 1) + (stride + x - left);
      }
    }
  }

  lemma Spread(stride: nat, low: nat, high: nat)
    requires low <= high
    ensures stride * (high - low) == stride * high - stride * low
  {
  }

  // ---- the canvas ----

  datatype Surface = Surface(base0: nat, base1: nat, stride: nat, width: nat, height: nat)
  {
    /** The luma plane ends before the chroma plane, and rows do not run into each other. */
    predicate Good() {
      0 < stride && width <= stride && width % 2 == 0 && height % 2 == 0 && base0 + stride * height <= base1
    }

    function End(): nat { base1 + stride * (height / 2) }

    function Luma(x: nat, y: nat): int { CellAt(base0, stride, x, y) }

    function Chroma(i: nat, j: nat, c: nat): int { CellAt(base1, stride, 2 * i + c, j) }

    ghost predicate HoldsLuma(mem: Memory, s: Samples) {
      forall x: nat, y: nat :: x < width && y < height ==> mem(Luma(x, y)) == s.luma(x, y)
    }

    ghost predicate HoldsChroma(mem: Memory, s: Samples) {
      forall i: nat, j: nat, c: nat :: i < width / 2 && j < height / 2 && c < 2 ==>
               mem(Chroma(i, j, c)) == s.chroma(i, j, c)
    }

    /** The canvas holds these samples. */
    ghost predicate Holds(mem: Memory, s: Samples) { HoldsLuma(mem, s) && HoldsChroma(mem, s) }

    /** The canvas shows a picture. */
    ghost predicate Shows(codec: Codec, mem: Memory, picture: Picture) { Holds(mem, SamplesOf(codec, picture)) }

    lemma LumaInside(x: nat, y: nat)
      requires Good() && x < width && y < height
      ensures base0 <= Luma(x, y) < base1
    {
      Steps(stride, y, height);
    }

    lemma ChromaInside(i: nat, j: nat, c: nat)
      requires Good() && i < width / 2 && j < height / 2 && c < 2
      ensures base1 <= Chroma(i, j, c) < End()
    {
      Steps(stride, j, height / 2);
    }

    /** Different samples have different addresses. */
    lemma SamplesApart(x: nat, y: nat, v: nat, w: nat)
      requires Good() && x < width && y < height && v < width && w < height && Luma(x, y) == Luma(v, w)
      ensures x == v && y == w
    {
      Quotient(stride, y, x, w, v);
    }
  }

  // ---- samples, whether they make up a picture or not ----

  datatype Samples = Samples(luma: (nat, nat) -> byte, chroma: (nat, nat, nat) -> byte)

  function SamplesOf(codec: Codec, picture: Picture): Samples {
    Samples((x: nat, y: nat) => LumaOf(codec, picture, x, y),
            (i: nat, j: nat, c: nat) => ChromaOf(codec, picture, i, j, c))
  }

  /** The samples that a canvas holds. */
  function ReadOff(k: Surface, mem: Memory): Samples {
    Samples((x: nat, y: nat) => mem(k.Luma(x, y)), (i: nat, j: nat, c: nat) => mem(k.Chroma(i, j, c)))
  }

  lemma ReadOffHolds(k: Surface, mem: Memory)
    ensures k.Holds(mem, ReadOff(k, mem))
  {
    hide Surface.Luma, Surface.Chroma;
  }

  /** The samples of a canvas once bytes are stored at an address. */
  function Stored(k: Surface, s: Samples, addr: nat, data: seq<byte>): Samples {
    var (luma, chroma) := (s.luma, s.chroma);
    Samples((x: nat, y: nat) => if addr <= k.Luma(x, y) < addr + |data| then data[k.Luma(x, y) - addr] else luma(x, y),
            (i: nat, j: nat, c: nat) =>
              if addr <= k.Chroma(i, j, c) < addr + |data| then data[k.Chroma(i, j, c) - addr] else chroma(i, j, c))
  }

  lemma StoredHolds(k: Surface, mem: Memory, s: Samples, addr: nat, data: seq<byte>)
    requires k.Holds(mem, s)
    ensures k.Holds(Write(mem, addr, data), Stored(k, s, addr, data))
  {
    hide Surface.Luma, Surface.Chroma;
  }

  /** Samples with those of a rectangle taken from others. */
  function Painted(s: Samples, b: Box, t: Samples): Samples {
    var (luma, chroma) := (s.luma, s.chroma);
    var (newLuma, newChroma) := (t.luma, t.chroma);
    Samples((x: nat, y: nat) => if b.Has(Point(x, y)) then newLuma(x, y) else luma(x, y),
            (i: nat, j: nat, c: nat) => if b.Has(Point(2 * i, 2 * j)) then newChroma(i, j, c) else chroma(i, j, c))
  }

  const NOWHERE := Box(0, 0, 0, 0)

  /** Outside a rectangle of a canvas the samples are the same. */
  ghost predicate SameOutside(k: Surface, b: Box, s: Samples, t: Samples) {
    && (forall x: nat, y: nat :: x < k.width && y < k.height && !b.Has(Point(x, y)) ==> s.luma(x, y) == t.luma(x, y))
    && (forall i: nat, j: nat, c: nat :: i < k.width / 2 && j < k.height / 2 && c < 2 && !b.Has(Point(2 * i, 2 * j)) ==>
          s.chroma(i, j, c) == t.chroma(i, j, c))
  }

  /** A canvas that holds some samples holds others exactly if they are the same. */
  lemma HoldsBoth(k: Surface, mem: Memory, s: Samples, t: Samples)
    requires k.Holds(mem, s)
    ensures k.Holds(mem, t) <==> SameOutside(k, NOWHERE, s, t)
  {
    hide Surface.Luma, Surface.Chroma;
    forall x: nat, y: nat | x < k.width && y < k.height ensures mem(k.Luma(x, y)) == s.luma(x, y) {
    }
    forall i: nat, j: nat, c: nat | i < k.width / 2 && j < k.height / 2 && c < 2
      ensures mem(k.Chroma(i, j, c)) == s.chroma(i, j, c)
    {
    }
  }

  /** Painting a rectangle makes everything right exactly if the rest was right. */
  lemma PaintedRight(k: Surface, b: Box, s: Samples, t: Samples)
    ensures SameOutside(k, NOWHERE, Painted(s, b, t), t) <==> SameOutside(k, b, s, t)
  {
    var u := Painted(s, b, t);
    assert forall x: nat, y: nat :: u.luma(x, y) == if b.Has(Point(x, y)) then t.luma(x, y) else s.luma(x, y);
    assert forall i: nat, j: nat, c: nat ::
             u.chroma(i, j, c) == if b.Has(Point(2 * i, 2 * j)) then t.chroma(i, j, c) else s.chroma(i, j, c);
    hide Painted;
  }

  // ---- where the senders put the planes ----

  function SatAdd32(a: u32, b: u32): u32 { if a + b < TWO32 then a + b else TWO32 - 1 }

  function SatMul32(a: u32, b: u32): u32 { if a * b < TWO32 then a * b else TWO32 - 1 }

  /** type7_mode6_slot_bases. */
  function SlotBases(allocatedBase: u32, outputWidth: nat, outputHeight: nat): (u32, u32) {
    var tileBlocks := SatMul(DivCeil(outputWidth, 16), DivCeil(outputHeight, 16));
    var planeSpan := SatMul32(Wrap32(tileBlocks), 0x100);
    var base0 := SatAdd32(allocatedBase, 0x30);
    (base0, SatAdd32(base0, planeSpan))
  }

  /** type7_mode6_plane_addrs. */
  function PlaneAddrs(
    allocatedBase: u32, left: nat, top: nat, outputWidth: nat, outputHeight: nat, canvasWidth: nat): (u32, u32) {
    var (base0, base1) := SlotBases(allocatedBase, outputWidth, outputHeight);
    (SatAdd32(SatAdd32(base0, SatMul32(Wrap32(canvasWidth), Wrap32(top))), Wrap32(left)),
     SatAdd32(SatAdd32(base1, SatMul32(Wrap32(top / 2), Wrap32(canvasWidth))), SatMul32(Wrap32(left / 2), 2)))
  }

  /** Bytes of the luma plane of a canvas, whole blocks of 16 by 16. */
  function Span(width: nat, height: nat): nat { DivCeil(width, 16) * DivCeil(height, 16) * 0x100 }

  /** The canvas of a slot, free of 32-bit effects. */
  function SurfaceOf(allocatedBase: u32, width: nat, height: nat): Surface {
    Surface(allocatedBase + 0x30, allocatedBase + 0x30 + Span(width, height), Align(width, 16), width, height)
  }

  /** An output size the senders can draw: even, with a canvas width that fits its 16-bit header field
      and a canvas that ends inside the 32-bit address space. */
  predicate Drawable(allocatedBase: u32, width: nat, height: nat) {
    0 < width <= 65520 && 0 < height < 0x1_0000 && width % 2 == 0 && height % 2 == 0
    && SurfaceOf(allocatedBase, width, height).End() < TWO32
  }

  lemma SpanHolds(width: nat, height: nat)
    ensures Align(width, 16) * height <= Span(width, height)
  {
    var w, h := DivCeil(width, 16), DivCeil(height, 16);
    assert h * 16 >= height;
    assert Span(width, height) == (w * 16) * (h * 16) by { Regroup(w, h); }
    MulLe(w * 16, height, h * 16);
    hide Span, DivCeil;
  }

  lemma Regroup(w: nat, h: nat)
    ensures w * h * 0x100 == (w * 16) * (h * 16)
  {
    assert (w * 16) * (h * 16) == w * (16 * (h * 16));
    assert w * (h * 0x100) == w * h * 0x100;
  }

  lemma SurfaceGood(allocatedBase: u32, width: nat, height: nat)
    requires Drawable(allocatedBase, width, height)
    ensures SurfaceOf(allocatedBase, width, height).Good()
    ensures Align(width, 16) <= 65520
  {
    SpanHolds(width, height);
    Align16Is(width);
    assert DivCeil(width, 16) <= 4095;
    hide Span;
  }

  /** The plane bases a setup frame carries are those of its canvas. */
  lemma SlotBasesAre(allocatedBase: u32, width: nat, height: nat)
    requires Drawable(allocatedBase, width, height)
    ensures var k := SurfaceOf(allocatedBase, width, height);
            SlotBases(allocatedBase, width, height) == (k.base0, k.base1)
  {
    var blocks := DivCeil(width, 16) * DivCeil(height, 16);
    var k := SurfaceOf(allocatedBase, width, height);
    NotNegative(k.stride, k.height / 2);
    assert k.base1 <= k.End() && k.base1 == allocatedBase + 0x30 + blocks * 0x100;
    hide DivCeil, Span, Surface.Good, Surface.End;
    BasesFrom(allocatedBase, blocks);
  }

  lemma BasesFrom(allocatedBase: u32, blocks: nat)
    requires allocatedBase + 0x30 + blocks * 0x100 < TWO32
    ensures var base0 := SatAdd32(allocatedBase, 0x30);
            base0 == allocatedBase + 0x30
            && SatAdd32(base0, SatMul32(Wrap32(Min(blocks, USIZE_MAX)), 0x100)) == allocatedBase + 0x30 + blocks * 0x100
  {
  }

  /** The plane addresses of a tile with even edges are those of its corner in the canvas. */
  lemma PlaneAddrsAre(allocatedBase: u32, b: Box, width: nat, height: nat)
    requires Drawable(allocatedBase, width, height) && b.Within(width, height) && b.Nonempty() && EvenEdges(b)
    ensures var k := SurfaceOf(allocatedBase, width, height);
            PlaneAddrs(allocatedBase, b.x, b.y, width, height, k.stride)
            == (CellAt(k.base0, k.stride, b.x, b.y), CellAt(k.base1, k.stride, b.x, b.y / 2))
  {
    hide *;
    SlotBasesAre(allocatedBase, width, height);
    CornerInside(allocatedBase, b, width, height);
    var k := SurfaceOf(allocatedBase, width, height);
    LumaSum(k.base0, k.stride, b.y, b.x);
    ChromaSum(k.base1, k.stride, b.y, b.x);
    TheAddrs(allocatedBase, b, width, height, k);
  }

  lemma TheAddrs(allocatedBase: u32, b: Box, width: nat, height: nat, k: Surface)
    requires 0 <= k.base0 < TWO32 && 0 <= k.base1 < TWO32
    requires SlotBases(allocatedBase, width, height) == (k.base0, k.base1)
    ensures PlaneAddrs(allocatedBase, b.x, b.y, width, height, k.stride)
         == (SatAdd32(SatAdd32(k.base0, SatMul32(Wrap32(k.stride), Wrap32(b.y))), Wrap32(b.x)),
             SatAdd32(SatAdd32(k.base1, SatMul32(Wrap32(b.y / 2), Wrap32(k.stride))), SatMul32(Wrap32(b.x / 2), 2)))
  {
    hide SlotBases, SatAdd32, SatMul32, Wrap32;
  }

  lemma LumaSum(base: nat, stride: nat, top: nat, left: nat)
    requires base < TWO32 && stride < TWO32 && top < TWO32 && CellAt(base, stride, left, top) < TWO32
    ensures CellAt(base, stride, left, top)
         == SatAdd32(SatAdd32(base, SatMul32(Wrap32(stride), Wrap32(top))), Wrap32(left))
  {
    NotNegative(stride, top);
    assert Wrap32(stride) == stride && Wrap32(top) == top;
    assert stride * top < TWO32;
    assert SatMul32(stride, top) == stride * top;
    hide SatMul32;
  }

  lemma ChromaSum(base: nat, stride: nat, top: nat, left: nat)
    requires base < TWO32 && stride < TWO32 && top < TWO32 && left % 2 == 0
    requires CellAt(base, stride, left, top / 2) < TWO32
    ensures CellAt(base, stride, left, top / 2)
         == SatAdd32(SatAdd32(base, SatMul32(Wrap32(top / 2), Wrap32(stride))), SatMul32(Wrap32(left / 2), 2))
  {
    var t := top / 2;
    NotNegative(stride, t);
    Commutes(stride, t);
    assert Wrap32(stride) == stride && Wrap32(t) == t && Wrap32(left / 2) == left / 2;
    assert SatMul32(t, stride) == t * stride;
    assert SatMul32(left / 2, 2) == left;
    hide SatMul32;
  }

  lemma CornerInside(allocatedBase: u32, b: Box, width: nat, height: nat)
    requires Drawable(allocatedBase, width, height) && b.Within(width, height) && b.Nonempty() && EvenEdges(b)
    ensures var k := SurfaceOf(allocatedBase, width, height);
            0 <= CellAt(k.base0, k.stride, b.x, b.y) < TWO32 && 0 <= CellAt(k.base1, k.stride, b.x, b.y / 2) < TWO32
            && 0 <= k.base0 < TWO32 && 0 <= k.base1 < TWO32 && k.stride < TWO32 && b.y < TWO32 && b.x % 2 == 0
  {
    var k := SurfaceOf(allocatedBase, width, height);
    SurfaceGood(allocatedBase, width, height);
    k.LumaInside(b.x, b.y);
    k.ChromaInside(b.x / 2, b.y / 2, 0);
    assert 2 * (b.x / 2) == b.x;
    NotNegative(k.stride, k.height);
    NotNegative(k.stride, k.height / 2);
    hide Span, Align, CellAt;
  }

  lemma Commutes(a: nat, b: nat)
    ensures a * b == b * a
  {
  }

  // ---- drawing ----

  function FullDrawing(k: Surface, picture: Picture): Drawing
    requires 0 <= k.base0 < TWO32 && 0 <= k.base1 < TWO32
  {
    Drawing(k.base0, k.base1, k.stride, k.width, k.height, picture)
  }

  /** A full frame leaves the canvas showing its picture, whatever was there. */
  lemma FullDraw(codec: Codec, mem: Memory, k: Surface, picture: Picture, shown: Picture)
    requires k.Good() && k.base0 < TWO32 && k.base1 < TWO32
    requires Agree(picture, shown, k.width, k.height)
    ensures k.Shows(codec, Drawn(codec, mem, FullDrawing(k, picture)), shown)
  {
    var d := FullDrawing(k, picture);
    var after := Drawn(codec, mem, d);
    forall x: nat, y: nat | x < k.width && y < k.height
      ensures after(k.Luma(x, y)) == LumaOf(codec, shown, x, y)
    {
      LumaDrawn(codec, mem, k, Box(0, 0, k.width, k.height), d, x, y);
      assert picture(Point(x, y)) == shown(Point(x, y));
    }
    forall i: nat, j: nat, c: nat | i < k.width / 2 && j < k.height / 2 && c < 2
      ensures after(k.Chroma(i, j, c)) == ChromaOf(codec, shown, i, j, c)
    {
      ChromaDrawn(codec, mem, k, Box(0, 0, k.width, k.height), d, i, j, c);
      BlockAgrees(codec, picture, shown, k.width, k.height, i, j, c);
    }
  }

  ghost predicate Agree(a: Picture, b: Picture, width: nat, height: nat) {
    forall p: Point :: InFrame(p, width, height) ==> a(p) == b(p)
  }

  lemma BlockAgrees(codec: Codec, a: Picture, b: Picture, width: nat, height: nat, i: nat, j: nat, c: nat)
    requires Agree(a, b, width, height) && i < width / 2 && j < height / 2
    ensures ChromaOf(codec, a, i, j, c) == ChromaOf(codec, b, i, j, c)
  {
    assert a(Point(2 * i, 2 * j)) == b(Point(2 * i, 2 * j));
    assert a(Point(2 * i + 1, 2 * j)) == b(Point(2 * i + 1, 2 * j));
    assert a(Point(2 * i, 2 * j + 1)) == b(Point(2 * i, 2 * j + 1));
    assert a(Point(2 * i + 1, 2 * j + 1)) == b(Point(2 * i + 1, 2 * j + 1));
  }

  /** A drawing whose planes start at a corner of the canvas. */
  predicate DrawsTile(k: Surface, b: Box, d: Drawing) {
    b.Within(k.width, k.height) && EvenEdges(b) && d.stride == k.stride && d.width == b.width && d.height == b.height
    && d.plane0 == CellAt(k.base0, k.stride, b.x, b.y) && d.plane1 == CellAt(k.base1, k.stride, b.x, b.y / 2)
  }

  /** Luma after a drawing: its own samples inside the tile, the old ones elsewhere. */
  lemma LumaDrawn(codec: Codec, mem: Memory, k: Surface, b: Box, d: Drawing, x: nat, y: nat)
    requires k.Good() && DrawsTile(k, b, d) && x < k.width && y < k.height
    ensures Drawn(codec, mem, d)(k.Luma(x, y))
         == if b.Has(Point(x, y)) then LumaOf(codec, d.picture, x - b.x, y - b.y) else mem(k.Luma(x, y))
  {
    var a := k.Luma(x, y);
    k.LumaInside(x, y);
    NotNegative(k.stride, b.y / 2);
    assert a < d.plane1;
    assert !InPlane(a, d.plane1, d.stride, d.width, d.height / 2);
    CellInTile(k.base0, k.stride, k.width, x, y, b.x, b.y, b.width, b.height);
    hide InPlane, RowOf, ColumnOf, Surface.Good, CellAt, ChromaOf, LumaOf;
  }

  /** Chroma after a drawing: its own samples for the blocks inside the tile, the old ones elsewhere. */
  lemma ChromaDrawn(codec: Codec, mem: Memory, k: Surface, b: Box, d: Drawing, i: nat, j: nat, c: nat)
    requires k.Good() && DrawsTile(k, b, d) && i < k.width / 2 && j < k.height / 2 && c < 2
    ensures Drawn(codec, mem, d)(k.Chroma(i, j, c))
         == if b.Has(Point(2 * i, 2 * j)) then ChromaOf(codec, d.picture, i - b.x / 2, j - b.y / 2, c)
            else mem(k.Chroma(i, j, c))
  {
    var a := k.Chroma(i, j, c);
    k.ChromaInside(i, j, c);
    NotLuma(k, b, d, a);
    BlockInTile(k, b, i, j, c);
    assert d.plane1 <= a || !InPlane(a, d.plane1, d.stride, d.width, d.height / 2);
    hide InPlane, RowOf, ColumnOf, Surface.Good, CellAt, ChromaOf, LumaOf, EvenEdges, Surface.Chroma, Surface.End,
         Box.Has;
  }

  lemma BlockInTile(k: Surface, b: Box, i: nat, j: nat, c: nat)
    requires k.Good() && b.Within(k.width, k.height) && EvenEdges(b) && i < k.width / 2 && j < k.height / 2 && c < 2
    ensures var a, tile := k.Chroma(i, j, c), CellAt(k.base1, k.stride, b.x, b.y / 2);
            (InPlane(a, tile, k.stride, b.width, b.height / 2) <==> b.Has(Point(2 * i, 2 * j)))
            && (b.Has(Point(2 * i, 2 * j)) ==>
                  2 * i >= b.x && 2 * j >= b.y && tile <= a && ColumnOf(a, tile, k.stride) / 2 == i - b.x / 2
                  && RowOf(a, tile, k.stride) == j - b.y / 2 && ColumnOf(a, tile, k.stride) % 2 == c)
  {
    CellInTile(k.base1, k.stride, k.width, 2 * i + c, j, b.x, b.y / 2, b.width, b.height / 2);
    var a, tile := k.Chroma(i, j, c), CellAt(k.base1, k.stride, b.x, b.y / 2);
    assert InPlane(a, tile, k.stride, b.width, b.height / 2) ==> tile <= a;
    hide CellAt, InPlane, RowOf, ColumnOf;
    Columns(i, b.x, b.width, c);
    Rows(j, b.y, b.height);
    if b.Has(Point(2 * i, 2 * j)) { Halves(i, b.x, c); }
  }

  lemma Columns(i: nat, x: nat, width: nat, c: nat)
    requires x % 2 == 0 && width % 2 == 0 && c < 2
    ensures x <= 2 * i + c < x + width <==> x <= 2 * i < x + width
  {
  }

  lemma Rows(j: nat, y: nat, height: nat)
    requires y % 2 == 0 && height % 2 == 0
    ensures y / 2 <= j < y / 2 + height / 2 <==> y <= 2 * j < y + height
  {
  }

  lemma Halves(i: nat, x: nat, c: nat)
    requires x % 2 == 0 && c < 2 && x <= 2 * i
    ensures (2 * i + c - x) / 2 == i - x / 2 && (2 * i + c - x) % 2 == c
  {
  }

  lemma NotLuma(k: Surface, b: Box, d: Drawing, a: int)
    requires k.Good() && DrawsTile(k, b, d) && k.base1 <= a
    ensures !InPlane(a, d.plane0, d.stride, d.width, d.height)
  {
    if InPlane(a, d.plane0, d.stride, d.width, d.height) {
      CellBelow(a, d.plane0, k.base0, k.stride, k.width, k.height, b);
      assert false;
    }
  }

  lemma CellBelow(a: int, plane: int, base: int, stride: nat, width: nat, height: nat, b: Box)
    requires 0 < stride && width <= stride && b.Within(width, height) && plane == CellAt(base, stride, b.x, b.y)
    requires InPlane(a, plane, stride, b.width, b.height)
    ensures a < base + stride * height
  {
    var row, column := RowOf(a, plane, stride), ColumnOf(a, plane, stride);
    Divided(a - plane, stride);
    Spread(stride, b.y, b.y + row);
    Steps(stride, b.y + row, height);
    assert plane == base + stride * b.y + b.x;
    hide InPlane, RowOf, ColumnOf, CellAt;
  }

  /** Pictures that differ only inside a box with even edges have the same samples outside it. */
  lemma AgreeSameOutside(codec: Codec, k: Surface, b: Box, old': Picture, new': Picture)
    requires EvenEdges(b) && k.Good()
    requires forall p: Point :: InFrame(p, k.width, k.height) && !b.Has(p) ==> old'(p) == new'(p)
    ensures SameOutside(k, b, SamplesOf(codec, old'), SamplesOf(codec, new'))
  {
    forall x: nat, y: nat | x < k.width && y < k.height && !b.Has(Point(x, y))
      ensures LumaOf(codec, old', x, y) == LumaOf(codec, new', x, y)
    {
      assert old'(Point(x, y)) == new'(Point(x, y));
    }
    forall i: nat, j: nat, c: nat | i < k.width / 2 && j < k.height / 2 && c < 2 && !b.Has(Point(2 * i, 2 * j))
      ensures ChromaOf(codec, old', i, j, c) == ChromaOf(codec, new', i, j, c)
    {
      WholeBlocks(b, i, j);
      assert old'(Point(2 * i, 2 * j)) == new'(Point(2 * i, 2 * j));
      assert old'(Point(2 * i + 1, 2 * j)) == new'(Point(2 * i + 1, 2 * j));
      assert old'(Point(2 * i, 2 * j + 1)) == new'(Point(2 * i, 2 * j + 1));
      assert old'(Point(2 * i + 1, 2 * j + 1)) == new'(Point(2 * i + 1, 2 * j + 1));
    }
  }

  /** A box with even edges holds a block of four pixels whole or not at all. */
  lemma WholeBlocks(b: Box, i: nat, j: nat)
    requires EvenEdges(b)
    ensures b.Has(Point(2 * i, 2 * j)) <==> b.Has(Point(2 * i + 1, 2 * j))
    ensures b.Has(Point(2 * i, 2 * j)) <==> b.Has(Point(2 * i, 2 * j + 1))
    ensures b.Has(Point(2 * i, 2 * j)) <==> b.Has(Point(2 * i + 1, 2 * j + 1))
  {
    Columns(i, b.x, b.width, 1);
    Columns(j, b.y, b.height, 1);
  }

  /** A tile drawn on a canvas paints its rectangle and leaves the other samples; so the canvas shows the
      picture of the tile exactly if the other samples were those of the picture. */
  lemma TileDraw(codec: Codec, mem: Memory, k: Surface, b: Box, d: Drawing, old': Samples, picture: Picture)
    requires k.Good() && DrawsTile(k, b, d) && k.Holds(mem, old')
    requires Agree(d.picture, Cropped(picture, b), b.width, b.height)
    ensures k.Holds(Drawn(codec, mem, d), Painted(old', b, SamplesOf(codec, picture)))
    ensures k.Shows(codec, Drawn(codec, mem, d), picture) <==> SameOutside(k, b, old', SamplesOf(codec, picture))
  {
    var after, s := Drawn(codec, mem, d), SamplesOf(codec, picture);
    forall x: nat, y: nat | x < k.width && y < k.height
      ensures after(k.Luma(x, y)) == Painted(old', b, s).luma(x, y)
    {
      LumaDrawn(codec, mem, k, b, d, x, y);
      assert mem(k.Luma(x, y)) == old'.luma(x, y);
      if b.Has(Point(x, y)) { TileLuma(codec, b, d.picture, picture, x, y); }
    }
    forall i: nat, j: nat, c: nat | i < k.width / 2 && j < k.height / 2 && c < 2
      ensures after(k.Chroma(i, j, c)) == Painted(old', b, s).chroma(i, j, c)
    {
      ChromaDrawn(codec, mem, k, b, d, i, j, c);
      assert mem(k.Chroma(i, j, c)) == old'.chroma(i, j, c);
      if b.Has(Point(2 * i, 2 * j)) { TileChroma(codec, b, d.picture, picture, i, j, c); }
    }
    hide Drawn, DrawsTile, SamplesOf, Cropped, Agree, Surface.Luma, Surface.Chroma, Surface.Good, Painted, SameOutside;
    assert k.Holds(after, Painted(old', b, s));
    HoldsBoth(k, after, Painted(old', b, s), s);
    PaintedRight(k, b, old', s);
  }

  lemma TileLuma(codec: Codec, b: Box, tile: Picture, picture: Picture, x: nat, y: nat)
    requires b.Has(Point(x, y)) && Agree(tile, Cropped(picture, b), b.width, b.height)
    ensures LumaOf(codec, tile, x - b.x, y - b.y) == LumaOf(codec, picture, x, y)
  {
    assert tile(Point(x - b.x, y - b.y)) == Cropped(picture, b)(Point(x - b.x, y - b.y)) == picture(Point(x, y));
  }

  lemma TileChroma(codec: Codec, b: Box, tile: Picture, picture: Picture, i: nat, j: nat, c: nat)
    requires b.Has(Point(2 * i, 2 * j)) && EvenEdges(b) && Agree(tile, Cropped(picture, b), b.width, b.height)
    ensures i >= b.x / 2 && j >= b.y / 2
    ensures ChromaOf(codec, tile, i - b.x / 2, j - b.y / 2, c) == ChromaOf(codec, picture, i, j, c)
  {
    WholeBlocks(b, i, j);
    var v, w := i - b.x / 2, j - b.y / 2;
    assert b.x + 2 * v == 2 * i && b.y + 2 * w == 2 * j;
    var crop := Cropped(picture, b);
    hide EvenEdges;
    assert tile(Point(2 * v, 2 * w)) == crop(Point(2 * v, 2 * w)) == picture(Point(2 * i, 2 * j));
    assert tile(Point(2 * v + 1, 2 * w)) == crop(Point(2 * v + 1, 2 * w)) == picture(Point(2 * i + 1, 2 * j));
    assert tile(Point(2 * v, 2 * w + 1)) == crop(Point(2 * v, 2 * w + 1)) == picture(Point(2 * i, 2 * j + 1));
    assert tile(Point(2 * v + 1, 2 * w + 1)) == crop(Point(2 * v + 1, 2 * w + 1))
        == picture(Point(2 * i + 1, 2 * j + 1));
  }

  // ---- the bytes of a tile ----

  predicate LumaByte(k: Surface, b: Box, a: int)
    requires k.stride > 0
  {
    InPlane(a, CellAt(k.base0, k.stride, b.x, b.y), k.stride, b.width, b.height)
  }

  predicate ChromaByte(k: Surface, b: Box, a: int)
    requires k.stride > 0
  {
    InPlane(a, CellAt(k.base1, k.stride, b.x, b.y / 2), k.stride, b.width, b.height / 2)
  }

  /** A cell of a rectangle whose corner is at (left, top) is the cell at its column and row. */
  lemma CellOfTile(plane: int, stride: nat, left: nat, top: nat, width: nat, rows: nat, a: int) returns (x: nat, y: nat)
    requires 0 < stride && left + width <= stride && InPlane(a, CellAt(plane, stride, left, top), stride, width, rows)
    ensures left <= x < left + width && top <= y < top + rows && a == CellAt(plane, stride, x, y)
  {
    var tile := CellAt(plane, stride, left, top);
    x, y := left + ColumnOf(a, tile, stride), top + RowOf(a, tile, stride);
    Divided(a - tile, stride);
    Spread(stride, top, y);
  }

  /** The luma bytes of a tile are those the full frame uses for its pixels, inside the luma plane. */
  lemma LumaByteIs(k: Surface, b: Box, a: int) returns (x: nat, y: nat)
    requires k.Good() && b.Within(k.width, k.height) && LumaByte(k, b, a)
    ensures b.Has(Point(x, y)) && a == k.Luma(x, y) && k.base0 <= a < k.base1
  {
    x, y := CellOfTile(k.base0, k.stride, b.x, b.y, b.width, b.height, a);
    k.LumaInside(x, y);
    hide InPlane, CellAt;
  }

  /** The chroma bytes of a tile are those of its blocks, inside the chroma plane. */
  lemma ChromaByteIs(k: Surface, b: Box, a: int) returns (i: nat, j: nat, c: nat)
    requires k.Good() && b.Within(k.width, k.height) && EvenEdges(b) && ChromaByte(k, b, a)
    ensures c < 2 && b.Has(Point(2 * i, 2 * j)) && a == k.Chroma(i, j, c) && k.base1 <= a < k.End()
  {
    var x, y := CellOfTile(k.base1, k.stride, b.x, b.y / 2, b.width, b.height / 2, a);
    i, j, c := x / 2, y, x % 2;
    assert x == 2 * i + c;
    hide InPlane, CellAt, Surface.Good, Surface.End;
    Columns(i, b.x, b.width, c);
    Rows(j, b.y, b.height);
    assert i < k.width / 2 && j < k.height / 2;
    k.ChromaInside(i, j, c);
  }

  predicate NoCommonPixel(b: Box, d: Box) {
    b.x + b.width <= d.x || d.x + d.width <= b.x || b.y + b.height <= d.y || d.y + d.height <= b.y
    || !b.Nonempty() || !d.Nonempty()
  }

  lemma NoCommonPixelIs(b: Box, d: Box)
    ensures NoCommonPixel(b, d) <==> forall p: Point :: !(b.Has(p) && d.Has(p))
  {
    if !NoCommonPixel(b, d) {
      var p := Point(Max(b.x, d.x), Max(b.y, d.y));
      assert b.Has(p) && d.Has(p);
    }
  }

  lemma LumaApart(k: Surface, b: Box, d: Box, a: int)
    requires k.Good() && b.Within(k.width, k.height) && d.Within(k.width, k.height) && NoCommonPixel(b, d)
    ensures !(LumaByte(k, b, a) && LumaByte(k, d, a))
  {
    assert k.stride > 0;
    hide LumaByte, Surface.Luma, Surface.Good;
    if LumaByte(k, b, a) && LumaByte(k, d, a) {
      var x, y := LumaByteIs(k, b, a);
      var v, w := LumaByteIs(k, d, a);
      k.SamplesApart(x, y, v, w);
    }
  }

  lemma ChromaApart(k: Surface, b: Box, d: Box, a: int)
    requires k.Good() && b.Within(k.width, k.height) && d.Within(k.width, k.height) && EvenEdges(b) && EvenEdges(d)
    requires NoCommonPixel(b, d)
    ensures !(ChromaByte(k, b, a) && ChromaByte(k, d, a))
  {
    assert k.stride > 0;
    hide ChromaByte, Surface.Chroma, Surface.Good, Surface.End;
    if ChromaByte(k, b, a) && ChromaByte(k, d, a) {
      var i, j, c := ChromaByteIs(k, b, a);
      var e, f, g := ChromaByteIs(k, d, a);
      WholeBlocks(b, i, j);
      WholeBlocks(d, e, f);
      hide EvenEdges;
      BlocksApart(k, i, j, c, e, f, g);
    }
  }

  lemma PlanesApart(k: Surface, b: Box, d: Box, a: int)
    requires k.Good() && b.Within(k.width, k.height) && d.Within(k.width, k.height) && EvenEdges(d)
    ensures !(LumaByte(k, b, a) && ChromaByte(k, d, a))
  {
    assert k.stride > 0;
    hide LumaByte, ChromaByte, Surface.Luma, Surface.Chroma, Surface.Good, Surface.End;
    if LumaByte(k, b, a) && ChromaByte(k, d, a) {
      var x, y := LumaByteIs(k, b, a);
      var i, j, c := ChromaByteIs(k, d, a);
    }
  }

  /** Tiles that share no pixel share no byte. */
  lemma TilesApart(k: Surface, b: Box, d: Box, a: int)
    requires k.Good() && b.Within(k.width, k.height) && d.Within(k.width, k.height) && EvenEdges(b) && EvenEdges(d)
    requires forall p: Point :: !(b.Has(p) && d.Has(p))
    ensures !((LumaByte(k, b, a) || ChromaByte(k, b, a)) && (LumaByte(k, d, a) || ChromaByte(k, d, a)))
  {
    NoCommonPixelIs(b, d);
    LumaApart(k, b, d, a);
    ChromaApart(k, b, d, a);
    PlanesApart(k, b, d, a);
    PlanesApart(k, d, b, a);
    hide LumaByte, ChromaByte;
  }

  lemma BlocksApart(k: Surface, i: nat, j: nat, c: nat, e: nat, f: nat, g: nat)
    requires k.Good() && c < 2 && g < 2 && 2 * i + 1 < k.width && 2 * e + 1 < k.width
    requires k.Chroma(i, j, c) == k.Chroma(e, f, g)
    ensures i == e && j == f && c == g
  {
    Quotient(k.stride, j, 2 * i + c, f, 2 * e + g);
  }
}
