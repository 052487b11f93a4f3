/** The flip headers of raw frames (lib.rs) against the buffers the converters fill. */
module YuvHeaders {
  import opened Arithmetic
  import opened Bytes
  import opened Geometry
  import opened Pictures
  import opened Planes
  import opened Tiles
  import opened VideoHeaders
  import opened Yuv
  import Canvas

  /** align_u16: the result is cut to 16 bits. */
  function AlignU16(value: u16, alignment: u16): u16
    requires alignment > 0
  {
    Align(value, alignment) % 0x1_0000
  }

  /** VideoFlipHeader::nv12. */
  function Nv12Header(displayIndex: byte, payloadSize: u32, width: u16, height: u16, fb: u32, flags: byte): FlipHeader {
    var pitch := AlignU16(width, 16);
    var dataStart := Wrap32(fb + 48);
    FlipHeader(FlipCommand(displayIndex), payloadSize, 0, VIDEO_COLOR_NV12, pitch, pitch, dataStart,
               Wrap32(dataStart + pitch * height), 0,
               VIDEO_COLOR_NV12, flags)
  }

  /** VideoFlipHeader::yv12. */
  function Yv12Header(displayIndex: byte, payloadSize: u32, width: u16, height: u16, fb: u32, flags: byte): FlipHeader {
    var yPitch, uvPitch := AlignU16(width, 16), AlignU16(width / 2, 16);
    var yOffset := yPitch * height;
    var dataStart := Wrap32(fb + 48);
    FlipHeader(FlipCommand(displayIndex), payloadSize, 0, VIDEO_COLOR_YV12, yPitch, uvPitch, dataStart,
               Wrap32(dataStart + yOffset),
               Wrap32(dataStart + (yOffset + uvPitch * (height / 2))), VIDEO_COLOR_YV12, flags)
  }

  /** The pitch of the header is the pitch of the buffer exactly up to a width of 65520. */
  lemma PitchAgrees(width: u16)
    ensures AlignU16(width, 16) == Align(width, 16) <==> width <= 65520
    ensures AlignU16(width / 2, 16) == Align(width / 2, 16)
  {
    Align16Is(width);
    Align16Is(width / 2);
    var q := DivCeil(width, 16);
    assert Align(width, 16) == 16 * q;
    hide Align, DivCeil;
  }

  /** RawFramePacket: header, picture and padding, stored at the framebuffer address. */
  function Packet(header: FlipHeader, data: seq<byte>): seq<byte> {
    header.ToBytes() + data + seq(1024, i => 0 as byte)
  }

  lemma Stored(mem: Canvas.Memory, fb: nat, header: FlipHeader, data: seq<byte>, at: nat)
    requires at < |data|
    ensures Canvas.Write(mem, fb, Packet(header, data))(fb + 48 + at) == data[at]
  {
    hide FlipHeader.ToBytes;
    assert Packet(header, data)[48 + at] == data[at];
  }

  /** Where the header says a sample of a plane is. */
  function Declared(offset: u32, pitch: u16, x: nat, y: nat): int { offset + pitch * y + x }

  lemma PlaneStored(
    mem: Canvas.Memory, fb: nat, header: FlipHeader, data: seq<byte>, k: Plane, offset: u32, pitch: u16, p: Point)
    requires Filled(data, k, (q: Point) => true) && k.Good() && k.Has(p)
    requires offset == fb + 48 + k.base && pitch == k.stride
    ensures Canvas.Write(mem, fb, Packet(header, data))(Declared(offset, pitch, p.x, p.y)) == k.value(p)
  {
    CellInside(k, p);
    assert InBuffer(data, k, p) == k.value(p);
    Stored(mem, fb, header, data, k.At(p));
    assert Declared(offset, pitch, p.x, p.y) == fb + 48 + k.At(p);
    hide Canvas.Write, Packet;
  }

  /** An output the 16-bit and 32-bit fields can describe. */
  predicate Describable(width: u16, height: u16, fb: u32, size: nat) {
    width <= 65520 && width % 2 == 0 && height % 2 == 0 && fb + 48 + size < TWO32
  }

  lemma Nv12Offsets(
    displayIndex: byte, payloadSize: u32, width: u16, height: u16, fb: u32, flags: byte, picture: Picture,
    toYuv: Convert, mode: ChromaMode)
    requires Describable(width, height, fb, Nv12Size(width, height))
    ensures var h := Nv12Header(displayIndex, payloadSize, width, height, fb, flags);
            var p := Nv12Planes(picture, toYuv, mode, width, height);
            h.yPitch == p[0].stride && h.uvPitch == p[1].stride && h.yOffset == fb + 48 + p[0].base
            && h.uOffset == fb + 48 + p[1].base
  {
    PitchAgrees(width);
    Nv12Laid(picture, toYuv, mode, width, height);
    NotNegative(Align(width, 16), height);
    NotNegative(Align(width, 16), height / 2);
    hide Align;
  }

  /** After an NV12 packet is stored, every sample of the turned picture is at the plane offset and pitch
      that its header declares. */
  lemma Nv12OnDevice(mem: Canvas.Memory, displayIndex: byte, payloadSize: u32, width: u16, height: u16, fb: u32,
                     flags: byte, picture: Picture, toYuv: Convert, mode: ChromaMode, data: seq<byte>,
                     x: nat, y: nat, i: nat, j: nat)
    requires Describable(width, height, fb, Nv12Size(width, height)) && x < width && y < height && i < width / 2
    requires j < height / 2
    requires AllFilled(data, Nv12Planes(picture, toYuv, mode, width, height))
    ensures var h := Nv12Header(displayIndex, payloadSize, width, height, fb, flags);
            var stored := Canvas.Write(mem, fb, Packet(h, data));
            stored(Declared(h.yOffset, h.yPitch, x, y)) == toYuv(picture(Point(x, y))).y
            && (stored(Declared(h.uOffset, h.uvPitch, 2 * i, j)), stored(Declared(h.uOffset, h.uvPitch, 2 * i + 1, j)))
               == BlockChroma(picture, toYuv, mode, i, j)
  {
    hide *;
    var h := Nv12Header(displayIndex, payloadSize, width, height, fb, flags);
    var p := Nv12Planes(picture, toYuv, mode, width, height);
    Nv12Offsets(displayIndex, payloadSize, width, height, fb, flags, picture, toYuv, mode);
    Nv12Laid(picture, toYuv, mode, width, height);
    Nv12Values(picture, toYuv, mode, width, height, x, y, i, j);
    Full(data, p, 0);
    Full(data, p, 1);
    PlaneStored(mem, fb, h, data, p[0], h.yOffset, h.yPitch, Point(x, y));
    PlaneStored(mem, fb, h, data, p[1], h.uOffset, h.uvPitch, Point(2 * i, j));
    PlaneStored(mem, fb, h, data, p[1], h.uOffset, h.uvPitch, Point(2 * i + 1, j));
  }

  lemma Full(data: seq<byte>, planes: seq<Plane>, i: nat)
    requires AllFilled(data, planes) && i < |planes|
    ensures Filled(data, planes[i], (q: Point) => true)
  {
  }

  lemma Nv12Values(picture: Picture, toYuv: Convert, mode: ChromaMode, w: nat, h: nat, x: nat, y: nat, i: nat, j: nat)
    requires x < w && y < h && i < w / 2 && j < h / 2
    ensures var p := Nv12Planes(picture, toYuv, mode, w, h);
            |p| == 2 && p[0].Has(Point(x, y)) && p[1].Has(Point(2 * i, j)) && p[1].Has(Point(2 * i + 1, j))
            && p[0].value(Point(x, y)) == toYuv(picture(Point(x, y))).y
            && (p[1].value(Point(2 * i, j)), p[1].value(Point(2 * i + 1, j))) == BlockChroma(picture, toYuv, mode, i, j)
  {
    hide Align, BlockChroma, LumaPlane, UvPlane, Plane.Has;
    LumaValue(picture, toYuv, w, h, Point(x, y));
    UvValue(picture, toYuv, mode, w, h, Point(2 * i, j), i);
    UvValue(picture, toYuv, mode, w, h, Point(2 * i + 1, j), i);
  }

  lemma LumaValue(picture: Picture, toYuv: Convert, w: nat, h: nat, p: Point)
    requires p.x < w && p.y < h
    ensures var k := LumaPlane(picture, toYuv, w, h); k.Has(p) && k.value(p) == toYuv(picture(p)).y
  {
    hide Align;
  }

  lemma UvValue(picture: Picture, toYuv: Convert, mode: ChromaMode, w: nat, h: nat, p: Point, i: nat)
    requires i < w / 2 && p.y < h / 2 && (p.x == 2 * i || p.x == 2 * i + 1)
    ensures var k := UvPlane(picture, toYuv, mode, w, h);
            k.Has(p) && k.value(p) == if p.x == 2 * i then BlockChroma(picture, toYuv, mode, i, p.y).0
                                      else BlockChroma(picture, toYuv, mode, i, p.y).1
  {
    hide Align, BlockChroma;
    Parity(p.x, i);
    var k := UvPlane(picture, toYuv, mode, w, h);
    assert k.width == w && k.rows == h / 2;
    Twice(i, w);
  }

  lemma Parity(x: nat, i: nat)
    requires x == 2 * i || x == 2 * i + 1
    ensures x / 2 == i && x % 2 == x - 2 * i
  {
  }

  lemma Twice(i: nat, w: nat)
    requires i < w / 2
    ensures 2 * i + 1 < w
  {
  }

  lemma Yv12Values(picture: Picture, toYuv: Convert, mode: ChromaMode, w: nat, h: nat, x: nat, y: nat, i: nat, j: nat)
    requires x < w && y < h && i < w / 2 && j < h / 2
    ensures var p := Yv12Planes(picture, toYuv, mode, w, h);
            |p| == 3 && p[0].Has(Point(x, y)) && p[1].Has(Point(i, j)) && p[2].Has(Point(i, j))
            && p[0].value(Point(x, y)) == toYuv(picture(Point(x, y))).y
            && (p[1].value(Point(i, j)), p[2].value(Point(i, j))) == BlockChroma(picture, toYuv, mode, i, j)
  {
    hide Align, BlockChroma;
  }

  lemma Yv12Offsets(
    displayIndex: byte, payloadSize: u32, width: u16, height: u16, fb: u32, flags: byte, picture: Picture,
    toYuv: Convert, mode: ChromaMode)
    requires Describable(width, height, fb, Yv12Size(width, height))
    ensures var h := Yv12Header(displayIndex, payloadSize, width, height, fb, flags);
            var p := Yv12Planes(picture, toYuv, mode, width, height);
            h.yPitch == p[0].stride && h.uvPitch == p[1].stride && h.uvPitch == p[2].stride
            && h.yOffset == fb + 48 + p[0].base
            && h.uOffset == fb + 48 + p[1].base && h.vOffset == fb + 48 + p[2].base
  {
    PitchAgrees(width);
    var a, b := Align(width, 16) * height, Align(width / 2, 16) * (height / 2);
    NotNegative(Align(width, 16), height);
    NotNegative(Align(width / 2, 16), height / 2);
    assert Yv12Size(width, height) == a + b + b;
    Sums(fb, a, b);
    hide Align, AlignU16, Wrap32, FlipCommand, BlockChroma, Describable, Yv12Size;
  }

  lemma Sums(fb: u32, a: nat, b: nat)
    requires fb + 48 + (a + b + b) < TWO32
    ensures Wrap32(fb + 48) == fb + 48 && Wrap32(fb + 48 + a) == fb + 48 + a
    ensures Wrap32(fb + 48 + (a + b)) == fb + 48 + (a + b)
  {
  }

  /** The same for YV12, whose U and V planes have their own offsets. */
  lemma Yv12OnDevice(mem: Canvas.Memory, displayIndex: byte, payloadSize: u32, width: u16, height: u16, fb: u32,
                     flags: byte, picture: Picture, toYuv: Convert, mode: ChromaMode, data: seq<byte>,
                     x: nat, y: nat, i: nat, j: nat)
    requires Describable(width, height, fb, Yv12Size(width, height)) && x < width && y < height && i < width / 2
    requires j < height / 2
    requires AllFilled(data, Yv12Planes(picture, toYuv, mode, width, height))
    ensures var h := Yv12Header(displayIndex, payloadSize, width, height, fb, flags);
            var stored := Canvas.Write(mem, fb, Packet(h, data));
            stored(Declared(h.yOffset, h.yPitch, x, y)) == toYuv(picture(Point(x, y))).y
            && (stored(Declared(h.uOffset, h.uvPitch, i, j)), stored(Declared(h.vOffset, h.uvPitch, i, j)))
               == BlockChroma(picture, toYuv, mode, i, j)
  {
    hide *;
    var h := Yv12Header(displayIndex, payloadSize, width, height, fb, flags);
    var p := Yv12Planes(picture, toYuv, mode, width, height);
    Yv12Offsets(displayIndex, payloadSize, width, height, fb, flags, picture, toYuv, mode);
    Yv12Laid(picture, toYuv, mode, width, height);
    Yv12Values(picture, toYuv, mode, width, height, x, y, i, j);
    Full(data, p, 0);
    Full(data, p, 1);
    Full(data, p, 2);
    PlaneStored(mem, fb, h, data, p[0], h.yOffset, h.yPitch, Point(x, y));
    PlaneStored(mem, fb, h, data, p[1], h.uOffset, h.uvPitch, Point(i, j));
    PlaneStored(mem, fb, h, data, p[2], h.vOffset, h.uvPitch, Point(i, j));
  }
}
