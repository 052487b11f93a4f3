/** Partial updates of the display sender (t6-virtual-display.rs): which packets a captured frame
    becomes, and what the device shows after them. */
module PartialUpdates {
  import opened Arithmetic
  import opened Wrappers
  import opened Bytes
  import opened Canvas
  import opened Geometry
  import opened Pictures
  import opened Scheduler
  import opened Tiles
  import opened VideoHeaders

  // ---- packets ----

  /** What the decoder gets from the image of a packet. */
  datatype Image = Image(width: nat, height: nat, picture: Picture)

  datatype Packet = Packet(address: u32, payload: seq<byte>, image: Image)

  /** Vec::resize with zero bytes. */
  function Resize(data: seq<byte>, len: nat): (r: seq<byte>)
    ensures |r| == len
  {
    if |data| >= len then data[..len] else data + seq(len - |data|, i => 0 as byte)
  }

  /** The device stores a packet, reads its header and draws its image. */
  function Receive(codec: Codec, mem: Memory, packet: Packet): Memory {
    var stored := Write(mem, packet.address, packet.payload);
    var header := ParseVideoHeader(packet.payload);
    if header.None? then stored
    else
      var h := header.value;
      if h.videoType == 7 && h.canvas.Some? && h.canvas.value.0 > 0 then
        Drawn(codec, stored,
              Drawing(h.start, h.end, h.canvas.value.0, h.widthField, h.heightField, packet.image.picture))
      else if h.videoType == 4 && h.widthField > 0 then
        Drawn(codec, stored,
              Drawing(h.start, h.end, h.widthField, packet.image.width, packet.image.height, packet.image.picture))
      else stored
  }

  function Wrap16(x: nat): u16 { x % 0x1_0000 }

  /** Type4Mode6SetupPacket::new. The canvas height field is computed from the output width. */
  function SetupPacket(
    base: u32, width: nat, height: nat, address: u32, fence: u32, jpeg: seq<byte>, picture: Picture): Packet {
    var len := Type7Mode6CmdOffset(|jpeg|);
    var (base0, base1) := SlotBases(base, width, height);
    var header := Type4Header(SatSub(len, 48), fence, Wrap16(Align(width, 16)), Wrap16(Align(width, 16)), base0, base1,
                              0);
    Packet(address, Resize(header.ToBytes() + jpeg, len), Image(width, height, picture))
  }

  /** Type7JpegTilePacket::new for a tile of the output. */
  function TilePacket(
    base: u32, width: nat, height: nat, b: Box, address: u32, fence: u32, jpeg: seq<byte>, picture: Picture): Packet {
    var len := Type7Mode6CmdOffset(|jpeg|);
    var (plane0, plane1) := PlaneAddrs(base, b.x, b.y, width, height, Align(width, 16));
    var header := Type7Header(SatSub(len, 48), fence, Wrap16(b.width), Wrap16(b.height), Wrap16(Align(width, 16)),
                              Wrap16(Align(width, 16)), plane0, plane1, 0);
    Packet(address, Resize(header.ToBytes() + jpeg, len), Image(b.width, b.height, picture))
  }

  /** An image whose packet length fits 32 bits. */
  predicate Packable(jpeg: seq<byte>) { |jpeg| + 0x450 <= TWO32 }

  lemma ResizeIs(header: seq<byte>, jpeg: seq<byte>)
    requires |header| == 48 && Packable(jpeg)
    ensures var len := Type7Mode6CmdOffset(|jpeg|);
            len >= 48 + |jpeg| && SatSub(len, 48) <= len
            && Resize(header + jpeg, len) == header + (jpeg + seq(len - 48 - |jpeg|, i => 0 as byte))
  {
    Type7OffsetHolds(|jpeg|);
    hide Type7Mode6CmdOffset;
  }

  /** What the device reads in a setup packet. */
  lemma SetupHeader(base0: u32, base1: u32, stride: u16, len: u32, fence: u32, jpeg: seq<byte>)
    requires Packable(jpeg) && StartsAsJpeg(jpeg) && len == Type7Mode6CmdOffset(|jpeg|)
    ensures var header := Type4Header(SatSub(len, 48), fence, stride, stride, base0, base1, 0);
            var h := ParseVideoHeader(Resize(header.ToBytes() + jpeg, len));
            h.Some? && h.value.videoType == 4 && h.value.start == base0 && h.value.end == base1
            && h.value.widthField == stride
  {
    var header := Type4Header(SatSub(len, 48), fence, stride, stride, base0, base1, 0);
    ResizeIs(header.ToBytes(), jpeg);
    hide ParseVideoHeader, Resize, Type4Header.ToBytes, StartsAsJpeg, Packable, Type7Mode6CmdOffset, SatSub;
    Type4Parses(header, jpeg, seq(len - 48 - |jpeg|, i => 0 as byte));
  }

  /** What the device reads in a tile packet. */
  lemma TileHeader(
    plane0: u32, plane1: u32, stride: u16, width: u16, height: u16, len: u32, fence: u32, jpeg: seq<byte>)
    requires Packable(jpeg) && len == Type7Mode6CmdOffset(|jpeg|)
    ensures var header := Type7Header(SatSub(len, 48), fence, width, height, stride, stride, plane0, plane1, 0);
            var h := ParseVideoHeader(Resize(header.ToBytes() + jpeg, len));
            h.Some? && h.value.videoType == 7 && h.value.start == plane0 && h.value.end == plane1
            && h.value.canvas == Some((stride, stride)) && h.value.widthField == width && h.value.heightField == height
  {
    var header := Type7Header(SatSub(len, 48), fence, width, height, stride, stride, plane0, plane1, 0);
    ResizeIs(header.ToBytes(), jpeg);
    hide ParseVideoHeader, Resize, Type7Header.ToBytes, Packable, Type7Mode6CmdOffset, SatSub;
    Type7Parses(header, jpeg, seq(len - 48 - |jpeg|, i => 0 as byte));
  }

  lemma ReceiveSetup(
    codec: Codec, mem: Memory, base: u32, width: nat, height: nat, address: u32, fence: u32, jpeg: seq<byte>,
    picture: Picture)
    requires Drawable(base, width, height) && Packable(jpeg) && StartsAsJpeg(jpeg)
    ensures var p := SetupPacket(base, width, height, address, fence, jpeg, picture);
            var k := SurfaceOf(base, width, height);
            0 <= k.base0 < TWO32 && 0 <= k.base1 < TWO32 && 0 < k.stride
            && Receive(codec, mem, p) == Drawn(codec, Write(mem, address, p.payload), FullDrawing(k, picture))
  {
    hide SurfaceOf, SetupPacket, Receive, Drawn, Write, FullDrawing, StartsAsJpeg, Packable, Type7Mode6CmdOffset,
         Drawable,
         ParseVideoHeader, Resize;
    SetupPacketIs(base, width, height, address, fence, jpeg, picture);
    var k := SurfaceOf(base, width, height);
    SetupHeader(k.base0, k.base1, k.stride, Type7Mode6CmdOffset(|jpeg|), fence, jpeg);
    FrameReceived(codec, mem, SetupPacket(base, width, height, address, fence, jpeg, picture), k);
  }

  lemma SetupPacketIs(base: u32, width: nat, height: nat, address: u32, fence: u32, jpeg: seq<byte>, picture: Picture)
    requires Drawable(base, width, height)
    ensures var k := SurfaceOf(base, width, height);
            var len := Type7Mode6CmdOffset(|jpeg|);
            0 <= k.base0 < TWO32 && 0 <= k.base1 < TWO32 && 0 < k.stride < 0x1_0000 && k.width == width
            && k.height == height
            && SetupPacket(base, width, height, address, fence, jpeg, picture)
               == Packet(address,
                         Resize(Type4Header(SatSub(len, 48), fence, k.stride, k.stride, k.base0, k.base1, 0).ToBytes()
                                + jpeg, len),
                         Image(width, height, picture))
  {
    SlotBasesAre(base, width, height);
    SurfaceGood(base, width, height);
    var k := SurfaceOf(base, width, height);
    assert k.stride == Align(width, 16);
    Small16(k.stride);
    hide Wrap16, SlotBases, Align, Type7Mode6CmdOffset, Type4Header.ToBytes, SatSub, Resize, Span, Surface.End;
  }

  lemma FrameReceived(codec: Codec, mem: Memory, p: Packet, k: Surface)
    requires ParseVideoHeader(p.payload).Some? && 0 < k.stride < 0x1_0000 && 0 <= k.base0 < TWO32
    requires 0 <= k.base1 < TWO32
    requires var h := ParseVideoHeader(p.payload).value;
             h.videoType == 4 && h.start == k.base0 && h.end == k.base1 && h.widthField == k.stride
    requires p.image.width == k.width && p.image.height == k.height
    ensures Receive(codec, mem, p) == Drawn(codec, Write(mem, p.address, p.payload), FullDrawing(k, p.image.picture))
  {
    hide ParseVideoHeader, Drawn, Write;
  }

  lemma TileReceived(codec: Codec, mem: Memory, p: Packet, d: Drawing)
    requires ParseVideoHeader(p.payload).Some? && 0 < d.stride < 0x1_0000
    requires var h := ParseVideoHeader(p.payload).value;
             h.videoType == 7 && h.start == d.plane0 && h.end == d.plane1 && h.canvas.Some?
             && h.canvas.value.0 == d.stride
             && h.widthField == d.width && h.heightField == d.height
    requires p.image.picture == d.picture
    ensures Receive(codec, mem, p) == Drawn(codec, Write(mem, p.address, p.payload), d)
  {
    hide ParseVideoHeader, Drawn, Write;
  }

  lemma ReceiveTile(
    codec: Codec, mem: Memory, base: u32, width: nat, height: nat, b: Box, address: u32, fence: u32, jpeg: seq<byte>,
    picture: Picture)
    requires Drawable(base, width, height) && Packable(jpeg) && b.Within(width, height) && b.Nonempty() && EvenEdges(b)
    ensures var p := TilePacket(base, width, height, b, address, fence, jpeg, picture);
            var k := SurfaceOf(base, width, height);
            var (plane0, plane1) := PlaneAddrs(base, b.x, b.y, width, height, k.stride);
            var d := Drawing(plane0, plane1, k.stride, b.width, b.height, picture);
            k.Good() && DrawsTile(k, b, d) && Receive(codec, mem, p) == Drawn(codec, Write(mem, address, p.payload), d)
  {
    hide *;
    TilePacketIs(base, width, height, b, address, fence, jpeg, picture);
    var k := SurfaceOf(base, width, height);
    var (plane0, plane1) := PlaneAddrs(base, b.x, b.y, width, height, k.stride);
    TileHeader(plane0, plane1, k.stride, b.width, b.height, Type7Mode6CmdOffset(|jpeg|), fence, jpeg);
    TileReceived(codec, mem, TilePacket(base, width, height, b, address, fence, jpeg, picture),
                 Drawing(plane0, plane1, k.stride, b.width, b.height, picture));
  }

  lemma TilePacketIs(
    base: u32, width: nat, height: nat, b: Box, address: u32, fence: u32, jpeg: seq<byte>, picture: Picture)
    requires Drawable(base, width, height) && b.Within(width, height) && b.Nonempty() && EvenEdges(b)
    ensures var k := SurfaceOf(base, width, height);
            var (plane0, plane1) := PlaneAddrs(base, b.x, b.y, width, height, k.stride);
            var len := Type7Mode6CmdOffset(|jpeg|);
            k.Good() && 0 < k.stride < 0x1_0000 && b.width < 0x1_0000 && b.height < 0x1_0000
            && DrawsTile(k, b, Drawing(plane0, plane1, k.stride, b.width, b.height, picture))
            && TilePacket(base, width, height, b, address, fence, jpeg, picture)
               == Packet(address,
                         Resize(Type7Header(SatSub(len, 48), fence, b.width, b.height, k.stride, k.stride,
                                            plane0, plane1, 0).ToBytes() + jpeg, len),
                         Image(b.width, b.height, picture))
  {
    TileFacts(base, width, height, b, picture);
    hide PlaneAddrs, SurfaceOf, Align, Type7Mode6CmdOffset, Type7Header.ToBytes, SatSub, Resize, CellAt, EvenEdges,
         Surface.Good, Drawable, DrawsTile;
  }

  lemma TileFacts(base: u32, width: nat, height: nat, b: Box, picture: Picture)
    requires Drawable(base, width, height) && b.Within(width, height) && b.Nonempty() && EvenEdges(b)
    ensures var k := SurfaceOf(base, width, height);
            var (plane0, plane1) := PlaneAddrs(base, b.x, b.y, width, height, k.stride);
            k.Good() && 0 < k.stride < 0x1_0000 && b.width < 0x1_0000 && b.height < 0x1_0000
            && k.stride == Align(width, 16)
            && Wrap16(k.stride) == k.stride && Wrap16(b.width) == b.width && Wrap16(b.height) == b.height
            && DrawsTile(k, b, Drawing(plane0, plane1, k.stride, b.width, b.height, picture))
  {
    StrideFacts(base, width, height);
    PlaneAddrsAre(base, b, width, height);
    Small16(b.width);
    Small16(b.height);
    hide PlaneAddrs, SurfaceOf, Align, CellAt, EvenEdges, Surface.Good, Drawable, Wrap16;
  }

  lemma Small16(x: nat)
    requires x < 0x1_0000
    ensures Wrap16(x) == x
  {
  }

  lemma StrideFacts(base: u32, width: nat, height: nat)
    requires Drawable(base, width, height)
    ensures var k := SurfaceOf(base, width, height);
            k.Good() && 0 < k.stride < 0x1_0000 && k.stride == Align(width, 16) && Wrap16(k.stride) == k.stride
            && k.width == width < 0x1_0000 && k.height == height < 0x1_0000
  {
    SurfaceGood(base, width, height);
    assert SurfaceOf(base, width, height).stride == Align(width, 16);
    Small16(Align(width, 16));
    hide Align, Span, Surface.End, Wrap16;
  }

  // ---- the sender ----

  datatype SetupMode = SyntheticType4 | PairedType4Type7

  datatype RingMode = Windows | Legacy

  datatype Options = Options(width: nat, height: nat, rotate: Rotation, rectMode: RectMode, ringMode: RingMode,
                             setupMode: SetupMode, refreshFrames: nat, dropLateFrames: bool, setupOnly: bool)
  {
    function OutWidth(): nat { RotatedSize(width, height, rotate).0 }

    function OutHeight(): nat { RotatedSize(width, height, rotate).1 }

    function Turned(picture: Picture): Picture { Rotated(picture, width, height, rotate) }
  }

  const ALLOCATED_BASES: seq<u32> := [0x0250_0400, 0x0295_56C0, 0x02DA_A980]
  const SETUP_SLOT_ORDER: seq<nat> := [2, 0, 1]

  function SlotBase(slot: nat): u32
    requires slot < 3
  {
    ALLOCATED_BASES[SETUP_SLOT_ORDER[slot]]
  }

  /** The fields of SenderState that sending reads or writes, and the memory of the device. */
  datatype State = State(sentFrames: nat, fb: Option<u32>, slot: nat, base: u32, lastBox: Option<Box>, nextFence: u32,
                         ring: Ring, mem: Memory)

  /** A frame is tested for lateness before it is encoded, and again after. */
  datatype Clock = InTime | Late | LateEncoded

  /** A captured frame with what the clock, the ratios and the encoder make of it: whether the dirty
      box counts as nearly everything, whether the tile is out of its size limits, when the frame is
      found late, and the bytes of the full image, of the tile and of the paired tile. */
  datatype Input = Input(
    frame: Frame, dirty: DirtySummary, fullish: bool, tileRefused: bool, fullClock: Clock, tileClock: Clock,
    full: seq<byte>, tile: seq<byte>, pair: seq<byte>)

  datatype Outcome = SentFull | SentTile | Dropped

  function NextFence(fence: u32): u32 { if Wrap32(fence + 1) == 0 then 1 else Wrap32(fence + 1) }

  /** A Type4 frame goes to the next slot, whose canvas becomes the current one. */
  function SendSetup(o: Options, codec: Codec, s: State, fence: u32, jpeg: seq<byte>, picture: Picture): State
    requires s.slot < 3
  {
    var base := SlotBase(s.slot);
    var offset := Type7Mode6CmdOffset(|jpeg|);
    var packet := SetupPacket(base, o.OutWidth(), o.OutHeight(), Take(s.ring, offset).addr, fence, jpeg, picture);
    s.(fb := Some(base), base := base, slot := (s.slot + 1) % 3, ring := Next(s.ring, offset),
       mem := Receive(codec, s.mem, packet))
  }

  /** A Type7 tile goes to the current canvas. */
  function SendTile(
    o: Options, codec: Codec, s: State, fence: u32, b: Box, slot: Slot, jpeg: seq<byte>, picture: Picture): State {
    var packet := TilePacket(s.base, o.OutWidth(), o.OutHeight(), b, slot.addr, fence, jpeg, Cropped(picture, b));
    s.(mem := Receive(codec, s.mem, packet))
  }

  function PairBox(o: Options): Box { Box(0, 0, Min(o.OutWidth(), 64), Min(o.OutHeight(), 64)) }

  /** send_full_jpeg_frame with a Type4 setup mode. */
  function SendFull(o: Options, codec: Codec, s: State, in': Input): (State, Outcome)
    requires s.slot < 3 && in'.frame.Valid()
  {
    var picture := o.Turned(in'.frame.Shown());
    var fenced := s.(nextFence := NextFence(s.nextFence));
    if o.dropLateFrames && in'.fullClock.Late? then (s, Dropped)
    else if o.dropLateFrames && in'.fullClock.LateEncoded? then (fenced, Dropped)
    else
      var setup := SendSetup(o, codec, fenced, s.nextFence, in'.full, picture);
      if o.setupMode.SyntheticType4? then (setup, SentFull)
      else
        var offset := Type7Mode6CmdOffset(|in'.pair|);
        var paired := setup.(nextFence := NextFence(setup.nextFence), ring := Next(setup.ring, offset));
        (SendTile(o, codec, paired, setup.nextFence, PairBox(o), Take(setup.ring, offset), in'.pair, picture), SentFull)
  }

  /** The ring space of a tile. */
  function TileOffset(o: Options, jpegLen: nat): u32 {
    if o.ringMode.Windows? then Type7Mode6CmdOffset(jpegLen) else JpegOffset(48 + jpegLen)
  }

  /** The tail of send_jpeg_type7_frame, once there is a rectangle to send. */
  function SendPartial(o: Options, codec: Codec, s: State, in': Input, b: Box): (State, Outcome)
    requires s.slot < 3 && in'.frame.Valid()
  {
    var picture := o.Turned(in'.frame.Shown());
    var fence := s.nextFence;
    var fenced := s.(nextFence := NextFence(s.nextFence));
    if o.dropLateFrames && in'.tileClock.Late? then (s, Dropped)
    else if o.dropLateFrames && in'.tileClock.LateEncoded? then (fenced, Dropped)
    else
      if o.setupOnly then
        var setup := SendSetup(o, codec, fenced.(nextFence := NextFence(fenced.nextFence)), fence, in'.full, picture);
        (setup.(ring := Next(setup.ring, Type7Mode6CmdOffset(|in'.tile|))), SentFull)
      else
        var offset := TileOffset(o, |in'.tile|);
        var slot := Take(s.ring, offset);
        var placed := fenced.(ring := Next(s.ring, offset));
        if slot.reset then SendFull(o, codec, placed.(lastBox := None), in')
        else (SendTile(o, codec, placed, fence, b, slot, in'.tile, picture), SentTile)
  }

  function CurrentBox(o: Options, in': Input): Option<Box> { ClampedDirtyBbox(in'.dirty, o.width, o.height) }

  /** The dirty box of this frame, with that of the last tile. */
  function DirtyBox(o: Options, current: Box, lastBox: Option<Box>): Box {
    if lastBox.Some? then UnionBbox(current, lastBox.value, o.width, o.height) else current
  }

  predicate Refresh(o: Options, s: State) {
    s.sentFrames == 0 || (o.refreshFrames > 0 && s.sentFrames % o.refreshFrames == 0)
  }

  predicate Sized(o: Options) { IsFrame(o.width, o.height) }

  predicate BoxOk(o: Options, b: Option<Box>) { b.Some? ==> b.value.Nonempty() && b.value.Within(o.width, o.height) }

  lemma DirtyBoxOk(o: Options, current: Box, lastBox: Option<Box>)
    requires Sized(o) && BoxOk(o, Some(current)) && BoxOk(o, lastBox)
    ensures BoxOk(o, Some(DirtyBox(o, current, lastBox)))
    ensures Covers(DirtyBox(o, current, lastBox), current)
    ensures (lastBox.Some? ==> Covers(DirtyBox(o, current, lastBox), lastBox.value))
  {
    if lastBox.Some? { UnionBboxLeast(current, lastBox.value, o.width, o.height, current); }
    hide UnionBbox;
  }

  /** The rectangle that goes out for the dirty box of this frame and that of the last tile. */
  function UpdateRect(o: Options, lastBox: Option<Box>, in': Input): Option<Box>
    requires Sized(o) && BoxOk(o, lastBox)
  {
    var current := CurrentBox(o, in');
    if current.None? then None
    else
      ClampedDirtyBboxInside(in'.dirty, o.width, o.height);
      DirtyBoxOk(o, current.value, lastBox);
      var b := RotateBbox(DirtyBox(o, current.value, lastBox), o.width, o.height, o.rotate);
      Type7UpdateRect(b, o.OutWidth(), o.OutHeight(), o.rectMode)
  }

  /** send_jpeg_type7_frame, before the frame counter. */
  function Dispatch(o: Options, codec: Codec, s: State, in': Input): (State, Outcome)
    requires s.slot < 3 && in'.frame.Valid() && Sized(o) && BoxOk(o, s.lastBox)
  {
    var current := CurrentBox(o, in');
    if s.fb.None? || current.None? || in'.fullish || Refresh(o, s) then SendFull(o, codec, s.(lastBox := None), in')
    else
      var t := UpdateRect(o, s.lastBox, in');
      var noted := s.(lastBox := current);
      if t.None? then (noted, Dropped)
      else if in'.tileRefused then SendFull(o, codec, s.(lastBox := None), in')
      else SendPartial(o, codec, noted, in', t.value)
  }

  /** send_frame counts what went out. */
  function SendFrame(o: Options, codec: Codec, s: State, in': Input): (State, Outcome)
    requires s.slot < 3 && in'.frame.Valid() && Sized(o) && BoxOk(o, s.lastBox)
  {
    var (t, outcome) := Dispatch(o, codec, s, in');
    (if outcome.Dropped? then t else t.(sentFrames := t.sentFrames + 1), outcome)
  }

  // ---- when it works ----

  function SurfaceAt(o: Options, base: u32): Surface { SurfaceOf(base, o.OutWidth(), o.OutHeight()) }

  /** The three canvases have sizes and addresses that the fields of the packets can carry. */
  predicate Laid(o: Options) {
    Sized(o) && forall i :: 0 <= i < 3 ==> Drawable(ALLOCATED_BASES[i], o.OutWidth(), o.OutHeight())
  }

  predicate Ready(o: Options, s: State) {
    Laid(o) && s.slot < 3 && BoxOk(o, s.lastBox) && (s.fb.Some? ==> s.base in ALLOCATED_BASES)
  }

  /** A frame of the right size, with images whose lengths fit 32 bits. */
  predicate Serviceable(o: Options, in': Input) {
    && in'.frame.Valid() && in'.frame.width == o.width && in'.frame.height == o.height
    && StartsAsJpeg(in'.full) && Packable(in'.full) && Packable(in'.tile) && Packable(in'.pair)
  }

  // ---- what the device shows ----

  /** The current canvas holds these samples. */
  ghost predicate Screen(o: Options, s: State, shown: Samples) { SurfaceAt(o, s.base).Holds(s.mem, shown) }

  function SourceSamples(o: Options, codec: Codec, picture: Picture): Samples { SamplesOf(codec, o.Turned(picture)) }

  /** The current canvas shows a source picture, turned. */
  ghost predicate OnScreen(o: Options, codec: Codec, s: State, picture: Picture) {
    Screen(o, s, SourceSamples(o, codec, picture))
  }

  lemma SurfaceIs(o: Options, base: u32)
    requires Laid(o) && base in ALLOCATED_BASES
    ensures var k := SurfaceAt(o, base);
            k.Good() && k.width == o.OutWidth() && k.height == o.OutHeight()
            && Drawable(base, o.OutWidth(), o.OutHeight())
  {
    var i :| 0 <= i < 3 && ALLOCATED_BASES[i] == base;
    SurfaceGood(base, o.OutWidth(), o.OutHeight());
    hide Drawable, Surface.Good;
  }

  /** A setup frame leaves its canvas showing its picture, wherever its packet lies. */
  lemma SetupShows(o: Options, codec: Codec, s: State, fence: u32, jpeg: seq<byte>, picture: Picture)
    requires Ready(o, s) && Packable(jpeg) && StartsAsJpeg(jpeg)
    ensures var t := SendSetup(o, codec, s, fence, jpeg, picture);
            Ready(o, t) && t.fb.Some? && Screen(o, t, SamplesOf(codec, picture)) && t.base == SlotBase(s.slot)
            && t.base in ALLOCATED_BASES
  {
    var base := SlotBase(s.slot);
    assert base in ALLOCATED_BASES;
    SurfaceIs(o, base);
    var k := SurfaceAt(o, base);
    var addr := Take(s.ring, Type7Mode6CmdOffset(|jpeg|)).addr;
    ReceiveSetup(codec, s.mem, base, o.OutWidth(), o.OutHeight(), addr, fence, jpeg, picture);
    var p := SetupPacket(base, o.OutWidth(), o.OutHeight(), addr, fence, jpeg, picture);
    assert Agree(picture, picture, k.width, k.height);
    FullDraw(codec, Write(s.mem, addr, p.payload), k, picture, picture);
    hide Laid, SetupPacket, Receive, Drawn, Write, Take, Next, Surface.Holds, Surface.Good, Packable, StartsAsJpeg,
         Agree;
  }

  // ---- tiles ----

  /** A tile packet on its way: the canvas it is for, its rectangle there, and where it is stored before the
      device draws it. */
  datatype Job = Job(base: u32, box: Box, packet: Packet)

  function JobFor(o: Options, base: u32, b: Box, slot: Slot, fence: u32, jpeg: seq<byte>, picture: Picture): Job {
    Job(base, b, TilePacket(base, o.OutWidth(), o.OutHeight(), b, slot.addr, fence, jpeg, Cropped(picture, b)))
  }

  /** The samples of a canvas after a tile: those of the stored packet where it lies over the canvas, and then
      those of the picture in the rectangle. */
  function AfterJob(o: Options, codec: Codec, job: Job, shown: Samples, picture: Picture): Samples {
    Painted(StoredBy(o, job, shown), job.box, SamplesOf(codec, picture))
  }

  function StoredBy(o: Options, job: Job, shown: Samples): Samples {
    Stored(SurfaceAt(o, job.base), shown, job.packet.address, job.packet.payload)
  }

  /** A tile, wherever its packet lies: exactly which samples the canvas holds afterwards; so it shows the
      picture if and only if every sample outside the rectangle, read once the packet is stored, is that of
      the picture. */
  lemma TileShows(
    o: Options, codec: Codec, s: State, fence: u32, b: Box, slot: Slot, jpeg: seq<byte>, picture: Picture,
    shown: Samples)
    requires Laid(o) && s.base in ALLOCATED_BASES && Packable(jpeg) && Screen(o, s, shown)
    requires b.Within(o.OutWidth(), o.OutHeight()) && b.Nonempty() && EvenEdges(b)
    ensures var t := SendTile(o, codec, s, fence, b, slot, jpeg, picture);
            var job := JobFor(o, s.base, b, slot, fence, jpeg, picture);
            t == s.(mem := t.mem) && Screen(o, t, AfterJob(o, codec, job, shown, picture))
            && (Screen(o, t, SamplesOf(codec, picture))
                <==> SameOutside(SurfaceAt(o, s.base), b, StoredBy(o, job, shown), SamplesOf(codec, picture)))
  {
    SurfaceIs(o, s.base);
    var k := SurfaceAt(o, s.base);
    var tile := Cropped(picture, b);
    var p := TilePacket(s.base, o.OutWidth(), o.OutHeight(), b, slot.addr, fence, jpeg, tile);
    hide Laid, TilePacket, Surface.Holds, Surface.Good, Packable, SameOutside, Cropped, Type7Mode6CmdOffset, SamplesOf;
    ReceiveTile(codec, s.mem, s.base, o.OutWidth(), o.OutHeight(), b, slot.addr, fence, jpeg, tile);
    var (plane0, plane1) := PlaneAddrs(s.base, b.x, b.y, o.OutWidth(), o.OutHeight(), k.stride);
    var d := Drawing(plane0, plane1, k.stride, b.width, b.height, tile);
    StoredHolds(k, s.mem, shown, slot.addr, p.payload);
    AgreeSelf(tile, b);
    TileDraw(codec, Write(s.mem, slot.addr, p.payload), k, b, d, Stored(k, shown, slot.addr, p.payload), picture);
    hide Receive, Drawn, Write, Agree, Stored;
  }

  lemma AgreeSelf(tile: Picture, b: Box)
    ensures Agree(tile, tile, b.width, b.height)
  {
  }

  lemma PairBoxOk(o: Options)
    requires 0 < o.OutWidth() && 0 < o.OutHeight() && o.OutWidth() % 2 == 0 && o.OutHeight() % 2 == 0
    ensures var b := PairBox(o); b.Within(o.OutWidth(), o.OutHeight()) && b.Nonempty() && EvenEdges(b)
  {
  }

  // ---- what one frame does to the screen ----

  predicate FullLate(o: Options, in': Input) { o.dropLateFrames && !in'.fullClock.InTime? }

  predicate TileLate(o: Options, in': Input) { o.dropLateFrames && !in'.tileClock.InTime? }

  /** A dropped frame is as if it had never come, but for a fence it may have taken. */
  ghost predicate Untouched(s: State, t: State) { t == s.(nextFence := t.nextFence) }

  /** The tile that goes with a setup frame in the paired mode, for a full frame that begins in `s`. */
  function PairJob(o: Options, s: State, in': Input): Job
    requires s.slot < 3 && in'.frame.Valid()
  {
    var ring := Next(s.ring, Type7Mode6CmdOffset(|in'.full|));
    JobFor(o, SlotBase(s.slot), PairBox(o), Take(ring, Type7Mode6CmdOffset(|in'.pair|)), NextFence(s.nextFence),
           in'.pair,
           o.Turned(in'.frame.Shown()))
  }

  function FullJob(o: Options, s: State, in': Input): Option<Job>
    requires s.slot < 3 && in'.frame.Valid()
  {
    if o.setupMode.PairedType4Type7? then Some(PairJob(o, s, in')) else None
  }

  function AfterSome(o: Options, codec: Codec, job: Option<Job>, shown: Samples, picture: Picture): Samples {
    if job.Some? then AfterJob(o, codec, job.value, shown, picture) else shown
  }

  /** A full send: the setup frame covers its canvas, and then there is the paired tile. A frame found late
      before it is encoded changes nothing, one found late after takes a fence and changes nothing else. */
  lemma FullShows(o: Options, codec: Codec, s: State, in': Input)
    requires Ready(o, s) && Serviceable(o, in')
    ensures var (t, outcome) := SendFull(o, codec, s, in');
            var picture := o.Turned(in'.frame.Shown());
            Ready(o, t) && t.lastBox == s.lastBox && t.sentFrames == s.sentFrames
            && outcome == (if FullLate(o, in') then Dropped else SentFull)
            && (outcome.Dropped? ==>
                  Untouched(s, t)
                  && t.nextFence == (if in'.fullClock.Late? then s.nextFence else NextFence(s.nextFence)))
            && (outcome.SentFull? ==>
                  t.fb.Some? && t.base == SlotBase(s.slot)
                  && Screen(o, t, AfterSome(o, codec, FullJob(o, s, in'), SamplesOf(codec, picture), picture)))
  {
    var picture := o.Turned(in'.frame.Shown());
    if !FullLate(o, in') {
      var fenced := s.(nextFence := NextFence(s.nextFence));
      SetupShows(o, codec, fenced, s.nextFence, in'.full, picture);
      var setup := SendSetup(o, codec, fenced, s.nextFence, in'.full, picture);
      assert setup.lastBox == s.lastBox && setup.sentFrames == s.sentFrames && setup.nextFence == fenced.nextFence;
      assert setup.ring == Next(s.ring, Type7Mode6CmdOffset(|in'.full|));
      if o.setupMode.PairedType4Type7? {
        var offset := Type7Mode6CmdOffset(|in'.pair|);
        hide SendSetup, Serviceable, Options.Turned, NextFence, Type7Mode6CmdOffset, Take, Next;
        assert Packable(in'.pair) by { PairPacks(o, in'); }
        SurfaceIs(o, setup.base);
        PairBoxOk(o);
        var paired := setup.(nextFence := NextFence(setup.nextFence), ring := Next(setup.ring, offset));
        TileShows(o, codec, paired, setup.nextFence, PairBox(o), Take(setup.ring, offset), in'.pair, picture,
                  SamplesOf(codec, picture));
        hide Laid, SameOutside, Surface.Holds, PairBox, SendTile, Packable, Cropped, AfterJob, SamplesOf, TilePacket;
      }
    }
  }

  lemma PairPacks(o: Options, in': Input)
    requires Serviceable(o, in')
    ensures Packable(in'.pair) && Packable(in'.tile) && Packable(in'.full)
  {
    hide Packable;
  }

  /** The cases in which a full frame goes out in place of a tile: nothing is on the screen, nothing is
      dirty or nearly everything, a refresh is due, the tile is out of its limits, or it starts the ring over. */
  predicate FullInstead(o: Options, s: State, in': Input) {
    || s.fb.None? || CurrentBox(o, in').None? || in'.fullish || Refresh(o, s) || in'.tileRefused
    || (!TileLate(o, in') && !o.setupOnly && Take(s.ring, TileOffset(o, |in'.tile|)).reset)
  }

  function Fate(o: Options, s: State, in': Input): Outcome {
    if FullInstead(o, s, in') then (if FullLate(o, in') then Dropped else SentFull)
    else if TileLate(o, in') then Dropped
    else if o.setupOnly then SentFull
    else SentTile
  }

  /** The dirty box that is remembered after a frame. */
  function Remembered(o: Options, s: State, in': Input): Option<Box> {
    if FullInstead(o, s, in') then None else CurrentBox(o, in')
  }

  /** The state in which a full frame begins that goes out in place of a tile: a tile that starts the ring
      over has taken its fence and its place already. */
  function Entered(o: Options, s: State, in': Input): State {
    if s.fb.None? || CurrentBox(o, in').None? || in'.fullish || Refresh(o, s) || in'.tileRefused
    then s.(lastBox := None)
    else s.(nextFence := NextFence(s.nextFence), ring := Next(s.ring, TileOffset(o, |in'.tile|)), lastBox := None)
  }

  function TileJob(o: Options, s: State, tile: Box, in': Input): Job
    requires in'.frame.Valid()
  {
    JobFor(o, s.base, tile, Take(s.ring, TileOffset(o, |in'.tile|)), s.nextFence, in'.tile, o.Turned(in'.frame.Shown()))
  }

  /** The tile packet that a frame sends to the canvas which is current afterwards, if it sends one. */
  function JobOf(o: Options, s: State, in': Input): Option<Job>
    requires Sized(o) && BoxOk(o, s.lastBox) && in'.frame.Valid() && s.slot < 3
  {
    match Fate(o, s, in')
    case Dropped => None
    case SentFull => if FullInstead(o, s, in') then FullJob(o, Entered(o, s, in'), in') else None
    case SentTile =>
      var tile := UpdateRect(o, s.lastBox, in');
      if tile.Some? then Some(TileJob(o, s, tile.value, in')) else None
  }

  /** The samples on the screen after a frame, if `shown` were on it before. */
  function NextSamples(o: Options, codec: Codec, s: State, in': Input, shown: Samples): Samples
    requires Sized(o) && BoxOk(o, s.lastBox) && in'.frame.Valid() && s.slot < 3
  {
    var picture := o.Turned(in'.frame.Shown());
    match Fate(o, s, in')
    case Dropped => shown
    case SentFull => AfterSome(o, codec, JobOf(o, s, in'), SamplesOf(codec, picture), picture)
    case SentTile => AfterSome(o, codec, JobOf(o, s, in'), shown, picture)
  }

  /** The rectangle that is sent covers the turned dirty box, whatever the rectangle mode. */
  lemma TileCovers(o: Options, box: Box)
    requires Sized(o) && box.Nonempty() && box.Within(o.width, o.height)
    requires o.OutWidth() < 0x1_0000 && o.OutHeight() < 0x1_0000 && o.OutWidth() % 2 == 0 && o.OutHeight() % 2 == 0
    ensures var r := RotateBbox(box, o.width, o.height, o.rotate);
            var t := Type7UpdateRect(r, o.OutWidth(), o.OutHeight(), o.rectMode);
            t.Some? && Covers(t.value, r) && t.value.Within(o.OutWidth(), o.OutHeight()) && t.value.Nonempty()
            && EvenEdges(t.value)
  {
    RotateBboxInside(box, o.width, o.height, o.rotate);
    var r := RotateBbox(box, o.width, o.height, o.rotate);
    assert r.Within(o.OutWidth(), o.OutHeight());
    Type7UpdateRectSound(r, o.OutWidth(), o.OutHeight(), o.rectMode);
    hide RotateBbox, Type7UpdateRect, EvenEdges, RotatedSize;
  }

  /** There is a rectangle whenever there is a dirty box, and it covers the turned boxes of this frame and
      of the last tile. */
  lemma RectCovers(o: Options, lastBox: Option<Box>, in': Input)
    requires Laid(o) && BoxOk(o, lastBox) && CurrentBox(o, in').Some?
    ensures var tile := UpdateRect(o, lastBox, in');
            tile.Some? && tile.value.Within(o.OutWidth(), o.OutHeight()) && tile.value.Nonempty()
            && EvenEdges(tile.value)
    ensures var box := DirtyBox(o, CurrentBox(o, in').value, lastBox);
            BoxOk(o, Some(box)) && Covers(box, CurrentBox(o, in').value)
            && (lastBox.Some? ==> Covers(box, lastBox.value))
            && Covers(UpdateRect(o, lastBox, in').value, RotateBbox(box, o.width, o.height, o.rotate))
  {
    ClampedDirtyBboxInside(in'.dirty, o.width, o.height);
    var current := CurrentBox(o, in').value;
    DirtyBoxOk(o, current, lastBox);
    assert Drawable(ALLOCATED_BASES[0], o.OutWidth(), o.OutHeight());
    hide DirtyBox, RotateBbox, Type7UpdateRect, Laid, EvenEdges, Covers, ClampedDirtyBbox;
    TileCovers(o, DirtyBox(o, current, lastBox));
  }

  /** The path of a tile, once there is a rectangle. */
  lemma PartialSteps(o: Options, codec: Codec, s: State, in': Input, b: Box, shown: Samples)
    requires Ready(o, s) && s.fb.Some? && Serviceable(o, in') && Screen(o, s, shown)
    requires b.Within(o.OutWidth(), o.OutHeight()) && b.Nonempty() && EvenEdges(b)
    ensures var (t, outcome) := SendPartial(o, codec, s, in', b);
            var picture := o.Turned(in'.frame.Shown());
            var wraps := !TileLate(o, in') && !o.setupOnly && Take(s.ring, TileOffset(o, |in'.tile|)).reset;
            var entered := s.(nextFence := NextFence(s.nextFence), ring := Next(s.ring, TileOffset(o, |in'.tile|)),
                              lastBox := None);
            Ready(o, t) && t.sentFrames == s.sentFrames && t.fb.Some?
            && t.lastBox == (if wraps then None else s.lastBox)
            && outcome == (if wraps then (if FullLate(o, in') then Dropped else SentFull)
                           else if TileLate(o, in') then Dropped else if o.setupOnly then SentFull else SentTile)
            && (outcome.Dropped? ==> t.slot == s.slot && t.base == s.base && t.mem == s.mem)
            && Screen(o, t, match outcome
                            case Dropped => shown
                            case SentFull =>
                              AfterSome(o, codec, if wraps then FullJob(o, entered, in') else None,
                                        SamplesOf(codec, picture), picture)
                            case SentTile => AfterJob(o, codec, TileJob(o, s, b, in'), shown, picture))
  {
    if TileLate(o, in') {
    } else if o.setupOnly {
      SetupOnlyShows(o, codec, s, in', b);
    } else {
      hide SendFull, Laid, Options.Turned, Next, Take, TileOffset, SendTile, EvenEdges, SamplesOf, AfterJob, FullJob,
           TilePacket,
           Surface.Holds, Cropped;
      var offset := TileOffset(o, |in'.tile|);
      var slot := Take(s.ring, offset);
      var placed := s.(nextFence := NextFence(s.nextFence)).(ring := Next(s.ring, offset));
      assert placed.(lastBox := None)
          == s.(nextFence := NextFence(s.nextFence), ring := Next(s.ring, offset), lastBox := None);
      assert Screen(o, placed.(lastBox := None), shown) && Screen(o, placed, shown);
      PairPacks(o, in');
      if slot.reset {
        FullShows(o, codec, placed.(lastBox := None), in');
      } else {
        TileShows(o, codec, placed, s.nextFence, b, slot, in'.tile, o.Turned(in'.frame.Shown()), shown);
      }
    }
  }

  lemma SetupOnlyShows(o: Options, codec: Codec, s: State, in': Input, b: Box)
    requires Ready(o, s) && Serviceable(o, in') && o.setupOnly && !TileLate(o, in')
    ensures var (t, outcome) := SendPartial(o, codec, s, in', b);
            Ready(o, t) && t.sentFrames == s.sentFrames && t.lastBox == s.lastBox
            && outcome.SentFull? && t.fb.Some? && OnScreen(o, codec, t, in'.frame.Shown())
  {
    var picture := o.Turned(in'.frame.Shown());
    var fenced := s.(nextFence := NextFence(NextFence(s.nextFence)));
    SetupShows(o, codec, fenced, s.nextFence, in'.full, picture);
    var setup := SendSetup(o, codec, fenced, s.nextFence, in'.full, picture);
    assert setup.sentFrames == s.sentFrames && setup.lastBox == s.lastBox;
    hide SendSetup, Laid, Options.Turned, Next, Take, Serviceable, Surface.Holds, NextFence, Type7Mode6CmdOffset,
         SamplesOf;
  }

  /** How a state goes on after a frame, apart from the samples. */
  ghost predicate Advances(o: Options, s: State, in': Input, t: State) {
    && Ready(o, t)
    && t.lastBox == Remembered(o, s, in')
    && t.sentFrames == s.sentFrames + (if Fate(o, s, in').Dropped? then 0 else 1)
    && t.fb.Some? == (s.fb.Some? || !Fate(o, s, in').Dropped?)
    && (Fate(o, s, in').Dropped? ==> t.slot == s.slot && t.base == s.base && t.mem == s.mem)
  }

  /** A full frame in place of a tile. */
  lemma FullFrame(o: Options, codec: Codec, s: State, in': Input, shown: Samples)
    requires Ready(o, s) && Serviceable(o, in') && (s.fb.Some? ==> Screen(o, s, shown))
    requires s.fb.None? || CurrentBox(o, in').None? || in'.fullish || Refresh(o, s) || in'.tileRefused
    requires Dispatch(o, codec, s, in') == SendFull(o, codec, s.(lastBox := None), in')
    ensures var (t, outcome) := SendFrame(o, codec, s, in');
            outcome == Fate(o, s, in') && Advances(o, s, in', t)
            && (t.fb.Some? ==> Screen(o, t, NextSamples(o, codec, s, in', shown)))
  {
    hide SendFull, Laid, CurrentBox, UpdateRect, Dispatch, SurfaceAt, Options.Turned, Surface.Holds, SamplesOf,
         AfterJob,
         FullJob, Refresh, TileOffset, Take, Next;
    FullShows(o, codec, s.(lastBox := None), in');
    hide Serviceable;
  }

  /** A frame for which there is a tile. */
  lemma TileFrame(o: Options, codec: Codec, s: State, in': Input, tile: Box, shown: Samples)
    requires Ready(o, s) && Serviceable(o, in') && Screen(o, s, shown)
    requires s.fb.Some? && CurrentBox(o, in').Some? && !in'.fullish && !Refresh(o, s) && !in'.tileRefused
    requires UpdateRect(o, s.lastBox, in') == Some(tile)
    requires tile.Within(o.OutWidth(), o.OutHeight()) && tile.Nonempty() && EvenEdges(tile)
    ensures var (t, outcome) := SendFrame(o, codec, s, in');
            outcome == Fate(o, s, in') && Advances(o, s, in', t)
            && (t.fb.Some? ==> Screen(o, t, NextSamples(o, codec, s, in', shown)))
  {
    var noted := s.(lastBox := CurrentBox(o, in'));
    ClampedDirtyBboxInside(in'.dirty, o.width, o.height);
    assert Screen(o, noted, shown) && Ready(o, noted);
    assert Dispatch(o, codec, s, in') == SendPartial(o, codec, noted, in', tile);
    assert TileJob(o, noted, tile, in') == TileJob(o, s, tile, in');
    hide SendPartial, Laid, Serviceable, CurrentBox, UpdateRect, Dispatch, SurfaceAt, Options.Turned, Surface.Holds,
         SamplesOf, AfterJob, FullJob, TileJob, Refresh, TileOffset, Take, Next, EvenEdges;
    PartialSteps(o, codec, noted, in', tile, shown);
  }

  /** One captured frame, in every state, late or not, with the ring anywhere: what the sender does with it, what it
      remembers, and exactly which samples are on the screen afterwards. */
  lemma FrameShows(o: Options, codec: Codec, s: State, in': Input, shown: Samples)
    requires Ready(o, s) && Serviceable(o, in') && (s.fb.Some? ==> Screen(o, s, shown))
    ensures var (t, outcome) := SendFrame(o, codec, s, in');
            outcome == Fate(o, s, in') && Advances(o, s, in', t)
            && (t.fb.Some? ==> Screen(o, t, NextSamples(o, codec, s, in', shown)))
  {
    var current := CurrentBox(o, in');
    assert Sized(o);
    hide SendFull, Laid, Serviceable, Screen, CurrentBox, Refresh, SendPartial, TileOffset, Take, Next, UpdateRect,
         EvenEdges,
         NextSamples, Advances, Fate;
    if s.fb.None? || current.None? || in'.fullish || Refresh(o, s) {
      FullFrame(o, codec, s, in', shown);
    } else {
      RectCovers(o, s.lastBox, in');
      var tile := UpdateRect(o, s.lastBox, in').value;
      if in'.tileRefused {
        FullFrame(o, codec, s, in', shown);
      } else {
        TileFrame(o, codec, s, in', tile, shown);
      }
    }
  }
}
