/** The command ring the display program uses if it is not told another: for which displays the screen is
    always right, and what the others see. */
module DefaultRing {
  import opened Arithmetic
  import opened Wrappers
  import opened Bytes
  import opened Canvas
  import opened Geometry
  import opened Pictures
  import opened Scheduler
  import opened Tiles
  import opened VideoHeaders
  import opened PartialUpdates
  import opened PartialRuns
  import opened Refinement
  import opened RingLayout

  /** The defaults of --type7-cmd-addr and --type7-cmd-wrap-addr, in a new scheduler. */
  const DEFAULT_RING := Ring(0x0320_0000, 0x0320_0000, 0x0390_0000, 10)

  /** build_sender_state. */
  function NewSender(mem: Memory): State {
    State(0, None, 0, ALLOCATED_BASES[0], None, 1, DEFAULT_RING, mem)
  }

  // ---- places on a canvas ----

  datatype Spot = LumaAt(x: nat, y: nat) | ChromaAt(i: nat, j: nat, c: nat)
  {
    predicate On(k: Surface) {
      match this
      case LumaAt(x, y) => x < k.width && y < k.height
      case ChromaAt(i, j, c) => i < k.width / 2 && j < k.height / 2 && c < 2
    }

    predicate In(b: Box) {
      match this
      case LumaAt(x, y) => b.Has(Point(x, y))
      case ChromaAt(i, j, _) => b.Has(Point(2 * i, 2 * j))
    }

    function Address(k: Surface): int {
      match this
      case LumaAt(x, y) => k.Luma(x, y)
      case ChromaAt(i, j, c) => k.Chroma(i, j, c)
    }

    function Of(s: Samples): byte {
      match this
      case LumaAt(x, y) => s.luma(x, y)
      case ChromaAt(i, j, c) => s.chroma(i, j, c)
    }
  }

  /** The last sample of a canvas. */
  function Last(k: Surface): Spot
    requires k.width >= 2 && k.height >= 2
  {
    ChromaAt(k.width / 2 - 1, k.height / 2 - 1, 1)
  }

  lemma LastIsLast(k: Surface, spot: Spot)
    requires k.Good() && k.width >= 2 && k.height >= 2 && spot.On(k)
    ensures Last(k).On(k) && spot.Address(k) <= Last(k).Address(k)
  {
    match spot
    case LumaAt(x, y) =>
      k.LumaInside(x, y);
      k.ChromaInside(k.width / 2 - 1, k.height / 2 - 1, 1);
    case ChromaAt(i, j, c) =>
      MulLe(k.stride, j, k.height / 2 - 1);
      if j < k.height / 2 - 1 { Steps(k.stride, j, k.height / 2 - 1); }
  }

  // ---- displays that the ring does not reach ----

  /** The canvas that is used first, and lies highest. */
  function Highest(o: Options): Surface { SurfaceAt(o, ALLOCATED_BASES[2]) }

  /** The highest canvas has a sample in the ring, or beyond. */
  predicate Reaches(o: Options)
    requires o.OutWidth() >= 2 && o.OutHeight() >= 2
  {
    Last(Highest(o)).Address(Highest(o)) >= DEFAULT_RING.initial
  }

  lemma BigEnough(o: Options)
    requires Laid(o)
    ensures o.OutWidth() >= 2 && o.OutHeight() >= 2 && o.OutWidth() % 2 == 0 && o.OutHeight() % 2 == 0
    ensures o.OutWidth() <= 65520 && o.OutHeight() < 0x1_0000
  {
    assert Drawable(ALLOCATED_BASES[0], o.OutWidth(), o.OutHeight());
  }

  lemma Higher(o: Options, i: nat)
    requires Laid(o) && i < 3 && o.OutWidth() >= 2 && o.OutHeight() >= 2
    ensures var k := SurfaceAt(o, ALLOCATED_BASES[i]);
            k.width >= 2 && k.height >= 2 && Last(k).Address(k) <= Last(Highest(o)).Address(Highest(o))
  {
    hide Span, Align, RotatedSize;
  }

  lemma ShortIsClear(o: Options)
    requires Laid(o) && o.OutWidth() >= 2 && o.OutHeight() >= 2 && !Reaches(o)
    ensures Clear(o, DEFAULT_RING)
  {
    forall i | 0 <= i < 3
      ensures Spared(SurfaceAt(o, ALLOCATED_BASES[i]), NOWHERE, DEFAULT_RING.initial,
                     DEFAULT_RING.wrap - DEFAULT_RING.initial)
    {
      var k := SurfaceAt(o, ALLOCATED_BASES[i]);
      SurfaceIs(o, ALLOCATED_BASES[i]);
      Higher(o, i);
      hide Surface.Luma, Surface.Chroma, SurfaceAt, Laid, Surface.Good;
      forall x: nat, y: nat | x < k.width && y < k.height ensures k.Luma(x, y) < DEFAULT_RING.initial {
        LastIsLast(k, LumaAt(x, y));
      }
      forall i: nat, j: nat, c: nat | i < k.width / 2 && j < k.height / 2
             && c < 2 ensures k.Chroma(i, j, c) < DEFAULT_RING.initial {
        LastIsLast(k, ChromaAt(i, j, c));
      }
    }
  }

  // ---- displays that it reaches ----

  const RING_LOW := 0x0320_0000
  const RING_HIGH := 0x038F_FFE0

  /** There is then a sample between the ends of the ring, outside the rectangle that is sent with setup frames. */
  lemma SpotInRing(k: Surface, b: Box) returns (spot: Spot)
    requires k.Good() && 2 <= k.width && 2 <= k.height && k.base0 == 0x02DA_A9B0 && k.stride <= 65520
    requires k.base1 <= k.base0 + k.stride * (k.height + 15) && (k.width <= 64 ==> k.stride <= 64)
    requires b == Box(0, 0, Min(k.width, 64), Min(k.height, 64)) && Last(k).Address(k) >= RING_LOW
    ensures spot.On(k) && !spot.In(b) && RING_LOW <= spot.Address(k) < RING_HIGH
  {
    var corner := LumaAt(k.width - 1, k.height - 1);
    if corner.Address(k) >= RING_HIGH {
      spot := InLuma(k, b);
    } else if corner.Address(k) >= RING_LOW {
      spot := corner;
      k.LumaInside(k.width - 1, k.height - 1);
      if spot.In(b) { SmallEnds(k); assert false; }
    } else {
      spot := Last(k);
      ChromaShort(k);
      if spot.In(b) { SmallEnds(k); assert false; }
    }
  }

  /** A small canvas ends far below. */
  lemma SmallEnds(k: Surface)
    requires k.Good() && 2 <= k.width <= 64 && 2 <= k.height <= 64 && k.base0 == 0x02DA_A9B0 && k.stride <= 64
    requires k.base1 <= k.base0 + k.stride * (k.height + 15)
    ensures k.base1 <= Last(k).Address(k) < RING_LOW
  {
    k.ChromaInside(k.width / 2 - 1, k.height / 2 - 1, 1);
    MulLe(k.height + 15, k.stride, 64);
    MulLe(k.height / 2, k.stride, 64);
  }

  lemma InLuma(k: Surface, b: Box) returns (spot: Spot)
    requires k.Good() && 2 <= k.width && 2 <= k.height && k.base0 == 0x02DA_A9B0 && k.stride <= 65520
    requires b.x == b.y == 0 && b.height <= 64 && k.Luma(k.width - 1, k.height - 1) >= RING_HIGH
    ensures spot.On(k) && !spot.In(b) && RING_LOW <= spot.Address(k) < RING_HIGH
  {
    var y := (RING_HIGH - 1 - k.base0) / k.stride;
    Divided(RING_HIGH - 1 - k.base0, k.stride);
    spot := LumaAt(0, y);
    if y >= k.height { Steps(k.stride, k.height - 1, y); assert false; }
    MulLe(64, k.stride, 65520);
    if y < 64 { MulLe(k.stride, y, 64); assert false; }
  }

  /** The chroma plane is half as long as the luma plane: where that ends below the ring, this ends in it. */
  lemma ChromaShort(k: Surface)
    requires k.Good() && 2 <= k.width && 2 <= k.height && k.base0 == 0x02DA_A9B0 && k.stride <= 65520
    requires k.base1 <= k.base0 + k.stride * (k.height + 15) && k.Luma(k.width - 1, k.height - 1) < RING_LOW
    ensures Last(k).Address(k) < RING_HIGH
  {
    assert k.stride * (k.height + 15) == k.stride * (k.height - 1) + k.stride * 16;
    assert k.base1 < RING_LOW + 65520 * 16;
    MulLe(k.stride, k.height / 2 - 1, k.height - 1);
  }

  /** The canvas on which that is used. */
  lemma HighestIs(o: Options)
    requires Laid(o)
    ensures var k := Highest(o);
            k.Good() && 2 <= k.width && 2 <= k.height && k.width == o.OutWidth() && k.height == o.OutHeight()
            && k.base0 == 0x02DA_A9B0 && k.stride <= 65520
            && k.base1 <= k.base0 + k.stride * (k.height + 15) && (k.width <= 64 ==> k.stride <= 64)
  {
    BigEnough(o);
    SurfaceIs(o, ALLOCATED_BASES[2]);
    var w, h := o.OutWidth(), o.OutHeight();
    SurfaceGood(ALLOCATED_BASES[2], w, h);
    assert ALLOCATED_BASES[2] == 0x02DA_A980;
    Regroup(DivCeil(w, 16), DivCeil(h, 16));
    assert Span(w, h) == Align(w, 16) * (DivCeil(h, 16) * 16);
    assert DivCeil(h, 16) * 16 <= h + 15;
    MulLe(Align(w, 16), DivCeil(h, 16) * 16, h + 15);
    hide Laid, Span, Surface.Good;
  }

  // ---- a frame of one colour ----

  function ByteOf(px: Pixel, i: nat): byte {
    match i % 4
    case 0 => px.b
    case 1 => px.g
    case 2 => px.r
    case _ => px.a
  }

  function Coloured(size: nat, px: Pixel): (s: seq<byte>)
    ensures |s| == size
  {
    seq(size, i requires 0 <= i < size => ByteOf(px, i))
  }

  lemma ColouredAt(size: nat, px: Pixel, at: nat)
    requires at % 4 == 0 && at + 4 <= size
    ensures PixelOf(Coloured(size, px), at) == px
  {
    assert (at + 1) % 4 == 1 && (at + 2) % 4 == 2 && (at + 3) % 4 == 3;
  }

  function Flat(width: nat, height: nat, px: Pixel): (f: Frame)
    ensures f.Valid() && f.width == width && f.height == height
  {
    Frame(Coloured(4 * width * height, px), width, height, 4 * width)
  }

  lemma FlatShows(width: nat, height: nat, px: Pixel, p: Point)
    requires InFrame(p, width, height)
    ensures Flat(width, height, px).Shown()(p) == px
  {
    hide Coloured, PixelOf, ByteOf;
    var f := Flat(width, height, px);
    f.OffsetInside(p);
    var at := Offset(4 * width, p);
    FourTimes(width, p.y);
    ColouredAt(|f.bytes|, px, at);
  }

  lemma FourTimes(width: nat, y: nat)
    ensures y * (4 * width) % 4 == 0
  {
    assert y * (4 * width) == 4 * (y * width);
  }

  /** The sample that a picture of one colour has at a place. */
  function FlatSample(codec: Codec, spot: Spot, px: Pixel): byte {
    match spot
    case LumaAt(_, _) => codec.luma(px)
    case ChromaAt(_, _, c) => codec.chroma(c, px, px, px, px)
  }

  lemma FlatSamples(o: Options, codec: Codec, k: Surface, spot: Spot, px: Pixel)
    requires spot.On(k) && k.width == o.OutWidth() && k.height == o.OutHeight()
    ensures spot.Of(SourceSamples(o, codec, Flat(o.width, o.height, px).Shown())) == FlatSample(codec, spot, px)
  {
    var picture := Flat(o.width, o.height, px).Shown();
    forall p: Point | InFrame(p, k.width, k.height) ensures o.Turned(picture)(p) == px {
      CoordinatesInverse(p, o.width, o.height, o.rotate);
      FlatShows(o.width, o.height, px, SourceCoordinate(p, o.width, o.height, o.rotate));
    }
    hide Flat, Options.Turned;
  }

  /** A conversion that tells some colours apart, in every plane. */
  ghost predicate Telling(codec: Codec) {
    && (exists p: Pixel, q: Pixel :: codec.luma(p) != codec.luma(q))
    && TellingChroma(codec, 0) && TellingChroma(codec, 1)
  }

  ghost predicate TellingChroma(codec: Codec, c: nat) {
    exists p: Pixel, q: Pixel :: codec.chroma(c, p, p, p, p) != codec.chroma(c, q, q, q, q)
  }

  lemma OtherColour(codec: Codec, k: Surface, spot: Spot, v: byte) returns (px: Pixel)
    requires Telling(codec) && spot.On(k)
    ensures FlatSample(codec, spot, px) != v
  {
    if spot.LumaAt? {
      var p: Pixel, q: Pixel :| codec.luma(p) != codec.luma(q);
      px := if codec.luma(p) != v then p else q;
    } else {
      var c := spot.c;
      assert TellingChroma(codec, c);
      var p: Pixel, q: Pixel :| codec.chroma(c, p, p, p, p) != codec.chroma(c, q, q, q, q);
      px := if codec.chroma(c, p, p, p, p) != v then p else q;
    }
  }

  /** Bytes stored over a sample outside the rectangle do harm if they are not that sample. */
  lemma SpotHarmed(o: Options, codec: Codec, job: Job, in': Input, spot: Spot)
    requires in'.frame.Valid()
    requires var k, p := SurfaceAt(o, job.base), job.packet;
             spot.On(k) && !spot.In(job.box) && p.address <= spot.Address(k) < p.address + |p.payload|
             && p.payload[spot.Address(k) - p.address] != spot.Of(SourceSamples(o, codec, in'.frame.Shown()))
    ensures !RightOutside(o, codec, job, SourceSamples(o, codec, in'.frame.Shown()), in')
  {
    var k, p, s := SurfaceAt(o, job.base), job.packet, SourceSamples(o, codec, in'.frame.Shown());
    assert spot.Of(StoredBy(o, job, s)) == p.payload[spot.Address(k) - p.address];
    hide Surface.Luma, Surface.Chroma, SourceSamples, StoredBy, SurfaceAt;
  }

  // ---- the first frame ----

  /** An image so long that its packet fills the ring up to the last 32 bytes. */
  function Wide(): (j: seq<byte>)
    ensures StartsAsJpeg(j) && |j| == 0x6F_FBB0
  {
    [0xFF, 0xD8] + seq(0x6F_FBAE, i => 0 as byte)
  }

  function FirstInput(o: Options, px: Pixel): Input {
    Input(Flat(o.width, o.height, px), DirtySummary(0, 0, o.width, o.height), true, false, InTime, InTime, Wide(),
          [0xFF, 0xD8], Wide())
  }

  lemma WideOffsets(o: Options)
    ensures Type7Mode6CmdOffset(0x6F_FBB0) == RING_HIGH - RING_LOW && Type7Mode6CmdOffset(2) == 2016
    ensures TileOffset(o, 2) == 2016 || TileOffset(o, 2) == MB
  {
  }

  lemma FirstFits(o: Options, px: Pixel)
    ensures var in' := FirstInput(o, px);
            Serviceable(o, in') && Fitted(o, DEFAULT_RING, in')
            && Type7Mode6CmdOffset(|in'.full|) == Type7Mode6CmdOffset(|in'.pair|) == RING_HIGH - RING_LOW
  {
    WideOffsets(o);
    hide Type7Mode6CmdOffset, Wide, Flat, TileOffset;
  }

  /** The packet of the paired tile starts the ring over, and lies all over it. */
  lemma PairFillsRing(o: Options, mem: Memory, px: Pixel)
    ensures var job := PairJob(o, NewSender(mem), FirstInput(o, px));
            job.base == ALLOCATED_BASES[2] && job.box == PairBox(o)
            && job.packet.address == RING_LOW && |job.packet.payload| == RING_HIGH - RING_LOW
  {
    FirstFits(o, px);
    var in' := FirstInput(o, px);
    var offset := Type7Mode6CmdOffset(|in'.full|);
    hide Type7Mode6CmdOffset, FirstInput, Options.Turned, PlaneAddrs, Type7Header.ToBytes, Cropped, PairBox;
    assert Take(Next(DEFAULT_RING, offset), offset).addr == RING_LOW;
  }

  /** The colour of the frame makes no difference to the bytes of the packet. */
  lemma SamePayload(o: Options, mem: Memory, px: Pixel, other: Pixel)
    ensures PairJob(o, NewSender(mem), FirstInput(o, px)).packet.payload
         == PairJob(o, NewSender(mem), FirstInput(o, other)).packet.payload
  {
    hide Type7Mode6CmdOffset, Options.Turned, PlaneAddrs, Type7Header.ToBytes, Cropped, PairBox, Take, Next, Flat, Wide,
         Resize;
  }

  /** What a new sender with the default ring does with its first frame, in the paired mode. */
  lemma FirstStep(o: Options, mem: Memory, px: Pixel)
    requires Laid(o) && o.setupMode.PairedType4Type7?
    ensures var s, in' := NewSender(mem), FirstInput(o, px);
            Ready(o, s) && in'.frame.Valid() && Fate(o, s, in').SentFull?
            && JobOf(o, s, in') == Some(PairJob(o, s, in'))
  {
    hide Type7Mode6CmdOffset, Options.Turned, PlaneAddrs, Type7Header.ToBytes, Cropped, PairBox, Take, Next, Flat, Wide,
         Resize, Laid,
         CurrentBox, TilePacket, UpdateRect;
  }

  /** On a display that the ring reaches the very first frame of some colour is shown wrong: the packet of its
      paired tile is stored over the picture of its setup frame. */
  lemma FirstFrameWrong(o: Options, codec: Codec, mem: Memory) returns (px: Pixel)
    requires Laid(o) && o.setupMode.PairedType4Type7? && o.OutWidth() >= 2 && o.OutHeight() >= 2 && Reaches(o)
    requires Telling(codec)
    ensures var s, in' := NewSender(mem), FirstInput(o, px);
            Ready(o, s) && Serviceable(o, in') && Fitted(o, DEFAULT_RING, in') && Fate(o, s, in').SentFull?
            && !OnScreen(o, codec, SendFrame(o, codec, s, in').0, in'.frame.Shown())
  {
    hide *;
    HighestIs(o);
    var k := Highest(o);
    var spot := SpotOf(o);
    var any := Pixel(0, 0, 0, 0);
    FirstFacts(o, mem, any);
    PairFillsRing(o, mem, any);
    var payload := PairJob(o, NewSender(mem), FirstInput(o, any)).packet.payload;
    px := OtherColour(codec, k, spot, payload[spot.Address(k) - RING_LOW]);
    SamePayload(o, mem, px, any);
    FirstFacts(o, mem, px);
    FirstHarmed(o, codec, mem, px, spot);
    FirstFits(o, px);
    FirstStep(o, mem, px);
    var s, in' := NewSender(mem), FirstInput(o, px);
    ShownIffHarmless(o, codec, s, in', in'.frame.Shown(), in'.frame.Shown());
  }

  lemma SpotOf(o: Options) returns (spot: Spot)
    requires Laid(o) && o.OutWidth() >= 2 && o.OutHeight() >= 2 && Reaches(o)
    ensures spot.On(Highest(o)) && !spot.In(PairBox(o)) && RING_LOW <= spot.Address(Highest(o)) < RING_HIGH
  {
    HighestIs(o);
    hide Laid, Highest, Surface.Good;
    spot := SpotInRing(Highest(o), PairBox(o));
  }

  lemma FirstFacts(o: Options, mem: Memory, px: Pixel)
    ensures var s := NewSender(mem); s.slot < 3 && BoxOk(o, s.lastBox) && s.fb.None?
    ensures var f := FirstInput(o, px).frame; f == Flat(o.width, o.height, px) && f.Valid()
  {
    hide Flat, Wide;
  }

  lemma FirstHarmed(o: Options, codec: Codec, mem: Memory, px: Pixel, spot: Spot)
    requires Laid(o) && o.setupMode.PairedType4Type7?
    requires spot.On(Highest(o)) && !spot.In(PairBox(o)) && RING_LOW <= spot.Address(Highest(o)) < RING_HIGH
    requires var payload := PairJob(o, NewSender(mem), FirstInput(o, px)).packet.payload;
             |payload| == RING_HIGH - RING_LOW
             && FlatSample(codec, spot, px) != payload[spot.Address(Highest(o)) - RING_LOW]
    ensures Ready(o, NewSender(mem)) && !Harmless(o, codec, NewSender(mem), FirstInput(o, px))
  {
    hide FirstInput, NewSender, PairJob, JobOf, Laid, FlatSample, Flat, SurfaceAt, SourceSamples, RightOutside, PairBox,
         Fate,
         Surface.Good, Frame.Shown, Frame.Valid, Spot.On, Spot.In, Spot.Address, Spot.Of;
    FirstFacts(o, mem, px);
    var s, in' := NewSender(mem), FirstInput(o, px);
    PairFillsRing(o, mem, px);
    FirstStep(o, mem, px);
    HighestIs(o);
    FlatSamples(o, codec, Highest(o), spot, px);
    SpotHarmed(o, codec, PairJob(o, s, in'), in', spot);
  }

  /** Whatever a new sender is given, as long as dirty boxes cover the changes, packets fit the ring, and late tiles are
      dropped one at a time, the screen shows every frame that is sent. */
  ghost predicate AlwaysRight(o: Options, codec: Codec) {
    forall mem: Memory, frames: seq<Input>, states: seq<State> ::
      Played(o, codec, NewSender(mem), frames, states) ==>
        Continuous(o, frames) && AllFitted(o, DEFAULT_RING, frames) && DropsAlone(o, frames, states) ==>
          AllShown(o, codec, frames, states, |frames|)
  }

  /** With the default ring and the default setup mode the screen is always right if and only if the highest canvas ends
      below the ring. */
  lemma RightIffShort(o: Options, codec: Codec)
    requires Laid(o) && o.setupMode.PairedType4Type7? && Telling(codec)
    ensures o.OutWidth() >= 2 && o.OutHeight() >= 2 && (AlwaysRight(o, codec) <==> !Reaches(o))
  {
    BigEnough(o);
    if Reaches(o) {
      OneWrong(o, codec);
    } else {
      ShortIsRight(o, codec);
    }
  }

  lemma OneWrong(o: Options, codec: Codec)
    requires Laid(o) && o.setupMode.PairedType4Type7? && o.OutWidth() >= 2 && o.OutHeight() >= 2 && Reaches(o)
    requires Telling(codec)
    ensures !AlwaysRight(o, codec)
  {
    hide Laid, Serviceable, Fitted, NewSender, FirstInput, Fate, SendFrame, OnScreen, Telling, Reaches, AllShown, Ready,
         CoversChange;
    var mem: Memory := (a: int) => 0 as byte;
    var px := FirstFrameWrong(o, codec, mem);
    OneFrame(o, codec, mem, FirstInput(o, px));
  }

  /** A run of one frame. */
  lemma OneFrame(o: Options, codec: Codec, mem: Memory, in': Input)
    requires var s := NewSender(mem);
             Ready(o, s) && Serviceable(o, in') && Fitted(o, DEFAULT_RING, in') && !Fate(o, s, in').Dropped?
             && !OnScreen(o, codec, SendFrame(o, codec, s, in').0, in'.frame.Shown())
    ensures !AlwaysRight(o, codec)
  {
    var s := NewSender(mem);
    assert in'.frame.Valid();
    hide Laid, Serviceable, Fitted, NewSender, Fate, SendFrame, OnScreen, Ready, AllShown, CoversChange, Frame.Valid;
    var frames, states := [in'], [s, SendFrame(o, codec, s, in').0];
    assert Played(o, codec, s, frames, states);
    FirstShown(o, codec, frames, states);
  }

  lemma FirstShown(o: Options, codec: Codec, frames: seq<Input>, states: seq<State>)
    requires |frames| == 1 && |states| == 2 && frames[0].frame.Valid() && !Fate(o, states[0], frames[0]).Dropped?
    ensures AllShown(o, codec, frames, states, 1) <==> OnScreen(o, codec, states[1], frames[0].frame.Shown())
  {
    hide Fate, OnScreen;
    var i := 0;
    assert states[i + 1] == states[1];
  }

  /** In every mode. */
  lemma ShortIsRight(o: Options, codec: Codec)
    requires Laid(o) && o.OutWidth() >= 2 && o.OutHeight() >= 2 && !Reaches(o)
    ensures AlwaysRight(o, codec)
  {
    ShortIsClear(o);
    forall mem: Memory, frames: seq<Input>, states: seq<State> |
      Played(o, codec, NewSender(mem), frames, states) && Continuous(o, frames) && AllFitted(o, DEFAULT_RING, frames)
      && DropsAlone(o, frames, states)
      ensures AllShown(o, codec, frames, states, |frames|)
    {
      NewReady(o, mem);
      hide Laid, Played, Continuous, AllFitted, DropsAlone, AllShown, AllHarmless, Clear, Reaches;
      ClearRun(o, codec, NewSender(mem), frames, states);
      RunShows(o, codec, NewSender(mem), frames, states);
    }
  }

  lemma NewReady(o: Options, mem: Memory)
    requires Laid(o)
    ensures var s := NewSender(mem); Ready(o, s) && s.fb.None? && s.ring == DEFAULT_RING
  {
    hide Laid;
  }

  /** At 1920x1080 it does; at 2560x1440 and 3840x2160 it does not, and at the latter the next canvas below
      reaches into the ring as well, the lowest one does not. */
  lemma Sizes(o: Options)
    ensures o.OutWidth() == 1920 && o.OutHeight() == 1080 ==> !Reaches(o)
    ensures o.OutWidth() == 2560 && o.OutHeight() == 1440 ==> Reaches(o)
    ensures o.OutWidth() == 3840 && o.OutHeight() == 2160 ==>
              var k, l := SurfaceAt(o, ALLOCATED_BASES[0]), SurfaceAt(o, ALLOCATED_BASES[1]);
              Reaches(o) && Last(l).Address(l) >= RING_LOW && Last(k).Address(k) < RING_LOW
  {
    assert ALLOCATED_BASES[0] == 0x0250_0400 && ALLOCATED_BASES[1] == 0x0295_56C0 && ALLOCATED_BASES[2] == 0x02DA_A980;
    hide Options.OutWidth, Options.OutHeight;
  }
}
