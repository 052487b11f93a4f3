/** A run with setup frames alone on a display of 3840 by 2160 and the default ring: the eleventh packet is a tile,
    it is stored over the canvas that is shown, and the screen is wrong although nothing changed at all. */
module LargeDisplay {
  import opened Wrappers
  import opened Bytes
  import opened Canvas
  import opened Geometry
  import opened Pictures
  import opened Scheduler
  import opened Tiles
  import opened PartialUpdates
  import opened PartialRuns
  import opened Refinement
  import opened RingLayout
  import opened DefaultRing
  import opened WarmUp
  import opened ForgottenChanges

  predicate IsLarge(
    o: Options) { o == Options(3840, 2160, Deg0, Local, Windows, SyntheticType4, 0, o.dropLateFrames, false) }

  function Still(
    px: Pixel, dirty: DirtySummary, fullish: bool): Input { Captured(Flat(3840, 2160, px), dirty, fullish, InTime) }

  const ALL := DirtySummary(0, 0, 3840, 2160)

  lemma LargeLaid(o: Options)
    requires IsLarge(o)
    ensures Laid(o) && o.OutWidth() == 3840 && o.OutHeight() == 2160
    ensures var k := Highest(o); k.Luma(2320, 1188) == RING_LOW + 10 * 2016 && k.width == 3840 && k.height == 2160
  {
    assert DivCeil(3840, 16) == 240 && DivCeil(2160, 16) == 135;
    assert Span(3840, 2160) == 0x7E_9000 && Align(3840, 16) == 3840;
    hide Span, Align, DivCeil;
    forall i | 0 <= i < 3 ensures Drawable(ALLOCATED_BASES[i], 3840, 2160) {
    }
    assert ALLOCATED_BASES[2] == 0x02DA_A980;
  }

  lemma StillServed(o: Options, px: Pixel, dirty: DirtySummary, fullish: bool)
    requires IsLarge(o)
    ensures var in' := Still(px, dirty, fullish);
            Serviceable(o, in') && Fitted(o, DEFAULT_RING, in') && in'.frame.Valid()
            && TileOffset(o, |in'.tile|) == 2016
            && in'.frame == Flat(o.width, o.height, px)
  {
    assert Type7Mode6CmdOffset(2) == 2016;
    hide Type7Mode6CmdOffset, Flat;
  }

  /** The tile for a dirty pixel in the corner. */
  lemma CornerTile(b: Box, width: nat, height: nat)
    requires b == Box(0, 0, 1, 1) && width == 3840 && height == 2160
    ensures AlignType7Rect32(b, width, height) == Some(Box(0, 0, 32, 32))
  {
    Edges(b.x, b.width, width);
    Edges(b.y, b.height, height);
    hide LowEdge, HighEdge;
  }

  lemma CornerLocal(b: Box, width: nat, height: nat)
    requires AlignType7Rect32(b, width, height) == Some(Box(0, 0, 32, 32)) && width == 3840 && height == 2160
    ensures Type7UpdateRect(b, width, height, Local) == Some(Box(0, 0, 32, 32))
  {
    hide SatMul, AlignType7Rect32;
  }

  lemma CornerTurned(b: Box, width: nat, height: nat)
    requires b == Box(0, 0, 1, 1) && width == 3840 && height == 2160
    ensures RotateBbox(b, width, height, Deg0) == b
  {
  }

  lemma CornerRect(o: Options, in': Input)
    requires IsLarge(o) && in'.dirty == ELSEWHERE
    ensures Sized(o) && CurrentBox(o, in') == Some(Box(0, 0, 1, 1))
    ensures UpdateRect(o, None, in') == Some(Box(0, 0, 32, 32))
  {
    hide RotateBbox, Type7UpdateRect, UpdateRect, ClampedDirtyBbox, AlignType7Rect32;
    var b := Box(0, 0, 1, 1);
    InsideKept(in'.dirty, o.width, o.height);
    CornerTile(b, o.width, o.height);
    CornerLocal(b, o.width, o.height);
    CornerTurned(b, o.width, o.height);
    RectIs(o, None, in', b, Box(0, 0, 32, 32));
  }

  /** The first byte of a tile packet is its type. */
  lemma TypeByte(base: u32, width: nat, height: nat, b: Box, address: u32, fence: u32, picture: Picture)
    ensures var p := TilePacket(base, width, height, b, address, fence, SOI, picture);
            p.address == address && |p.payload| == 2016 && p.payload[0] == 7
  {
    assert Type7Mode6CmdOffset(|SOI|) == 2016;
    hide PlaneAddrs, Align, Wrap16, Type7Mode6CmdOffset;
  }

  /** After ten frames the highest canvas is shown, and nothing has been stored over it since its setup frame. */
  lemma TenStill(o: Options, codec: Codec, mem: Memory, px: Pixel) returns (states: seq<State>)
    requires IsLarge(o)
    ensures Played(o, codec, NewSender(mem), Repeated(Still(px, ALL, true), 10), states)
    ensures var s := states[10];
            Warm(o, s) && s.lastBox.None? && s.base == ALLOCATED_BASES[2]
            && OnScreen(o, codec, s, Flat(o.width, o.height, px).Shown())
  {
    LargeLaid(o);
    StillServed(o, px, ALL, true);
    var in' := Still(px, ALL, true);
    hide Laid, Serviceable, Fitted, OnScreen, Harmless, SendFrame, IsLarge, RingAfter, Flat, TileOffset;
    states := WarmedUp(o, codec, mem, in', 10);
    NoJob(o, codec, states[9], in');
    TenthBase(o, states[10]);
  }

  lemma TenthBase(o: Options, s: State)
    requires Warming(o, s, 10)
    ensures Warm(o, s) && s.lastBox.None? && s.base == ALLOCATED_BASES[2]
  {
    hide Ready;
  }

  lemma NoJob(o: Options, codec: Codec, s: State, in': Input)
    requires IsLarge(o) && Ready(o, s) && in'.frame.Valid() && in'.fullish && in'.fullClock.InTime?
    ensures Harmless(o, codec, s, in')
  {
    hide CurrentBox, UpdateRect, Laid, TileJob, PairJob;
  }

  /** The eleventh packet. */
  lemma EleventhJob(o: Options, s: State, px: Pixel)
    requires IsLarge(o) && Warm(o, s) && s.lastBox.None? && s.base == ALLOCATED_BASES[2]
    ensures var in' := Still(px, ELSEWHERE, false);
            in'.frame.Valid() && Sized(o) && s.slot < 3 && Fate(o, s, in').SentTile?
            && var job := JobOf(o, s, in');
               job.Some? && job.value.base == ALLOCATED_BASES[2] && job.value.box == Box(0, 0, 32, 32)
               && job.value.packet.address == RING_LOW + 10 * 2016 && |job.value.packet.payload| == 2016
               && job.value.packet.payload[0] == 7
  {
    hide Laid, Take, Type7Mode6CmdOffset, CurrentBox, UpdateRect, Refresh, Fate, Flat, RingAfter, TileOffset,
         TilePacket;
    var in' := Still(px, ELSEWHERE, false);
    StillServed(o, px, ELSEWHERE, false);
    CornerRect(o, in');
    OneTaken(10);
    assert PerFrame(o) == 1 && s.ring == RingAfter(10) && in'.tile == SOI;
    GoesAsTile(o, s, in');
    assert JobOf(o, s, in') == Some(TileJob(o, s, Box(0, 0, 32, 32), in'));
    TypeByte(s.base, o.OutWidth(), o.OutHeight(), Box(0, 0, 32, 32), Take(s.ring, 2016).addr, s.nextFence,
             Cropped(o.Turned(in'.frame.Shown()), Box(0, 0, 32, 32)));
  }

  /** A tile on a display that shows one colour all the time: if the luma of that colour is not 7, the number of the
      packet's type, the screen is wrong afterwards. */
  lemma TileOverCanvas(o: Options, codec: Codec, mem: Memory, px: Pixel)
    returns (frames: seq<Input>, states: seq<State>)
    requires IsLarge(o) && codec.luma(px) != 7
    ensures Laid(o) && Reaches(o) && Continuous(o, frames) && AllFitted(o, DEFAULT_RING, frames)
    ensures |frames| == 11 && Played(o, codec, NewSender(mem), frames, states)
    ensures forall i :: 0 <= i < 11 ==> frames[i].frame == Flat(3840, 2160, px)
    ensures Fate(o, states[10], frames[10]).SentTile?
    ensures !OnScreen(o, codec, states[11], frames[10].frame.Shown())
  {
    hide Laid, Serviceable, Fitted, OnScreen, Harmless, SendFrame, IsLarge, Flat, TileOffset, Ready, Still, Warm, Fate,
         Reaches,
         Continuous, AllFitted, JobOf;
    LargeLaid(o);
    Sizes(o);
    states := TenStill(o, codec, mem, px);
    var s, first, in' := states[10], Still(px, ALL, true), Still(px, ELSEWHERE, false);
    EleventhHarms(o, codec, s, px);
    More(o, codec, NewSender(mem), Repeated(first, 10), states, in');
    states := states + [SendFrame(o, codec, s, in').0];
    frames := Repeated(first, 10) + [in'];
    StillContinuous(o, px, frames);
  }

  lemma EleventhHarms(o: Options, codec: Codec, s: State, px: Pixel)
    requires IsLarge(o) && Warm(o, s) && s.lastBox.None? && s.base == ALLOCATED_BASES[2] && codec.luma(px) != 7
    requires OnScreen(o, codec, s, Flat(o.width, o.height, px).Shown())
    ensures var in' := Still(px, ELSEWHERE, false);
            Ready(o, s) && in'.frame.Valid() && in'.frame == Flat(3840, 2160, px)
            && Still(px, ALL, true).frame == Flat(3840, 2160, px)
            && Sized(o) && BoxOk(o, s.lastBox) && s.slot < 3
            && Fate(o, s, in').SentTile? && !OnScreen(o, codec, SendFrame(o, codec, s, in').0, in'.frame.Shown())
  {
    hide Laid, Serviceable, Fitted, Screen, SendFrame, Flat, TileOffset, Fate, JobOf, SourceSamples, RightOutside,
         RingAfter,
         CurrentBox;
    var in' := Still(px, ELSEWHERE, false);
    StillServed(o, px, ELSEWHERE, false);
    EleventhJob(o, s, px);
    LargeLaid(o);
    var spot, k := LumaAt(2320, 1188), Highest(o);
    FlatSamples(o, codec, k, spot, px);
    SpotHarmed(o, codec, JobOf(o, s, in').value, in', spot);
    StillCovers(o, in', px);
    SameReflexive(o, in'.frame.Shown());
    TileIffHarmless(o, codec, s, in', in'.frame.Shown(), in'.frame.Shown());
  }

  lemma SameReflexive(o: Options, a: Picture)
    ensures SameBut(o, a, a, None)
  {
  }

  lemma StillCovers(o: Options, in': Input, px: Pixel)
    requires in'.frame.Valid()
    ensures CoversChange(o, in', in'.frame.Shown())
  {
    hide CurrentBox;
  }

  lemma StillContinuous(o: Options, px: Pixel, frames: seq<Input>)
    requires IsLarge(o) && frames == Repeated(Still(px, ALL, true), 10) + [Still(px, ELSEWHERE, false)]
    ensures Continuous(o, frames) && AllFitted(o, DEFAULT_RING, frames)
    ensures forall i :: 0 <= i < 11 ==> frames[i].frame == Flat(3840, 2160, px)
  {
    hide Serviceable, Fitted, CoversChange, Flat, Still, TileOffset, IsLarge;
    StillServed(o, px, ALL, true);
    StillServed(o, px, ELSEWHERE, false);
    LargeSize(o);
    forall i | 0 < i < |frames| ensures CoversChange(o, frames[i], frames[i - 1].frame.Shown()) {
      StillCovers(o, frames[i], px);
    }
  }

  lemma LargeSize(o: Options)
    requires IsLarge(o)
    ensures o.width == 3840 && o.height == 2160
  {
  }
}
