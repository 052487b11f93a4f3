/** Runs of a new sender after which the screen is wrong although every dirty box covers what changed and the
    ring is clear of the canvases: after a dropped full frame, and after two dropped tiles. A single dropped tile
    is repaired. */
module ForgottenChanges {
  import opened Arithmetic
  import opened Wrappers
  import opened Bytes
  import opened Canvas
  import opened Geometry
  import opened Pictures
  import opened Scheduler
  import opened Tiles
  import opened PartialUpdates
  import opened PartialRuns
  import opened Refinement
  import opened RingLayout
  import opened DefaultRing
  import opened WarmUp

  /** A small display, in any setup mode; everything else is as by default. */
  predicate IsSmall(o: Options) { o == Options(64, 2, Deg0, Local, Windows, o.setupMode, 0, true, false) }

  /** The conversion tells black from white. */
  predicate Contrasts(codec: Codec) { codec.luma(Pixel(0, 0, 0, 0)) != codec.luma(Pixel(255, 255, 255, 255)) }

  /** A dark frame, and one with a single bright pixel, at (40, 0). */
  function Dark(): Frame { Frame(seq(512, i => 0 as byte), 64, 2, 256) }

  function Lit(): Frame { Frame(seq(512, i => (if 160 <= i < 164 then 255 else 0) as byte), 64, 2, 256) }

  const EVERYTHING := DirtySummary(0, 0, 64, 2)
  const SPOT := DirtySummary(40, 0, 1, 1)
  const ELSEWHERE := DirtySummary(0, 0, 1, 1)

  /** The frame with which a run begins. */
  function First(): Input { Captured(Dark(), EVERYTHING, true, InTime) }

  /** A frame that reports one pixel as dirty, not the bright one. */
  function Final(): Input { Captured(Lit(), ELSEWHERE, false, InTime) }

  function Fresh(): State { NewSender((a: int) => 0 as byte) }

  // ---- facts about the small display ----

  lemma SmallLaid(o: Options)
    requires IsSmall(o)
    ensures Laid(o) && o.OutWidth() == 64 && o.OutHeight() == 2 && !Reaches(o)
  {
    assert DivCeil(64, 16) == 4 && DivCeil(2, 16) == 1;
    assert Span(64, 2) == 0x400 && Align(64, 16) == 64;
    hide Span, Align, DivCeil;
    forall i | 0 <= i < 3 ensures Drawable(ALLOCATED_BASES[i], 64, 2) {
    }
    assert ALLOCATED_BASES[2] == 0x02DA_A980;
  }

  lemma CanServe(o: Options, frame: Frame, dirty: DirtySummary, fullish: bool, clock: Clock)
    requires IsSmall(o) && (frame == Dark() || frame == Lit())
    ensures var in' := Captured(frame, dirty, fullish, clock);
            Serviceable(o, in') && Fitted(o, DEFAULT_RING, in') && in'.frame.Valid()
            && TileOffset(o, |in'.tile|) == 2016
  {
    assert Type7Mode6CmdOffset(2) == 2016;
    hide Type7Mode6CmdOffset;
  }

  /** No packet does harm there. */
  lemma SmallHarmless(o: Options, codec: Codec, s: State, in': Input)
    requires IsSmall(o) && Ready(o, s) && Sound(s.ring) && SameRing(s.ring, DEFAULT_RING) && in'.frame.Valid()
    requires Fitted(o, DEFAULT_RING, in')
    ensures Harmless(o, codec, s, in') && Spares(o, s, in')
  {
    SmallLaid(o);
    ShortIsClear(o);
    ClearThere(o, s.ring);
    FittedThere(o, s.ring, in');
    hide Clear, Fitted, Laid, Spares, Harmless, IsSmall;
    ClearSpares(o, s, in');
    SparesHarmless(o, codec, s, in');
  }

  lemma ClearThere(o: Options, ring: Ring)
    requires Clear(o, DEFAULT_RING) && Sound(ring) && SameRing(ring, DEFAULT_RING)
    ensures Clear(o, ring)
  {
    hide Spared;
  }

  lemma FittedThere(o: Options, ring: Ring, in': Input)
    requires Fitted(o, DEFAULT_RING, in') && SameRing(ring, DEFAULT_RING)
    ensures Fitted(o, ring, in')
  {
    hide Type7Mode6CmdOffset, TileOffset;
  }

  /** The two frames differ in one pixel. */
  lemma OneSpot(p: Point)
    requires InFrame(p, 64, 2)
    ensures Dark().Shown()(p) == Pixel(0, 0, 0, 0)
    ensures Lit().Shown()(p) == if p == Point(40, 0) then Pixel(255, 255, 255, 255) else Pixel(0, 0, 0, 0)
  {
    Dark().OffsetInside(p);
    Lit().OffsetInside(p);
  }

  lemma AnyCovers(o: Options, frame: Frame, dirty: DirtySummary, fullish: bool, clock: Clock)
    requires frame == Dark() || frame == Lit()
    ensures CoversChange(o, Captured(frame, dirty, fullish, clock), frame.Shown())
  {
  }

  lemma SpotCovers(o: Options, dirty: DirtySummary, fullish: bool, clock: Clock)
    requires IsSmall(o) && (dirty == EVERYTHING || dirty == SPOT)
    ensures CoversChange(o, Captured(Lit(), dirty, fullish, clock), Dark().Shown())
    ensures CurrentBox(o, Captured(Lit(), SPOT, fullish, clock)) == Some(Box(40, 0, 1, 1))
  {
    hide Lit, Dark, ClampedDirtyBbox, Frame.Shown;
    InsideKept(dirty, o.width, o.height);
    InsideKept(SPOT, o.width, o.height);
    LitValid();
    OnlySpot(o, if dirty == SPOT then Box(40, 0, 1, 1) else Box(0, 0, 64, 2));
  }

  lemma LitValid()
    ensures Lit().Valid() && Dark().Valid()
  {
  }

  /** A dirty box inside the frame is kept. */
  lemma InsideKept(dirty: DirtySummary, width: nat, height: nat)
    requires dirty.width > 0 && dirty.height > 0 && IsFrame(width, height)
    requires dirty.minX + dirty.width <= width && dirty.minY + dirty.height <= height
    ensures ClampedDirtyBbox(dirty, width, height) == Some(Box(dirty.minX, dirty.minY, dirty.width, dirty.height))
  {
  }

  lemma OnlySpot(o: Options, b: Box)
    requires IsSmall(o) && (b == Box(40, 0, 1, 1) || b == Box(0, 0, 64, 2))
    ensures Lit().Valid() && Dark().Valid() && SameBut(o, Dark().Shown(), Lit().Shown(), Some(b))
  {
    LitValid();
    forall p: Point | InFrame(p, 64, 2) && !b.Has(p) ensures Dark().Shown()(p) == Lit().Shown()(p) {
      OneSpot(p);
    }
    hide Frame.Shown, Lit, Dark;
  }

  // ---- the last frame ----

  /** The sender after the warm-up: the ring asks for no more resets, and has room. */
  predicate Warm(o: Options, s: State) {
    Ready(o, s) && s.fb.Some? && s.sentFrames == 10 && s.ring == RingAfter(10 * PerFrame(o))
  }

  lemma ElsewhereBox(o: Options, in': Input)
    requires IsSmall(o) && in'.dirty == ELSEWHERE
    ensures CurrentBox(o, in') == Some(Box(0, 0, 1, 1))
  {
    hide ClampedDirtyBbox;
    InsideKept(in'.dirty, o.width, o.height);
  }

  lemma ElsewhereTurned(b: Box)
    requires b == Box(0, 0, 1, 1)
    ensures RotateBbox(b, 64, 2, Deg0) == b && UnionBbox(b, b, 64, 2) == b
  {
  }

  lemma ElsewhereTile(b: Box)
    requires b == Box(0, 0, 1, 1)
    ensures Type7UpdateRect(b, 64, 2, Local) == Some(Box(0, 0, 32, 2))
  {
    Edges(b.x, b.width, 64);
    Edges(b.y, b.height, 2);
    hide LowEdge, HighEdge, Type7UpdateRect;
    LocalIs(b, 64, 2, Box(0, 0, 32, 2));
  }

  lemma Edges(at: nat, size: nat, canvas: nat)
    requires at == 0 && size == 1 && 0 < canvas
    ensures LowEdge(at) == 0 && HighEdge(at, size, canvas) == Min(32, canvas)
  {
    assert (32 + 32 - 1) / 32 == 1;
  }

  lemma LocalIs(b: Box, width: nat, height: nat, t: Box)
    requires b.width == b.height == 1 && LowEdge(b.x) == LowEdge(b.y) == 0 && t == Box(0, 0, 32, 2)
    requires HighEdge(b.x, b.width, width) == 32 && HighEdge(b.y, b.height, height) == 2 == height && width == 64
    ensures Type7UpdateRect(b, width, height, Local) == Some(t)
  {
    hide SatMul, LowEdge, HighEdge;
  }

  /** Whatever box is remembered, if it is not that of the bright pixel, the last frame goes out as a tile
      that leaves the bright pixel out. */
  lemma FinalIsTile(o: Options, s: State)
    requires IsSmall(o) && Warm(o, s) && (s.lastBox.None? || s.lastBox == Some(Box(0, 0, 1, 1)))
    ensures Fate(o, s, Final()).SentTile? && UpdateRect(o, s.lastBox, Final()) == Some(Box(0, 0, 32, 2))
  {
    hide Laid, Take, Type7Mode6CmdOffset, CurrentBox, UpdateRect, Refresh, Ready, Fate, Lit, RingAfter, TileOffset;
    var last := Final();
    LastRect(o, last, s.lastBox);
    ElsewhereBox(o, last);
    CanServe(o, Lit(), ELSEWHERE, false, InTime);
    OneTaken(10 * PerFrame(o));
    GoesAsTile(o, s, last);
  }

  lemma LastRect(o: Options, in': Input, lastBox: Option<Box>)
    requires o.width == 64 && o.height == 2 && o.rotate.Deg0? && o.rectMode.Local?
    requires in'.dirty == ELSEWHERE && (lastBox.None? || lastBox == Some(Box(0, 0, 1, 1)))
    ensures Sized(o) && BoxOk(o, lastBox) && UpdateRect(o, lastBox, in') == Some(Box(0, 0, 32, 2))
  {
    hide RotateBbox, Type7UpdateRect, UnionBbox, UpdateRect, ClampedDirtyBbox;
    SmallBox(o, in', Box(0, 0, 1, 1));
    RectIs(o, lastBox, in', Box(0, 0, 1, 1), Box(0, 0, 32, 2));
  }

  lemma SmallBox(o: Options, in': Input, b: Box)
    requires o.width == 64 && o.height == 2 && o.rotate.Deg0? && o.rectMode.Local? && in'.dirty == ELSEWHERE
    requires b == Box(0, 0, 1, 1)
    ensures Sized(o) && BoxOk(o, Some(b)) && CurrentBox(o, in') == Some(b)
    ensures UnionBbox(b, b, o.width, o.height) == b && RotateBbox(b, o.width, o.height, o.rotate) == b
    ensures Type7UpdateRect(b, o.OutWidth(), o.OutHeight(), o.rectMode) == Some(Box(0, 0, 32, 2))
  {
    hide RotateBbox, Type7UpdateRect, UnionBbox, ClampedDirtyBbox;
    assert o.OutWidth() == 64 && o.OutHeight() == 2;
    InsideKept(in'.dirty, o.width, o.height);
    ElsewhereTurned(b);
    ElsewhereTile(b);
  }

  lemma RectIs(o: Options, lastBox: Option<Box>, in': Input, b: Box, t: Box)
    requires Sized(o) && BoxOk(o, lastBox) && BoxOk(o, Some(b)) && CurrentBox(o, in') == Some(b)
    requires (lastBox.None? || UnionBbox(b, lastBox.value, o.width, o.height) == b)
    requires RotateBbox(b, o.width, o.height, o.rotate) == b
    requires Type7UpdateRect(b, o.OutWidth(), o.OutHeight(), o.rectMode) == Some(t)
    ensures UpdateRect(o, lastBox, in') == Some(t)
  {
    hide RotateBbox, Type7UpdateRect, UnionBbox, CurrentBox, Options.OutWidth, Options.OutHeight;
  }

  /** A frame in time that is small enough goes out as a tile once the ring asks for no more resets. */
  lemma GoesAsTile(o: Options, s: State, in': Input)
    requires s.fb.Some? && s.sentFrames > 0 && o.refreshFrames == 0 && !o.setupOnly && CurrentBox(o, in').Some?
    requires !in'.fullish && !in'.tileRefused && in'.tileClock.InTime? && !Take(s.ring, TileOffset(o, |in'.tile|)).reset
    ensures Fate(o, s, in').SentTile?
  {
    hide CurrentBox, Take, TileOffset;
  }

  /** Outside that rectangle there is the bright pixel, which a dark screen does not show. */
  lemma SpotMissing(o: Options, codec: Codec, job: Job)
    requires IsSmall(o) && Contrasts(codec) && job.base in ALLOCATED_BASES && job.box == Box(0, 0, 32, 2)
    requires job.packet.address >= DEFAULT_RING.initial
    ensures Final().frame.Valid() && !RightOutside(o, codec, job, SourceSamples(o, codec, Dark().Shown()), Final())
  {
    SmallLaid(o);
    var spot, k := LumaAt(40, 0), SurfaceAt(o, job.base);
    var dark, lit := SourceSamples(o, codec, Dark().Shown()), SourceSamples(o, codec, Lit().Shown());
    SpotSamples(o, codec);
    SpotBelow(o, job.base);
    LitValid();
    assert StoredBy(o, job, dark).luma(40, 0) == dark.luma(40, 0);
    assert !job.box.Has(Point(40, 0)) && k.width == 64 && k.height == 2;
    hide SourceSamples, StoredBy, Lit, Dark, SurfaceAt;
  }

  lemma SpotSamples(o: Options, codec: Codec)
    requires IsSmall(o)
    ensures SourceSamples(o, codec, Dark().Shown()).luma(40, 0) == codec.luma(Pixel(0, 0, 0, 0))
    ensures SourceSamples(o, codec, Lit().Shown()).luma(40, 0) == codec.luma(Pixel(255, 255, 255, 255))
  {
    var p := Point(40, 0);
    OneSpot(p);
    assert InOutput(p, 64, 2, Deg0) && SourceCoordinate(p, 64, 2, Deg0) == p;
    hide Frame.Shown, Lit, Dark;
  }

  lemma SpotBelow(o: Options, base: u32)
    requires IsSmall(o) && base in ALLOCATED_BASES
    ensures SurfaceAt(o, base).Luma(40, 0) < DEFAULT_RING.initial
  {
    SmallLaid(o);
    var i :| 0 <= i < 3 && ALLOCATED_BASES[i] == base;
    SurfaceIs(o, base);
    Higher(o, i);
    LastIsLast(SurfaceAt(o, base), LumaAt(40, 0));
    hide Laid, SurfaceAt, Surface.Luma, Surface.Chroma, Surface.Good;
  }

  /** So on a dark screen it never shows up. */
  lemma FinalMisses(o: Options, codec: Codec, s: State)
    requires IsSmall(o) && Contrasts(codec) && Warm(o, s) && (s.lastBox.None? || s.lastBox == Some(Box(0, 0, 1, 1)))
    requires OnScreen(o, codec, s, Dark().Shown())
    ensures var t := SendFrame(o, codec, s, Final()).0;
            Final().frame.Valid() && !OnScreen(o, codec, t, Final().frame.Shown())
  {
    hide Serviceable, SendFrame, Fate, Screen, RightOutside, UpdateRect, Laid, Lit, Dark, SourceSamples, JobOf, Fitted,
         RingAfter,
         IsSmall, TileOffset, Sound, Contrasts;
    FinalIsTile(o, s);
    CanServe(o, Lit(), ELSEWHERE, false, InTime);
    WarmRing(s.ring, 10 * PerFrame(o));
    FittedThere(o, s.ring, Final());
    JobInside(o, s, Final());
    TileExact(o, codec, s, Final(), SourceSamples(o, codec, Dark().Shown()));
    ReadySized(o, s);
    SpotMissing(o, codec, JobOf(o, s, Final()).value);
  }

  lemma ReadySized(o: Options, s: State)
    requires Ready(o, s)
    ensures Sized(o) && BoxOk(o, s.lastBox) && s.slot < 3
  {
  }

  lemma WarmRing(r: Ring, packets: nat)
    requires packets <= 20 && r == RingAfter(packets)
    ensures Sound(r) && SameRing(r, DEFAULT_RING)
  {
  }

  // ---- the warm-up ----

  lemma FirstIs()
    ensures First().frame == Dark() && First().fullish && First().fullClock.InTime?
    ensures |First().full| == |First().pair| == 2
  {
    hide Dark;
  }

  lemma WarmDark(o: Options, codec: Codec) returns (states: seq<State>)
    requires IsSmall(o)
    ensures Played(o, codec, Fresh(), Repeated(First(), 10), states)
    ensures var s := states[10]; Warm(o, s) && s.lastBox.None? && OnScreen(o, codec, s, Dark().Shown())
  {
    SmallLaid(o);
    CanServe(o, Dark(), EVERYTHING, true, InTime);
    FirstIs();
    hide Laid, Serviceable, Fitted, Screen, Harmless, SendFrame, IsSmall, RingAfter, Sound, Dark, First, TileOffset;
    states := WarmedUp(o, codec, (a: int) => 0 as byte, First(), 10);
    WarmRing(states[9].ring, 9 * PerFrame(o));
    SmallHarmless(o, codec, states[9], First());
  }

  // ---- dropped frames ----

  lemma DroppedFullIs(o: Options, codec: Codec, s: State, in': Input)
    requires Ready(o, s) && in'.frame.Valid() && in'.fullish && o.dropLateFrames && in'.fullClock.Late?
    ensures SendFrame(o, codec, s, in') == (s.(lastBox := None), Dropped)
    ensures FullInstead(o, s, in') && Fate(o, s, in').Dropped?
  {
    hide Laid, SendSetup, SendTile, Options.Turned, CurrentBox, UpdateRect, SendPartial;
  }

  lemma DroppedTileIs(o: Options, codec: Codec, s: State, in': Input)
    requires Ready(o, s) && in'.frame.Valid() && !FullInstead(o, s, in') && o.dropLateFrames && in'.tileClock.Late?
    ensures SendFrame(o, codec, s, in') == (s.(lastBox := CurrentBox(o, in')), Dropped)
    ensures Fate(o, s, in').Dropped?
  {
    RectCovers(o, s.lastBox, in');
    hide Laid, SendSetup, SendTile, SendFull, Options.Turned, CurrentBox, UpdateRect, Take, TileOffset, EvenEdges;
  }

  lemma NotFull(o: Options, s: State, in': Input)
    requires s.fb.Some? && s.sentFrames > 0 && o.refreshFrames == 0 && CurrentBox(o, in').Some?
    requires !in'.fullish && !in'.tileRefused && TileLate(o, in')
    ensures !FullInstead(o, s, in')
  {
    hide CurrentBox;
  }

  predicate IsLit(in': Input) { in' == Captured(Lit(), in'.dirty, in'.fullish, in'.tileClock) }

  /** The dirty boxes cover every change if the bright pixel is reported when it comes; all packets fit the ring. */
  lemma AllContinuous(o: Options, tail: seq<Input>)
    requires IsSmall(o) && tail != [] && (forall i :: 0 <= i < |tail| ==> IsLit(tail[i]))
    requires tail[0].dirty == EVERYTHING || tail[0].dirty == SPOT
    ensures Continuous(o, Repeated(First(), 10) + tail) && AllFitted(o, DEFAULT_RING, Repeated(First(), 10) + tail)
  {
    var frames := Repeated(First(), 10) + tail;
    forall i | 0 <= i < |frames|
      ensures Serviceable(o, frames[i]) && Fitted(o, DEFAULT_RING, frames[i])
      ensures i > 0 ==> CoversChange(o, frames[i], frames[i - 1].frame.Shown())
    {
      hide Serviceable, CoversChange, Fitted, Lit, Dark, IsSmall, TileOffset;
      var in' := frames[i];
      if i < 10 {
        assert in' == First() && (i > 0 ==> frames[i - 1] == First());
        CanServe(o, Dark(), EVERYTHING, true, InTime);
        AnyCovers(o, Dark(), EVERYTHING, true, InTime);
      } else {
        assert IsLit(in') && frames[i] == tail[i - 10];
        CanServe(o, Lit(), in'.dirty, in'.fullish, in'.tileClock);
        if i == 10 {
          assert frames[9] == First();
          SpotCovers(o, in'.dirty, in'.fullish, in'.tileClock);
        } else {
          assert IsLit(frames[i - 1]);
          AnyCovers(o, Lit(), in'.dirty, in'.fullish, in'.tileClock);
        }
      }
    }
    hide Serviceable, CoversChange, Fitted, IsLit;
  }

  // ---- two runs with drops ----

  /** The end of a run: the last frame, on a screen that is still dark. */
  lemma Missed(o: Options, codec: Codec, frames: seq<Input>, states: seq<State>) returns (all: seq<State>)
    requires IsSmall(o) && Contrasts(codec) && Played(o, codec, Fresh(), frames, states)
    requires var s := states[|frames|];
             Warm(o, s) && OnScreen(o, codec, s, Dark().Shown())
             && (s.lastBox.None? || s.lastBox == Some(Box(0, 0, 1, 1)))
    ensures Played(o, codec, Fresh(), frames + [Final()], all) && all[..|states|] == states
    ensures Fate(o, states[|frames|], Final()).SentTile?
    ensures Final().frame.Valid() && !OnScreen(o, codec, all[|frames| + 1], Final().frame.Shown())
  {
    hide SendFrame, OnScreen, Fate, Final, Dark, Lit, Fresh, Ready, Captured, IsSmall, Contrasts, RingAfter, UpdateRect;
    var s := states[|frames|];
    ReadySized(o, s);
    FinalIsTile(o, s);
    FinalMisses(o, codec, s);
    More(o, codec, Fresh(), frames, states, Final());
    all := states + [SendFrame(o, codec, s, Final()).0];
  }

  /** A dropped full frame: after ten frames one for which a full frame would have gone out is late, and
      the next one goes out as a tile. The screen does not show it. */
  lemma DroppedFull(o: Options, codec: Codec) returns (frames: seq<Input>, states: seq<State>)
    requires IsSmall(o) && Contrasts(codec)
    ensures Laid(o) && !Reaches(o) && Continuous(o, frames) && AllFitted(o, DEFAULT_RING, frames)
    ensures |frames| == 12 && Played(o, codec, Fresh(), frames, states)
    ensures FullInstead(o, states[10], frames[10]) && Fate(o, states[10], frames[10]).Dropped?
    ensures Fate(o, states[11], frames[11]).SentTile?
    ensures !OnScreen(o, codec, states[12], frames[11].frame.Shown())
  {
    hide Ready, SendFrame, OnScreen, Fate, FullInstead, Continuous, AllFitted, Captured, Lit, Dark, Fresh, Laid,
         IsSmall, First,
         Final, Contrasts, Reaches, Warm;
    SmallLaid(o);
    states := WarmDark(o, codec);
    var s, lost := states[10], Captured(Lit(), EVERYTHING, true, Late);
    LostFull(o, codec, s, lost);
    LitFrame(EVERYTHING, true, Late);
    FinalLit();
    AllContinuous(o, [lost, Final()]);
    frames := Repeated(First(), 10) + [lost];
    assert frames + [Final()] == Repeated(First(), 10) + [lost, Final()];
    More(o, codec, Fresh(), Repeated(First(), 10), states, lost);
    states := states + [s.(lastBox := None)];
    states := Missed(o, codec, frames, states);
    frames := frames + [Final()];
  }

  lemma LostFull(o: Options, codec: Codec, s: State, lost: Input)
    requires IsSmall(o) && Warm(o, s) && OnScreen(o, codec, s, Dark().Shown())
    requires lost == Captured(Lit(), EVERYTHING, true, Late)
    ensures Ready(o, s) && lost.frame.Valid() && FullInstead(o, s, lost) && Fate(o, s, lost).Dropped?
    ensures var t := s.(lastBox := None);
            SendFrame(o, codec, s, lost).0 == t && Warm(o, t) && OnScreen(o, codec, t, Dark().Shown())
  {
    hide SendFrame, Fate, FullInstead, Laid, SurfaceAt, Surface.Holds, SourceSamples, Dark, RingAfter;
    LitValid();
    DroppedFullIs(o, codec, s, lost);
    hide Lit;
  }

  lemma LitFrame(dirty: DirtySummary, fullish: bool, clock: Clock)
    ensures var in' := Captured(Lit(), dirty, fullish, clock); IsLit(in') && in'.dirty == dirty
  {
    hide Lit;
  }

  lemma FinalLit()
    ensures IsLit(Final())
  {
    hide Lit;
  }

  /** Two dropped tiles: after ten frames two for which tiles would have gone out are late, and the next
      one goes out as a tile. */
  lemma TwoDroppedTiles(o: Options, codec: Codec) returns (frames: seq<Input>, states: seq<State>)
    requires IsSmall(o) && Contrasts(codec)
    ensures Laid(o) && !Reaches(o) && Continuous(o, frames) && AllFitted(o, DEFAULT_RING, frames)
    ensures |frames| == 13 && Played(o, codec, Fresh(), frames, states)
    ensures forall i :: 10 <= i < 12 ==>
              !FullInstead(o, states[i], frames[i]) && Fate(o, states[i], frames[i]).Dropped?
    ensures Fate(o, states[12], frames[12]).SentTile?
    ensures !OnScreen(o, codec, states[13], frames[12].frame.Shown())
  {
    hide Ready, SendFrame, OnScreen, Fate, FullInstead, Continuous, AllFitted, Captured, Lit, Dark, Fresh, Laid,
         IsSmall, First,
         Final, Contrasts, Reaches, Warm, CurrentBox;
    SmallLaid(o);
    states := WarmDark(o, codec);
    var s, one, two := states[10], Captured(Lit(), SPOT, false, Late), Captured(Lit(), ELSEWHERE, false, Late);
    LitFrame(SPOT, false, Late);
    LitFrame(ELSEWHERE, false, Late);
    FinalLit();
    AllContinuous(o, [one, two, Final()]);
    assert Repeated(First(), 10) + [one] + [two] + [Final()] == Repeated(First(), 10) + [one, two, Final()];
    BothLate(o, codec, s, one, two);
    var t := s.(lastBox := Some(Box(40, 0, 1, 1)));
    var u := s.(lastBox := Some(Box(0, 0, 1, 1)));
    More(o, codec, Fresh(), Repeated(First(), 10), states, one);
    states := states + [t];
    More(o, codec, Fresh(), Repeated(First(), 10) + [one], states, two);
    states := states + [u];
    frames := Repeated(First(), 10) + [one] + [two];
    states := Missed(o, codec, frames, states);
    frames := frames + [Final()];
  }

  lemma BothLate(o: Options, codec: Codec, s: State, one: Input, two: Input)
    requires IsSmall(o) && Warm(o, s) && OnScreen(o, codec, s, Dark().Shown())
    requires one == Captured(Lit(), SPOT, false, Late) && two == Captured(Lit(), ELSEWHERE, false, Late)
    ensures var t := s.(lastBox := Some(Box(40, 0, 1, 1)));
            var u := s.(lastBox := Some(Box(0, 0, 1, 1)));
            Ready(o, s) && Ready(o, t) && Warm(o, t) && Warm(o, u) && one.frame.Valid() && two.frame.Valid()
            && OnScreen(o, codec, t, Dark().Shown()) && OnScreen(o, codec, u, Dark().Shown())
            && !FullInstead(o, s, one) && Fate(o, s, one).Dropped? && SendFrame(o, codec, s, one).0 == t
            && !FullInstead(o, t, two) && Fate(o, t, two).Dropped? && SendFrame(o, codec, t, two).0 == u
  {
    hide SendFrame, Fate, FullInstead, CurrentBox, Laid, SurfaceAt, Surface.Holds, SourceSamples, RingAfter, Dark, Lit;
    var t := s.(lastBox := Some(Box(40, 0, 1, 1)));
    SpotCovers(o, SPOT, false, Late);
    ElsewhereBox(o, two);
    LitValid();
    assert Warm(o, t);
    LateSpot(o, codec, s, one, t);
    LateSpot(o, codec, t, two, s.(lastBox := Some(Box(0, 0, 1, 1))));
  }

  lemma LateSpot(o: Options, codec: Codec, s: State, in': Input, t: State)
    requires IsSmall(o) && Warm(o, s) && in'.frame.Valid() && !in'.fullish && !in'.tileRefused && in'.tileClock.Late?
    requires CurrentBox(o, in').Some? && t == s.(lastBox := CurrentBox(o, in'))
    ensures SendFrame(o, codec, s, in') == (t, Dropped)
    ensures !FullInstead(o, s, in') && Fate(o, s, in').Dropped?
  {
    hide SendFrame, CurrentBox, FullInstead, Fate, Ready, RingAfter;
    NotFull(o, s, in');
    DroppedTileIs(o, codec, s, in');
  }

  // ---- a run that is repaired ----

  /** A single dropped tile: the frame that reports the bright pixel is late, and the next frame, which reports
      another one, goes out as a tile. Dirty boxes cover the changes, late tiles are dropped one at a time, and no
      packet does harm; the screen shows the last frame. */
  lemma OneDroppedTile(o: Options, codec: Codec) returns (frames: seq<Input>, states: seq<State>)
    requires IsSmall(o)
    ensures Ready(o, Fresh()) && Fresh().fb.None? && Continuous(o, frames) && AllFitted(o, DEFAULT_RING, frames)
    ensures |frames| == 12 && Played(o, codec, Fresh(), frames, states) && DropsAlone(o, frames, states)
    ensures frames[9].frame.Valid() && OnScreen(o, codec, states[10], frames[9].frame.Shown())
    ensures TileLate(o, frames[10])
    ensures !FullInstead(o, states[10], frames[10]) && Fate(o, states[10], frames[10]).Dropped?
    ensures !Fate(o, states[11], frames[11]).Dropped? && AllHarmless(o, codec, frames, states, 12)
    ensures OnScreen(o, codec, states[12], frames[11].frame.Shown())
  {
    hide Ready, SendFrame, OnScreen, Fate, FullInstead, Continuous, AllFitted, Captured, Lit, Dark, Fresh, Laid,
         IsSmall, First,
         Final, Reaches, Warm, CurrentBox, AllHarmless, AllShown, DropsAlone;
    SmallLaid(o);
    states := WarmDark(o, codec);
    var s, one, two := states[10], Captured(Lit(), SPOT, false, Late), Captured(Lit(), ELSEWHERE, false, Late);
    LitFrame(SPOT, false, Late);
    FinalLit();
    AllContinuous(o, [one, Final()]);
    assert Repeated(First(), 10) + [one] + [Final()] == Repeated(First(), 10) + [one, Final()];
    BothLate(o, codec, s, one, two);
    var t := s.(lastBox := Some(Box(40, 0, 1, 1)));
    More(o, codec, Fresh(), Repeated(First(), 10), states, one);
    states := states + [t];
    FinalSent(o, t);
    More(o, codec, Fresh(), Repeated(First(), 10) + [one], states, Final());
    ReadySized(o, t);
    states := states + [SendFrame(o, codec, t, Final()).0];
    frames := Repeated(First(), 10) + [one, Final()];
    OnlyOneDropped(o, frames, states);
    FirstIs();
    LitValid();
    SpotIsLate(o, one);
    FreshClear(o);
    ClearRun(o, codec, Fresh(), frames, states);
    RunShows(o, codec, Fresh(), frames, states);
    LastShown(o, codec, frames, states);
  }

  lemma SpotIsLate(o: Options, in': Input)
    requires IsSmall(o) && in' == Captured(Lit(), SPOT, false, Late)
    ensures TileLate(o, in')
  {
    hide Lit;
  }

  lemma FreshClear(o: Options)
    requires IsSmall(o)
    ensures Ready(o, Fresh()) && Fresh().fb.None? && Fresh().ring == DEFAULT_RING && Clear(o, DEFAULT_RING)
  {
    SmallLaid(o);
    ShortIsClear(o);
    NewReady(o, (a: int) => 0 as byte);
    hide Laid, Ready, Clear;
  }

  lemma FinalSent(o: Options, s: State)
    requires IsSmall(o) && Warm(o, s)
    ensures Final().frame.Valid() && Ready(o, s) && !Fate(o, s, Final()).Dropped?
  {
    hide Laid, Take, Type7Mode6CmdOffset, CurrentBox, UpdateRect, Refresh, Ready, Fate, Lit, RingAfter, TileOffset;
    var last := Final();
    ElsewhereBox(o, last);
    CanServe(o, Lit(), ELSEWHERE, false, InTime);
    OneTaken(10 * PerFrame(o));
    GoesAsTile(o, s, last);
  }

  lemma OnlyOneDropped(o: Options, frames: seq<Input>, states: seq<State>)
    requires |frames| == 12 && |states| == 13 && (forall i :: 0 <= i < 10 ==> frames[i] == First())
    requires !FullInstead(o, states[10], frames[10]) && !Fate(o, states[11], frames[11]).Dropped?
    ensures DropsAlone(o, frames, states)
  {
    forall i | 0 <= i < 10 ensures !Fate(o, states[i], frames[i]).Dropped? {
      FirstAlways(o, states[i]);
    }
    hide Fate, FullInstead;
  }

  lemma FirstAlways(o: Options, s: State)
    ensures Fate(o, s, First()).SentFull?
  {
    FirstIs();
    hide CurrentBox, Refresh, Take, First;
  }

  lemma LastShown(o: Options, codec: Codec, frames: seq<Input>, states: seq<State>)
    requires |frames| == 12 && |states| == 13 && AllShown(o, codec, frames, states, 12)
    requires !Fate(o, states[11], frames[11]).Dropped?
    ensures frames[11].frame.Valid() && OnScreen(o, codec, states[12], frames[11].frame.Shown())
  {
    hide Fate, OnScreen;
    var i := 11;
    assert states[i + 1] == states[12];
  }
}
