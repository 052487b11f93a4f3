/** Runs whose dirty boxes cover what changes: when the screen shows every frame, and when the sender of tiles
    refines one of full frames. */
module Refinement {
  import opened Wrappers
  import opened Bytes
  import opened Canvas
  import opened Geometry
  import opened Pictures
  import opened Tiles
  import opened PartialUpdates
  import opened PartialRuns

  // ---- dirty boxes that cover what changed ----

  /** Two source pictures are the same in the frame, except perhaps in a box. */
  ghost predicate SameBut(o: Options, a: Picture, b: Picture, box: Option<Box>) {
    forall p: Point :: InFrame(p, o.width, o.height) && (box.Some? ==> !box.value.Has(p)) ==> a(p) == b(p)
  }

  /** The dirty box covers what changed since the picture handed over before. */
  ghost predicate CoversChange(o: Options, in': Input, handed: Picture)
    requires in'.frame.Valid()
  {
    SameBut(o, handed, in'.frame.Shown(), CurrentBox(o, in'))
  }

  /** Every frame can be served, and its dirty box covers what changed since the frame before it. */
  ghost predicate Continuous(o: Options, frames: seq<Input>) {
    && AllServiceable(o, frames)
    && (forall i :: 0 < i < |frames| ==> CoversChange(o, frames[i], frames[i - 1].frame.Shown()))
  }

  // ---- one frame ----

  /** The tile packet of this frame, if it sends one, does no harm: stored over a canvas that shows the frame it would
      change no sample outside the rectangle that is drawn after it. */
  ghost predicate Harmless(o: Options, codec: Codec, s: State, in': Input)
    requires Sized(o) && BoxOk(o, s.lastBox) && in'.frame.Valid() && s.slot < 3
  {
    var job := JobOf(o, s, in');
    job.Some? ==> RightOutside(o, codec, job.value, SourceSamples(o, codec, in'.frame.Shown()), in')
  }

  /** What the screen shows differs from the frame handed over last at most in the box remembered. */
  ghost predicate Behind(o: Options, s: State, shown: Picture, handed: Picture) {
    SameBut(o, shown, handed, None) || SameBut(o, shown, handed, s.lastBox)
  }

  /** Pictures that differ in a box at most have the same samples outside any rectangle around the turned box. */
  lemma TurnedSame(o: Options, codec: Codec, k: Surface, a: Picture, b: Picture, box: Box, tile: Box)
    requires Sized(o) && box.Nonempty() && box.Within(o.width, o.height) && SameBut(o, a, b, Some(box))
    requires Covers(tile, RotateBbox(box, o.width, o.height, o.rotate)) && EvenEdges(tile)
    requires k.Good() && k.width == o.OutWidth() && k.height == o.OutHeight()
    ensures SameOutside(k, tile, SourceSamples(o, codec, a), SourceSamples(o, codec, b))
  {
    forall p: Point | InFrame(p, k.width, k.height) && !tile.Has(p) ensures o.Turned(a)(p) == o.Turned(b)(p) {
      TurnedPixel(o, a, b, box, tile, p);
    }
    AgreeSameOutside(codec, k, tile, o.Turned(a), o.Turned(b));
    hide Options.Turned, SameOutside, EvenEdges, Surface.Good;
  }

  lemma TurnedPixel(o: Options, a: Picture, b: Picture, box: Box, tile: Box, p: Point)
    requires Sized(o) && box.Nonempty() && box.Within(o.width, o.height) && SameBut(o, a, b, Some(box))
    requires Covers(tile, RotateBbox(box, o.width, o.height, o.rotate))
    requires InFrame(p, o.OutWidth(), o.OutHeight()) && !tile.Has(p)
    ensures o.Turned(a)(p) == o.Turned(b)(p)
  {
    CoordinatesInverse(p, o.width, o.height, o.rotate);
    assert InOutput(p, o.width, o.height, o.rotate);
    var q := SourceCoordinate(p, o.width, o.height, o.rotate);
    RotateBboxImage(box, o.width, o.height, o.rotate, q);
    var r := RotateBbox(box, o.width, o.height, o.rotate);
    assert !r.Has(p);
    hide RotateBbox, OutputCoordinate, SourceCoordinate, InOutput, RotatedSize;
    assert !box.Has(q) && a(q) == b(q);
  }

  /** Outside the union of both boxes the screen and the frame agree. */
  lemma OutsideBoth(
    o: Options, shown: Picture, handed: Picture, frame: Picture, current: Box, last: Option<Box>, box: Box)
    requires SameBut(o, shown, handed, None) || SameBut(o, shown, handed, last)
    requires SameBut(o, handed, frame, Some(current))
    requires Covers(box, current) && (last.Some? ==> Covers(box, last.value))
    ensures SameBut(o, shown, frame, Some(box))
  {
    forall p: Point | InFrame(p, o.width, o.height) && !box.Has(p) ensures shown(p) == frame(p) {
      assert shown(p) == handed(p) && handed(p) == frame(p);
    }
  }

  /** Storing a packet leaves the same samples the same. */
  lemma StoredSame(k: Surface, b: Box, s: Samples, t: Samples, addr: nat, data: seq<byte>)
    requires SameOutside(k, b, s, t)
    ensures SameOutside(k, b, Stored(k, s, addr, data), Stored(k, t, addr, data))
  {
    hide Surface.Luma, Surface.Chroma;
  }

  lemma SameChain(k: Surface, b: Box, s: Samples, t: Samples, u: Samples)
    requires SameOutside(k, b, s, t)
    ensures SameOutside(k, b, s, u) <==> SameOutside(k, b, t, u)
  {
  }

  /** A frame that is sent, as a tile or in full, with a dirty box that covers what changed: the screen shows it
      if and only if its tile packet does no harm. */
  lemma ShownIffHarmless(o: Options, codec: Codec, s: State, in': Input, shown: Picture, handed: Picture)
    requires Ready(o, s) && Serviceable(o, in') && !Fate(o, s, in').Dropped?
    requires s.fb.Some? ==> OnScreen(o, codec, s, shown) && Behind(o, s, shown, handed) && CoversChange(o, in', handed)
    ensures var t := SendFrame(o, codec, s, in').0;
            Ready(o, t) && t.fb.Some? && (OnScreen(o, codec, t, in'.frame.Shown()) <==> Harmless(o, codec, s, in'))
  {
    assert Fate(o, s, in').SentTile? ==> s.fb.Some?;
    hide SendFrame, Screen, SourceSamples, RightOutside, FullInstead, CurrentBox, UpdateRect, Laid;
    FrameShows(o, codec, s, in', SourceSamples(o, codec, shown));
    if Fate(o, s, in').SentTile? {
      TileIffHarmless(o, codec, s, in', shown, handed);
    } else {
      FullIffHarmless(o, codec, s, in', SendFrame(o, codec, s, in').0, SourceSamples(o, codec, shown));
    }
    hide Serviceable, NextSamples, JobOf;
  }

  lemma FullIffHarmless(o: Options, codec: Codec, s: State, in': Input, t: State, shown: Samples)
    requires Ready(o, s) && Serviceable(o, in') && Fate(o, s, in').SentFull?
    requires Screen(o, t, NextSamples(o, codec, s, in', shown))
    ensures OnScreen(o, codec, t, in'.frame.Shown()) <==> Harmless(o, codec, s, in')
  {
    var job, picture := JobOf(o, s, in'), o.Turned(in'.frame.Shown());
    var frame := SamplesOf(codec, picture);
    hide Screen, Fate, Serviceable, JobOf, Laid, StoredBy, SamplesOf, SameOutside, Painted;
    if job.Some? {
      ShownExactly(o, t, AfterJob(o, codec, job.value, frame, picture), frame);
      var k := SurfaceAt(o, job.value.base);
      SameSize(k, SurfaceAt(o, 0), NOWHERE, Painted(StoredBy(o, job.value, frame), job.value.box, frame), frame);
      PaintedRight(k, job.value.box, StoredBy(o, job.value, frame), frame);
    }
  }

  lemma TileIffHarmless(o: Options, codec: Codec, s: State, in': Input, shown: Picture, handed: Picture)
    requires Ready(o, s) && Serviceable(o, in') && Fate(o, s, in').SentTile?
    requires OnScreen(o, codec, s, shown) && Behind(o, s, shown, handed) && CoversChange(o, in', handed)
    ensures OnScreen(o, codec, SendFrame(o, codec, s, in').0, in'.frame.Shown()) <==> Harmless(o, codec, s, in')
  {
    var frame := in'.frame.Shown();
    TileExact(o, codec, s, in', SourceSamples(o, codec, shown));
    RectCovers(o, s.lastBox, in');
    SurfaceIs(o, s.base);
    var job := JobOf(o, s, in').value;
    var current := CurrentBox(o, in').value;
    var box := DirtyBox(o, current, s.lastBox);
    hide SendFrame, Screen, Fate, Serviceable, JobOf, Laid, SameBut, Covers, RotateBbox, DirtyBox, CurrentBox,
         UpdateRect, EvenEdges,
         SameOutside, SourceSamples, Stored, Surface.Good;
    OutsideBoth(o, shown, handed, frame, current, s.lastBox, box);
    var k := SurfaceAt(o, s.base);
    TurnedSame(o, codec, k, shown, frame, box, job.box);
    StoredSame(k, job.box, SourceSamples(o, codec, shown), SourceSamples(o, codec, frame), job.packet.address,
               job.packet.payload);
    SameChain(k, job.box, StoredBy(o, job, SourceSamples(o, codec, shown)),
              StoredBy(o, job, SourceSamples(o, codec, frame)),
              SourceSamples(o, codec, frame));
  }

  // ---- whole runs ----

  /** Late frames are dropped one at a time, and only where a tile would have gone out. */
  ghost predicate DropsAlone(o: Options, frames: seq<Input>, states: seq<State>)
    requires |states| == |frames| + 1
  {
    forall i :: 0 <= i < |frames| && Fate(o, states[i], frames[i]).Dropped? ==>
      !FullInstead(o, states[i], frames[i]) && i > 0 && !Fate(o, states[i - 1], frames[i - 1]).Dropped?
  }

  /** Every frame of the first `n` that is sent is shown. */
  ghost predicate AllShown(o: Options, codec: Codec, frames: seq<Input>, states: seq<State>, n: nat)
    requires n <= |frames| < |states|
  {
    forall i :: 0 <= i < n && !Fate(o, states[i], frames[i]).Dropped? ==>
      frames[i].frame.Valid() && OnScreen(o, codec, states[i + 1], frames[i].frame.Shown())
  }

  ghost predicate AllHarmless(o: Options, codec: Codec, frames: seq<Input>, states: seq<State>, n: nat)
    requires n <= |frames| < |states|
  {
    forall i :: 0 <= i < n ==>
             Ready(o, states[i]) && frames[i].frame.Valid() && Harmless(o, codec, states[i], frames[i])
  }

  /** After `n` frames that were all shown: the screen shows the last one, or the one before, and the box of the
      change is remembered. */
  ghost predicate Kept(o: Options, codec: Codec, frames: seq<Input>, states: seq<State>, n: nat)
    requires 0 < n <= |frames| < |states|
  {
    && Ready(o, states[n]) && states[n].fb.Some? && frames[n - 1].frame.Valid()
    && if Fate(o, states[n - 1], frames[n - 1]).Dropped? then
         n > 1 && frames[n - 2].frame.Valid() && OnScreen(o, codec, states[n], frames[n - 2].frame.Shown())
         && SameBut(o, frames[n - 2].frame.Shown(), frames[n - 1].frame.Shown(), states[n].lastBox)
       else OnScreen(o, codec, states[n], frames[n - 1].frame.Shown())
  }

  lemma KeptSent(
    o: Options, codec: Codec, s: State, frames: seq<Input>, states: seq<State>, n: nat)
    requires Continuous(o, frames) && Played(o, codec, s, frames, states) && n < |frames|
    requires Ready(o, states[n]) && !Fate(o, states[n], frames[n]).Dropped?
    requires if n == 0 then states[n].fb.None? else Kept(o, codec, frames, states, n)
    ensures Ready(o, states[n + 1]) && states[n + 1].fb.Some?
    ensures OnScreen(o, codec, states[n + 1], frames[n].frame.Shown()) <==> Harmless(o, codec, states[n], frames[n])
  {
    OneServiceable(o, frames, n);
    hide SendFrame, OnScreen, Fate, Harmless, Ready, SameBut, Serviceable;
    if n == 0 {
      ShownIffHarmless(o, codec, states[0], frames[0], frames[0].frame.Shown(), frames[0].frame.Shown());
    } else {
      assert CoversChange(o, frames[n], frames[n - 1].frame.Shown());
      hide CoversChange;
      Reflexive(o, frames[n - 1].frame.Shown());
      var shown := frames[if Fate(o, states[n - 1], frames[n - 1]).Dropped? then n - 2 else n - 1].frame.Shown();
      ShownIffHarmless(o, codec, states[n], frames[n], shown, frames[n - 1].frame.Shown());
    }
  }

  lemma KeptDropped(
    o: Options, codec: Codec, s: State, frames: seq<Input>, states: seq<State>, n: nat)
    requires Continuous(o, frames) && Played(o, codec, s, frames, states) && n < |frames|
    requires DropsAlone(o, frames, states)
    requires Ready(o, states[n]) && Fate(o, states[n], frames[n]).Dropped? && n > 0 && Kept(o, codec, frames, states, n)
    ensures Kept(o, codec, frames, states, n + 1) && Harmless(o, codec, states[n], frames[n])
  {
    OneServiceable(o, frames, n);
    assert CoversChange(o, frames[n], frames[n - 1].frame.Shown());
    assert !FullInstead(o, states[n], frames[n]) && !Fate(o, states[n - 1], frames[n - 1]).Dropped?;
    FrameShows(o, codec, states[n], frames[n], SourceSamples(o, codec, frames[n - 1].frame.Shown()));
    hide SendFrame, Surface.Holds, Fate, SameBut, Serviceable, FullInstead, SourceSamples, Laid, CurrentBox;
  }

  lemma Reflexive(o: Options, a: Picture)
    ensures SameBut(o, a, a, None)
  {
  }

  lemma {:induction false} ShownToHarmless(
    o: Options, codec: Codec, s: State, frames: seq<Input>, states: seq<State>, n: nat)
    requires Ready(o, s) && s.fb.None? && Continuous(o, frames) && Played(o, codec, s, frames, states)
    requires DropsAlone(o, frames, states) && n <= |frames|
    ensures Ready(o, states[n])
    ensures AllShown(o, codec, frames, states, n) <==> AllHarmless(o, codec, frames, states, n)
    ensures AllShown(o, codec, frames, states, n) ==>
              if n == 0 then states[n].fb.None? else Kept(o, codec, frames, states, n)
    decreases n
  {
    if n > 0 {
      hide Fate, Ready, OnScreen, Harmless, SendFrame, SameBut, Continuous, DropsAlone, AllShown, AllHarmless, Kept;
      ShownToHarmless(o, codec, s, frames, states, n - 1);
      RunReady(o, codec, s, frames, states, n);
      RunReady(o, codec, s, frames, states, n - 1);
      OneMore(o, codec, frames, states, n - 1);
      if AllShown(o, codec, frames, states, n - 1) { LastOne(o, codec, s, frames, states, n - 1); }
    } else {
      hide Fate, Ready, OnScreen, Harmless;
    }
  }

  lemma OneMore(o: Options, codec: Codec, frames: seq<Input>, states: seq<State>, n: nat)
    requires n < |frames| < |states|
    ensures AllShown(o, codec, frames, states, n + 1) <==>
              AllShown(o, codec, frames, states, n)
              && (!Fate(o, states[n], frames[n]).Dropped? ==>
                    frames[n].frame.Valid() && OnScreen(o, codec, states[n + 1], frames[n].frame.Shown()))
    ensures AllHarmless(o, codec, frames, states, n + 1) <==>
              AllHarmless(o, codec, frames, states, n)
              && Ready(o, states[n]) && frames[n].frame.Valid() && Harmless(o, codec, states[n], frames[n])
  {
    hide OnScreen, Fate, Harmless, Ready;
  }

  lemma LastOne(o: Options, codec: Codec, s: State, frames: seq<Input>, states: seq<State>, n: nat)
    requires s.fb.None? && Continuous(o, frames) && Played(o, codec, s, frames, states) && DropsAlone(o, frames, states)
    requires n < |frames| && Ready(o, states[n]) && frames[n].frame.Valid()
    requires if n == 0 then states[n].fb.None? else Kept(o, codec, frames, states, n)
    ensures Harmless(o, codec, states[n], frames[n])
       <==> (!Fate(o, states[n], frames[n]).Dropped? ==> OnScreen(o, codec, states[n + 1], frames[n].frame.Shown()))
    ensures Harmless(o, codec, states[n], frames[n]) ==> Kept(o, codec, frames, states, n + 1)
  {
    hide Fate, Ready, OnScreen, Harmless, SendFrame, SameBut, Continuous, DropsAlone;
    if Fate(o, states[n], frames[n]).Dropped? {
      if n == 0 { FirstSent(o, codec, s, frames, states); }
      KeptDropped(o, codec, s, frames, states, n);
    } else {
      KeptSent(o, codec, s, frames, states, n);
    }
  }

  lemma RunReady(o: Options, codec: Codec, s: State, frames: seq<Input>, states: seq<State>, n: nat)
    requires Ready(o, s) && s.fb.None? && Continuous(o, frames) && Played(o, codec, s, frames, states) && n <= |frames|
    ensures Ready(o, states[n]) && forall i :: 0 <= i < n ==> frames[i].frame.Valid()
  {
    hide Ready, SendFrame, Advances, ShownAfter;
    RunShown(o, codec, s, frames, states, Samples((x: nat, y: nat) => 0, (i: nat, j: nat, c: nat) => 0), n);
  }

  lemma FirstSent(o: Options, codec: Codec, s: State, frames: seq<Input>, states: seq<State>)
    requires s.fb.None? && Played(o, codec, s, frames, states) && DropsAlone(o, frames, states) && frames != []
    ensures !Fate(o, states[0], frames[0]).Dropped?
  {
    hide Fate;
  }

  /** If every dirty box covers what changed since the frame before, and late tiles are dropped one at a time,
      the screen shows every frame that is sent if and only if no tile packet does harm. */
  lemma RunShows(o: Options, codec: Codec, s: State, frames: seq<Input>, states: seq<State>)
    requires Ready(o, s) && s.fb.None? && Continuous(o, frames) && Played(o, codec, s, frames, states)
    requires DropsAlone(o, frames, states)
    ensures AllShown(o, codec, frames, states, |frames|) <==> AllHarmless(o, codec, frames, states, |frames|)
  {
    ShownToHarmless(o, codec, s, frames, states, |frames|);
  }

  /** Without drops that is every frame. */
  lemma NoDrops(o: Options, codec: Codec, s: State, frames: seq<Input>, states: seq<State>)
    requires !o.dropLateFrames && Played(o, codec, s, frames, states)
    ensures DropsAlone(o, frames, states)
    ensures forall i :: 0 <= i < |frames| ==> !Fate(o, states[i], frames[i]).Dropped?
  {
    hide FullInstead;
  }

  /** A single tile that is dropped is made good by the next frame that is sent, if that does no harm. */
  lemma DroppedTileRepaired(o: Options, codec: Codec, s: State, lost: Input, next: Input, handed: Picture)
    requires Ready(o, s) && Serviceable(o, lost) && Serviceable(o, next) && s.fb.Some?
    requires OnScreen(o, codec, s, handed) && CoversChange(o, lost, handed) && CoversChange(o, next, lost.frame.Shown())
    requires !FullInstead(o, s, lost) && TileLate(o, lost)
    ensures var t := SendFrame(o, codec, s, lost).0;
            Ready(o, t)
            && (!Fate(o, t, next).Dropped? ==>
                  (OnScreen(o, codec, SendFrame(o, codec, t, next).0, next.frame.Shown())
                   <==> Harmless(o, codec, t, next)))
  {
    FrameShows(o, codec, s, lost, SourceSamples(o, codec, handed));
    TileDropped(o, s, lost);
    var t := SendFrame(o, codec, s, lost).0;
    assert SameBut(o, handed, lost.frame.Shown(), t.lastBox);
    hide Serviceable, SendFrame, FullInstead, Laid, Surface.Holds, SameBut, SourceSamples, Fate, Harmless;
    assert OnScreen(o, codec, t, handed);
    if !Fate(o, t, next).Dropped? { ShownIffHarmless(o, codec, t, next, handed, lost.frame.Shown()); }
  }

  // ---- partial updates refine full frames ----

  /** The simple sender: every frame is sent in full. */
  ghost predicate PlayedFull(o: Options, codec: Codec, s: State, frames: seq<Input>, states: seq<State>) {
    && |states| == |frames| + 1 && states[0] == s
    && forall i :: 0 <= i < |frames| ==>
         Ready(o, states[i]) && frames[i].frame.Valid() && states[i + 1] == SendFull(o, codec, states[i], frames[i]).0
  }

  /** The paired tile of a full frame does no harm. */
  ghost predicate FullHarmless(o: Options, codec: Codec, s: State, in': Input)
    requires in'.frame.Valid() && s.slot < 3
  {
    var job := FullJob(o, s, in');
    job.Some? ==> RightOutside(o, codec, job.value, SourceSamples(o, codec, in'.frame.Shown()), in')
  }

  lemma {:induction false} FullRunShows(
    o: Options, codec: Codec, s: State, frames: seq<Input>, states: seq<State>, n: nat)
    requires Ready(o, s) && !o.dropLateFrames
    requires AllServiceable(o, frames) && PlayedFull(o, codec, s, frames, states) && n <= |frames|
    ensures Ready(o, states[n])
    ensures n > 0 ==> (OnScreen(o, codec, states[n], frames[n - 1].frame.Shown())
                       <==> FullHarmless(o, codec, states[n - 1], frames[n - 1]))
    decreases n
  {
    if n > 0 {
      FullRunShows(o, codec, s, frames, states, n - 1);
      OneServiceable(o, frames, n - 1);
      FullShows(o, codec, states[n - 1], frames[n - 1]);
      hide Serviceable, Ready, Screen, SendFull, FullJob, AfterJob, RightOutside, SamplesOf, AllServiceable;
      FullRight(o, codec, states[n - 1], frames[n - 1], states[n]);
    }
  }

  lemma FullRight(o: Options, codec: Codec, s: State, in': Input, t: State)
    requires in'.frame.Valid() && s.slot < 3
    requires var picture := o.Turned(in'.frame.Shown());
             Screen(o, t, AfterSome(o, codec, FullJob(o, s, in'), SamplesOf(codec, picture), picture))
    ensures OnScreen(o, codec, t, in'.frame.Shown()) <==> FullHarmless(o, codec, s, in')
  {
    var job, picture := FullJob(o, s, in'), o.Turned(in'.frame.Shown());
    var frame := SamplesOf(codec, picture);
    hide Screen, FullJob, StoredBy, SamplesOf, SameOutside, Painted;
    if job.Some? {
      ShownExactly(o, t, AfterJob(o, codec, job.value, frame, picture), frame);
      var k := SurfaceAt(o, job.value.base);
      SameSize(k, SurfaceAt(o, 0), NOWHERE, Painted(StoredBy(o, job.value, frame), job.value.box, frame), frame);
      PaintedRight(k, job.value.box, StoredBy(o, job.value, frame), frame);
    }
  }

  /** Every sample of one canvas equals the sample of the other at the same place. */
  ghost predicate SameCanvas(k: Surface, mem: Memory, other: Surface, otherMem: Memory) {
    && k.width == other.width && k.height == other.height
    && (forall x: nat, y: nat :: x < k.width && y < k.height ==> mem(k.Luma(x, y)) == otherMem(other.Luma(x, y)))
    && (forall i: nat, j: nat, c: nat :: i < k.width / 2 && j < k.height / 2 && c < 2 ==>
          mem(k.Chroma(i, j, c)) == otherMem(other.Chroma(i, j, c)))
  }

  /** Partial updates refine full frames, without drops: if no paired tile of the sender of full frames does harm,
      the canvas of the partial sender equals that of the other, sample for sample after every frame, if and only
      if no tile packet of the partial sender does harm. */
  lemma PartialRefinesFull(
    o: Options, codec: Codec, s: State, frames: seq<Input>, states: seq<State>, full: seq<State>)
    requires Ready(o, s) && s.fb.None? && !o.dropLateFrames && Continuous(o, frames)
    requires Played(o, codec, s, frames, states) && PlayedFull(o, codec, s, frames, full)
    requires forall i :: 0 <= i < |frames| ==> FullHarmless(o, codec, full[i], frames[i])
    ensures (forall n :: 0 < n <= |frames| ==>
               SameCanvas(SurfaceAt(o, states[n].base), states[n].mem, SurfaceAt(o, full[n].base), full[n].mem))
       <==> AllHarmless(o, codec, frames, states, |frames|)
  {
    hide Fate, SameCanvas, Ready, SendFrame, SendFull, Harmless, FullHarmless, Surface.Holds, Continuous;
    NoDrops(o, codec, s, frames, states);
    RunShows(o, codec, s, frames, states);
    RunReady(o, codec, s, frames, states, |frames|);
    forall n | 0 < n <= |frames|
      ensures SameCanvas(SurfaceAt(o, states[n].base), states[n].mem, SurfaceAt(o, full[n].base), full[n].mem)
         <==> OnScreen(o, codec, states[n], frames[n - 1].frame.Shown())
    {
      assert AllServiceable(o, frames) by { ContinuousServes(o, frames); }
      FullRunShows(o, codec, s, frames, full, n);
      CanvasSame(codec, SurfaceAt(o, states[n].base), states[n].mem, SurfaceAt(o, full[n].base), full[n].mem,
                 SourceSamples(o, codec, frames[n - 1].frame.Shown()));
    }
    hide OnScreen;
    assert AllShown(o, codec, frames, states, |frames|)
      <==> forall n :: 0 < n <= |frames| ==> OnScreen(o, codec, states[n], frames[n - 1].frame.Shown()) by {
      ShownCounts(o, codec, frames, states);
    }
  }

  lemma ContinuousServes(o: Options, frames: seq<Input>)
    requires Continuous(o, frames)
    ensures AllServiceable(o, frames)
  {
  }

  lemma ShownCounts(o: Options, codec: Codec, frames: seq<Input>, states: seq<State>)
    requires |states| == |frames| + 1 && forall i :: 0 <= i < |frames| ==>
               !Fate(o, states[i], frames[i]).Dropped? && frames[i].frame.Valid()
    ensures AllShown(o, codec, frames, states, |frames|)
       <==> forall n :: 0 < n <= |frames| ==> OnScreen(o, codec, states[n], frames[n - 1].frame.Shown())
  {
    hide OnScreen, Fate;
    if AllShown(o, codec, frames, states, |frames|) {
      forall n | 0 < n <= |frames| ensures OnScreen(o, codec, states[n], frames[n - 1].frame.Shown()) {
        var i := n - 1;
        assert OnScreen(o, codec, states[i + 1], frames[i].frame.Shown());
      }
    }
  }

  lemma CanvasSame(codec: Codec, k: Surface, mem: Memory, other: Surface, otherMem: Memory, s: Samples)
    requires k.width == other.width && k.height == other.height && other.Holds(otherMem, s)
    ensures SameCanvas(k, mem, other, otherMem) <==> k.Holds(mem, s)
  {
    hide Surface.Luma, Surface.Chroma;
    if SameCanvas(k, mem, other, otherMem) {
      forall x: nat, y: nat | x < k.width && y < k.height ensures mem(k.Luma(x, y)) == s.luma(x, y) {
        assert otherMem(other.Luma(x, y)) == s.luma(x, y);
      }
      forall i: nat, j: nat, c: nat | i < k.width / 2 && j < k.height / 2
             && c < 2 ensures mem(k.Chroma(i, j, c)) == s.chroma(i, j, c) {
        assert otherMem(other.Chroma(i, j, c)) == s.chroma(i, j, c);
      }
    }
    if k.Holds(mem, s) {
      forall x: nat, y: nat | x < k.width && y < k.height ensures mem(k.Luma(x, y)) == otherMem(other.Luma(x, y)) {
        assert otherMem(other.Luma(x, y)) == s.luma(x, y) && mem(k.Luma(x, y)) == s.luma(x, y);
      }
      forall i: nat, j: nat, c: nat | i < k.width / 2 && j < k.height / 2 && c < 2
        ensures mem(k.Chroma(i, j, c)) == otherMem(other.Chroma(i, j, c))
      {
        assert otherMem(other.Chroma(i, j, c)) == s.chroma(i, j, c) && mem(k.Chroma(i, j, c)) == s.chroma(i, j, c);
      }
    }
  }
}
