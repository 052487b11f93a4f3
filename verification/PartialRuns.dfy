/** Whole runs of the display sender: exactly what is on the screen after every frame, wherever the command
    ring lies, whatever is dropped and whatever the dirty boxes say. */
module PartialRuns {
  import opened Wrappers
  import opened Canvas
  import opened Geometry
  import opened Pictures
  import opened Tiles
  import opened PartialUpdates

  // ---- runs ----

  /** The frames of a run, one after the other. */
  ghost predicate Played(o: Options, codec: Codec, s: State, frames: seq<Input>, states: seq<State>) {
    && |states| == |frames| + 1 && states[0] == s
    && forall i :: 0 <= i < |frames| ==>
         Ready(o, states[i]) && frames[i].frame.Valid() && states[i + 1] == SendFrame(o, codec, states[i], frames[i]).0
  }

  ghost predicate AllServiceable(o: Options, frames: seq<Input>) {
    forall i :: 0 <= i < |frames| ==> Serviceable(o, frames[i])
  }

  /** The samples on the screen after `n` frames, if `first` were on it before: a full frame replaces them, a tile
      replaces those of its rectangle, a packet those over which it is stored; a dropped frame leaves them. */
  ghost function ShownAfter(
    o: Options, codec: Codec, s: State, frames: seq<Input>, states: seq<State>, first: Samples, n: nat): Samples
    requires Played(o, codec, s, frames, states) && n <= |frames|
  {
    if n == 0 then first
    else
      assert Ready(o, states[n - 1]);
      NextSamples(o, codec, states[n - 1], frames[n - 1], ShownAfter(o, codec, s, frames, states, first, n - 1))
  }

  /** In every run the current canvas holds exactly these samples. */
  lemma {:induction false} RunShown(
    o: Options, codec: Codec, s: State, frames: seq<Input>, states: seq<State>, first: Samples, n: nat)
    requires Ready(o, s) && (s.fb.Some? ==> Screen(o, s, first))
    requires AllServiceable(o, frames) && Played(o, codec, s, frames, states) && n <= |frames|
    ensures Ready(o, states[n])
    ensures states[n].fb.Some? ==> Screen(o, states[n], ShownAfter(o, codec, s, frames, states, first, n))
    ensures n > 0 ==> Advances(o, states[n - 1], frames[n - 1], states[n])
    decreases n
  {
    hide Screen, SendFrame, NextSamples, Advances, AllServiceable, ShownAfter;
    if n == 0 {
      ShownFirst(o, codec, s, frames, states, first);
    } else {
      RunShown(o, codec, s, frames, states, first, n - 1);
      assert Serviceable(o, frames[n - 1]) by { OneServiceable(o, frames, n - 1); }
      hide Serviceable;
      ShownNext(o, codec, s, frames, states, first, n);
      FrameShows(o, codec, states[n - 1], frames[n - 1], ShownAfter(o, codec, s, frames, states, first, n - 1));
      AdvancesReady(o, states[n - 1], frames[n - 1], states[n]);
      hide Ready;
    }
  }

  lemma OneServiceable(o: Options, frames: seq<Input>, i: nat)
    requires AllServiceable(o, frames) && i < |frames|
    ensures Serviceable(o, frames[i])
  {
  }

  lemma AdvancesReady(o: Options, s: State, in': Input, t: State)
    requires Advances(o, s, in', t)
    ensures Ready(o, t)
  {
  }

  lemma ShownFirst(o: Options, codec: Codec, s: State, frames: seq<Input>, states: seq<State>, first: Samples)
    requires Played(o, codec, s, frames, states)
    ensures ShownAfter(o, codec, s, frames, states, first, 0) == first
  {
  }

  lemma ShownNext(o: Options, codec: Codec, s: State, frames: seq<Input>, states: seq<State>, first: Samples, n: nat)
    requires Played(o, codec, s, frames, states) && 0 < n <= |frames|
    ensures Ready(o, states[n - 1])
    ensures ShownAfter(o, codec, s, frames, states, first, n)
         == NextSamples(o, codec, states[n - 1], frames[n - 1], ShownAfter(o, codec, s, frames, states, first, n - 1))
  {
    hide NextSamples, SendFrame;
  }

  /** All samples are the same. */
  ghost predicate SameSamples(o: Options, s: Samples, t: Samples) { SameOutside(SurfaceAt(o, 0), NOWHERE, s, t) }

  lemma SameSize(k: Surface, other: Surface, b: Box, s: Samples, t: Samples)
    requires k.width == other.width && k.height == other.height
    ensures SameOutside(k, b, s, t) <==> SameOutside(other, b, s, t)
  {
  }

  /** A screen that holds some samples holds others exactly if they are the same. */
  lemma ShownExactly(o: Options, s: State, shown: Samples, other: Samples)
    requires Screen(o, s, shown)
    ensures Screen(o, s, other) <==> SameSamples(o, shown, other)
  {
    hide Surface.Holds, SameOutside;
    HoldsBoth(SurfaceAt(o, s.base), s.mem, shown, other);
    SameSize(SurfaceAt(o, s.base), SurfaceAt(o, 0), NOWHERE, shown, other);
  }

  /** So after a frame the screen is right if and only if those are the samples of the frame. */
  lemma RunExact(o: Options, codec: Codec, s: State, frames: seq<Input>, states: seq<State>, first: Samples, n: nat)
    requires Ready(o, s) && (s.fb.Some? ==> Screen(o, s, first))
    requires AllServiceable(o, frames) && Played(o, codec, s, frames, states) && 0 < n <= |frames|
    ensures states[n].fb.Some? ==>
              (OnScreen(o, codec, states[n], frames[n - 1].frame.Shown())
               <==> SameSamples(o, ShownAfter(o, codec, s, frames, states, first, n),
                                SourceSamples(o, codec, frames[n - 1].frame.Shown())))
  {
    RunShown(o, codec, s, frames, states, first, n);
    hide Played, ShownAfter, AllServiceable, Screen, SourceSamples, Ready, SameSamples, Advances;
    if states[n].fb.Some? {
      ShownExactly(o, states[n], ShownAfter(o, codec, s, frames, states, first, n),
                   SourceSamples(o, codec, frames[n - 1].frame.Shown()));
    }
  }

  // ---- the exact condition for a tile ----

  /** What a tile leaves is the frame: outside its rectangle every sample, read once the packet is stored, is
      that of the frame. */
  ghost predicate RightOutside(o: Options, codec: Codec, job: Job, shown: Samples, in': Input)
    requires in'.frame.Valid()
  {
    SameOutside(SurfaceAt(o, job.base), job.box, StoredBy(o, job, shown), SourceSamples(o, codec, in'.frame.Shown()))
  }

  /** A tile puts the screen right if and only if that is so. This holds for every tile: after frames that
      were sent, dropped, or never handed over, and for packets over the canvas or beside it. */
  lemma TileExact(o: Options, codec: Codec, s: State, in': Input, shown: Samples)
    requires Ready(o, s) && Serviceable(o, in') && Screen(o, s, shown) && Fate(o, s, in').SentTile?
    ensures var t, job := SendFrame(o, codec, s, in').0, JobOf(o, s, in');
            job.Some? && job.value.base == s.base && UpdateRect(o, s.lastBox, in') == Some(job.value.box)
            && (OnScreen(o, codec, t, in'.frame.Shown()) <==> RightOutside(o, codec, job.value, shown, in'))
  {
    FrameShows(o, codec, s, in', shown);
    RectCovers(o, s.lastBox, in');
    var t, job := SendFrame(o, codec, s, in').0, JobOf(o, s, in').value;
    var frame := SourceSamples(o, codec, in'.frame.Shown());
    assert Screen(o, t, AfterJob(o, codec, job, shown, o.Turned(in'.frame.Shown())));
    hide SendFrame, Serviceable, Screen, SameOutside, Fate, Laid, UpdateRect, CurrentBox, EvenEdges, StoredBy, Painted,
         JobOf,
         SamplesOf;
    ShownExactly(o, t, AfterJob(o, codec, job, shown, o.Turned(in'.frame.Shown())), frame);
    SameSize(SurfaceAt(o, s.base), SurfaceAt(o, 0), NOWHERE, Painted(StoredBy(o, job, shown), job.box, frame), frame);
    PaintedRight(SurfaceAt(o, s.base), job.box, StoredBy(o, job, shown), frame);
  }

  /** While frames are dropped the screen stays as it was, and only the box of the last one is remembered,
      if a tile would have gone out for it. */
  lemma {:induction false} DropsLeave(
    o: Options, codec: Codec, s: State, frames: seq<Input>, states: seq<State>, shown: Samples, n: nat)
    requires Ready(o, s) && s.fb.Some? && Screen(o, s, shown)
    requires AllServiceable(o, frames) && Played(o, codec, s, frames, states) && n <= |frames|
    requires forall i :: 0 <= i < n ==> Fate(o, states[i], frames[i]).Dropped?
    ensures Ready(o, states[n]) && states[n].fb.Some?
    ensures states[n].base == s.base && states[n].mem == s.mem && Screen(o, states[n], shown)
    ensures n > 0 ==> states[n].lastBox == Remembered(o, states[n - 1], frames[n - 1])
    decreases n
  {
    if n > 0 {
      DropsLeave(o, codec, s, frames, states, shown, n - 1);
      assert Serviceable(o, frames[n - 1]);
      FrameShows(o, codec, states[n - 1], frames[n - 1], shown);
      hide Serviceable, Ready, SendFrame, NextSamples, Fate, Remembered, Surface.Holds;
    }
  }

  /** The exact condition after frames that were dropped: a tile puts the screen right if and only if it does so
      with the rectangle for its own dirty box and the one remembered, on what was on the screen before the drops. */
  lemma LostFrames(o: Options, codec: Codec, s: State, frames: seq<Input>, states: seq<State>, shown: Samples, n: nat)
    requires Ready(o, s) && s.fb.Some? && Screen(o, s, shown)
    requires AllServiceable(o, frames) && Played(o, codec, s, frames, states) && 0 < n < |frames|
    requires forall i :: 0 <= i < n ==> Fate(o, states[i], frames[i]).Dropped?
    requires Fate(o, states[n], frames[n]).SentTile?
    ensures BoxOk(o, Remembered(o, states[n - 1], frames[n - 1]))
    ensures var job := JobOf(o, states[n], frames[n]);
            job.Some? && job.value.base == s.base
            && UpdateRect(o, Remembered(o, states[n - 1], frames[n - 1]), frames[n]) == Some(job.value.box)
            && (OnScreen(o, codec, states[n + 1], frames[n].frame.Shown())
                <==> RightOutside(o, codec, job.value, shown, frames[n]))
  {
    DropsLeave(o, codec, s, frames, states, shown, n);
    assert Serviceable(o, frames[n]);
    hide Serviceable, SendFrame, Fate, Remembered, Screen, RightOutside, UpdateRect, Laid, JobOf;
    TileExact(o, codec, states[n], frames[n], shown);
  }

  /** A full frame dropped for whatever reason leaves nothing behind: only the rectangle of the next dirty
      box is repaired. */
  lemma DroppedFullForgotten(
    o: Options, codec: Codec, s: State, frames: seq<Input>, states: seq<State>, shown: Samples)
    requires Ready(o, s) && s.fb.Some? && Screen(o, s, shown)
    requires AllServiceable(o, frames) && Played(o, codec, s, frames, states) && |frames| == 2
    requires FullInstead(o, s, frames[0]) && FullLate(o, frames[0]) && Fate(o, states[1], frames[1]).SentTile?
    ensures var job := JobOf(o, states[1], frames[1]);
            job.Some? && job.value.base == s.base && UpdateRect(o, None, frames[1]) == Some(job.value.box)
            && (OnScreen(o, codec, states[2], frames[1].frame.Shown())
                <==> RightOutside(o, codec, job.value, shown, frames[1]))
  {
    LostFrames(o, codec, s, frames, states, shown, 1);
    hide FullInstead, Screen, RightOutside, UpdateRect, SendFrame, JobOf;
  }

  /** Of two tiles dropped one after the other only the second leaves its box behind: the box of the
      first is not repaired. */
  lemma SecondDropForgets(o: Options, codec: Codec, s: State, frames: seq<Input>, states: seq<State>, shown: Samples)
    requires Ready(o, s) && s.fb.Some? && Screen(o, s, shown)
    requires AllServiceable(o, frames) && Played(o, codec, s, frames, states) && |frames| == 3
    requires forall i :: 0 <= i < 2 ==> !FullInstead(o, states[i], frames[i]) && TileLate(o, frames[i])
    requires Fate(o, states[2], frames[2]).SentTile?
    ensures BoxOk(o, CurrentBox(o, frames[1]))
    ensures var job := JobOf(o, states[2], frames[2]);
            job.Some? && job.value.base == s.base
            && UpdateRect(o, CurrentBox(o, frames[1]), frames[2]) == Some(job.value.box)
            && (OnScreen(o, codec, states[3], frames[2].frame.Shown())
                <==> RightOutside(o, codec, job.value, shown, frames[2]))
  {
    hide FullInstead, Screen, RightOutside, UpdateRect, SendFrame, JobOf, Fate, Remembered, Ready, AllServiceable;
    forall i | 0 <= i < 2 ensures Fate(o, states[i], frames[i]).Dropped? {
      TileDropped(o, states[i], frames[i]);
    }
    TileDropped(o, states[1], frames[1]);
    LostFrames(o, codec, s, frames, states, shown, 2);
  }

  lemma TileDropped(o: Options, s: State, in': Input)
    requires !FullInstead(o, s, in') && TileLate(o, in')
    ensures Fate(o, s, in').Dropped? && Remembered(o, s, in') == CurrentBox(o, in')
  {
    hide FullInstead, CurrentBox;
  }

  /** A frame that comes when others were skipped before it, so that its dirty box covers less than what
      changed since the frame handed over last: the screen showed that one, and is right afterwards if
      and only if the tile puts it right. */
  lemma SkippedForgotten(o: Options, codec: Codec, s: State, frames: seq<Input>, states: seq<State>, n: nat)
    requires Ready(o, s) && s.fb.None? && AllServiceable(o, frames) && Played(o, codec, s, frames, states)
    requires 0 < n < |frames| && states[n].fb.Some? && OnScreen(o, codec, states[n], frames[n - 1].frame.Shown())
    requires Fate(o, states[n], frames[n]).SentTile?
    ensures var job, shown := JobOf(o, states[n], frames[n]), SourceSamples(o, codec, frames[n - 1].frame.Shown());
            job.Some? && job.value.base == states[n].base
            && UpdateRect(o, states[n].lastBox, frames[n]) == Some(job.value.box)
            && (OnScreen(o, codec, states[n + 1], frames[n].frame.Shown())
                <==> RightOutside(o, codec, job.value, shown, frames[n]))
  {
    var shown := SourceSamples(o, codec, frames[n - 1].frame.Shown());
    RunShown(o, codec, s, frames, states, shown, n);
    assert Serviceable(o, frames[n]);
    hide Serviceable, SendFrame, Fate, Screen, RightOutside, UpdateRect, Laid, ShownAfter, JobOf, SourceSamples;
    TileExact(o, codec, states[n], frames[n], shown);
  }
}
