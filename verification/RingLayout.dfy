/** Where the command ring lies: rings that are clear of the canvases, and the default ring, which is not for
    large displays. */
module RingLayout {
  import opened Wrappers
  import opened Bytes
  import opened Canvas
  import opened Geometry
  import opened Pictures
  import opened Scheduler
  import opened VideoHeaders
  import opened PartialUpdates
  import opened PartialRuns
  import opened Refinement

  // ---- addresses ----

  /** No sample outside a rectangle lies in a range of addresses. */
  ghost predicate Spared(k: Surface, b: Box, addr: int, len: nat) {
    && (forall x: nat,
        y: nat :: x < k.width && y < k.height && !b.Has(Point(x, y)) ==> !(addr <= k.Luma(x, y) < addr + len))
    && (forall i: nat, j: nat, c: nat :: i < k.width / 2 && j < k.height / 2 && c < 2 && !b.Has(Point(2 * i, 2 * j)) ==>
          !(addr <= k.Chroma(i, j, c) < addr + len))
  }

  /** A packet that lies beside the samples outside its rectangle does no harm. */
  lemma SparedRight(o: Options, codec: Codec, job: Job, in': Input)
    requires in'.frame.Valid()
    requires Spared(SurfaceAt(o, job.base), job.box, job.packet.address, |job.packet.payload|)
    ensures RightOutside(o, codec, job, SourceSamples(o, codec, in'.frame.Shown()), in')
  {
    hide Surface.Luma, Surface.Chroma, SourceSamples;
  }

  ghost predicate Spares(o: Options, s: State, in': Input)
    requires Sized(o) && BoxOk(o, s.lastBox) && in'.frame.Valid() && s.slot < 3
  {
    var job := JobOf(o, s, in');
    job.Some? ==>
      Spared(SurfaceAt(o, job.value.base), job.value.box, job.value.packet.address, |job.value.packet.payload|)
  }

  lemma SparesHarmless(o: Options, codec: Codec, s: State, in': Input)
    requires Sized(o) && BoxOk(o, s.lastBox) && in'.frame.Valid() && s.slot < 3 && Spares(o, s, in')
    ensures Harmless(o, codec, s, in')
  {
    hide JobOf, RightOutside, Spared;
    var job := JobOf(o, s, in');
    if job.Some? { SparedRight(o, codec, job.value, in'); }
  }

  // ---- rings that are clear of the canvases ----

  predicate SameRing(r: Ring, q: Ring) { r.initial == q.initial && r.wrap == q.wrap }

  /** A packet of this length can be placed in the ring. */
  predicate Placeable(ring: Ring, offset: u32) { Fits(ring, offset) && ring.wrap + offset < TWO32 }

  /** The packets of a frame can be placed in the ring, and get as much room as they are long. */
  predicate Fitted(o: Options, ring: Ring, in': Input) {
    && Placeable(ring, Type7Mode6CmdOffset(|in'.full|)) && Placeable(ring, Type7Mode6CmdOffset(|in'.tile|))
    && Placeable(ring, Type7Mode6CmdOffset(|in'.pair|)) && Placeable(ring, TileOffset(o, |in'.tile|))
    && Type7Mode6CmdOffset(|in'.tile|) <= TileOffset(o, |in'.tile|)
  }

  /** In the legacy ring mode a tile gets as much room as it is long exactly up to 3 MB. */
  lemma LegacyRoom(jpegLen: nat)
    requires jpegLen + 0x450 <= TWO32
    ensures Type7Mode6CmdOffset(jpegLen) <= JpegOffset(48 + jpegLen) <==> jpegLen + 0x450 <= 3 * MB
  {
    var a := AlignedTo1K(jpegLen);
    assert jpegLen + 0x450 <= a < jpegLen + 0x450 + 0x400 && a % 0x400 == 0;
    hide AlignedTo1K;
    assert a <= TWO32;
  }

  lemma PlacedInside(ring: Ring, offset: u32)
    requires Sound(ring) && Placeable(ring, offset)
    ensures Sound(Next(ring, offset)) && SameRing(Next(ring, offset), ring) && Inside(ring, Take(ring, offset))
  {
    TakeInside(ring, offset);
  }

  lemma FullRing(o: Options, codec: Codec, s: State, in': Input)
    requires Sound(s.ring) && Fitted(o, s.ring, in') && in'.frame.Valid() && s.slot < 3
    ensures var t := SendFull(o, codec, s, in').0; Sound(t.ring) && SameRing(t.ring, s.ring)
  {
    var one := Next(s.ring, Type7Mode6CmdOffset(|in'.full|));
    PlacedInside(s.ring, Type7Mode6CmdOffset(|in'.full|));
    PlacedInside(one, Type7Mode6CmdOffset(|in'.pair|));
    hide Take, Next, Type7Mode6CmdOffset, TileOffset, Options.Turned, Receive, SetupPacket, TilePacket, Sound;
  }

  lemma PartialRing(o: Options, codec: Codec, s: State, in': Input, b: Box)
    requires Sound(s.ring) && Fitted(o, s.ring, in') && in'.frame.Valid() && s.slot < 3
    ensures var t := SendPartial(o, codec, s, in', b).0; Sound(t.ring) && SameRing(t.ring, s.ring)
  {
    var full, tile, room := Type7Mode6CmdOffset(|in'.full|), Type7Mode6CmdOffset(|in'.tile|), TileOffset(o, |in'.tile|);
    PlacedInside(s.ring, full);
    PlacedInside(Next(s.ring, full), tile);
    PlacedInside(s.ring, room);
    var placed := s.(nextFence := NextFence(s.nextFence), ring := Next(s.ring, room), lastBox := None);
    hide Take, Next, Type7Mode6CmdOffset, TileOffset, Options.Turned, Receive, SetupPacket, TilePacket, Sound, SendFull,
         NextFence;
    FullRing(o, codec, placed, in');
  }

  lemma FrameRing(o: Options, codec: Codec, s: State, in': Input)
    requires Sound(s.ring) && Fitted(o, s.ring, in') && in'.frame.Valid() && Ready(o, s)
    ensures var t := SendFrame(o, codec, s, in').0; Sound(t.ring) && SameRing(t.ring, s.ring)
  {
    assert Sized(o);
    hide SendFull, SendPartial, Sound, Fitted, CurrentBox, Refresh, UpdateRect, Laid;
    FullRing(o, codec, s.(lastBox := None), in');
    var noted, rect := s.(lastBox := CurrentBox(o, in')), UpdateRect(o, s.lastBox, in');
    if rect.Some? { PartialRing(o, codec, noted, in', rect.value); }
  }

  /** Where the packet of a tile lies. */
  lemma JobInside(o: Options, s: State, in': Input)
    requires Sound(s.ring) && Fitted(o, s.ring, in') && in'.frame.Valid() && Ready(o, s)
    ensures var job := JobOf(o, s, in');
            job.Some? ==>
              s.ring.initial <= job.value.packet.address
              && job.value.packet.address + |job.value.packet.payload| <= s.ring.wrap
              && (s.fb.Some? || Fate(o, s, in').SentFull? ==> job.value.base in ALLOCATED_BASES)
  {
    var room := TileOffset(o, |in'.tile|);
    PlacedInside(s.ring, room);
    var entered := Entered(o, s, in').ring;
    PlacedInside(entered, Type7Mode6CmdOffset(|in'.full|));
    PlacedInside(Next(entered, Type7Mode6CmdOffset(|in'.full|)), Type7Mode6CmdOffset(|in'.pair|));
    JobLengths(o, s, in');
    hide Take, Next, Type7Mode6CmdOffset, TileOffset, Options.Turned, TilePacket, UpdateRect, CurrentBox, Refresh,
         FullInstead, Laid;
  }

  lemma JobLengths(o: Options, s: State, in': Input)
    requires in'.frame.Valid() && Ready(o, s)
    ensures var e := Entered(o, s, in');
            e.slot == s.slot && |PairJob(o, e, in').packet.payload| == Type7Mode6CmdOffset(|in'.pair|)
    ensures forall b: Box :: |TileJob(o, s, b, in').packet.payload| == Type7Mode6CmdOffset(|in'.tile|)
  {
    hide Take, Next, Type7Mode6CmdOffset, TileOffset, Options.Turned, Laid, PlaneAddrs, Type7Header.ToBytes, Cropped;
  }

  /** No sample of a canvas lies in the ring. */
  ghost predicate Clear(o: Options, ring: Ring) {
    Sound(ring) && forall i :: 0 <= i < 3 ==>
      Spared(SurfaceAt(o, ALLOCATED_BASES[i]), NOWHERE, ring.initial, ring.wrap - ring.initial)
  }

  lemma ClearSpares(o: Options, s: State, in': Input)
    requires Clear(o, s.ring) && Fitted(o, s.ring, in') && in'.frame.Valid() && Ready(o, s)
    ensures Spares(o, s, in')
  {
    assert Sized(o) && (Fate(o, s, in').SentTile? ==> s.fb.Some?);
    hide JobOf, Fitted, Fate, SurfaceAt, Laid, Spared;
    JobInside(o, s, in');
    var job := JobOf(o, s, in');
    if job.Some? {
      JobSent(o, s, in');
      var i :| 0 <= i < 3 && ALLOCATED_BASES[i] == job.value.base;
      SparedPart(SurfaceAt(o, job.value.base), s.ring, job.value.box, job.value.packet.address,
                 |job.value.packet.payload|);
    }
  }

  lemma JobSent(o: Options, s: State, in': Input)
    requires in'.frame.Valid() && Ready(o, s) && JobOf(o, s, in').Some?
    ensures Fate(o, s, in').SentFull? || (Fate(o, s, in').SentTile? && s.fb.Some?)
  {
    hide CurrentBox, UpdateRect, TileJob, FullJob, Laid;
  }

  lemma SparedPart(k: Surface, ring: Ring, b: Box, addr: nat, len: nat)
    requires ring.initial <= ring.wrap && Spared(k, NOWHERE, ring.initial, ring.wrap - ring.initial)
    requires ring.initial <= addr && addr + len <= ring.wrap
    ensures Spared(k, b, addr, len)
  {
    hide Surface.Luma, Surface.Chroma;
  }

  ghost predicate AllFitted(o: Options, ring: Ring, frames: seq<Input>) {
    forall i :: 0 <= i < |frames| ==> Fitted(o, ring, frames[i])
  }

  lemma {:induction false} ClearKept(o: Options, codec: Codec, s: State, frames: seq<Input>, states: seq<State>, n: nat)
    requires Sound(s.ring) && AllFitted(o, s.ring, frames) && Played(o, codec, s, frames, states) && n <= |frames|
    ensures Sound(states[n].ring) && SameRing(states[n].ring, s.ring)
    decreases n
  {
    if n > 0 {
      ClearKept(o, codec, s, frames, states, n - 1);
      assert Fitted(o, states[n - 1].ring, frames[n - 1]);
      hide Fitted, Ready, SendFrame, Sound;
      FrameRing(o, codec, states[n - 1], frames[n - 1]);
    }
  }

  /** With a ring clear of the canvases no packet of any run does harm. */
  lemma ClearRun(o: Options, codec: Codec, s: State, frames: seq<Input>, states: seq<State>)
    requires Clear(o, s.ring) && AllFitted(o, s.ring, frames) && Played(o, codec, s, frames, states)
    ensures AllHarmless(o, codec, frames, states, |frames|)
  {
    forall i | 0 <= i < |frames|
      ensures Ready(o, states[i]) && frames[i].frame.Valid() && Harmless(o, codec, states[i], frames[i])
    {
      ClearKept(o, codec, s, frames, states, i);
      hide Harmless, SendFrame, Spares;
      assert Fitted(o, states[i].ring, frames[i]);
      assert Clear(o, states[i].ring);
      ClearSpares(o, states[i], frames[i]);
      SparesHarmless(o, codec, states[i], frames[i]);
    }
  }
}
