/** The first frames of a new sender: as long as the scheduler asks for resets every frame goes out in full. */
module WarmUp {
  import opened Wrappers
  import opened Bytes
  import opened Canvas
  import opened Pictures
  import opened Geometry
  import opened Scheduler
  import opened PartialUpdates
  import opened PartialRuns
  import opened Refinement
  import opened DefaultRing

  /** The least image that the device takes for one. */
  const SOI: seq<byte> := [0xFF, 0xD8]

  /** A captured frame whose images are as small as can be. */
  function Captured(frame: Frame, dirty: DirtySummary, fullish: bool, clock: Clock): Input {
    Input(frame, dirty, fullish, false, clock, clock, SOI, SOI, SOI)
  }

  /** How many packets a full frame is. */
  function PerFrame(o: Options): nat { if o.setupMode.PairedType4Type7? then 2 else 1 }

  /** The ring after so many packets of the least length. */
  function RingAfter(packets: nat): (r: Ring)
    requires packets <= 30
    ensures r.initial == DEFAULT_RING.initial && r.wrap == DEFAULT_RING.wrap
  {
    DEFAULT_RING.(addr := 0x0320_0000 + packets * 2016, resets := if packets < 10 then 10 - packets else 0)
  }

  lemma OneTaken(packets: nat)
    requires packets < 30
    ensures Next(RingAfter(packets), 2016) == RingAfter(packets + 1)
    ensures Take(RingAfter(packets), 2016).addr == 0x0320_0000 + packets * 2016
    ensures packets >= 10 ==> !Take(RingAfter(packets), 2016).reset
  {
  }

  /** A new sender after `n` full frames. */
  predicate Warming(o: Options, s: State, n: nat)
    requires n <= 10
  {
    && Ready(o, s) && s.sentFrames == n && s.lastBox.None? && s.slot == n % 3 && s.ring == RingAfter(n * PerFrame(o))
    && (if n == 0 then s.fb.None? else s.fb.Some? && s.base == SlotBase((n - 1) % 3))
  }

  lemma FullState(o: Options, codec: Codec, s: State, in': Input)
    requires s.slot < 3 && in'.frame.Valid() && in'.fullClock.InTime?
    ensures var t := SendFull(o, codec, s, in').0;
            var one := Next(s.ring, Type7Mode6CmdOffset(|in'.full|));
            t.slot == (s.slot + 1) % 3 && t.base == SlotBase(s.slot)
            && t.ring == if o.setupMode.PairedType4Type7? then Next(one, Type7Mode6CmdOffset(|in'.pair|)) else one
  {
    hide Take, Next, Type7Mode6CmdOffset, Options.Turned, SetupPacket, TilePacket, Receive, NextFence;
  }

  /** One more full frame. */
  lemma WarmState(o: Options, codec: Codec, s: State, n: nat, in': Input)
    requires n < 10 && Warming(o, s, n) && Serviceable(o, in')
    requires in'.fullish && in'.fullClock.InTime? && |in'.full| == |in'.pair| == 2
    ensures Warming(o, SendFrame(o, codec, s, in').0, n + 1)
  {
    hide SendFull, SendFrame, Laid, Serviceable, Screen, CurrentBox, Refresh, UpdateRect, RingAfter, Next,
         Type7Mode6CmdOffset,
         SlotBase, TileOffset, Take, NextSamples, SourceSamples;
    FrameServes(o, in');
    FullSent(o, codec, s, in');
    FullState(o, codec, s.(lastBox := None), in');
    hide FullInstead;
    OneTaken(n * PerFrame(o));
    if PerFrame(o) == 2 { OneTaken(2 * n + 1); }
    SlotNext(n);
    var shown := ReadOff(SurfaceAt(o, s.base), s.mem);
    ReadOffHolds(SurfaceAt(o, s.base), s.mem);
    HeldIsScreen(o, s, shown);
    FrameShows(o, codec, s, in', shown);
  }

  /** The screen shows it if and only if its paired tile does no harm. */
  lemma WarmScreen(o: Options, codec: Codec, s: State, in': Input)
    requires Ready(o, s) && Serviceable(o, in') && in'.fullish && in'.fullClock.InTime?
    ensures OnScreen(o, codec, SendFrame(o, codec, s, in').0, in'.frame.Shown()) <==> Harmless(o, codec, s, in')
    ensures FullInstead(o, s, in') && Fate(o, s, in').SentFull?
  {
    FrameServes(o, in');
    FullSent(o, codec, s, in');
    hide SendFrame, Serviceable, Screen, NextSamples, Harmless, Fate, FullInstead, Laid;
    var shown := ReadOff(SurfaceAt(o, s.base), s.mem);
    ReadOffHolds(SurfaceAt(o, s.base), s.mem);
    assert Screen(o, s, shown) by { HeldIsScreen(o, s, shown); }
    FrameShows(o, codec, s, in', shown);
    FullIffHarmless(o, codec, s, in', SendFrame(o, codec, s, in').0, shown);
  }

  lemma HeldIsScreen(o: Options, s: State, shown: Samples)
    requires SurfaceAt(o, s.base).Holds(s.mem, shown)
    ensures Screen(o, s, shown)
  {
  }

  lemma SlotNext(n: nat)
    ensures (n % 3 + 1) % 3 == (n + 1) % 3
  {
  }

  lemma FullSent(o: Options, codec: Codec, s: State, in': Input)
    requires Ready(o, s) && in'.frame.Valid() && in'.fullish && in'.fullClock.InTime?
    ensures var t := SendFull(o, codec, s.(lastBox := None), in').0;
            SendFrame(o, codec, s, in').0 == t.(sentFrames := t.sentFrames + 1)
    ensures FullInstead(o, s, in') && Fate(o, s, in').SentFull?
  {
    hide Laid, SendSetup, SendTile, Options.Turned, CurrentBox, Refresh, UpdateRect, SendPartial, Type7Mode6CmdOffset,
         Next, Take,
         NextFence, PairBox;
  }

  lemma FrameServes(o: Options, in': Input)
    requires Serviceable(o, in')
    ensures in'.frame.Valid() && Type7Mode6CmdOffset(2) == 2016
  {
  }

  // ---- runs that begin with it ----

  function Repeated(in': Input, n: nat): (f: seq<Input>)
    ensures |f| == n
  {
    seq(n, i => in')
  }

  lemma More(o: Options, codec: Codec, s: State, frames: seq<Input>, states: seq<State>, in': Input)
    requires Played(o, codec, s, frames, states) && Ready(o, states[|frames|]) && in'.frame.Valid()
    ensures Played(o, codec, s, frames + [in'], states + [SendFrame(o, codec, states[|frames|], in').0])
  {
    hide Ready, SendFrame;
  }

  lemma {:induction false} WarmedUp(o: Options, codec: Codec, mem: Memory, in': Input, n: nat)
    returns (states: seq<State>)
    requires Laid(o) && Serviceable(o, in') && n <= 10
    requires in'.fullish && in'.fullClock.InTime? && |in'.full| == |in'.pair| == 2
    ensures Played(o, codec, NewSender(mem), Repeated(in', n), states) && Warming(o, states[n], n)
    ensures n > 0 ==> Warming(o, states[n - 1], n - 1) && Ready(o, states[n - 1])
                      && (OnScreen(o, codec, states[n], in'.frame.Shown()) <==> Harmless(o, codec, states[n - 1], in'))
  {
    if n == 0 {
      NewReady(o, mem);
      hide Laid;
      states := [NewSender(mem)];
    } else {
      hide *;
      states := WarmedUp(o, codec, mem, in', n - 1);
      var s := states[n - 1];
      WarmingReady(o, s, n - 1);
      FrameServes(o, in');
      WarmState(o, codec, s, n - 1, in');
      WarmScreen(o, codec, s, in');
      RepeatedMore(o, codec, mem, in', n - 1, states);
      More(o, codec, NewSender(mem), Repeated(in', n - 1), states, in');
      states := states + [SendFrame(o, codec, s, in').0];
    }
  }

  lemma WarmingReady(o: Options, s: State, n: nat)
    requires n <= 10 && Warming(o, s, n)
    ensures Ready(o, s)
  {
    hide Ready;
  }

  lemma RepeatedMore(o: Options, codec: Codec, mem: Memory, in': Input, n: nat, states: seq<State>)
    requires Played(o, codec, NewSender(mem), Repeated(in', n), states)
    ensures |states| == n + 1 && Repeated(in', n + 1) == Repeated(in', n) + [in']
  {
    hide Ready, SendFrame;
  }
}
