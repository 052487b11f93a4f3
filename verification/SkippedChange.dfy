/** A run of capture callback and sender in which a skipped frame leaves the screen wrong: its dirty box is lost
    with it. */
module SkippedChange {
  import opened Wrappers
  import opened Canvas
  import opened Pictures
  import opened Scheduler
  import opened PartialUpdates
  import opened Refinement
  import opened RingLayout
  import opened DefaultRing
  import opened WarmUp
  import opened ForgottenChanges
  import opened AsyncDisplay
  import M = Mailbox

  /** The bright pixel comes with the eleventh frame, which reports it. */
  function Footage(): Film {
    (c: M.Content) => if c < 10 then First() else if c == 10 then Captured(Lit(), SPOT, false, InTime) else Final()
  }

  ghost predicate IsFootage(o: Options, codec: Codec, worlds: seq<World>, events: seq<Event>) {
    IsRun(o, codec, Footage(), Fresh(), worlds, events)
  }

  /** Between two frames: the mailbox is empty, and nobody is busy. */
  predicate Quiet(m: M.State) {
    m.callbacks == [M.Idle] && m.latest.None? && m.spare.None? && !m.stopped && m.sender.Running?
  }

  /** The mailbox after one more frame has gone through it. */
  function Passed(m: M.State, c: M.Content): M.State {
    m.(heap := m.heap[m.unused := c], unused := m.unused + 1, captured := m.captured + 1, begun := m.begun + 1,
       stored := m.stored + [c], taken := m.taken + [c])
  }

  lemma Onward(o: Options, codec: Codec, worlds: seq<World>, events: seq<Event>, e: Event)
    returns (all: seq<World>, done: seq<Event>)
    requires IsFootage(o, codec, worlds, events) && Enabled(o, Footage(), worlds[|events|], e)
    ensures IsFootage(o, codec, all, done) && |done| == |events| + 1 && all[0] == worlds[0]
    ensures all[|done|] == Step(o, codec, Footage(), worlds[|events|], e)
  {
    hide Starts, Enabled, Step, Fresh, Footage;
    all, done := worlds + [Step(o, codec, Footage(), worlds[|events|], e)], events + [e];
  }

  /** A callback brings a frame into the mailbox. */
  lemma Brought(o: Options, codec: Codec, worlds: seq<World>, events: seq<Event>, c: M.Content)
    returns (all: seq<World>, done: seq<Event>)
    requires IsFootage(o, codec, worlds, events) && Quiet(worlds[|events|].mail)
    ensures IsFootage(o, codec, all, done) && all[0] == worlds[0]
    ensures var w := worlds[|events|];
            all[|done|] == w.(arrived := w.arrived + [c],
                              mail := Passed(w.mail, c).(latest := Some(w.mail.unused), taken := w.mail.taken))
  {
    hide IsFootage, Footage;
    all, done := Onward(o, codec, worlds, events, Event(M.CallbackArrives(0, c, false), false));
    all, done := Onward(o, codec, all, done, Event(M.CallbackPicks(0, true), false));
    all, done := Onward(o, codec, all, done, Event(M.CallbackCopies(0), false));
    all, done := Onward(o, codec, all, done, Event(M.CallbackStores(0), false));
  }

  /** The sender takes it and sends it. */
  lemma TakenAndSent(o: Options, codec: Codec, worlds: seq<World>, events: seq<Event>, m: M.State, c: M.Content)
    returns (all: seq<World>, done: seq<Event>)
    requires IsFootage(o, codec, worlds, events) && Quiet(m)
    requires var w := worlds[|events|];
             w.mail == Passed(m, c).(latest := Some(m.unused), taken := m.taken)
             && w.history != [] && Ready(o, w.Display()) && Footage()(c).frame.Valid()
    ensures IsFootage(o, codec, all, done) && all[0] == worlds[0]
    ensures var w := worlds[|events|];
            all[|done|] == w.(mail := Passed(m, c), sent := w.sent + [c],
                              history := w.history + [SendFrame(o, codec, w.Display(), Footage()(c)).0])
  {
    hide IsFootage, Footage, SendFrame, Ready;
    all, done := Onward(o, codec, worlds, events, Event(M.SenderLooks, false));
    all, done := Onward(o, codec, all, done, Event(M.SenderSent(true, false, false), true));
  }

  function UpTo(n: nat): (s: seq<M.Content>)
    ensures |s| == n
  {
    seq(n, i => i)
  }

  /** A frame goes through the mailbox and is sent. */
  function Through(o: Options, codec: Codec, w: World, c: M.Content): World
    requires w.history != [] && Ready(o, w.Display()) && Footage()(c).frame.Valid()
  {
    w.(arrived := w.arrived + [c], mail := Passed(w.mail, c), sent := w.sent + [c],
       history := w.history + [SendFrame(o, codec, w.Display(), Footage()(c)).0])
  }

  lemma GoesThrough(o: Options, codec: Codec, worlds: seq<World>, events: seq<Event>, c: M.Content)
    returns (all: seq<World>, done: seq<Event>)
    requires IsFootage(o, codec, worlds, events) && Quiet(worlds[|events|].mail)
    requires var w := worlds[|events|]; w.history != [] && Ready(o, w.Display()) && Footage()(c).frame.Valid()
    ensures IsFootage(o, codec, all, done) && all[0] == worlds[0]
    ensures all[|done|] == Through(o, codec, worlds[|events|], c)
  {
    assert |worlds| == |events| + 1;
    hide IsFootage, Footage, SendFrame, Ready;
    var m := worlds[|events|].mail;
    all, done := Brought(o, codec, worlds, events, c);
    all, done := TakenAndSent(o, codec, all, done, m, c);
  }

  /** The first `n` frames have gone through, none was skipped, and the screen is dark. */
  ghost predicate DarkAfter(o: Options, codec: Codec, w: World, n: nat) {
    && Quiet(w.mail) && w.mail.skipped == 0 && w.arrived == UpTo(n) && w.sent == UpTo(n) && |w.history| == n + 1
    && n <= 10 && Warming(o, w.Display(), n) && (n > 0 ==> OnScreen(o, codec, w.Display(), Dark().Shown()))
  }

  lemma OneMoreDark(o: Options, codec: Codec, w: World, n: nat)
    requires IsSmall(o) && n < 10 && DarkAfter(o, codec, w, n)
    ensures Ready(o, w.Display()) && Footage()(n).frame.Valid() && DarkAfter(o, codec, Through(o, codec, w, n), n + 1)
  {
    hide Ready, SendFrame, OnScreen, First, Serviceable, Fitted, Harmless, RingAfter, IsSmall, Warming, Sound, Dark,
         TileOffset, Fate,
         FullInstead;
    FootageAt(n);
    FirstIs();
    var s := w.Display();
    WarmingReady(o, s, n);
    WarmingSound(o, s, n);
    SmallServed(o);
    WarmState(o, codec, s, n, First());
    WarmScreen(o, codec, s, First());
    SmallHarmless(o, codec, s, First());
    assert UpTo(n + 1) == UpTo(n) + [n];
  }

  lemma FootageAt(c: M.Content)
    ensures Footage()(c) ==
              if c < 10 then First() else if c == 10 then Captured(Lit(), SPOT, false, InTime) else Final()
  {
    hide First, Final, Captured;
  }

  lemma SmallServed(o: Options)
    requires IsSmall(o)
    ensures Serviceable(o, First()) && Fitted(o, DEFAULT_RING, First()) && First().frame.Valid()
  {
    CanServe(o, Dark(), EVERYTHING, true, InTime);
    hide Serviceable, Fitted, Dark;
  }

  lemma WarmingSound(o: Options, s: State, n: nat)
    requires n <= 10 && Warming(o, s, n)
    ensures Sound(s.ring) && SameRing(s.ring, DEFAULT_RING)
  {
    WarmRing(s.ring, n * PerFrame(o));
    hide Ready;
  }

  const QUIET := M.State(None, None, false, [M.Idle], M.Running, map[], 0, 0, 0, 0, [], [])

  /** The first ten frames go through one after the other. */
  lemma {:induction false} TenDark(o: Options, codec: Codec, n: nat) returns (worlds: seq<World>, events: seq<Event>)
    requires IsSmall(o) && n <= 10
    ensures IsFootage(o, codec, worlds, events) && |worlds| == |events| + 1 && |worlds[0].mail.callbacks| == 1
    ensures DarkAfter(o, codec, worlds[|events|], n)
  {
    if n == 0 {
      FreshClear(o);
      hide Ready, Clear;
      worlds, events := [World(QUIET, [], [], [Fresh()])], [];
      assert RingAfter(0) == DEFAULT_RING;
    } else {
      worlds, events := TenDark(o, codec, n - 1);
      hide Warming, IsFootage, Through, OnScreen, Ready, IsSmall;
      OneMoreDark(o, codec, worlds[|events|], n - 1);
      worlds, events := GoesThrough(o, codec, worlds, events, n - 1);
      RunLength(o, codec, worlds, events);
    }
  }

  /** A skipped frame: ten frames are shown; the eleventh comes while the mailbox is locked, and is skipped;
      the twelfth goes out as a tile. No frame is dropped, and the screen does not show the last one. */
  lemma SkippedFrame(o: Options, codec: Codec) returns (worlds: seq<World>, events: seq<Event>)
    requires IsSmall(o) && Contrasts(codec)
    ensures IsRun(o, codec, Footage(), Fresh(), worlds, events) && |worlds[0].mail.callbacks| == 1
    ensures var w := worlds[|events|];
            w.mail.skipped == 1 && w.arrived == UpTo(12) && Continuous(o, Frames(Footage(), w.arrived))
            && w.sent == UpTo(10) + [11] && |w.history| == 12 && Fate(o, w.history[10], Footage()(11)).SentTile?
            && Footage()(11).frame.Valid() && !OnScreen(o, codec, w.Display(), Footage()(11).frame.Shown())
  {
    hide Ready, SendFrame, OnScreen, IsFootage, Fate, Continuous, Frames, Through, Warming, IsSmall, Contrasts, Footage;
    worlds, events := TenDark(o, codec, 10);
    var before := worlds[|events|];
    worlds, events := Skipped(o, codec, worlds, events, 10);
    var w := worlds[|events|];
    LastLost(o, codec, before, w);
    worlds, events := GoesThrough(o, codec, worlds, events, 11);
    FootageContinuous(o);
    FootageRun(o, codec, worlds, events);
  }

  lemma LastLost(o: Options, codec: Codec, before: World, w: World)
    requires IsSmall(o) && Contrasts(codec) && DarkAfter(o, codec, before, 10)
    requires w
          == before.(arrived := UpTo(10) + [10], mail := before.mail.(skipped := 1, begun := before.mail.begun + 1))
    ensures w.history != [] && Ready(o, w.Display()) && Footage()(11).frame.Valid() && Quiet(w.mail)
    ensures var t := Through(o, codec, w, 11);
            t.mail.skipped == 1 && t.arrived == UpTo(12) && t.sent == UpTo(10) + [11] && |t.history| == 12
            && Fate(o, t.history[10], Footage()(11)).SentTile?
            && !OnScreen(o, codec, t.Display(), Footage()(11).frame.Shown())
  {
    hide Ready, SendFrame, OnScreen, Fate, Final, Warm, Warming, Footage, Dark, Lit, IsSmall, Contrasts, UpTo,
         UpdateRect;
    var s := w.Display();
    TenWarm(o, s);
    FootageAt(11);
    FinalIsTile(o, s);
    FinalMisses(o, codec, s);
    TwelveCame();
  }

  lemma TenWarm(o: Options, s: State)
    requires Warming(o, s, 10)
    ensures Warm(o, s) && s.lastBox.None? && Ready(o, s)
  {
    hide Ready;
  }

  lemma TwelveCame()
    ensures UpTo(10) + [10] + [11] == UpTo(12)
  {
  }

  lemma FootageRun(o: Options, codec: Codec, worlds: seq<World>, events: seq<Event>)
    requires IsFootage(o, codec, worlds, events)
    ensures IsRun(o, codec, Footage(), Fresh(), worlds, events)
  {
    hide IsRun;
  }

  lemma Skipped(o: Options, codec: Codec, worlds: seq<World>, events: seq<Event>, c: M.Content)
    returns (all: seq<World>, done: seq<Event>)
    requires IsFootage(o, codec, worlds, events) && Quiet(worlds[|events|].mail)
    ensures IsFootage(o, codec, all, done) && |all| == |done| + 1 && all[0] == worlds[0]
    ensures var w := worlds[|events|];
            all[|done|] == w.(arrived := w.arrived + [c],
                              mail := w.mail.(skipped := w.mail.skipped + 1, begun := w.mail.begun + 1))
  {
    hide Footage, IsRun;
    all, done := Onward(o, codec, worlds, events, Event(M.CallbackArrives(0, c, true), false));
    assert |all| == |done| + 1 by { RunLength(o, codec, all, done); }
  }

  lemma RunLength(o: Options, codec: Codec, worlds: seq<World>, events: seq<Event>)
    requires IsFootage(o, codec, worlds, events)
    ensures |worlds| == |events| + 1
  {
    hide Starts, Enabled, Step;
  }

  lemma FootageContinuous(o: Options)
    requires IsSmall(o)
    ensures Continuous(o, Frames(Footage(), UpTo(12)))
  {
    hide Continuous, AllFitted, Captured, First, Lit, Final, IsSmall, Footage;
    var spot := Captured(Lit(), SPOT, false, InTime);
    forall c: nat | c < 12 ensures Footage()(c) == (Repeated(First(), 10) + [spot, Final()])[c] { FootageAt(c); }
    assert Frames(Footage(), UpTo(12)) == Repeated(First(), 10) + [spot, Final()];
    LitFrame(SPOT, false, InTime);
    FinalLit();
    AllContinuous(o, [spot, Final()]);
  }
}
