/** The mailbox and the sender together (async_frame_callback, async_sender_loop and send_frame in
    t6-virtual-display.rs): what is on the screen in every interleaving of the threads. */
module AsyncDisplay {
  import opened Wrappers
  import opened Canvas
  import opened Pictures
  import opened PartialUpdates
  import opened PartialRuns
  import opened Refinement
  import M = Mailbox

  /** The captured frames, by what the mailbox calls their content. */
  type Film = M.Content -> Input

  /** The mailbox, the frames that came and the frames that were sent, in order, and the states the sender
      has gone through. */
  datatype World = World(mail: M.State, arrived: seq<M.Content>, sent: seq<M.Content>, history: seq<State>)
  {
    function Display(): State
      requires history != []
    {
      history[|history| - 1]
    }
  }

  /** A step of one of the threads. The sender may give a frame back without sending it, when it has
      reached its frame limit, or end in an error. */
  datatype Event = Event(action: M.Action, sends: bool)

  ghost predicate Enabled(o: Options, film: Film, w: World, e: Event) {
    && M.Enabled(w.mail, e.action)
    && (e.action.SenderSent? && e.sends ==>
          && !e.action.failed && w.mail.sender.id in w.mail.heap
          && w.history != [] && Ready(o, w.Display()) && film(w.mail.heap[w.mail.sender.id]).frame.Valid())
    && (e.action.SenderSent? && !e.sends ==> e.action.failed || e.action.stop)
  }

  /** The frame that is sent is what is in the sender's buffer at that moment. */
  ghost function Step(o: Options, codec: Codec, film: Film, w: World, e: Event): World
    requires Enabled(o, film, w, e)
  {
    var t := w.(mail := M.Step(w.mail, e.action));
    if e.action.CallbackArrives? && !w.mail.stopped then t.(arrived := w.arrived + [e.action.content])
    else if e.action.SenderSent? && e.sends then
      var content := w.mail.heap[w.mail.sender.id];
      t.(sent := w.sent + [content], history := w.history + [SendFrame(o, codec, w.Display(), film(content)).0])
    else t
  }

  ghost predicate IsRun(o: Options, codec: Codec, film: Film, s: State, worlds: seq<World>, events: seq<Event>) {
    && |worlds| == |events| + 1 && Starts(s, worlds[0])
    && forall i :: 0 <= i < |events| ==>
         Enabled(o, film, worlds[i], events[i]) && worlds[i + 1] == Step(o, codec, film, worlds[i], events[i])
  }

  ghost predicate Starts(s: State, w: World) {
    M.Init(w.mail) && w.arrived == [] && w.sent == [] && w.history == [s]
  }

  function Frames(film: Film, contents: seq<M.Content>): (f: seq<Input>)
    ensures |f| == |contents|
  {
    seq(|contents|, i requires 0 <= i < |contents| => film(contents[i]))
  }

  // ---- what the threads keep ----

  /** Every frame taken was sent, but for the one in hand, or the last one before the end. */
  ghost predicate SentWhatWasTaken(w: World) {
    match w.mail.sender
    case Sending(id) => id in w.mail.heap && w.mail.taken == w.sent + [w.mail.heap[id]]
    case Finished => w.sent <= w.mail.taken
    case _ => w.mail.taken == w.sent
  }

  ghost predicate Inv(o: Options, codec: Codec, film: Film, s: State, w: World) {
    && M.Inv(w.mail) && SentWhatWasTaken(w)
    && w.history != [] && Played(o, codec, s, Frames(film, w.sent), w.history)
  }

  lemma PlayedMore(
    o: Options, codec: Codec, film: Film, s: State, sent: seq<M.Content>, history: seq<State>, content: M.Content)
    requires Played(o, codec, s, Frames(film, sent), history)
    requires var d := history[|history| - 1]; Ready(o, d) && film(content).frame.Valid()
    ensures var d := history[|history| - 1];
            Played(o, codec, s, Frames(film, sent + [content]), history + [SendFrame(o, codec, d, film(content)).0])
  {
    hide Ready, SendFrame;
    var f, g := Frames(film, sent), Frames(film, sent + [content]);
    assert forall i :: 0 <= i < |f| ==> g[i] == f[i];
  }

  /** The others leave what the sender has in hand, and the log of what it took. */
  lemma OthersStep(s: M.State, a: M.Action)
    requires M.ContentsKept(s) && M.Enabled(s, a) && M.ContentsKept(M.Step(s, a)) && !a.SenderLooks? && !a.SenderSent?
    ensures var t := M.Step(s, a);
            t.taken == s.taken && (t.sender.Finished? <==> s.sender.Finished?)
            && (t.sender.Sending? <==> s.sender.Sending?)
            && (s.sender.Sending? ==> t.sender == s.sender && t.sender.id in s.heap && t.sender.id in t.heap
                                      && t.heap[t.sender.id] == s.heap[t.sender.id])
  {
  }

  lemma LookStep(s: M.State)
    requires M.Enabled(s, M.SenderLooks)
    ensures var t := M.Step(s, M.SenderLooks);
            if t.sender.Sending? then t.sender.id in t.heap && t.taken == s.taken + [t.heap[t.sender.id]]
            else t.taken == s.taken
  {
  }

  lemma SentStep(s: M.State, a: M.Action)
    requires M.Enabled(s, a) && a.SenderSent?
    ensures var t := M.Step(s, a);
            t.taken == s.taken && (t.sender.Finished? || t.sender.Running?)
            && (a.failed || a.stop ==> t.sender.Finished?)
  {
  }

  /** What the sender has in hand does not change under it. */
  lemma SentKept(o: Options, codec: Codec, film: Film, w: World, e: Event)
    requires M.Inv(w.mail) && SentWhatWasTaken(w) && Enabled(o, film, w, e) && M.Inv(M.Step(w.mail, e.action))
    ensures SentWhatWasTaken(Step(o, codec, film, w, e))
  {
    hide SendFrame, Ready, M.BuffersApart, M.Counted, M.WakeUpPending, M.ContentsKept, M.Step;
    var a := e.action;
    if a.SenderSent? {
      SentStep(w.mail, a);
    } else if a.SenderLooks? {
      assert w.mail.sender.Running? || w.mail.sender.Asleep?;
      LookStep(w.mail);
    } else {
      OthersStep(w.mail, a);
    }
    hide M.Enabled;
  }

  lemma StepInv(o: Options, codec: Codec, film: Film, s: State, w: World, e: Event)
    requires Inv(o, codec, film, s, w) && Enabled(o, film, w, e)
    ensures Inv(o, codec, film, s, Step(o, codec, film, w, e))
  {
    hide M.Inv, M.Step, SentWhatWasTaken, Played, SendFrame, Ready, Frames;
    M.StepInv(w.mail, e.action);
    SentKept(o, codec, film, w, e);
    hide M.Enabled;
    if e.action.SenderSent? && e.sends {
      PlayedMore(o, codec, film, s, w.sent, w.history, w.mail.heap[w.mail.sender.id]);
    }
  }

  /** In every interleaving the sender goes through a run on the frames it was given. */
  lemma {:induction false} Always(
    o: Options, codec: Codec, film: Film, s: State, worlds: seq<World>, events: seq<Event>, n: nat)
    requires IsRun(o, codec, film, s, worlds, events) && n < |worlds|
    ensures Inv(o, codec, film, s, worlds[n])
    decreases n
  {
    if n == 0 {
      M.InitInv(worlds[0].mail);
    } else {
      Always(o, codec, film, s, worlds, events, n - 1);
      hide Inv, Enabled, Step;
      StepInv(o, codec, film, s, worlds[n - 1], events[n - 1]);
    }
  }

  ghost predicate Filmed(o: Options, film: Film) { forall c :: Serviceable(o, film(c)) }

  lemma FilmServes(o: Options, film: Film, contents: seq<M.Content>)
    requires Filmed(o, film)
    ensures AllServiceable(o, Frames(film, contents))
  {
    hide Serviceable;
  }

  lemma FrameIs(film: Film, contents: seq<M.Content>, i: nat)
    requires i < |contents|
    ensures Frames(film, contents)[i] == film(contents[i])
  {
  }

  lemma InvPlayed(o: Options, codec: Codec, film: Film, s: State, w: World)
    requires Inv(o, codec, film, s, w)
    ensures Played(o, codec, s, Frames(film, w.sent), w.history) && |w.history| == |w.sent| + 1
  {
    hide M.Inv, SentWhatWasTaken, Ready, SendFrame;
  }

  /** At every moment of every interleaving the screen shows exactly the samples that the frames sent so far
      leave, and that is the last of them if and only if they are its samples. */
  lemma ShownAlways(
    o: Options, codec: Codec, film: Film, s: State, worlds: seq<World>, events: seq<Event>, n: nat, first: Samples)
    requires IsRun(o, codec, film, s, worlds, events) && n < |worlds|
    requires Ready(o, s) && s.fb.None? && Filmed(o, film)
    ensures var w := worlds[n];
            var frames := Frames(film, w.sent);
            Inv(o, codec, film, s, w) && Ready(o, w.Display())
            && (w.Display().fb.Some? ==>
                  var shown := ShownAfter(o, codec, s, frames, w.history, first, |frames|);
                  Screen(o, w.Display(), shown)
                  && (w.sent != [] ==>
                        (OnScreen(o, codec, w.Display(), frames[|frames| - 1].frame.Shown())
                         <==> SameSamples(o, shown, SourceSamples(o, codec, frames[|frames| - 1].frame.Shown())))))
  {
    Always(o, codec, film, s, worlds, events, n);
    var w := worlds[n];
    var frames := Frames(film, w.sent);
    InvPlayed(o, codec, film, s, w);
    FilmServes(o, film, w.sent);
    hide *;
    RunShown(o, codec, s, frames, w.history, first, |frames|);
    if w.sent != [] { RunExact(o, codec, s, frames, w.history, first, |frames|); }
  }

  // ---- one callback at a time, and none skipped ----

  /** The frame a callback is busy with. */
  function InHand(c: M.Callback): seq<M.Content> {
    match c
    case Admitted(content) => [content]
    case Holding(content, _) => [content]
    case Copied(content, _) => [content]
    case _ => []
  }

  /** The frames came to the sender as they were captured. */
  ghost predicate InOrder(w: World) {
    |w.mail.callbacks| == 1 && (w.mail.skipped == 0 ==> w.arrived == w.mail.stored + InHand(w.mail.callbacks[0]))
  }

  function Came(s: M.State, a: M.Action): seq<M.Content> {
    if a.CallbackArrives? && !s.stopped then [a.content] else []
  }

  /** One callback stores what came, in the order in which it came, or skips it. */
  lemma CallbackStep(s: M.State, a: M.Action)
    requires M.Enabled(s, a) && |s.callbacks| == 1
    ensures var t := M.Step(s, a);
            |t.callbacks| == 1 && t.skipped >= s.skipped
            && (t.skipped == 0 ==>
                  t.stored + InHand(t.callbacks[0]) == s.stored + InHand(s.callbacks[0]) + Came(s, a))
  {
    if a.CallbackArrives? { ArriveStep(s, a); } else if a.CallbackStores? { StoreStep(s, a); }
  }

  lemma ArriveStep(s: M.State, a: M.Action)
    requires M.Enabled(s, a) && |s.callbacks| == 1 && a.CallbackArrives?
    ensures var t := M.Arrive(s, a.i, a.content, a.locked);
            |t.callbacks| == 1 && t.skipped >= s.skipped && t.stored == s.stored
            && (t.skipped == 0 ==> InHand(t.callbacks[0]) == InHand(s.callbacks[0]) + Came(s, a))
  {
  }

  lemma StoreStep(s: M.State, a: M.Action)
    requires M.Enabled(s, a) && |s.callbacks| == 1 && a.CallbackStores?
    ensures var t := M.Store(s, a.i);
            |t.callbacks| == 1 && t.skipped >= s.skipped
            && (t.skipped == 0 ==> t.stored + InHand(t.callbacks[0]) == s.stored + InHand(s.callbacks[0]))
  {
  }

  lemma StepInOrder(o: Options, codec: Codec, film: Film, w: World, e: Event)
    requires InOrder(w) && Enabled(o, film, w, e)
    ensures InOrder(Step(o, codec, film, w, e))
    ensures Step(o, codec, film, w, e).arrived == w.arrived + Came(w.mail, e.action)
  {
    CallbackStep(w.mail, e.action);
    hide SendFrame, Ready, M.Step, M.Enabled, InHand;
  }

  lemma {:induction false} AlwaysInOrder(
    o: Options, codec: Codec, film: Film, s: State, worlds: seq<World>, events: seq<Event>, n: nat)
    requires IsRun(o, codec, film, s, worlds, events) && n < |worlds| && |worlds[0].mail.callbacks| == 1
    ensures InOrder(worlds[n])
    decreases n
  {
    if n > 0 {
      AlwaysInOrder(o, codec, film, s, worlds, events, n - 1);
      hide InOrder, Enabled, Step;
      StepInOrder(o, codec, film, worlds[n - 1], events[n - 1]);
    }
  }

  lemma SentArrived(w: World)
    requires M.Inv(w.mail) && SentWhatWasTaken(w) && InOrder(w) && w.mail.skipped == 0
    ensures w.sent <= w.arrived
  {
    hide M.BuffersApart, M.Counted, M.WakeUpPending;
  }

  /** In every interleaving, as long as no frame was skipped and late tiles are dropped one at a time at most, the
      screen shows every frame that is sent if and only if no tile packet does harm. The frames come from a serial
      queue, one callback at a time, and each dirty box covers what changed since the frame that came before. */
  lemma UnskippedShows(o: Options, codec: Codec, film: Film, s: State, worlds: seq<World>, events: seq<Event>, n: nat)
    requires IsRun(o, codec, film, s, worlds, events) && n < |worlds| && |worlds[0].mail.callbacks| == 1
    requires Ready(o, s) && s.fb.None?
    requires var w := worlds[n];
             w.mail.skipped == 0 && Continuous(o, Frames(film, w.arrived))
             && |w.history| == |w.sent| + 1 && DropsAlone(o, Frames(film, w.sent), w.history)
    ensures var w := worlds[n];
            var frames := Frames(film, w.sent);
            w.sent <= w.arrived
            && (AllShown(o, codec, frames, w.history, |frames|) <==> AllHarmless(o, codec, frames, w.history, |frames|))
  {
    Always(o, codec, film, s, worlds, events, n);
    AlwaysInOrder(o, codec, film, s, worlds, events, n);
    var w := worlds[n];
    InvPlayed(o, codec, film, s, w);
    hide InOrder, SentWhatWasTaken, M.Inv, IsRun, Played, Ready, DropsAlone, AllShown, AllHarmless, Frames, Continuous;
    SentArrived(w);
    PrefixContinuous(o, film, w.sent, w.arrived);
    RunShows(o, codec, s, Frames(film, w.sent), w.history);
  }

  lemma PrefixContinuous(o: Options, film: Film, a: seq<M.Content>, b: seq<M.Content>)
    requires a <= b && Continuous(o, Frames(film, b))
    ensures Continuous(o, Frames(film, a))
  {
    hide Serviceable, CoversChange;
    var f, g := Frames(film, a), Frames(film, b);
    assert forall i :: 0 <= i < |f| ==> f[i] == g[i];
  }

  /** With skipped frames the screen need not be right. If the frame sent last went out as a tile, on a screen that
      showed the frame sent before it, the screen is right if and only if the tile puts it right. */
  lemma SkippedExact(o: Options, codec: Codec, film: Film, s: State, worlds: seq<World>, events: seq<Event>, n: nat)
    requires IsRun(o, codec, film, s, worlds, events) && n < |worlds|
    requires Ready(o, s) && s.fb.None? && Filmed(o, film)
    requires var w := worlds[n];
             |w.sent| >= 2 && |w.history| == |w.sent| + 1
             && TileAfter(o, codec, w.history[|w.sent| - 1], film(w.sent[|w.sent| - 2]), film(w.sent[|w.sent| - 1]))
    ensures var w := worlds[n];
            TileRight(o, codec, w.history[|w.sent| - 1], film(w.sent[|w.sent| - 2]), film(w.sent[|w.sent| - 1]),
                      w.Display())
  {
    hide Inv, Played, TileAfter, TileRight, Ready, AllServiceable, Frames, Step, Enabled;
    Always(o, codec, film, s, worlds, events, n);
    var w := worlds[n];
    InvPlayed(o, codec, film, s, w);
    FilmServes(o, film, w.sent);
    FrameIs(film, w.sent, |w.sent| - 1);
    FrameIs(film, w.sent, |w.sent| - 2);
    hide *;
    TileRun(o, codec, s, Frames(film, w.sent), w.history, |w.sent| - 1);
  }

  /** A frame goes out as a tile on a screen that shows the frame before. */
  ghost predicate TileAfter(o: Options, codec: Codec, d: State, before: Input, in': Input) {
    d.fb.Some? && before.frame.Valid() && OnScreen(o, codec, d, before.frame.Shown()) && Fate(o, d, in').SentTile?
  }

  /** Afterwards the screen is right if and only if outside the rectangle the frame before had the same samples, and
      the packet leaves them. */
  ghost predicate TileRight(o: Options, codec: Codec, d: State, before: Input, in': Input, t: State) {
    Ready(o, d) && before.frame.Valid() && in'.frame.Valid()
    && var job := JobOf(o, d, in');
       job.Some? && UpdateRect(o, d.lastBox, in') == Some(job.value.box)
       && (OnScreen(o, codec, t, in'.frame.Shown())
           <==> RightOutside(o, codec, job.value, SourceSamples(o, codec, before.frame.Shown()), in'))
  }

  lemma TileRun(o: Options, codec: Codec, s: State, frames: seq<Input>, states: seq<State>, n: nat)
    requires Ready(o, s) && s.fb.None? && AllServiceable(o, frames) && Played(o, codec, s, frames, states)
    requires 0 < n < |frames| && TileAfter(o, codec, states[n], frames[n - 1], frames[n])
    ensures TileRight(o, codec, states[n], frames[n - 1], frames[n], states[n + 1])
  {
    hide SendFrame, Fate, Screen, RightOutside, UpdateRect, JobOf, SourceSamples, AllServiceable, Laid;
    SkippedForgotten(o, codec, s, frames, states, n);
  }
}
