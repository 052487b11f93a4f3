/** The one-frame mailbox between the capture callbacks and the sender thread of
    t6-virtual-display.rs, as a state machine with one step for each time a lock is held. */
module Mailbox {
  import opened Wrappers

  /** A frame buffer and what is in it. */
  type Id = nat
  type Content = nat

  /** A capture callback: idle; past the first look at the mailbox; with a buffer; with the frame copied
      into it; or turned away at the second look, with the buffer still to give back. */
  datatype Callback =
    | Idle
    | Admitted(content: Content)
    | Holding(content: Content, id: Id)
    | Copied(content: Content, id: Id)
    | TurnedAway(id: Id)

  datatype Thread = Running | Asleep(woken: bool) | Sending(id: Id) | Finished

  datatype State = State(
    latest: Option<Id>, spare: Option<Id>, stopped: bool,
    callbacks: seq<Callback>, sender: Thread,
    heap: map<Id, Content>, unused: Id,
    captured: nat, skipped: nat,
    begun: nat, stored: seq<Content>, taken: seq<Content>)

  predicate Init(s: State) {
    s.latest.None? && s.spare.None? && !s.stopped && s.sender.Running? && s.heap == map[] && s.unused == 0
    && s.captured == 0 && s.skipped == 0 && s.begun == 0 && s.stored == [] && s.taken == []
    && forall i :: 0 <= i < |s.callbacks| ==> s.callbacks[i].Idle?
  }

  // ---- steps of a callback ----

  function To(s: State, i: nat, c: Callback): State
    requires i < |s.callbacks|
  {
    s.(callbacks := s.callbacks[i := c])
  }

  /** A frame arrives. The callback leaves at once when the sender has stopped, when somebody holds the
      mailbox lock, or when there is a frame in the mailbox. */
  function Arrive(s: State, i: nat, content: Content, locked: bool): State
    requires i < |s.callbacks| && s.callbacks[i].Idle?
  {
    if s.stopped then s
    else if locked || s.latest.Some? then s.(skipped := s.skipped + 1, begun := s.begun + 1)
    else To(s, i, Admitted(content)).(begun := s.begun + 1)
  }

  /** The spare buffer, if there is one and its lock is free, else a new one. */
  function PickBuffer(s: State, i: nat, locked: bool): State
    requires i < |s.callbacks| && s.callbacks[i].Admitted?
  {
    var content := s.callbacks[i].content;
    if !locked && s.spare.Some? then To(s, i, Holding(content, s.spare.value)).(spare := None)
    else To(s, i, Holding(content, s.unused)).(unused := s.unused + 1, heap := s.heap[s.unused := 0])
  }

  function Copy(s: State, i: nat): State
    requires i < |s.callbacks| && s.callbacks[i].Holding?
  {
    To(s, i,
       Copied(s.callbacks[i].content, s.callbacks[i].id)).(heap := s.heap[s.callbacks[i].id := s.callbacks[i].content])
  }

  function Notified(t: Thread): Thread { if t.Asleep? then Asleep(true) else t }

  /** The second look, with the lock held: store and wake the sender, or turn away. */
  function Store(s: State, i: nat): State
    requires i < |s.callbacks| && s.callbacks[i].Copied?
  {
    var id := s.callbacks[i].id;
    if s.latest.Some? then To(s, i, TurnedAway(id)).(skipped := s.skipped + 1)
    else To(s, i, Idle).(latest := Some(id), captured := s.captured + 1, sender := Notified(s.sender),
                         stored := s.stored + [s.callbacks[i].content])
  }

  /** recycle_async_frame: the buffer becomes the spare one, if there is none and its lock is free. */
  function Recycled(s: State, id: Id, locked: bool): State {
    if !locked && s.spare.None? then s.(spare := Some(id)) else s
  }

  function GiveBack(s: State, i: nat, locked: bool): State
    requires i < |s.callbacks| && s.callbacks[i].TurnedAway?
  {
    Recycled(To(s, i, Idle), s.callbacks[i].id, locked)
  }

  // ---- steps of the sender ----

  /** The sender has the lock: it sleeps on an empty mailbox, ends when it is also stopped, or takes. */
  function Look(s: State): State
    requires s.latest.Some? ==> s.latest.value in s.heap
  {
    if s.latest.None? then s.(sender := if s.stopped then Finished else Asleep(false))
    else s.(sender := Sending(s.latest.value), latest := None, taken := s.taken + [s.heap[s.latest.value]])
  }

  /** The frame has been handled; on an error the buffer is not given back. */
  function Sent(s: State, locked: bool, failed: bool, stop: bool): State
    requires s.sender.Sending?
  {
    var given := if failed then s else Recycled(s, s.sender.id, locked);
    if failed || stop then given.(sender := Finished, stopped := true) else given.(sender := Running)
  }

  datatype Action =
    | CallbackArrives(i: nat, content: Content, locked: bool)
    | CallbackPicks(i: nat, locked: bool)
    | CallbackCopies(i: nat)
    | CallbackStores(i: nat)
    | CallbackGivesBack(i: nat, locked: bool)
    | SenderLooks
    | SenderSent(locked: bool, failed: bool, stop: bool)
    | Stop

  predicate Enabled(s: State, a: Action) {
    match a
    case CallbackArrives(i, _, _) => i < |s.callbacks| && s.callbacks[i].Idle?
    case CallbackPicks(i, _) => i < |s.callbacks| && s.callbacks[i].Admitted?
    case CallbackCopies(i) => i < |s.callbacks| && s.callbacks[i].Holding?
    case CallbackStores(i) => i < |s.callbacks| && s.callbacks[i].Copied?
    case CallbackGivesBack(i, _) => i < |s.callbacks| && s.callbacks[i].TurnedAway?
    // A sleeping sender may also wake without a notification.
    case SenderLooks => (s.sender.Running? || s.sender.Asleep?) && (s.latest.Some? ==> s.latest.value in s.heap)
    case SenderSent(_, _, _) => s.sender.Sending?
    case Stop => true
  }

  function Step(s: State, a: Action): State
    requires Enabled(s, a)
  {
    match a
    case CallbackArrives(i, content, locked) => Arrive(s, i, content, locked)
    case CallbackPicks(i, locked) => PickBuffer(s, i, locked)
    case CallbackCopies(i) => Copy(s, i)
    case CallbackStores(i) => Store(s, i)
    case CallbackGivesBack(i, locked) => GiveBack(s, i, locked)
    case SenderLooks => Look(s)
    case SenderSent(locked, failed, stop) => Sent(s, locked, failed, stop)
    case Stop => s.(stopped := true)
  }

  // ---- the invariant ----

  datatype Place = InMailbox | Spare | AtSender | AtCallback(i: nat)

  function BufferOf(c: Callback): Option<Id> {
    match c
    case Holding(_, id) => Some(id)
    case Copied(_, id) => Some(id)
    case TurnedAway(id) => Some(id)
    case _ => None
  }

  function BufferAt(s: State, p: Place): Option<Id> {
    match p
    case InMailbox => s.latest
    case Spare => s.spare
    case AtSender => if s.sender.Sending? then Some(s.sender.id) else None
    case AtCallback(i) => if i < |s.callbacks| then BufferOf(s.callbacks[i]) else None
  }

  /** No buffer is in two places. */
  ghost predicate BuffersApart(s: State) {
    && (forall p: Place, q: Place :: BufferAt(s, p).Some? && BufferAt(s, p) == BufferAt(s, q) ==> p == q)
    && (forall p: Place :: BufferAt(s, p).Some? ==> BufferAt(s, p).value in s.heap)
    && (forall id :: id in s.heap ==> id < s.unused)
  }

  /** Whoever has a buffer with a frame in it finds there what the callback put in. */
  ghost predicate ContentsKept(s: State) {
    && (s.latest.Some? ==> s.latest.value in s.heap)
    && s.stored == s.taken + (if s.latest.Some? then [s.heap[s.latest.value]] else [])
    && (s.sender.Sending? ==> s.sender.id in s.heap && s.taken != [] && s.heap[s.sender.id] == s.taken[|s.taken| - 1])
    && (forall i :: 0 <= i < |s.callbacks| && s.callbacks[i].Copied? ==>
          s.callbacks[i].id in s.heap && s.heap[s.callbacks[i].id] == s.callbacks[i].content)
  }

  /** Callbacks whose frame is neither stored nor skipped yet. */
  predicate Undecided(c: Callback) { c.Admitted? || c.Holding? || c.Copied? }

  function Busy(cs: seq<Callback>): nat {
    if cs == [] then 0 else (if Undecided(cs[0]) then 1 else 0) + Busy(cs[1..])
  }

  ghost predicate Counted(s: State) {
    && s.captured == |s.stored|
    && s.begun == s.captured + s.skipped + Busy(s.callbacks)
  }

  /** A sender that sleeps while there is a frame has been notified. */
  predicate WakeUpPending(s: State) {
    s.sender.Asleep? && s.latest.Some? ==> s.sender.woken
  }

  ghost predicate Inv(s: State) {
    BuffersApart(s) && ContentsKept(s) && Counted(s) && WakeUpPending(s)
  }

  lemma {:induction false} BusyUpdate(cs: seq<Callback>, i: nat, c: Callback)
    requires i < |cs|
    ensures Busy(cs[i := c]) + (if Undecided(cs[i]) then 1 else 0) == Busy(cs) + (if Undecided(c) then 1 else 0)
    decreases i
  {
    if i == 0 {
      assert cs[0 := c][1..] == cs[1..];
    } else {
      BusyUpdate(cs[1..], i - 1, c);
      assert cs[i := c][1..] == cs[1..][i - 1 := c];
    }
  }

  lemma {:induction false} BusyIdle(cs: seq<Callback>)
    requires forall i :: 0 <= i < |cs| ==> cs[i].Idle?
    ensures Busy(cs) == 0
  {
    if cs != [] { BusyIdle(cs[1..]); }
  }

  lemma InitInv(s: State)
    requires Init(s)
    ensures Inv(s)
  {
    BusyIdle(s.callbacks);
  }

  // ---- buffers ----

  /** At most one buffer moves, from one place to another or away. */
  lemma MoveApart(s: State, t: State, from: Place, to: Place)
    requires BuffersApart(s) && t.heap.Keys == s.heap.Keys && t.unused == s.unused && BufferAt(s, from).Some?
    requires forall p: Place :: BufferAt(t, p).Some? ==>
               (p != from && BufferAt(t, p) == BufferAt(s, p)) || (p == to && BufferAt(t, p) == BufferAt(s, from))
    ensures BuffersApart(t)
  {
    forall p: Place, q: Place | BufferAt(t, p).Some? && BufferAt(t, p) == BufferAt(t, q) ensures p == q {
    }
    forall p: Place | BufferAt(t, p).Some? ensures BufferAt(t, p).value in t.heap {
    }
  }

  lemma SameApart(s: State, t: State)
    requires BuffersApart(s) && t.heap == s.heap && t.unused == s.unused
    requires forall p: Place :: BufferAt(t, p) == BufferAt(s, p)
    ensures BuffersApart(t)
  {
    forall p: Place, q: Place | BufferAt(t, p).Some? && BufferAt(t, p) == BufferAt(t, q) ensures p == q {
      assert BufferAt(s, p) == BufferAt(s, q);
    }
  }

  lemma NewApart(s: State, t: State, to: Place)
    requires BuffersApart(s) && t.heap == s.heap[s.unused := 0] && t.unused == s.unused + 1
    requires BufferAt(t, to) == Some(s.unused)
    requires forall p: Place :: p != to ==> BufferAt(t, p) == BufferAt(s, p)
    ensures BuffersApart(t)
  {
    forall p: Place | p != to && BufferAt(t, p).Some? ensures BufferAt(t, p).value in s.heap
           && BufferAt(t, p).value < s.unused {
      assert BufferAt(s, p) == BufferAt(t, p);
    }
    forall p: Place, q: Place | BufferAt(t, p).Some? && BufferAt(t, p) == BufferAt(t, q) ensures p == q {
      if p != to && q != to { assert BufferAt(s, p) == BufferAt(s, q); }
    }
    hide BufferAt;
  }

  lemma PickApart(s: State, i: nat, locked: bool)
    requires BuffersApart(s) && Enabled(s, CallbackPicks(i, locked))
    ensures BuffersApart(PickBuffer(s, i, locked))
  {
    if !locked && s.spare.Some? {
      MoveApart(s, PickBuffer(s, i, locked), Spare, AtCallback(i));
    } else {
      NewApart(s, PickBuffer(s, i, locked), AtCallback(i));
    }
    hide BuffersApart;
  }

  lemma CopyApart(s: State, i: nat)
    requires BuffersApart(s) && Enabled(s, CallbackCopies(i))
    ensures BuffersApart(Copy(s, i))
  {
    var t, here := Copy(s, i), AtCallback(i);
    assert BufferAt(s, here) == Some(s.callbacks[i].id);
    assert t.heap.Keys == s.heap.Keys;
    MoveApart(s, t, here, here);
    hide BuffersApart;
  }

  lemma StoreApart(s: State, i: nat)
    requires BuffersApart(s) && Enabled(s, CallbackStores(i))
    ensures BuffersApart(Store(s, i))
  {
    var t := Store(s, i);
    MoveApart(s, t, AtCallback(i), if s.latest.Some? then AtCallback(i) else InMailbox);
    hide BuffersApart;
  }

  lemma GiveBackApart(s: State, i: nat, locked: bool)
    requires BuffersApart(s) && Enabled(s, CallbackGivesBack(i, locked))
    ensures BuffersApart(GiveBack(s, i, locked))
  {
    MoveApart(s, GiveBack(s, i, locked), AtCallback(i), Spare);
    hide BuffersApart;
  }

  lemma SenderApart(s: State, a: Action)
    requires BuffersApart(s) && Enabled(s, a) && (a.SenderLooks? || a.SenderSent?)
    ensures BuffersApart(Step(s, a))
  {
    var t := Step(s, a);
    if a.SenderSent? {
      MoveApart(s, t, AtSender, Spare);
    } else if s.latest.Some? {
      MoveApart(s, t, InMailbox, AtSender);
    } else {
      SameApart(s, t);
    }
    hide BuffersApart;
  }

  lemma BuffersStay(s: State, a: Action)
    requires BuffersApart(s) && Enabled(s, a)
    ensures BuffersApart(Step(s, a))
  {
    match a
    case CallbackArrives(i, content, locked) => SameApart(s, Step(s, a));
    case CallbackPicks(i, locked) => PickApart(s, i, locked);
    case CallbackCopies(i) => CopyApart(s, i);
    case CallbackStores(i) => StoreApart(s, i);
    case CallbackGivesBack(i, locked) => GiveBackApart(s, i, locked);
    case SenderLooks => SenderApart(s, a);
    case SenderSent(_, _, _) => SenderApart(s, a);
    case Stop => SameApart(s, Step(s, a));
  }

  // ---- contents ----

  lemma CallbackContents(s: State, a: Action)
    requires BuffersApart(s) && ContentsKept(s) && Enabled(s, a)
    requires a.CallbackArrives? || a.CallbackPicks? || a.CallbackGivesBack?
    ensures ContentsKept(Step(s, a))
  {
    var t := Step(s, a);
    assert s.unused !in s.heap;
    hide BuffersApart;
    forall i | 0 <= i < |t.callbacks| && t.callbacks[i].Copied?
      ensures t.callbacks[i].id in t.heap && t.heap[t.callbacks[i].id] == t.callbacks[i].content
    {
      assert s.callbacks[i] == t.callbacks[i];
    }
  }

  lemma CopyContents(s: State, i: nat)
    requires BuffersApart(s) && ContentsKept(s) && Enabled(s, CallbackCopies(i))
    ensures ContentsKept(Step(s, CallbackCopies(i)))
  {
    var t, id := Step(s, CallbackCopies(i)), s.callbacks[i].id;
    assert BufferAt(s, AtCallback(i)) == Some(id);
    assert BufferAt(s, InMailbox) != Some(id) && BufferAt(s, AtSender) != Some(id);
    forall j | 0 <= j < |t.callbacks| && t.callbacks[j].Copied?
      ensures t.callbacks[j].id in t.heap && t.heap[t.callbacks[j].id] == t.callbacks[j].content
    {
      if j != i {
        assert s.callbacks[j] == t.callbacks[j] && BufferAt(s, AtCallback(j)) == Some(s.callbacks[j].id);
      }
    }
    hide BuffersApart, BufferAt;
  }

  lemma StoreContents(s: State, i: nat)
    requires ContentsKept(s) && Enabled(s, CallbackStores(i))
    ensures ContentsKept(Step(s, CallbackStores(i)))
  {
    var t := Step(s, CallbackStores(i));
    assert s.callbacks[i].Copied? && s.heap[s.callbacks[i].id] == s.callbacks[i].content;
    forall j | 0 <= j < |t.callbacks| && t.callbacks[j].Copied?
      ensures t.callbacks[j].id in t.heap && t.heap[t.callbacks[j].id] == t.callbacks[j].content
    {
      assert s.callbacks[j] == t.callbacks[j];
    }
  }

  lemma SenderContents(s: State, a: Action)
    requires ContentsKept(s) && Enabled(s, a) && (a.SenderLooks? || a.SenderSent? || a.Stop?)
    ensures ContentsKept(Step(s, a))
  {
    var t := Step(s, a);
    assert t.callbacks == s.callbacks && t.heap == s.heap && t.stored == s.stored;
  }

  function Weight(c: Callback): nat { if Undecided(c) then 1 else 0 }

  lemma CountOne(s: State, t: State, i: nat)
    requires Counted(s) && i < |s.callbacks| == |t.callbacks| && t.callbacks == s.callbacks[i := t.callbacks[i]]
    requires t.captured - |t.stored| == s.captured - |s.stored|
    requires t.begun - t.captured - t.skipped - Weight(t.callbacks[i])
          == s.begun - s.captured - s.skipped - Weight(s.callbacks[i])
    ensures Counted(t)
  {
    BusyUpdate(s.callbacks, i, t.callbacks[i]);
    hide Busy;
  }

  lemma CountArrives(s: State, i: nat, content: Content, locked: bool)
    requires Counted(s) && Enabled(s, CallbackArrives(i, content, locked))
    ensures Counted(Arrive(s, i, content, locked))
  {
    var t := Arrive(s, i, content, locked);
    assert t.callbacks == s.callbacks[i := t.callbacks[i]];
    hide Busy;
    CountOne(s, t, i);
  }

  lemma CountPicks(s: State, i: nat, locked: bool)
    requires Counted(s) && Enabled(s, CallbackPicks(i, locked))
    ensures Counted(PickBuffer(s, i, locked))
  {
    hide Busy;
    CountOne(s, PickBuffer(s, i, locked), i);
  }

  lemma CountStores(s: State, i: nat)
    requires Counted(s) && Enabled(s, CallbackStores(i))
    ensures Counted(Store(s, i))
  {
    hide Busy;
    CountOne(s, Store(s, i), i);
  }

  lemma CountStays(s: State, a: Action)
    requires Counted(s) && Enabled(s, a)
    ensures Counted(Step(s, a))
  {
    match a
    case CallbackArrives(i, content, locked) => CountArrives(s, i, content, locked);
    case CallbackPicks(i, locked) => CountPicks(s, i, locked);
    case CallbackCopies(i) => CountOne(s, Copy(s, i), i);
    case CallbackStores(i) => CountStores(s, i);
    case CallbackGivesBack(i, locked) => CountOne(s, GiveBack(s, i, locked), i);
    case SenderLooks =>
    case SenderSent(_, _, _) =>
    case Stop =>
  }

  lemma WakeUpStays(s: State, a: Action)
    requires WakeUpPending(s) && Enabled(s, a)
    ensures WakeUpPending(Step(s, a))
  {
  }

  /** Every step of every thread keeps the invariant. */
  lemma StepInv(s: State, a: Action)
    requires Inv(s) && Enabled(s, a)
    ensures Inv(Step(s, a))
  {
    hide Step, Enabled, BuffersApart, ContentsKept, Counted, WakeUpPending;
    BuffersStay(s, a);
    match a {
      case CallbackArrives(_, _, _) => CallbackContents(s, a);
      case CallbackPicks(_, _) => CallbackContents(s, a);
      case CallbackCopies(i) => CopyContents(s, i);
      case CallbackStores(i) => StoreContents(s, i);
      case CallbackGivesBack(_, _) => CallbackContents(s, a);
      case SenderLooks => SenderContents(s, a);
      case SenderSent(_, _, _) => SenderContents(s, a);
      case Stop => SenderContents(s, a);
    }
    CountStays(s, a);
    WakeUpStays(s, a);
  }

  // ---- runs ----

  ghost predicate IsRun(states: seq<State>, actions: seq<Action>) {
    && |states| == |actions| + 1 && Init(states[0])
    && forall i :: 0 <= i < |actions| ==> Enabled(states[i], actions[i]) && states[i + 1] == Step(states[i], actions[i])
  }

  /** In every interleaving, at every moment. */
  lemma {:induction false} Always(states: seq<State>, actions: seq<Action>, n: nat)
    requires IsRun(states, actions) && n < |states|
    ensures Inv(states[n])
    decreases n
  {
    if n == 0 {
      InitInv(states[0]);
    } else {
      Always(states, actions, n - 1);
      StepInv(states[n - 1], actions[n - 1]);
    }
  }

  /** What was stored and what was taken only ever grows at the end. */
  lemma LogsGrow(s: State, a: Action)
    requires Enabled(s, a)
    ensures s.stored <= Step(s, a).stored && s.taken <= Step(s, a).taken
  {
  }

  /** Every frame that was stored was taken or is in the mailbox, and every frame that a callback began
      with was stored, skipped, or is still being handled. */
  lemma Totals(states: seq<State>, actions: seq<Action>, n: nat)
    requires IsRun(states, actions) && n < |states|
    ensures var s := states[n];
            s.captured == |s.taken| + (if s.latest.Some? then 1 else 0)
            && s.begun == s.captured + s.skipped + Busy(s.callbacks)
  {
    Always(states, actions, n);
    hide Step, Init, BuffersApart, Busy;
  }

  /** A stored frame leaves the mailbox only by being taken: it is never overwritten. */
  lemma NeverOverwritten(s: State, a: Action)
    requires Inv(s) && Enabled(s, a) && s.latest.Some? && Step(s, a).latest != s.latest
    ensures a.SenderLooks? && Step(s, a).latest.None? && Step(s, a).taken == s.taken + [s.heap[s.latest.value]]
  {
  }

  lemma TakenIsPrefix(s: State)
    requires Inv(s)
    ensures s.taken <= s.stored && |s.stored| <= |s.taken| + 1
  {
  }

  lemma Chain(a: seq<Content>, b: seq<Content>, c: seq<Content>)
    requires a <= b && b <= c
    ensures a <= c
  {
  }

  /** Frames are taken in the order they were stored, each once, and at any two moments of a run the
      later log continues the earlier one. */
  lemma {:induction false} TakenInOrder(states: seq<State>, actions: seq<Action>, m: nat, n: nat)
    requires IsRun(states, actions) && m <= n < |states|
    ensures states[n].taken <= states[n].stored && |states[n].stored| <= |states[n].taken| + 1
    ensures states[m].taken <= states[n].taken && states[m].stored <= states[n].stored
    decreases n
  {
    hide Init, Step, Inv, Enabled;
    Always(states, actions, n);
    var now := states[n];
    TakenIsPrefix(now);
    if m < n {
      TakenInOrder(states, actions, m, n - 1);
      LogsGrow(states[n - 1], actions[n - 1]);
      Chain(states[m].taken, states[n - 1].taken, now.taken);
      Chain(states[m].stored, states[n - 1].stored, now.stored);
    }
  }
}
