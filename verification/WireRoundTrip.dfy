/** Sender to receiver: what bulk_chunks puts on the wire, the reassembly loop takes off again. */
module WireRoundTrip {
  import opened Wrappers
  import opened Bytes
  import W = Wire
  import opened Reassembler

  /** A payload sent to an address of the device's memory. */
  datatype Transfer = Transfer(dest: u32, payload: seq<byte>, maxPacketSize: u32) {
    predicate Sendable() { 0 < |payload| < TWO32 && maxPacketSize > 0 }

    function Count(): nat
      requires Sendable()
    {
      W.FragmentCount(|payload|, maxPacketSize)
    }

    function FragmentAt(i: nat): W.Fragment
      requires Sendable()
    {
      W.FragmentAt(|payload|, maxPacketSize, i)
    }

    /** No data fragment has the length of a command. */
    predicate NoneLikeCommand()
      requires Sendable()
    {
      forall i {:trigger FragmentAt(i)} :: 0 <= i < Count() ==> FragmentAt(i).size != 32
    }

    function Key(): Key { Reassembler.Key(W.SIGNATURE_DISPLAY, dest, |payload| % TWO32) }

    /** How much of the payload the first `n` fragments carry. */
    function Covered(n: nat): nat
      requires Sendable()
    {
      if n < Count() then maxPacketSize * n else |payload|
    }

    function Chunk(i: nat): W.Chunk
      requires Sendable() && i < Count()
    {
      W.BulkChunk(payload, dest, maxPacketSize, i)
    }

    function Command(i: nat): BulkCommand
      requires Sendable() && i < Count()
    {
      var f := FragmentAt(i);
      BulkCommand(W.SIGNATURE_DISPLAY, |payload|, dest, f.size, f.offset, if f.more then 1 else 0)
    }

    /** Header and data, as the capture shows them. */
    function Packets(i: nat, ep: int): seq<UsbPacket>
      requires Sendable() && i < Count()
    {
      var c := Chunk(i);
      [UsbPacket(ep, 32, c.header.ToBytes()), UsbPacket(ep, |c.data|, c.data)]
    }
  }

  /** The command parser reads back the fields that ToBytes wrote. */
  lemma ParseHeader(h: W.BulkDmaHeader, ep: int)
    requires h.Valid()
    ensures ParseBulkCommand(UsbPacket(ep, 32, h.ToBytes())) ==
            Some(BulkCommand(h.signature, h.payloadLength, h.payloadAddress, h.packetSize, h.packetOffset,
                             h.packetFlags))
  {
    var b := h.ToBytes();
    hide Get32, Le32;
    GetLe32(b, 0, h.signature);
    GetLe32(b, 4, h.payloadLength);
    GetLe32(b, 8, h.payloadAddress);
    GetLe32(b, 12, h.packetSize);
    GetLe32(b, 16, h.packetOffset);
  }

  /** `a` holds what the first `n` fragments of `t` carry, and nothing else. */
  ghost predicate Partial(a: Asm, t: Transfer, n: nat)
    requires t.Sendable()
  {
    && n <= t.Count() && a.Sized(|t.payload|) && t.Covered(n) <= |t.payload|
    && a.data[..t.Covered(n)] == t.payload[..t.Covered(n)]
    && (forall k {:trigger a.received[k]} :: 0 <= k < |t.payload| ==> (a.received[k] != 0 <==> k < t.Covered(n)))
  }

  lemma PartialNew(t: Transfer)
    requires t.Sendable()
    ensures 0 < t.Count() && Partial(NewAsm(t.Command(0)), t, 0)
  {
    W.QuotientPositive(|t.payload| + t.maxPacketSize - 1, t.maxPacketSize);
  }

  /** Adding the next fragment extends what is covered; it is complete exactly when that was the last one. */
  lemma PartialMore(a: Asm, t: Transfer, n: nat)
    requires t.Sendable() && n < t.Count() && Partial(a, t, n)
    ensures var f := t.FragmentAt(n);
            && f.offset + f.size <= |t.payload| && f.size == |t.Chunk(n).data| && 0 < f.size
            && (f.more <==> n + 1 < t.Count())
    ensures var b := Added(a, t.Command(n), t.Chunk(n).data);
            && Partial(b, t, n + 1)
            && (b.Complete() <==> n + 1 == t.Count())
            && (n + 1 == t.Count() ==> b.data == t.payload)
  {
    W.FragmentsTile(|t.payload|, t.maxPacketSize, n);
    var f := t.FragmentAt(n);
    var b := Added(a, t.Command(n), t.Chunk(n).data);
    assert t.Covered(n) == f.offset && t.Covered(n + 1) == f.offset + f.size;
    assert b.data[..f.offset + f.size] == a.data[..f.offset] + t.Chunk(n).data;
    assert t.payload[..f.offset + f.size] == t.payload[..f.offset] + t.Chunk(n).data;
    if n + 1 < t.Count() {
      assert b.received[f.offset + f.size] == 0;
    } else {
      assert b.data[..|t.payload|] == b.data;
      assert t.payload[..|t.payload|] == t.payload;
    }
  }

  /** A header followed by its data is one fragment accepted, unless the data looks like a command. */
  lemma PairAccepted(s: State, t: Transfer, i: nat, ep: int)
    requires s.WellFormed() && t.Sendable() && i < t.Count() && t.FragmentAt(i).size != 32
    ensures Run(s, t.Packets(i, ep), ep) == Accept(s.(pending := None), t.Command(i), t.Chunk(i).data)
  {
    W.FragmentsTile(|t.payload|, t.maxPacketSize, i);
    var c, p := t.Chunk(i), t.Packets(i, ep);
    ParseHeader(c.header, ep);
    hide Accept;
    assert |c.data| == t.FragmentAt(i).size;
    var s1 := Feed(s, p[0], ep);
    assert s1 == s.(pending := Some(t.Command(i)));
    assert ParseBulkCommand(p[1]) == None;
    var s2 := Feed(s1, p[1], ep);
    assert p[1..] == [p[1]] && p[1..][1..] == [];
    assert Run(s2, [], ep) == s2;
    assert Run(s1, p[1..], ep) == s2;
  }

  // ---- any number of transfers, interleaved ----

  type Progress = seq<nat>

  ghost predicate AllSendable(ts: seq<Transfer>) {
    forall i {:trigger ts[i]} :: 0 <= i < |ts| ==> ts[i].Sendable() && ts[i].NoneLikeCommand()
  }

  /** Begun and not finished. */
  ghost predicate IsOpen(ts: seq<Transfer>, sent: Progress, i: nat)
    requires AllSendable(ts) && |sent| == |ts|
  {
    i < |ts| && 0 < sent[i] < ts[i].Count()
  }

  /** Transfer `i` may send its next fragment: a transfer is begun only while no other open one has its key. */
  ghost predicate MayStep(ts: seq<Transfer>, sent: Progress, i: nat)
    requires AllSendable(ts) && |sent| == |ts|
  {
    && i < |ts| && sent[i] < ts[i].Count()
    && (sent[i] == 0 ==> forall j: nat :: IsOpen(ts, sent, j) ==> ts[j].Key() != ts[i].Key())
  }

  /** A schedule names, step by step, the transfer whose next header and data go out. */
  ghost predicate MayPlay(ts: seq<Transfer>, sent: Progress, sched: seq<nat>)
    requires AllSendable(ts) && |sent| == |ts|
    decreases |sched|
  {
    sched == [] || (MayStep(ts, sent, sched[0]) && MayPlay(ts, Stepped(sent, sched[0]), sched[1..]))
  }

  function Stepped(sent: Progress, i: nat): (r: Progress)
    requires i < |sent|
    ensures |r| == |sent|
  {
    sent[i := sent[i] + 1]
  }

  ghost function Emitted(ts: seq<Transfer>, sent: Progress, sched: seq<nat>, ep: int): seq<UsbPacket>
    requires AllSendable(ts) && |sent| == |ts| && MayPlay(ts, sent, sched)
    decreases |sched|
  {
    if sched == [] then []
    else ts[sched[0]].Packets(sent[sched[0]], ep) + Emitted(ts, Stepped(sent, sched[0]), sched[1..], ep)
  }

  ghost function Final(ts: seq<Transfer>, sent: Progress, sched: seq<nat>): (r: Progress)
    requires AllSendable(ts) && |sent| == |ts| && MayPlay(ts, sent, sched)
    ensures |r| == |ts|
    decreases |sched|
  {
    if sched == [] then sent else Final(ts, Stepped(sent, sched[0]), sched[1..])
  }

  /** The transfers in the order in which their last fragment goes out. */
  ghost function Finished(ts: seq<Transfer>, sent: Progress, sched: seq<nat>): seq<nat>
    requires AllSendable(ts) && |sent| == |ts| && MayPlay(ts, sent, sched)
    decreases |sched|
  {
    if sched == [] then []
    else
      var i := sched[0];
      Ending(ts, sent, i) + Finished(ts, Stepped(sent, i), sched[1..])
  }

  /** The receiver is in step with the senders; `who` tells which transfer an open assembly belongs to. */
  ghost predicate InStep(s: State, ts: seq<Transfer>, sent: Progress, who: map<Key, nat>)
    requires AllSendable(ts) && |sent| == |ts|
  {
    && s.WellFormed() && s.pending.None? && s.malformed == 0 && who.Keys == s.open.Keys
    && (forall i {:trigger sent[i]} :: 0 <= i < |ts| ==> sent[i] <= ts[i].Count())
    && (forall k {:trigger who[k]} :: k in who ==>
          IsOpen(ts, sent, who[k]) && ts[who[k]].Key() == k && Partial(s.open[k], ts[who[k]], sent[who[k]]))
    && (forall i: nat {:trigger IsOpen(ts, sent, i)} :: IsOpen(ts, sent, i) ==>
          ts[i].Key() in who && who[ts[i].Key()] == i)
  }

  /** One more assembly, carrying exactly the payload of `t`. */
  ghost predicate Delivers(a: Asm, t: Transfer) {
    a.data == t.payload && KeyOf(a.last) == t.Key()
  }

  /** `c` is `c0` followed by one assembly for each transfer of `done`. */
  ghost predicate Delivered(c: seq<Asm>, c0: seq<Asm>, done: seq<nat>, ts: seq<Transfer>) {
    && |c| == |c0| + |done| && c0 <= c
    && (forall k {:trigger done[k]} :: 0 <= k < |done| ==> done[k] < |ts| && Delivers(c[|c0| + k], ts[done[k]]))
  }

  lemma DeliveredChain(c: seq<Asm>, c1: seq<Asm>, c0: seq<Asm>, done: seq<nat>, rest: seq<nat>, ts: seq<Transfer>)
    requires Delivered(c1, c0, done, ts) && Delivered(c, c1, rest, ts)
    ensures Delivered(c, c0, done + rest, ts)
  {
    forall k | 0 <= k < |done + rest| ensures (done + rest)[k] < |ts| && Delivers(c[|c0| + k], ts[(done + rest)[k]]) {
      if k < |done| {
        assert c[|c0| + k] == c1[|c0| + k] && (done + rest)[k] == done[k];
      } else {
        assert (done + rest)[k] == rest[k - |done|];
      }
    }
  }

  /** The transfer itself, if its next fragment is its last one. */
  ghost function Ending(ts: seq<Transfer>, sent: Progress, i: nat): seq<nat>
    requires AllSendable(ts) && |sent| == |ts| && i < |ts|
  {
    if sent[i] + 1 == ts[i].Count() then [i] else []
  }

  ghost function WhoAfter(ts: seq<Transfer>, sent: Progress, who: map<Key, nat>, i: nat): map<Key, nat>
    requires AllSendable(ts) && |sent| == |ts| && i < |ts|
  {
    if sent[i] + 1 == ts[i].Count() then who - {ts[i].Key()} else who[ts[i].Key() := i]
  }

  /** The assembly a fragment is added to. */
  ghost function Base(s: State, t: Transfer, n: nat): Asm
    requires s.WellFormed() && t.Sendable() && n < t.Count()
  {
    if t.Key() !in s.open || n == 0 then NewAsm(t.Command(n)) else s.open[t.Key()]
  }

  lemma FragmentAccepted(s: State, t: Transfer, n: nat) returns (b: Asm)
    requires s.WellFormed() && t.Sendable() && n < t.Count() && Partial(Base(s, t, n), t, n)
    ensures Partial(b, t, n + 1) && b.last == t.Command(n) && (n + 1 == t.Count() ==> Delivers(b, t))
    ensures Accept(s, t.Command(n), t.Chunk(n).data) ==
            if n + 1 == t.Count() then s.(open := s.open - {t.Key()}, complete := s.complete + [b])
            else s.(open := s.open[t.Key() := b])
  {
    var c, payload := t.Command(n), t.Chunk(n).data;
    W.FragmentsTile(|t.payload|, t.maxPacketSize, n);
    if n > 0 { OffsetPositive(t.maxPacketSize, n); }
    assert c.fragmentOffset == 0 <==> n == 0;
    PartialMore(Base(s, t, n), t, n);
    hide Partial;
    b := Added(Base(s, t, n), c, payload);
    assert KeyOf(c) == t.Key();
  }

  lemma OneStep(s: State, ts: seq<Transfer>, sent: Progress, who: map<Key, nat>, i: nat, ep: int)
    requires AllSendable(ts) && |sent| == |ts| && InStep(s, ts, sent, who) && MayStep(ts, sent, i)
    ensures var s' := Run(s, ts[i].Packets(sent[i], ep), ep);
            && InStep(s', ts, Stepped(sent, i), WhoAfter(ts, sent, who, i))
            && Delivered(s'.complete, s.complete, Ending(ts, sent, i), ts)
  {
    var t, n := ts[i], sent[i];
    BasePartial(s, ts, sent, who, i);
    assert t.FragmentAt(n).size != 32;
    hide Partial, InStep, WhoAfter, IsOpen, KeyOf, Run, Base, Delivers, Delivered, State.WellFormed, Transfer.Count;
    var b := PairStored(s, t, n, ep);
    InStepNext(s, ts, sent, who, i, b, ep);
    InStepComplete(s, ts, sent, who, i, b);
    DeliveredOne(s.complete, b, i, ts);
  }

  lemma DeliveredOne(c: seq<Asm>, b: Asm, i: nat, ts: seq<Transfer>)
    ensures Delivered(c, c, [], ts)
    ensures i < |ts| && Delivers(b, ts[i]) ==> Delivered(c + [b], c, [i], ts)
  {
  }

  lemma BasePartial(s: State, ts: seq<Transfer>, sent: Progress, who: map<Key, nat>, i: nat)
    requires AllSendable(ts) && |sent| == |ts| && InStep(s, ts, sent, who) && MayStep(ts, sent, i)
    ensures s.WellFormed() && s.(pending := None) == s && Partial(Base(s, ts[i], sent[i]), ts[i], sent[i])
  {
    if sent[i] == 0 {
      PartialNew(ts[i]);
    } else {
      assert IsOpen(ts, sent, i);
    }
  }

  /** What a header and its data do to a receiver that waits for neither. */
  lemma PairStored(s: State, t: Transfer, n: nat, ep: int) returns (b: Asm)
    requires s.WellFormed() && s.(pending := None) == s && t.Sendable() && n < t.Count() && t.FragmentAt(n).size != 32
    requires Partial(Base(s, t, n), t, n)
    ensures Partial(b, t, n + 1) && (n + 1 == t.Count() ==> Delivers(b, t))
    ensures Run(s, t.Packets(n, ep), ep) ==
            if n + 1 == t.Count() then s.(open := s.open - {t.Key()}, complete := s.complete + [b])
            else s.(open := s.open[t.Key() := b])
  {
    PairAccepted(s, t, n, ep);
    hide Run, Partial, Base;
    b := FragmentAccepted(s, t, n);
  }

  /** Completed assemblies play no part in being in step. */
  lemma InStepComplete(s: State, ts: seq<Transfer>, sent: Progress, who: map<Key, nat>, i: nat, b: Asm)
    requires AllSendable(ts) && |sent| == |ts| && i < |ts|
    ensures InStep(s.(open := s.open - {ts[i].Key()}), ts, Stepped(sent, i), WhoAfter(ts, sent, who, i)) ==>
            InStep(s.(open := s.open - {ts[i].Key()}, complete := s.complete + [b]), ts, Stepped(sent, i),
                   WhoAfter(ts, sent, who, i))
  {
  }

  lemma OffsetPositive(m: nat, n: nat)
    requires m > 0 && n > 0
    ensures m * n > 0
  {
  }

  lemma OpenAfter(s: State, ts: seq<Transfer>, sent: Progress, who: map<Key, nat>, i: nat, j: nat)
    requires AllSendable(ts) && |sent| == |ts| && InStep(s, ts, sent, who) && MayStep(ts, sent, i)
    requires IsOpen(ts, Stepped(sent, i), j)
    ensures var who' := WhoAfter(ts, sent, who, i); ts[j].Key() in who' && who'[ts[j].Key()] == j
  {
    hide Partial, Transfer.Count, Transfer.Key, State.WellFormed;
    if j != i {
      assert IsOpen(ts, sent, j);
      if sent[i] > 0 { assert IsOpen(ts, sent, i); }
    }
  }

  lemma InStepNext(s: State, ts: seq<Transfer>, sent: Progress, who: map<Key, nat>, i: nat, b: Asm, ep: int)
    requires AllSendable(ts) && |sent| == |ts| && InStep(s, ts, sent, who) && MayStep(ts, sent, i)
    requires Partial(b, ts[i], sent[i] + 1)
    ensures var s' := if sent[i] + 1 == ts[i].Count() then s.(open := s.open - {ts[i].Key()})
                      else s.(open := s.open[ts[i].Key() := b]);
            InStep(s', ts, Stepped(sent, i), WhoAfter(ts, sent, who, i))
  {
    assert b.Sized(ts[i].Key().totalLen);
    hide Partial, Transfer.Count, Transfer.Key, Asm.Sized, MayStep;
    var key, sent', who' := ts[i].Key(), Stepped(sent, i), WhoAfter(ts, sent, who, i);
    forall j: nat | IsOpen(ts, sent', j) ensures ts[j].Key() in who' && who'[ts[j].Key()] == j {
      OpenAfter(s, ts, sent, who, i, j);
    }
    forall k | k in who' && k != key
      ensures who'[k] != i && who'[k] == who[k] && IsOpen(ts, sent', who'[k]) && ts[who'[k]].Key() == k
    {
      assert IsOpen(ts, sent, who[k]) && ts[who[k]].Key() == k;
    }
    if key in who' {
      assert who'[key] == i && IsOpen(ts, sent', i);
    }
  }

  /** Playing a schedule: the receiver stays in step, and what it completes is, in order, what the
      senders finish. */
  lemma {:induction false} Played(
    s: State, ts: seq<Transfer>, sent: Progress, who: map<Key, nat>, sched: seq<nat>, ep: int)
    returns (who': map<Key, nat>)
    requires AllSendable(ts) && |sent| == |ts| && InStep(s, ts, sent, who) && MayPlay(ts, sent, sched)
    ensures var s' := Run(s, Emitted(ts, sent, sched, ep), ep);
            && InStep(s', ts, Final(ts, sent, sched), who')
            && Delivered(s'.complete, s.complete, Finished(ts, sent, sched), ts)
    decreases |sched|
  {
    if sched == [] {
      return who;
    }
    var i := sched[0];
    OneStep(s, ts, sent, who, i, ep);
    var p, q := ts[i].Packets(sent[i], ep), Emitted(ts, Stepped(sent, i), sched[1..], ep);
    RunAppend(s, p, q, ep);
    var s1 := Run(s, p, ep);
    hide InStep, Run, WhoAfter, Delivered, Ending;
    who' := Played(s1, ts, Stepped(sent, i), WhoAfter(ts, sent, who, i), sched[1..], ep);
    var s' := Run(s1, q, ep);
    DeliveredChain(s'.complete, s1.complete, s.complete, Ending(ts, sent, i),
                   Finished(ts, Stepped(sent, i), sched[1..]), ts);
  }

  /** How often a transfer is finished: once if the schedule completes it, otherwise never. */
  lemma {:induction false} FinishedOnce(ts: seq<Transfer>, sent: Progress, sched: seq<nat>, i: nat)
    requires AllSendable(ts) && |sent| == |ts| && MayPlay(ts, sent, sched) && i < |ts| && sent[i] <= ts[i].Count()
    ensures sent[i] <= Final(ts, sent, sched)[i] <= ts[i].Count()
    ensures multiset(Finished(ts, sent, sched))[i] ==
              if sent[i] < ts[i].Count() == Final(ts, sent, sched)[i] then 1 else 0
    decreases |sched|
  {
    if sched != [] {
      var j := sched[0];
      FinishedOnce(ts, Stepped(sent, j), sched[1..], i);
      var head := Ending(ts, sent, j);
      assert multiset(Finished(ts, sent, sched))
          == multiset(head) + multiset(Finished(ts, Stepped(sent, j), sched[1..]));
    }
  }

  function Zeros(n: nat): (z: Progress)
    ensures |z| == n && forall i :: 0 <= i < n ==> z[i] == 0
  {
    seq(n, i => 0)
  }

  /** The wire round trip.  However the headers and data of several transfers are interleaved, and
      whatever else is captured, the receiver ends with nothing open and nothing malformed, and has put
      out every payload exactly once, byte for byte, in the order in which the senders finished. */
  lemma RoundTrip(ts: seq<Transfer>, sched: seq<nat>, captured: seq<UsbPacket>, ep: int)
    requires AllSendable(ts) && MayPlay(ts, Zeros(|ts|), sched)
    requires forall i {:trigger ts[i]} :: 0 <= i < |ts| ==> Final(ts, Zeros(|ts|), sched)[i] == ts[i].Count()
    requires Filtered(captured, ep) == Filtered(Emitted(ts, Zeros(|ts|), sched, ep), ep)
    ensures var s := Run(START, captured, ep);
            var done := Finished(ts, Zeros(|ts|), sched);
            && s.open == map[] && s.pending.None? && s.malformed == 0
            && |s.complete| == |done|
            && (forall k :: 0 <= k < |done| ==> done[k] < |ts| && s.complete[k].data == ts[done[k]].payload)
            && (forall i: nat :: i < |ts| ==> multiset(done)[i] == 1)
  {
    hide Run, InStep, Finished, Final, MayPlay, Emitted, Filtered, Transfer.NoneLikeCommand, State.WellFormed,
         Transfer.Count;
    var sent := Zeros(|ts|);
    NothingYet(ts);
    OthersIgnored(START, captured, ep);
    OthersIgnored(START, Emitted(ts, sent, sched, ep), ep);
    var who := Played(START, ts, sent, map[], sched, ep);
    var s, done := Run(START, captured, ep), Finished(ts, sent, sched);
    NothingOpen(s, ts, Final(ts, sent, sched), who);
    forall i: nat | i < |ts| ensures multiset(done)[i] == 1 {
      PartialNew(ts[i]);
      FinishedOnce(ts, sent, sched, i);
    }
    forall k | 0 <= k < |done| ensures done[k] < |ts| && s.complete[k].data == ts[done[k]].payload {
      assert Delivers(s.complete[0 + k], ts[done[k]]);
    }
  }

  lemma NothingYet(ts: seq<Transfer>)
    requires AllSendable(ts)
    ensures START.WellFormed() && InStep(START, ts, Zeros(|ts|), map[])
  {
  }

  lemma NothingOpen(s: State, ts: seq<Transfer>, sent: Progress, who: map<Key, nat>)
    requires AllSendable(ts) && |sent| == |ts| && InStep(s, ts, sent, who)
    requires forall i {:trigger ts[i]} :: 0 <= i < |ts| ==> sent[i] == ts[i].Count()
    ensures s.open == map[] && s.pending.None? && s.malformed == 0
  {
    assert forall k {:trigger who[k]} :: k in who ==> IsOpen(ts, sent, who[k]);
    assert forall k {:trigger who[k]} :: k !in who;
  }

  // ---- one transfer alone, with fragments of any length ----

  /** The first `n` headers and data of a transfer. */
  ghost function FirstPackets(t: Transfer, n: nat, ep: int): seq<UsbPacket>
    requires t.Sendable() && n <= t.Count()
  {
    if n == 0 then [] else FirstPackets(t, n - 1, ep) + t.Packets(n - 1, ep)
  }

  /** The last fragment is not as long as a command; and if the full ones are, they carry only zeros. */
  predicate Survives(t: Transfer)
    requires t.Sendable() && t.Count() > 0
  {
    && t.FragmentAt(t.Count() - 1).size != 32
    && (t.maxPacketSize == 32 ==>
          forall k :: 0 <= k < t.Covered(t.Count() - 1) && k < |t.payload| ==> t.payload[k] == 0)
  }

  /** Header and data both read as commands: only what is pending changes. */
  lemma PairLost(s: State, t: Transfer, i: nat, ep: int)
    requires s.WellFormed() && t.Sendable() && i < t.Count() && t.FragmentAt(i).size == 32
    ensures Run(s, t.Packets(i, ep), ep).(pending := None) == s.(pending := None)
  {
    W.FragmentsTile(|t.payload|, t.maxPacketSize, i);
    var c, p := t.Chunk(i), t.Packets(i, ep);
    ParseHeader(c.header, ep);
    hide Accept;
    assert |c.data| == 32;
    var s1 := Feed(s, p[0], ep);
    assert ParseBulkCommand(p[1]).Some?;
    var s2 := Feed(s1, p[1], ep);
    assert p[1..] == [p[1]] && p[1..][1..] == [];
    assert Run(s2, [], ep) == s2;
    assert Run(s1, p[1..], ep) == s2;
  }

  /** After `n` fragments that are too few to finish: either all are there, or, if they read as
      commands, none is. */
  ghost predicate Underway(s: State, t: Transfer, n: nat)
    requires t.Sendable()
  {
    && s.complete == []
    && (if n == 0 || t.maxPacketSize == 32 then s.open == map[]
        else s.pending.None? && s.open.Keys == {t.Key()} && Partial(s.open[t.Key()], t, n))
  }

  lemma UnderwayNext(s: State, t: Transfer, n: nat, ep: int)
    requires s.WellFormed() && t.Sendable() && n + 1 < t.Count() && Underway(s, t, n)
    requires t.maxPacketSize != 32 ==> s.pending.None?
    ensures Underway(Run(s, t.Packets(n, ep), ep), t, n + 1)
    ensures t.maxPacketSize != 32 ==> Run(s, t.Packets(n, ep), ep).pending.None?
  {
    W.FragmentsTile(|t.payload|, t.maxPacketSize, n);
    hide Run, Partial, Transfer.Count, State.WellFormed, Delivers, Transfer.Packets, Transfer.Chunk;
    if t.maxPacketSize == 32 {
      PairLost(s, t, n, ep);
    } else {
      assert s.(pending := None) == s;
      if n == 0 { PartialNew(t); }
      var b := PairStored(s, t, n, ep);
    }
  }

  lemma StartsWell()
    ensures START.WellFormed()
  {
  }

  lemma {:induction false} FirstUnderway(t: Transfer, n: nat, ep: int)
    requires t.Sendable() && n < t.Count()
    ensures START.WellFormed() && Underway(Run(START, FirstPackets(t, n, ep), ep), t, n)
    ensures t.maxPacketSize != 32 ==> Run(START, FirstPackets(t, n, ep), ep).pending.None?
  {
    StartsWell();
    hide Transfer.Packets, Transfer.Count, Partial, State.WellFormed;
    if n > 0 {
      hide Run, Underway;
      FirstUnderway(t, n - 1, ep);
      RunAppend(START, FirstPackets(t, n - 1, ep), t.Packets(n - 1, ep), ep);
      UnderwayNext(Run(START, FirstPackets(t, n - 1, ep), ep), t, n - 1, ep);
    }
  }

  ghost predicate Outcome(s: State, t: Transfer) {
    |s.complete| == 1 && s.complete[0].data == t.payload
  }

  /** What the last header and data make of it. */
  lemma LastPair(s: State, t: Transfer, n: nat, ep: int)
    requires s.WellFormed() && t.Sendable() && n + 1 == t.Count() && Underway(s, t, n)
    requires t.maxPacketSize != 32 ==> s.pending.None?
    ensures Outcome(Run(s, t.Packets(n, ep), ep), t) <==> Survives(t)
  {
    W.FragmentsTile(|t.payload|, t.maxPacketSize, n);
    hide Run, Partial, Transfer.Count, State.WellFormed, Accept, Added, NewAsm, Transfer.Packets, Transfer.Chunk;
    if t.FragmentAt(n).size == 32 {
      PairLost(s, t, n, ep);
    } else if t.maxPacketSize == 32 {
      LastAfterLoss(s, t, n, ep);
    } else {
      LastAfterAll(s, t, n, ep);
    }
  }

  lemma LastAfterAll(s: State, t: Transfer, n: nat, ep: int)
    requires s.WellFormed() && t.Sendable() && n + 1 == t.Count() && Underway(s, t, n)
    requires t.maxPacketSize != 32 && s.pending.None? && t.FragmentAt(n).size != 32
    ensures Outcome(Run(s, t.Packets(n, ep), ep), t)
  {
    hide Run, Partial, Transfer.Count, State.WellFormed, Transfer.Packets, Transfer.Chunk;
    assert s.(pending := None) == s;
    if n == 0 { PartialNew(t); }
    var b := PairStored(s, t, n, ep);
  }

  lemma LastAfterLoss(s: State, t: Transfer, n: nat, ep: int)
    requires s.WellFormed() && t.Sendable() && n + 1 == t.Count() && t.FragmentAt(n).size != 32
    requires s.open == map[] && s.complete == []
    ensures Outcome(Run(s, t.Packets(n, ep), ep), t)
       <==> forall k :: 0 <= k < t.Covered(n) && k < |t.payload| ==> t.payload[k] == 0
  {
    PairAccepted(s, t, n, ep);
    LastAlone(t, n);
    hide Run, Accept, Added, NewAsm, Transfer.Covered;
    AcceptIs(s.(pending := None), t.Command(n), t.Chunk(n).data);
  }

  /** A transfer on its own comes out as it went in if and only if it survives the receiver's habit
      of taking every packet of 32 bytes for a command. */
  lemma LoneTransfer(t: Transfer, ep: int)
    requires t.Sendable()
    ensures t.Count() > 0 && START.WellFormed()
    ensures Outcome(Run(START, FirstPackets(t, t.Count(), ep), ep), t) <==> Survives(t)
  {
    hide Run, Underway, Outcome, Survives, Transfer.Packets, Transfer.Count, Partial, State.WellFormed;
    PartialNew(t);
    var n := t.Count() - 1;
    FirstUnderway(t, n, ep);
    RunAppend(START, FirstPackets(t, n, ep), t.Packets(n, ep), ep);
    LastPair(Run(START, FirstPackets(t, n, ep), ep), t, n, ep);
  }

  /** The last fragment without the earlier ones gives zeros in front of it. */
  lemma LastAlone(t: Transfer, n: nat)
    requires t.Sendable() && n + 1 == t.Count()
    ensures t.Command(n).fragmentOffset + |t.Chunk(n).data| <= |t.payload| && t.Covered(n) <= |t.payload|
    ensures (n > 0 ==> t.Command(n).fragmentOffset > 0) && t.Command(n).moreFragments == 0
    ensures Added(NewAsm(t.Command(n)), t.Command(n), t.Chunk(n).data).data == t.payload
       <==> forall k :: 0 <= k < t.Covered(n) ==> t.payload[k] == 0
  {
    W.FragmentsTile(|t.payload|, t.maxPacketSize, n);
    if n > 0 { OffsetPositive(t.maxPacketSize, n); }
    var f := t.FragmentAt(n);
    assert t.Chunk(n).data == t.payload[f.offset..];
    hide Written, Fill, Transfer.Chunk, W.FragmentAt, W.FragmentCount, Transfer.Count;
    ZerosInFront(t.payload, f.offset);
  }

  lemma ZerosInFront(p: seq<byte>, at: nat)
    requires at <= |p|
    ensures Written(Fill(|p|, 0), at, p[at..]) == p <==> forall k :: 0 <= k < at ==> p[k] == 0
  {
    var d := Written(Fill(|p|, 0), at, p[at..]);
    assert d == Fill(at, 0) + p[at..];
    assert p == p[..at] + p[at..];
    if d == p {
      forall k | 0 <= k < at ensures p[k] == 0 { assert d[k] == 0; }
    }
  }
}
