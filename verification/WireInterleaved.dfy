/** Any number of transfers to different places, interleaved in any way, with fragments of any length: which
    of them come out of the reassembler. */
module WireInterleaved {
  import opened Wrappers
  import opened Bytes
  import W = Wire
  import opened Reassembler
  import opened WireRoundTrip

  /** Transfers that can be told apart by session, address and length. */
  ghost predicate Apart(ts: seq<Transfer>) {
    && (forall i {:trigger ts[i]} :: 0 <= i < |ts| ==> ts[i].Sendable() && ts[i].Count() > 0)
    && (forall i, j {:trigger ts[i], ts[j]} :: 0 <= i < j < |ts| ==> ts[i].Key() != ts[j].Key())
  }

  /** How many fragments of transfer `i` a schedule has sent. */
  function Sent(sched: seq<nat>, i: nat): nat {
    if sched == [] then 0
    else Sent(sched[..|sched| - 1], i) + (if sched[|sched| - 1] == i then 1 else 0)
  }

  /** A schedule names, step by step, the transfer whose next header and data go out. */
  ghost predicate Interleaves(ts: seq<Transfer>, sched: seq<nat>)
    requires Apart(ts)
  {
    sched == []
    || (var init, i := sched[..|sched| - 1], sched[|sched| - 1];
        Interleaves(ts, init) && i < |ts| && Sent(init, i) < ts[i].Count())
  }

  ghost function Stream(ts: seq<Transfer>, sched: seq<nat>, ep: int): seq<UsbPacket>
    requires Apart(ts) && Interleaves(ts, sched)
  {
    if sched == [] then []
    else
      var init, i := sched[..|sched| - 1], sched[|sched| - 1];
      Stream(ts, init, ep) + ts[i].Packets(Sent(init, i), ep)
  }

  // ---- what the receiver has of one transfer ----

  ghost predicate Ours(a: Asm, t: Transfer) { KeyOf(a.last) == t.Key() }

  ghost predicate NoneOut(complete: seq<Asm>, t: Transfer) { forall k :: 0 <= k < |complete| ==> !Ours(complete[k], t) }

  /** One assembly came out, and it is the payload exactly if the transfer survives. */
  ghost predicate OneOut(complete: seq<Asm>, t: Transfer)
    requires t.Sendable() && t.Count() > 0
  {
    exists n: nat :: n < |complete| && Ours(complete[n], t) && (complete[n].data == t.payload <==> Survives(t))
                     && forall k :: 0 <= k < |complete| && k != n ==> !Ours(complete[k], t)
  }

  /** The last fragment reads as a command. */
  predicate LastLost(t: Transfer)
    requires t.Sendable() && t.Count() > 0
  {
    t.FragmentAt(t.Count() - 1).size == 32
  }

  /** After `n` fragments. */
  ghost predicate Has(s: State, t: Transfer, n: nat)
    requires t.Sendable() && t.Count() > 0
  {
    && n <= t.Count()
    && (n == 0 || t.maxPacketSize == 32 ==> t.Key() !in s.open)
    && (0 < n < t.Count() && t.maxPacketSize != 32 ==> t.Key() in s.open && Partial(s.open[t.Key()], t, n))
    && (if n == t.Count() && !LastLost(t) then OneOut(s.complete, t) else NoneOut(s.complete, t))
  }

  /** What a header and its data may do: only what is held of their own transfer changes, and what comes
      out is an assembly of that transfer. */
  ghost predicate OnlyOf(s: State, t: State, key: Key) {
    && t.open - {key} == s.open - {key}
    && (t.complete == s.complete || exists a :: t.complete == s.complete + [a] && KeyOf(a.last) == key)
  }

  lemma OneMoreOut(complete: seq<Asm>, a: Asm, t: Transfer)
    requires t.Sendable() && t.Count() > 0 && NoneOut(complete, t) && Ours(a, t)
    requires (a.data == t.payload <==> Survives(t))
    ensures OneOut(complete + [a], t)
  {
    hide Survives, Ours, Transfer.Count;
    var all := complete + [a];
    assert all[|complete|] == a && forall k :: 0 <= k < |complete| ==> all[k] == complete[k];
  }

  /** A fragment that reads as a command is lost. */
  lemma HasLost(s: State, t: Transfer, n: nat, ep: int)
    requires s.WellFormed() && t.Sendable() && n < t.Count() && Has(s, t, n) && t.FragmentAt(n).size == 32
    ensures var s' := Run(s, t.Packets(n, ep), ep); Has(s', t, n + 1) && OnlyOf(s, s', t.Key())
  {
    W.FragmentsTile(|t.payload|, t.maxPacketSize, n);
    hide Run, Partial, State.WellFormed, NoneOut, OneOut, Survives, Transfer.Count, Transfer.Packets;
    PairLost(s, t, n, ep);
    var s' := Run(s, t.Packets(n, ep), ep);
    assert s'.open == s.open && s'.complete == s.complete;
  }

  /** A fragment that follows those before it is put in place. */
  lemma HasStored(s: State, t: Transfer, n: nat, ep: int)
    requires s.WellFormed() && t.Sendable() && n < t.Count() && Has(s, t, n)
    requires t.FragmentAt(n).size != 32 && (n == 0 || t.maxPacketSize != 32)
    ensures var s' := Run(s, t.Packets(n, ep), ep); Has(s', t, n + 1) && OnlyOf(s, s', t.Key())
  {
    hide Run, Partial, State.WellFormed, Has, OnlyOf, Accept, Delivers, Survives, Transfer.Count, Transfer.Packets;
    var u := s.(pending := None);
    BaseHeld(s, t, n);
    PairAccepted(s, t, n, ep);
    var b := FragmentAccepted(u, t, n);
    if n + 1 == t.Count() { HasOut(s, t, n, b); } else { HasMore(s, t, n, b); }
  }

  lemma BaseHeld(s: State, t: Transfer, n: nat)
    requires s.WellFormed() && t.Sendable() && n < t.Count() && Has(s, t, n) && (n == 0 || t.maxPacketSize != 32)
    ensures var u := s.(pending := None); u.WellFormed() && Partial(Base(u, t, n), t, n)
  {
    if n == 0 { PartialNew(t); }
    hide Partial, Transfer.Count, NoneOut, OneOut, LastLost;
  }

  lemma HasMore(s: State, t: Transfer, n: nat, b: Asm)
    requires t.Sendable() && n + 1 < t.Count() && Has(s, t, n) && t.FragmentAt(n).size != 32 && Partial(b, t, n + 1)
    ensures var s' := s.(pending := None, open := s.open[t.Key() := b]); Has(s', t, n + 1) && OnlyOf(s, s', t.Key())
  {
    W.FragmentsTile(|t.payload|, t.maxPacketSize, n);
    assert t.maxPacketSize != 32;
    hide Partial, Transfer.Count, NoneOut, OneOut, LastLost;
  }

  lemma HasOut(s: State, t: Transfer, n: nat, b: Asm)
    requires t.Sendable() && n + 1 == t.Count() && Has(s, t, n) && Delivers(b, t)
    requires t.FragmentAt(n).size != 32 && (n == 0 || t.maxPacketSize != 32)
    ensures var s' := s.(pending := None, open := s.open - {t.Key()}, complete := s.complete + [b]);
            Has(s', t, n + 1) && OnlyOf(s, s', t.Key())
  {
    assert Survives(t);
    OneMoreOut(s.complete, b, t);
    hide Partial, Transfer.Count, NoneOut, OneOut, Survives;
  }

  /** The last fragment, when all before it were lost, comes out with zeros in front. */
  lemma TailAccepted(s: State, t: Transfer, n: nat, ep: int) returns (b: Asm)
    requires s.WellFormed() && t.Sendable() && n + 1 == t.Count() && t.Key() !in s.open
    requires t.FragmentAt(n).size != 32 && t.maxPacketSize == 32
    ensures Ours(b, t) && (b.data == t.payload <==> Survives(t))
    ensures Run(s, t.Packets(n, ep), ep) == s.(pending := None, complete := s.complete + [b])
  {
    assert s.(pending := None).WellFormed();
    hide *;
    PairAccepted(s, t, n, ep);
    b := TailIs(t, n);
    TailIn(s.(pending := None), t.Command(n), t.Chunk(n).data);
  }

  lemma TailIs(t: Transfer, n: nat) returns (b: Asm)
    requires t.Sendable() && n + 1 == t.Count() && t.FragmentAt(n).size != 32 && t.maxPacketSize == 32
    ensures var c := t.Command(n);
            KeyOf(c) == t.Key() && c.moreFragments == 0 && c.fragmentOffset + |t.Chunk(n).data| <= c.totalLen
            && b == Added(NewAsm(c), c, t.Chunk(n).data)
    ensures Ours(b, t) && (b.data == t.payload <==> Survives(t))
  {
    hide Added, NewAsm, Transfer.Covered, Transfer.Count, Transfer.Chunk, Transfer.FragmentAt;
    LastAlone(t, n);
    var c := t.Command(n);
    b := Added(NewAsm(c), c, t.Chunk(n).data);
    LastOf(NewAsm(c), c, t.Chunk(n).data);
  }

  lemma TailIn(s: State, c: BulkCommand, payload: seq<byte>)
    requires s.WellFormed() && KeyOf(c) !in s.open && c.moreFragments == 0 && c.fragmentOffset + |payload| <= c.totalLen
    ensures Accept(s, c, payload) == s.(complete := s.complete + [Added(NewAsm(c), c, payload)])
  {
    assert s.open - {KeyOf(c)} == s.open;
    hide Added, NewAsm;
  }

  lemma LastOf(a: Asm, c: BulkCommand, payload: seq<byte>)
    requires a.Sized(c.totalLen) && c.fragmentOffset + |payload| <= c.totalLen
    ensures Added(a, c, payload).last == c
  {
  }

  lemma HasTail(s: State, t: Transfer, n: nat, ep: int)
    requires s.WellFormed() && t.Sendable() && n < t.Count() && Has(s, t, n) && t.FragmentAt(n).size != 32
    requires t.maxPacketSize == 32
    ensures var s' := Run(s, t.Packets(n, ep), ep); Has(s', t, n + 1) && OnlyOf(s, s', t.Key())
  {
    W.FragmentsTile(|t.payload|, t.maxPacketSize, n);
    assert n + 1 == t.Count();
    hide Run, Partial, Transfer.Count, NoneOut, OneOut, Survives, Transfer.Packets, State.WellFormed;
    var b := TailAccepted(s, t, n, ep);
    OneMoreOut(s.complete, b, t);
  }

  /** One header and its data. */
  lemma HasNext(s: State, t: Transfer, n: nat, ep: int)
    requires s.WellFormed() && t.Sendable() && n < t.Count() && Has(s, t, n)
    ensures var s' := Run(s, t.Packets(n, ep), ep); Has(s', t, n + 1) && OnlyOf(s, s', t.Key())
  {
    hide *;
    if t.FragmentAt(n).size == 32 {
      HasLost(s, t, n, ep);
    } else if n == 0 || t.maxPacketSize != 32 {
      HasStored(s, t, n, ep);
    } else {
      HasTail(s, t, n, ep);
    }
  }

  // ---- all of them ----

  /** What happens to one transfer makes no difference to the others. */
  lemma HasKept(s: State, s': State, t: Transfer, n: nat, key: Key)
    requires t.Sendable() && t.Count() > 0 && Has(s, t, n) && OnlyOf(s, s', key) && key != t.Key()
    ensures Has(s', t, n)
  {
    hide Partial, Transfer.Count, Survives, LastLost;
    assert t.Key() in s.open <==> t.Key() in s.open - {key};
    assert t.Key() in s'.open <==> t.Key() in s'.open - {key};
    if t.Key() in s.open { assert s'.open[t.Key()] == (s'.open - {key})[t.Key()] == s.open[t.Key()]; }
    if s'.complete != s.complete {
      var a :| s'.complete == s.complete + [a] && KeyOf(a.last) == key;
      OthersOut(s.complete, a, t);
    }
  }

  lemma OthersOut(complete: seq<Asm>, a: Asm, t: Transfer)
    requires t.Sendable() && t.Count() > 0 && !Ours(a, t)
    ensures NoneOut(complete, t) ==> NoneOut(complete + [a], t)
    ensures OneOut(complete, t) ==> OneOut(complete + [a], t)
  {
    hide Survives, Ours, Transfer.Count;
    var all := complete + [a];
    assert forall k :: 0 <= k < |complete| ==> all[k] == complete[k];
    if OneOut(complete, t) {
      var n: nat :| n < |complete| && Ours(complete[n], t) && (complete[n].data == t.payload <==> Survives(t))
                    && forall k :: 0 <= k < |complete| && k != n ==> !Ours(complete[k], t);
      assert all[n] == complete[n];
    }
  }

  lemma {:induction false} AllHave(ts: seq<Transfer>, sched: seq<nat>, ep: int, i: nat)
    requires Apart(ts) && Interleaves(ts, sched) && i < |ts|
    ensures START.WellFormed()
    ensures Has(Run(START, Stream(ts, sched, ep), ep), ts[i], Sent(sched, i))
    decreases |sched|
  {
    hide *;
    StartsWell();
    if sched == [] {
      NothingSent(ts, ep, i);
    } else {
      StreamStep(ts, sched, ep);
      SentStep(sched, i);
      var init, j := sched[..|sched| - 1], sched[|sched| - 1];
      AllHave(ts, init, ep, i);
      AllHave(ts, init, ep, j);
      OneFurther(Stream(ts, init, ep), ts, i, j, Sent(init, i), Sent(init, j), ep);
    }
  }

  lemma NothingSent(ts: seq<Transfer>, ep: int, i: nat)
    requires Apart(ts) && i < |ts|
    ensures Stream(ts, [], ep) == [] && START.WellFormed() && Run(START, [], ep) == START
    ensures Has(START, ts[i], Sent([], i))
  {
    hide Transfer.Count, LastLost, Partial, Transfer.Key;
  }

  lemma OneFurther(packets: seq<UsbPacket>, ts: seq<Transfer>, i: nat, j: nat, m: nat, n: nat, ep: int)
    requires Apart(ts) && i < |ts| && j < |ts| && n < ts[j].Count() && (i == j ==> m == n) && START.WellFormed()
    requires Has(Run(START, packets, ep), ts[i], m) && Has(Run(START, packets, ep), ts[j], n)
    ensures Has(Run(START, packets + ts[j].Packets(n, ep), ep), ts[i], if i == j then n + 1 else m)
  {
    assert ts[i].Sendable() && ts[j].Sendable() && ts[i].Count() > 0;
    hide *;
    RunAppend(START, packets, ts[j].Packets(n, ep), ep);
    OneHas(Run(START, packets, ep), ts, i, j, m, n, ep);
  }

  lemma StreamStep(ts: seq<Transfer>, sched: seq<nat>, ep: int)
    requires Apart(ts) && Interleaves(ts, sched) && sched != []
    ensures var init, j := sched[..|sched| - 1], sched[|sched| - 1];
            Interleaves(ts, init) && j < |ts| && ts[j].Sendable() && Sent(init, j) < ts[j].Count()
            && Stream(ts, sched, ep) == Stream(ts, init, ep) + ts[j].Packets(Sent(init, j), ep)
  {
    hide Transfer.Packets, Transfer.Count, Transfer.Key, Sent;
  }

  lemma SentStep(sched: seq<nat>, i: nat)
    requires sched != []
    ensures var init, j := sched[..|sched| - 1], sched[|sched| - 1];
            Sent(sched, i) == Sent(init, i) + (if j == i then 1 else 0)
  {
  }

  /** One header and its data are one more fragment of their transfer, and nothing to another. */
  lemma OneHas(s: State, ts: seq<Transfer>, i: nat, j: nat, m: nat, n: nat, ep: int)
    requires s.WellFormed() && Apart(ts) && i < |ts| && j < |ts| && n < ts[j].Count() && (i == j ==> m == n)
    requires Has(s, ts[i], m) && Has(s, ts[j], n)
    ensures Has(Run(s, ts[j].Packets(n, ep), ep), ts[i], if i == j then n + 1 else m)
  {
    assert i != j ==> ts[i].Key() != ts[j].Key();
    assert ts[i].Sendable() && ts[j].Sendable() && ts[i].Count() > 0;
    hide Has, OnlyOf, Run, Transfer.Packets, Transfer.Count, Transfer.Key, State.WellFormed, Apart;
    HasNext(s, ts[j], n, ep);
    if i != j { HasKept(s, Run(s, ts[j].Packets(n, ep), ep), ts[i], m, ts[j].Key()); }
  }

  /** The assembly of a transfer, byte for byte. */
  ghost predicate ComesOut(s: State, t: Transfer) {
    exists n: nat :: n < |s.complete| && Ours(s.complete[n], t) && s.complete[n].data == t.payload
  }

  /** When everything has been sent, in whatever order, a payload comes out if and only if its transfer survives the
      rule that every packet of 32 bytes is a command, and of no transfer does more than one assembly come out. */
  lemma SurvivorsComeOut(ts: seq<Transfer>, sched: seq<nat>, ep: int, i: nat)
    requires Apart(ts) && Interleaves(ts, sched) && i < |ts|
    requires forall k {:trigger ts[k]} :: 0 <= k < |ts| ==> Sent(sched, k) == ts[k].Count()
    ensures START.WellFormed()
    ensures var s := Run(START, Stream(ts, sched, ep), ep);
            (ComesOut(s, ts[i]) <==> Survives(ts[i]))
            && forall m, n :: 0 <= m < n < |s.complete| ==> !(Ours(s.complete[m], ts[i]) && Ours(s.complete[n], ts[i]))
  {
    AllHave(ts, sched, ep, i);
    hide Run, Stream, Apart, Interleaves, Sent, Transfer.Count, Ours, Partial, Transfer.FragmentAt, State.WellFormed;
    var s := Run(START, Stream(ts, sched, ep), ep);
    if LastLost(ts[i]) { assert !Survives(ts[i]); }
  }
}
