/** The receiving side: t6_pcap_summary.py's command parser and the reassembly loop at the top of
    summarize_reassembled in t6_reassemble_video.py. */
module Reassembler {
  import opened Wrappers
  import opened Bytes

  /** A captured packet; for the packets of the bulk endpoint `dataLen` is the length of `capdata`. */
  datatype UsbPacket = UsbPacket(endpoint: int, dataLen: nat, capdata: seq<byte>)

  datatype BulkCommand = BulkCommand(
    session: u32,
    totalLen: u32,
    dest: u32,
    fragmentLen: u32,
    fragmentOffset: u32,
    moreFragments: byte)

  /** Any packet of exactly 32 bytes reads as a command. */
  function ParseBulkCommand(packet: UsbPacket): Option<BulkCommand> {
    if packet.dataLen != 32 || |packet.capdata| < 32 then None
    else
      var b := packet.capdata;
      Some(BulkCommand(Get32(b, 0), Get32(b, 4), Get32(b, 8), Get32(b, 12), Get32(b, 16), b[0x14]))
  }

  // ---- one transfer being put together ----

  datatype Asm = Asm(first: BulkCommand, last: BulkCommand, data: seq<byte>, received: seq<byte>, fragments: nat) {
    predicate Sized(n: nat) { |data| == |received| == n }

    predicate Complete() { forall i :: 0 <= i < |received| ==> received[i] != 0 }
  }

  function Fill(n: nat, b: byte): (s: seq<byte>)
    ensures |s| == n
  {
    seq(n, i => b)
  }

  function Written(s: seq<byte>, at: nat, piece: seq<byte>): (r: seq<byte>)
    requires at + |piece| <= |s|
    ensures |r| == |s|
  {
    s[..at] + piece + s[at + |piece|..]
  }

  function NewAsm(c: BulkCommand): (a: Asm)
    ensures a.Sized(c.totalLen)
  {
    Asm(c, c, Fill(c.totalLen, 0), Fill(c.totalLen, 0), 0)
  }

  function Added(a: Asm, c: BulkCommand, payload: seq<byte>): (r: Asm)
    requires a.Sized(c.totalLen) && c.fragmentOffset + |payload| <= c.totalLen
    ensures r.Sized(c.totalLen)
  {
    a.(data := Written(a.data, c.fragmentOffset, payload),
       received := Written(a.received, c.fragmentOffset, Fill(|payload|, 1)),
       last := c, fragments := a.fragments + 1)
  }

  // ---- the loop ----

  datatype Key = Key(session: u32, dest: u32, totalLen: u32)

  datatype State = State(pending: Option<BulkCommand>, open: map<Key, Asm>, complete: seq<Asm>, malformed: nat) {
    predicate WellFormed() { forall k :: k in open ==> open[k].Sized(k.totalLen) }
  }

  const START := State(None, map[], [], 0)

  /** One round of the loop. */
  function Feed(s: State, packet: UsbPacket, bulkOut: int): (r: State)
    requires s.WellFormed()
    ensures r.WellFormed()
  {
    if packet.endpoint != bulkOut || packet.capdata == [] then s
    else match ParseBulkCommand(packet)
      case Some(c) => s.(pending := Some(c))
      case None =>
        if s.pending.None? then s
        else Accept(s.(pending := None), s.pending.value, packet.capdata)
  }

  function KeyOf(c: BulkCommand): Key {
    Key(c.session, c.dest, c.totalLen)
  }

  function Accept(s: State, c: BulkCommand, payload: seq<byte>): (r: State)
    requires s.WellFormed()
    ensures r.WellFormed()
  {
    var key := KeyOf(c);
    var asm := if key !in s.open || c.fragmentOffset == 0 then NewAsm(c) else s.open[key];
    if c.fragmentOffset + |payload| > c.totalLen then
      s.(open := s.open[key := asm], malformed := s.malformed + 1)
    else
      var a := Added(asm, c, payload);
      if c.moreFragments == 0 || a.Complete() then s.(open := s.open - {key}, complete := s.complete + [a])
      else s.(open := s.open[key := a])
  }

  /** Accept in two steps: put the assembly in place, then add to it. */
  lemma AcceptIs(s: State, c: BulkCommand, payload: seq<byte>)
    requires s.WellFormed()
    ensures var key := KeyOf(c);
            var asm := if key !in s.open || c.fragmentOffset == 0 then NewAsm(c) else s.open[key];
            var t := s.(open := s.open[key := asm]);
            && asm.Sized(c.totalLen) && t.WellFormed()
            && (if c.fragmentOffset + |payload| > c.totalLen
                then Accept(s, c, payload) == t.(malformed := t.malformed + 1)
                else
                  var a := Added(asm, c, payload);
                  var u := t.(open := t.open[key := a]);
                  if c.moreFragments == 0 || a.Complete()
                  then Accept(s, c, payload) == u.(open := u.open - {key}, complete := u.complete + [u.open[key]])
                  else Accept(s, c, payload) == u)
  {
    var key := KeyOf(c);
    var asm := if key !in s.open || c.fragmentOffset == 0 then NewAsm(c) else s.open[key];
    if c.fragmentOffset + |payload| <= c.totalLen {
      var a := Added(asm, c, payload);
      assert s.open[key := asm][key := a] == s.open[key := a];
      assert s.open[key := a] - {key} == s.open - {key};
    }
  }

  function Run(s: State, packets: seq<UsbPacket>, bulkOut: int): (r: State)
    requires s.WellFormed()
    ensures r.WellFormed()
    decreases |packets|
  {
    if packets == [] then s else Run(Feed(s, packets[0], bulkOut), packets[1..], bulkOut)
  }

  lemma {:induction false} RunAppend(s: State, p: seq<UsbPacket>, q: seq<UsbPacket>, bulkOut: int)
    requires s.WellFormed()
    ensures Run(s, p + q, bulkOut) == Run(Run(s, p, bulkOut), q, bulkOut)
    decreases |p|
  {
    if p == [] {
      assert p + q == q;
    } else {
      assert (p + q)[0] == p[0] && (p + q)[1..] == p[1..] + q;
      RunAppend(Feed(s, p[0], bulkOut), p[1..], q, bulkOut);
    }
  }

  /** Packets of other endpoints and empty ones make no difference, wherever they occur. */
  predicate Relevant(packet: UsbPacket, bulkOut: int) {
    packet.endpoint == bulkOut && packet.capdata != []
  }

  function Filtered(packets: seq<UsbPacket>, bulkOut: int): seq<UsbPacket> {
    if packets == [] then []
    else if Relevant(packets[0], bulkOut) then [packets[0]] + Filtered(packets[1..], bulkOut)
    else Filtered(packets[1..], bulkOut)
  }

  lemma {:induction false} OthersIgnored(s: State, packets: seq<UsbPacket>, bulkOut: int)
    requires s.WellFormed()
    ensures Run(s, packets, bulkOut) == Run(s, Filtered(packets, bulkOut), bulkOut)
    decreases |packets|
  {
    if packets != [] {
      OthersIgnored(Feed(s, packets[0], bulkOut), packets[1..], bulkOut);
      if Relevant(packets[0], bulkOut) {
        assert Filtered(packets, bulkOut)[1..] == Filtered(packets[1..], bulkOut);
      }
    }
  }

  // ---- the objects of the program ----

  class Assembly {
    var firstCommand: BulkCommand
    var lastCommand: BulkCommand
    var data: seq<byte>
    var received: seq<byte>
    var fragments: nat

    constructor (command: BulkCommand)
      ensures View() == NewAsm(command)
    {
      firstCommand, lastCommand := command, command;
      data, received := Fill(command.totalLen, 0), Fill(command.totalLen, 0);
      fragments := 0;
    }

    function View(): Asm
      reads this
    {
      Asm(firstCommand, lastCommand, data, received, fragments)
    }

    /** False for the ValueError of a fragment that reaches past the total length. */
    method Add(command: BulkCommand, payload: seq<byte>) returns (ok: bool)
      requires View().Sized(command.totalLen)
      modifies this
      ensures ok == (command.fragmentOffset + |payload| <= command.totalLen)
      ensures View() == if ok then Added(old(View()), command, payload) else old(View())
    {
      var end := command.fragmentOffset + |payload|;
      if end > command.totalLen {
        return false;
      }
      data := Written(data, command.fragmentOffset, payload);
      received := Written(received, command.fragmentOffset, Fill(|payload|, 1));
      lastCommand := command;
      fragments := fragments + 1;
      return true;
    }
  }

  class Collector {
    var pendingCommand: Option<BulkCommand>
    var assemblies: map<Key, Assembly>
    var complete: seq<Assembly>
    var malformed: nat

    /** Every assembly is in one place, so that adding to one leaves the others alone. */
    ghost predicate Separate()
      reads this
    {
      && (forall k, l {:trigger assemblies[k], assemblies[l]} ::
            k in assemblies && l in assemblies && k != l ==> assemblies[k] != assemblies[l])
      && (forall k, i {:trigger assemblies[k], complete[i]} ::
            k in assemblies && 0 <= i < |complete| ==> assemblies[k] != complete[i])
    }

    ghost predicate Shows(s: State)
      reads this, assemblies.Values, complete
    {
      && pendingCommand == s.pending && malformed == s.malformed
      && assemblies.Keys == s.open.Keys
      && (forall k {:trigger assemblies[k]} :: k in assemblies ==> assemblies[k].View() == s.open[k])
      && |complete| == |s.complete|
      && (forall i {:trigger complete[i]} :: 0 <= i < |complete| ==> complete[i].View() == s.complete[i])
    }

    constructor ()
      ensures Shows(START) && Separate()
      ensures assemblies == map[] && complete == []
    {
      pendingCommand, assemblies, complete, malformed := None, map[], [], 0;
    }

    /** One round of the loop over the captured packets. */
    method Process(packet: UsbPacket, bulkOut: int, ghost s: State)
      requires Separate() && Shows(s) && s.WellFormed()
      modifies this, assemblies.Values
      ensures Separate() && Shows(Feed(s, packet, bulkOut))
      ensures forall a :: a in assemblies.Values ==> a in old(assemblies.Values) || fresh(a)
    {
      if packet.endpoint != bulkOut || packet.capdata == [] {
        return;
      }
      var command := ParseBulkCommand(packet);
      if command.Some? {
        pendingCommand := command;
        return;
      }
      if pendingCommand.None? {
        return;
      }
      var c := pendingCommand.value;
      pendingCommand := None;
      TakeFragment(c, packet.capdata, s.(pending := None));
    }

    /** The rest of a round, for a fragment that came with a command. */
    method TakeFragment(c: BulkCommand, payload: seq<byte>, ghost s: State)
      requires Separate() && Shows(s) && s.WellFormed()
      modifies this, assemblies.Values
      ensures Separate() && Shows(Accept(s, c, payload))
      ensures forall a :: a in assemblies.Values ==> a in old(assemblies.Values) || fresh(a)
    {
      AcceptIs(s, c, payload);
      hide Collector.Separate, Collector.Shows, Accept, Added, NewAsm, KeyOf, Assembly.View, Asm.Complete,
           State.WellFormed;
      var key := KeyOf(c);
      var assembly := Find(c, s);
      ghost var t := s.(open := s.open[key := assembly.View()]);
      assert assembly in assemblies.Values;
      Deliver(assembly, c, payload, t);
    }

    /** Adds the fragment and closes the assembly if that was its last one. */
    method Deliver(assembly: Assembly, c: BulkCommand, payload: seq<byte>, ghost t: State)
      requires Separate() && Shows(t) && t.WellFormed() && KeyOf(c) in assemblies && assemblies[KeyOf(c)] == assembly
      modifies this`malformed, this`complete, this`assemblies, assembly
      ensures Separate()
      ensures c.fragmentOffset + |payload| > c.totalLen ==> Shows(t.(malformed := t.malformed + 1))
      ensures c.fragmentOffset + |payload| <= c.totalLen ==>
                var a := Added(t.open[KeyOf(c)], c, payload);
                var u := t.(open := t.open[KeyOf(c) := a]);
                Shows(if c.moreFragments == 0 || a.Complete()
                      then u.(open := u.open - {KeyOf(c)}, complete := u.complete + [u.open[KeyOf(c)]]) else u)
      ensures forall a :: a in assemblies.Values ==> a in old(assemblies.Values)
    {
      hide Collector.Separate, Accept, Added, NewAsm, KeyOf, Assembly.View, Asm.Complete, State.WellFormed;
      var ok := AddTo(assembly, c, payload, t);
      if !ok {
        CountMalformed(t);
        return;
      }
      if c.moreFragments == 0 || assembly.View().Complete() {
        Close(KeyOf(c), t.(open := t.open[KeyOf(c) := assembly.View()]));
      }
    }

    method CountMalformed(ghost t: State)
      requires Separate() && Shows(t)
      modifies this`malformed
      ensures Separate() && Shows(t.(malformed := t.malformed + 1))
    {
      malformed := malformed + 1;
    }

    /** Moves an assembly from the open ones to the complete ones. */
    method Close(key: Key, ghost t: State)
      requires Separate() && Shows(t) && key in assemblies
      modifies this`complete, this`assemblies
      ensures Separate() && Shows(t.(open := t.open - {key}, complete := t.complete + [t.open[key]]))
      ensures forall a :: a in assemblies.Values ==> a in old(assemblies.Values)
    {
      complete := complete + [assemblies[key]];
      assemblies := assemblies - {key};
    }

    /** The open assembly a fragment belongs to; the first fragment starts a new one. */
    method Find(c: BulkCommand, ghost s: State) returns (assembly: Assembly)
      requires Separate() && Shows(s) && s.WellFormed()
      modifies this`assemblies
      ensures KeyOf(c) in assemblies && assemblies[KeyOf(c)] == assembly
      ensures assembly.View() == if KeyOf(c) !in s.open || c.fragmentOffset == 0 then NewAsm(c) else s.open[KeyOf(c)]
      ensures Separate() && Shows(s.(open := s.open[KeyOf(c) := assembly.View()]))
      ensures forall a :: a in assemblies.Values ==> a in old(assemblies.Values) || fresh(a)
    {
      var key := KeyOf(c);
      if key !in assemblies || c.fragmentOffset == 0 {
        assembly := new Assembly(c);
        assemblies := assemblies[key := assembly];
      } else {
        assembly := assemblies[key];
      }
    }

    method AddTo(assembly: Assembly, c: BulkCommand, payload: seq<byte>, ghost t: State) returns (ok: bool)
      requires Separate() && Shows(t) && t.WellFormed() && KeyOf(c) in assemblies && assemblies[KeyOf(c)] == assembly
      modifies assembly
      ensures ok == (c.fragmentOffset + |payload| <= c.totalLen)
      ensures Separate() && assemblies == old(assemblies)
      ensures ok ==> assembly.View() == Added(t.open[KeyOf(c)], c, payload)
      ensures ok ==> Shows(t.(open := t.open[KeyOf(c) := Added(t.open[KeyOf(c)], c, payload)]))
      ensures !ok ==> Shows(t)
    {
      ok := assembly.Add(c, payload);
    }
  }

  /** The loop over all packets of a capture. */
  method Summarize(packets: seq<UsbPacket>, bulkOut: int) returns (r: Collector)
    ensures r.Shows(Run(START, packets, bulkOut))
  {
    r := new Collector();
    ghost var s := START;
    for i := 0 to |packets|
      invariant fresh(r) && r.Separate() && r.Shows(s) && s.WellFormed()
      invariant forall a :: a in r.assemblies.Values ==> fresh(a)
      invariant Run(s, packets[i..], bulkOut) == Run(START, packets, bulkOut)
    {
      r.Process(packets[i], bulkOut, s);
      s := Feed(s, packets[i], bulkOut);
      assert packets[i..][1..] == packets[i + 1..];
    }
  }
}
