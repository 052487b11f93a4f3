/** The sending loop of the vendor's Linux driver (usb_process in main.c, default build), against the
    FrameScheduler of the Rust code, and the memory layout of devices with two display ports. */
module VendorLoop {
  import opened Bytes
  import Scheduler

  const MB := Scheduler.MB

  // ---- layout ----

  /** What usb_process knows about its display port; `ramsize` is in megabytes. */
  datatype Port = Port(dispInterface: nat, interfaceNum: nat, dispcaps: byte, ramsize: byte, run4K30: bool)

  /** Bit 1 of a capability nibble: an external HDMI connector (DVO). */
  predicate HasDvoBit(cap: nat) { cap / 2 % 2 == 1 }

  predicate IsDvo(p: Port) {
    (p.dispInterface == 0 && HasDvoBit(p.dispcaps % 16)) || (p.dispInterface == 1 && HasDvoBit(p.dispcaps / 16 % 16))
  }

  datatype Layout = Layout(cmdBase: int, fb1: int, fb2: int, fb3: int)

  function LayoutOf(p: Port): Layout {
    var tmp := p.ramsize - 18;
    if p.interfaceNum > 1 then
      if IsDvo(p) then
        if p.run4K30 then Layout(0, (tmp - 36) * MB, (tmp - 24) * MB, (tmp - 12) * MB)
        else Layout(0, (tmp - 12) * MB, (tmp - 8) * MB, (tmp - 4) * MB)
      else Layout(tmp * MB, (p.ramsize - 12) * MB, (p.ramsize - 8) * MB, (p.ramsize - 4) * MB)
    else if p.run4K30 then Layout(0, (p.ramsize - 36) * MB, (p.ramsize - 24) * MB, (p.ramsize - 12) * MB)
    else Layout(0, (p.ramsize - 12) * MB, (p.ramsize - 8) * MB, (p.ramsize - 4) * MB)
  }

  /** VramLayout::one_port_1080p. */
  function OnePort1080p(ramsize: byte): Scheduler.Layout
    requires ramsize >= 12
  {
    Scheduler.Layout(0, (ramsize - 12) * 1024 * 1024, (ramsize - 8) * 1024 * 1024, (ramsize - 4) * 1024 * 1024)
  }

  /** VramLayout::two_port_1080p_secondary. */
  function TwoPort1080pSecondary(ramsize: byte): Scheduler.Layout
    requires ramsize >= 18
  {
    Scheduler.Layout((ramsize - 18) * 1024 * 1024, (ramsize - 12) * 1024 * 1024, (ramsize - 8) * 1024 * 1024,
                     (ramsize - 4) * 1024 * 1024)
  }

  predicate SameLayout(l: Layout, r: Scheduler.Layout) {
    l.cmdBase == r.cmdAddr && l.fb1 == r.fb0 && l.fb2 == r.fb1 && l.fb3 == r.fb2
  }

  /** The two programs lay out memory alike for a device with one port, and for the port without DVO of a
      device with two. */
  lemma LayoutsAgree(p: Port)
    requires p.ramsize >= 18 && !p.run4K30
    ensures p.interfaceNum <= 1 ==> SameLayout(LayoutOf(p), OnePort1080p(p.ramsize))
    ensures p.interfaceNum > 1 ==> (SameLayout(LayoutOf(p), TwoPort1080pSecondary(p.ramsize)) <==> !IsDvo(p))
  {
  }

  // ---- the loop ----

  /** The variables of the loop. */
  datatype Loop = Loop(cmdAddr: int, fbAddr: int, count: int, cmdoffset: int, resetflag: int)

  /** A frame out of the queue: whether the display mode is set when it comes, and whether the transfer
      succeeds. */
  datatype Frame = Frame(length: nat, modeSet: bool, sendOk: bool)

  /** A transfer: the addresses and the flag it goes out with. */
  datatype Use = Use(cmdAddr: int, fbAddr: int, resetflag: int, length: nat)

  function NextFb(l: Layout, fbAddr: int): int {
    if fbAddr == l.fb1 then l.fb2
    else if fbAddr == l.fb2 then l.fb3
    else l.fb1
  }

  function CmdOffset(length: nat): int {
    var len := length + 1024 + 48;
    if len < 0x10_0000 then 0x10_0000 else if len < 0x20_0000 then 0x20_0000 else 0x30_0000
  }

  /** The variables when a frame is sent. */
  function Aim(l: Layout, run4K30: bool, s: Loop, length: nat): Loop {
    var fb := NextFb(l, s.fbAddr);
    if run4K30 then s.(fbAddr := fb)
    else
      var offset := CmdOffset(length);
      var wraps := s.cmdAddr + offset > l.fb1;
      Loop(if wraps then l.cmdBase else s.cmdAddr, fb, s.count + 1, offset,
           if wraps || s.count + 1 < 10 then 0x80 else 0)
  }

  /** Everything the loop sends for a queue of frames. A frame without display mode is thrown away; a
      failed transfer ends the loop. */
  function Uses(l: Layout, run4K30: bool, s: Loop, frames: seq<Frame>): seq<Use>
    decreases |frames|
  {
    if frames == [] then []
    else if !frames[0].modeSet then Uses(l, run4K30, s, frames[1..])
    else
      var t := Aim(l, run4K30, s, frames[0].length);
      var use := Use(t.cmdAddr, t.fbAddr, t.resetflag, frames[0].length);
      if !frames[0].sendOk then [use] else [use] + Uses(l, run4K30, t.(cmdAddr := t.cmdAddr + t.cmdoffset), frames[1..])
  }

  function Start(l: Layout): Loop { Loop(l.cmdBase, l.fb2, 0, MB, 0) }

  class UsbProcess {
    const port: Port
    var cmdAddr: int
    var fbAddr: int
    ghost var sent: seq<Use>

    constructor (port: Port)
      ensures this.port == port && sent == []
    {
      this.port, sent := port, [];
      cmdAddr, fbAddr := 0, 0;
    }

    /** usb_process on the frames that the queue delivers. */
    method Run(frames: seq<Frame>)
      modifies this
      ensures sent == old(sent) + Uses(LayoutOf(port), port.run4K30, Start(LayoutOf(port)), frames)
    {
      var l := LayoutOf(port);
      var count, cmdoffset, resetflag := 0, MB, 0;
      cmdAddr, fbAddr := l.cmdBase, l.fb2;
      var i := 0;
      hide LayoutOf;
      while i < |frames|
        invariant 0 <= i <= |frames|
        invariant sent + Uses(l, port.run4K30, Loop(cmdAddr, fbAddr, count, cmdoffset, resetflag), frames[i..])
               == old(sent) + Uses(l, port.run4K30, Start(l), frames)
      {
        var frame := frames[i];
        ghost var rest := frames[i + 1..];
        assert frames[i..] == [frame] + rest;
        i := i + 1;
        if frame.modeSet {
          ghost var aimed := Aim(l, port.run4K30, Loop(cmdAddr, fbAddr, count, cmdoffset, resetflag), frame.length);
          if fbAddr == l.fb1 { fbAddr := l.fb2; }
          else if fbAddr == l.fb2 { fbAddr := l.fb3; }
          else if fbAddr == l.fb3 { fbAddr := l.fb1; }
          else { fbAddr := l.fb1; }
          if !port.run4K30 {
            cmdoffset := CmdOffset(frame.length);
            if cmdAddr + cmdoffset > l.fb1 {
              cmdAddr := l.cmdBase;
              resetflag := 0x80;
            } else {
              resetflag := 0;
            }
            count := count + 1;
            if count < 10 { resetflag := 0x80; }
          }
          assert aimed == Loop(cmdAddr, fbAddr, count, cmdoffset, resetflag);
          sent := sent + [Use(cmdAddr, fbAddr, resetflag, frame.length)];
          if !frame.sendOk {
            return;
          }
          cmdAddr := cmdAddr + cmdoffset;
        }
      }
      assert frames[i..] == [];
    }
  }

  // ---- lockstep with the Rust scheduler ----

  function Sends(lengths: seq<nat>): seq<Frame>
  {
    if lengths == [] then [] else [Frame(lengths[0], true, true)] + Sends(lengths[1..])
  }

  function Offsets(lengths: seq<nat>): (r: seq<u32>)
    ensures |r| == |lengths|
  {
    if lengths == [] then [] else [Scheduler.JpegOffset(lengths[0])] + Offsets(lengths[1..])
  }

  /** A layout both programs can use: below 2 GB, so that no sum overflows, with three different framebuffers. */
  predicate Usable(l: Scheduler.Layout) {
    l.cmdAddr < 0x7000_0000 && l.fb0 < 0x7000_0000 && l.fb0 != l.fb1 && l.fb1 != l.fb2 && l.fb0 != l.fb2
  }

  /** The two states match after `n` frames, with framebuffer `index` used last. */
  predicate InStep(l: Scheduler.Layout, s: Loop, r: Scheduler.Ring, index: nat, n: nat) {
    && s.cmdAddr == r.addr && s.fbAddr == l.Fb(index) && index < 3 && s.count == n
    && r.initial == l.cmdAddr && r.wrap == l.fb0 && r.resets == (if n < 10 then 10 - n else 0)
    && r.initial <= r.addr < 0x7000_0000 + 3 * MB && (n > 0 ==> r.initial < r.addr)
  }

  function NextIndex(index: nat): nat { (index + 1) % 3 }

  /** The framebuffer of frame `i` when `index` was used before it. */
  function FbAfter(q: Scheduler.Layout, index: nat, i: nat): u32 { q.Fb((index + 1 + i) % 3) }

  lemma StepTogether(l: Layout, q: Scheduler.Layout, s: Loop, r: Scheduler.Ring, index: nat, n: nat, length: nat)
    requires SameLayout(l, q) && Usable(q) && InStep(q, s, r, index, n)
    ensures var t := Aim(l, false, s, length);
            var slot := Scheduler.Take(r, Scheduler.JpegOffset(length));
            index < 3 && t.cmdAddr == slot.addr && t.fbAddr == FbAfter(q, index, 0) && t.cmdoffset == slot.offset
            && (n != 9 ==> (t.resetflag == 0x80 <==> slot.reset))
            && (n == 9 ==> slot.reset && (t.resetflag == 0x80 <==> slot.addr == q.cmdAddr))
            && InStep(q, t.(cmdAddr := t.cmdAddr + t.cmdoffset), Scheduler.Next(r, Scheduler.JpegOffset(length)),
                      NextIndex(index), n + 1)
  {
    assert Scheduler.JpegOffset(length) == CmdOffset(length);
    hide Scheduler.JpegOffset;
    assert index == 0 || index == 1 || index == 2;
  }

  /** Frame `i` goes to the same places in both streams. */
  predicate Matches(q: Scheduler.Layout, index: nat, n: nat, uses: seq<Use>, slots: seq<Scheduler.Slot>, i: nat) {
    i < |uses| == |slots| && uses[i].cmdAddr == slots[i].addr && uses[i].fbAddr == FbAfter(q, index, i)
    && (n + i != 9 ==> (uses[i].resetflag == 0x80 <==> slots[i].reset))
    && (n + i == 9 ==> slots[i].reset && (uses[i].resetflag == 0x80 <==> slots[i].addr == q.cmdAddr))
  }

  lemma {:induction false} StreamsTogether(
    l: Layout, q: Scheduler.Layout, s: Loop, r: Scheduler.Ring, index: nat, n: nat, lengths: seq<nat>, i: nat)
    requires SameLayout(l, q) && Usable(q) && InStep(q, s, r, index, n) && i < |lengths|
    ensures |Uses(l, false, s, Sends(lengths))| == |lengths|
    ensures Matches(q, index, n, Uses(l, false, s, Sends(lengths)), Scheduler.Slots(r, Offsets(lengths)), i)
    decreases |lengths|
  {
    hide *;
    StepTogether(l, q, s, r, index, n, lengths[0]);
    FirstOfBoth(l, s, r, lengths);
    var t := Aim(l, false, s, lengths[0]);
    var after := t.(cmdAddr := t.cmdAddr + t.cmdoffset);
    var slot := Scheduler.Take(r, Scheduler.JpegOffset(lengths[0]));
    var next := Scheduler.Next(r, Scheduler.JpegOffset(lengths[0]));
    var use := Use(t.cmdAddr, t.fbAddr, t.resetflag, lengths[0]);
    var uses, slots := Uses(l, false, after, Sends(lengths[1..])), Scheduler.Slots(next, Offsets(lengths[1..]));
    if |lengths| > 1 {
      StreamsTogether(l, q, after, next, NextIndex(index), n + 1, lengths[1..], if i > 0 then i - 1 else 0);
    } else {
      NothingLeft(l, after, lengths[1..]);
    }
    Prepend(q, index, n, use, uses, slot, slots, i);
  }

  lemma Prepend(
    q: Scheduler.Layout, index: nat, n: nat, use: Use, uses: seq<Use>, slot: Scheduler.Slot, slots: seq<Scheduler.Slot>,
    i: nat)
    requires |uses| == |slots| && i <= |uses| && index < 3
    requires i > 0 ==> Matches(q, NextIndex(index), n + 1, uses, slots, i - 1)
    requires use.cmdAddr == slot.addr && use.fbAddr == FbAfter(q, index, 0)
    requires n != 9 ==> (use.resetflag == 0x80 <==> slot.reset)
    requires n == 9 ==> slot.reset && (use.resetflag == 0x80 <==> slot.addr == q.cmdAddr)
    ensures Matches(q, index, n, [use] + uses, [slot] + slots, i)
  {
    if i > 0 { Cycle(q, index, i); }
    hide FbAfter, NextIndex;
  }

  lemma NothingLeft(l: Layout, s: Loop, lengths: seq<nat>)
    requires lengths == []
    ensures Uses(l, false, s, Sends(lengths)) == []
  {
  }

  lemma FirstOfBoth(l: Layout, s: Loop, r: Scheduler.Ring, lengths: seq<nat>)
    requires lengths != []
    ensures var t := Aim(l, false, s, lengths[0]);
            Uses(l, false, s, Sends(lengths))
            == [Use(t.cmdAddr, t.fbAddr, t.resetflag, lengths[0])]
             + Uses(l, false, t.(cmdAddr := t.cmdAddr + t.cmdoffset), Sends(lengths[1..]))
    ensures var o := Scheduler.JpegOffset(lengths[0]);
            Scheduler.Slots(r, Offsets(lengths))
              == [Scheduler.Take(r, o)] + Scheduler.Slots(Scheduler.Next(r, o), Offsets(lengths[1..]))
  {
    hide Aim, Scheduler.Next, Scheduler.Take, Scheduler.JpegOffset;
    assert Sends(lengths)[1..] == Sends(lengths[1..]);
    assert Offsets(lengths)[1..] == Offsets(lengths[1..]);
  }

  lemma Cycle(q: Scheduler.Layout, index: nat, i: nat)
    requires i > 0 && index < 3
    ensures FbAfter(q, NextIndex(index), i - 1) == FbAfter(q, index, i)
  {
    if index == 2 { assert (3 + i) % 3 == i % 3; }
  }

  /** The Rust layout for the same port. */
  function RustLayout(p: Port): Scheduler.Layout
    requires p.ramsize >= 18
  {
    if p.interfaceNum > 1 then TwoPort1080pSecondary(p.ramsize) else OnePort1080p(p.ramsize)
  }

  /** For every sequence of JPEG sizes the vendor loop and the Rust scheduler use the same command
      address and the same framebuffer for every frame, and set the reset flag alike on every frame but
      the tenth. There the Rust code always sets it, and the vendor loop only if the ring starts over. */
  lemma Lockstep(p: Port, lengths: seq<nat>, i: nat)
    requires !p.run4K30 && p.ramsize >= 18 && (p.interfaceNum > 1 ==> !IsDvo(p)) && i < |lengths|
    ensures var q := RustLayout(p);
            var uses := Uses(LayoutOf(p), false, Start(LayoutOf(p)), Sends(lengths));
            var slots := Scheduler.Slots(Scheduler.Ring(q.cmdAddr, q.cmdAddr, q.fb0, 10), Offsets(lengths));
            |uses| == |lengths| && uses[i].cmdAddr == slots[i].addr && uses[i].fbAddr == q.Fb((i + 2) % 3)
            && (i != 9 ==> (uses[i].resetflag == 0x80 <==> slots[i].reset))
            && (i == 9 ==> slots[i].reset && (uses[i].resetflag == 0x80 <==> uses[i].cmdAddr == q.cmdAddr))
  {
    LayoutsAgree(p);
    var q := RustLayout(p);
    StreamsTogether(LayoutOf(p), q, Start(LayoutOf(p)), Scheduler.Ring(q.cmdAddr, q.cmdAddr, q.fb0, 10), 1, 0, lengths,
                    i);
    hide Uses, Scheduler.Slots, Sends, Offsets, LayoutOf;
  }

  /** The tenth frame differs: ten small frames in a large ring. */
  lemma TenthFrameDiffers()
    ensures var p := Port(0, 1, 0, 64, false);
            var lengths := seq(10, k => 1000 as nat);
            var uses := Uses(LayoutOf(p), false, Start(LayoutOf(p)), Sends(lengths));
            |uses| > 9 && uses[9].resetflag == 0
  {
    var p := Port(0, 1, 0, 64, false);
    var lengths: seq<nat> := seq(10, k => 1000 as nat);
    var q := OnePort1080p(64);
    SmallFrames(LayoutOf(p), Start(LayoutOf(p)), lengths, 9);
  }

  lemma {:induction false} SmallFrames(l: Layout, s: Loop, lengths: seq<nat>, i: nat)
    requires l == LayoutOf(Port(0, 1, 0, 64, false)) && i < |lengths|
    requires (forall k :: 0 <= k < |lengths| ==> lengths[k] == 1000)
    requires s.cmdAddr == s.count * MB && s.count + i == 9
    ensures var uses := Uses(l, false, s, Sends(lengths));
            |uses| > i && uses[i].resetflag == 0
    decreases i
  {
    var t := Aim(l, false, s, 1000);
    assert Sends(lengths)[1..] == Sends(lengths[1..]);
    if i > 0 { SmallFrames(l, t.(cmdAddr := t.cmdAddr + t.cmdoffset), lengths[1..], i - 1); }
  }

  // ---- two ports ----

  /** How far apart the framebuffers of a port are. */
  function SlotSize(p: Port): nat {
    if p.interfaceNum > 1 && !IsDvo(p) then 4 * MB else if p.run4K30 then 12 * MB else 4 * MB
  }

  /** A frame whose packet and whose decoded picture fit the space that is meant for them; in the 4K mode
      the packet itself goes to the framebuffer. */
  predicate InSlot(p: Port, length: nat, decoded: nat) {
    if p.run4K30 then length + 1072 <= SlotSize(p)
    else length + 1072 <= 3 * MB && decoded <= SlotSize(p)
  }

  /** The addresses a transfer makes the device write: the packet and the decoded picture. */
  predicate Touches(p: Port, use: Use, decoded: nat, a: int) {
    if p.run4K30 then use.fbAddr <= a < use.fbAddr + use.length + 1072
    else use.cmdAddr <= a < use.cmdAddr + use.length + 1072 || use.fbAddr <= a < use.fbAddr + decoded
  }

  /** The space of a port: its command ring and its framebuffers. */
  predicate InRegion(p: Port, a: int) {
    var l := LayoutOf(p);
    (!p.run4K30 && l.cmdBase <= a < l.fb1)
    || l.fb1 <= a < l.fb1 + SlotSize(p) || l.fb2 <= a < l.fb2 + SlotSize(p) || l.fb3 <= a < l.fb3 + SlotSize(p)
  }

  /** The two ports of one device. */
  predicate Pair(p: Port, q: Port) {
    p.dispInterface == 0 && q.dispInterface == 1 && p.interfaceNum == q.interfaceNum && p.interfaceNum > 1
    && p.dispcaps == q.dispcaps && p.ramsize == q.ramsize
  }

  /** Memory for a command ring of 3 MB, or for three 4K framebuffers, beside the other port. */
  predicate EnoughRam(p: Port) { p.ramsize >= (if p.run4K30 && IsDvo(p) then 54 else 33) }

  predicate ExactlyOneDvo(p: Port, q: Port) { IsDvo(p) != IsDvo(q) }

  /** The spaces of two ports are disjoint exactly if one of them is the DVO port. */
  lemma RegionsDisjoint(p: Port, q: Port)
    requires Pair(p, q) && EnoughRam(p) && EnoughRam(q)
    ensures ExactlyOneDvo(p, q) <==> forall a: int :: !(InRegion(p, a) && InRegion(q, a))
  {
    var tmp := p.ramsize - 18;
    if ExactlyOneDvo(p, q) {
      forall a: int ensures !(InRegion(p, a) && InRegion(q, a)) {
        if InRegion(p, a) && InRegion(q, a) {
          if IsDvo(p) { Low(p, a); High(q, a); } else { High(p, a); Low(q, a); }
        }
      }
    } else {
      var a := if IsDvo(p) then (tmp - 1) * MB else (p.ramsize - 1) * MB;
      assert InRegion(p, a) && InRegion(q, a);
    }
  }

  lemma Low(p: Port, a: int)
    requires p.interfaceNum > 1 && IsDvo(p) && InRegion(p, a) && EnoughRam(p)
    ensures a < (p.ramsize - 18) * MB
  {
  }

  lemma High(p: Port, a: int)
    requires p.interfaceNum > 1 && !IsDvo(p) && InRegion(p, a)
    ensures a >= (p.ramsize - 18) * MB
  {
  }

  predicate AllInSlot(p: Port, frames: seq<Frame>, decoded: nat) {
    forall i :: 0 <= i < |frames| ==> InSlot(p, frames[i].length, decoded)
  }

  /** Over a whole run a port writes only its own space. */
  lemma {:induction false} UsesInside(p: Port, s: Loop, frames: seq<Frame>, decoded: nat, i: nat, a: int)
    requires p.interfaceNum > 1 && EnoughRam(p) && AllInSlot(p, frames, decoded) && LayoutOf(p).cmdBase <= s.cmdAddr
    requires s.cmdoffset >= 0
    requires i < |Uses(LayoutOf(p), p.run4K30, s, frames)|
    requires Touches(p, Uses(LayoutOf(p), p.run4K30, s, frames)[i], decoded, a)
    ensures InRegion(p, a)
    decreases |frames|
  {
    var l := LayoutOf(p);
    if !frames[0].modeSet {
      UsesInside(p, s, frames[1..], decoded, i, a);
    } else {
      var t := Aim(l, p.run4K30, s, frames[0].length);
      AimInside(p, s, frames[0].length);
      var use := Use(t.cmdAddr, t.fbAddr, t.resetflag, frames[0].length);
      hide Aim, LayoutOf, InRegion;
      if i == 0 {
        assert InSlot(p, frames[0].length, decoded);
        OneInside(p, use, decoded, a);
      } else {
        UsesInside(p, t.(cmdAddr := t.cmdAddr + t.cmdoffset), frames[1..], decoded, i - 1, a);
      }
    }
  }

  lemma AimInside(p: Port, s: Loop, length: nat)
    requires p.interfaceNum > 1 && EnoughRam(p) && LayoutOf(p).cmdBase <= s.cmdAddr && s.cmdoffset >= 0
    ensures var l, t := LayoutOf(p), Aim(LayoutOf(p), p.run4K30, s, length);
            l.cmdBase <= t.cmdAddr && t.cmdoffset >= 0 && (t.fbAddr == l.fb1 || t.fbAddr == l.fb2 || t.fbAddr == l.fb3)
            && (!p.run4K30 ==> t.cmdAddr + CmdOffset(length) <= l.fb1)
  {
  }

  lemma OneInside(p: Port, use: Use, decoded: nat, a: int)
    requires InSlot(p, use.length, decoded) && Touches(p, use, decoded, a)
    requires var l := LayoutOf(p);
             l.cmdBase <= use.cmdAddr && (use.fbAddr == l.fb1 || use.fbAddr == l.fb2 || use.fbAddr == l.fb3)
             && (!p.run4K30 ==> use.cmdAddr + CmdOffset(use.length) <= l.fb1)
    ensures InRegion(p, a)
  {
    hide LayoutOf;
  }

  /** With exactly one DVO port, no byte is ever written for both ports, whatever frames they send. */
  lemma PortsDoNotInterfere(
    p: Port, q: Port, framesP: seq<Frame>, framesQ: seq<Frame>, decodedP: nat, decodedQ: nat, i: nat, j: nat, a: int)
    requires Pair(p, q) && EnoughRam(p) && EnoughRam(q) && ExactlyOneDvo(p, q)
    requires AllInSlot(p, framesP, decodedP) && AllInSlot(q, framesQ, decodedQ)
    requires i < |Uses(LayoutOf(p), p.run4K30, Start(LayoutOf(p)), framesP)|
             && j < |Uses(LayoutOf(q), q.run4K30, Start(LayoutOf(q)), framesQ)|
    requires Touches(p, Uses(LayoutOf(p), p.run4K30, Start(LayoutOf(p)), framesP)[i], decodedP, a)
    ensures !Touches(q, Uses(LayoutOf(q), q.run4K30, Start(LayoutOf(q)), framesQ)[j], decodedQ, a)
  {
    UsesInside(p, Start(LayoutOf(p)), framesP, decodedP, i, a);
    RegionsDisjoint(p, q);
    if Touches(q, Uses(LayoutOf(q), q.run4K30, Start(LayoutOf(q)), framesQ)[j], decodedQ, a) {
      UsesInside(q, Start(LayoutOf(q)), framesQ, decodedQ, j, a);
    }
    hide Uses, Touches, AllInSlot, LayoutOf, InRegion, EnoughRam;
  }

  // ---- the 4K mode ----

  /** In the 4K mode the command address is not used, but it still grows by 1 MB with every frame. */
  lemma {:induction false} Grows(l: Layout, s: Loop, frames: seq<Frame>, i: nat)
    requires s.cmdoffset == MB && i < |frames|
    requires (forall k :: 0 <= k < |frames| ==> frames[k].modeSet && frames[k].sendOk)
    ensures var uses := Uses(l, true, s, frames);
            |uses| == |frames| && uses[i].cmdAddr == s.cmdAddr + i * MB
    decreases |frames|
  {
    var t := Aim(l, true, s, frames[0].length);
    if |frames| > 1 {
      Grows(l, t.(cmdAddr := t.cmdAddr + t.cmdoffset), frames[1..], if i > 0 then i - 1 else 0);
    }
  }

  /** So on the port whose ring starts at zero it fits a 32-bit int for exactly the first 2048 frames, and
      on the other port for as many fewer as its ring starts megabytes up. */
  lemma OutgrowsInt(p: Port, frames: seq<Frame>, i: nat)
    requires p.run4K30 && i < |frames| && (forall k :: 0 <= k < |frames| ==> frames[k].modeSet && frames[k].sendOk)
    ensures var l := LayoutOf(p);
            var uses := Uses(l, true, Start(l), frames);
            |uses| == |frames| && (uses[i].cmdAddr <= 0x7FFF_FFFF <==> i < 2048 - l.cmdBase / MB)
    ensures p.interfaceNum <= 1 || IsDvo(p) ==> LayoutOf(p).cmdBase == 0
  {
    Grows(LayoutOf(p), Start(LayoutOf(p)), frames, i);
    hide Uses;
  }
}
