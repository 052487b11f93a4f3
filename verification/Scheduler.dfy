/** The command ring: where in device memory each packet goes (lib.rs). */
module Scheduler {
  import opened Bytes

  const VIDEO_FLIP_HEADER_SIZE := 48
  const JPEG_PADDING_SIZE := 1024
  const MB := 0x10_0000

  // ---- how much of the ring a packet takes ----

  function JpegCmdOffset(payloadLen: nat): u32 {
    if payloadLen < 0x10_0000 then 0x10_0000
    else if payloadLen < 0x20_0000 then 0x20_0000
    else 0x30_0000
  }

  /** What next_jpeg_payload takes for a JPEG, whose packet is header, image and padding. */
  function JpegOffset(jpegLen: nat): u32 {
    JpegCmdOffset(jpegLen + JPEG_PADDING_SIZE + VIDEO_FLIP_HEADER_SIZE)
  }

  /** A JPEG packet stays in what the ring gave it exactly as long as it is at most 3 MB. */
  lemma JpegPacketFits(jpegLen: nat)
    ensures VIDEO_FLIP_HEADER_SIZE + jpegLen + JPEG_PADDING_SIZE <= JpegOffset(jpegLen) <==> jpegLen <= 3 * MB - 1072
  {
  }

  function AlignedTo1K(dataLen: nat): nat { DivCeil(dataLen + 0x450, 0x400) * 0x400 }

  function Type7Mode6CmdOffset(dataLen: nat): u32 {
    Wrap32(AlignedTo1K(dataLen) - 0x20)
  }

  /** A Type4 or Type7 packet is as long as the ring space it gets, and that has room for the header,
      the data and the padding with less than 1 KB to spare, exactly as long as the length fits 32 bits;
      so padding the packet to that length never cuts it. */
  lemma Type7OffsetHolds(dataLen: nat)
    ensures dataLen + 0x450 <= TWO32 <==>
      VIDEO_FLIP_HEADER_SIZE + dataLen + JPEG_PADDING_SIZE <= Type7Mode6CmdOffset(dataLen)
    ensures dataLen + 0x450 <= TWO32 ==>
      Type7Mode6CmdOffset(dataLen) < VIDEO_FLIP_HEADER_SIZE + dataLen + JPEG_PADDING_SIZE + 0x400
  {
    var a := AlignedTo1K(dataLen);
    assert dataLen + 0x450 <= a < dataLen + 0x450 + 0x400 && a % 0x400 == 0;
    hide AlignedTo1K;
    if dataLen + 0x450 <= TWO32 { assert a <= TWO32; }
  }

  /** t6-send-type7.rs steps from one captured packet to the next with this. */
  function NextRingAddr(payloadAddr: u32, payloadLen: nat): u32 {
    var sum := if Wrap32(payloadLen) + 0x3FF < TWO32 then Wrap32(payloadLen) + 0x3FF else TWO32 - 1;
    var aligned := sum / 0x400 * 0x400;
    Wrap32(payloadAddr + (if aligned < 32 then 0 else aligned - 32))
  }

  /** The two programs step by the same amount, until the rounding in next_ring_addr saturates. */
  lemma NextRingAddrAgrees(payloadAddr: u32, dataLen: nat)
    requires dataLen + 0x450 <= TWO32
    ensures NextRingAddr(payloadAddr, Type7Mode6CmdOffset(dataLen))
         == Wrap32(payloadAddr + Type7Mode6CmdOffset(dataLen))
       <==> dataLen + 0x450 <= TWO32 - 0x400
  {
    var a := AlignedTo1K(dataLen);
    assert dataLen + 0x450 <= a < dataLen + 0x450 + 0x400 && a % 0x400 == 0;
    hide AlignedTo1K;
    var k := a / 0x400;
    assert a == 0x400 * k && Type7Mode6CmdOffset(dataLen) == a - 0x20;
    if a < TWO32 {
      assert (a - 0x20 + 0x3FF) / 0x400 == k;
    } else {
      assert a == TWO32;
      assert (TWO32 - 1) / 0x400 * 0x400 == TWO32 - 0x400;
    }
  }

  // ---- the ring ----

  datatype Ring = Ring(initial: u32, addr: u32, wrap: u32, resets: nat)

  datatype Slot = Slot(addr: u32, offset: u32, reset: bool)
  {
    function End(): nat { addr + offset }
  }

  /** Whether the next request starts over at the bottom of the ring; the sum is a 32-bit one. */
  predicate Wraps(r: Ring, offset: u32) { Wrap32(r.addr + offset) > r.wrap }

  function Take(r: Ring, offset: u32): Slot {
    Slot(if Wraps(r, offset) then r.initial else r.addr, offset, Wraps(r, offset) || r.resets > 0)
  }

  function Next(r: Ring, offset: u32): Ring {
    r.(addr := Wrap32(Take(r, offset).addr + offset), resets := if r.resets > 0 then r.resets - 1 else 0)
  }

  function After(r: Ring, offsets: seq<u32>): Ring
    decreases |offsets|
  {
    if offsets == [] then r else After(Next(r, offsets[0]), offsets[1..])
  }

  function Slots(r: Ring, offsets: seq<u32>): (s: seq<Slot>)
    ensures |s| == |offsets|
    decreases |offsets|
  {
    if offsets == [] then [] else [Take(r, offsets[0])] + Slots(Next(r, offsets[0]), offsets[1..])
  }

  predicate Sound(r: Ring) { r.initial <= r.addr <= r.wrap }

  predicate Inside(r: Ring, s: Slot) { r.initial <= s.addr && s.End() <= r.wrap }

  /** A request the ring can ever serve: not larger than the ring, not empty. */
  predicate Fits(r: Ring, offset: u32) { 0 < offset && r.initial + offset <= r.wrap }

  /** One request that fits is served inside the ring exactly when the 32-bit sum does not overflow. */
  lemma TakeInside(r: Ring, offset: u32)
    requires Sound(r) && Fits(r, offset)
    ensures Inside(r, Take(r, offset)) <==> r.addr + offset < TWO32
    ensures r.addr + offset < TWO32 ==> Sound(Next(r, offset))
  {
  }

  predicate AllFit(r: Ring, offsets: seq<u32>) { forall i :: 0 <= i < |offsets| ==> Fits(r, offsets[i]) }

  /** No sum of a ring address and a request that is reached in the first `n` requests overflows. */
  predicate NoOverflowTo(r: Ring, offsets: seq<u32>, n: nat)
    requires n <= |offsets|
  {
    forall i :: 0 <= i < n ==> After(r, offsets[..i]).addr + offsets[i] < TWO32
  }

  predicate NoOverflow(r: Ring, offsets: seq<u32>) { NoOverflowTo(r, offsets, |offsets|) }

  lemma {:induction false} SlotsStep(r: Ring, offsets: seq<u32>, i: nat)
    requires i < |offsets|
    ensures Slots(r, offsets)[i] == Take(After(r, offsets[..i]), offsets[i])
    ensures After(r, offsets[..i + 1]) == Next(After(r, offsets[..i]), offsets[i])
    decreases i
  {
    if i == 0 {
      assert offsets[..1] == [offsets[0]] && offsets[..0] == [];
      assert [offsets[0]][1..] == [];
    } else {
      var rest := offsets[1..];
      SlotsStep(Next(r, offsets[0]), rest, i - 1);
      assert offsets[..i][1..] == rest[..i - 1] && offsets[..i + 1][1..] == rest[..i];
    }
  }

  lemma {:induction false} AfterSound(r: Ring, offsets: seq<u32>, i: nat)
    requires Sound(r) && AllFit(r, offsets) && i <= |offsets| && NoOverflowTo(r, offsets, i)
    ensures var t := After(r, offsets[..i]);
            Sound(t) && t.initial == r.initial && t.wrap == r.wrap
            && t.resets == (if i <= r.resets then r.resets - i else 0)
  {
    if i == 0 {
      assert offsets[..0] == [];
    } else {
      AfterSound(r, offsets, i - 1);
      SlotsStep(r, offsets, i - 1);
      TakeInside(After(r, offsets[..i - 1]), offsets[i - 1]);
    }
  }

  lemma OneInside(r: Ring, offsets: seq<u32>, i: nat)
    requires Sound(r) && AllFit(r, offsets) && i < |offsets| && NoOverflowTo(r, offsets, i)
    ensures Inside(r, Slots(r, offsets)[i]) <==> After(r, offsets[..i]).addr + offsets[i] < TWO32
  {
    AfterSound(r, offsets, i);
    SlotsStep(r, offsets, i);
    TakeInside(After(r, offsets[..i]), offsets[i]);
  }

  lemma {:induction false} InsideTo(r: Ring, offsets: seq<u32>, n: nat)
    requires Sound(r) && AllFit(r, offsets) && n <= |offsets|
    requires forall i :: 0 <= i < n ==> Inside(r, Slots(r, offsets)[i])
    ensures NoOverflowTo(r, offsets, n)
  {
    if n > 0 {
      InsideTo(r, offsets, n - 1);
      OneInside(r, offsets, n - 1);
    }
  }

  lemma Reached(r: Ring, offsets: seq<u32>, i: nat)
    requires NoOverflow(r, offsets) && i < |offsets|
    ensures NoOverflowTo(r, offsets, i) && After(r, offsets[..i]).addr + offsets[i] < TWO32
  {
    hide After;
  }

  predicate AllInside(r: Ring, offsets: seq<u32>) { forall i :: 0 <= i < |offsets| ==> Inside(r, Slots(r, offsets)[i]) }

  /** Over a whole run every allocation lies in the ring if and only if no sum that is reached overflows. */
  lemma RunInside(r: Ring, offsets: seq<u32>)
    requires Sound(r) && AllFit(r, offsets)
    ensures AllInside(r, offsets) <==> NoOverflow(r, offsets)
  {
    hide Slots, After, Inside, AllFit, NoOverflowTo;
    if NoOverflow(r, offsets) {
      forall i | 0 <= i < |offsets| ensures Inside(r, Slots(r, offsets)[i]) {
        Reached(r, offsets, i);
        OneInside(r, offsets, i);
      }
    } else if AllInside(r, offsets) {
      InsideTo(r, offsets, |offsets|);
    }
  }

  /** None does when every request fits between the end of the ring and the end of the address space. */
  lemma {:induction false} RoomBehind(r: Ring, offsets: seq<u32>, n: nat)
    requires Sound(r) && AllFit(r, offsets) && n <= |offsets|
    requires forall i :: 0 <= i < |offsets| ==> r.wrap + offsets[i] < TWO32
    ensures NoOverflowTo(r, offsets, n)
  {
    if n > 0 {
      RoomBehind(r, offsets, n - 1);
      AfterSound(r, offsets, n - 1);
    }
  }

  /** An allocation starts where the one before it ended, or lower: a new lap. */
  predicate NewLap(slots: seq<Slot>, i: nat)
    requires 0 < i < |slots|
  {
    slots[i].addr < slots[i - 1].End()
  }

  lemma FollowsOrWraps(r: Ring, offsets: seq<u32>, i: nat)
    requires Sound(r) && AllFit(r, offsets) && NoOverflow(r, offsets) && 0 < i < |offsets|
    ensures var s := Slots(r, offsets);
            (NewLap(s, i) <==> Wraps(After(r, offsets[..i]), offsets[i]))
            && (if NewLap(s, i) then s[i].addr == r.initial else s[i].addr == s[i - 1].End())
  {
    hide Slots, After, NoOverflow, NoOverflowTo, Take, Next, Wraps;
    Reached(r, offsets, i - 1);
    Reached(r, offsets, i);
    AfterSound(r, offsets, i - 1);
    SlotsStep(r, offsets, i - 1);
    SlotsStep(r, offsets, i);
    var before := After(r, offsets[..i - 1]);
    assert Fits(before, offsets[i - 1]) && Fits(before, offsets[i]);
    TwoTakes(before, offsets[i - 1], offsets[i]);
  }

  lemma TwoTakes(r: Ring, one: u32, two: u32)
    requires Sound(r) && Fits(r, one) && Fits(r, two) && r.addr + one < TWO32 && Next(r, one).addr + two < TWO32
    ensures var a, b := Take(r, one), Take(Next(r, one), two);
            (b.addr < a.End() <==> Wraps(Next(r, one), two))
            && (if b.addr < a.End() then b.addr == r.initial else b.addr == a.End())
  {
    TakeInside(r, one);
    var n := Next(r, one);
    assert n.addr == Take(r, one).End() && n.initial == r.initial;
    hide Next, Fits;
    assert Wrap32(n.addr + two) == n.addr + two;
  }

  /** For a ring that starts at its bottom the reset flag is set on the first calls, as many as were asked
      for (ten, in a new scheduler), and on every new lap; never else. */
  lemma ResetExactly(r: Ring, offsets: seq<u32>, i: nat)
    requires Sound(r) && AllFit(r, offsets) && NoOverflow(r, offsets) && i < |offsets| && r.addr == r.initial
    ensures var s := Slots(r, offsets);
            s[i].reset <==> i < r.resets || (i > 0 && NewLap(s, i))
  {
    Reached(r, offsets, i);
    AfterSound(r, offsets, i);
    SlotsStep(r, offsets, i);
    hide *;
    if i > 0 { FollowsOrWraps(r, offsets, i); } else { FirstStays(r, offsets); }
    TakeResets(After(r, offsets[..i]), offsets[i]);
  }

  lemma TakeResets(r: Ring, offset: u32)
    ensures Take(r, offset).reset <==> Wraps(r, offset) || r.resets > 0
  {
  }

  lemma FirstStays(r: Ring, offsets: seq<u32>)
    requires Sound(r) && AllFit(r, offsets) && NoOverflow(r, offsets) && offsets != [] && r.addr == r.initial
    ensures !Wraps(After(r, offsets[..0]), offsets[0])
  {
    assert offsets[..0] == [] && Fits(r, offsets[0]) && After(r, offsets[..0]).addr + offsets[0] < TWO32;
  }

  lemma {:induction false} LapAscends(r: Ring, offsets: seq<u32>, i: nat, j: nat)
    requires Sound(r) && AllFit(r, offsets) && NoOverflow(r, offsets) && i < j < |offsets|
    requires forall k :: i < k <= j ==> !NewLap(Slots(r, offsets), k)
    ensures Slots(r, offsets)[i].End() <= Slots(r, offsets)[j].addr
  {
    FollowsOrWraps(r, offsets, j);
    if i + 1 < j {
      LapAscends(r, offsets, i, j - 1);
    }
  }

  predicate Overlap(a: Slot, b: Slot) { a.addr < b.End() && b.addr < a.End() }

  lemma NewLapResets(r: Ring, offsets: seq<u32>, i: nat)
    requires Sound(r) && AllFit(r, offsets) && NoOverflow(r, offsets) && 0 < i < |offsets|
    requires NewLap(Slots(r, offsets), i)
    ensures Slots(r, offsets)[i].reset
  {
    FollowsOrWraps(r, offsets, i);
    SlotsStep(r, offsets, i);
    hide Slots, After, Wraps, NewLap, AllFit, NoOverflow;
  }

  /** Two allocations that share a byte have a reset frame at the later one or between them. */
  lemma OverlapNeedsReset(r: Ring, offsets: seq<u32>, i: nat, j: nat)
    requires Sound(r) && AllFit(r, offsets) && NoOverflow(r, offsets) && i < j < |offsets|
    requires Overlap(Slots(r, offsets)[i], Slots(r, offsets)[j])
    ensures exists k :: i < k <= j && Slots(r, offsets)[k].reset
  {
    if forall k :: i < k <= j ==> !NewLap(Slots(r, offsets), k) {
      LapAscends(r, offsets, i, j);
      assert false;
    }
    var k :| i < k <= j && NewLap(Slots(r, offsets), k);
    NewLapResets(r, offsets, k);
  }

  /** A new scheduler whose ring is set near the top of the 32-bit range. */
  const HIGH := Ring(0xFF00_0000, 0xFF00_0000, 0xFFF0_0000, 10)

  /** There the sum does overflow: the sixth 3 MB request of this run is placed past the end of its ring. */
  lemma OverflowEscapes()
    ensures var offsets := seq(6, i => 0x30_0000 as u32);
            Sound(HIGH) && AllFit(HIGH, offsets) && !Inside(HIGH, Slots(HIGH, offsets)[5])
  {
    var offsets: seq<u32> := seq(6, i => 0x30_0000 as u32);
    Climbs(HIGH, offsets, 5);
    SlotsStep(HIGH, offsets, 5);
  }

  lemma {:induction false} Climbs(r: Ring, offsets: seq<u32>, i: nat)
    requires r == HIGH && i <= 5
    requires |offsets| == 6 && (forall k :: 0 <= k < 6 ==> offsets[k] == 0x30_0000)
    ensures After(r, offsets[..i]) == r.(addr := 0xFF00_0000 + i * 0x30_0000, resets := 10 - i)
  {
    if i == 0 {
      assert offsets[..0] == [];
    } else {
      Climbs(r, offsets, i - 1);
      SlotsStep(r, offsets, i - 1);
      assert offsets[i - 1] == 0x30_0000;
      ClimbsOnce(After(r, offsets[..i - 1]), i - 1);
    }
  }

  lemma ClimbsOnce(r: Ring, i: nat)
    requires i < 5 && r == HIGH.(addr := 0xFF00_0000 + i * 0x30_0000, resets := 10 - i)
    ensures Next(r, 0x30_0000) == HIGH.(addr := 0xFF00_0000 + (i + 1) * 0x30_0000, resets := 10 - (i + 1))
  {
  }

  // ---- the scheduler object ----

  datatype Layout = Layout(cmdAddr: u32, fb0: u32, fb1: u32, fb2: u32)
  {
    function Fb(i: nat): u32 { if i == 0 then fb0 else if i == 1 then fb1 else fb2 }
  }

  datatype FrameAddresses = FrameAddresses(slot: Slot, fbAddr: u32)

  class FrameScheduler {
    var initialCmdAddr: u32
    var cmdAddr: u32
    var cmdWrapAddr: u32
    var fbAddrs: Layout
    var fbIndex: nat
    var resetFramesRemaining: nat

    ghost function Contents(): Ring
      reads this
    {
      Ring(initialCmdAddr, cmdAddr, cmdWrapAddr, resetFramesRemaining)
    }

    constructor (layout: Layout)
      ensures Contents() == Ring(layout.cmdAddr, layout.cmdAddr, layout.fb0, 10)
      ensures fbAddrs == layout && fbIndex == 1
    {
      initialCmdAddr, cmdAddr, cmdWrapAddr := layout.cmdAddr, layout.cmdAddr, layout.fb0;
      fbAddrs, fbIndex, resetFramesRemaining := layout, 1, 10;
    }

    method SetCmdRing(addr: u32, wrapAddr: u32)
      modifies this
      ensures Contents() == Ring(addr, addr, wrapAddr, old(resetFramesRemaining))
      ensures fbAddrs == old(fbAddrs) && fbIndex == old(fbIndex)
    {
      initialCmdAddr, cmdAddr, cmdWrapAddr := addr, addr, wrapAddr;
    }

    /** next_video_payload_exact, and the common part of the other requests. */
    method NextVideoPayloadExact(payloadLen: nat, fbAddr: u32) returns (a: FrameAddresses)
      modifies this
      ensures a == FrameAddresses(Take(old(Contents()), Wrap32(payloadLen)), fbAddr)
      ensures Contents() == Next(old(Contents()), Wrap32(payloadLen))
      ensures fbAddrs == old(fbAddrs) && fbIndex == old(fbIndex)
    {
      var cmdOffset: u32 := Wrap32(payloadLen);
      var resetJpeg := false;
      if Wrap32(cmdAddr + cmdOffset) > cmdWrapAddr {
        cmdAddr := initialCmdAddr;
        resetJpeg := true;
      }
      if resetFramesRemaining > 0 {
        resetFramesRemaining := resetFramesRemaining - 1;
        resetJpeg := true;
      }
      a := FrameAddresses(Slot(cmdAddr, cmdOffset, resetJpeg), fbAddr);
      cmdAddr := Wrap32(cmdAddr + cmdOffset);
    }

    method NextJpegPayload(jpegLen: nat, fbAddr: u32) returns (a: FrameAddresses)
      modifies this
      ensures a == FrameAddresses(Take(old(Contents()), JpegOffset(jpegLen)), fbAddr)
      ensures Contents() == Next(old(Contents()), JpegOffset(jpegLen))
      ensures fbAddrs == old(fbAddrs) && fbIndex == old(fbIndex)
    {
      a := NextVideoPayloadExact(JpegOffset(jpegLen), fbAddr);
    }

    method NextType7JpegPayload(jpegLen: nat, fbAddr: u32) returns (a: FrameAddresses)
      modifies this
      ensures a == FrameAddresses(Take(old(Contents()), Type7Mode6CmdOffset(jpegLen)), fbAddr)
      ensures Contents() == Next(old(Contents()), Type7Mode6CmdOffset(jpegLen))
      ensures fbAddrs == old(fbAddrs) && fbIndex == old(fbIndex)
    {
      a := NextVideoPayloadExact(Type7Mode6CmdOffset(jpegLen), fbAddr);
    }

    /** Full JPEG frames go round the three framebuffers. */
    method NextJpegFrame(jpegLen: nat) returns (a: FrameAddresses)
      requires fbIndex < 3
      modifies this
      ensures fbIndex == (old(fbIndex) + 1) % 3 && fbAddrs == old(fbAddrs)
      ensures a == FrameAddresses(Take(old(Contents()), JpegOffset(jpegLen)), fbAddrs.Fb(fbIndex))
      ensures Contents() == Next(old(Contents()), JpegOffset(jpegLen))
    {
      fbIndex := (fbIndex + 1) % 3;
      a := NextJpegPayload(jpegLen, fbAddrs.Fb(fbIndex));
    }
  }
}
