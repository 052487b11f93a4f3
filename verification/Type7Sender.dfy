/** SenderState of t6-virtual-display.rs: the object whose fields sending updates, method by method
    against the functions of PartialUpdates. */
module Type7Sender {
  import opened Wrappers
  import opened Bytes
  import opened Canvas
  import opened Geometry
  import opened Pictures
  import opened Scheduler
  import opened Tiles
  import opened PartialUpdates

  class Sender {
    const options: Options
    const scheduler: FrameScheduler
    var sentFrames: nat
    var currentDisplayFbAddr: Option<u32>
    var currentType7Slot: nat
    var currentType7AllocatedBase: u32
    var lastType7DirtyBbox: Option<Box>
    var nextFenceId: u32
    ghost const codec: Codec
    ghost var device: Memory

    ghost function View(): State
      reads this, scheduler
    {
      State(sentFrames, currentDisplayFbAddr, currentType7Slot, currentType7AllocatedBase, lastType7DirtyBbox,
            nextFenceId,
            scheduler.Contents(), device)
    }

    /** build_sender_state: nothing is on the screen, and the ring is the one the options name. */
    constructor (options: Options, scheduler: FrameScheduler, ghost codec: Codec, ghost device: Memory)
      ensures this.options == options && this.scheduler == scheduler && this.codec == codec
      ensures View() == State(0, None, 0, ALLOCATED_BASES[0], None, 1, scheduler.Contents(), device)
    {
      this.options, this.scheduler, this.codec, this.device := options, scheduler, codec, device;
      sentFrames, currentDisplayFbAddr, currentType7Slot := 0, None, 0;
      currentType7AllocatedBase, lastType7DirtyBbox, nextFenceId := ALLOCATED_BASES[0], None, 1;
    }

    method TakeFenceId() returns (fence: u32)
      modifies this`nextFenceId
      ensures fence == old(nextFenceId) && nextFenceId == NextFence(old(nextFenceId))
    {
      fence := nextFenceId;
      nextFenceId := Wrap32(nextFenceId + 1);
      if nextFenceId == 0 { nextFenceId := 1; }
    }

    /** The bulk transfer of a packet to the device. */
    ghost method Transfer(packet: Packet)
      modifies this`device
      ensures device == Receive(codec, old(device), packet)
    {
      device := Receive(codec, device, packet);
    }

    method Setup(fence: u32, jpeg: seq<byte>, ghost picture: Picture)
      requires currentType7Slot < 3
      modifies this`currentType7Slot, this`currentDisplayFbAddr, this`currentType7AllocatedBase, this`device, scheduler
      ensures View() == SendSetup(options, codec, old(View()), fence, jpeg, picture)
    {
      hide SetupPacket, Receive, Take, Next, Type7Mode6CmdOffset;
      var allocatedBase := SlotBase(currentType7Slot);
      var addresses := scheduler.NextVideoPayloadExact(Type7Mode6CmdOffset(|jpeg|), allocatedBase);
      currentDisplayFbAddr := Some(allocatedBase);
      currentType7AllocatedBase := allocatedBase;
      currentType7Slot := (currentType7Slot + 1) % 3;
      assert Wrap32(Type7Mode6CmdOffset(|jpeg|)) == Type7Mode6CmdOffset(|jpeg|);
      Transfer(SetupPacket(allocatedBase, options.OutWidth(), options.OutHeight(), addresses.slot.addr, fence, jpeg,
                           picture));
    }

    method Tile(fence: u32, b: Box, slot: Slot, jpeg: seq<byte>, ghost picture: Picture)
      modifies this`device
      ensures View() == SendTile(options, codec, old(View()), fence, b, slot, jpeg, picture)
    {
      hide TilePacket, Receive;
      Transfer(TilePacket(currentType7AllocatedBase, options.OutWidth(), options.OutHeight(), b, slot.addr, fence, jpeg,
                          Cropped(picture, b)));
    }

    /** send_full_jpeg_frame. */
    method SendFullJpegFrame(frame: Input) returns (outcome: Outcome)
      requires currentType7Slot < 3 && frame.frame.Valid()
      modifies this, scheduler
      ensures (View(), outcome) == SendFull(options, codec, old(View()), frame)
    {
      hide SendSetup, SendTile, Take, Next, Options.Turned, NextFence, Type7Mode6CmdOffset;
      ghost var picture := options.Turned(frame.frame.Shown());
      if options.dropLateFrames && frame.fullClock.Late? {
        return Dropped;
      }
      var fence := TakeFenceId();
      ghost var fenced := View();
      if options.dropLateFrames && frame.fullClock.LateEncoded? {
        return Dropped;
      }
      Setup(fence, frame.full, picture);
      ghost var setup := View();
      assert setup == SendSetup(options, codec, fenced, fence, frame.full, picture);
      if options.setupMode == PairedType4Type7 {
        SendPaired(frame, picture);
      }
      return SentFull;
    }

    /** The 64 by 64 tile that goes with every setup frame in the paired mode. */
    method SendPaired(frame: Input, ghost picture: Picture)
      modifies this`device, this`nextFenceId, scheduler
      ensures var s, offset := old(View()), Type7Mode6CmdOffset(|frame.pair|);
              View() == SendTile(options, codec, s.(nextFence := NextFence(s.nextFence), ring := Next(s.ring, offset)),
                                 s.nextFence,
                                 PairBox(options), Take(s.ring, offset), frame.pair, picture)
    {
      hide SendTile, Take, Next, NextFence, Type7Mode6CmdOffset;
      var fence := TakeFenceId();
      assert Wrap32(Type7Mode6CmdOffset(|frame.pair|)) == Type7Mode6CmdOffset(|frame.pair|);
      var addresses := scheduler.NextVideoPayloadExact(Type7Mode6CmdOffset(|frame.pair|), currentType7AllocatedBase);
      Tile(fence, PairBox(options), addresses.slot, frame.pair, picture);
    }

    /** The part of send_jpeg_type7_frame after the rectangle is chosen. The pixels of the tile are cut
        out of the frame, and what is cut is the tile of the turned picture that the packet shows. */
    method SendTileFrame(frame: Input, b: Box) returns (outcome: Outcome)
      requires currentType7Slot < 3 && frame.frame.Valid() && frame.frame.width == options.width
      requires frame.frame.height == options.height
      requires b.Within(options.OutWidth(), options.OutHeight())
      modifies this, scheduler
      ensures (View(), outcome) == SendPartial(options, codec, old(View()), frame, b)
    {
      hide SendSetup, SendTile, SendFull, Take, Next, Options.Turned, NextFence, Type7Mode6CmdOffset, TileOffset;
      ghost var picture := options.Turned(frame.frame.Shown());
      CropTile(frame.frame, b);
      if options.dropLateFrames && frame.tileClock.Late? {
        return Dropped;
      }
      var fence := TakeFenceId();
      if options.dropLateFrames && frame.tileClock.LateEncoded? {
        return Dropped;
      }
      if options.setupOnly {
        SendSetupOnly(fence, frame, picture);
        return SentFull;
      }
      var slot := TakeTileSlot(|frame.tile|);
      if slot.reset {
        lastType7DirtyBbox := None;
        outcome := SendFullJpegFrame(frame);
      } else {
        Tile(fence, b, slot, frame.tile, picture);
        outcome := SentTile;
      }
    }

    /** The scratch buffer that goes to the encoder holds the tile of the turned picture. */
    method CropTile(frame: Frame, b: Box)
      requires frame.Valid() && frame.width == options.width && frame.height == options.height
      requires b.Within(options.OutWidth(), options.OutHeight())
    {
      var scratch := CropRotatedBgraBbox(frame, options.rotate, b);
      assert Holds(scratch[..], b.width, b.height, Cropped(options.Turned(frame.Shown()), b));
    }

    method SendSetupOnly(fence: u32, frame: Input, ghost picture: Picture)
      requires currentType7Slot < 3
      modifies this, scheduler
      ensures var s := old(View());
              var setup := SendSetup(options, codec, s.(nextFence := NextFence(s.nextFence)), fence, frame.full,
                                     picture);
              View() == setup.(ring := Next(setup.ring, Type7Mode6CmdOffset(|frame.tile|)))
    {
      hide SendSetup, Take, Next, NextFence, Type7Mode6CmdOffset;
      var unused := TakeFenceId();
      Setup(fence, frame.full, picture);
      assert Wrap32(Type7Mode6CmdOffset(|frame.tile|)) == Type7Mode6CmdOffset(|frame.tile|);
      var addresses := scheduler.NextVideoPayloadExact(Type7Mode6CmdOffset(|frame.tile|), currentType7AllocatedBase);
    }

    method TakeTileSlot(jpegLen: nat) returns (slot: Slot)
      modifies scheduler
      ensures slot == Take(old(scheduler.Contents()), TileOffset(options, jpegLen))
      ensures scheduler.Contents() == Next(old(scheduler.Contents()), TileOffset(options, jpegLen))
    {
      hide Take, Next, Type7Mode6CmdOffset, JpegOffset;
      if options.ringMode == Windows {
        var addresses := scheduler.NextType7JpegPayload(jpegLen, currentType7AllocatedBase);
        slot := addresses.slot;
      } else {
        var addresses := scheduler.NextJpegPayload(48 + jpegLen, currentType7AllocatedBase);
        slot := addresses.slot;
      }
    }

    /** send_jpeg_type7_frame. */
    method SendJpegType7Frame(frame: Input) returns (outcome: Outcome)
      requires Sized(options) && BoxOk(options, lastType7DirtyBbox)
      requires currentType7Slot < 3 && frame.frame.Valid() && frame.frame.width == options.width
      requires frame.frame.height == options.height
      requires options.OutWidth() < 0x1_0000 && options.OutHeight() < 0x1_0000
      modifies this, scheduler
      ensures (View(), outcome) == Dispatch(options, codec, old(View()), frame)
    {
      hide SendFull, SendPartial, Options.Turned, RotateBbox, Type7UpdateRect, ClampedDirtyBbox, UnionBbox;
      var current := ClampedDirtyBbox(frame.dirty, options.width, options.height);
      var refreshFrame := sentFrames == 0 || (options.refreshFrames > 0 && sentFrames % options.refreshFrames == 0);
      assert CurrentBox(options, frame) == current && refreshFrame == Refresh(options, View());
      if currentDisplayFbAddr.None? || current.None? || frame.fullish || refreshFrame {
        lastType7DirtyBbox := None;
        outcome := SendFullJpegFrame(frame);
        return;
      }
      outcome := SendDirty(frame, current.value);
    }

    method SendDirty(frame: Input, current: Box) returns (outcome: Outcome)
      requires Sized(options) && BoxOk(options, lastType7DirtyBbox) && CurrentBox(options, frame) == Some(current)
      requires currentDisplayFbAddr.Some? && !frame.fullish && !Refresh(options, View())
      requires currentType7Slot < 3 && frame.frame.Valid() && frame.frame.width == options.width
      requires frame.frame.height == options.height
      requires options.OutWidth() < 0x1_0000 && options.OutHeight() < 0x1_0000
      modifies this, scheduler
      ensures (View(), outcome) == Dispatch(options, codec, old(View()), frame)
    {
      hide SendFull, SendPartial, Options.Turned, RotateBbox, Type7UpdateRect, UnionBbox, Refresh;
      ClampedDirtyBboxInside(frame.dirty, options.width, options.height);
      DirtyBoxOk(options, current, lastType7DirtyBbox);
      var last := lastType7DirtyBbox;
      var dirty := if last.Some? then UnionBbox(current, last.value, options.width, options.height) else current;
      var b := RotateBbox(dirty, options.width, options.height, options.rotate);
      var t := Type7UpdateRect(b, options.OutWidth(), options.OutHeight(), options.rectMode);
      RectInside(b, options.OutWidth(), options.OutHeight(), options.rectMode);
      assert dirty == DirtyBox(options, current, lastType7DirtyBbox);
      assert t == UpdateRect(options, lastType7DirtyBbox, frame);
      hide CurrentBox, DirtyBox, ClampedDirtyBbox, UpdateRect;
      lastType7DirtyBbox := Some(current);
      if t.None? {
        return Dropped;
      }
      if frame.tileRefused {
        lastType7DirtyBbox := None;
        outcome := SendFullJpegFrame(frame);
        return;
      }
      outcome := SendTileFrame(frame, t.value);
    }

    /** send_frame: only what was sent is counted. */
    method Send(frame: Input) returns (outcome: Outcome)
      requires Sized(options) && BoxOk(options, lastType7DirtyBbox)
      requires currentType7Slot < 3 && frame.frame.Valid() && frame.frame.width == options.width
      requires frame.frame.height == options.height
      requires options.OutWidth() < 0x1_0000 && options.OutHeight() < 0x1_0000
      modifies this, scheduler
      ensures (View(), outcome) == SendFrame(options, codec, old(View()), frame)
    {
      hide Dispatch;
      outcome := SendJpegType7Frame(frame);
      if !outcome.Dropped? {
        sentFrames := sentFrames + 1;
      }
    }

    /** What a caller sees: what becomes of the frame, and exactly which samples are on the screen afterwards. */
    method SendShown(frame: Input, ghost shown: Samples) returns (outcome: Outcome)
      requires Ready(options, View()) && Serviceable(options, frame)
      requires currentDisplayFbAddr.Some? ==> Screen(options, View(), shown)
      modifies this, scheduler
      ensures outcome == Fate(options, old(View()), frame) && Advances(options, old(View()), frame, View())
      ensures currentDisplayFbAddr.Some? ==>
                Screen(options, View(), NextSamples(options, codec, old(View()), frame, shown))
    {
      FrameShows(options, codec, View(), frame, shown);
      assert Drawable(ALLOCATED_BASES[0], options.OutWidth(), options.OutHeight());
      hide Serviceable, Screen, SendFrame, Laid, Fate, NextSamples, Remembered;
      outcome := Send(frame);
    }
  }

  /** The rectangle never leaves the canvas, whatever box it is made for. */
  lemma RectInside(b: Box, canvasWidth: nat, canvasHeight: nat, mode: RectMode)
    requires canvasWidth < 0x1_0000 && canvasHeight < 0x1_0000
    ensures var t := Type7UpdateRect(b, canvasWidth, canvasHeight, mode);
            t.Some? ==> t.value.Within(canvasWidth, canvasHeight)
  {
    hide SatMul, LowEdge, HighEdge, Align;
    var aligned := AlignType7Rect32(b, canvasWidth, canvasHeight);
    HighInside(b.x, b.width, canvasWidth);
    HighInside(b.y, b.height, canvasHeight);
    assert aligned.Some? ==> aligned.value.Within(canvasWidth, canvasHeight);
    hide AlignType7Rect32;
  }

  lemma HighInside(at: nat, size: nat, canvas: nat)
    ensures HighEdge(at, size, canvas) <= canvas
  {
  }
}
