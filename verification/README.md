# Trigger 6 display software: model and proofs

A Dafny model of the software around the MCT Trigger 6 USB display chip: the vendor's Linux driver with
its list library and queue, the Rust display sender, and the Python tools that read captures back. The
model follows the code branch by branch; where code and documentation differ it follows the code.

| file | what it models |
|---|---|
| Sequences, SimCList, SimCListRep, Permutations, SimCListSort | the list library: entries on the heap, two sentinels, a cached middle entry, a pool of spare entries, quicksort in place |
| Bytes, Arithmetic, Wrappers | 8-, 16- and 32-bit words, small facts, an optional value |
| Wire, Reassembler, WireRoundTrip, WireInterleaved | bulk fragments and headers (Rust and C), the Python reassembler, and the two together |
| Scheduler | the command ring |
| VideoHeaders | frame headers and the capture tool that parses them |
| Geometry, Tiles, Pictures, Cursor | rotation, dirty boxes, tile rectangles, cropping, the vendor's in-place turn |
| Canvas, PartialUpdates, PartialRuns, Type7Sender | device memory, and the sender that updates it with full frames and tiles: exactly what is on the screen |
| Refinement, RingLayout, DefaultRing | when that is right: packets that do no harm, rings clear of the canvases, the default ring |
| WarmUp, ForgottenChanges, SkippedChange, LargeDisplay | runs of a new sender that end right or wrong |
| Mailbox, AsyncDisplay | the mailbox between capture callbacks and the sender thread, and both together with the sender |
| VendorLoop, VendorQueue | the vendor's sending loop, memory layout and frame queue |
| Planes, Yuv, YuvHeaders | conversion to NV12 and YV12 and the headers that describe the buffers |
| JpegPatch, JpegPatcher | the patches of JPEG files |

Objects whose fields the code updates are classes (the list, the scheduler, the sender, the assemblies
and their collector, the queue, the sending loop, the chroma accumulator); each method is proved
against a function of the old state, and lemmas speak about those functions. Threads are state machines
with one step for each time a lock is held.

The device is not part of the repository. `Canvas` and `PartialUpdates.Receive` take from the packet
headers what it does: it stores a packet at its address, and then draws the decoded image at the plane
addresses, with the pitch of the header. JPEG is taken to lose nothing but what the conversion to luma
and chroma loses, and that conversion is a parameter.

## What the proofs found

- `list_delete_range` on all elements of a nonempty list dereferences NULL: the unsigned expression for the
  shift of the middle wraps. On every proper subset it is right.
- The C fragment count is zero when the rounding sum passes 32 bits; the Rust one is not.
- The reassembler takes every 32-byte packet for a command, so a transfer with a 32-byte fragment is
  damaged, except in cases that `WireRoundTrip.Survives` names exactly, alone or interleaved with others.
- With late frames dropped, which is the default, partial updates can leave the screen wrong: a dropped
  full frame forgets its dirty box, and of two tiles dropped one after the other the first one's box is
  forgotten. A single dropped tile is repaired. Frames that the asynchronous callback skips lose their dirty
  boxes too. `PartialRuns` and `AsyncDisplay` give the exact condition in each case, and `ForgottenChanges` and
  `SkippedChange` a run of a new sender that ends with the screen wrong.
- A tile packet stored over the canvas that is shown puts its own bytes on the screen. With the default command ring
  the screen is always right if and only if the highest canvas ends below the ring. It does at 1920x1080. At
  2560x1440 and 3840x2160 it does not, and in the default mode the very first frame can be wrong.
- The Type4 header's canvas height field is computed from the output width. This agrees with the
  fact that the header is, byte for byte, a flip header whose two 16-bit fields are pitches.
- The vendor loop sets the reset flag on nine first frames, the Rust scheduler on ten.
- In the 4K mode the vendor loop keeps adding to a command address it does not use; after 2048 frames, or
  fewer on a port whose ring does not start at zero, the sum is beyond a 32-bit int.
- The length test for more than five frames in the vendor's producer never holds with one producer. With n
  producers the queue holds up to 4 + n frames, and does reach that.
- The capture tool does not recognise YV12 flips.
- The JPEG patch is not idempotent on some files with a second start marker, because its two walkers treat
  that marker differently: what the one writes as a version the other may read as a length.

## Model

| member | source | states |
|---|---|---|
| SimCList.List.Init | extracted/ubuntu_T6_260223/evdi_t6/evdi_t6_1/simclist.c:237-272 | a new list is empty, its sentinels point at each other, no spare entries |
| SimCList.List.FindPos | extracted/ubuntu_T6_260223/evdi_t6/evdi_t6_1/simclist.c:406-430 | for every index from -1 to numels the walk ends at exactly the entry at that index (the sentinels at the two ends), whichever of head, middle and tail it starts from; other indices give NULL |
| SimCList.List.InsertAt | extracted/ubuntu_T6_260223/evdi_t6/evdi_t6_1/simclist.c:450-497 | refused while iterating or out of range, else the elements are exactly the old ones with the new one at its position; links, middle, spare pool and ownership stay in order |
| SimCList.List.ExtractAt | extracted/ubuntu_T6_260223/evdi_t6/evdi_t6_1/simclist.c:432-448 | the element at the position is returned and exactly it is gone; its entry goes to the pool while there is room, else it is freed |
| SimCList.List.DeleteAt | extracted/ubuntu_T6_260223/evdi_t6/evdi_t6_1/simclist.c:515-531 | as ExtractAt, for list_delete_at |
| SimCList.List.DropElem | extracted/ubuntu_T6_260223/evdi_t6/evdi_t6_1/simclist.c:1345-1372 | unhooking one entry moves the middle to the right place for the list without it |
| SimCList.MidShiftFits | extracted/ubuntu_T6_260223/evdi_t6/evdi_t6_1/simclist.c:545-548 | the unsigned arithmetic that moves the middle in list_delete_range is exact if and only if at least one element stays |
| SimCList.WalkMid | extracted/ubuntu_T6_260223/evdi_t6/evdi_t6_1/simclist.c:549-560 | walking the middle by that amount ends at the right entry, or runs off the list |
| SimCList.List.DeleteRange | extracted/ubuntu_T6_260223/evdi_t6/evdi_t6_1/simclist.c:533-593 | a proper subset is removed exactly, and the middle is right; the call dereferences NULL if and only if the whole nonempty list is to go |
| SimCList.List.Clear | extracted/ubuntu_T6_260223/evdi_t6/evdi_t6_1/simclist.c:595-639 | the list is empty afterwards; as many entries as fit went to the pool, the others were freed |
| SimCList.Concat | extracted/ubuntu_T6_260223/evdi_t6/evdi_t6_1/simclist.c:681-732 | the result holds the first list and then the second, its middle is right, and both sources are unchanged |
| Sequences.InsertedIs | extracted/ubuntu_T6_260223/evdi_t6/evdi_t6_1/simclist.c:450-497 | what the contracts of insertion mean by inserted: the old sequence up to the position, the element, the rest |
| Sequences.CutIs | extracted/ubuntu_T6_260223/evdi_t6/evdi_t6_1/simclist.c:533-593 | what the contracts of removal mean by cut: the old sequence without exactly the range |
| SimCListRep.RepOk | extracted/ubuntu_T6_260223/evdi_t6/evdi_t6_1/simclist.c:1442-1472 | on entries linked in whatever way, broken or in circles, list_repOk ends, and returns true if and only if some chain of mutually linked entries from sentinel to sentinel has the counted length and the cached middle, and at most five entries are spare |
| SimCListRep.CheckValid | extracted/ubuntu_T6_260223/evdi_t6/evdi_t6_1/simclist.c:1442-1472 | every list that the operations leave passes the check |
| SimCListRep.NoEntryLost | extracted/ubuntu_T6_260223/evdi_t6/evdi_t6_1/simclist.c:432-497 | every entry ever allocated is in the chain, spare or freed, and in only one of the three |
| SimCListSort.SelectionSort | extracted/ubuntu_T6_260223/evdi_t6/evdi_t6_1/simclist.c:762-781 | sorts its stretch of the data in the wanted direction, a permutation, nothing else changes |
| SimCListSort.MeetAtPivot | extracted/ubuntu_T6_260223/evdi_t6/evdi_t6_1/simclist.c:818-836 | after the two pointers have met at the pivot one side is in place, for every comparator that is a total preorder |
| SimCListSort.Partition | extracted/ubuntu_T6_260223/evdi_t6/evdi_t6_1/simclist.c:818-868 | the pivot ends at a place with nothing greater before it and nothing smaller behind it |
| SimCListSort.QuickSort | extracted/ubuntu_T6_260223/evdi_t6/evdi_t6_1/simclist.c:783-904 | terminates and sorts its stretch, for every choice of pivot |
| SimCListSort.Sort | extracted/ubuntu_T6_260223/evdi_t6/evdi_t6_1/simclist.c:734-744 | the data are sorted in the direction of versus and a permutation of the input; entries, links, middle, pool are as before; refused while iterating or without comparator |
| Wire.FragmentsTile | mac/t6proto-rs/src/lib.rs:1416-1448 | fragments follow each other without gap or overlap, none is empty or too long, exactly the last has no continuation flag |
| Wire.CFragmentCountAgrees | mac/t6proto/src/t6proto.c:151-156 | the C count equals the Rust count if and only if the rounding sum fits 32 bits; otherwise it is zero |
| Wire.CFragmentHasMoreAgrees | mac/t6proto/src/t6proto.c:176-184 | the C continuation test equals the Rust one on every fragment |
| Wire.WriteBulkDmaHeader | mac/t6proto/src/t6proto.c:11-43 | the C writer fills its buffer with the bytes of the Rust header |
| Reassembler.Assembly.Add | tools/t6_reassemble_video.py:33-43 | a fragment past the announced length is refused, any other is written at its offset and marked as received |
| Reassembler.Summarize | tools/t6_reassemble_video.py:79-106 | the packet loop computes the run of the state machine on the whole capture |
| Reassembler.OthersIgnored | tools/t6_reassemble_video.py:79-80 | packets of other endpoints and empty ones change nothing |
| WireRoundTrip.ParseHeader | tools/t6_pcap_summary.py:259-275 | the parser reads from a sent header exactly its fields |
| WireRoundTrip.RoundTrip | tools/t6_reassemble_video.py:79-106 | any number of transfers, interleaved in any way with different keys while open and without 32-byte data: every payload comes out once, byte for byte, and nothing stays open |
| WireInterleaved.SurvivorsComeOut | tools/t6_reassemble_video.py:79-106 | any number of transfers to different places, with fragments of any length, in any interleaving: a payload comes out, under its own key, if and only if its transfer survives that rule, and of no transfer does more than one assembly come out |
| WireRoundTrip.LoneTransfer | tools/t6_pcap_summary.py:259-263 | a transfer on its own, of any fragment size, comes out unchanged if and only if it survives the rule that every 32-byte packet is a command; the exact condition is WireRoundTrip.Survives |
| Scheduler.JpegPacketFits | mac/t6proto-rs/src/lib.rs:1365-1373 | a JPEG packet fits the ring space it is given if and only if the image is at most 3 MB minus 1072 bytes |
| Scheduler.Type7OffsetHolds | mac/t6proto-rs/src/lib.rs:1375-1378 | the space of a Type4 or Type7 packet has room for header, data and padding with under 1 KB to spare, if and only if the length fits 32 bits |
| Scheduler.NextRingAddrAgrees | mac/t6proto-rs/src/bin/t6-send-type7.rs:701-704 | next_ring_addr steps by exactly what the scheduler allocates, if and only if its rounding does not saturate |
| Scheduler.TakeInside | mac/t6proto-rs/src/lib.rs:1339-1362 | one request that fits the ring is placed inside it if and only if the 32-bit sum does not overflow |
| Scheduler.RunInside | mac/t6proto-rs/src/lib.rs:1279-1362 | over a whole run every allocation lies in the ring if and only if no 32-bit sum that the run reaches overflows |
| Scheduler.RoomBehind | mac/t6proto-rs/src/lib.rs:1279-1362 | no sum overflows when every request fits between the end of the ring and the end of the address space |
| Scheduler.ResetExactly | mac/t6proto-rs/src/lib.rs:1285-1308 | the reset flag is set exactly on the first ten requests and on every new lap |
| Scheduler.LapAscends | mac/t6proto-rs/src/lib.rs:1285-1362 | allocations of one lap do not overlap and ascend |
| Scheduler.OverlapNeedsReset | mac/t6proto-rs/src/lib.rs:1285-1362 | two overlapping allocations have a reset frame at the later one or between them |
| Scheduler.OverflowEscapes | mac/t6proto-rs/src/lib.rs:1339-1347 | a new scheduler with its ring set near the top of the address space, in which the sixth request is placed outside |
| Scheduler.FrameScheduler.SetCmdRing | mac/t6proto-rs/src/lib.rs:1274-1278 | the ring starts over with new ends; the resets that are left stay |
| Scheduler.FrameScheduler.NextJpegFrame | mac/t6proto-rs/src/lib.rs:1279-1283 | the next framebuffer in turn, and the ring allocation of the specification |
| Scheduler.FrameScheduler.NextVideoPayloadExact | mac/t6proto-rs/src/lib.rs:1339-1362 | the allocation and the new ring state of the specification |
| VideoHeaders.Type4Parses | tools/t6_pcap_summary.py:278-336 | a Type4 packet is recognised and its fields come back, for every header and image |
| VideoHeaders.Type7Parses | tools/t6_pcap_summary.py:278-336 | the same for Type7, whose fields lie elsewhere |
| VideoHeaders.FlipParses | tools/t6_pcap_summary.py:278-336 | a flip packet is recognised if and only if its source format is known to the tool and, for a secondary JPEG, there is a start marker; then its fields come back |
| VideoHeaders.Type4IsSecondaryFlip | mac/t6proto-rs/src/lib.rs:589-604 | the bytes of a Type4 setup header are those of a secondary flip to NV12 whose two pitches are the canvas width and height |
| Geometry.CoordinatesInverse | mac/t6proto-rs/src/bin/t6-virtual-display.rs:4225-4253 | output_coordinate and source_coordinate are inverse on the frame, for every rotation |
| Geometry.ClampedDirtyBboxExact | mac/t6proto-rs/src/bin/t6-virtual-display.rs:3061-3077 | clamping keeps exactly the dirty pixels of the frame and fails only when there is none |
| Geometry.UnionBboxLeast | mac/t6proto-rs/src/bin/t6-virtual-display.rs:3079-3102 | the union is the least box of the frame that covers both |
| Geometry.RotateBboxImage | mac/t6proto-rs/src/bin/t6-virtual-display.rs:4199-4223 | a pixel is in the box if and only if the place it goes to is in the rotated box |
| Geometry.RotateBboxInside | mac/t6proto-rs/src/bin/t6-virtual-display.rs:4199-4223 | the rotated box lies in the rotated frame and has the rotated size |
| Tiles.Type7UpdateRectSound | mac/t6proto-rs/src/bin/t6-virtual-display.rs:3950-4026 | for every nonempty box of a canvas there is a rectangle; it covers the box, stays in the canvas, is at least 32 wide and high where the canvas is, and has even edges in an even canvas |
| Canvas.SlotBasesAre | mac/t6proto-rs/src/bin/t6-virtual-display.rs:4048-4060 | the plane bases are those of a canvas whose planes do not overlap |
| Canvas.PlaneAddrsAre | mac/t6proto-rs/src/bin/t6-virtual-display.rs:4028-4046 | the tile addresses are the addresses of its corner in the canvas |
| Canvas.CellInTile | mac/t6proto-rs/src/bin/t6-virtual-display.rs:4028-4046 | a canvas cell belongs to the cells of a tile if and only if it lies in the tile, and then at the tile-relative place |
| Canvas.LumaByteIs | mac/t6proto-rs/src/bin/t6-virtual-display.rs:4028-4046 | every luma byte of a tile is the byte the full frame uses for one of its pixels, inside the luma plane |
| Canvas.ChromaByteIs | mac/t6proto-rs/src/bin/t6-virtual-display.rs:4028-4046 | every chroma byte of a tile is that of one of its blocks, inside the chroma plane |
| Canvas.TilesApart | mac/t6proto-rs/src/bin/t6-virtual-display.rs:4028-4046 | tiles without a common pixel have no common byte |
| Canvas.FullDraw | mac/t6proto-rs/src/bin/t6-virtual-display.rs:2083-2108 | a setup frame leaves the canvas showing its picture, whatever was there |
| Canvas.TileDraw | mac/t6proto-rs/src/bin/t6-virtual-display.rs:2572-2628 | a tile paints its rectangle and leaves every other sample of the canvas; so the canvas shows the picture if and only if the others were its samples |
| Pictures.CropBgraBbox | mac/t6proto-rs/src/bin/t6-virtual-display.rs:3121-3138 | the buffer holds exactly the part of the frame inside the box |
| Pictures.CropRotatedBgraBbox | mac/t6proto-rs/src/bin/t6-virtual-display.rs:3140-3205 | cropping with rotation gives, pixel for pixel, what rotating and then cropping gives |
| Cursor.Ro90 | extracted/ubuntu_T6_260223/evdi_t6/evdi_t6_1/main.c:974-990 | the in-place turn is the Deg90 map of the display programs |
| Cursor.FourTurns | extracted/ubuntu_T6_260223/evdi_t6/evdi_t6_1/main.c:974-990 | four turns give back every byte |
| Cursor.HoldsUnique | extracted/ubuntu_T6_260223/evdi_t6/evdi_t6_1/main.c:974-990 | a packed image is determined by its picture |
| PartialUpdates.ReceiveSetup | mac/t6proto-rs/src/bin/t6-virtual-display.rs:2083-2108 | the bytes of a setup packet make the device draw the whole canvas |
| PartialUpdates.ReceiveTile | mac/t6proto-rs/src/bin/t6-virtual-display.rs:2572-2628 | the bytes of a tile packet make the device draw at the cells of the tile |
| PartialUpdates.TileShows | mac/t6proto-rs/src/bin/t6-virtual-display.rs:2572-2628 | a tile whose packet lies anywhere: exactly which samples the canvas holds afterwards; it shows the picture if and only if every sample outside the rectangle, read once the packet is stored, is that of the picture |
| PartialUpdates.FullShows | mac/t6proto-rs/src/bin/t6-virtual-display.rs:1984-2252 | a full send with the ring anywhere: the setup frame covers its canvas, then comes the paired tile; a frame found late before it is encoded changes nothing, one found late after takes a fence and changes nothing else |
| PartialUpdates.FrameShows | mac/t6proto-rs/src/bin/t6-virtual-display.rs:2254-2655 | one frame in every state, late or not, with the ring anywhere: what is done with it (decided by guards that can be read before the call), which box is remembered, and exactly which samples are on the screen afterwards |
| PartialRuns.RunShown | mac/t6proto-rs/src/bin/t6-virtual-display.rs:2254-2655 | in every run, wherever the ring lies, whatever is dropped and whatever the dirty boxes say, the screen holds exactly the samples that the frames and packets leave |
| PartialRuns.RunExact | mac/t6proto-rs/src/bin/t6-virtual-display.rs:2254-2655 | so after a frame the screen is right if and only if those are the samples of the frame |
| PartialRuns.TileExact | mac/t6proto-rs/src/bin/t6-virtual-display.rs:2254-2655 | every tile puts the screen right if and only if, outside it and once its packet is stored, the samples are those of the frame |
| PartialRuns.LostFrames | mac/t6proto-rs/src/bin/t6-virtual-display.rs:2289-2420 | after any number of dropped frames a tile puts the screen right if and only if it does so with the rectangle for its own box and the one remembered for the last dropped frame, on what was there before the drops |
| PartialRuns.DroppedFullForgotten | mac/t6proto-rs/src/bin/t6-virtual-display.rs:2295-2620 | a dropped full frame, for whichever of the five reasons it was full: exact condition with the next dirty box alone |
| PartialRuns.SecondDropForgets | mac/t6proto-rs/src/bin/t6-virtual-display.rs:2324-2420 | of two dropped tiles the box of the first is forgotten: exact condition with the box of the second |
| PartialRuns.SkippedForgotten | mac/t6proto-rs/src/bin/t6-virtual-display.rs:2254-2655 | a frame that comes when others before it were not handed over: exact condition against the frame sent last |
| Refinement.ShownIffHarmless | mac/t6proto-rs/src/bin/t6-virtual-display.rs:2254-2655 | a frame that is sent, in full or as a tile, with a dirty box that covers the change: the screen shows it if and only if its tile packet, stored over a canvas that shows the frame, would change no sample outside its rectangle |
| Refinement.RunShows | mac/t6proto-rs/src/bin/t6-virtual-display.rs:2254-2655 | if dirty boxes cover every change and late tiles are dropped one at a time at most, the screen shows every frame that is sent if and only if no packet of the run does such harm |
| Refinement.NoDrops | mac/t6proto-rs/src/bin/t6-virtual-display.rs:2013-2081 | without the option to drop late frames none is dropped, so that this is every frame |
| Refinement.PartialRefinesFull | mac/t6proto-rs/src/bin/t6-virtual-display.rs:2254-2655 | without drops the canvas of the partial sender equals that of a sender of full frames, sample for sample after every frame, if and only if no packet of the partial sender does harm |
| Refinement.DroppedTileRepaired | mac/t6proto-rs/src/bin/t6-virtual-display.rs:2289-2324 | a frame dropped as a tile is made good by the next frame sent, if and only if that does no harm |
| RingLayout.SparesHarmless | mac/t6proto-rs/src/bin/t6-virtual-display.rs:4028-4046 | a packet that lies beside all samples outside its rectangle, which its address and length decide, does no harm |
| RingLayout.LegacyRoom | mac/t6proto-rs/src/bin/t6-virtual-display.rs:2597-2602 | in the legacy ring mode a tile packet gets as much room as it is long if and only if it is at most 3 MB |
| RingLayout.ClearRun | mac/t6proto-rs/src/bin/t6-virtual-display.rs:2254-2655 | if no sample of a canvas lies in the ring, and packets fit the ring, no packet of any run does harm |
| DefaultRing.RightIffShort | mac/t6proto-rs/src/bin/t6-virtual-display.rs:4306-4307 | with the default ring and setup mode the screen is always right, in every run of a new sender with covering dirty boxes and late tiles dropped one at a time, if and only if the highest canvas ends below the ring |
| DefaultRing.FirstFrameWrong | mac/t6proto-rs/src/bin/t6-virtual-display.rs:2083-2180 | on every display it reaches, the very first frame of some colour is shown wrong: the packet of its paired tile is stored over the picture of its setup frame |
| DefaultRing.Sizes | mac/t6proto-rs/src/bin/t6-virtual-display.rs:4306-4307 | it ends below at 1920x1080; not at 2560x1440 and 3840x2160, where at the latter the second canvas reaches into the ring as well |
| LargeDisplay.TileOverCanvas | mac/t6proto-rs/src/bin/t6-virtual-display.rs:2572-2628 | a run of a new sender with setup frames alone at 3840x2160 and the default ring: nothing ever changes, the eleventh packet is a tile, and the screen is wrong |
| ForgottenChanges.DroppedFull | mac/t6proto-rs/src/bin/t6-virtual-display.rs:2013-2016 | a run of a new sender with the default ring, in either setup mode and with every conversion that tells black from white: ten frames shown, a full frame late, a tile sent, and the screen wrong although every dirty box covers the change |
| ForgottenChanges.TwoDroppedTiles | mac/t6proto-rs/src/bin/t6-virtual-display.rs:2396-2420 | the same with two late tiles, no full frame among them |
| ForgottenChanges.OneDroppedTile | mac/t6proto-rs/src/bin/t6-virtual-display.rs:2396-2420 | a run with a single late tile, which the next frame repairs |
| SkippedChange.SkippedFrame | mac/t6proto-rs/src/bin/t6-virtual-display.rs:1415-1432 | a run of callback and sender together in which no frame is late, one is skipped, and the screen is wrong |
| Type7Sender.Sender.SendFullJpegFrame | mac/t6proto-rs/src/bin/t6-virtual-display.rs:1984-2252 | the method has exactly the effect of the specification |
| Type7Sender.Sender.SendTileFrame | mac/t6proto-rs/src/bin/t6-virtual-display.rs:2380-2655 | the same for the tile path; the encoder is given exactly the tile of the turned picture |
| Type7Sender.Sender.Send | mac/t6proto-rs/src/bin/t6-virtual-display.rs:1591-1640 | the same for send_frame, with its counter |
| Type7Sender.Sender.SendShown | mac/t6proto-rs/src/bin/t6-virtual-display.rs:2254-2655 | on the object: what becomes of a frame and exactly which samples are on the screen afterwards |
| Mailbox.StepInv | mac/t6proto-rs/src/bin/t6-virtual-display.rs:1386-1562 | every step of every thread keeps: no buffer in two places, contents as stored, counts, wake-ups |
| Mailbox.Always | mac/t6proto-rs/src/bin/t6-virtual-display.rs:1386-1562 | so it holds at every moment of every interleaving |
| Mailbox.NeverOverwritten | mac/t6proto-rs/src/bin/t6-virtual-display.rs:1487-1506 | a stored frame leaves the mailbox only by being taken |
| Mailbox.TakenInOrder | mac/t6proto-rs/src/bin/t6-virtual-display.rs:1509-1530 | frames are taken in store order, each once, and the logs only grow |
| Mailbox.Totals | mac/t6proto-rs/src/bin/t6-virtual-display.rs:1386-1507 | captured is taken plus one if the mailbox is full; every frame begun is captured, skipped or in progress |
| AsyncDisplay.ShownAlways | mac/t6proto-rs/src/bin/t6-virtual-display.rs:1386-1562 | in every interleaving of callbacks and sender the screen holds exactly the samples that the frames sent leave; right if and only if they are those of the last |
| AsyncDisplay.UnskippedShows | mac/t6proto-rs/src/bin/t6-virtual-display.rs:1386-1562 | with one callback at a time, as long as none was skipped, the frames sent are those captured, in order, and all are shown if and only if no packet does harm |
| AsyncDisplay.SkippedExact | mac/t6proto-rs/src/bin/t6-virtual-display.rs:1386-1562 | after skipped frames a tile leaves the screen right if and only if, outside it and once its packet is stored, the frame sent before has the same samples |
| VendorLoop.LayoutsAgree | extracted/ubuntu_T6_260223/evdi_t6/evdi_t6_1/main.c:1126-1177 | the vendor layout equals the Rust layout for one port, and for two ports if and only if the port is not the DVO one |
| VendorLoop.UsbProcess.Run | extracted/ubuntu_T6_260223/evdi_t6/evdi_t6_1/main.c:1204-1394 | the loop sends exactly the addresses and flags of the specification, throws frames away without display mode, stops at a failure |
| VendorLoop.Lockstep | extracted/ubuntu_T6_260223/evdi_t6/evdi_t6_1/main.c:1234-1273 | the vendor loop and the Rust scheduler use the same addresses for every frame and the same reset flag on every frame but the tenth; there the Rust scheduler always sets it, and the vendor loop if and only if the ring starts over |
| VendorLoop.TenthFrameDiffers | extracted/ubuntu_T6_260223/evdi_t6/evdi_t6_1/main.c:1271-1272 | a run in which the flag of the tenth frame differs |
| VendorLoop.RegionsDisjoint | extracted/ubuntu_T6_260223/evdi_t6/evdi_t6_1/main.c:1126-1177 | the memory of two ports is disjoint if and only if exactly one is the DVO port |
| VendorLoop.UsesInside | extracted/ubuntu_T6_260223/evdi_t6/evdi_t6_1/main.c:1204-1394 | over a whole run a port writes only its own memory |
| VendorLoop.PortsDoNotInterfere | extracted/ubuntu_T6_260223/evdi_t6/evdi_t6_1/main.c:1126-1177 | with exactly one DVO port no byte is ever written for both, whatever they send |
| VendorLoop.Grows | extracted/ubuntu_T6_260223/evdi_t6/evdi_t6_1/main.c:1389 | in the 4K mode the unused command address still grows by 1 MB with every frame |
| VendorLoop.OutgrowsInt | extracted/ubuntu_T6_260223/evdi_t6/evdi_t6_1/main.c:1389 | it fits a 32-bit int for exactly the first 2048 frames of a port whose ring starts at zero, and as many fewer as the ring starts megabytes up |
| VendorQueue.Queue.Add | extracted/ubuntu_T6_260223/evdi_t6/evdi_t6_1/queue.c:106-135 | an element goes behind all others; first, last, links and length stay consistent |
| VendorQueue.Queue.Remove | extracted/ubuntu_T6_260223/evdi_t6/evdi_t6_1/queue.c:157-178 | the element put in first comes out; an empty queue gives none |
| VendorQueue.Queue.First | extracted/ubuntu_T6_260223/evdi_t6/evdi_t6_1/queue.c:145-156 | the element put in first, which stays; an empty queue gives none |
| VendorQueue.Queue.Release | extracted/ubuntu_T6_260223/evdi_t6/evdi_t6_1/queue.c:67-90 | every element is freed, first to last, and the queue is empty |
| VendorQueue.FiveAtMost | extracted/ubuntu_T6_260223/evdi_t6/evdi_t6_1/main.c:1650-1781 | one producer and one consumer in every interleaving: never more than five frames, first in first out, and the first length test never holds |
| VendorQueue.AtMost | extracted/ubuntu_T6_260223/evdi_t6/evdi_t6_1/main.c:1650-1781 | with n producers never more than 4 + n |
| VendorQueue.BoundReached | extracted/ubuntu_T6_260223/evdi_t6/evdi_t6_1/main.c:1650-1781 | for every n there is a run from the empty queue that reaches 4 + n: six with two |
| Yuv.FarthestIs | mac/t6proto-rs/src/bin/t6-virtual-display.rs:3726-3735 | the saturated mode picks the first sample that is farthest from grey |
| Yuv.ChromaAccumulator.Push | mac/t6proto-rs/src/bin/t6-virtual-display.rs:3713-3737 | the accumulator follows the samples pushed; its 16-bit sums do not overflow before the 258th |
| Yuv.ChromaAccumulator.Finish | mac/t6proto-rs/src/bin/t6-virtual-display.rs:3739-3747 | the result is the mean, the first sample or the farthest one |
| Yuv.Put | mac/t6proto-rs/src/bin/t6-virtual-display.rs:3612-3634 | a sample goes to a cell to which none has gone yet; the converters write in no other way |
| Yuv.BgraToNv12 | mac/t6proto-rs/src/bin/t6-virtual-display.rs:3591-3637 | odd output sizes are refused; else every sample of the turned picture is at its place in its plane and the padding is zero |
| Yuv.BgraToYv12 | mac/t6proto-rs/src/bin/t6-virtual-display.rs:3639-3687 | the same for YV12 with three planes |
| YuvHeaders.PitchAgrees | mac/t6proto-rs/src/lib.rs:1458-1462 | the 16-bit pitch of the header is the pitch of the buffer if and only if the width is at most 65520 |
| YuvHeaders.Nv12OnDevice | mac/t6proto-rs/src/lib.rs:358-383 | after the packet is stored at fb_addr every sample is at the offset and pitch the header declares |
| YuvHeaders.Yv12OnDevice | mac/t6proto-rs/src/lib.rs:385-414 | the same for YV12 |
| JpegPatch.ZeroIdsAgain | mac/t6proto-rs/src/bin/t6-virtual-display.rs:2835-2909 | renumbering a renumbered file changes nothing |
| JpegPatch.VersionAgain | mac/t6proto-rs/src/bin/t6-virtual-display.rs:2769-2804 | setting the version again changes nothing |
| JpegPatch.InsertedOnce | mac/t6proto-rs/src/bin/t6-virtual-display.rs:2806-2833 | afterwards the comment is there and a second insertion does nothing; one well-formed segment was added, at a segment boundary |
| JpegPatch.PatchExact | mac/t6proto-rs/src/bin/t6-virtual-display.rs:2757-2767 | the patch leaves its own result alone always if the identifiers are left alone, and else if and only if renumbering what it produced would change version bytes only; the comment makes no difference |
| JpegPatch.PatchAgain | mac/t6proto-rs/src/bin/t6-virtual-display.rs:2757-2767 | a successful patch succeeds again on its result and changes nothing, if the identifiers are left alone or the version bytes that change are not read by the other walker as fill, marker, length or count |
| JpegPatch.StraightAgain | mac/t6proto-rs/src/bin/t6-virtual-display.rs:2757-2767 | in particular on every file without a second start marker before the JFIF segment |
| JpegPatch.NotAlwaysIdempotent | mac/t6proto-rs/src/bin/t6-virtual-display.rs:2757-2767 | a file with a second start marker on which the second patch changes what the first left |
| JpegPatch.OnlyIdsChange | mac/t6proto-rs/src/bin/t6-virtual-display.rs:2835-2909 | a changed byte is one of the first three component identifiers of a frame or scan header |
| JpegPatch.OnlyVersionChanges | mac/t6proto-rs/src/bin/t6-virtual-display.rs:2769-2804 | a changed byte is one of the two version bytes of the first JFIF segment |
| JpegPatch.PatchChanges | mac/t6proto-rs/src/bin/t6-virtual-display.rs:2757-2833 | the whole patch: only those bytes change in place, and at most one comment segment is inserted |
| JpegPatcher.PatchComponentIds | mac/t6proto-rs/src/bin/t6-virtual-display.rs:2835-2909 | the in-place walker computes the specification and fails exactly when a table is malformed |
| JpegPatcher.PatchJfifVersion | mac/t6proto-rs/src/bin/t6-virtual-display.rs:2769-2804 | the same for the version |

## Left out

- SimCList.List.InsertAt: the 32-bit width of `numels` and positions is modelled only in list_delete_range, the one place where a wrap can happen on lists that fit in memory.
- SimCList.List.FindPos: the float comparison is an exact comparison of rationals; the two agree below 2^24 elements.
- SimCList.Concat: returns a new list instead of filling one that the caller initialised; the call with a source as destination is not modelled.
- SimCListSort.Sort: the comparator is an argument, because a function stored in the heap object cannot be quantified over; the random pivot is an arbitrary position. The threaded variant is left out.
- SimCListRep.RepOk: a NULL list and NULL sentinels are left out, as the fields of the model cannot be null.
- SimCList: copy_data mode, hashing, dump and restore, iterators other than the flag that blocks changes, and failing malloc are left out. Freeing an entry is recorded in a ghost sequence.
- Reassembler.Assembly.Add: the two bytearrays are sequence fields; the report files written for complete assemblies are left out.
- WireRoundTrip.RoundTrip: payloads are shorter than 4 GB, as their 32-bit length field demands.
- Refinement.RunShows: covers generated Type7 packets with the two Type4 setup modes; with generated packets off, or in the legacy setup mode, full JPEG flips go to other framebuffers. Width, height and packet lengths are those that the 16- and 32-bit fields can describe (`PartialUpdates.Laid`, `PartialUpdates.Serviceable`), and output sizes are even.
- DefaultRing.RightIffShort: is about the paired setup mode, the default. For setup frames alone the exact condition is stated for each run, by Refinement.RunShows; LargeDisplay.TileOverCanvas is a run that does not meet it.
- PartialUpdates.FrameShows: dirty ratios, tile-size limits, lateness at each of its two tests and the encoder's output are inputs of a frame. An encoder or USB error ends the sender and is not modelled.
- JpegPatch.PatchAgain: the condition for zero-based identifiers, on the bytes the walker reads, is sufficient, not necessary: a changed length can lead to the same end by chance. PatchExact gives the condition that is both, on what the two walkers produce.
- Type7Sender.Sender.Send: statistics, pacing, adaptive quality, packet dumps and acknowledgement waits are left out. vImage's rotation of the full frame is taken to be the map of output_coordinate.
- AsyncDisplay.UnskippedShows: captured frames come one callback at a time, as from the serial dispatch queue that mac/t6proto-rs/src/macos_virtual_display.m:211-213 creates; the other two results allow any number of callbacks.
- AsyncDisplay.ShownAlways: an error of the encoder or of USB ends the sender, and what it leaves on the device is not modelled.
- Mailbox.Always: a try_lock may fail at any time. The end of the sender after a stop request is left out, since the flag is set without the lock.
- VendorLoop.UsbProcess.Run: the frames the queue delivers are an argument; sleeping and the build with USE4KJPEG are left out. The fields are unbounded ints.
- VendorQueue.Queue.Add: a failing malloc and NULL arguments are left out.
- Yuv.BgraToNv12: that a sample is written once is the precondition of Put, not part of this contract. The conversion of one pixel is a parameter.
- EDID, resolution tables, cursor commands, audio, firmware update, options, reports, the kernel driver and all calls into USB, evdi, TurboJPEG, VideoToolbox and macOS are left out.
