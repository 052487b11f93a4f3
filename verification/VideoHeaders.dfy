/** The 48-byte headers in front of every frame (lib.rs) and the capture tool that reads them back
    (t6_pcap_summary.py). */
module VideoHeaders {
  import opened Bytes
  import opened Wrappers

  const VIDEO_COLOR_YV12: u32 := 4
  const VIDEO_COLOR_NV12: u32 := 6
  const VIDEO_COLOR_JPEG: u32 := 13
  const HEADER_SIZE := 48

  /** Consecutive little-endian words. */
  function Words(ws: seq<u32>): (r: seq<byte>)
    ensures |r| == 4 * |ws|
  {
    if ws == [] then [] else Le32(ws[0]) + Words(ws[1..])
  }

  lemma {:induction false} WordAt(ws: seq<u32>, rest: seq<byte>, i: nat)
    requires i < |ws|
    ensures (Words(ws) + rest)[4 * i..4 * i + 4] == Le32(ws[i])
    ensures Get32(Words(ws) + rest, 4 * i) == ws[i]
    decreases i
  {
    var all := Words(ws) + rest;
    hide Le32, Get32;
    if i == 0 {
      assert all[0..4] == Le32(ws[0]);
    } else {
      WordAt(ws[1..], rest, i - 1);
      var tail := Words(ws[1..]) + rest;
      assert all == Le32(ws[0]) + tail;
      assert all[4 * i..4 * i + 4] == tail[4 * (i - 1)..4 * (i - 1) + 4];
    }
    GetLe32(all, 4 * i, ws[i]);
  }

  /** Two 16-bit fields share a word. */
  function Pair(low: u16, high: u16): u32 { high * 0x1_0000 + low }

  lemma PairHalves(b: seq<byte>, at: nat, low: u16, high: u16)
    requires at + 4 <= |b| && Get32(b, at) == Pair(low, high)
    ensures Get16(b, at) == low && Get16(b, at + 2) == high
    ensures Pair(low, high) % 0x1_0000 == low && Pair(low, high) / 0x1_0000 == high
  {
    assert Get32(b, at) == Get16(b, at) as int + 0x1_0000 * Get16(b, at + 2) as int;
    hide Get32, Get16;
  }

  // ---- the headers ----

  datatype Type4Header = Type4Header(dataLen: u32, sequence: u32, canvasWidth: u16, canvasHeight: u16, base0: u32,
                                     base1: u32, base2: u32)
  {
    function Fields(): (r: seq<u32>)
      ensures |r| == 12
    {
      [4, dataLen, sequence, 6, Pair(canvasWidth, canvasHeight), base0, base1, base2, VIDEO_COLOR_JPEG, 0, 0, 0]
    }

    function ToBytes(): (r: seq<byte>)
      ensures |r| == HEADER_SIZE
    {
      Words(Fields())
    }
  }

  datatype Type7Header = Type7Header(dataLen: u32, sequence: u32, width: u16, height: u16, canvasWidth: u16,
                                     canvasHeight: u16,
                                     plane0: u32, plane1: u32, plane2: u32)
  {
    function Fields(): (r: seq<u32>)
      ensures |r| == 12
    {
      [7, dataLen, sequence, 6, Pair(width, height), Pair(canvasWidth, canvasHeight), plane0, plane1, plane2,
       VIDEO_COLOR_JPEG, 0, 0]
    }

    function ToBytes(): (r: seq<byte>)
      ensures |r| == HEADER_SIZE
    {
      Words(Fields())
    }
  }

  datatype FlipHeader = FlipHeader(command: u32, payloadSize: u32, fenceId: u32, targetFormat: u32, yPitch: u16,
                                   uvPitch: u16,
                                   yOffset: u32, uOffset: u32, vOffset: u32, sourceFormat: u32, flags: byte)
  {
    function Fields(): (r: seq<u32>)
      ensures |r| == 12
    {
      [command, payloadSize, fenceId, targetFormat, Pair(yPitch, uvPitch), yOffset, uOffset, vOffset, sourceFormat, 0,
       0, flags * 0x100_0000]
    }

    function ToBytes(): (r: seq<byte>)
      ensures |r| == HEADER_SIZE
    {
      Words(Fields())
    }
  }

  /** flip_command: primary or secondary display. */
  function FlipCommand(displayIndex: byte): u32 { if displayIndex == 0 then 3 else 4 }

  /** A Type4 setup frame is the flip of the secondary display to NV12, with no flags: the same bytes. */
  lemma Type4IsSecondaryFlip(h: Type4Header)
    ensures h.ToBytes()
         == FlipHeader(FlipCommand(1), h.dataLen, h.sequence, VIDEO_COLOR_NV12, h.canvasWidth, h.canvasHeight,
                       h.base0, h.base1, h.base2, VIDEO_COLOR_JPEG, 0).ToBytes()
  {
  }

  // ---- reading headers back ----

  datatype VideoHeader = VideoHeader(videoType: u32, dataLen: u32, sequence: u32, hint: u32, widthField: u16,
                                     heightField: u16,
                                     canvas: Option<(u16, u16)>,
                                     start: u32, end: u32, imageFormat: u32, soi: Option<nat>)

  /** bytes.find(b"\xff\xd8") */
  function FindSoi(data: seq<byte>, from: nat): Option<nat>
    decreases |data| - from
  {
    if from + 2 > |data| then None
    else if data[from] == 0xFF && data[from + 1] == 0xD8 then Some(from)
    else FindSoi(data, from + 1)
  }

  lemma {:induction false} FindsSoi(data: seq<byte>, from: nat, at: nat)
    requires from <= at && at + 2 <= |data| && data[at] == 0xFF && data[at + 1] == 0xD8
    ensures var f := FindSoi(data, from);
            f.Some? && from <= f.value <= at && data[f.value] == 0xFF && data[f.value + 1] == 0xD8
    decreases at - from
  {
    if !(data[from] == 0xFF && data[from + 1] == 0xD8) { FindsSoi(data, from + 1, at); }
  }

  /** parse_video_header of a whole captured packet. */
  function ParseVideoHeader(data: seq<byte>): Option<VideoHeader> {
    if |data| < HEADER_SIZE then None
    else
      var videoType, dataLen := Get32(data, 0), Get32(data, 4);
      if videoType !in {3, 4, 7} then None
      else
        var tile := videoType == 7;
        var canvas := Get32(data, 0x14);
        var imageFormat := if tile then Get32(data, 0x24) else Get32(data, 0x20);
        var soi := FindSoi(data, 0);
        if imageFormat !in {0, 6, 9, 13} then None
        else if dataLen > |data| then None
        else if videoType == 4 && imageFormat == 13 && soi.None? then None
        else Some(VideoHeader(videoType, dataLen, Get32(data, 8), Get32(data, 12), Get16(data, 0x10), Get16(data, 0x12),
                              if tile then Some((canvas % 0x1_0000, canvas / 0x1_0000)) else None,
                              if tile then Get32(data, 0x18) else Get32(data, 0x14),
                              if tile then Get32(data, 0x1C) else Get32(data, 0x18), imageFormat, soi))
  }

  /** A packet is a header, the image and padding. */
  predicate StartsAsJpeg(jpeg: seq<byte>) { |jpeg| >= 2 && jpeg[0] == 0xFF && jpeg[1] == 0xD8 }

  /** Reading back a Type4 packet gives its fields. */
  lemma Type4Parses(h: Type4Header, jpeg: seq<byte>, padding: seq<byte>)
    requires StartsAsJpeg(jpeg) && h.dataLen <= HEADER_SIZE + |jpeg| + |padding|
    ensures var p := ParseVideoHeader(h.ToBytes() + (jpeg + padding));
            p.Some? && p.value.soi.Some? && p.value.soi.value <= HEADER_SIZE
            && p.value == VideoHeader(4, h.dataLen, h.sequence, 6, h.canvasWidth, h.canvasHeight, None, h.base0,
                                      h.base1, VIDEO_COLOR_JPEG, p.value.soi)
  {
    var ws, rest := h.Fields(), jpeg + padding;
    var data := Words(ws) + rest;
    WordAt(ws, rest, 0); WordAt(ws, rest, 1); WordAt(ws, rest, 2); WordAt(ws, rest, 3);
    WordAt(ws, rest, 4); WordAt(ws, rest, 5); WordAt(ws, rest, 6); WordAt(ws, rest, 8);
    PairHalves(data, 0x10, h.canvasWidth, h.canvasHeight);
    assert data[HEADER_SIZE] == jpeg[0] && data[HEADER_SIZE + 1] == jpeg[1];
    FindsSoi(data, 0, HEADER_SIZE);
    hide Words, Get32, Get16, FindSoi, Pair, StartsAsJpeg;
  }

  /** Reading back a Type7 packet gives its fields; the image needs no start marker. */
  lemma Type7Parses(h: Type7Header, jpeg: seq<byte>, padding: seq<byte>)
    requires h.dataLen <= HEADER_SIZE + |jpeg| + |padding|
    ensures var p := ParseVideoHeader(h.ToBytes() + (jpeg + padding));
            p.Some?
            && p.value
              == VideoHeader(7, h.dataLen, h.sequence, 6, h.width, h.height, Some((h.canvasWidth, h.canvasHeight)),
                                      h.plane0, h.plane1, VIDEO_COLOR_JPEG, p.value.soi)
  {
    var ws, rest := h.Fields(), jpeg + padding;
    var data := Words(ws) + rest;
    WordAt(ws, rest, 0); WordAt(ws, rest, 1); WordAt(ws, rest, 2); WordAt(ws, rest, 3);
    WordAt(ws, rest, 4); WordAt(ws, rest, 5); WordAt(ws, rest, 6); WordAt(ws, rest, 7); WordAt(ws, rest, 9);
    PairHalves(data, 0x10, h.width, h.height);
    PairHalves(data, 0x14, h.canvasWidth, h.canvasHeight);
    hide Words, Get32, Get16, FindSoi, Pair;
  }

  /** A flip packet is recognised exactly if its source format is one the tool knows (YV12 is not), and
      a JPEG for the secondary display has a start marker; then its fields come back. */
  lemma FlipParses(h: FlipHeader, image: seq<byte>)
    requires h.command == 3 || h.command == 4
    requires h.payloadSize <= HEADER_SIZE + |image|
    ensures var data := h.ToBytes() + image;
            var p := ParseVideoHeader(data);
            (p.Some? <==>
               h.sourceFormat in {0, 6, 9, 13}
               && (h.command == 4 && h.sourceFormat == 13 ==> FindSoi(data, 0).Some?))
            && (p.Some? ==> p.value == VideoHeader(h.command, h.payloadSize, h.fenceId, h.targetFormat, h.yPitch,
                                                   h.uvPitch, None, h.yOffset, h.uOffset, h.sourceFormat,
                                                   FindSoi(data, 0)))
  {
    var ws := h.Fields();
    var data := Words(ws) + image;
    WordAt(ws, image, 0); WordAt(ws, image, 1); WordAt(ws, image, 2); WordAt(ws, image, 3);
    WordAt(ws, image, 4); WordAt(ws, image, 5); WordAt(ws, image, 6); WordAt(ws, image, 8);
    PairHalves(data, 0x10, h.yPitch, h.uvPitch);
    hide Words, Get32, Get16, FindSoi, Pair;
  }
}
