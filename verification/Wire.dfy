/** How a payload goes over the bulk endpoint: a 32-byte header in front of every fragment
    (lib.rs), and the C twin of the same code (t6proto.c). */
module Wire {
  import opened Arithmetic
  import opened Bytes

  const BULK_DMA_HEADER_SIZE := 32

  // ---- fragments ----

  datatype Fragment = Fragment(offset: u32, size: u32, more: bool)

  function FragmentCount(payloadLength: u32, maxPacketSize: u32): nat {
    if payloadLength == 0 || maxPacketSize == 0 then 0 else DivCeil(payloadLength, maxPacketSize)
  }

  function FragmentOffset(maxPacketSize: u32, index: nat): u32 {
    Wrap32(maxPacketSize * index)
  }

  function FragmentSize(payloadLength: u32, maxPacketSize: u32, index: nat): u32 {
    var offset := FragmentOffset(maxPacketSize, index);
    if maxPacketSize == 0 || offset >= payloadLength then 0
    else if payloadLength - offset < maxPacketSize then payloadLength - offset else maxPacketSize
  }

  function FragmentAt(payloadLength: u32, maxPacketSize: u32, index: nat): Fragment {
    var offset := FragmentOffset(maxPacketSize, index);
    var size := FragmentSize(payloadLength, maxPacketSize, index);
    Fragment(offset, size, offset + size < payloadLength)
  }

  /** Fragments follow each other without gap or overlap, none is empty or too large, and exactly
      the last one is marked as such. */
  lemma FragmentsTile(payloadLength: u32, maxPacketSize: u32, index: nat)
    requires maxPacketSize > 0 && index < FragmentCount(payloadLength, maxPacketSize)
    ensures var f := FragmentAt(payloadLength, maxPacketSize, index);
            && f.offset == maxPacketSize * index
            && 0 < f.size <= maxPacketSize
            && f.offset + f.size <= payloadLength
            && (f.more <==> index + 1 < FragmentCount(payloadLength, maxPacketSize))
            && (f.more ==> f.size == maxPacketSize && f.offset + f.size == maxPacketSize * (index + 1))
            && (!f.more ==> f.offset + f.size == payloadLength)
  {
    CeilStep(payloadLength, maxPacketSize, index);
    hide DivCeil;
    var at := maxPacketSize * index;
    assert FragmentOffset(maxPacketSize, index) == at;
  }

  /** Multiples of `m` below the rounded-up quotient are the ones below `n`. */
  lemma CeilStep(n: nat, m: nat, index: nat)
    requires n > 0 && m > 0 && index < DivCeil(n, m)
    ensures m * index < n && m * (index + 1) == m * index + m
    ensures index + 1 < DivCeil(n, m) <==> m * (index + 1) < n
  {
    var count := DivCeil(n, m);
    QuotientBounds(n + m - 1, m);
    MulLe(m, index + 1, count);
    if index + 1 < count {
      MulLe(m, index + 2, count);
      assert m * (index + 2) == m * (index + 1) + m;
    }
  }

  // ---- the C twin ----

  function CFragmentCount(payloadLength: u32, maxPacketSize: u32): nat {
    if payloadLength == 0 || maxPacketSize == 0 then 0 else Wrap32(payloadLength + maxPacketSize - 1) / maxPacketSize
  }

  function CFragmentHasMore(payloadLength: u32, maxPacketSize: u32, index: nat): bool {
    var size := FragmentSize(payloadLength, maxPacketSize, index);
    size != 0 && Wrap32(FragmentOffset(maxPacketSize, index) + size) < payloadLength
  }

  /** The C functions count the same fragments as the Rust ones exactly as long as the rounding
      sum does not wrap; when it wraps they count none. */
  lemma CFragmentCountAgrees(payloadLength: u32, maxPacketSize: u32)
    requires payloadLength > 0 && maxPacketSize > 0
    ensures CFragmentCount(payloadLength, maxPacketSize) == FragmentCount(payloadLength, maxPacketSize)
       <==> payloadLength + maxPacketSize - 1 < TWO32
    ensures payloadLength + maxPacketSize - 1 >= TWO32 ==> CFragmentCount(payloadLength, maxPacketSize) == 0
  {
    var s := payloadLength + maxPacketSize - 1;
    QuotientPositive(s, maxPacketSize);
    if s >= TWO32 {
      assert Wrap32(s) == s - TWO32;
      QuotientZero(s - TWO32, maxPacketSize);
    }
  }

  lemma QuotientPositive(a: nat, b: nat)
    requires 0 < b <= a
    ensures a / b > 0
  {
  }

  lemma QuotientZero(a: nat, b: nat)
    requires a < b
    ensures a / b == 0
  {
  }

  lemma CFragmentHasMoreAgrees(payloadLength: u32, maxPacketSize: u32, index: nat)
    requires maxPacketSize > 0 && index < FragmentCount(payloadLength, maxPacketSize)
    ensures CFragmentHasMore(payloadLength, maxPacketSize, index)
         == FragmentAt(payloadLength, maxPacketSize, index).more
  {
    FragmentsTile(payloadLength, maxPacketSize, index);
    hide FragmentSize, FragmentOffset, FragmentCount;
  }

  // ---- headers ----

  const SIGNATURE_DISPLAY: u32 := 0
  const PACKET_FLAG_NONE: byte := 0
  const PACKET_FLAG_CONTINUE_TO_SEND: byte := 1

  datatype BulkDmaHeader = BulkDmaHeader(
    signature: u32,
    payloadLength: u32,
    payloadAddress: u32,
    packetSize: u32,
    packetOffset: u32,
    packetFlags: byte,
    functionSpecific: seq<byte>)
  {
    predicate Valid() { |functionSpecific| == 8 }

    function ToBytes(): (r: seq<byte>)
      requires Valid()
      ensures |r| == BULK_DMA_HEADER_SIZE
    {
      Words() + [packetFlags, 0, 0, 0] + functionSpecific
    }

    function Words(): (r: seq<byte>)
      ensures |r| == 20
    {
      Le32(signature) + Le32(payloadLength) + Le32(payloadAddress) + Le32(packetSize) + Le32(packetOffset)
    }
  }

  function Display(
    payloadLength: u32, payloadAddress: u32, packetSize: u32, packetOffset: u32, more: bool): (h: BulkDmaHeader)
    ensures h.Valid()
  {
    BulkDmaHeader(SIGNATURE_DISPLAY, payloadLength, payloadAddress, packetSize, packetOffset,
                  if more then PACKET_FLAG_CONTINUE_TO_SEND else PACKET_FLAG_NONE, [0, 0, 0, 0, 0, 0, 0, 0])
  }

  /** write_le32 of the C library. */
  method WriteLe32(out: array<byte>, at: nat, value: u32)
    requires at + 4 <= out.Length
    modifies out
    ensures out[..at + 4] == old(out[..at]) + Le32(value)
    ensures forall i :: at + 4 <= i < out.Length ==> out[i] == old(out[i])
  {
    out[at] := value % 0x100;
    out[at + 1] := value / 0x100 % 0x100;
    out[at + 2] := value / 0x1_0000 % 0x100;
    out[at + 3] := value / 0x100_0000 % 0x100;
  }

  /** t6_write_bulk_dma_header fills its buffer with the bytes the Rust code sends. */
  method WriteBulkDmaHeader(out: array<byte>, header: BulkDmaHeader)
    requires out.Length == BULK_DMA_HEADER_SIZE && header.Valid()
    modifies out
    ensures out[..] == header.ToBytes()
  {
    hide Le32;
    forall i | 0 <= i < out.Length { out[i] := 0; }
    WriteLe32(out, 0, header.signature);
    assert out[..4] == Le32(header.signature);
    WriteLe32(out, 4, header.payloadLength);
    WriteLe32(out, 8, header.payloadAddress);
    WriteLe32(out, 12, header.packetSize);
    WriteLe32(out, 16, header.packetOffset);
    WriteTail(out, header);
  }

  method WriteTail(out: array<byte>, header: BulkDmaHeader)
    requires out.Length == BULK_DMA_HEADER_SIZE && header.Valid()
    requires out[..20] == header.Words() && out[21] == out[22] == out[23] == 0
    modifies out
    ensures out[..] == header.ToBytes()
  {
    hide BulkDmaHeader.Words;
    out[20] := header.packetFlags;
    forall i | 0 <= i < 8 { out[24 + i] := header.functionSpecific[i]; }
    assert out[20..24] == [header.packetFlags, 0, 0, 0];
    assert out[24..] == header.functionSpecific;
    assert out[..] == out[..20] + out[20..24] + out[24..];
  }

  // ---- chunks ----

  datatype Chunk = Chunk(header: BulkDmaHeader, data: seq<byte>)

  /** bulk_chunks: the chunk at `index` of a payload sent to an address. */
  function BulkChunk(payload: seq<byte>, payloadAddress: u32, maxPacketSize: u32, index: nat): Chunk
    requires |payload| < TWO32 && maxPacketSize > 0 && index < FragmentCount(|payload|, maxPacketSize)
  {
    FragmentsTile(|payload|, maxPacketSize, index);
    var f := FragmentAt(|payload|, maxPacketSize, index);
    Chunk(Display(|payload|, payloadAddress, f.size, f.offset, f.more), payload[f.offset..f.offset + f.size])
  }
}
