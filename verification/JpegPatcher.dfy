/** The patchers of t6-virtual-display.rs as they run: walking over the file and writing in place. The
    identifier patcher is also that of t6-send-type7.rs. */
module JpegPatcher {
  import opened Arithmetic
  import opened Bytes
  import opened Wrappers
  import opened JpegPatch

  /** Stepping over fill bytes. */
  method SkipFill(jpeg: array<byte>, start: nat) returns (index: nat)
    requires start <= jpeg.Length
    ensures index == start + Fill(jpeg[start..])
  {
    index := start;
    while index < jpeg.Length && jpeg[index] == 0xFF
      invariant start <= index <= jpeg.Length && index + Fill(jpeg[index..]) == start + Fill(jpeg[start..])
    {
      assert jpeg[index..][1..] == jpeg[index + 1..];
      index := index + 1;
    }
  }

  /** Reading the next marker and length: what the walkers' loop heads do. */
  method NextHead(jpeg: array<byte>, index: nat) returns (h: Head, marker: byte)
    requires index <= jpeg.Length
    ensures h == HeadOf(jpeg[index..])
    ensures h != End ==> index + Fill(jpeg[index..]) < jpeg.Length && marker == jpeg[index..][Fill(jpeg[index..])]
  {
    h, marker := End, 0;
    if index + 4 > jpeg.Length { return; }
    var at := SkipFill(jpeg, index);
    if at >= jpeg.Length { return; }
    marker := jpeg[at];
    if at + 3 > jpeg.Length { h := Bare(at - index); return; }
    var segmentLen := jpeg[at + 1] as int * 0x100 + jpeg[at + 2];
    if segmentLen < 2 || at + 1 + segmentLen > jpeg.Length { h := Bare(at - index); return; }
    h := Segment(at + 1 - index, at + 1 - index + segmentLen);
  }

  /** Writing 0, 1 and 2 into a component table. */
  method WriteIds(jpeg: array<byte>, start: nat, step: nat, count: nat)
    requires step > 0 && count <= 3 && start + step * count <= jpeg.Length
    modifies jpeg
    ensures jpeg[..] == Renumber(old(jpeg[..]), start, step, count)
  {
    var component := 0;
    while component < count
      invariant 0 <= component <= count && start + step * component <= jpeg.Length
      invariant jpeg[..] == Renumber(old(jpeg[..]), start, step, component)
    {
      AtIn(start, step, component, count);
      jpeg[start + step * component] := component;
      component := component + 1;
    }
  }

  lemma {:induction false} RenumberInside(a: seq<byte>, r: seq<byte>, c: seq<byte>, start: nat, step: nat, count: nat)
    requires step > 0 && count <= 3 && start + step * count <= |r|
    ensures Renumber(a + r + c, |a| + start, step, count) == a + Renumber(r, start, step, count) + c
    decreases count
  {
    if count > 0 {
      AtIn(start, step, count - 1, count);
      RenumberInside(a, r, c, start, step, count - 1);
      var s, i := Renumber(r, start, step, count - 1), start + step * (count - 1);
      assert (a + s + c)[|a| + i := count - 1] == a + s[i := count - 1] + c;
    }
  }

  /** patch_jpeg_component_ids_zero_based. */
  method PatchComponentIds(jpeg: array<byte>) returns (ok: bool)
    modifies jpeg
    ensures ok <==> IsJpeg(old(jpeg[..])) && ZeroIds(old(jpeg[2..])).Some?
    ensures ok ==> jpeg[..] == old(jpeg[..2]) + ZeroIds(old(jpeg[2..])).value
  {
    if jpeg.Length < 4 || jpeg[0] != 0xFF || jpeg[1] != 0xD8 {
      return false;
    }
    ghost var was := jpeg[..];
    assert jpeg[2..] == was[2..] && jpeg[..2] == was[..2];
    var index := 2;
    while index < jpeg.Length
      invariant 2 <= index <= jpeg.Length && |was| == jpeg.Length
      invariant Prefixed(was[..2], ZeroIds(was[2..])) == Prefixed(jpeg[..index], ZeroIds(jpeg[index..]))
      decreases jpeg.Length - index
    {
      ghost var r := jpeg[index..];
      var more, next := OneSegment(jpeg, index);
      if more.None? { WrongFails(r); return false; }
      index := next;
      if !more.value { Whole(jpeg[..], index); return true; }
    }
    assert jpeg[index..] == [] && jpeg[..index] == jpeg[..];
    EndHead([]);
    Whole(jpeg[..], index);
    return true;
  }

  lemma WrongFails(r: seq<byte>)
    requires Wrong(r)
    ensures ZeroIds(r).None?
  {
  }

  lemma Whole(j: seq<byte>, index: nat)
    requires index <= |j|
    ensures j == j[..index] + j[index..]
  {
  }

  /** The table of the segment at `index` is rewritten in place. */
  method ApplyTable(jpeg: array<byte>, index: nat, h: Head, t: Table)
    requires index <= jpeg.Length && h == HeadOf(jpeg[index..]) && h.Segment? && t == TableOf(jpeg[index..])
    requires !t.BadTable?
    modifies jpeg
    ensures jpeg[..] == old(jpeg[..index]) + Front(old(jpeg[index..])) + old(jpeg[index..])[h.end..]
  {
    hide *;
    ghost var a, r := jpeg[..index], jpeg[index..];
    assert jpeg[..] == a + r;
    FrontIs(r);
    SplitThree(a, r, h.end);
    if t.Table? {
      WriteIds(jpeg, index + t.start, t.step, t.count);
      RenumberInside(a, r[..h.end], r[h.end..], t.start, t.step, t.count);
    }
  }

  lemma FrontIs(r: seq<byte>)
    requires HeadOf(r).Segment? && !TableOf(r).BadTable?
    ensures var h, t := HeadOf(r), TableOf(r);
            0 < h.end <= |r| &&
            if t.Table? then
              t.step > 0 && t.count <= 3 && t.start + t.step * t.count <= h.end
              && Front(r) == Renumber(r[..h.end], t.start, t.step, t.count)
            else Front(r) == r[..h.end]
  {
  }

  /** One turn of the loop. It reports an error, or whether the walk goes on and where. */
  method OneSegment(jpeg: array<byte>, index: nat) returns (more: Option<bool>, next: nat)
    requires index < jpeg.Length
    modifies jpeg
    ensures more.None? <==> Wrong(old(jpeg[index..]))
    ensures more.Some? ==> Progress(old(jpeg[..index]), old(jpeg[index..]), jpeg[..], next, more.value)
    ensures more == Some(true) ==> index < next
    ensures more == Some(false) ==> next == index
  {
    hide *;
    ghost var a, r := jpeg[..index], jpeg[index..];
    var h, marker := NextHead(jpeg, index);
    if h == End {
      EndHead(r);
      StaysPut(a, r, jpeg[..]);
      return Some(false), index;
    }
    if marker == 0xD8 || marker == 0xD9 {
      var at := SkipFill(jpeg, index);
      SkipsIs(r);
      StepsOver(a, r, jpeg[..]);
      return Some(true), at + 1;
    }
    SkipsNot(r);
    if h.Bare? {
      BareHead(r);
      StaysPut(a, r, jpeg[..]);
      return Some(false), index;
    }
    SegmentMarker(r);
    var t := ReadTable(jpeg, index, h, marker);
    WrongIs(r);
    if t == BadTable {
      return None, index;
    }
    ApplyTable(jpeg, index, h, t);
    Moves(a, r, jpeg[..]);
    if marker == 0xDA { return Some(false), index; }
    return Some(true), index + h.end;
  }

  /** What is done and what is left give together what the whole walk gives. */
  ghost predicate Progress(a: seq<byte>, r: seq<byte>, now: seq<byte>, next: nat, more: bool) {
    |now| == |a| + |r| && |a| <= next <= |now|
    && Prefixed(now[..next], if more then ZeroIds(now[next..]) else Some(now[next..])) == Prefixed(a, ZeroIds(r))
  }

  lemma StaysPut(a: seq<byte>, r: seq<byte>, now: seq<byte>)
    requires ZeroIds(r) == Some(r) && now == a + r
    ensures Progress(a, r, now, |a|, false)
  {
    assert now[..|a|] == a && now[|a|..] == r;
    hide ZeroIds;
  }

  lemma StepsOver(a: seq<byte>, r: seq<byte>, now: seq<byte>)
    requires Skips(r) && now == a + r
    ensures Fill(r) < |r| && Progress(a, r, now, |a| + Fill(r) + 1, true) && !Wrong(r)
  {
    hide *;
    NotWrong(r);
    BareStep(r);
    SteppedOver(a, r, now, Fill(r) + 1);
  }

  lemma NotWrong(r: seq<byte>)
    requires Skips(r)
    ensures !Wrong(r)
  {
  }

  lemma SteppedOver(a: seq<byte>, r: seq<byte>, now: seq<byte>, k: nat)
    requires k <= |r| && now == a + r && ZeroIds(r) == Prefixed(r[..k], ZeroIds(r[k..]))
    ensures Progress(a, r, now, |a| + k, true)
  {
    hide ZeroIds, Prefixed;
    assert now[..|a| + k] == a + r[..k] && now[|a| + k..] == r[k..];
    Joined(a, r[..k], ZeroIds(r[k..]));
  }

  lemma Moves(a: seq<byte>, r: seq<byte>, now: seq<byte>)
    requires HeadOf(r).Segment? && !Skips(r) && !TableOf(r).BadTable? && now == a + Front(r) + r[HeadOf(r).end..]
    ensures 0 < HeadOf(r).end
    ensures MarkerOf(r) == 0xDA ==> Progress(a, r, now, |a|, false)
    ensures MarkerOf(r) != 0xDA ==> Progress(a, r, now, |a| + HeadOf(r).end, true)
  {
    var end := HeadOf(r).end;
    ZeroIdsSegment(r);
    assert |Front(r)| == end && |r[end..]| == |r| - end;
    hide ZeroIds, HeadOf, TableOf, Front, Skips, MarkerOf;
    if MarkerOf(r) == 0xDA {
      assert now[..|a|] == a && now[|a|..] == Front(r) + r[end..];
    } else {
      assert now[..|a| + end] == a + Front(r) && now[|a| + end..] == r[end..];
      Joined(a, Front(r), ZeroIds(r[end..]));
    }
  }

  lemma SkipsIs(r: seq<byte>)
    requires HeadOf(r) != End && Fill(r) < |r| && (r[Fill(r)] == 0xD8 || r[Fill(r)] == 0xD9)
    ensures Skips(r)
  {
  }

  lemma SkipsNot(r: seq<byte>)
    requires HeadOf(r) != End && Fill(r) < |r| && r[Fill(r)] != 0xD8 && r[Fill(r)] != 0xD9
    ensures !Skips(r)
  {
  }

  lemma WrongIs(r: seq<byte>)
    requires HeadOf(r).Segment? && !Skips(r)
    ensures Wrong(r) <==> TableOf(r) == BadTable
  {
  }

  /** The walker stops with an error at this segment. */
  predicate Wrong(r: seq<byte>) {
    HeadOf(r).Segment? && !Skips(r) && TableOf(r) == BadTable
  }

  lemma SplitThree(a: seq<byte>, r: seq<byte>, end: nat)
    requires end <= |r|
    ensures a + r == a + r[..end] + r[end..]
  {
    assert r == r[..end] + r[end..];
  }

  lemma EndHead(r: seq<byte>)
    requires HeadOf(r) == End
    ensures ZeroIds(r) == Some(r) && !Wrong(r)
  {
  }

  lemma BareHead(r: seq<byte>)
    requires HeadOf(r).Bare? && !Skips(r)
    ensures ZeroIds(r) == Some(r) && !Wrong(r)
  {
  }

  lemma Joined(a: seq<byte>, b: seq<byte>, z: Option<seq<byte>>)
    ensures Prefixed(a + b, z) == Prefixed(a, Prefixed(b, z))
  {
    if z.Some? { assert a + b + z.value == a + (b + z.value); }
  }

  method ReadTable(jpeg: array<byte>, index: nat, h: Head, marker: byte) returns (t: Table)
    requires index <= jpeg.Length && h == HeadOf(jpeg[index..]) && h.Segment? && marker == MarkerOf(jpeg[index..])
    ensures t == TableOf(jpeg[index..])
  {
    var at, end := index + h.at, index + h.end;
    hide HeadOf;
    if IsSof(marker) {
      if end - at < 8 { return BadTable; }
      var componentCount := jpeg[at + 7];
      if at + 8 + componentCount as int * 3 > end { return BadTable; }
      return Table(h.at + 8, 3, Min(componentCount, 3));
    } else if marker == 0xDA {
      if end - at < 4 { return BadTable; }
      var componentCount := jpeg[at + 2];
      if at + 3 + componentCount as int * 2 > end { return BadTable; }
      return Table(h.at + 3, 2, Min(componentCount, 3));
    }
    return NoTable;
  }

  /** patch_jfif_version_102. */
  method PatchJfifVersion(jpeg: array<byte>) returns (ok: bool)
    modifies jpeg
    ensures ok <==> IsJpeg(old(jpeg[..]))
    ensures ok ==> jpeg[..] == old(jpeg[..2]) + Version102(old(jpeg[2..]))
    ensures !ok ==> jpeg[..] == old(jpeg[..])
  {
    if jpeg.Length < 4 || jpeg[0] != 0xFF || jpeg[1] != 0xD8 {
      return false;
    }
    ghost var was := jpeg[..];
    assert jpeg[2..] == was[2..] && jpeg[..2] == was[..2];
    var index := 2;
    hide *;
    var done := false;
    while !done
      invariant 2 <= index <= jpeg.Length && |was| == jpeg.Length
      invariant !done ==> jpeg[..] == was && was[..2] + Version102(was[2..]) == was[..index] + Version102(was[index..])
      invariant done ==> jpeg[..] == was[..2] + Version102(was[2..])
      decreases !done, jpeg.Length - index
    {
      var next := VersionSegment(jpeg, index);
      if next.None? { done := true; } else { index := next.value; }
    }
    return true;
  }

  /** One turn of the loop; it reports where to go on. */
  method VersionSegment(jpeg: array<byte>, index: nat) returns (next: Option<nat>)
    requires index <= jpeg.Length
    modifies jpeg
    ensures next.None? ==> jpeg[..] == old(jpeg[..])[..index] + Version102(old(jpeg[..])[index..])
    ensures next.Some? ==> jpeg[..] == old(jpeg[..]) && index < next.value <= jpeg.Length
    ensures next.Some? ==>
              jpeg[..][..next.value] + Version102(jpeg[..][next.value..])
                == old(jpeg[..])[..index] + Version102(old(jpeg[..])[index..])
  {
    hide *;
    ghost var was := jpeg[..];
    ghost var r := was[index..];
    assert jpeg[index..] == r;
    var h, marker := NextHead(jpeg, index);
    VersionStep(r);
    StopsIs(r);
    if h == End || marker == 0xDA || marker == 0xD9 || h.Bare? {
      Whole(was, index);
      return None;
    }
    var jfif := CheckJfif(jpeg, index, h, marker);
    if jfif {
      JfifLong(r);
      SetVersion(jpeg, index, index + h.at + 7);
      return None;
    }
    Further(was, index, h.end, Version102(r[h.end..]));
    next := Some(index + h.end);
  }

  /** Whether the segment is APP0, long enough and begins with the JFIF mark. */
  method CheckJfif(jpeg: array<byte>, index: nat, h: Head, marker: byte) returns (jfif: bool)
    requires index <= jpeg.Length && h == HeadOf(jpeg[index..]) && h.Segment?
    requires Fill(jpeg[index..]) < |jpeg[index..]| && marker == jpeg[index..][Fill(jpeg[index..])]
    ensures jfif == IsJfif(jpeg[index..])
  {
    hide *;
    ghost var r := jpeg[index..];
    SegmentMarker(r);
    if marker == 0xE0 && h.end - h.at >= 14 {
      JfifIs(r);
      var payloadStart := index + h.at + 2;
      SliceBehind(jpeg[..], index, h.at + 2, 5);
      jfif := jpeg[payloadStart..payloadStart + 5] == JFIF;
    } else {
      JfifNot(r);
      jfif := false;
    }
  }

  lemma JfifLong(r: seq<byte>)
    requires IsJfif(r)
    ensures HeadOf(r).Segment? && HeadOf(r).at + 9 <= |r|
  {
  }

  method SetVersion(jpeg: array<byte>, ghost index: nat, at: nat)
    requires index <= at && at + 1 < jpeg.Length
    modifies jpeg
    ensures jpeg[..] == old(jpeg[..])[..index] + old(jpeg[..])[index..][at - index := 1][at - index + 1 := 2]
  {
    ghost var was := jpeg[..];
    jpeg[at] := 1;
    jpeg[at + 1] := 2;
    SetBehind(was, index, at - index);
  }

  lemma SliceBehind(was: seq<byte>, index: nat, k: nat, n: nat)
    requires index + k + n <= |was|
    ensures was[index + k..index + k + n] == was[index..][k..k + n]
  {
  }

  lemma StopsIs(r: seq<byte>)
    ensures Stops(r)
       <==> HeadOf(r) == End || HeadOf(r).Bare? || (Fill(r) < |r| && (r[Fill(r)] == 0xDA || r[Fill(r)] == 0xD9))
    ensures HeadOf(r).Segment? ==> 0 < HeadOf(r).at && HeadOf(r).at + 2 <= HeadOf(r).end <= |r|
  {
  }

  lemma JfifIs(r: seq<byte>)
    requires HeadOf(r).Segment? && MarkerOf(r) == 0xE0 && HeadOf(r).end - HeadOf(r).at >= 14
    ensures HeadOf(r).at + 7 <= |r| && (IsJfif(r) <==> r[HeadOf(r).at + 2..HeadOf(r).at + 7] == JFIF)
  {
  }

  lemma JfifNot(r: seq<byte>)
    requires HeadOf(r).Segment? && !(MarkerOf(r) == 0xE0 && HeadOf(r).end - HeadOf(r).at >= 14)
    ensures !IsJfif(r)
  {
  }

  lemma SegmentMarker(r: seq<byte>)
    requires HeadOf(r).Segment?
    ensures Fill(r) == HeadOf(r).at - 1 && MarkerOf(r) == r[Fill(r)]
  {
  }

  lemma Further(was: seq<byte>, index: nat, end: nat, x: seq<byte>)
    requires index + end <= |was|
    ensures was[index..][end..] == was[index + end..]
    ensures was[..index] + (was[index..][..end] + x) == was[..index + end] + x
  {
    assert was[..index] + was[index..][..end] == was[..index + end];
    assert was[..index] + (was[index..][..end] + x) == was[..index] + was[index..][..end] + x;
  }

  lemma SetBehind(was: seq<byte>, index: nat, k: nat)
    requires index + k + 1 < |was|
    ensures was[index + k := 1][index + k + 1 := 2] == was[..index] + was[index..][k := 1][k + 1 := 2]
  {
  }
}
