/** The patches that make JPEG files look like those of the vendor's encoder (t6-virtual-display.rs).
    Markers and segments are those of ITU-T T.81, sections B.1.1, B.2.2, B.2.3 and B.2.4.5. */
module JpegPatch {
  import opened Arithmetic
  import opened Bytes
  import opened Wrappers

  // ---- segments ----

  /** How many fill bytes 0xFF come first. */
  function Fill(r: seq<byte>): (n: nat)
    ensures n <= |r| && (n < |r| ==> r[n] != 0xFF)
  {
    if r == [] || r[0] != 0xFF then 0 else 1 + Fill(r[1..])
  }

  lemma {:induction false} FillBytes(r: seq<byte>)
    ensures forall i :: 0 <= i < Fill(r) ==> r[i] == 0xFF
  {
    if r != [] && r[0] == 0xFF { FillBytes(r[1..]); }
  }

  function Get16Be(r: seq<byte>, at: nat): nat
    requires at + 2 <= |r|
  {
    r[at] as int * 0x100 + r[at + 1]
  }

  /** What the walkers make of the bytes that are left: nothing more to do, a marker at `mark`, or a
      segment whose length field is at `at` and whose end is at `end`. */
  datatype Head = End | Bare(mark: nat) | Segment(at: nat, end: nat)

  predicate IsSof(marker: byte) { 0xC0 <= marker <= 0xCF && marker != 0xC4 && marker != 0xC8 && marker != 0xCC }

  /** The next marker. */
  function HeadOf(r: seq<byte>): (h: Head)
    ensures h.Bare? ==> h.mark < |r| && r[h.mark] != 0xFF
    ensures h.Segment? ==>
              0 < h.at && h.at + 2 <= h.end <= |r| && h.end == h.at + Get16Be(r, h.at) && h.at - 1 == Fill(r)
  {
    if |r| < 4 then End
    else
      var k := Fill(r);
      if k >= |r| then End
      else if k + 3 > |r| then Bare(k)
      else
        var len := Get16Be(r, k + 1);
        if len < 2 || k + 1 + len > |r| then Bare(k) else Segment(k + 1, k + 1 + len)
  }

  function MarkerOf(r: seq<byte>): byte
    requires HeadOf(r).Segment?
  {
    r[HeadOf(r).at - 1]
  }

  /** A marker without a length: the walker for component identifiers steps over it. */
  predicate Skips(r: seq<byte>) {
    HeadOf(r) != End && r[Fill(r)] in {0xD8, 0xD9}
  }

  // ---- component identifiers ----

  datatype Table = NoTable | BadTable | Table(start: nat, step: nat, count: nat)

  /** The component table of a frame or scan header; the offsets are from the start of the bytes left. */
  function TableOf(r: seq<byte>): (t: Table)
    requires HeadOf(r).Segment?
    ensures t.Table? ==>
              t.count <= 3 && (t.step == 2 || t.step == 3) && t.start > HeadOf(r).at + 2
              && t.start + t.step * t.count <= HeadOf(r).end
  {
    var h, marker := HeadOf(r), MarkerOf(r);
    var len := h.end - h.at;
    if IsSof(marker) then
      if len < 8 then BadTable
      else if h.at + 8 + r[h.at + 7] as int * 3 > h.end then BadTable
      else Table(h.at + 8, 3, Min(r[h.at + 7], 3))
    else if marker == 0xDA then
      if len < 4 then BadTable
      else if h.at + 3 + r[h.at + 2] as int * 2 > h.end then BadTable
      else Table(h.at + 3, 2, Min(r[h.at + 2], 3))
    else NoTable
  }

  /** The identifiers of the components become 0, 1 and 2. */
  function Renumber(r: seq<byte>, start: nat, step: nat, count: nat): (s: seq<byte>)
    requires start + step * count <= |r| && step > 0 && count <= 3
    ensures |s| == |r|
  {
    if count == 0 then r
    else
      AtIn(start, step, count - 1, count);
      Renumber(r, start, step, count - 1)[start + step * (count - 1) := count - 1]
  }

  lemma AtIn(start: nat, step: nat, i: nat, count: nat)
    requires i < count && step > 0
    ensures start + step * i < start + step * count && step * i + step <= step * count
  {
    assert step * count == step * i + step * (count - i);
    assert step * (count - i) >= step by { AtLeastOne(step, count - i); }
  }

  /** The segment at the front with its identifiers renumbered. */
  function Front(r: seq<byte>): (s: seq<byte>)
    requires HeadOf(r).Segment? && !TableOf(r).BadTable?
    ensures |s| == HeadOf(r).end
  {
    var h, t := HeadOf(r), TableOf(r);
    if t.Table? then Renumber(r[..h.end], t.start, t.step, t.count) else r[..h.end]
  }

  /** A segment, and what becomes of the bytes behind it; nothing when its table is malformed. */
  function ZeroSegment(r: seq<byte>, tail: Option<seq<byte>>): (z: Option<seq<byte>>)
    requires HeadOf(r).Segment?
    ensures z.Some? ==> tail.Some? && |z.value| == HeadOf(r).end + |tail.value|
  {
    if TableOf(r).BadTable? then None else Prefixed(Front(r), tail)
  }

  /** patch_jpeg_component_ids_zero_based behind the start marker: the bytes with every identifier
      renumbered up to the first scan, or nothing when a table is malformed. */
  function ZeroIds(r: seq<byte>): (z: Option<seq<byte>>)
    ensures z.Some? ==> |z.value| == |r|
    decreases |r|
  {
    var h := HeadOf(r);
    if h == End then Some(r)
    else if Skips(r) then Prefixed(r[..Fill(r) + 1], ZeroIds(r[Fill(r) + 1..]))
    else if h.Bare? then Some(r)
    else ZeroSegment(r, if MarkerOf(r) == 0xDA then Some(r[h.end..]) else ZeroIds(r[h.end..]))
  }

  function Prefixed(a: seq<byte>, b: Option<seq<byte>>): Option<seq<byte>> {
    if b.None? then None else Some(a + b.value)
  }

  // ---- the JFIF version ----

  const JFIF: seq<byte> := [0x4A, 0x46, 0x49, 0x46, 0]

  predicate IsJfif(r: seq<byte>) {
    var h := HeadOf(r);
    h.Segment? && MarkerOf(r) == 0xE0 && h.end - h.at >= 14 && r[h.at + 2..h.at + 7] == JFIF
  }

  /** patch_jfif_version_102 behind the start marker: the version of the first JFIF segment before the
      first scan becomes 1.02. */
  function Version102(r: seq<byte>): (s: seq<byte>)
    ensures |s| == |r|
    decreases |r|
  {
    var h := HeadOf(r);
    if h == End || r[Fill(r)] in {0xDA, 0xD9} || h.Bare? then r
    else if IsJfif(r) then r[h.at + 7 := 1][h.at + 8 := 2]
    else r[..h.end] + Version102(r[h.end..])
  }

  // ---- the comment ----

  /** "Intel(R) IPP JPEG encoder [7.1.37466] - Sep 25 2012;" and a zero byte. */
  const COMMENT: seq<byte> :=
    [73, 110, 116, 101, 108, 40, 82, 41, 32, 73, 80, 80, 32, 74, 80, 69, 71, 32, 101, 110, 99, 111, 100, 101, 114, 32,
     91, 55, 46, 49, 46, 51, 55, 52, 54, 54, 93, 32, 45, 32, 83, 101, 112, 32, 50, 53, 32, 50, 48, 49, 50, 59, 0]

  /** A comment segment: marker, length, text. */
  function CommentSegment(): seq<byte> { [0xFF, 0xFE, 0, 55] + COMMENT }

  predicate OccursAt(j: seq<byte>, w: seq<byte>, i: nat) { i + |w| <= |j| && j[i..i + |w|] == w }

  predicate Contains(j: seq<byte>, w: seq<byte>) { exists i: nat :: i <= |j| && OccursAt(j, w, i) }

  predicate IsJpeg(j: seq<byte>) { |j| >= 4 && j[0] == 0xFF && j[1] == 0xD8 }

  /** Behind the first segment if that is APP0, else behind the start marker. */
  function InsertAt(j: seq<byte>): (at: nat)
    requires IsJpeg(j)
    ensures 2 <= at <= |j|
  {
    if |j| >= 6 && j[2] == 0xFF && j[3] == 0xE0 && Get16Be(j, 4) >= 2 && 4 + Get16Be(j, 4) <= |j|
    then 4 + Get16Be(j, 4)
    else 2
  }

  function InsertComment(j: seq<byte>): seq<byte>
    requires IsJpeg(j)
  {
    if Contains(j, COMMENT) then j else j[..InsertAt(j)] + CommentSegment() + j[InsertAt(j)..]
  }

  // ---- the whole patch ----

  /** patch_jpeg_type7_mode6_compat; nothing stands for an error. */
  function Patch(j: seq<byte>, zeroBased: bool): Option<seq<byte>> {
    if !IsJpeg(j) then None
    else
      var ids := if zeroBased then ZeroIds(j[2..]) else Some(j[2..]);
      if ids.None? then None else Some(InsertComment(j[..2] + Version102(ids.value)))
  }

  // ---- heads do not depend on what is behind them ----

  lemma {:induction false} FillIs(r: seq<byte>, n: nat)
    requires n < |r| && r[n] != 0xFF && forall i :: 0 <= i < n ==> r[i] == 0xFF
    ensures Fill(r) == n
  {
    if n > 0 { FillIs(r[1..], n - 1); }
  }

  /** Bytes of the same number with the same marker and length have the same head. */
  lemma HeadSame(r: seq<byte>, s: seq<byte>)
    requires HeadOf(r).Segment? && |s| == |r| && s[..HeadOf(r).at + 2] == r[..HeadOf(r).at + 2]
    ensures HeadOf(s) == HeadOf(r) && MarkerOf(s) == MarkerOf(r) && (Skips(s) <==> Skips(r))
  {
    var h := HeadOf(r);
    var a, b := r[..h.at + 2], s[..h.at + 2];
    assert forall i :: 0 <= i < h.at + 2 ==> r[i] == a[i] && s[i] == b[i];
    FillBytes(r);
    FillIs(s, h.at - 1);
  }

  lemma BareSame(r: seq<byte>, s: seq<byte>)
    requires Skips(r) && |s| == |r| && s[..Fill(r) + 1] == r[..Fill(r) + 1]
    ensures Skips(s) && Fill(s) == Fill(r)
  {
    var k := Fill(r);
    assert k < |r|;
    var a, b := r[..k + 1], s[..k + 1];
    assert forall i :: 0 <= i < k + 1 ==> r[i] == a[i] && s[i] == b[i];
    FillBytes(r);
    FillIs(s, k);
  }

  // ---- renumbering ----

  predicate InTable(start: nat, step: nat, count: nat, i: nat) {
    exists c: nat :: c < count && i == At(start, step, c)
  }

  function At(start: nat, step: nat, c: nat): nat { start + step * c }

  /** Renumbering changes nothing but identifiers. */
  lemma {:induction false} RenumberOnly(r: seq<byte>, start: nat, step: nat, count: nat, i: nat)
    requires start + step * count <= |r| && step > 0 && count <= 3 && i < |r|
    ensures var s := Renumber(r, start, step, count);
            (s[i] != r[i] ==> InTable(start, step, count, i) && start <= i < start + step * count)
            && (InTable(start, step, count, i) ==> s[i] < count && i == At(start, step, s[i]))
    decreases count
  {
    if count > 0 {
      AtIn(start, step, count - 1, count);
      RenumberOnly(r, start, step, count - 1, i);
      assert At(start, step, count - 1) == start + step * (count - 1);
      if InTable(start, step, count, i) && i != At(start, step, count - 1) {
        var c: nat :| c < count && i == At(start, step, c);
        assert c < count - 1;
      }
    }
  }

  lemma {:induction false} RenumberAgain(r: seq<byte>, start: nat, step: nat, count: nat)
    requires start + step * count <= |r| && step > 0 && count <= 3
    ensures Renumber(Renumber(r, start, step, count), start, step, count) == Renumber(r, start, step, count)
  {
    var s := Renumber(r, start, step, count);
    forall c: nat | c < count ensures At(start, step, c) < |s| && s[At(start, step, c)] == c {
      AtIn(start, step, c, count);
      RenumberOnly(r, start, step, count, At(start, step, c));
      assert InTable(start, step, count, At(start, step, c));
      AtOnce(start, step, c, s[At(start, step, c)]);
    }
    Numbered(s, start, step, count);
  }

  lemma AtOnce(start: nat, step: nat, a: nat, b: nat)
    requires step > 0 && At(start, step, a) == At(start, step, b)
    ensures a == b
  {
    if a < b { AtIn(start, step, a, b); }
    if b < a { AtIn(start, step, b, a); }
  }

  lemma {:induction false} Numbered(s: seq<byte>, start: nat, step: nat, count: nat)
    requires start + step * count <= |s| && step > 0 && count <= 3
    requires forall c: nat :: c < count ==> At(start, step, c) < |s| && s[At(start, step, c)] == c
    ensures Renumber(s, start, step, count) == s
    decreases count
  {
    if count > 0 {
      AtIn(start, step, count - 1, count);
      Numbered(s, start, step, count - 1);
      assert s[At(start, step, count - 1)] == count - 1;
    }
  }

  /** Renumbering leaves everything in front of the table. */
  lemma FrontKeeps(r: seq<byte>, i: nat)
    requires HeadOf(r).Segment? && !TableOf(r).BadTable? && i < HeadOf(r).end
    requires (TableOf(r).Table? ==> i < TableOf(r).start)
    ensures Front(r)[i] == r[i]
  {
    var h, t := HeadOf(r), TableOf(r);
    hide HeadOf, TableOf;
    if t.Table? { RenumberOnly(r[..h.end], t.start, t.step, t.count, i); }
  }

  /** The table depends on the marker, the length and the count only. */
  lemma TableSame(r: seq<byte>, s: seq<byte>)
    requires HeadOf(r).Segment? && HeadOf(s) == HeadOf(r) && MarkerOf(s) == MarkerOf(r) && !TableOf(r).BadTable?
    requires TableOf(r).Table? ==> forall i :: 0 <= i < TableOf(r).start ==> i < |s| && s[i] == r[i]
    ensures TableOf(s) == TableOf(r)
  {
    var h := HeadOf(r);
    hide HeadOf, MarkerOf;
    if TableOf(r).Table? {
      assert s[h.at + 2] == r[h.at + 2];
      assert IsSof(MarkerOf(r)) ==> s[h.at + 7] == r[h.at + 7];
    }
  }

  /** A renumbered segment has the same marker, length and table, and renumbering it again changes nothing. */
  lemma FrontSame(r: seq<byte>, tail: seq<byte>)
    requires HeadOf(r).Segment? && !TableOf(r).BadTable? && |tail| == |r| - HeadOf(r).end
    ensures var s := Front(r) + tail;
            HeadOf(s) == HeadOf(r) && MarkerOf(s) == MarkerOf(r) && TableOf(s) == TableOf(r)
            && (Skips(s) <==> Skips(r)) && Front(s) == Front(r)
  {
    var h, t, s := HeadOf(r), TableOf(r), Front(r) + tail;
    forall i | 0 <= i < h.end && (t.Table? ==> i < t.start) ensures s[i] == r[i] {
      FrontKeeps(r, i);
    }
    assert s[..h.at + 2] == r[..h.at + 2];
    HeadSame(r, s);
    TableSame(r, s);
    hide HeadOf, TableOf, MarkerOf, Skips;
    assert s[..h.end] == Front(r);
    if t.Table? {
      RenumberAgain(r[..h.end], t.start, t.step, t.count);
    } else {
      assert s[..h.end] == r[..h.end];
    }
  }

  /** One segment of the walk. */
  lemma ZeroIdsSegment(r: seq<byte>)
    requires HeadOf(r).Segment? && !Skips(r) && !TableOf(r).BadTable?
    ensures ZeroIds(r) == if MarkerOf(r) == 0xDA then Some(Front(r) + r[HeadOf(r).end..])
                          else Prefixed(Front(r), ZeroIds(r[HeadOf(r).end..]))
  {
  }

  /** Renumbering a file that is renumbered changes nothing. */
  lemma {:induction false} ZeroIdsAgain(r: seq<byte>)
    requires ZeroIds(r).Some?
    ensures ZeroIds(ZeroIds(r).value) == ZeroIds(r)
    decreases |r|
  {
    var h := HeadOf(r);
    if h == End {
    } else if Skips(r) {
      assert ZeroIds(r) == Prefixed(r[..Fill(r) + 1], ZeroIds(r[Fill(r) + 1..]));
      ZeroIdsAgain(r[Fill(r) + 1..]);
      BareAgain(r);
    } else if h.Segment? {
      assert MarkerOf(r) != 0xDA ==> ZeroIds(r[h.end..]).Some?;
      if MarkerOf(r) != 0xDA { ZeroIdsAgain(r[h.end..]); }
      SegmentAgain(r);
    }
  }

  lemma {:induction false} BareStep(r: seq<byte>)
    requires Skips(r)
    ensures Fill(r) < |r| && ZeroIds(r) == Prefixed(r[..Fill(r) + 1], ZeroIds(r[Fill(r) + 1..]))
  {
    hide Skips, HeadOf, Fill, ZeroSegment, Prefixed, MarkerOf;
    SkipsInside(r);
  }

  lemma SkipsInside(r: seq<byte>)
    requires Skips(r)
    ensures Fill(r) < |r| && HeadOf(r) != End
  {
    hide Fill, Get16Be;
  }

  lemma BareAgain(r: seq<byte>)
    requires Skips(r) && ZeroIds(r).Some? && Fill(r) < |r|
    requires ZeroIds(r[Fill(r) + 1..]).Some? ==> ZeroIds(ZeroIds(r[Fill(r) + 1..]).value) == ZeroIds(r[Fill(r) + 1..])
    ensures ZeroIds(ZeroIds(r).value) == ZeroIds(r)
  {
    var z, k := ZeroIds(r).value, Fill(r) + 1;
    BareStep(r);
    var tail := ZeroIds(r[k..]).value;
    assert z == r[..k] + tail && z[..k] == r[..k] && z[k..] == tail;
    BareSame(r, z);
    BareStep(z);
    hide Skips, ZeroIds, HeadOf, Fill;
  }

  lemma SegmentAgain(r: seq<byte>)
    requires ZeroIds(r).Some? && HeadOf(r).Segment? && !Skips(r)
    requires MarkerOf(r) != 0xDA ==>
               ZeroIds(r[HeadOf(r).end..]).Some?
               && ZeroIds(ZeroIds(r[HeadOf(r).end..]).value) == ZeroIds(r[HeadOf(r).end..])
    ensures ZeroIds(ZeroIds(r).value) == ZeroIds(r)
  {
    var h, z := HeadOf(r), ZeroIds(r).value;
    assert !TableOf(r).BadTable?;
    ZeroIdsSegment(r);
    var tail := if MarkerOf(r) == 0xDA then r[h.end..] else ZeroIds(r[h.end..]).value;
    assert z == Front(r) + tail;
    FrontSame(r, tail);
    assert z[h.end..] == tail;
    ZeroIdsSegment(z);
    hide HeadOf, TableOf, Front, Skips, MarkerOf;
  }

  // ---- the version ----

  predicate Stops(r: seq<byte>) {
    HeadOf(r) == End || HeadOf(r).Bare? || r[Fill(r)] in {0xDA, 0xD9}
  }

  /** One segment of the other walk. */
  lemma VersionStep(r: seq<byte>)
    ensures Stops(r) ==> Version102(r) == r
    ensures !Stops(r) ==> HeadOf(r).Segment?
    ensures !Stops(r) && IsJfif(r) ==> Version102(r) == r[HeadOf(r).at + 7 := 1][HeadOf(r).at + 8 := 2]
    ensures !Stops(r) && !IsJfif(r) ==> Version102(r) == r[..HeadOf(r).end] + Version102(r[HeadOf(r).end..])
  {
    if HeadOf(r).Segment? { assert Fill(r) == HeadOf(r).at - 1; }
  }

  /** Bytes that agree up to the JFIF mark. */
  lemma JfifSame(r: seq<byte>, s: seq<byte>, n: nat)
    requires HeadOf(r).Segment? && |s| == |r| && n <= |r| && s[..n] == r[..n] && HeadOf(r).at + 2 <= n
    requires MarkerOf(r) == 0xE0 && HeadOf(r).end - HeadOf(r).at >= 14 ==> HeadOf(r).at + 7 <= n
    ensures HeadOf(s) == HeadOf(r) && MarkerOf(s) == MarkerOf(r) && (Skips(s) <==> Skips(r))
    ensures (IsJfif(s) <==> IsJfif(r)) && (Stops(s) <==> Stops(r))
  {
    var h := HeadOf(r);
    SliceSame(r, s, n, 0, h.at + 2);
    assert s[..h.at + 2] == s[0..h.at + 2] && r[..h.at + 2] == r[0..h.at + 2];
    HeadSame(r, s);
    assert Fill(s) == Fill(r) == h.at - 1 && s[h.at - 1] == MarkerOf(s) && r[h.at - 1] == MarkerOf(r);
    if MarkerOf(r) == 0xE0 && h.end - h.at >= 14 {
      SliceSame(r, s, n, h.at + 2, h.at + 7);
    }
    hide HeadOf, Fill, MarkerOf, Get16Be;
  }

  lemma SliceSame(r: seq<byte>, s: seq<byte>, n: nat, a: nat, b: nat)
    requires |s| == |r| && n <= |r| && s[..n] == r[..n] && a <= b <= n
    ensures s[a..b] == r[a..b]
  {
    assert s[..n][a..b] == s[a..b] && r[..n][a..b] == r[a..b];
  }

  /** Setting the version again changes nothing. */
  lemma {:induction false} VersionAgain(r: seq<byte>)
    ensures Version102(Version102(r)) == Version102(r)
    decreases |r|
  {
    VersionStep(r);
    if !Stops(r) {
      var h, v := HeadOf(r), Version102(r);
      if IsJfif(r) {
        assert v[..h.at + 7] == r[..h.at + 7];
        JfifSame(r, v, h.at + 7);
      } else {
        VersionAgain(r[h.end..]);
        assert v[..h.end] == r[..h.end] && v[h.end..] == Version102(r[h.end..]);
        JfifSame(r, v, h.end);
      }
      VersionStep(v);
      hide HeadOf, IsJfif, Stops, Version102;
    }
  }

  // ---- whole segments in front ----

  /** A complete segment with one fill byte that neither walker gives a special meaning. */
  predicate IsPlain(a: seq<byte>) {
    |a| >= 4 && a[0] == 0xFF && a[1] in {0xE0, 0xFE} && Get16Be(a, 2) >= 2 && 2 + Get16Be(a, 2) == |a|
  }

  lemma PlainHead(a: seq<byte>, x: seq<byte>)
    requires IsPlain(a)
    ensures HeadOf(a + x) == Segment(2, |a|) && MarkerOf(a + x) == a[1] && !Skips(a + x) && TableOf(a + x).NoTable?
    ensures !Stops(a + x)
    ensures Front(a + x) == a && (a + x)[|a|..] == x && (a + x)[..|a|] == a
  {
    var r := a + x;
    assert r[0] == a[0] && r[1] == a[1] && r[2] == a[2] && r[3] == a[3];
    FillIs(r, 1);
    assert r[|a|..] == x && r[..|a|] == a;
  }

  lemma ZeroIdsPlain(a: seq<byte>, x: seq<byte>)
    requires IsPlain(a)
    ensures ZeroIds(a + x) == Prefixed(a, ZeroIds(x))
  {
    PlainHead(a, x);
    ZeroIdsSegment(a + x);
    hide ZeroIds, HeadOf, TableOf, Front, MarkerOf, Skips;
  }

  lemma CommentPlain()
    ensures IsPlain(CommentSegment()) && |CommentSegment()| == 57 && CommentSegment()[1] == 0xFE
  {
    assert |COMMENT| == 53;
  }

  lemma VersionPlain(a: seq<byte>, x: seq<byte>)
    requires IsPlain(a)
    ensures if IsJfif(a + x) then Version102(a + x) == (a + x)[9 := 1][10 := 2] && |a| >= 16
            else Version102(a + x) == a + Version102(x)
  {
    PlainHead(a, x);
    VersionStep(a + x);
    hide HeadOf, Stops, Version102, TableOf, Front, MarkerOf, Skips;
  }

  lemma JfifPlain(a: seq<byte>, x: seq<byte>, y: seq<byte>)
    requires IsPlain(a)
    ensures IsJfif(a + x) <==> IsJfif(a + y)
    ensures IsJfif(a + x) ==> a[1] == 0xE0 && |a| >= 16
  {
    PlainHead(a, x);
    PlainHead(a, y);
    if |a| >= 16 {
      assert (a + x)[4..9] == a[4..9] == (a + y)[4..9];
    }
    hide HeadOf, Fill, Get16Be, MarkerOf, TableOf, Front, Stops;
  }

  /** What is in order stays in order when a comment goes in front of it, or behind its first segment. */
  lemma VersionWithComment(a: seq<byte>, x: seq<byte>)
    requires IsPlain(a) && Version102(a + x) == a + x
    ensures var c := CommentSegment(); Version102(a + (c + x)) == a + (c + x)
  {
    var c := CommentSegment();
    CommentPlain();
    VersionPlain(a, x);
    VersionPlain(a, c + x);
    VersionPlain(c, x);
    JfifPlain(a, x, c + x);
    JfifPlain(c, x, x);
    hide IsJfif, Version102, IsPlain, CommentSegment;
    if IsJfif(a + x) {
      var r, s := a + x, a + (c + x);
      assert r[9] == 1 && r[10] == 2 && s[9] == a[9] == r[9] && s[10] == a[10] == r[10];
    } else {
      assert a + Version102(x) == a + x;
      assert (a + Version102(x))[|a|..] == Version102(x) && (a + x)[|a|..] == x;
    }
  }

  // ---- the insertion point ----

  /** The comment goes to a segment boundary: behind the start marker, or behind a first complete APP0 segment. */
  lemma InsertsAtBoundary(j: seq<byte>)
    requires IsJpeg(j)
    ensures var at := InsertAt(j);
            at == 2 || (IsPlain(j[2..at]) && j[3] == 0xE0)
  {
    var at := InsertAt(j);
    if at != 2 {
      var a := j[2..at];
      assert a[0] == j[2] && a[1] == j[3] && a[2] == j[4] && a[3] == j[5];
    }
  }

  /** One comment segment was inserted, behind the start marker or behind a complete segment that follows it. */
  ghost predicate Commented(j: seq<byte>, k: seq<byte>) {
    exists at: nat :: 2 <= at <= |j| && k == j[..at] + CommentSegment() + j[at..] && (at == 2 || IsPlain(j[2..at]))
  }

  /** After the insertion there is exactly one comment more, if there was none, and nothing else is different. */
  lemma InsertedOnce(j: seq<byte>)
    requires IsJpeg(j)
    ensures var k := InsertComment(j);
            IsJpeg(k) && Contains(k, COMMENT) && InsertComment(k) == k && k[..2] == j[..2]
            && (k == j || Commented(j, k))
  {
    var k, at := InsertComment(j), InsertAt(j);
    InsertsAtBoundary(j);
    if k != j {
      assert k[..2] == j[..2];
      assert k[at + 4..at + 4 + |COMMENT|] == COMMENT;
      assert OccursAt(k, COMMENT, at + 4);
    }
    hide InsertAt, IsPlain;
  }

  lemma InsertedTail(j: seq<byte>)
    requires IsJpeg(j)
    ensures var k, at, c := InsertComment(j), InsertAt(j), CommentSegment();
            |k| >= 2 && at <= |j| && (at == 2 || IsPlain(j[2..at])) && j[2..] == j[2..at] + j[at..]
            && (k != j ==> if at == 2 then k[2..] == c + j[2..] else k[2..] == j[2..at] + (c + j[at..]))
  {
    hide CommentSegment, InsertAt, IsPlain, Contains;
    InsertsAtBoundary(j);
    SplitTail(j, InsertAt(j), CommentSegment());
  }

  lemma SplitTail(j: seq<byte>, at: nat, c: seq<byte>)
    requires 2 <= at <= |j|
    ensures j[2..] == j[2..at] + j[at..]
    ensures (j[..at] + c + j[at..])[2..] == j[2..at] + (c + j[at..])
    ensures at == 2 ==> (j[..at] + c + j[at..])[2..] == c + j[2..]
  {
    assert j[..at][2..] == j[2..at];
  }

  // ---- files the patch leaves alone ----

  function IdsOf(r: seq<byte>, zeroBased: bool): Option<seq<byte>> { if zeroBased then ZeroIds(r) else Some(r) }

  /** Both walkers, one after the other, leave the bytes as they are. */
  predicate Settled(r: seq<byte>, zeroBased: bool) {
    var ids := IdsOf(r, zeroBased);
    ids.Some? && Version102(ids.value) == r
  }

  /** A file that has the comment is left alone exactly if both walkers leave it alone. */
  lemma PatchSettled(p: seq<byte>, zeroBased: bool)
    requires IsJpeg(p) && InsertComment(p) == p
    ensures |p| >= 2 && (Patch(p, zeroBased) == Some(p) <==> Settled(p[2..], zeroBased))
  {
    var ids := IdsOf(p[2..], zeroBased);
    if ids.Some? {
      var k := p[..2] + Version102(ids.value);
      assert k[2..] == Version102(ids.value) && p == p[..2] + p[2..];
      InsertedLength(k);
    }
    hide ZeroIds, Version102, InsertComment;
  }

  lemma InsertedLength(k: seq<byte>)
    requires IsJpeg(k)
    ensures InsertComment(k) == k || |InsertComment(k)| > |k|
  {
  }

  /** A segment in front that neither walker gives a special meaning, and whose version is as wanted. */
  lemma PlainSettled(a: seq<byte>, x: seq<byte>, zeroBased: bool)
    requires IsPlain(a) && Version102(a + x) == a + x
    ensures Settled(a + x, zeroBased)
       <==> if IsJfif(a + x) then IdsOf(x, zeroBased) == Some(x) else Settled(x, zeroBased)
    ensures IdsOf(a + x, zeroBased) == Some(a + x) <==> IdsOf(x, zeroBased) == Some(x)
  {
    ZeroIdsPlain(a, x);
    var ids := IdsOf(x, zeroBased);
    if ids.Some? {
      var y := ids.value;
      assert IdsOf(a + x, zeroBased) == Some(a + y);
      VersionPlain(a, x);
      VersionPlain(a, y);
      JfifPlain(a, x, y);
      hide ZeroIds, Version102, IsJfif, IsPlain;
      assert (a + y)[|a|..] == y && (a + x)[|a|..] == x && (a + Version102(y))[|a|..] == Version102(y);
      if IsJfif(a + x) {
        assert (a + x)[9] == 1 && (a + x)[10] == 2;
        assert (a + y)[9] == (a + x)[9] && (a + y)[10] == (a + x)[10];
        assert Version102(a + y) == a + y;
      }
    }
  }

  /** The comment makes no difference to the walkers. */
  lemma CommentSettled(k: seq<byte>, zeroBased: bool)
    requires IsJpeg(k) && Version102(k[2..]) == k[2..]
    ensures var p := InsertComment(k); |p| >= 2 && (Settled(p[2..], zeroBased) <==> Settled(k[2..], zeroBased))
  {
    hide *;
    InsertedTail(k);
    var at := InsertAt(k);
    if InsertComment(k) != k {
      if at == 2 {
        CommentIgnored(k[2..], zeroBased);
      } else {
        FirstSettled(k[2..at], k[at..], zeroBased);
      }
    }
  }

  lemma FirstSettled(a: seq<byte>, x: seq<byte>, zeroBased: bool)
    requires IsPlain(a) && Version102(a + x) == a + x
    ensures var c := CommentSegment(); Settled(a + (c + x), zeroBased) <==> Settled(a + x, zeroBased)
  {
    hide Settled, IdsOf, Version102, IsJfif, CommentSegment, IsPlain;
    var c := CommentSegment();
    VersionWithComment(a, x);
    PlainSettled(a, x, zeroBased);
    PlainSettled(a, c + x, zeroBased);
    JfifPlain(a, x, c + x);
    CommentIgnored(x, zeroBased);
  }

  lemma CommentIgnored(x: seq<byte>, zeroBased: bool)
    ensures var c := CommentSegment();
            (Settled(c + x, zeroBased) <==> Settled(x, zeroBased))
            && (IdsOf(c + x, zeroBased) == Some(c + x) <==> IdsOf(x, zeroBased) == Some(x))
  {
    var c := CommentSegment();
    CommentPlain();
    ZeroIdsPlain(c, x);
    var ids := IdsOf(x, zeroBased);
    if ids.Some? {
      var y := ids.value;
      VersionPlain(c, y);
      JfifPlain(c, y, y);
      hide ZeroIds, Version102, IsJfif, CommentSegment, IsPlain;
      assert IdsOf(c + x, zeroBased) == Some(c + y);
      assert (c + y)[|c|..] == y && (c + x)[|c|..] == x && (c + Version102(y))[|c|..] == Version102(y);
    }
  }

  // ---- idempotence ----

  /** Neither walker meets a second start-of-image marker before the JFIF segment. */
  predicate Straight(r: seq<byte>)
    decreases |r|
  {
    var h := HeadOf(r);
    Stops(r) || IsJfif(r) || (r[Fill(r)] != 0xD8 && h.Segment? && Straight(r[h.end..]))
  }

  /** On a straight walk the other walker steps over nothing. */
  lemma StraightNoSkip(r: seq<byte>)
    requires Straight(r) && !Stops(r)
    ensures HeadOf(r).Segment? && !Skips(r) && MarkerOf(r) != 0xDA && (!IsJfif(r) ==> Straight(r[HeadOf(r).end..]))
  {
    VersionStep(r);
    assert Fill(r) == HeadOf(r).at - 1;
    hide Get16Be;
  }

  lemma {:induction false} StraightZero(r: seq<byte>)
    requires Straight(r) && ZeroIds(r).Some?
    ensures Straight(ZeroIds(r).value)
    decreases |r|
  {
    if Stops(r) {
      StopsZero(r);
    } else {
      StraightNoSkip(r);
      var h, z := HeadOf(r), ZeroIds(r).value;
      assert !TableOf(r).BadTable?;
      ZeroIdsSegment(r);
      var tail := ZeroIds(r[h.end..]).value;
      assert z == Front(r) + tail && z[h.end..] == tail;
      if !IsJfif(r) { StraightZero(r[h.end..]); }
      StraightFront(r, tail);
    }
  }

  lemma StraightFront(r: seq<byte>, tail: seq<byte>)
    requires Straight(r) && !Stops(r) && HeadOf(r).Segment? && !TableOf(r).BadTable? && |tail| == |r| - HeadOf(r).end
    requires !IsJfif(r) ==> Straight(tail)
    ensures Straight(Front(r) + tail)
  {
    var h, s := HeadOf(r), Front(r) + tail;
    StraightNoSkip(r);
    FrontSame(r, tail);
    assert s[h.end..] == tail;
    if IsJfif(r) {
      assert TableOf(r).NoTable? && s[..h.end] == r[..h.end];
      JfifSame(r, s, h.end);
    } else {
      assert s[Fill(s)] == MarkerOf(s) && r[Fill(r)] == MarkerOf(r);
      hide Front, TableOf, Get16Be;
    }
  }

  lemma StopsZero(r: seq<byte>)
    requires Stops(r) && ZeroIds(r).Some?
    ensures Stops(ZeroIds(r).value)
  {
    if HeadOf(r) != End && Skips(r) {
      BareStep(r);
      SkippedStops(r, ZeroIds(r).value);
    } else if HeadOf(r).Segment? {
      assert !TableOf(r).BadTable?;
      ZeroIdsSegment(r);
      assert MarkerOf(r) == 0xDA;
      var tail := r[HeadOf(r).end..];
      FrontSame(r, tail);
      var z := Front(r) + tail;
      assert z[Fill(z)] == MarkerOf(z);
      hide ZeroIds, Front, TableOf, Skips;
    }
  }

  /** The first three bytes are never identifiers. */
  lemma {:induction false} FirstKept(r: seq<byte>, i: nat)
    requires ZeroIds(r).Some? && i < |r| && i < 3
    ensures ZeroIds(r).value[i] == r[i]
    decreases |r|
  {
    if HeadOf(r) != End && Skips(r) {
      BareStep(r);
      var k := Fill(r) + 1;
      if i >= k { FirstKept(r[k..], i - k); }
    } else if HeadOf(r).Segment? {
      assert !TableOf(r).BadTable?;
      ZeroIdsSegment(r);
      FrontKeeps(r, i);
      hide ZeroIds, TableOf, Front, MarkerOf;
    }
  }

  lemma SkippedStops(r: seq<byte>, z: seq<byte>)
    requires Stops(r) && Skips(r) && |z| == |r| && Fill(r) < |r| && z[..Fill(r) + 1] == r[..Fill(r) + 1]
    requires ZeroIds(r) == Some(z)
    ensures Stops(z)
  {
    BareSame(r, z);
    BareStep(r);
    var k := Fill(r) + 1;
    assert z[k - 1] == z[..k][k - 1] == r[..k][k - 1] == r[k - 1];
    if r[k - 1] != 0xD9 && k + 2 <= |r| {
      FirstKept(r[k..], 0);
      FirstKept(r[k..], 1);
      assert z[k] == r[k] && z[k + 1] == r[k + 1];
    }
    hide ZeroIds, Skips;
  }

  /** Whether the walker for identifiers reads a byte: as fill, marker, length or number of components. */
  predicate Reads(r: seq<byte>, i: nat)
    decreases |r|
  {
    var h, k := HeadOf(r), Fill(r);
    if |r| < 4 then false
    else if i <= k then true
    else if k < |r| && Skips(r) then Reads(r[k + 1..], i - k - 1)
    else if !h.Segment? then i < k + 3
    else if i < h.at + 2 then true
    else if i < h.end then
      (IsSof(MarkerOf(r)) || MarkerOf(r) == 0xDA) && i == (if IsSof(MarkerOf(r)) then h.at + 7 else h.at + 2)
    else MarkerOf(r) != 0xDA && Reads(r[h.end..], i - h.end)
  }

  /** The bytes that setting the version changes are not read by the walker for identifiers. */
  predicate Clear(z: seq<byte>) {
    forall i: nat :: i < |z| && Version102(z)[i] != z[i] ==> !Reads(z, i)
  }

  // ---- when the walkers do not get in each other's way ----

  /** Bytes that agree wherever the walker for identifiers reads. */
  ghost predicate ReadsAlike(z: seq<byte>, v: seq<byte>) {
    |v| == |z| && forall i: nat :: i < |z| && Reads(z, i) ==> v[i] == z[i]
  }

  /** Every byte of a walk's result is either the byte that was there or the one that the other walk wrote. */
  ghost predicate EachFrom(w: seq<byte>, v: seq<byte>, y: seq<byte>) {
    |w| == |v| == |y| && forall i: nat :: i < |w| ==> w[i] == v[i] || w[i] == y[i]
  }

  lemma FillAlike(z: seq<byte>, v: seq<byte>)
    requires ReadsAlike(z, v) && |z| >= 4
    ensures Fill(v) == Fill(z) && (Fill(z) < |z| ==> v[Fill(z)] == z[Fill(z)])
  {
    var k := Fill(z);
    FillBytes(z);
    forall i | 0 <= i < k ensures v[i] == 0xFF { assert Reads(z, i); }
    if k < |z| {
      assert Reads(z, k);
      FillIs(v, k);
    } else {
      AllFill(v);
    }
  }

  lemma HeadAlike(z: seq<byte>, v: seq<byte>)
    requires ReadsAlike(z, v)
    ensures HeadOf(v) == End <==> HeadOf(z) == End
    ensures HeadOf(z) != End ==> Fill(v) == Fill(z) < |z| && v[Fill(z)] == z[Fill(z)] && (Skips(v) <==> Skips(z))
    ensures HeadOf(z) != End && !Skips(z) ==> HeadOf(v) == HeadOf(z)
    ensures HeadOf(z).Segment? && !Skips(z) ==> MarkerOf(v) == MarkerOf(z)
  {
    if |z| >= 4 {
      FillAlike(z, v);
      var k := Fill(z);
      if k + 3 <= |z| && z[k] != 0xD8 && z[k] != 0xD9 {
        LengthRead(z);
        assert Get16Be(v, k + 1) == Get16Be(z, k + 1);
      }
      hide Reads, Fill, Get16Be;
    }
  }

  lemma LengthRead(z: seq<byte>)
    requires |z| >= 4 && Fill(z) + 3 <= |z| && z[Fill(z)] != 0xD8 && z[Fill(z)] != 0xD9
    ensures Reads(z, Fill(z) + 1) && Reads(z, Fill(z) + 2)
  {
    hide Get16Be, Fill;
  }

  lemma {:induction false} AllFill(v: seq<byte>)
    requires forall i :: 0 <= i < |v| ==> v[i] == 0xFF
    ensures Fill(v) == |v|
  {
    if v != [] { AllFill(v[1..]); }
  }

  lemma TableAlike(z: seq<byte>, v: seq<byte>)
    requires ReadsAlike(z, v) && HeadOf(z).Segment? && HeadOf(v) == HeadOf(z) && MarkerOf(v) == MarkerOf(z) && !Skips(z)
    ensures TableOf(v) == TableOf(z)
  {
    var h := HeadOf(z);
    assert Fill(z) == h.at - 1;
    if IsSof(MarkerOf(z)) && h.end - h.at >= 8 { assert Reads(z, h.at + 7); }
    if MarkerOf(z) == 0xDA && h.end - h.at >= 4 { assert Reads(z, h.at + 2); }
    hide Reads, HeadOf, Fill, Skips, Get16Be;
  }

  lemma FrontAlike(z: seq<byte>, v: seq<byte>)
    requires |v| == |z| && HeadOf(z).Segment? && HeadOf(v) == HeadOf(z) && TableOf(v) == TableOf(z)
    requires !TableOf(z).BadTable?
    ensures EachFrom(Front(v), v[..HeadOf(z).end], Front(z))
  {
    var h, t := HeadOf(z), TableOf(z);
    hide HeadOf, TableOf;
    if t.Table? {
      forall i: nat | i < h.end ensures Front(v)[i] == v[i] || Front(v)[i] == Front(z)[i] {
        RenumberOnly(z[..h.end], t.start, t.step, t.count, i);
        RenumberOnly(v[..h.end], t.start, t.step, t.count, i);
        if InTable(t.start, t.step, t.count, i) { AtOnce(t.start, t.step, Front(v)[i], Front(z)[i]); }
      }
    }
  }

  lemma EachFromJoin(w: seq<byte>, v: seq<byte>, y: seq<byte>, w': seq<byte>, v': seq<byte>, y': seq<byte>)
    requires EachFrom(w, v, y) && EachFrom(w', v', y')
    ensures EachFrom(w + w', v + v', y + y')
  {
    forall i: nat | i < |w + w'| ensures (w + w')[i] == (v + v')[i] || (w + w')[i] == (y + y')[i] {
      if i >= |w| { assert (w + w')[i] == w'[i - |w|] && (v + v')[i] == v'[i - |w|] && (y + y')[i] == y'[i - |w|]; }
    }
  }

  lemma ReadsBehind(z: seq<byte>, v: seq<byte>, n: nat)
    requires ReadsAlike(z, v) && n <= |z| && forall i: nat :: i < |z| - n && Reads(z[n..], i) ==> Reads(z, n + i)
    ensures ReadsAlike(z[n..], v[n..])
  {
    hide Reads;
    forall i: nat | i < |z| - n && Reads(z[n..], i) ensures v[n..][i] == z[n..][i] {
      assert Reads(z, n + i);
    }
  }

  /** A walk over bytes that read alike takes the same way. */
  lemma {:induction false} AlikeWalks(z: seq<byte>, v: seq<byte>)
    requires ReadsAlike(z, v) && ZeroIds(z).Some?
    ensures ZeroIds(v).Some? && EachFrom(ZeroIds(v).value, v, ZeroIds(z).value)
    decreases |z|
  {
    HeadAlike(z, v);
    if HeadOf(z) != End && Skips(z) {
      AlikeBare(z, v);
    } else if HeadOf(z).Segment? {
      AlikeSegment(z, v);
    }
  }

  lemma AlikeBare(z: seq<byte>, v: seq<byte>)
    requires ReadsAlike(z, v) && ZeroIds(z).Some? && Skips(z) && Skips(v) && Fill(v) == Fill(z)
    ensures ZeroIds(v).Some? && EachFrom(ZeroIds(v).value, v, ZeroIds(z).value)
    decreases |z|, 0
  {
    var k := Fill(z) + 1;
    BareStep(z);
    BareStep(v);
    BareReads(z);
    ReadsBehind(z, v, k);
    hide Reads, Skips, HeadOf, Fill;
    AlikeWalks(z[k..], v[k..]);
    EachFromBehind(v, k, v[..k], z[..k], ZeroIds(v[k..]).value, ZeroIds(z[k..]).value);
  }

  lemma BareReads(z: seq<byte>)
    requires Skips(z) && Fill(z) < |z|
    ensures var k := Fill(z) + 1; forall i: nat :: i < |z| - k && Reads(z[k..], i) ==> Reads(z, k + i)
  {
    hide *;
    var k := Fill(z) + 1;
    forall i: nat | i < |z| - k && Reads(z[k..], i) ensures Reads(z, k + i) {
      BareRead(z, k + i);
    }
  }

  lemma BareRead(z: seq<byte>, i: nat)
    requires Skips(z) && Fill(z) < i < |z| && Reads(z[Fill(z) + 1..], i - Fill(z) - 1)
    ensures Reads(z, i)
  {
    hide Get16Be, Fill;
  }

  lemma AlikeSegment(z: seq<byte>, v: seq<byte>)
    requires ReadsAlike(z, v) && ZeroIds(z).Some? && HeadOf(z).Segment? && HeadOf(v) == HeadOf(z) && !Skips(z)
    requires !Skips(v)
    requires MarkerOf(v) == MarkerOf(z)
    ensures ZeroIds(v).Some? && EachFrom(ZeroIds(v).value, v, ZeroIds(z).value)
    decreases |z|, 0
  {
    hide Reads, Front, HeadOf, MarkerOf, Skips, EachFrom;
    var n := HeadOf(z).end;
    TailWalk(z);
    if MarkerOf(z) != 0xDA {
      SegmentReads(z);
      ReadsBehind(z, v, n);
      AlikeWalks(z[n..], v[n..]);
    }
    hide ReadsAlike, ZeroIds, TableOf;
    AlikeFront(z, v);
  }

  lemma TailWalk(z: seq<byte>)
    requires ZeroIds(z).Some? && HeadOf(z).Segment? && !Skips(z)
    ensures !TableOf(z).BadTable? && (MarkerOf(z) != 0xDA ==> ZeroIds(z[HeadOf(z).end..]).Some?)
  {
    hide TableOf, Front, Get16Be, Fill, Renumber;
  }

  lemma AlikeFront(z: seq<byte>, v: seq<byte>)
    requires ReadsAlike(z, v) && HeadOf(z).Segment? && HeadOf(v) == HeadOf(z) && !Skips(z) && !Skips(v)
    requires !TableOf(z).BadTable?
    requires MarkerOf(v) == MarkerOf(z)
    requires var n := HeadOf(z).end;
             MarkerOf(z) != 0xDA ==> ZeroIds(z[n..]).Some? && ZeroIds(v[n..]).Some?
                                     && EachFrom(ZeroIds(v[n..]).value, v[n..], ZeroIds(z[n..]).value)
    ensures ZeroIds(z).Some? && ZeroIds(v).Some? && EachFrom(ZeroIds(v).value, v, ZeroIds(z).value)
  {
    hide ZeroIds, HeadOf, TableOf, Front, MarkerOf, Skips, Reads, ReadsAlike, EachFrom;
    var n := HeadOf(z).end;
    TableAlike(z, v);
    ZeroIdsSegment(z);
    ZeroIdsSegment(v);
    SameLength(z, v);
    FrontAlike(z, v);
    if MarkerOf(z) == 0xDA {
      EachFromBehind(v, n, Front(v), Front(z), v[n..], z[n..]);
    } else {
      EachFromBehind(v, n, Front(v), Front(z), ZeroIds(v[n..]).value, ZeroIds(z[n..]).value);
    }
  }

  lemma SameLength(z: seq<byte>, v: seq<byte>)
    requires ReadsAlike(z, v)
    ensures |v| == |z|
  {
  }

  lemma EachFromBehind(v: seq<byte>, n: nat, w: seq<byte>, y: seq<byte>, w': seq<byte>, y': seq<byte>)
    requires n <= |v| && EachFrom(w, v[..n], y) && |y'| == |v| - n && (w' == v[n..] || EachFrom(w', v[n..], y'))
    ensures EachFrom(w + w', v, y + y')
  {
    EachFromJoin(w, v[..n], y, w', v[n..], y');
    assert v == v[..n] + v[n..];
  }

  lemma SegmentReads(z: seq<byte>)
    requires HeadOf(z).Segment? && !Skips(z) && MarkerOf(z) != 0xDA
    ensures var n := HeadOf(z).end; forall i: nat :: i < |z| - n && Reads(z[n..], i) ==> Reads(z, n + i)
  {
    assert Fill(z) == HeadOf(z).at - 1;
  }

  // ---- the version of bytes that differ in the version only ----

  /** Bytes that agree except perhaps in the version. */
  ghost predicate ButVersion(z: seq<byte>, w: seq<byte>) {
    |w| == |z| && forall i: nat :: i < |z| && w[i] != z[i] ==> VersionAt(z, i)
  }

  lemma {:induction false} SameVersion(z: seq<byte>, w: seq<byte>)
    requires ButVersion(z, w)
    ensures Version102(w) == Version102(z)
    decreases |z|
  {
    if Stops(z) {
      assert forall i: nat :: i < |z| ==> w[i] == z[i];
      assert w == z;
    } else {
      VersionStep(z);
      FrontKept(z, w);
      VersionStep(w);
      var n := HeadOf(z).end;
      if !IsJfif(z) { SameVersion(z[n..], w[n..]); }
      hide HeadOf, Stops, Version102, VersionAt, Get16Be;
      assert w == w[..n] + w[n..];
    }
  }

  lemma FrontKept(z: seq<byte>, w: seq<byte>)
    requires ButVersion(z, w) && !Stops(z) && HeadOf(z).Segment?
    ensures HeadOf(w) == HeadOf(z) && (IsJfif(w) <==> IsJfif(z)) && !Stops(w)
    ensures var h := HeadOf(z);
            if IsJfif(z) then w[h.at + 7 := 1][h.at + 8 := 2] == z[h.at + 7 := 1][h.at + 8 := 2]
            else w[..h.end] == z[..h.end] && ButVersion(z[h.end..], w[h.end..])
  {
    var h := HeadOf(z);
    var n := if IsJfif(z) then h.at + 7 else h.end;
    forall i: nat | i < n ensures w[i] == z[i] {
    }
    assert w[..n] == z[..n];
    JfifSame(z, w, n);
    hide HeadOf, Stops, MarkerOf, Get16Be, IsJfif;
    if !IsJfif(z) {
      forall i: nat | i < |z| - h.end && w[h.end..][i] != z[h.end..][i] ensures VersionAt(z[h.end..], i) {
        assert w[h.end + i] != z[h.end + i];
      }
    }
  }

  lemma {:induction false} VersionThere(z: seq<byte>, w: seq<byte>, i: nat)
    requires ButVersion(z, w) && i < |z| && VersionAt(z, i)
    ensures VersionAt(w, i)
    decreases |z|
  {
    VersionStep(z);
    FrontKept(z, w);
    var n := HeadOf(z).end;
    hide HeadOf, Stops, IsJfif, Get16Be, Version102;
    if !IsJfif(z) { VersionThere(z[n..], w[n..], i - n); }
  }

  /** Renumbering the identifiers would change version bytes only. */
  ghost predicate VersionsOnly(v: seq<byte>) { ZeroIds(v).Some? && ButVersion(v, ZeroIds(v).value) }

  /** For bytes whose version is as wanted the second walker undoes what the first one does exactly if that
      is to the version only. */
  lemma SettledExactly(v: seq<byte>)
    requires Version102(v) == v
    ensures Settled(v, true) <==> VersionsOnly(v)
  {
    hide ZeroIds, Version102, VersionAt;
    if ZeroIds(v).Some? {
      var w := ZeroIds(v).value;
      if VersionsOnly(v) { SameVersion(v, w); }
      if Settled(v, true) {
        forall i: nat | i < |v| && w[i] != v[i] ensures VersionAt(w, i) {
          OnlyVersionChanges(w, i);
        }
        forall i: nat | i < |v| && w[i] != v[i] ensures VersionAt(v, i) {
          VersionThere(w, v, i);
        }
      }
    }
  }

  /** The patch leaves its own result alone always when the identifiers are left alone, and else if and only if
      renumbering the bytes it produced would change their version only; the comment makes no difference. */
  lemma PatchExact(j: seq<byte>, zeroBased: bool)
    requires Patch(j, zeroBased).Some?
    ensures IsJpeg(j) && (zeroBased ==> ZeroIds(j[2..]).Some?)
    ensures Patch(Patch(j, zeroBased).value, zeroBased) == Patch(j, zeroBased)
       <==> (zeroBased ==> VersionsOnly(Version102(Ids(j, zeroBased))))
  {
    hide *;
    PatchIs(j, zeroBased);
    VersionAgain(Ids(j, zeroBased));
    var k := j[..2] + Version102(Ids(j, zeroBased));
    assert k[2..] == Version102(Ids(j, zeroBased));
    InsertedOnce(k);
    CommentSettled(k, zeroBased);
    PatchSettled(InsertComment(k), zeroBased);
    if zeroBased { SettledExactly(Version102(Ids(j, true))); } else { VersionSettles(Ids(j, false)); }
  }

  /** Then the two walkers leave the patched bytes alone. */
  lemma ClearSettles(z: seq<byte>)
    requires ZeroIds(z) == Some(z) && Clear(z)
    ensures VersionsOnly(Version102(z))
  {
    var v := Version102(z);
    hide Reads, ZeroIds, Version102, VersionAt;
    assert ReadsAlike(z, v);
    AlikeWalks(z, v);
    var w := ZeroIds(v).value;
    forall i: nat | i < |z| && v[i] != z[i] ensures VersionAt(z, i) {
      OnlyVersionChanges(z, i);
    }
    forall i: nat | i < |z| && w[i] != v[i] ensures VersionAt(v, i) {
      VersionThere(z, v, i);
    }
  }

  /** So the patch succeeds again on its own result and changes nothing more: always when the identifiers are
      left alone, and else when the version bytes it changes are not read by the walker for identifiers. */
  lemma PatchAgain(j: seq<byte>, zeroBased: bool)
    requires Patch(j, zeroBased).Some?
    requires IsJpeg(j) && (zeroBased ==> ZeroIds(j[2..]).Some?) && (zeroBased ==> Clear(Ids(j, zeroBased)))
    ensures Patch(Patch(j, zeroBased).value, zeroBased) == Patch(j, zeroBased)
  {
    hide *;
    PatchIs(j, zeroBased);
    PatchExact(j, zeroBased);
    if zeroBased {
      ZeroIdsAgain(j[2..]);
      IdsAre(j);
      ClearSettles(Ids(j, true));
    }
  }

  lemma IdsAre(j: seq<byte>)
    requires |j| >= 2 && ZeroIds(j[2..]).Some?
    ensures Ids(j, true) == ZeroIds(j[2..]).value
  {
  }

  lemma VersionSettles(z: seq<byte>)
    ensures Settled(Version102(z), false)
  {
    VersionAgain(z);
    hide Version102;
  }

  /** A file without a second start marker in front of the JFIF segment is such a file. */
  lemma StraightAgain(j: seq<byte>)
    requires Patch(j, true).Some? && IsJpeg(j) && ZeroIds(j[2..]).Some? && Straight(j[2..])
    ensures Patch(Patch(j, true).value, true) == Patch(j, true)
  {
    hide *;
    PatchIs(j, true);
    IdsAre(j);
    StraightZero(j[2..]);
    StraightClear(Ids(j, true));
    PatchAgain(j, true);
  }

  lemma StraightClear(z: seq<byte>)
    requires Straight(z)
    ensures Clear(z)
  {
    hide Straight, Version102, Reads, VersionAt;
    forall i: nat | i < |z| && Version102(z)[i] != z[i] ensures !Reads(z, i) {
      OnlyVersionChanges(z, i);
      StraightUnread(z, i);
    }
  }

  /** What is read of a segment and behind it. */
  lemma SegmentRead(z: seq<byte>, i: nat)
    requires HeadOf(z).Segment? && !Skips(z) && i >= HeadOf(z).at + 3 && !IsSof(MarkerOf(z)) && MarkerOf(z) != 0xDA
    ensures Reads(z, i) <==> i >= HeadOf(z).end && Reads(z[HeadOf(z).end..], i - HeadOf(z).end)
  {
    assert Fill(z) == HeadOf(z).at - 1;
    hide Fill, Get16Be;
  }

  lemma {:induction false} StraightUnread(z: seq<byte>, i: nat)
    requires Straight(z) && i < |z| && VersionAt(z, i)
    ensures !Reads(z, i)
    decreases |z|
  {
    StraightNoSkip(z);
    var h := HeadOf(z);
    hide Reads;
    if IsJfif(z) {
      SegmentRead(z, i);
    } else {
      StraightUnread(z[h.end..], i - h.end);
      if Reads(z, i) { BehindRead(z, i); }
    }
  }

  lemma BehindRead(z: seq<byte>, i: nat)
    requires HeadOf(z).Segment? && !Skips(z) && i >= HeadOf(z).end && Reads(z, i)
    ensures Reads(z[HeadOf(z).end..], i - HeadOf(z).end)
  {
    assert Fill(z) == HeadOf(z).at - 1;
    hide Fill, Get16Be;
  }

  /** The bytes behind the start marker once the identifiers are as wanted. */
  function Ids(j: seq<byte>, zeroBased: bool): seq<byte>
    requires |j| >= 2 && (zeroBased ==> ZeroIds(j[2..]).Some?)
  {
    if zeroBased then ZeroIds(j[2..]).value else j[2..]
  }

  lemma PatchIs(j: seq<byte>, zeroBased: bool)
    requires Patch(j, zeroBased).Some?
    ensures IsJpeg(j) && |j| >= 2 && (zeroBased ==> ZeroIds(j[2..]) == Some(Ids(j, zeroBased)))
    ensures var k := j[..2] + Version102(Ids(j, zeroBased)); IsJpeg(k) && Patch(j, zeroBased) == Some(InsertComment(k))
  {
    hide ZeroIds, Version102, InsertComment;
  }

  // ---- what changes ----

  /** A byte that is one of the first three component identifiers of a frame header, or of the first scan header. */
  predicate IdAt(r: seq<byte>, i: nat)
    decreases |r|
  {
    var h := HeadOf(r);
    if h == End then false
    else if Skips(r) then i > Fill(r) && IdAt(r[Fill(r) + 1..], i - Fill(r) - 1)
    else if h.Bare? || TableOf(r).BadTable? then false
    else if i < h.end then TableOf(r).Table? && IsEntry(TableOf(r), i)
    else MarkerOf(r) != 0xDA && IdAt(r[h.end..], i - h.end)
  }

  predicate IsEntry(t: Table, i: nat)
    requires t.Table?
  {
    || (t.count > 0 && i == t.start)
    || (t.count > 1 && i == t.start + t.step)
    || (t.count > 2 && i == t.start + 2 * t.step)
  }

  lemma EntryIs(t: Table, i: nat)
    requires t.Table? && t.count <= 3 && InTable(t.start, t.step, t.count, i)
    ensures IsEntry(t, i)
  {
    var c: nat :| c < t.count && i == At(t.start, t.step, c);
    assert c == 0 || c == 1 || c == 2;
  }

  /** Renumbering changes component identifiers only. */
  lemma {:induction false} OnlyIdsChange(r: seq<byte>, i: nat)
    requires ZeroIds(r).Some? && i < |r| && ZeroIds(r).value[i] != r[i]
    ensures IdAt(r, i) && ZeroIds(r).value[i] < 3
    decreases |r|
  {
    hide ZeroSegment, TableOf, Front, Fill, Get16Be;
    var h := HeadOf(r);
    if h != End && Skips(r) {
      BareStep(r);
      var k := Fill(r) + 1;
      if i >= k { OnlyIdsChange(r[k..], i - k); }
    } else if h.Segment? {
      TailWalk(r);
      ZeroIdsSegment(r);
      hide ZeroIds, HeadOf, Skips, MarkerOf;
      if i < h.end {
        FrontChanges(r, i);
      } else if MarkerOf(r) != 0xDA {
        OnlyIdsChange(r[h.end..], i - h.end);
      }
    }
  }

  lemma FrontChanges(r: seq<byte>, i: nat)
    requires HeadOf(r).Segment? && !TableOf(r).BadTable? && i < HeadOf(r).end && Front(r)[i] != r[i]
    ensures TableOf(r).Table? && IsEntry(TableOf(r), i) && Front(r)[i] < 3
  {
    var h, t := HeadOf(r), TableOf(r);
    hide HeadOf, TableOf;
    if t.Table? {
      RenumberOnly(r[..h.end], t.start, t.step, t.count, i);
      EntryIs(t, i);
    }
  }

  /** A byte of the version of the first JFIF segment. */
  predicate VersionAt(r: seq<byte>, i: nat)
    decreases |r|
  {
    var h := HeadOf(r);
    if Stops(r) || !h.Segment? then false
    else if IsJfif(r) then i == h.at + 7 || i == h.at + 8
    else i >= h.end && VersionAt(r[h.end..], i - h.end)
  }

  lemma {:induction false} OnlyVersionChanges(r: seq<byte>, i: nat)
    requires i < |r| && Version102(r)[i] != r[i]
    ensures VersionAt(r, i)
    decreases |r|
  {
    VersionStep(r);
    var h := HeadOf(r);
    if !Stops(r) && !IsJfif(r) && i >= h.end { OnlyVersionChanges(r[h.end..], i - h.end); }
    hide Stops, IsJfif;
  }

  /** What a successful patch does: bytes change in place only where there are component identifiers or the
      JFIF version, and then a comment segment is inserted at a segment boundary, if there is no such comment yet. */
  lemma PatchChanges(j: seq<byte>, zeroBased: bool) returns (k: seq<byte>)
    requires Patch(j, zeroBased).Some?
    ensures IsJpeg(j) && IsJpeg(k) && |k| == |j| && (zeroBased ==> ZeroIds(j[2..]).Some?)
    ensures forall i :: 0 <= i < |j| && k[i] != j[i] ==>
              i >= 2 && ((zeroBased && IdAt(j[2..], i - 2)) || VersionAt(Ids(j, zeroBased), i - 2))
    ensures var p := Patch(j, zeroBased).value;
            p == k || (!Contains(k, COMMENT) && Commented(k, p))
  {
    hide *;
    PatchIs(j, zeroBased);
    var z := Ids(j, zeroBased);
    IdsLength(j, zeroBased);
    k := j[..2] + Version102(z);
    forall i | 0 <= i < |j| && k[i] != j[i]
      ensures i >= 2 && ((zeroBased && IdAt(j[2..], i - 2)) || VersionAt(Ids(j, zeroBased), i - 2))
    {
      assert i >= 2 && j[i] == j[2..][i - 2];
      if z[i - 2] != j[2..][i - 2] { IdsChange(j, zeroBased, i - 2); } else { OnlyVersionChanges(z, i - 2); }
    }
    InsertedOnce(k);
    KeptIfThere(k);
  }

  lemma KeptIfThere(k: seq<byte>)
    requires IsJpeg(k)
    ensures Contains(k, COMMENT) ==> InsertComment(k) == k
  {
  }

  lemma IdsLength(j: seq<byte>, zeroBased: bool)
    requires |j| >= 2 && (zeroBased ==> ZeroIds(j[2..]).Some?)
    ensures |Ids(j, zeroBased)| == |j| - 2 && |Version102(Ids(j, zeroBased))| == |j| - 2
  {
    hide ZeroIds, Version102;
  }

  lemma IdsChange(j: seq<byte>, zeroBased: bool, i: nat)
    requires |j| >= 2 && (zeroBased ==> ZeroIds(j[2..]).Some?) && i < |j| - 2
    requires |Ids(j, zeroBased)| == |j| - 2 && Ids(j, zeroBased)[i] != j[2..][i]
    ensures zeroBased && IdAt(j[2..], i)
  {
    if zeroBased { OnlyIdsChange(j[2..], i); }
    hide ZeroIds;
  }

  // ---- a file on which the patch is not idempotent ----

  /** A second start marker. The walker for the version takes the bytes behind it for a length, the other
      walker does not, and what the one writes as a version the other then reads as a length. */
  function Crossed(v1: byte, v2: byte, id: byte): seq<byte> {
    [0xFF, 0xD8, 1, 1, 8] + seq(254, i => 0 as byte) + Jfif(v1, v2) + seq(256, i => 0 as byte) + Sof(id)
  }

  function Jfif(v1: byte, v2: byte): seq<byte> { [0xFF, 0xE0, 0, 16, 0x4A, 0x46, 0x49, 0x46, 0, v1, v2] }

  function Sof(id: byte): seq<byte> { [0xFF, 0xC0, 0, 11, 8, 0, 1, 0, 1, 1, id, 0x11, 0] }

  /** What the walker for identifiers finds behind the second start marker and its 264-byte segment. */
  function Rest(v1: byte, v2: byte, id: byte): seq<byte> { [0, v1, v2] + seq(256, i => 0 as byte) + Sof(id) }

  lemma HeadIs(r: seq<byte>, k: nat, len: nat)
    requires |r| >= 4 && k + 3 <= |r| && r[k] != 0xFF && (forall i :: 0 <= i < k ==> r[i] == 0xFF)
    requires Get16Be(r, k + 1) == len && len >= 2 && k + 1 + len <= |r|
    ensures HeadOf(r) == Segment(k + 1, k + 1 + len) && MarkerOf(r) == r[k] && Fill(r) == k
    ensures (Skips(r) <==> r[k] == 0xD8 || r[k] == 0xD9)
  {
    FillIs(r, k);
  }

  lemma SofRenumbered(id: byte)
    ensures ZeroIds(Sof(id)) == Some(Sof(0))
  {
    var r := Sof(id);
    HeadIs(r, 1, 11);
    assert r[9] == 1;
    assert TableOf(r) == Table(10, 3, 1);
    assert r[..13] == r && r[13..] == [];
    assert Renumber(r, 10, 3, 0) == r;
    assert Renumber(r, 10, 3, 1) == r[10 := 0] == Sof(0);
    ZeroIdsSegment(r);
    assert HeadOf(r[13..]) == End;
    assert ZeroIds(r[13..]) == Some([]);
    hide TableOf, HeadOf, Renumber, Fill;
    assert Front(r) == Sof(0);
    assert Sof(0) + [] == Sof(0);
  }

  lemma RestBefore(id: byte)
    ensures ZeroIds(Rest(0xFF, 0xFF, id)) == Some(Rest(0xFF, 0xFF, id))
  {
    var r := Rest(0xFF, 0xFF, id);
    FillIs(r, 0);
    assert |r| == 272 && r[1] == 0xFF && r[2] == 0xFF;
    assert HeadOf(r) == Bare(0);
  }

  lemma RestAfter(id: byte)
    ensures ZeroIds(Rest(1, 2, id)) == Some(Rest(1, 2, 0))
  {
    var r := Rest(1, 2, id);
    assert |r| == 272 && r[0] == 0 && r[1] == 1 && r[2] == 2;
    HeadIs(r, 0, 258);
    assert r[259..] == Sof(id);
    SofRenumbered(id);
    assert r[..259] + Sof(0) == Rest(1, 2, 0);
    hide Rest, Sof, HeadOf, Fill;
    PlainSegment(r);
  }

  /** A segment without table. */
  lemma PlainSegment(r: seq<byte>)
    requires HeadOf(r).Segment? && !IsSof(MarkerOf(r)) && MarkerOf(r) !in {0xDA, 0xD8, 0xD9}
    ensures ZeroIds(r) == Prefixed(r[..HeadOf(r).end], ZeroIds(r[HeadOf(r).end..]))
  {
    assert !Skips(r) && TableOf(r) == NoTable;
    ZeroIdsSegment(r);
    hide ZeroIds, HeadOf;
  }

  /** The parts of the file that the walkers see. */
  lemma CrossedParts(v1: byte, v2: byte, id: byte)
    ensures var r := Crossed(v1, v2, id);
            |r| == 539 && r[0] == 0xFF && r[1] == 0xD8 && r[2] == 1 && r[3] == 1 && r[4] == 8
            && r[259..] == Jfif(v1, v2) + Behind(id) && r[267..] == Rest(v1, v2, id)
  {
    CrossedJfif(v1, v2, id);
    CrossedRest(v1, v2, id);
    hide Jfif, Sof, Rest, Behind;
  }

  lemma CrossedJfif(v1: byte, v2: byte, id: byte)
    ensures |Crossed(v1, v2, id)| == 539 && Crossed(v1, v2, id)[259..] == Jfif(v1, v2) + Behind(id)
  {
  }

  lemma CrossedRest(v1: byte, v2: byte, id: byte)
    ensures |Crossed(v1, v2, id)| == 539 && Crossed(v1, v2, id)[267..] == Rest(v1, v2, id)
  {
    CrossedJfif(v1, v2, id);
    var r := Crossed(v1, v2, id);
    assert r[267..] == r[259..][8..];
    hide Crossed;
    assert Jfif(v1, v2)[8..] == [0, v1, v2];
    assert (Jfif(v1, v2) + Behind(id))[8..] == Jfif(v1, v2)[8..] + Behind(id);
  }

  function Behind(id: byte): seq<byte> { seq(256, i => 0 as byte) + Sof(id) }

  lemma BehindLong(id: byte)
    ensures |Behind(id)| >= 7
  {
  }

  lemma CrossedFront(v1: byte, v2: byte, v3: byte, v4: byte, id: byte, w: byte)
    ensures Crossed(v1, v2, id)[..259] == Crossed(v3, v4, w)[..259]
    ensures Crossed(v1, v2, id)[..267] == Crossed(v1, v2, w)[..267]
  {
  }

  lemma CrossedIds(v1: byte, v2: byte, id: byte, w: byte)
    requires ZeroIds(Rest(v1, v2, id)) == Some(Rest(v1, v2, w))
    ensures ZeroIds(Crossed(v1, v2, id)) == Some(Crossed(v1, v2, w))
  {
    var r, t := Crossed(v1, v2, id), Crossed(v1, v2, w);
    CrossedParts(v1, v2, id);
    CrossedParts(v1, v2, w);
    CrossedFront(v1, v2, v1, v2, id, w);
    hide Crossed, Rest, Jfif, Sof, ZeroIds;
    FillIs(r, 1);
    assert Skips(r);
    BareStep(r);
    var u := r[2..];
    assert u[0] == 1 && u[1] == 1 && u[2] == 8;
    HeadIs(u, 0, 264);
    PlainSegment(u);
    hide Skips, HeadOf, Fill;
    assert u[265..] == r[267..];
    assert r[..2] + (u[..265] + t[267..]) == r[..267] + t[267..] == t[..267] + t[267..] == t;
  }

  lemma JfifVersion(v1: byte, v2: byte, x: seq<byte>)
    requires |x| >= 7
    ensures Version102(Jfif(v1, v2) + x) == Jfif(1, 2) + x
  {
    hide *;
    JfifBytes(v1, v2);
    SetInFront(Jfif(v1, v2), x);
    JfifVersionOf(Jfif(v1, v2) + x);
  }

  lemma JfifVersionOf(u: seq<byte>)
    requires |u| >= 18 && u[0] == 0xFF && u[1] == 0xE0 && u[2] == 0 && u[3] == 16 && u[4..9] == JFIF
    ensures Version102(u) == u[9 := 1][10 := 2]
  {
    JfifHead(u);
    JfifMark(u);
    VersionStep(u);
    hide Version102, HeadOf, IsJfif, Stops;
  }

  lemma JfifBytes(v1: byte, v2: byte)
    ensures var j := Jfif(v1, v2);
            |j| == 11 && j[0] == 0xFF && j[1] == 0xE0 && j[2] == 0 && j[3] == 16 && j[4..9] == JFIF
            && j[9 := 1][10 := 2] == Jfif(1, 2)
  {
  }

  lemma JfifMark(u: seq<byte>)
    requires HeadOf(u) == Segment(2, 18) && MarkerOf(u) == 0xE0 && u[4..9] == JFIF
    ensures IsJfif(u)
  {
  }

  lemma SetInFront(j: seq<byte>, x: seq<byte>)
    requires |j| == 11
    ensures (j + x)[9 := 1][10 := 2] == j[9 := 1][10 := 2] + x
    ensures (j + x)[4..9] == j[4..9]
    ensures (j + x)[0] == j[0] && (j + x)[1] == j[1] && (j + x)[2] == j[2] && (j + x)[3] == j[3]
  {
  }

  lemma JfifHead(u: seq<byte>)
    requires |u| >= 18 && u[0] == 0xFF && u[1] == 0xE0 && u[2] == 0 && u[3] == 16
    ensures HeadOf(u) == Segment(2, 18) && MarkerOf(u) == 0xE0 && !Stops(u)
  {
    HeadIs(u, 1, 16);
    hide HeadOf, Fill;
  }

  lemma CrossedVersion(v1: byte, v2: byte, id: byte)
    ensures Version102(Crossed(v1, v2, id)) == Crossed(1, 2, id)
  {
    hide *;
    var r, t := Crossed(v1, v2, id), Crossed(1, 2, id);
    CrossedParts(v1, v2, id);
    CrossedParts(1, 2, id);
    CrossedFront(v1, v2, 1, 2, id, id);
    CrossedHead(r);
    BehindLong(id);
    JfifVersion(v1, v2, Behind(id));
    VersionStep(r);
    assert r[..259] + t[259..] == t[..259] + t[259..] == t;
  }

  lemma CrossedHead(r: seq<byte>)
    requires |r| == 539 && r[0] == 0xFF && r[1] == 0xD8 && r[2] == 1 && r[3] == 1
    ensures HeadOf(r) == Segment(2, 259) && !Stops(r) && !IsJfif(r)
  {
    HeadIs(r, 1, 257);
    hide HeadOf, Fill;
  }

  /** The first patch leaves the identifier 5 alone; the second, on the result, changes it. */
  lemma NotAlwaysIdempotent()
    ensures var j := [0xFF, 0xD8] + Crossed(0xFF, 0xFF, 5);
            var p := Patch(j, true);
            p.Some? && Patch(p.value, true) != p
  {
    RestBefore(5);
    RestAfter(5);
    CrossedIds(0xFF, 0xFF, 5, 5);
    CrossedIds(1, 2, 5, 0);
    CrossedVersion(0xFF, 0xFF, 5);
    CrossedVersion(1, 2, 0);
    CrossedDiffer();
    hide *;
    TwicePatched(Crossed(0xFF, 0xFF, 5), Crossed(1, 2, 5), Crossed(1, 2, 0));
  }

  lemma CrossedDiffer()
    ensures Crossed(1, 2, 5) != Crossed(1, 2, 0)
    ensures |Crossed(0xFF, 0xFF, 5)| == 539 && |Crossed(1, 2, 5)| == 539 && |Crossed(1, 2, 0)| == 539
    ensures Crossed(1, 2, 5)[1] == 0xD8
  {
    assert Crossed(1, 2, 5)[536] == 5 && Crossed(1, 2, 0)[536] == 0;
  }

  lemma TwicePatched(a: seq<byte>, b: seq<byte>, c: seq<byte>)
    requires |a| >= 2 && |b| >= 2 && |c| == |b| && b[1] != 0xE0 && b != c
    requires ZeroIds(a) == Some(a) && Version102(a) == b && ZeroIds(b) == Some(c) && Version102(c) == c
    ensures var p := Patch([0xFF, 0xD8] + a, true); p.Some? && Patch(p.value, true) != p
  {
    hide *;
    OncePatched(a, a, b);
    CommentGoesFirst(b);
    Again(b, c);
    CommentPlain();
    var m := CommentSegment();
    ZeroIdsPlain(m, b);
    CommentVersion(c);
    assert (m + b)[|m|..] == b && (m + c)[|m|..] == c;
    Unprefixed(m, c);
    Again(m + b, m + c);
  }

  lemma Unprefixed(m: seq<byte>, c: seq<byte>)
    ensures Prefixed(m, Some(c)) == Some(m + c)
  {
  }

  lemma CommentVersion(c: seq<byte>)
    requires Version102(c) == c
    ensures Version102(CommentSegment() + c) == CommentSegment() + c
  {
    CommentPlain();
    VersionPlain(CommentSegment(), c);
    JfifPlain(CommentSegment(), c, c);
    hide Version102, CommentSegment, IsPlain, IsJfif;
  }

  /** Without a first APP0 segment the comment goes right behind the start marker. */
  lemma CommentGoesFirst(b: seq<byte>)
    requires |b| >= 2 && b[1] != 0xE0
    ensures var k := [0xFF, 0xD8] + b;
            IsJpeg(k) && (InsertComment(k) == k || InsertComment(k) == [0xFF, 0xD8] + (CommentSegment() + b))
  {
    var k := [0xFF, 0xD8] + b;
    assert k[3] == b[1] && InsertAt(k) == 2;
    assert k[..2] == [0xFF, 0xD8] && k[2..] == b;
    hide CommentSegment, Contains, InsertAt;
    assert [0xFF, 0xD8] + CommentSegment() + b == [0xFF, 0xD8] + (CommentSegment() + b);
  }

  lemma Again(x: seq<byte>, y: seq<byte>)
    requires |x| >= 2 && |y| == |x| && x != y && ZeroIds(x) == Some(y) && Version102(y) == y
    ensures Patch([0xFF, 0xD8] + x, true) != Some([0xFF, 0xD8] + x)
  {
    hide *;
    OncePatched(x, y, y);
    assert ([0xFF, 0xD8] + x)[2..] == x && ([0xFF, 0xD8] + y)[2..] == y;
  }

  lemma OncePatched(a: seq<byte>, z: seq<byte>, v: seq<byte>)
    requires |a| >= 2 && ZeroIds(a) == Some(z) && Version102(z) == v
    ensures IsJpeg([0xFF, 0xD8] + v) && Patch([0xFF, 0xD8] + a, true) == Some(InsertComment([0xFF, 0xD8] + v))
    ensures InsertComment([0xFF, 0xD8] + v) == [0xFF, 0xD8] + v || |InsertComment([0xFF, 0xD8] + v)| == |v| + 59
  {
    var j := [0xFF, 0xD8] + a;
    assert j[2..] == a && j[..2] == [0xFF, 0xD8];
    CommentPlain();
    hide ZeroIds, Version102, CommentSegment, InsertAt, Contains;
  }
}