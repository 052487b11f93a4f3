/** BGRA frames, what they show, and the loops that cut a rectangle out of a rotated frame
    (t6-virtual-display.rs). */
module Pictures {
  import opened Arithmetic
  import opened Bytes
  import opened Geometry

  datatype Pixel = Pixel(b: byte, g: byte, r: byte, a: byte)

  /** What a screen shows: a pixel at every place. */
  type Picture = Point -> Pixel

  function PixelOf(bytes: seq<byte>, at: nat): Pixel
    requires at + 4 <= |bytes|
  {
    Pixel(bytes[at], bytes[at + 1], bytes[at + 2], bytes[at + 3])
  }

  /** A pixel depends on its four bytes only. */
  lemma SamePixel(a: seq<byte>, i: nat, b: seq<byte>, j: nat, n: nat, k: nat)
    requires i + n <= |a| && j + n <= |b| && a[i..i + n] == b[j..j + n] && k + 4 <= n
    ensures PixelOf(a, i + k) == PixelOf(b, j + k)
  {
    var s, t := a[i..i + n], b[j..j + n];
    assert s[k] == a[i + k] && s[k + 1] == a[i + k + 1] && s[k + 2] == a[i + k + 2] && s[k + 3] == a[i + k + 3];
    assert t[k] == b[j + k] && t[k + 1] == b[j + k + 1] && t[k + 2] == b[j + k + 2] && t[k + 3] == b[j + k + 3];
  }

  /** Where the bytes of a pixel start. */
  function Offset(pitch: nat, p: Point): nat { p.y * pitch + 4 * p.x }

  datatype Frame = Frame(bytes: seq<byte>, width: nat, height: nat, stride: nat)
  {
    /** What send_frame checks before it uses a frame. */
    predicate Valid() { 4 * width <= stride && stride * height <= |bytes| }

    lemma OffsetInside(p: Point)
      requires Valid() && InFrame(p, width, height)
      ensures Offset(stride, p) + 4 <= |bytes|
    {
      Steps(stride, p.y, height);
    }

    function At(p: Point): Pixel
      requires Valid() && InFrame(p, width, height)
    {
      OffsetInside(p);
      PixelOf(bytes, Offset(stride, p))
    }

    /** The picture of the frame. */
    function Shown(): Picture
      requires Valid()
    {
      (p: Point) => if InFrame(p, width, height) then At(p) else Pixel(0, 0, 0, 0)
    }
  }

  /** A picture turned by the rotation option. */
  function Rotated(picture: Picture, width: nat, height: nat, rotation: Rotation): Picture {
    (p: Point) => if InOutput(p, width, height, rotation) then picture(SourceCoordinate(p, width, height, rotation))
                  else Pixel(0, 0, 0, 0)
  }

  /** The part of a picture inside a box. */
  function Cropped(picture: Picture, b: Box): Picture {
    (p: Point) => picture(Point(b.x + p.x, b.y + p.y))
  }

  /** A tightly packed buffer holds a picture. */
  ghost predicate Holds(out: seq<byte>, width: nat, height: nat, picture: Picture) {
    var f := Frame(out, width, height, 4 * width);
    f.Valid() && forall p: Point :: InFrame(p, width, height) ==> f.At(p) == picture(p)
  }

  // ---- the loops ----

  predicate IsPacked(out: seq<byte>, width: nat, height: nat) { |out| == width * 4 * height }

  lemma PackedValid(out: seq<byte>, width: nat, height: nat)
    requires IsPacked(out, width, height)
    ensures Frame(out, width, height, 4 * width).Valid()
  {
  }

  /** The first rows of a packed buffer hold a picture. */
  ghost predicate RowsHold(out: seq<byte>, width: nat, height: nat, rows: nat, picture: Picture)
    requires IsPacked(out, width, height)
  {
    PackedValid(out, width, height);
    forall p: Point :: InFrame(p, width, height) && p.y < rows ==>
             Frame(out, width, height, 4 * width).At(p) == picture(p)
  }

  /** The first pixels of one row hold a picture. */
  ghost predicate RowHolds(out: seq<byte>, width: nat, height: nat, row: nat, count: nat, picture: Picture)
    requires IsPacked(out, width, height)
  {
    PackedValid(out, width, height);
    forall p: Point :: InFrame(p, width, height) && p.y == row && p.x < count ==>
             Frame(out, width, height, 4 * width).At(p) == picture(p)
  }

  /** Bytes at and after row `row` do not matter to the rows before it. */
  lemma RowsKept(a: seq<byte>, b: seq<byte>, width: nat, height: nat, row: nat, picture: Picture)
    requires IsPacked(a, width, height) && IsPacked(b, width, height) && row <= height
    requires RowsHold(a, width, height, row, picture)
    requires row * (4 * width) <= |a| && a[..row * (4 * width)] == b[..row * (4 * width)]
    ensures RowsHold(b, width, height, row, picture)
  {
    PackedValid(a, width, height);
    PackedValid(b, width, height);
    var f, g := Frame(a, width, height, 4 * width), Frame(b, width, height, 4 * width);
    forall p: Point | InFrame(p, width, height) && p.y < row
      ensures g.At(p) == picture(p)
    {
      assert f.At(p) == picture(p);
      Steps(4 * width, p.y, row);
      var n := row * (4 * width);
      assert a[0..n] == a[..n] && b[0..n] == b[..n];
      SamePixel(a, 0, b, 0, n, p.y * (4 * width) + 4 * p.x);
    }
  }

  lemma RowAdded(out: seq<byte>, width: nat, height: nat, row: nat, picture: Picture)
    requires IsPacked(out, width, height) && row < height
    requires RowsHold(out, width, height, row, picture) && RowHolds(out, width, height, row, width, picture)
    ensures RowsHold(out, width, height, row + 1, picture)
  {
  }

  lemma RowInside(out: seq<byte>, width: nat, height: nat, row: nat)
    requires IsPacked(out, width, height) && row < height
    ensures row * (4 * width) + 4 * width <= |out|
  {
    Steps(4 * width, row, height);
  }

  lemma AllRows(out: seq<byte>, width: nat, height: nat, picture: Picture)
    requires IsPacked(out, width, height) && RowsHold(out, width, height, height, picture)
    ensures Holds(out, width, height, picture)
  {
    PackedValid(out, width, height);
  }

  /** crop_bgra_bbox copies whole rows. */
  method CropBgraBbox(frame: Frame, b: Box) returns (out: array<byte>)
    requires frame.Valid() && b.Within(frame.width, frame.height)
    ensures fresh(out) && IsPacked(out[..], b.width, b.height)
    ensures Holds(out[..], b.width, b.height, Cropped(frame.Shown(), b))
  {
    var rowBytes := b.width * 4;
    out := new byte[rowBytes * b.height];
    ghost var want := Cropped(frame.Shown(), b);
    var row := 0;
    while row < b.height
      invariant 0 <= row <= b.height && out.Length == rowBytes * b.height
      invariant RowsHold(out[..], b.width, b.height, row, want)
    {
      RowInside(out[..], b.width, b.height, row);
      CopyRow(frame, b, row, out);
      RowAdded(out[..], b.width, b.height, row, want);
      row := row + 1;
    }
    AllRows(out[..], b.width, b.height, want);
  }

  method CopyRow(frame: Frame, b: Box, row: nat, out: array<byte>)
    requires frame.Valid() && b.Within(frame.width, frame.height) && row < b.height
    requires IsPacked(out[..], b.width, b.height)
    requires RowsHold(out[..], b.width, b.height, row, Cropped(frame.Shown(), b))
    modifies out
    ensures RowsHold(out[..], b.width, b.height, row, Cropped(frame.Shown(), b))
    ensures RowHolds(out[..], b.width, b.height, row, b.width, Cropped(frame.Shown(), b))
  {
    var rowBytes := b.width * 4;
    var to := row * rowBytes;
    var from := (b.y + row) * frame.stride + b.x * 4;
    RowInside(out[..], b.width, b.height, row);
    Steps(frame.stride, b.y + row, frame.height);
    ghost var before := out[..];
    CopyBytes(frame.bytes, from, rowBytes, out, to);
    ghost var after := out[..];
    assert before[..to] == after[..to];
    hide RowsHold, RowHolds, Cropped;
    RowsKept(before, after, b.width, b.height, row, Cropped(frame.Shown(), b));
    RowCopied(frame, b, row, after);
  }

  lemma RowCopied(frame: Frame, b: Box, row: nat, out: seq<byte>)
    requires frame.Valid() && b.Within(frame.width, frame.height) && row < b.height && IsPacked(out, b.width, b.height)
    requires var to, from, n := row * (4 * b.width), (b.y + row) * frame.stride + b.x * 4, 4 * b.width;
             to + n <= |out| && from + n <= |frame.bytes| && out[to..to + n] == frame.bytes[from..from + n]
    ensures RowHolds(out, b.width, b.height, row, b.width, Cropped(frame.Shown(), b))
  {
    PackedValid(out, b.width, b.height);
    var f := Frame(out, b.width, b.height, 4 * b.width);
    var to := row * (4 * b.width);
    var from := (b.y + row) * frame.stride + b.x * 4;
    forall p: Point | InFrame(p, b.width, b.height) && p.y == row
      ensures f.At(p) == Cropped(frame.Shown(), b)(p)
    {
      var q := Point(b.x + p.x, b.y + p.y);
      SamePixel(out, to, frame.bytes, from, 4 * b.width, 4 * p.x);
      assert f.At(p) == frame.At(q);
    }
  }

  /** Where the loops of crop_rotated_bgra_bbox read the pixel for column `outX`, row `outY` of the box. */
  function ReadAt(b: Box, outX: nat, outY: nat, width: nat, height: nat, rotation: Rotation): Point
    requires outX < b.width && outY < b.height
    requires var (w, h) := RotatedSize(width, height, rotation); b.Within(w, h)
  {
    match rotation
    case Deg0 => Point(b.x + outX, b.y + outY)
    case Deg90 => Point(b.y + outY, height - 1 - (b.x + outX))
    case Deg180 => Point(width - 1 - (b.x + outX), height - 1 - (b.y + outY))
    case Deg270 => Point(width - 1 - (b.y + outY), b.x + outX)
  }

  /** crop_rotated_bgra_bbox: cutting a rectangle while turning gives, pixel for pixel, what turning the
      whole frame and then cutting gives. */
  method CropRotatedBgraBbox(frame: Frame, rotation: Rotation, b: Box) returns (out: array<byte>)
    requires frame.Valid()
    requires var (w, h) := RotatedSize(frame.width, frame.height, rotation); b.Within(w, h)
    ensures fresh(out) && IsPacked(out[..], b.width, b.height)
    ensures Holds(out[..], b.width, b.height, Cropped(Rotated(frame.Shown(), frame.width, frame.height, rotation), b))
  {
    ghost var want := Cropped(Rotated(frame.Shown(), frame.width, frame.height, rotation), b);
    if rotation == Deg0 {
      out := CropBgraBbox(frame, b);
      Unturned(frame, b, out[..]);
      return;
    }
    var rowBytes := b.width * 4;
    out := new byte[rowBytes * b.height];
    var outY := 0;
    while outY < b.height
      invariant 0 <= outY <= b.height && out.Length == rowBytes * b.height
      invariant RowsHold(out[..], b.width, b.height, outY, want)
    {
      var outX := 0;
      while outX < b.width
        invariant 0 <= outX <= b.width
        invariant RowsHold(out[..], b.width, b.height, outY, want)
        invariant RowHolds(out[..], b.width, b.height, outY, outX, want)
      {
        CopyPixel(frame, rotation, b, outX, outY, out);
        outX := outX + 1;
      }
      RowAdded(out[..], b.width, b.height, outY, want);
      outY := outY + 1;
    }
    AllRows(out[..], b.width, b.height, want);
  }

  lemma Deg0Keeps(picture: Picture, width: nat, height: nat, p: Point)
    requires InFrame(p, width, height)
    ensures Rotated(picture, width, height, Deg0)(p) == picture(p)
  {
    assert InOutput(p, width, height, Deg0);
    assert SourceCoordinate(p, width, height, Deg0) == p;
  }

  lemma Unturned(frame: Frame, b: Box, out: seq<byte>)
    requires frame.Valid() && b.Within(frame.width, frame.height)
    requires Holds(out, b.width, b.height, Cropped(frame.Shown(), b))
    ensures Holds(out, b.width, b.height, Cropped(Rotated(frame.Shown(), frame.width, frame.height, Deg0), b))
  {
    var was, want := Cropped(frame.Shown(), b), Cropped(Rotated(frame.Shown(), frame.width, frame.height, Deg0), b);
    forall p: Point | InFrame(p, b.width, b.height) ensures was(p) == want(p) {
      var q := Point(b.x + p.x, b.y + p.y);
      assert want(p) == Rotated(frame.Shown(), frame.width, frame.height, Deg0)(q);
      Deg0Keeps(frame.Shown(), frame.width, frame.height, q);
    }
    hide Cropped, Rotated, Frame.At;
  }

  method CopyPixel(frame: Frame, rotation: Rotation, b: Box, outX: nat, outY: nat, out: array<byte>)
    requires frame.Valid()
    requires var (w, h) := RotatedSize(frame.width, frame.height, rotation); b.Within(w, h)
    requires outX < b.width && outY < b.height && IsPacked(out[..], b.width, b.height)
    requires var want := Cropped(Rotated(frame.Shown(), frame.width, frame.height, rotation), b);
             RowsHold(out[..], b.width, b.height, outY, want) && RowHolds(out[..], b.width, b.height, outY, outX, want)
    modifies out
    ensures IsPacked(out[..], b.width, b.height)
    ensures var want := Cropped(Rotated(frame.Shown(), frame.width, frame.height, rotation), b);
            RowsHold(out[..], b.width, b.height, outY, want)
            && RowHolds(out[..], b.width, b.height, outY, outX + 1, want)
  {
    hide *;
    var src := ReadAt(b, outX, outY, frame.width, frame.height, rotation);
    var from := Offset(frame.stride, src);
    var to := Offset(b.width * 4, Point(outX, outY));
    PixelPlaces(frame, rotation, b, outX, outY, out[..]);
    ghost var before := out[..];
    CopyFour(frame.bytes, from, out, to);
    PixelAdded(before, out[..], b.width, b.height, outX, outY,
               Cropped(Rotated(frame.Shown(), frame.width, frame.height, rotation), b));
  }

  lemma PixelPlaces(frame: Frame, rotation: Rotation, b: Box, outX: nat, outY: nat, out: seq<byte>)
    requires frame.Valid()
    requires var (w, h) := RotatedSize(frame.width, frame.height, rotation); b.Within(w, h)
    requires outX < b.width && outY < b.height && IsPacked(out, b.width, b.height)
    ensures var from := Offset(frame.stride, ReadAt(b, outX, outY, frame.width, frame.height, rotation));
            from + 4 <= |frame.bytes|
            && PixelOf(frame.bytes, from)
              == Cropped(Rotated(frame.Shown(), frame.width, frame.height, rotation), b)(Point(outX, outY))
    ensures Offset(b.width * 4, Point(outX, outY)) + 4 <= |out|
  {
    ReadRight(frame, rotation, b, outX, outY);
    frame.OffsetInside(ReadAt(b, outX, outY, frame.width, frame.height, rotation));
    PackedValid(out, b.width, b.height);
    Frame(out, b.width, b.height, 4 * b.width).OffsetInside(Point(outX, outY));
    hide Offset, Cropped, Rotated, ReadAt;
  }

  method CopyBytes(src: seq<byte>, from: nat, n: nat, out: array<byte>, to: nat)
    requires from + n <= |src| && to + n <= out.Length
    modifies out
    ensures out[..to] == old(out[..to]) && out[to..to + n] == src[from..from + n]
  {
    forall i | 0 <= i < n { out[to + i] := src[from + i]; }
  }

  method CopyFour(src: seq<byte>, from: nat, out: array<byte>, to: nat)
    requires from + 4 <= |src| && to + 4 <= out.Length
    modifies out
    ensures out[..to] == old(out[..to]) && PixelOf(out[..], to) == PixelOf(src, from)
  {
    out[to], out[to + 1], out[to + 2], out[to + 3] := src[from], src[from + 1], src[from + 2], src[from + 3];
  }

  lemma ReadRight(frame: Frame, rotation: Rotation, b: Box, outX: nat, outY: nat)
    requires frame.Valid()
    requires var (w, h) := RotatedSize(frame.width, frame.height, rotation); b.Within(w, h)
    requires outX < b.width && outY < b.height
    ensures var src := ReadAt(b, outX, outY, frame.width, frame.height, rotation);
            InFrame(src, frame.width, frame.height)
            && Cropped(Rotated(frame.Shown(), frame.width, frame.height, rotation), b)(Point(outX, outY))
              == frame.At(src)
  {
    var p := Point(b.x + outX, b.y + outY);
    assert InOutput(p, frame.width, frame.height, rotation);
    assert SourceCoordinate(p, frame.width, frame.height, rotation)
        == ReadAt(b, outX, outY, frame.width, frame.height, rotation);
  }

  lemma PixelAdded(a: seq<byte>, b: seq<byte>, width: nat, height: nat, outX: nat, outY: nat, want: Picture)
    requires IsPacked(a, width, height) && |a| == |b| && outX < width && outY < height
    requires RowsHold(a, width, height, outY, want) && RowHolds(a, width, height, outY, outX, want)
    requires var at := Offset(width * 4, Point(outX, outY));
             at + 4 <= |a| && a[..at] == b[..at] && PixelOf(b, at) == want(Point(outX, outY))
    ensures IsPacked(b, width, height)
    ensures RowsHold(b, width, height, outY, want) && RowHolds(b, width, height, outY, outX + 1, want)
  {
    var start := outY * (width * 4);
    assert a[..start] == a[..start + outX * 4][..start] && b[..start] == b[..start + outX * 4][..start];
    RowsKept(a, b, width, height, outY, want);
    PackedValid(a, width, height);
    PackedValid(b, width, height);
    var f, g := Frame(a, width, height, 4 * width), Frame(b, width, height, 4 * width);
    forall p: Point | InFrame(p, width, height) && p.y == outY && p.x < outX + 1
      ensures g.At(p) == want(p)
    {
      if p.x < outX {
        assert f.At(p) == want(p);
        var n := start + outX * 4;
        assert a[0..n] == a[..n] && b[0..n] == b[..n];
        SamePixel(a, 0, b, 0, n, start + 4 * p.x);
      } else {
        assert p == Point(outX, outY);
      }
    }
  }
}
