/** ro90 of main.c: the vendor driver turns the cursor image in place. */
module Cursor {
  import opened Arithmetic
  import opened Bytes
  import opened Geometry
  import opened Pictures

  /** What a packed image shows. */
  function Image(bytes: seq<byte>, width: nat, height: nat): Picture
    requires IsPacked(bytes, width, height)
  {
    PackedValid(bytes, width, height);
    Frame(bytes, width, height, 4 * width).Shown()
  }

  lemma TurnedPacked(bytes: seq<byte>, w: nat, h: nat)
    requires IsPacked(bytes, w, h)
    ensures IsPacked(bytes, h, w)
  {
  }

  /** The image becomes h wide and w high and shows what the display programs call a turn by 90 degrees. */
  method Ro90(buffer: array<byte>, w: nat, h: nat)
    requires IsPacked(buffer[..], w, h)
    modifies buffer
    ensures IsPacked(buffer[..], h, w)
    ensures Holds(buffer[..], h, w, Rotated(old(Image(buffer[..], w, h)), w, h, Deg90))
  {
    ghost var was := Image(buffer[..], w, h);
    ghost var want := Rotated(was, w, h, Deg90);
    var tmp := new byte[buffer.Length];
    TurnedPacked(buffer[..], w, h);
    assert IsPacked(tmp[..], h, w) && IsPacked(buffer[..], h, w);
    var indexr := 0;
    var x := 0;
    while x < w
      invariant 0 <= x <= w && indexr == Offset(4 * h, Point(0, x))
      invariant IsPacked(tmp[..], h, w) && RowsHold(tmp[..], h, w, x, want)
      invariant tmp.Length == buffer.Length && buffer[..] == old(buffer[..])
    {
      var y := h - 1;
      while y >= 0
        invariant -1 <= y <= h - 1 && indexr == Offset(4 * h, Point(h - 1 - y, x))
        invariant IsPacked(tmp[..], h, w) && RowsHold(tmp[..], h, w, x, want)
        invariant RowHolds(tmp[..], h, w, x, h - 1 - y, want)
        invariant tmp.Length == buffer.Length && buffer[..] == old(buffer[..])
      {
        Move(buffer, tmp, indexr, w, h, x, y);
        indexr := indexr + 4;
        y := y - 1;
      }
      RowAdded(tmp[..], h, w, x, want);
      RowEnds(h, x);
      x := x + 1;
    }
    AllRows(tmp[..], h, w, want);
    CopyBytes(tmp[..], 0, buffer.Length, buffer, 0);
    assert buffer[..] == buffer[0..0 + buffer.Length] == tmp[..];
  }

  lemma RowEnds(h: nat, x: nat)
    ensures Offset(4 * h, Point(h, x)) == Offset(4 * h, Point(0, x + 1))
  {
  }

  method Move(buffer: array<byte>, tmp: array<byte>, indexr: nat, w: nat, h: nat, x: nat, y: nat)
    requires buffer != tmp && buffer.Length == tmp.Length && x < w && y < h
    requires indexr == Offset(4 * h, Point(h - 1 - y, x))
    requires IsPacked(buffer[..], w, h) && IsPacked(tmp[..], h, w)
    requires var want := Rotated(Image(buffer[..], w, h), w, h, Deg90);
             RowsHold(tmp[..], h, w, x, want) && RowHolds(tmp[..], h, w, x, h - 1 - y, want)
    modifies tmp
    ensures IsPacked(tmp[..], h, w)
    ensures var want := Rotated(Image(buffer[..], w, h), w, h, Deg90);
            RowsHold(tmp[..], h, w, x, want) && RowHolds(tmp[..], h, w, x, h - y, want)
  {
    hide *;
    var index := Index(w, x, y);
    Places(buffer[..], tmp[..], w, h, x, y);
    ghost var before := tmp[..];
    CopyFour(buffer[..], index, tmp, indexr);
    PixelAdded(before, tmp[..], h, w, h - 1 - y, x, Rotated(Image(buffer[..], w, h), w, h, Deg90));
  }

  function Index(w: nat, x: nat, y: nat): nat { (x + y * w) * 4 }

  lemma Places(buffer: seq<byte>, tmp: seq<byte>, w: nat, h: nat, x: nat, y: nat)
    requires IsPacked(buffer, w, h) && IsPacked(tmp, h, w) && x < w && y < h
    ensures Index(w, x, y) + 4 <= |buffer|
    ensures PixelOf(buffer, Index(w, x, y)) == Rotated(Image(buffer, w, h), w, h, Deg90)(Point(h - 1 - y, x))
    ensures Offset(h * 4, Point(h - 1 - y, x)) + 4 <= |tmp|
    ensures Offset(4 * h, Point(h - 1 - y, x)) == Offset(h * 4, Point(h - 1 - y, x))
  {
    PackedValid(buffer, w, h);
    PackedValid(tmp, h, w);
    Frame(buffer, w, h, 4 * w).OffsetInside(Point(x, y));
    Frame(tmp, h, w, 4 * h).OffsetInside(Point(h - 1 - y, x));
    assert Index(w, x, y) == Offset(4 * w, Point(x, y)) by { SameIndex(w, x, y); }
    hide Index, Offset;
    var q := Point(h - 1 - y, x);
    assert InOutput(q, w, h, Deg90) && SourceCoordinate(q, w, h, Deg90) == Point(x, y);
  }

  lemma SameIndex(w: nat, x: nat, y: nat)
    ensures Index(w, x, y) == Offset(4 * w, Point(x, y))
  {
  }

  // ---- four turns ----

  /** A packed image is its picture: two buffers that hold the same picture are equal. */
  lemma HoldsUnique(a: seq<byte>, b: seq<byte>, width: nat, height: nat, picture: Picture)
    requires IsPacked(a, width, height) && IsPacked(b, width, height)
    requires Holds(a, width, height, picture) && Holds(b, width, height, picture)
    ensures a == b
  {
    forall i | 0 <= i < |a| ensures a[i] == b[i] {
      ByteUnique(a, b, width, height, picture, i);
    }
  }

  lemma ByteUnique(a: seq<byte>, b: seq<byte>, width: nat, height: nat, picture: Picture, i: nat)
    requires IsPacked(a, width, height) && IsPacked(b, width, height) && i < |a|
    requires Holds(a, width, height, picture) && Holds(b, width, height, picture)
    ensures a[i] == b[i]
  {
    var p := PixelWith(i, width, height);
    var f, g := Frame(a, width, height, 4 * width), Frame(b, width, height, 4 * width);
    f.OffsetInside(p);
    g.OffsetInside(p);
    assert f.At(p) == picture(p) == g.At(p);
    hide Holds, Offset, IsPacked, PixelOf, Frame.Valid;
    PixelBytes(a, b, Offset(4 * width, p), i);
  }

  lemma PixelBytes(a: seq<byte>, b: seq<byte>, at: nat, i: nat)
    requires at + 4 <= |a| && at + 4 <= |b| && PixelOf(a, at) == PixelOf(b, at) && at <= i < at + 4
    ensures a[i] == b[i]
  {
  }

  /** Every byte of a packed image belongs to a pixel. */
  lemma PixelWith(i: nat, width: nat, height: nat) returns (p: Point)
    requires i < width * 4 * height
    ensures InFrame(p, width, height) && Offset(4 * width, p) <= i < Offset(4 * width, p) + 4
  {
    hide Offset;
    Positive(i, width, height);
    RowBelow(i, width, height);
    p := Cell(i, 4 * width);
  }

  lemma Cell(i: nat, pitch: nat) returns (p: Point)
    requires pitch > 0 && pitch % 4 == 0
    ensures p.y == i / pitch && 4 * p.x < pitch && Offset(pitch, p) <= i < Offset(pitch, p) + 4
  {
    p := Point(i % pitch / 4, i / pitch);
    Divided(i, pitch);
  }

  lemma RowBelow(i: nat, width: nat, height: nat)
    requires width > 0 && i < width * 4 * height
    ensures i / (4 * width) < height
  {
    Divided(i, 4 * width);
    if i / (4 * width) >= height { MulLe(4 * width, height, i / (4 * width)); SizeAsRows(width, height); }
  }

  lemma SizeAsRows(width: nat, height: nat)
    ensures width * 4 * height == height * (4 * width)
  {
  }

  lemma Zero(a: nat, b: nat)
    requires a == 0 || b == 0
    ensures a * b == 0
  {
  }

  lemma Positive(i: nat, width: nat, height: nat)
    requires i < width * 4 * height
    ensures width > 0 && height > 0
  {
    if width == 0 || height == 0 { Zero(width * 4, height); }
  }

  lemma TurnTurns(picture: Picture, w: nat, h: nat, p: Point)
    requires InFrame(p, w, h)
    ensures Rotated(Rotated(Rotated(Rotated(picture, w, h, Deg90), h, w, Deg90), w, h, Deg90), h, w, Deg90)(p)
         == picture(p)
  {
    var one := Rotated(picture, w, h, Deg90);
    var two := Rotated(one, h, w, Deg90);
    var three := Rotated(two, w, h, Deg90);
    Deg90At(three, h, w, p);
    var q := Point(p.y, w - 1 - p.x);
    Deg90At(two, w, h, q);
    var r := Point(w - 1 - p.x, h - 1 - p.y);
    Deg90At(one, h, w, r);
    var s := Point(h - 1 - p.y, p.x);
    Deg90At(picture, w, h, s);
    hide Rotated;
  }

  lemma Deg90At(picture: Picture, w: nat, h: nat, p: Point)
    requires InFrame(p, h, w)
    ensures Rotated(picture, w, h, Deg90)(p) == picture(Point(p.y, h - 1 - p.x))
  {
    assert InOutput(p, w, h, Deg90);
    assert SourceCoordinate(p, w, h, Deg90) == Point(p.y, h - 1 - p.x);
  }

  /** Turning a picture that agrees on the image gives pictures that agree on the image. */
  lemma TurnAgrees(a: Picture, b: Picture, w: nat, h: nat)
    requires Shows(a, b, w, h)
    ensures Shows(Rotated(a, w, h, Deg90), Rotated(b, w, h, Deg90), h, w)
  {
    forall p: Point | InFrame(p, h, w) ensures Rotated(a, w, h, Deg90)(p) == Rotated(b, w, h, Deg90)(p) {
      Deg90At(a, w, h, p);
      Deg90At(b, w, h, p);
      var q := Point(p.y, h - 1 - p.x);
      assert InFrame(q, w, h) && a(q) == b(q);
    }
  }

  /** Two pictures agree on an image of that size. */
  ghost predicate Shows(a: Picture, b: Picture, w: nat, h: nat) {
    forall p: Point :: InFrame(p, w, h) ==> a(p) == b(p)
  }

  lemma HoldsImage(bytes: seq<byte>, w: nat, h: nat, picture: Picture)
    requires IsPacked(bytes, w, h)
    ensures Holds(bytes, w, h, picture) ==> Shows(Image(bytes, w, h), picture, w, h)
    ensures Shows(Image(bytes, w, h), picture, w, h) ==> Holds(bytes, w, h, picture)
  {
    PackedValid(bytes, w, h);
    var f := Frame(bytes, w, h, 4 * w);
    if Holds(bytes, w, h, picture) {
      forall p: Point | InFrame(p, w, h) ensures Image(bytes, w, h)(p) == picture(p) {
        assert f.At(p) == picture(p);
      }
      assert Shows(Image(bytes, w, h), picture, w, h);
    }
    if Shows(Image(bytes, w, h), picture, w, h) {
      forall p: Point | InFrame(p, w, h) ensures f.At(p) == picture(p) {
        assert Image(bytes, w, h)(p) == picture(p);
      }
      assert Holds(bytes, w, h, picture);
    }
  }

  /** A turn of a buffer that is known to hold a picture. */
  method TurnHeld(buffer: array<byte>, w: nat, h: nat, ghost picture: Picture)
    requires IsPacked(buffer[..], w, h) && Holds(buffer[..], w, h, picture)
    modifies buffer
    ensures IsPacked(buffer[..], h, w) && Holds(buffer[..], h, w, Rotated(picture, w, h, Deg90))
  {
    ghost var was := Image(buffer[..], w, h);
    HoldsImage(buffer[..], w, h, picture);
    Ro90(buffer, w, h);
    TurnAgrees(was, picture, w, h);
    HoldsImage(buffer[..], h, w, Rotated(was, w, h, Deg90));
    HoldsImage(buffer[..], h, w, Rotated(picture, w, h, Deg90));
    hide Rotated, Image, Holds, IsPacked;
  }

  /** Four turns in place give back every byte. */
  method FourTurns(buffer: array<byte>, w: nat, h: nat)
    requires IsPacked(buffer[..], w, h)
    modifies buffer
    ensures buffer[..] == old(buffer[..])
  {
    hide Rotated, Image, Holds, IsPacked;
    ghost var was := buffer[..];
    ghost var picture := Image(was, w, h);
    HoldsImage(was, w, h, picture);
    TurnHeld(buffer, w, h, picture);
    ghost var one := Rotated(picture, w, h, Deg90);
    TurnHeld(buffer, h, w, one);
    ghost var two := Rotated(one, h, w, Deg90);
    TurnHeld(buffer, w, h, two);
    ghost var three := Rotated(two, w, h, Deg90);
    TurnHeld(buffer, h, w, three);
    BackAgain(buffer[..], was, w, h);
  }

  lemma BackAgain(now: seq<byte>, was: seq<byte>, w: nat, h: nat)
    requires IsPacked(now, w, h) && IsPacked(was, w, h)
    requires Holds(now, w, h, Rotated(Rotated(Rotated(Rotated(Image(was, w, h), w, h, Deg90), h, w, Deg90), w, h,
                                              Deg90), h, w, Deg90))
    ensures now == was
  {
    var picture := Image(was, w, h);
    var back := Rotated(Rotated(Rotated(Rotated(picture, w, h, Deg90), h, w, Deg90), w, h, Deg90), h, w, Deg90);
    HoldsImage(now, w, h, back);
    HoldsImage(now, w, h, picture);
    HoldsImage(was, w, h, picture);
    hide Rotated, Image, Holds, IsPacked;
    forall p: Point | InFrame(p, w, h) ensures back(p) == picture(p) {
      TurnTurns(picture, w, h, p);
    }
    HoldsUnique(now, was, w, h, picture);
  }
}
