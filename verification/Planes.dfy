/** Planes of samples inside one buffer: rows of equal pitch, with padding between and behind them. */
module Planes {
  import opened Arithmetic
  import opened Bytes
  import opened Geometry

  /** A plane and the sample it is to hold at every place. */
  datatype Plane = Plane(base: nat, stride: nat, width: nat, rows: nat, value: Point -> byte)
  {
    predicate Good() { width <= stride }

    function At(p: Point): nat { base + stride * p.y + p.x }

    function End(): nat { base + stride * rows }

    predicate Has(p: Point) { p.x < width && p.y < rows }
  }

  lemma CellInside(k: Plane, p: Point)
    requires k.Good() && k.Has(p)
    ensures k.base <= k.At(p) < k.End()
  {
    Steps(k.stride, p.y, k.rows);
  }

  lemma CellsApart(k: Plane, p: Point, q: Point)
    requires k.Good() && k.Has(p) && k.Has(q) && p != q
    ensures k.At(p) != k.At(q)
  {
    if p.y < q.y { Steps(k.stride, p.y, q.y); }
    if q.y < p.y { Steps(k.stride, q.y, p.y); }
  }

  /** The samples named by `done` are in place, and the other cells of the plane are still zero. */
  ghost predicate Filled(out: seq<byte>, k: Plane, done: Point -> bool) {
    k.End() <= |out| && forall p: Point :: k.Has(p) ==> InBuffer(out, k, p) == if done(p) then k.value(p) else 0
  }

  function InBuffer(out: seq<byte>, k: Plane, p: Point): byte {
    if k.At(p) < |out| then out[k.At(p)] else 0
  }

  /** One more sample. */
  lemma PutHere(out: seq<byte>, k: Plane, done: Point -> bool, p: Point, now: Point -> bool)
    requires k.Good() && k.Has(p) && Filled(out, k, done) && k.At(p) < |out|
    requires forall q: Point :: k.Has(q) ==> now(q) == (done(q) || q == p)
    ensures Filled(out[k.At(p) := k.value(p)], k, now)
  {
    var next := out[k.At(p) := k.value(p)];
    forall q: Point | k.Has(q) ensures InBuffer(next, k, q) == if now(q) then k.value(q) else 0 {
      CellInside(k, q);
      if q != p { CellsApart(k, p, q); }
      assert InBuffer(out, k, q) == if done(q) then k.value(q) else 0;
    }
  }

  lemma SameDone(out: seq<byte>, k: Plane, done: Point -> bool, now: Point -> bool)
    requires Filled(out, k, done) && forall q: Point :: k.Has(q) ==> now(q) == done(q)
    ensures Filled(out, k, now)
  {
    forall q: Point | k.Has(q) ensures InBuffer(out, k, q) == if now(q) then k.value(q) else 0 {
      assert InBuffer(out, k, q) == if done(q) then k.value(q) else 0;
    }
  }

  /** A place in the buffer that belongs to a cell of the plane. */
  ghost predicate IsCell(k: Plane, a: nat) { exists p: Point :: k.Has(p) && k.At(p) == a }

  /** Everything that belongs to no plane is zero. */
  ghost predicate PaddingZero(out: seq<byte>, planes: seq<Plane>) {
    forall a: nat :: a < |out| && (forall i :: 0 <= i < |planes| ==> !IsCell(planes[i], a)) ==> out[a] == 0
  }

  lemma ZeroFilled(out: seq<byte>, k: Plane)
    requires k.Good() && k.End() <= |out| && forall a :: 0 <= a < |out| ==> out[a] == 0
    ensures Filled(out, k, (p: Point) => false)
  {
    forall p: Point | k.Has(p) ensures InBuffer(out, k, p) == 0 {
      CellInside(k, p);
    }
  }
}
