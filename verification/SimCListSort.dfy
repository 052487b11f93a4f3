/** The sorting of simclist.c: a quicksort over the linked entries that moves data, never entries,
    and a selection sort for short stretches. */
module SimCListSort {
  import opened Wrappers
  import opened Permutations
  import opened Sequences
  import opened SimCList

  const MINQUICKSORTELS := 24

  type Comparator = (Ptr, Ptr) -> int

  /** The sign the sort looks at: `a` may stay before `b` when it is not positive. */
  function Ord(cmp: Comparator, versus: int, a: Ptr, b: Ptr): int {
    cmp(a, b) * -versus
  }

  /** A comparator that orders the data: swapping the arguments swaps the sign, and it is transitive. */
  ghost predicate Consistent(cmp: Comparator) {
    && (forall a, b {:trigger cmp(a, b)} :: (cmp(a, b) > 0 <==> cmp(b, a) < 0))
    && (forall a, b, c {:trigger cmp(a, b), cmp(b, c)} :: cmp(a, b) >= 0 && cmp(b, c) >= 0 ==> cmp(a, c) >= 0)
  }

  lemma OrdFlip(cmp: Comparator, versus: int, a: Ptr, b: Ptr)
    requires Consistent(cmp)
    ensures Ord(cmp, versus, a, b) >= 0 <==> Ord(cmp, versus, b, a) <= 0
  {
    assert cmp(b, a) > 0 <==> cmp(a, b) < 0;
  }

  lemma OrdTrans(cmp: Comparator, versus: int, a: Ptr, b: Ptr, c: Ptr)
    requires Consistent(cmp) && Ord(cmp, versus, a, b) <= 0 && Ord(cmp, versus, b, c) <= 0
    ensures Ord(cmp, versus, a, c) <= 0
  {
    assert cmp(b, a) > 0 <==> cmp(a, b) < 0;
    assert cmp(c, b) > 0 <==> cmp(b, c) < 0;
    assert cmp(c, a) > 0 <==> cmp(a, c) < 0;
    if versus > 0 {
      assert cmp(a, b) >= 0 && cmp(b, c) >= 0;
    } else if versus < 0 {
      assert cmp(c, b) >= 0 && cmp(b, a) >= 0;
    }
  }

  ghost predicate SortedWithin(e: seq<Ptr>, cmp: Comparator, versus: int, f: nat, t: nat)
    requires t <= |e|
  {
    forall i, j {:trigger e[i], e[j]} :: f <= i < j < t ==> Ord(cmp, versus, e[i], e[j]) <= 0
  }

  ghost predicate Below(e: seq<Ptr>, cmp: Comparator, versus: int, f: nat, t: nat, v: Ptr)
    requires t <= |e|
  {
    forall k {:trigger e[k]} :: f <= k < t ==> Ord(cmp, versus, e[k], v) <= 0
  }

  ghost predicate Above(e: seq<Ptr>, cmp: Comparator, versus: int, f: nat, t: nat, v: Ptr)
    requires t <= |e|
  {
    forall k {:trigger e[k]} :: f <= k < t ==> Ord(cmp, versus, e[k], v) >= 0
  }

  /** Position `p` holds a pivot: nothing greater before it and nothing smaller behind it. */
  ghost predicate Parted(e: seq<Ptr>, cmp: Comparator, versus: int, f: nat, p: nat, t: nat)
    requires f <= p < t <= |e|
  {
    Below(e, cmp, versus, f, p, e[p]) && Above(e, cmp, versus, p + 1, t, e[p])
  }

  /** Sorting both sides of a pivot sorts the stretch. */
  lemma SortedAround(e: seq<Ptr>, e1: seq<Ptr>, e2: seq<Ptr>, cmp: Comparator, versus: int, f: nat, p: nat, t: nat)
    requires Consistent(cmp) && f <= p < t <= |e| && Parted(e, cmp, versus, f, p, t)
    requires PermWithin(e1, e, f, p) && SortedWithin(e1, cmp, versus, f, p)
    requires PermWithin(e2, e1, p + 1, t) && SortedWithin(e2, cmp, versus, p + 1, t)
    ensures SortedWithin(e2, cmp, versus, f, t) && PermWithin(e2, e, f, t)
  {
    PermWiden(e1, e, f, p, f, t);
    PermWiden(e2, e1, p + 1, t, f, t);
    PermTrans(e2, e1, e, f, t);
    forall k | f <= k < p ensures Ord(cmp, versus, e2[k], e2[p]) <= 0 {
      var j := PermFrom(e1, e, f, p, k);
      assert e2[k] == e1[k];
    }
    forall k | p < k < t ensures Ord(cmp, versus, e2[p], e2[k]) <= 0 {
      var j := PermFrom(e2, e1, p + 1, t, k);
      assert e1[j] == e[j];
      OrdFlip(cmp, versus, e2[k], e2[p]);
    }
    forall i, j | f <= i < j < t ensures Ord(cmp, versus, e2[i], e2[j]) <= 0 {
      if i < p < j {
        OrdTrans(cmp, versus, e2[i], e2[p], e2[j]);
      } else if j < p {
        assert e2[i] == e1[i] && e2[j] == e1[j];
      }
    }
  }

  lemma SwappedAt(e: seq<Ptr>, i: nat, j: nat)
    requires i < |e| && j < |e|
    ensures var s := Swapped(e, i, j);
            && |s| == |e| && s[i] == e[j] && s[j] == e[i]
            && (forall k {:trigger s[k]} :: 0 <= k < |e| && k != i && k != j ==> s[k] == e[k])
  {
  }

  /** The three assignments that exchange the data of two entries. */
  method SwapData(l: List, a: Entry, b: Entry, ghost i: nat, ghost j: nat)
    requires l.Valid() && i < l.numels && j < l.numels && a == l.view.chain[i + 1] && b == l.view.chain[j + 1]
    modifies l`view, a`data, b`data
    ensures l.Valid() && l.view == old(l.view).(elems := Swapped(old(l.view.elems), i, j))
  {
    hide Accounted, PoolOk, Swapped;
    ValidDistinct(l);
    SwappedAt(l.view.elems, i, j);
    AccountedElems(l.view, Swapped(l.view.elems, i, j));
    var tmpdata := a.data;
    a.data := b.data;
    b.data := tmpdata;
    l.view := l.view.(elems := Swapped(l.view.elems, i, j));
  }

  /** `l` differs from `v0` only in the order of the data between `f` and `t - 1`. */
  ghost predicate Rearranged(l: List, v0: View, f: nat, t: nat)
    reads l, l.view.owned, l.spareels
  {
    l.Valid() && l.view == v0.(elems := l.view.elems) && |l.view.elems| == |v0.elems| == l.numels
    && PermWithin(l.view.elems, v0.elems, f, t)
  }

  /** The comparator applied to the data of two entries. */
  method Compare(l: List, cmp: Comparator, versus: int, a: Entry, b: Entry, ghost i: nat, ghost j: nat) returns (r: int)
    requires l.Valid() && i < l.numels && j < l.numels && a == l.view.chain[i + 1] && b == l.view.chain[j + 1]
    ensures r == Ord(cmp, versus, l.view.elems[i], l.view.elems[j])
  {
    var x := DataAt(a, l.view, i + 1);
    var y := DataAt(b, l.view, j + 1);
    r := cmp(x, y) * -versus;
  }

  method Next(l: List, a: Entry, ghost i: nat) returns (n: Entry)
    requires l.Valid() && i < l.numels && a == l.view.chain[i + 1]
    ensures n == l.view.chain[i + 2]
  {
    n := NextOf(a, l.view, i + 1);
  }

  method Prev(l: List, a: Entry, ghost i: nat) returns (n: Entry)
    requires l.Valid() && i < l.numels && a == l.view.chain[i + 1]
    ensures n == l.view.chain[i]
  {
    n := PrevOf(a, l.view, i + 1);
  }

  /** Moves `left` on to an entry with greater data, or to the pivot. */
  method SeekGreater(
    l: List, cmp: Comparator, versus: int, left0: Entry, pivot: Entry, ghost f: nat, ghost li0: nat, ghost p: nat)
    returns (left: Entry, ghost li: nat)
    requires l.Valid() && Distinct(l.view.chain) && f <= li0 <= p < l.numels
    requires left0 == l.view.chain[li0 + 1] && pivot == l.view.chain[p + 1]
    requires Below(l.view.elems, cmp, versus, f, li0, l.view.elems[p])
    ensures li0 <= li <= p && left == l.view.chain[li + 1] && (left == pivot <==> li == p)
    ensures Below(l.view.elems, cmp, versus, f, li, l.view.elems[p])
    ensures li < p ==> Ord(cmp, versus, l.view.elems[li], l.view.elems[p]) > 0
  {
    left, li := left0, li0;
    while left != pivot
      invariant li0 <= li <= p && left == l.view.chain[li + 1]
      invariant Below(l.view.elems, cmp, versus, f, li, l.view.elems[p])
      decreases p - li
    {
      var c := Compare(l, cmp, versus, left, pivot, li, p);
      if c > 0 { break; }
      left := Next(l, left, li);
      li := li + 1;
    }
  }

  /** Moves `right` back to an entry with smaller data, or to the pivot. */
  method SeekSmaller(
    l: List, cmp: Comparator, versus: int, right0: Entry, pivot: Entry, ghost ri0: nat, ghost p: nat, ghost t: nat)
    returns (right: Entry, ghost ri: nat)
    requires l.Valid() && Distinct(l.view.chain) && p <= ri0 < t <= l.numels
    requires right0 == l.view.chain[ri0 + 1] && pivot == l.view.chain[p + 1]
    requires Above(l.view.elems, cmp, versus, ri0 + 1, t, l.view.elems[p])
    ensures p <= ri <= ri0 && right == l.view.chain[ri + 1] && (right == pivot <==> ri == p)
    ensures Above(l.view.elems, cmp, versus, ri + 1, t, l.view.elems[p])
    ensures p < ri ==> Ord(cmp, versus, l.view.elems[ri], l.view.elems[p]) < 0
  {
    right, ri := right0, ri0;
    while right != pivot
      invariant p <= ri <= ri0 && right == l.view.chain[ri + 1]
      invariant Above(l.view.elems, cmp, versus, ri + 1, t, l.view.elems[p])
      decreases ri - p
    {
      var c := Compare(l, cmp, versus, right, pivot, ri, p);
      if c < 0 { break; }
      right := Prev(l, right, ri);
      ri := ri - 1;
    }
  }

  /** Exchanging a greater element on the left with a smaller one on the right puts both in place. */
  lemma PairInPlace(e0: seq<Ptr>, e: seq<Ptr>, cmp: Comparator, versus: int, f: nat, li: nat, p: nat, ri: nat, t: nat)
    requires f <= li < p < ri < t <= |e| && PermWithin(e, e0, f, t)
    requires Below(e, cmp, versus, f, li, e[p]) && Above(e, cmp, versus, ri + 1, t, e[p])
    requires Ord(cmp, versus, e[li], e[p]) > 0 && Ord(cmp, versus, e[ri], e[p]) < 0
    ensures var s := Swapped(e, li, ri);
            && PermWithin(s, e0, f, t) && s[p] == e[p]
            && Below(s, cmp, versus, f, li + 1, e[p]) && Above(s, cmp, versus, ri, t, e[p])
  {
    SwapPerm(e, li, ri, f, t);
    PermTrans(Swapped(e, li, ri), e, e0, f, t);
  }

  /** The first loop of the partition: exchanges misplaced pairs until one side reaches the pivot. */
  method MeetAtPivot(
    l: List, cmp: Comparator, versus: int, fel: Entry, lel: Entry, pivot: Entry, ghost f: nat, ghost p: nat,
    ghost t: nat)
    returns (left: Entry, right: Entry, ghost li: nat, ghost ri: nat)
    requires l.Valid() && Distinct(l.view.chain) && f <= p < t <= l.numels
    requires fel == l.view.chain[f + 1] && lel == l.view.chain[t] && pivot == l.view.chain[p + 1]
    modifies l`view, l.view.owned`data
    ensures Rearranged(l, old(l.view), f, t)
    ensures f <= li <= p <= ri < t && left == l.view.chain[li + 1] && right == l.view.chain[ri + 1]
    ensures li == p || ri == p
    ensures left == pivot <==> li == p
    ensures right == pivot <==> ri == p
    ensures l.view.elems[p] == old(l.view.elems[p])
    ensures Below(l.view.elems, cmp, versus, f, li, l.view.elems[p])
    ensures Above(l.view.elems, cmp, versus, ri + 1, t, l.view.elems[p])
  {
    hide Meeting, List.ValidFor, Distinct, Rearranged, Below, Above;
    ghost var v0 := l.view;
    Facts(l, cmp, versus, f, t);
    left, right, li, ri := fel, lel, f, t - 1;
    EndsApart(v0.chain, f + 1, p + 1, t);
    MeetingStarts(l, cmp, versus, f, p, t);
    while left != pivot && right != pivot
      invariant Meeting(l, v0, cmp, versus, f, li, p, ri, t)
      invariant f <= li <= p <= ri < t && left == v0.chain[li + 1] && right == v0.chain[ri + 1]
      invariant (left == pivot <==> li == p) && (right == pivot <==> ri == p) && l.view.owned == v0.owned
      decreases ri - li
    {
      left, right, li, ri := MeetStep(l, v0, cmp, versus, left, right, pivot, f, li, p, ri, t);
    }
    MeetingEnds(l, v0, cmp, versus, f, li, p, ri, t);
  }

  /** The first loop's invariant: everything outside `li..ri` is on its side of the pivot. */
  ghost predicate Meeting(l: List, v0: View, cmp: Comparator, versus: int, f: nat, li: nat, p: nat, ri: nat, t: nat)
    reads l, l.view.owned, l.spareels
  {
    && Rearranged(l, v0, f, t) && f <= li <= p <= ri < t <= l.numels && Distinct(v0.chain)
    && l.view.elems[p] == v0.elems[p]
    && Below(l.view.elems, cmp, versus, f, li, v0.elems[p]) && Above(l.view.elems, cmp, versus, ri + 1, t, v0.elems[p])
  }

  lemma MeetingStarts(l: List, cmp: Comparator, versus: int, f: nat, p: nat, t: nat)
    requires l.Valid() && Distinct(l.view.chain) && f <= p < t <= l.numels
    ensures Meeting(l, l.view, cmp, versus, f, f, p, t - 1, t)
  {
  }

  lemma MeetingEnds(l: List, v0: View, cmp: Comparator, versus: int, f: nat, li: nat, p: nat, ri: nat, t: nat)
    requires Meeting(l, v0, cmp, versus, f, li, p, ri, t)
    ensures Rearranged(l, v0, f, t) && l.view.chain == v0.chain && p < |l.view.elems| == |v0.elems| && t <= |v0.elems|
    ensures l.view.elems[p] == v0.elems[p]
    ensures Below(l.view.elems, cmp, versus, f, li, v0.elems[p])
    ensures Above(l.view.elems, cmp, versus, ri + 1, t, v0.elems[p])
  {
  }

  /** One round of the first loop. */
  method MeetStep(l: List, ghost v0: View, cmp: Comparator, versus: int, left0: Entry, right0: Entry, pivot: Entry,
                  ghost f: nat, ghost li0: nat, ghost p: nat, ghost ri0: nat, ghost t: nat)
    returns (left: Entry, right: Entry, ghost li: nat, ghost ri: nat)
    requires Meeting(l, v0, cmp, versus, f, li0, p, ri0, t) && li0 < p < ri0
    requires left0 == v0.chain[li0 + 1] && right0 == v0.chain[ri0 + 1] && pivot == v0.chain[p + 1]
    modifies l`view, l.view.owned`data
    ensures Meeting(l, v0, cmp, versus, f, li, p, ri, t) && ri - li < ri0 - li0 && f <= li <= p <= ri < t
    ensures l.view.owned == v0.owned
    ensures left == v0.chain[li + 1] && right == v0.chain[ri + 1]
    ensures (left == pivot <==> li == p) && (right == pivot <==> ri == p)
  {
    hide List.ValidFor, Distinct, Below, Above, Ord, PermWithin;
    Facts(l, cmp, versus, f, t);
    left, li := SeekGreater(l, cmp, versus, left0, pivot, f, li0, p);
    right, ri := SeekSmaller(l, cmp, versus, right0, pivot, ri0, p, t);
    if left != pivot && right != pivot {
      PairInPlace(v0.elems, l.view.elems, cmp, versus, f, li, p, ri, t);
      left, right, li, ri := ExchangePair(l, left, right, pivot, li, p, ri);
    }
  }

  /** Exchanges the data of a misplaced pair and moves both iterators on. */
  method ExchangePair(l: List, left0: Entry, right0: Entry, pivot: Entry, ghost li0: nat, ghost p: nat, ghost ri0: nat)
    returns (left: Entry, right: Entry, ghost li: nat, ghost ri: nat)
    requires l.Valid() && Distinct(l.view.chain) && li0 < p < ri0 < l.numels
    requires left0 == l.view.chain[li0 + 1] && right0 == l.view.chain[ri0 + 1] && pivot == l.view.chain[p + 1]
    modifies l`view, left0`data, right0`data
    ensures l.Valid() && l.view == old(l.view).(elems := Swapped(old(l.view.elems), li0, ri0))
    ensures li == li0 + 1 && ri == ri0 - 1 && left == l.view.chain[li + 1] && right == l.view.chain[ri + 1]
    ensures (left == pivot <==> li == p) && (right == pivot <==> ri == p)
  {
    hide Accounted, Threaded, PoolOk;
    SwapData(l, left0, right0, li0, ri0);
    left := Next(l, left0, li0);
    right := Prev(l, right0, ri0);
    li, ri := li0 + 1, ri0 - 1;
    assert |l.view.chain| == l.numels + 2 by { Facts(l, (x, y) => 0, 0, 0, 0); }
    EndsApart(l.view.chain, li + 1, p + 1, ri + 1);
  }

  lemma EndsApart(c: seq<Entry>, f: nat, p: nat, t: nat)
    requires Distinct(c) && f <= p <= t < |c|
    ensures (c[f] == c[p] <==> f == p) && (c[t] == c[p] <==> t == p)
  {
  }

  lemma Facts(l: List, cmp: Comparator, versus: int, f: nat, t: nat)
    requires l.Valid() && f <= t <= l.numels
    ensures |l.view.chain| == l.numels + 2 && |l.view.elems| == l.numels
    ensures forall i {:trigger l.view.chain[i]} :: 0 <= i < |l.view.chain| ==> l.view.chain[i] in l.view.owned
    ensures PermWithin(l.view.elems, l.view.elems, f, t)
    ensures forall v :: Below(l.view.elems, cmp, versus, f, f, v)
    ensures forall v :: Above(l.view.elems, cmp, versus, t, t, v)
  {
  }

  // ---- the rest of the longer side ----

  /** Only `x..y` is still to be looked at; the rest of the stretch is on its side of the pivot at `p`. */
  ghost predicate Shifting(
    l: List, v0: View, cmp: Comparator, versus: int, f: nat, x: nat, p: nat, y: nat, t: nat, v: Ptr)
    reads l, l.view.owned, l.spareels
  {
    && Rearranged(l, v0, f, t) && f <= x <= p < y <= t <= l.numels && Distinct(v0.chain)
    && l.view.elems[p] == v
    && Below(l.view.elems, cmp, versus, f, x, v) && Above(l.view.elems, cmp, versus, y, t, v)
  }

  /** The data of three places moved round: `i` gets that of `j`, `j` that of `p`, and `p` that of `i`. */
  function Rotated(e: seq<Ptr>, i: nat, j: nat, p: nat): seq<Ptr>
    requires i < |e| && j < |e| && p < |e|
  {
    Swapped(Swapped(e, i, p), i, j)
  }

  lemma AccountedElems(v: View, s: seq<Ptr>)
    requires Accounted(v)
    ensures Accounted(v.(elems := s))
  {
  }

  lemma RotatedAt(e: seq<Ptr>, i: nat, j: nat, p: nat)
    requires i < |e| && j < |e| && p < |e| && i != p && j != p
    ensures var r := Rotated(e, i, j, p);
            && |r| == |e| && r[p] == e[i] && r[j] == e[p] && (i != j ==> r[i] == e[j])
            && (forall k {:trigger r[k]} :: 0 <= k < |e| && k != i && k != j && k != p ==> r[k] == e[k])
  {
  }

  /** The four assignments that move a misplaced element across the pivot and the pivot one place on. */
  method RotateData(l: List, a: Entry, b: Entry, pivot: Entry, ghost i: nat, ghost j: nat, ghost p: nat)
    requires l.Valid() && i < l.numels && j < l.numels && p < l.numels && i != p && j != p
    requires a == l.view.chain[i + 1] && b == l.view.chain[j + 1] && pivot == l.view.chain[p + 1]
    modifies l`view, a`data, b`data, pivot`data
    ensures l.Valid() && l.view == old(l.view).(elems := Rotated(old(l.view.elems), i, j, p))
  {
    hide Accounted, PoolOk, Rotated, Threaded, Distinct;
    ValidDistinct(l);
    AccountedElems(l.view, Rotated(l.view.elems, i, j, p));
    RotatedAt(l.view.elems, i, j, p);
    WriteRound(a, b, pivot, l.view, i, j, p);
    l.view := l.view.(elems := Rotated(l.view.elems, i, j, p));
  }

  method WriteRound(a: Entry, b: Entry, pivot: Entry, ghost w: View, ghost i: nat, ghost j: nat, ghost p: nat)
    requires Threaded(w) && Distinct(w.chain) && i < |w.elems| && j < |w.elems| && p < |w.elems| && i != p && j != p
    requires a == w.chain[i + 1] && b == w.chain[j + 1] && pivot == w.chain[p + 1]
    modifies a`data, b`data, pivot`data
    ensures Threaded(w.(elems := Rotated(w.elems, i, j, p)))
  {
    hide Rotated;
    RotatedAt(w.elems, i, j, p);
    var tmpdata := a.data;
    a.data := b.data;
    b.data := pivot.data;
    pivot.data := tmpdata;
  }

  lemma RotatedPerm(e0: seq<Ptr>, e: seq<Ptr>, i: nat, j: nat, p: nat, f: nat, t: nat)
    requires f <= i < t <= |e| && f <= j < t && f <= p < t && PermWithin(e, e0, f, t)
    ensures PermWithin(Rotated(e, i, j, p), e0, f, t)
  {
    SwapPerm(e, i, p, f, t);
    PermTrans(Swapped(e, i, p), e, e0, f, t);
    SwapPerm(Swapped(e, i, p), i, j, f, t);
    PermTrans(Rotated(e, i, j, p), Swapped(e, i, p), e0, f, t);
  }

  lemma RotatedLeft(e0: seq<Ptr>, e: seq<Ptr>, cmp: Comparator, versus: int, f: nat, x: nat, p: nat, t: nat)
    requires f <= x < p < t <= |e| && PermWithin(e, e0, f, t)
    requires Below(e, cmp, versus, f, x, e[p]) && Above(e, cmp, versus, p + 1, t, e[p])
    requires Ord(cmp, versus, e[x], e[p]) > 0
    ensures var r := Rotated(e, x, p - 1, p);
            && PermWithin(r, e0, f, t) && r[p - 1] == e[p]
            && Below(r, cmp, versus, f, x, e[p]) && Above(r, cmp, versus, p, t, e[p])
  {
    hide Rotated, Ord, PermWithin;
    RotatedPerm(e0, e, x, p - 1, p, f, t);
    RotatedAt(e, x, p - 1, p);
  }

  lemma RotatedRight(e0: seq<Ptr>, e: seq<Ptr>, cmp: Comparator, versus: int, f: nat, p: nat, y: nat, t: nat)
    requires f <= p < y < t <= |e| && PermWithin(e, e0, f, t)
    requires Below(e, cmp, versus, f, p, e[p]) && Above(e, cmp, versus, y + 1, t, e[p])
    requires Ord(cmp, versus, e[y], e[p]) < 0
    ensures var r := Rotated(e, y, p + 1, p);
            && PermWithin(r, e0, f, t) && r[p + 1] == e[p]
            && Below(r, cmp, versus, f, p + 1, e[p]) && Above(r, cmp, versus, y + 1, t, e[p])
  {
    hide Rotated, Ord, PermWithin;
    RotatedPerm(e0, e, y, p + 1, p, f, t);
    RotatedAt(e, y, p + 1, p);
  }

  lemma ShiftFacts(l: List, v0: View, cmp: Comparator, versus: int, f: nat, x: nat, p: nat, y: nat, t: nat, v: Ptr)
    requires Shifting(l, v0, cmp, versus, f, x, p, y, t, v)
    ensures f <= x <= p < y <= t <= l.numels && |v0.chain| == l.numels + 2 && l.view.owned == v0.owned
    ensures l.view.chain == v0.chain
    ensures forall i {:trigger v0.chain[i]} :: 0 <= i < |v0.chain| ==> v0.chain[i] in v0.owned
    ensures v0.chain[x + 1] == v0.chain[p + 1] <==> x == p
    ensures v0.chain[y] == v0.chain[p + 1] <==> y == p + 1
  {
    Facts(l, cmp, versus, f, t);
  }

  /** One round of the loop for a longer left side. */
  method ShiftLeftStep(l: List, ghost v0: View, cmp: Comparator, versus: int, left0: Entry, pivot0: Entry,
                       ghost f: nat, ghost li0: nat, ghost p0: nat, ghost t: nat, ghost v: Ptr)
    returns (left: Entry, pivot: Entry, moved: bool, ghost li: nat, ghost p: nat)
    requires Shifting(l, v0, cmp, versus, f, li0, p0, p0 + 1, t, v) && li0 < p0
    requires p0 + 1 < |v0.chain| && left0 == v0.chain[li0 + 1] && pivot0 == v0.chain[p0 + 1]
    modifies l`view, l.view.owned`data
    ensures Shifting(l, v0, cmp, versus, f, li, p, p + 1, t, v)
    ensures p + 1 < |v0.chain| && li <= p && left == v0.chain[li + 1] && pivot == v0.chain[p + 1]
    ensures if moved then li == li0 && p == p0 - 1 else li == li0 + 1 && p == p0
  {
    hide List.ValidFor, Distinct, Below, Above, Ord, PermWithin;
    ShiftFacts(l, v0, cmp, versus, f, li0, p0, p0 + 1, t, v);
    left, pivot, moved, li, p := left0, pivot0, false, li0, p0;
    var c := Compare(l, cmp, versus, left, pivot, li0, p0);
    if c > 0 {
      RotatedLeft(v0.elems, l.view.elems, cmp, versus, f, li0, p0, t);
      var b := Prev(l, pivot, p0);
      RotateData(l, left, b, pivot, li0, p0 - 1, p0);
      pivot, p, moved := b, p0 - 1, true;
    } else {
      BelowMore(l.view.elems, cmp, versus, f, li0, v);
      left := Next(l, left, li0);
      li := li0 + 1;
    }
  }

  lemma BelowMore(e: seq<Ptr>, cmp: Comparator, versus: int, f: nat, x: nat, v: Ptr)
    requires x < |e| && Below(e, cmp, versus, f, x, v) && Ord(cmp, versus, e[x], v) <= 0
    ensures Below(e, cmp, versus, f, x + 1, v)
  {
  }

  lemma AboveMore(e: seq<Ptr>, cmp: Comparator, versus: int, y: nat, t: nat, v: Ptr)
    requires y < t <= |e| && Above(e, cmp, versus, y + 1, t, v) && Ord(cmp, versus, e[y], v) >= 0
    ensures Above(e, cmp, versus, y, t, v)
  {
  }

  /** The loop for a longer left side: the pivot moves left over every greater element. */
  method ShiftLeft(l: List, ghost v0: View, cmp: Comparator, versus: int, left0: Entry, pivot0: Entry, pivotid0: int,
                   ghost f: nat, ghost li0: nat, ghost p0: nat, ghost t: nat, ghost v: Ptr)
    returns (pivot: Entry, pivotid: int, ghost p: nat)
    requires Shifting(l, v0, cmp, versus, f, li0, p0, p0 + 1, t, v) && li0 <= p0
    requires p0 + 1 < |v0.chain| && left0 == v0.chain[li0 + 1] && pivot0 == v0.chain[p0 + 1]
    modifies l`view, l.view.owned`data
    ensures p + 1 < |v0.chain| && pivot == v0.chain[p + 1] && pivotid - pivotid0 == p - p0
    ensures Shifting(l, v0, cmp, versus, f, p, p, p + 1, t, v)
  {
    hide Shifting;
    ShiftFacts(l, v0, cmp, versus, f, li0, p0, p0 + 1, t, v);
    var left, moved := left0, false;
    ghost var li: nat := li0;
    pivot, pivotid, p := pivot0, pivotid0, p0;
    while left != pivot
      invariant Shifting(l, v0, cmp, versus, f, li, p, p + 1, t, v) && l.view.owned == v0.owned
      invariant li <= p && p + 1 < |v0.chain| && left == v0.chain[li + 1] && pivot == v0.chain[p + 1]
      invariant pivotid - pivotid0 == p - p0
      decreases p - li
    {
      ShiftFacts(l, v0, cmp, versus, f, li, p, p + 1, t, v);
      left, pivot, moved, li, p := ShiftLeftStep(l, v0, cmp, versus, left, pivot, f, li, p, t, v);
      if moved { pivotid := pivotid - 1; }
      ShiftFacts(l, v0, cmp, versus, f, li, p, p + 1, t, v);
    }
    ShiftFacts(l, v0, cmp, versus, f, li, p, p + 1, t, v);
  }

  /** One round of the loop for a longer right side. */
  method ShiftRightStep(l: List, ghost v0: View, cmp: Comparator, versus: int, right0: Entry, pivot0: Entry,
                        ghost f: nat, ghost p0: nat, ghost ri0: nat, ghost t: nat, ghost v: Ptr)
    returns (right: Entry, pivot: Entry, moved: bool, ghost p: nat, ghost ri: nat)
    requires Shifting(l, v0, cmp, versus, f, p0, p0, ri0 + 1, t, v) && p0 < ri0
    requires ri0 + 1 < |v0.chain| && right0 == v0.chain[ri0 + 1] && pivot0 == v0.chain[p0 + 1]
    modifies l`view, l.view.owned`data
    ensures Shifting(l, v0, cmp, versus, f, p, p, ri + 1, t, v)
    ensures ri + 1 < |v0.chain| && p <= ri && right == v0.chain[ri + 1] && pivot == v0.chain[p + 1]
    ensures if moved then ri == ri0 && p == p0 + 1 else ri == ri0 - 1 && p == p0
  {
    hide List.ValidFor, Distinct, Below, Above, Ord, PermWithin;
    ShiftFacts(l, v0, cmp, versus, f, p0, p0, ri0 + 1, t, v);
    right, pivot, moved, p, ri := right0, pivot0, false, p0, ri0;
    var c := Compare(l, cmp, versus, right, pivot, ri0, p0);
    if c < 0 {
      RotatedRight(v0.elems, l.view.elems, cmp, versus, f, p0, ri0, t);
      var b := Next(l, pivot, p0);
      RotateData(l, right, b, pivot, ri0, p0 + 1, p0);
      pivot, p, moved := b, p0 + 1, true;
    } else {
      AboveMore(l.view.elems, cmp, versus, ri0, t, v);
      right := Prev(l, right, ri0);
      ri := ri0 - 1;
    }
  }

  /** The loop for a longer right side: the pivot moves right over every smaller element. */
  method ShiftRight(l: List, ghost v0: View, cmp: Comparator, versus: int, right0: Entry, pivot0: Entry, pivotid0: int,
                    ghost f: nat, ghost p0: nat, ghost ri0: nat, ghost t: nat, ghost v: Ptr)
    returns (pivot: Entry, pivotid: int, ghost p: nat)
    requires Shifting(l, v0, cmp, versus, f, p0, p0, ri0 + 1, t, v) && p0 <= ri0
    requires ri0 + 1 < |v0.chain| && right0 == v0.chain[ri0 + 1] && pivot0 == v0.chain[p0 + 1]
    modifies l`view, l.view.owned`data
    ensures p + 1 < |v0.chain| && pivot == v0.chain[p + 1] && pivotid - pivotid0 == p - p0
    ensures Shifting(l, v0, cmp, versus, f, p, p, p + 1, t, v)
  {
    hide Shifting;
    ShiftFacts(l, v0, cmp, versus, f, p0, p0, ri0 + 1, t, v);
    var right, moved := right0, false;
    ghost var ri: nat := ri0;
    pivot, pivotid, p := pivot0, pivotid0, p0;
    while right != pivot
      invariant Shifting(l, v0, cmp, versus, f, p, p, ri + 1, t, v) && l.view.owned == v0.owned
      invariant p <= ri && ri + 1 < |v0.chain| && right == v0.chain[ri + 1] && pivot == v0.chain[p + 1]
      invariant pivotid - pivotid0 == p - p0
      decreases ri - p
    {
      ShiftFacts(l, v0, cmp, versus, f, p, p, ri + 1, t, v);
      right, pivot, moved, p, ri := ShiftRightStep(l, v0, cmp, versus, right, pivot, f, p, ri, t, v);
      if moved { pivotid := pivotid + 1; }
      ShiftFacts(l, v0, cmp, versus, f, p, p, ri + 1, t, v);
    }
    ShiftFacts(l, v0, cmp, versus, f, p, p, ri + 1, t, v);
  }

  /** The partition of list_sort_quicksort around a given pivot. */
  method Partition(l: List, cmp: Comparator, versus: int, fel: Entry, lel: Entry, pivot0: Entry, pivotid0: int,
                   ghost f: nat, ghost p0: nat, ghost t: nat)
    returns (pivot: Entry, pivotid: int, ghost p: nat)
    requires l.Valid() && f <= p0 < t <= l.numels
    requires fel == l.view.chain[f + 1] && lel == l.view.chain[t] && pivot0 == l.view.chain[p0 + 1]
    modifies l`view, l.view.owned`data
    ensures Rearranged(l, old(l.view), f, t)
    ensures f <= p < t && pivot == l.view.chain[p + 1] && pivotid - pivotid0 == p - p0
    ensures Parted(l.view.elems, cmp, versus, f, p, t)
  {
    hide Linked, Holds, PoolOk, Below, Above, Ord, PermWithin;
    ghost var v0, v := l.view, l.view.elems[p0];
    Facts(l, cmp, versus, f, t);
    ChainDistinct(l.view);
    var left, right, li, ri := MeetAtPivot(l, cmp, versus, fel, lel, pivot0, f, p0, t);
    if right == pivot0 {
      pivot, pivotid, p := ShiftLeft(l, v0, cmp, versus, left, pivot0, pivotid0, f, li, p0, t, v);
    } else {
      pivot, pivotid, p := ShiftRight(l, v0, cmp, versus, right, pivot0, pivotid0, f, p0, ri, t, v);
    }
  }

  // ---- selection sort and quicksort ----

  /** The stretch up to `u` is sorted, and nothing behind it is smaller. */
  ghost predicate Selected(e: seq<Ptr>, cmp: Comparator, versus: int, f: nat, u: nat, t: nat)
    requires f <= u <= t <= |e|
  {
    && SortedWithin(e, cmp, versus, f, u)
    && (forall i, k {:trigger e[i], e[k]} :: f <= i < u <= k < t ==> Ord(cmp, versus, e[i], e[k]) <= 0)
  }

  ghost predicate Least(e: seq<Ptr>, cmp: Comparator, versus: int, m: nat, u: nat, t: nat)
    requires m < |e| && t <= |e|
  {
    forall k {:trigger e[k]} :: u <= k < t ==> Ord(cmp, versus, e[m], e[k]) <= 0
  }

  lemma SelectedMore(e0: seq<Ptr>, e: seq<Ptr>, cmp: Comparator, versus: int, f: nat, u: nat, m: nat, t: nat)
    requires f <= u <= m < t <= |e| && Selected(e, cmp, versus, f, u, t) && Least(e, cmp, versus, m, u, t)
    requires PermWithin(e, e0, f, t)
    ensures Selected(Swapped(e, u, m), cmp, versus, f, u + 1, t) && PermWithin(Swapped(e, u, m), e0, f, t)
    ensures |Swapped(e, u, m)| == |e| && (u == m ==> Swapped(e, u, m) == e)
  {
    SwapPerm(e, u, m, f, t);
    PermTrans(Swapped(e, u, m), e, e0, f, t);
  }

  lemma LeastMore(e: seq<Ptr>, cmp: Comparator, versus: int, m: nat, u: nat, k: nat)
    requires Consistent(cmp) && u <= m < k < |e| && Least(e, cmp, versus, m, u, k)
    ensures if Ord(cmp, versus, e[m], e[k]) > 0 then Least(e, cmp, versus, k, u, k + 1)
            else Least(e, cmp, versus, m, u, k + 1)
  {
    if Ord(cmp, versus, e[m], e[k]) > 0 {
      OrdFlip(cmp, versus, e[m], e[k]);
      OrdFlip(cmp, versus, e[k], e[k]);
      forall j | u <= j < k ensures Ord(cmp, versus, e[k], e[j]) <= 0 {
        OrdTrans(cmp, versus, e[k], e[m], e[j]);
      }
    }
  }

  /** The inner loop: the entry with the least data from `firstunsorted` to `lel`. */
  method FindLeast(
    l: List, cmp: Comparator, versus: int, firstunsorted: Entry, lel: Entry, ghost u: nat, ghost last: nat)
    returns (toswap: Entry, ghost m: nat)
    requires l.Valid() && Consistent(cmp) && u < last < l.numels
    requires firstunsorted == l.view.chain[u + 1] && lel == l.view.chain[last + 1]
    ensures u <= m <= last && toswap == l.view.chain[m + 1] && (toswap == firstunsorted <==> m == u)
    ensures Least(l.view.elems, cmp, versus, m, u, last + 1)
  {
    hide List.ValidFor, Ord, Consistent, Least;
    Facts(l, cmp, versus, u, last);
    ghost var c := l.view.chain;
    assert Distinct(c) by { ValidDistinct(l); }
    toswap, m := firstunsorted, u;
    var cursor := Next(l, firstunsorted, u);
    var stop := Next(l, lel, last);
    ghost var k := u + 1;
    LeastStart(l.view.elems, cmp, versus, u);
    while cursor != stop
      invariant u <= m < k <= last + 1 && toswap == c[m + 1] && cursor == c[k + 1]
      invariant Least(l.view.elems, cmp, versus, m, u, k)
      decreases last + 1 - k
    {
      var r := Compare(l, cmp, versus, toswap, cursor, m, k);
      LeastMore(l.view.elems, cmp, versus, m, u, k);
      if r > 0 { toswap, m := cursor, k; }
      cursor := Next(l, cursor, k);
      k := k + 1;
    }
    EndsApart(c, u + 1, u + 1, m + 1);
  }

  lemma LeastStart(e: seq<Ptr>, cmp: Comparator, versus: int, u: nat)
    requires Consistent(cmp) && u < |e|
    ensures Least(e, cmp, versus, u, u, u + 1)
  {
    OrdFlip(cmp, versus, e[u], e[u]);
  }

  lemma ValidDistinct(l: List)
    requires l.Valid()
    ensures Distinct(l.view.chain)
  {
  }

  ghost predicate Selecting(l: List, v0: View, cmp: Comparator, versus: int, f: nat, u: nat, t: nat)
    reads l, l.view.owned, l.spareels
  {
    && f <= u <= t <= l.numels && Rearranged(l, v0, f, t) && Selected(l.view.elems, cmp, versus, f, u, t)
  }

  lemma SelectStart(l: List, cmp: Comparator, versus: int, f: nat, t: nat)
    requires l.Valid() && f <= t <= l.numels
    ensures Selecting(l, l.view, cmp, versus, f, f, t)
  {
  }

  lemma SelectFacts(l: List, v0: View, cmp: Comparator, versus: int, f: nat, u: nat, last: nat)
    requires Selecting(l, v0, cmp, versus, f, u, last + 1) && u <= last
    ensures l.Valid() && l.view.owned == v0.owned && l.view.chain == v0.chain && |v0.chain| == l.numels + 2
    ensures last < l.numels
    ensures v0.chain[u + 1] == v0.chain[last + 1] <==> u == last
    ensures u == last ==> Rearranged(l, v0, f, last + 1) && SortedWithin(l.view.elems, cmp, versus, f, last + 1)
  {
    EndsApart(v0.chain, u + 1, u + 1, last + 1);
  }

  /** One round of the selection sort. */
  method SelectStep(l: List, ghost v0: View, cmp: Comparator, versus: int, firstunsorted: Entry, lel: Entry,
                    ghost f: nat, ghost u: nat, ghost last: nat) returns (n: Entry)
    requires Consistent(cmp) && u < last && Selecting(l, v0, cmp, versus, f, u, last + 1)
    requires |v0.chain| == l.numels + 2 && firstunsorted == v0.chain[u + 1] && lel == v0.chain[last + 1]
    modifies l`view, l.view.owned`data
    ensures Selecting(l, v0, cmp, versus, f, u + 1, last + 1) && n == v0.chain[u + 2]
  {
    hide List.ValidFor, Selected, Least, Ord, PermWithin, Consistent, Distinct, Swapped;
    Facts(l, cmp, versus, f, last + 1);
    ghost var e := l.view.elems;
    var toswap, m := FindLeast(l, cmp, versus, firstunsorted, lel, u, last);
    SelectedMore(v0.elems, e, cmp, versus, f, u, m, last + 1);
    if toswap != firstunsorted {
      SwapData(l, firstunsorted, toswap, u, m);
    }
    n := Next(l, firstunsorted, u);
  }

  /** list_sort_selectionsort on the entries from `fel` to `lel`. */
  method SelectionSort(l: List, cmp: Comparator, versus: int, first: nat, fel: Entry, last: nat, lel: Entry)
    requires l.Valid() && Consistent(cmp) && first <= last < l.numels
    requires fel == l.view.chain[first + 1] && lel == l.view.chain[last + 1]
    modifies l`view, l.view.owned`data
    ensures Rearranged(l, old(l.view), first, last + 1) && SortedWithin(l.view.elems, cmp, versus, first, last + 1)
  {
    hide List.ValidFor, PermWithin, Consistent, Selecting, Rearranged;
    ghost var v0, u: nat := l.view, first;
    Facts(l, cmp, versus, first, last + 1);
    SelectStart(l, cmp, versus, first, last + 1);
    SelectFacts(l, v0, cmp, versus, first, u, last);
    if last <= first {
      return;
    }
    var firstunsorted := fel;
    while firstunsorted != lel
      invariant first <= u <= last && firstunsorted == v0.chain[u + 1] && l.view.owned == v0.owned
      invariant Selecting(l, v0, cmp, versus, first, u, last + 1)
      decreases last - u
    {
      SelectFacts(l, v0, cmp, versus, first, u, last);
      firstunsorted := SelectStep(l, v0, cmp, versus, firstunsorted, lel, first, u, last);
      u := u + 1;
      SelectFacts(l, v0, cmp, versus, first, u, last);
    }
    SelectFacts(l, v0, cmp, versus, first, u, last);
  }

  /** The walk to the pivot, from whichever end of the stretch is nearer. */
  method FindPivot(l: List, fel: Entry, lel: Entry, first: nat, last: nat, pivotid: nat) returns (pivot: Entry)
    requires l.Valid() && first + pivotid <= last < l.numels
    requires fel == l.view.chain[first + 1] && lel == l.view.chain[last + 1]
    ensures pivot == l.view.chain[first + pivotid + 1]
  {
    if pivotid < (last - first + 1) / 2 {
      var i := 0;
      pivot := fel;
      while i < pivotid
        invariant 0 <= i <= pivotid && pivot == l.view.chain[first + i + 1]
      {
        pivot := Next(l, pivot, first + i);
        i := i + 1;
      }
    } else {
      var i := last - first;
      pivot := lel;
      while i > pivotid
        invariant pivotid <= i <= last - first && pivot == l.view.chain[first + i + 1]
      {
        pivot := Prev(l, pivot, first + i);
        i := i - 1;
      }
    }
  }

  /** list_sort_quicksort, for whatever pivot the random number generator picks. */
  method QuickSort(l: List, cmp: Comparator, versus: int, first: nat, fel: Entry, last: nat, lel: Entry)
    requires l.Valid() && Consistent(cmp) && first <= last < l.numels
    requires fel == l.view.chain[first + 1] && lel == l.view.chain[last + 1]
    modifies l`view, l.view.owned`data
    ensures Rearranged(l, old(l.view), first, last + 1) && SortedWithin(l.view.elems, cmp, versus, first, last + 1)
    decreases last - first
  {
    hide List.ValidFor, PermWithin, Consistent, Parted, SortedWithin;
    if last <= first || last - first + 1 <= MINQUICKSORTELS {
      SelectionSort(l, cmp, versus, first, fel, last, lel);
      return;
    }
    Facts(l, cmp, versus, first, last + 1);
    var pivotid0: nat :| pivotid0 < last - first + 1;
    var pivot0 := FindPivot(l, fel, lel, first, last, pivotid0);
    var pivot, pivotid, p := Partition(l, cmp, versus, fel, lel, pivot0, pivotid0, first, first + pivotid0, last + 1);
    ghost var e := l.view.elems;
    SortSides(l, cmp, versus, first, fel, last, lel, pivot, pivotid);
    PermTrans(l.view.elems, e, old(l.view.elems), first, last + 1);
  }

  /** The two recursive calls, on the entries before and behind the pivot. */
  method SortSides(
    l: List, cmp: Comparator, versus: int, first: nat, fel: Entry, last: nat, lel: Entry, pivot: Entry, pivotid: nat)
    requires l.Valid() && Consistent(cmp) && first + pivotid <= last < l.numels
    requires fel == l.view.chain[first + 1] && lel == l.view.chain[last + 1]
    requires pivot == l.view.chain[first + pivotid + 1]
    requires |l.view.elems| == l.numels && Parted(l.view.elems, cmp, versus, first, first + pivotid, last + 1)
    modifies l`view, l.view.owned`data
    ensures Rearranged(l, old(l.view), first, last + 1) && SortedWithin(l.view.elems, cmp, versus, first, last + 1)
    decreases last - first, 0
  {
    hide List.ValidFor, PermWithin, Consistent, Parted, SortedWithin;
    ghost var e0 := l.view.elems;
    Facts(l, cmp, versus, first, last + 1);
    Trivial(e0, cmp, versus, first);
    if pivotid > 0 {
      var before := Prev(l, pivot, first + pivotid);
      QuickSort(l, cmp, versus, first, fel, first + pivotid - 1, before);
    }
    ghost var e1 := l.view.elems;
    Trivial(e1, cmp, versus, last + 1);
    if first + pivotid < last {
      var behind := Next(l, pivot, first + pivotid);
      QuickSort(l, cmp, versus, first + pivotid + 1, behind, last, lel);
    }
    SortedAround(e0, e1, l.view.elems, cmp, versus, first, first + pivotid, last + 1);
  }

  lemma Trivial(e: seq<Ptr>, cmp: Comparator, versus: int, f: nat)
    requires f <= |e|
    ensures PermWithin(e, e, f, f) && SortedWithin(e, cmp, versus, f, f)
  {
  }

  /** list_sort: refused during an iteration or without a comparator. */
  method Sort(l: List, comparator: Option<Comparator>, versus: int) returns (r: Status)
    requires l.Valid() && (comparator.Some? ==> Consistent(comparator.value))
    modifies l`view, l.view.owned`data
    ensures l.Valid() && l.view == old(l.view).(elems := l.view.elems)
    ensures multiset(l.view.elems) == multiset(old(l.view.elems))
    ensures r == if l.iterActive || comparator.None? then Refused else Done
    ensures r == Refused ==> l.view == old(l.view)
    ensures r == Done ==> SortedWithin(l.view.elems, comparator.value, versus, 0, |l.view.elems|)
  {
    if l.iterActive || comparator.None? {
      return Refused;
    }
    if l.numels <= 1 {
      return Done;
    }
    var fel := l.headSentinel.next;
    var lel := l.tailSentinel.prev;
    QuickSort(l, comparator.value, versus, 0, fel, l.numels - 1, lel);
    return Done;
  }
}
