/** The doubly linked list of simclist.c: two sentinels, a cached middle entry, and a pool of
    at most five spare entries.  Entries are heap objects; the ghost field `chain` lists them
    from the head sentinel to the tail sentinel. */
module SimCList {
  import opened Sequences

  /** A user's `void *`, as an address; NULL is zero. */
  type Ptr = int
  const NULL: Ptr := 0

  const MAX_SPARE_ELEMS := 5

  class Entry {
    var data: Ptr
    var next: Entry?
    var prev: Entry?

    constructor ()
      ensures next == null && prev == null && data == NULL
    {
      data, next, prev := NULL, null, null;
    }
  }

  /** What a call reports: carried out, refused with -1, or a NULL pointer dereference. */
  datatype Status = Done | Refused | Fault

  /** `c` runs from an entry without predecessor to one without successor, and the links between
      neighbours are mutually inverse. */
  ghost predicate Linked(c: seq<Entry>, r: set<Entry>)
    reads r
  {
    && |c| >= 2 && (forall i {:trigger c[i]} :: 0 <= i < |c| ==> c[i] in r)
    && c[0].prev == null && c[|c| - 1].next == null
    && (forall i {:trigger c[i].next} :: 0 <= i < |c| - 1 ==> c[i].next == c[i + 1])
    && (forall i {:trigger c[i].prev} :: 0 < i < |c| ==> c[i].prev == c[i - 1])
  }

  /** The entries between the sentinels hold `s`. */
  ghost predicate Holds(c: seq<Entry>, s: seq<Ptr>, r: set<Entry>)
    requires forall i {:trigger c[i]} :: 0 <= i < |c| ==> c[i] in r
    reads r
  {
    |c| == |s| + 2 && forall i {:trigger s[i]} :: 0 <= i < |s| ==> c[i + 1].data == s[i]
  }

  /** The entries are linked in chain order and hold the elements. */
  ghost predicate Threaded(v: View)
    reads v.owned
  {
    Linked(v.chain, v.owned) && Holds(v.chain, v.elems, v.owned)
  }

  /** The first slots of the spare array hold the entries of `pool`. */
  ghost predicate PoolOk(sp: array<Entry?>, k: nat, pool: seq<Entry>)
    reads sp
  {
    && sp.Length == MAX_SPARE_ELEMS && k == |pool| <= MAX_SPARE_ELEMS
    && (forall i {:trigger sp[i]} :: 0 <= i < k ==> sp[i] == pool[i])
  }

  /** What a list stands for. */
  datatype View = View(
    chain: seq<Entry>,   // head sentinel, the elements in order, tail sentinel
    elems: seq<Ptr>,     // the user data, in list order
    pool: seq<Entry>,    // the spare entries, the next one to be reused last
    freed: seq<Entry>,   // the entries given back with free(), in that order
    owned: set<Entry>)   // every entry obtained with malloc()

  /** Every entry ever obtained is in exactly one place: in the chain, spare, or freed. */
  ghost predicate Accounted(v: View) {
    && (forall i {:trigger v.chain[i]} :: 0 <= i < |v.chain| ==> v.chain[i] in v.owned)
    && (forall i {:trigger v.pool[i]} :: 0 <= i < |v.pool| ==> v.pool[i] in v.owned)
    && (forall i {:trigger v.freed[i]} :: 0 <= i < |v.freed| ==> v.freed[i] in v.owned)
    && Distinct(v.chain) && Distinct(v.pool) && Distinct(v.freed)
    && Apart(v.chain, v.pool) && Apart(v.chain, v.freed) && Apart(v.pool, v.freed)
    && |v.owned| == |v.chain| + |v.pool| + |v.freed|
  }

  /** Position of the cached middle entry among `n` elements. */
  function MidPos(n: nat): nat
    requires n > 0
  {
    (n - 1) / 2
  }

  ghost function MidOf(c: seq<Entry>): Entry?
    requires |c| >= 2
  {
    if |c| == 2 then null else c[MidPos(|c| - 2) + 1]
  }

  class List {
    var headSentinel: Entry
    var tailSentinel: Entry
    var mid: Entry?
    var numels: nat
    var spareels: array<Entry?>
    var spareelsnum: nat
    var iterActive: bool

    ghost var view: View

    /** What list_repOk checks, together with the ownership facts the C code relies on. */
    ghost predicate Valid()
      reads this, view.owned, spareels
    {
      ValidFor(numels)
    }

    ghost predicate ValidFor(n: nat)
      reads this, view.owned, spareels
    {
      && Threaded(view) && |view.elems| == n
      && headSentinel == view.chain[0] && tailSentinel == view.chain[n + 1]
      && mid == MidOf(view.chain)
      && PoolOk(spareels, spareelsnum, view.pool)
      && Accounted(view)
    }

    constructor Init()
      ensures Valid() && view.elems == [] && view.pool == [] && view.freed == [] && !iterActive
      ensures fresh(view.owned) && fresh(spareels)
      ensures view.chain == [headSentinel, tailSentinel] && view.owned == {headSentinel, tailSentinel}
      ensures headSentinel != tailSentinel
      ensures headSentinel.prev == null && tailSentinel.next == null
    {
      var h := new Entry();
      var t := new Entry();
      headSentinel, tailSentinel, mid, numels := h, t, null, 0;
      spareels := new Entry?[MAX_SPARE_ELEMS](_ => null);
      spareelsnum, iterActive := 0, false;
      view := View([h, t], [], [], [], {h, t});
      new;
      headSentinel.next := tailSentinel;
      tailSentinel.prev := headSentinel;
    }

    /** list_findpos: walks from the head sentinel, the middle or the tail sentinel, whichever
        quarter `posstart` falls in; -1 and numels give the sentinels. */
    method FindPos(posstart: int) returns (ptr: Entry?)
      requires Valid()
      ensures ptr == if -1 <= posstart <= numels then view.chain[posstart + 1] else null
    {
      if posstart < -1 || posstart > numels {
        return null;
      }
      if numels > 0 && 4 * (posstart + 1) <= numels {
        var i := -1;
        ptr := headSentinel;
        while i < posstart
          invariant -1 <= i <= posstart && ptr == view.chain[i + 1]
        {
          ptr, i := ptr.next, i + 1;
        }
      } else if numels > 0 && 2 * (posstart + 1) < numels {
        var i := (numels - 1) / 2;
        ptr := mid;
        while i > posstart
          invariant posstart <= i <= numels && ptr == view.chain[i + 1]
        {
          ptr, i := ptr.prev, i - 1;
        }
      } else if numels > 0 && 4 * (posstart + 1) <= 3 * numels {
        var i := (numels - 1) / 2;
        ptr := mid;
        while i < posstart
          invariant 0 <= i <= posstart && ptr == view.chain[i + 1]
        {
          ptr, i := ptr.next, i + 1;
        }
      } else {
        var i: int := numels;
        ptr := tailSentinel;
        while i > posstart
          invariant posstart <= i <= numels && ptr == view.chain[i + 1]
        {
          ptr, i := ptr.prev, i - 1;
        }
      }
    }

    /** The entry list_insert_at starts from: the last spare if there is one, else a new one. */
    method TakeEntry(data: Ptr) returns (lent: Entry)
      requires Valid()
      modifies this`spareelsnum, this`view, view.owned`data
      ensures Valid() && lent !in view.owned && lent.data == data
      ensures old(|view.pool|) > 0 ==>
                && lent == old(view.pool[|view.pool| - 1])
                && view == old(view).(pool := old(view.pool[..|view.pool| - 1]), owned := old(view.owned) - {lent})
      ensures old(|view.pool|) == 0 ==> fresh(lent) && view == old(view)
    {
      if spareelsnum > 0 {
        lent := spareels[spareelsnum - 1];
        spareelsnum := spareelsnum - 1;
        view := view.(pool := view.pool[..spareelsnum], owned := view.owned - {lent});
      } else {
        lent := new Entry();
      }
      lent.data := data;
    }

    /** list_insert_at: puts `data` before position `pos`, reusing the last spare entry if there is one. */
    method InsertAt(data: Ptr, pos: nat) returns (r: Status)
      requires Valid()
      modifies this, view.owned
      ensures Valid() && spareels == old(spareels) && iterActive == old(iterActive) && view.freed == old(view.freed)
      ensures r == if old(iterActive) || pos > old(numels) then Refused else Done
      ensures r == Refused ==> view == old(view)
      ensures r == Done ==>
                && IsInserted(view.elems, old(view.elems), pos, data)
                && IsInserted(view.chain, old(view.chain), pos + 1, view.chain[pos + 1])
      ensures r == Done && old(|view.pool|) > 0 ==>
                && view.owned == old(view.owned) && view.chain[pos + 1] == old(view.pool[|view.pool| - 1])
                && view.pool == old(view.pool[..|view.pool| - 1])
      ensures r == Done && old(|view.pool|) == 0 ==>
                && fresh(view.chain[pos + 1]) && view.owned == old(view.owned) + {view.chain[pos + 1]}
                && view.pool == []
    {
      if iterActive || pos > numels {
        return Refused;
      }
      var lent := TakeEntry(data);
      Place(lent, pos);
      return Done;
    }

    /** Hooks `lent` in before position `pos` and fixes the middle. */
    method Place(lent: Entry, pos: nat)
      requires Valid() && pos <= numels && lent !in view.owned
      modifies this, view.owned, lent
      ensures Valid() && spareels == old(spareels) && iterActive == old(iterActive)
      ensures view == old(view).(chain := view.chain, elems := view.elems, owned := old(view.owned) + {lent})
      ensures lent.data == old(lent.data)
      ensures IsInserted(view.chain, old(view.chain), pos + 1, lent)
      ensures IsInserted(view.elems, old(view.elems), pos, lent.data)
    {
      var prec := FindPos(pos - 1);
      var succ := prec.next;
      ghost var w := ViewInserted(view, pos, lent);
      LinkBetween(prec, lent, succ, view, pos, w);
      CountIn(lent, pos, w);
    }

    /** Counts the new entry and moves the middle. */
    method CountIn(lent: Entry, pos: nat, ghost w: View)
      requires Threaded(w) && Accounted(w) && PoolOk(spareels, spareelsnum, w.pool)
      requires |view.elems| == numels && |view.chain| == numels + 2 && IsInserted(w.chain, view.chain, pos + 1, lent)
      requires |w.elems| == numels + 1
      requires mid == MidOf(view.chain) && headSentinel == view.chain[0] && tailSentinel == view.chain[numels + 1]
      requires pos <= numels
      modifies this`numels, this`mid, this`view
      ensures Valid() && view == w
    {
      numels := numels + 1;
      mid := MidAfterInsert(mid, lent, numels, pos, view.chain, w);
      view := w;
    }

    /** Keeps an unhooked entry as a spare while there is room, otherwise frees it. */
    method Discard(e: Entry, ghost pool: seq<Entry>) returns (ghost spared: seq<Entry>)
      requires PoolOk(spareels, spareelsnum, pool)
      modifies this`spareelsnum, spareels
      ensures PoolOk(spareels, spareelsnum, spared)
      ensures spared == if |pool| < MAX_SPARE_ELEMS then pool + [e] else pool
    {
      if spareelsnum < MAX_SPARE_ELEMS {
        spareels[spareelsnum] := e;
        spareelsnum := spareelsnum + 1;
        spared := pool + [e];
      } else {
        spared := pool;
      }
    }

    /** list_drop_elem: unhooks `tmp`; the caller still has to count it out. */
    method DropElem(tmp: Entry, pos: nat)
      requires Valid() && pos < numels && tmp == view.chain[pos + 1]
      modifies this`mid, this`spareelsnum, this`view, spareels, view.owned
      ensures ValidFor(numels - 1) && IsRetired(view, old(view), pos, pos + 1)
    {
      ghost var w := ViewRetired(view, pos, pos + 1);
      mid := MidAfterDrop(mid, numels, pos, view.chain, w, view.owned);
      UnhookOne(tmp, pos, w);
    }

    method UnhookOne(tmp: Entry, pos: nat, ghost w: View)
      requires Threaded(view) && Distinct(view.chain) && PoolOk(spareels, spareelsnum, view.pool)
      requires |view.elems| == numels > pos && tmp == view.chain[pos + 1]
      requires headSentinel == view.chain[0] && tailSentinel == view.chain[numels + 1]
      requires Accounted(w) && IsRetired(w, view, pos, pos + 1) && mid == MidOf(w.chain)
      modifies this`spareelsnum, this`view, spareels, view.owned
      ensures ValidFor(numels - 1) && view == w
    {
      LinkAcross(tmp.prev, tmp.next, view, pos, pos + 1, w);
      SpareOne(tmp, pos, w);
    }

    method SpareOne(tmp: Entry, pos: nat, ghost w: View)
      requires Threaded(w) && Accounted(w) && PoolOk(spareels, spareelsnum, view.pool)
      requires IsRetired(w, view, pos, pos + 1) && |view.elems| == numels > pos && tmp == view.chain[pos + 1]
      requires headSentinel == w.chain[0] && tailSentinel == w.chain[numels] && mid == MidOf(w.chain)
      modifies this`spareelsnum, this`view, spareels
      ensures ValidFor(numels - 1) && view == w
    {
      ghost var p := Discard(tmp, view.pool);
      view := w;
    }

    /** list_extract_at: takes element `pos` out and returns its data, or NULL if refused. */
    method ExtractAt(pos: nat) returns (data: Ptr)
      requires Valid()
      modifies this, spareels, view.owned
      ensures Valid() && spareels == old(spareels) && iterActive == old(iterActive)
      ensures old(iterActive) || pos >= old(numels) ==> data == NULL && view == old(view)
      ensures !old(iterActive) && pos < old(numels) ==>
                data == old(view.elems[pos]) && IsRetired(view, old(view), pos, pos + 1)
    {
      hide Accounted, Linked, PoolOk, IsRetired;
      InPlace(view);
      if iterActive || pos >= numels {
        return NULL;
      }
      ghost var v := view;
      var tmp := FindPos(pos);
      data := tmp.data;
      Blank(tmp, pos);
      DropElem(tmp, pos);
      numels := numels - 1;
      RetiredBlank(view, v, pos);
    }

    /** Clears the data of the entry that is about to be dropped. */
    method Blank(tmp: Entry, pos: nat)
      requires Valid() && pos < numels && tmp == view.chain[pos + 1]
      modifies this`view, tmp
      ensures Valid() && view == old(view).(elems := old(view.elems)[pos := NULL])
    {
      tmp.data := NULL;
      view := view.(elems := view.elems[pos := NULL]);
    }

    /** list_delete_at. */
    method DeleteAt(pos: nat) returns (r: Status)
      requires Valid()
      modifies this, spareels, view.owned
      ensures Valid() && spareels == old(spareels) && iterActive == old(iterActive)
      ensures r == if old(iterActive) || pos >= old(numels) then Refused else Done
      ensures r == Refused ==> view == old(view)
      ensures r == Done ==> IsRetired(view, old(view), pos, pos + 1)
    {
      if iterActive || pos >= numels {
        return Refused;
      }
      var delendo := FindPos(pos);
      DropElem(delendo, pos);
      numels := numels - 1;
      return Done;
    }

    /** list_delete_range: with 32-bit arithmetic, and reporting the NULL dereference it ends in
        when the range is the whole list. */
    method DeleteRange(posstart: nat, posend: nat) returns (r: Status)
      requires Valid() && numels < 0x7fff_ffff
      modifies this, spareels, view.owned
      ensures r == Refused <==> old(iterActive) || posend < posstart || posend >= old(numels)
      ensures r == Fault <==> !old(iterActive) && posstart == 0 && posend + 1 == old(numels)
      ensures r == Refused ==> Valid() && view == old(view)
      ensures r == Done ==> Valid() && IsRetired(view, old(view), posstart, posend + 1)
      ensures r != Fault ==> spareels == old(spareels) && iterActive == old(iterActive)
    {
      hide Accounted, Linked, Holds, PoolOk, IsRetired, Distinct;
      InPlace(view);
      if iterActive || posend < posstart || posend >= numels {
        return Refused;
      }
      var tmp := FindPos(posstart);
      var lastvalid := PrevOf(tmp, view, posstart + 1);
      var m, fault := MidWithout(posstart, posend);
      if fault {
        return Fault;
      }
      mid := m;
      RemoveRange(lastvalid, tmp, posstart, posend);
      return Done;
    }

    /** The middle once the range is gone, or the dereference of NULL on the way to it. */
    method MidWithout(posstart: nat, posend: nat) returns (m: Entry?, fault: bool)
      requires Valid() && posstart <= posend < numels < 0x7fff_ffff
      ensures fault <==> posstart == 0 && posend + 1 == numels
      ensures !fault ==> m == view.chain[OldPos(MidPos(numels - (posend - posstart + 1)), posstart, posend + 1) + 1]
    {
      var movedx := MidShift(numels, posstart, posend);
      MidShiftFits(numels, posstart, posend);
      m, fault := WalkMid(mid, movedx, view.chain, view.owned, MidPos(numels) + 1);
    }

    method RemoveRange(lastvalid: Entry, first: Entry, posstart: nat, posend: nat)
      requires Threaded(view) && PoolOk(spareels, spareelsnum, view.pool)
      requires |view.elems| == numels > posend >= posstart && lastvalid == view.chain[posstart]
      requires first == view.chain[posstart + 1]
      requires headSentinel == view.chain[0] && tailSentinel == view.chain[numels + 1]
      requires Accounted(view) && posend - posstart + 1 < numels
      requires mid == view.chain[OldPos(MidPos(numels - (posend - posstart + 1)), posstart, posend + 1) + 1]
      modifies this`numels, this`view, this`spareelsnum, spareels, view.owned
      ensures Valid() && IsRetired(view, old(view), posstart, posend + 1)
    {
      hide Accounted, Linked, Holds, Threaded, Kept, Distinct;
      InPlace(view);
      ghost var w := ViewRetiredMid(view, posstart, posend + 1);
      var tmp := DiscardRange(first, posstart, posend);
      CloseGap(lastvalid, tmp, posstart, posend, w);
    }

    method CloseGap(lastvalid: Entry, tmp: Entry, posstart: nat, posend: nat, ghost w: View)
      requires Threaded(view) && Distinct(view.chain) && PoolOk(spareels, spareelsnum, w.pool)
      requires |view.elems| == numels > posend >= posstart && lastvalid == view.chain[posstart]
      requires tmp == view.chain[posend + 2]
      requires headSentinel == view.chain[0] && tailSentinel == view.chain[numels + 1]
      requires Accounted(w) && IsRetired(w, view, posstart, posend + 1) && mid == MidOf(w.chain)
      modifies this`numels, this`view, view.owned
      ensures Valid() && view == w
    {
      hide Accounted, PoolOk, Linked, Holds, Kept;
      InPlace(view);
      LinkAcross(lastvalid, tmp, view, posstart, posend + 1, w);
      numels := numels - (posend - posstart + 1);
      view := w;
    }

    /** The loop that keeps or frees the entries of a range; it ends at the entry after them. */
    method DiscardRange(first: Entry, posstart: nat, posend: nat) returns (tmp: Entry)
      requires Threaded(view) && PoolOk(spareels, spareelsnum, view.pool)
      requires posstart <= posend < |view.elems| && first == view.chain[posstart + 1]
      modifies this`spareelsnum, spareels
      ensures PoolOk(spareels, spareelsnum, Kept(view, posstart, posend + 1)) && tmp == view.chain[posend + 2]
    {
      hide Linked, Holds, Threaded, Kept, Room;
      InPlace(view);
      KeptGrows(view, posstart, posstart);
      ghost var v, p := view, view.pool;
      tmp := first;
      var i := posstart;
      while i <= posend
        invariant posstart <= i <= posend + 1 && tmp == v.chain[i + 1] && view == v && Threaded(v)
        invariant PoolOk(spareels, spareelsnum, p) && p == Kept(v, posstart, i)
      {
        var tmp2 := tmp;
        tmp := NextOf(tmp, v, i + 1);
        p := Discard(tmp2, p);
        KeptGrows(v, posstart, i);
        i := i + 1;
      }
    }

    /** list_clear. */
    method Clear() returns (r: Status)
      requires Valid()
      modifies this, spareels, view.owned
      ensures Valid() && spareels == old(spareels) && iterActive == old(iterActive)
      ensures r == if old(iterActive) then Refused else Done
      ensures r == Refused ==> view == old(view)
      ensures r == Done ==> IsRetired(view, old(view), 0, old(numels)) && view.elems == []
    {
      if iterActive {
        return Refused;
      }
      ghost var w := ViewRetired(view, 0, numels);
      SpareAll(w);
      Empty(w);
      return Done;
    }

    /** The two loops of list_clear: keep entries while there is room, free the others. */
    method SpareAll(ghost w: View)
      requires Valid() && IsRetired(w, view, 0, numels)
      modifies this`spareelsnum, spareels
      ensures PoolOk(spareels, spareelsnum, w.pool)
    {
      ghost var v, i := view, 0;
      var s := headSentinel.next;
      while spareelsnum < MAX_SPARE_ELEMS && s != tailSentinel
        invariant 0 <= i <= numels && s == v.chain[i + 1] && view == v && Threaded(v)
        invariant PoolOk(spareels, spareelsnum, v.pool + v.chain[1..1 + i])
        decreases numels - i
      {
        spareels[spareelsnum] := s;
        spareelsnum := spareelsnum + 1;
        s := s.next;
        i := i + 1;
      }
      ghost var k := i;
      while s != tailSentinel
        invariant k <= i <= numels && s == v.chain[i + 1]
        decreases numels - i
      {
        s := s.next;
        i := i + 1;
      }
      assert k == Room(v.pool, numels);
    }

    method Empty(ghost w: View)
      requires Threaded(view) && Distinct(view.chain) && PoolOk(spareels, spareelsnum, w.pool) && |view.elems| == numels
      requires headSentinel == view.chain[0] && tailSentinel == view.chain[numels + 1]
      requires Accounted(w) && IsRetired(w, view, 0, numels)
      modifies this`numels, this`mid, this`view, view.owned
      ensures Valid() && view == w
    {
      LinkAcross(headSentinel, tailSentinel, view, 0, numels, w);
      numels, mid, view := 0, null, w;
    }
  }

  function U32(x: int): nat {
    x % 0x1_0000_0000
  }

  function I32(x: int): int {
    if U32(x) < 0x8000_0000 then U32(x) else U32(x) - 0x1_0000_0000
  }

  /** How far list_delete_range moves the middle, in 32-bit unsigned arithmetic. */
  function MidShift(numels: nat, posstart: nat, posend: nat): int
    requires posstart <= posend < numels
  {
    var numdel := posend - posstart + 1;
    var half := U32(numels - 1 - numdel) / 2;
    var midposafter := if half < posstart then half else U32(half + numdel);
    I32(midposafter - (numels - 1) / 2)
  }

  lemma U32Is(x: int)
    ensures 0 <= x < 0x1_0000_0000 ==> U32(x) == x
    ensures -0x1_0000_0000 <= x < 0 ==> U32(x) == x + 0x1_0000_0000
  {
  }

  /** The shift leads to the entry that is in the middle afterwards, unless nothing is left:
      then it leads past the head sentinel and further. */
  lemma MidShiftFits(numels: nat, posstart: nat, posend: nat)
    requires posstart <= posend < numels < 0x7fff_ffff
    ensures var at := MidPos(numels) + MidShift(numels, posstart, posend);
            if posstart == 0 && posend == numels - 1 then at < -2
            else at == OldPos(MidPos(numels - (posend - posstart + 1)), posstart, posend + 1)
  {
    hide U32;
    var numdel, mid := posend - posstart + 1, MidPos(numels);
    U32Is(numels - 1 - numdel);
    if numdel == numels {
      U32Is(0x7fff_ffff + numdel);
      U32Is(0x7fff_ffff + numdel - mid);
      assert MidShift(numels, posstart, posend) == 0x7fff_ffff + numdel - mid - 0x1_0000_0000;
    } else {
      var half := MidPos(numels - numdel);
      U32Is(half + numdel);
      U32Is(OldPos(half, posstart, posend + 1) - mid);
    }
  }

  /** The loops that move the middle `movedx` entries along; `fault` if that dereferences NULL. */
  method WalkMid(mid: Entry?, movedx: int, ghost c: seq<Entry>, ghost r: set<Entry>, ghost at: nat)
    returns (m: Entry?, fault: bool)
    requires Linked(c, r) && at < |c| && mid == c[at]
    ensures fault <==> at + movedx < -1 || at + movedx > |c|
    ensures 0 <= at + movedx < |c| ==> m == c[at + movedx]
  {
    m, fault := mid, false;
    var i := 0;
    if movedx > 0 {
      while i < movedx
        invariant 0 <= i <= movedx && at + i <= |c| && m == if at + i < |c| then c[at + i] else null
      {
        if m == null { return m, true; }
        m, i := m.next, i + 1;
      }
    } else {
      while i < -movedx
        invariant 0 <= i <= -movedx && -1 <= at - i && m == if at - i >= 0 then c[at - i] else null
      {
        if m == null { return m, true; }
        m, i := m.prev, i + 1;
      }
    }
  }

  lemma InPlace(v: View)
    requires Threaded(v)
    ensures |v.chain| == |v.elems| + 2 && forall i {:trigger v.chain[i]} :: 0 <= i < |v.chain| ==> v.chain[i] in v.owned
  {
  }

  method NextOf(e: Entry, ghost v: View, ghost i: nat) returns (n: Entry)
    requires Threaded(v) && i + 1 < |v.chain| && e == v.chain[i]
    ensures n == v.chain[i + 1]
  {
    n := e.next;
  }

  method PrevOf(e: Entry, ghost v: View, ghost i: nat) returns (n: Entry)
    requires Threaded(v) && 0 < i < |v.chain| && e == v.chain[i]
    ensures n == v.chain[i - 1]
  {
    n := e.prev;
  }

  /** The pool once the elements from `a` to `b - 1` were offered to it in order. */
  ghost function Kept(v: View, a: nat, b: nat): seq<Entry>
    requires a <= b && b + 1 <= |v.chain|
  {
    v.pool + v.chain[a + 1..a + 1 + Room(v.pool, b - a)]
  }

  lemma KeptGrows(v: View, a: nat, b: nat)
    requires a <= b && b + 2 <= |v.chain|
    ensures Kept(v, a, a) == v.pool
    ensures Kept(v, a, b + 1) ==
              if |Kept(v, a, b)| < MAX_SPARE_ELEMS then Kept(v, a, b) + [v.chain[b + 1]] else Kept(v, a, b)
  {
  }

  /** `w` is `v` without the elements from `a` to `b - 1`, whose entries first fill up the pool. */
  ghost predicate IsRetired(w: View, v: View, a: nat, b: nat) {
    && a <= b <= |v.elems| && |v.chain| == |v.elems| + 2
    && IsCut(w.chain, v.chain, a + 1, b + 1) && IsCut(w.elems, v.elems, a, b) && w.owned == v.owned
    && w.pool == Kept(v, a, b) && w.freed == v.freed + v.chain[a + 1 + Room(v.pool, b - a)..b + 1]
  }

  ghost function Room(pool: seq<Entry>, n: nat): (k: nat)
    ensures k <= n
  {
    if |pool| >= MAX_SPARE_ELEMS then 0 else if n <= MAX_SPARE_ELEMS - |pool| then n else MAX_SPARE_ELEMS - |pool|
  }

  /** Overwriting the data that goes away changes nothing. */
  lemma RetiredBlank(w: View, v: View, pos: nat)
    requires pos < |v.elems| && IsRetired(w, v.(elems := v.elems[pos := NULL]), pos, pos + 1)
    ensures IsRetired(w, v, pos, pos + 1)
  {
  }

  lemma ViewRetired(v: View, a: nat, b: nat) returns (w: View)
    requires Accounted(v) && a <= b <= |v.elems| && |v.chain| == |v.elems| + 2
    ensures IsRetired(w, v, a, b) && Accounted(w)
  {
    hide Distinct, Apart;
    var c := Cut(v.chain, a + 1, b + 1);
    var s := Cut(v.elems, a, b);
    var k := a + 1 + Room(v.pool, b - a);
    w := View(c, s, v.pool + v.chain[a + 1..k], v.freed + v.chain[k..b + 1], v.owned);
    RetiredApart(v, c, a + 1, b + 1, k);
  }

  lemma ViewRetiredMid(v: View, a: nat, b: nat) returns (w: View)
    requires Accounted(v) && a < b <= |v.elems| && b - a < |v.elems| && |v.chain| == |v.elems| + 2
    ensures IsRetired(w, v, a, b) && Accounted(w) && Distinct(v.chain)
    ensures MidOf(w.chain) == v.chain[OldPos(MidPos(|v.elems| - (b - a)), a, b) + 1]
  {
    w := ViewRetired(v, a, b);
  }

  lemma RetiredApart(v: View, c: seq<Entry>, a: nat, b: nat, k: nat)
    requires Accounted(v) && a <= k <= b <= |v.chain| && IsCut(c, v.chain, a, b)
    ensures var p, f := v.pool + v.chain[a..k], v.freed + v.chain[k..b];
            Distinct(c) && Distinct(p) && Distinct(f) && Apart(c, p) && Apart(c, f) && Apart(p, f)
  {
    SlicesApart(v.chain, c, a, k, b);
    ApartJoin(v.pool, v.chain, a, k);
    ApartJoin(v.freed, v.chain, k, b);
    ApartOf(c, v.pool, v.chain[a..k]);
    ApartOf(c, v.freed, v.chain[k..b]);
    ApartOf(v.pool + v.chain[a..k], v.freed, v.chain[k..b]);
  }

  /** The middle list_drop_elem moves to, before anything is unhooked. */
  method MidAfterDrop(mid: Entry?, numels: nat, pos: nat, ghost c: seq<Entry>, ghost w: View, ghost r: set<Entry>)
    returns (m: Entry?)
    requires Linked(c, r) && |c| == numels + 2 && pos < numels && mid == MidOf(c)
    requires IsCut(w.chain, c, pos + 1, pos + 2)
    ensures m == MidOf(w.chain)
  {
    m := mid;
    if numels % 2 == 1 {
      if numels == 1 { m := null; }
      else if pos >= numels / 2 { m := m.prev; }
    } else {
      if pos < numels / 2 { m := m.next; }
    }
  }

  /** Where element `i` of a list stood before the elements from `a` to `b - 1` went. */
  function OldPos(i: nat, a: nat, b: nat): nat
    requires a <= b
  {
    if i < a then i else i + (b - a)
  }

  /** The two assignments that skip the elements from `a` to `b - 1`. */
  method LinkAcross(prec: Entry, succ: Entry, ghost v: View, ghost a: nat, ghost b: nat, ghost w: View)
    requires Threaded(v) && Distinct(v.chain)
    requires a <= b <= |v.elems| && v.chain[a] == prec && v.chain[b + 1] == succ
    requires IsCut(w.chain, v.chain, a + 1, b + 1) && IsCut(w.elems, v.elems, a, b) && w.owned == v.owned
    modifies prec`next, succ`prev
    ensures Threaded(w)
  {
    prec.next := succ;
    succ.prev := prec;
  }

  lemma ViewInserted(v: View, pos: nat, e: Entry) returns (w: View)
    requires Accounted(v) && e !in v.owned && pos <= |v.elems| && |v.chain| == |v.elems| + 2
    ensures Accounted(w) && w.pool == v.pool && w.freed == v.freed && w.owned == v.owned + {e} && Distinct(v.chain)
    ensures IsInserted(w.chain, v.chain, pos + 1, e) && IsInserted(w.elems, v.elems, pos, e.data)
  {
    var c := Insert(v.chain, pos + 1, e);
    var s := Insert(v.elems, pos, e.data);
    w := v.(chain := c, elems := s, owned := v.owned + {e});
  }

  /** The middle after list_insert_at, where `numels` already counts the new entry. */
  method MidAfterInsert(mid: Entry?, lent: Entry, numels: nat, pos: nat, ghost c: seq<Entry>, ghost w: View)
    returns (m: Entry?)
    requires Linked(w.chain, w.owned) && IsInserted(w.chain, c, pos + 1, lent)
    requires pos < numels && |w.chain| == numels + 2 && mid == MidOf(c)
    ensures m == MidOf(w.chain)
  {
    ghost var d := w.chain;
    m := mid;
    if numels == 1 {
      m := lent;
    } else if numels % 2 == 1 {
      assert m == if pos >= (numels - 1) / 2 then d[(numels - 1) / 2] else d[(numels - 1) / 2 + 1];
      if pos >= (numels - 1) / 2 { m := m.next; }
    } else {
      assert m == if pos <= (numels - 1) / 2 then d[(numels - 1) / 2 + 2] else d[(numels - 1) / 2 + 1];
      if pos <= (numels - 1) / 2 { m := m.prev; }
    }
  }

  /** The four assignments that hook `e` in before element `pos`; `w` has `e` in place. */
  method LinkBetween(prec: Entry, e: Entry, succ: Entry, ghost v: View, ghost pos: nat, ghost w: View)
    requires Threaded(v) && Distinct(v.chain) && e !in v.owned
    requires pos <= |v.elems| && v.chain[pos] == prec && v.chain[pos + 1] == succ
    requires IsInserted(w.chain, v.chain, pos + 1, e) && IsInserted(w.elems, v.elems, pos, e.data)
    requires w.owned == v.owned + {e}
    modifies prec, e, succ
    ensures Threaded(w) && e.data == old(e.data)
  {
    prec.next := e;
    e.prev := prec;
    e.next := succ;
    succ.prev := e;
  }

  // ---- list_concat ----

  /** How far list_concat moves the middle from the end of the first list's copy. */
  function ConcatShift(n1: nat, n2: nat): int {
    var err := n2 - n1;
    if (err + 1) / 2 > 0 then (err + 1) / 2 else if err < -1 then -(-err / 2) else 0
  }

  /** Like Linked, but with the successor of the last entry still open. */
  ghost predicate Open(c: seq<Entry>, s: seq<Ptr>, r: set<Entry>)
    reads r
  {
    && |c| == |s| + 1 && (forall i {:trigger c[i]} :: 0 <= i < |c| ==> c[i] in r)
    && c[0].prev == null && Distinct(c)
    && (forall i {:trigger c[i].next} :: 0 <= i < |c| - 1 ==> c[i].next == c[i + 1])
    && (forall i {:trigger c[i].prev} :: 0 < i < |c| ==> c[i].prev == c[i - 1])
    && (forall i {:trigger s[i]} :: 0 <= i < |s| ==> c[i + 1].data == s[i])
  }

  /** One round of a copying loop: a new entry after `el`. */
  method AppendCopy(el: Entry, x: Ptr, ghost c: seq<Entry>, ghost s: seq<Ptr>, ghost r: set<Entry>) returns (n: Entry)
    requires Open(c, s, r) && el == c[|c| - 1]
    modifies el`next
    ensures fresh(n) && n !in r && Open(c + [n], s + [x], r + {n})
  {
    n := new Entry();
    el.next := n;
    el.next.prev := el;
    n.data := x;
  }

  /** The loop that copies `src` after `el0`. */
  method CopyAll(el0: Entry, src: List, ghost c0: seq<Entry>, ghost s: seq<Ptr>, ghost r0: set<Entry>)
    returns (el: Entry, ghost c: seq<Entry>, ghost r: set<Entry>)
    requires src.Valid() && Open(c0, s, r0) && el0 == c0[|c0| - 1] && src.view.owned !! r0
    modifies el0`next
    ensures Open(c, s + src.view.elems, r) && el == c[|c| - 1] && c0 <= c && fresh(r - r0) && r0 <= r
    ensures |r| - |r0| == |src.view.elems| && (el == el0 || fresh(el))
  {
    hide Accounted, PoolOk, Open;
    ghost var k, e := 0, src.view.elems;
    InPlace(src.view);
    ChainDistinct(src.view);
    OpenInside(c0, s, r0);
    assert s + e[..0] == s;
    var srcel := NextOf(src.headSentinel, src.view, 0);
    el, c, r := el0, c0, r0;
    while srcel != src.tailSentinel
      invariant 0 <= k <= |e| && srcel == src.view.chain[k + 1]
      invariant Threaded(src.view) && src.view.owned !! r && Distinct(src.view.chain)
      invariant Open(c, s + e[..k], r) && |c| == |c0| + k && el == c[|c| - 1] && c0 <= c
      invariant fresh(r - r0) && r0 <= r && el in r && (el == el0 || fresh(el)) && |r| == |r0| + k
      decreases |e| - k
    {
      var x := DataAt(srcel, src.view, k + 1);
      el := AppendCopy(el, x, c, s + e[..k], r);
      c, r := c + [el], r + {el};
      assert s + e[..k] + [e[k]] == s + e[..k + 1];
      srcel := NextOf(srcel, src.view, k + 1);
      k := k + 1;
    }
    assert e[..k] == e;
  }

  lemma OpenAlone(h: Entry)
    requires h.prev == null
    ensures Open([h], [], {h})
  {
  }

  lemma OpenInside(c: seq<Entry>, s: seq<Ptr>, r: set<Entry>)
    requires Open(c, s, r)
    ensures |c| == |s| + 1 && c[|c| - 1] in r
  {
  }

  lemma ChainDistinct(v: View)
    requires Accounted(v)
    ensures Distinct(v.chain)
  {
  }

  method DataAt(e: Entry, ghost v: View, ghost i: nat) returns (d: Ptr)
    requires Threaded(v) && 0 < i < |v.chain| - 1 && e == v.chain[i]
    ensures d == v.elems[i - 1]
  {
    d := e.data;
    assert v.elems[i - 1] == d;
  }

  /** list_concat, returning the list it initialises; the two sources are left as they are. */
  method Concat(l1: List, l2: List) returns (dest: List)
    requires l1.Valid() && l2.Valid()
    ensures fresh(dest) && fresh(dest.spareels) && fresh(dest.view.owned)
    ensures dest.Valid() && dest.view.elems == l1.view.elems + l2.view.elems && dest.view.pool == []
    ensures dest.view.freed == []
  {
    hide Accounted, Linked, Holds, Distinct, Open;
    dest := new List.Init();
    var n := l1.numels + l2.numels;
    if n == 0 {
      return;
    }
    var el, end, c, r := CopyBoth(dest.headSentinel, l1, l2);
    CloseConcat(dest, el, end, n, l1.numels, c, l1.view.elems + l2.view.elems, r);
  }

  method CopyBoth(h: Entry, l1: List, l2: List)
    returns (el: Entry, end: Entry, ghost c: seq<Entry>, ghost r: set<Entry>)
    requires l1.Valid() && l2.Valid() && h !in l1.view.owned && h !in l2.view.owned && h.prev == null
    modifies h`next
    ensures Open(c, l1.view.elems + l2.view.elems, r) && |r| == |c| && c[0] == h && el == c[l1.numels]
    ensures end == c[|c| - 1]
    ensures fresh(r - {h}) && (end == h || fresh(end)) && h in r
  {
    hide Accounted, Linked, Holds, Distinct, Open;
    OpenAlone(h);
    el, c, r := CopyAll(h, l1, [h], [], {h});
    assert [] + l1.view.elems == l1.view.elems;
    OpenInside(c, l1.view.elems, r);
    end, c, r := CopyAll(el, l2, c, l1.view.elems, r);
    OpenInside(c, l1.view.elems + l2.view.elems, r);
  }

  /** The end of list_concat: hooks in the tail sentinel and corrects the middle. */
  method CloseConcat(
    dest: List, approx: Entry, end: Entry, n: nat, n1: nat, ghost c: seq<Entry>, ghost s: seq<Ptr>, ghost r: set<Entry>)
    requires Open(c, s, r) && |r| == |c| && end == c[|c| - 1] && |s| == n > 0 && n1 <= n && approx == c[n1]
    requires dest.headSentinel == c[0] && dest.tailSentinel !in r && dest.tailSentinel.next == null
    requires PoolOk(dest.spareels, dest.spareelsnum, [])
    modifies dest`numels, dest`mid, dest`view, end`next, dest.tailSentinel`prev
    ensures dest.Valid() && dest.view == View(c + [dest.tailSentinel], s, [], [], r + {dest.tailSentinel})
  {
    LinkTail(end, dest.tailSentinel, c, s, r);
    SetConcat(dest, approx, n, n1, c, s, r);
  }

  method LinkTail(end: Entry, t: Entry, ghost c: seq<Entry>, ghost s: seq<Ptr>, ghost r: set<Entry>)
    requires Open(c, s, r) && end == c[|c| - 1] && t !in r && t.next == null && |r| == |c|
    modifies end`next, t`prev
    ensures Threaded(View(c + [t], s, [], [], r + {t})) && Accounted(View(c + [t], s, [], [], r + {t}))
  {
    end.next := t;
    t.prev := end;
  }

  method SetConcat(
    dest: List, approx: Entry, n: nat, n1: nat, ghost c: seq<Entry>, ghost s: seq<Ptr>, ghost r: set<Entry>)
    requires |s| == n > 0 && n1 <= n && |c| == n + 1 && approx == c[n1]
    requires var t := dest.tailSentinel;
             dest.headSentinel == c[0] && Threaded(View(c + [t], s, [], [], r + {t}))
             && Accounted(View(c + [t], s, [], [], r + {t}))
    requires PoolOk(dest.spareels, dest.spareelsnum, [])
    modifies dest`numels, dest`mid, dest`view
    ensures dest.Valid() && dest.view == View(c + [dest.tailSentinel], s, [], [], r + {dest.tailSentinel})
  {
    ghost var v := View(c + [dest.tailSentinel], s, [], [], r + {dest.tailSentinel});
    var m, fault := WalkMid(approx, ConcatShift(n1, n - n1), v.chain, v.owned, n1);
    dest.numels, dest.mid, dest.view := n, m, v;
  }
}
