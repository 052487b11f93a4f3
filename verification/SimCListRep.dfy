/** list_repOk, the library's own check of a list, on lists in any condition. */
module SimCListRep {
  import opened Sequences
  import opened SimCList

  /** Entries that lead to no others. */
  ghost predicate Closed(r: set<Entry>)
    reads r
  {
    forall e :: e in r && e.next != null ==> e.next in r
  }

  /** A chain of entries makes the list what it should be: it runs from one sentinel to the other, holds as
      many entries as are counted, and has the cached middle in its middle. */
  ghost predicate Represents(c: seq<Entry>, l: List, r: set<Entry>)
    reads l, r
  {
    && Linked(c, r) && c[0] == l.headSentinel && c[|c| - 1] == l.tailSentinel
    && |c| == l.numels + 2 && l.mid == MidOf(c)
  }

  /** What has been walked: different entries, each linked with the one before. */
  ghost predicate Walked(c: seq<Entry>, l: List, r: set<Entry>)
    reads l, r
  {
    && |c| > 0 && c[0] == l.headSentinel && (forall i {:trigger c[i]} :: 0 <= i < |c| ==> c[i] in r)
    && c[0].prev == null
    && (forall i {:trigger c[i].next} :: 0 <= i < |c| - 1 ==> c[i].next == c[i + 1])
    && (forall i {:trigger c[i].prev} :: 0 < i < |c| ==> c[i].prev == c[i - 1])
  }

  /** The walk cannot go on from the last entry. */
  ghost predicate Ends(c: seq<Entry>, r: set<Entry>)
    requires c != [] && c[|c| - 1] in r && Closed(r)
    reads r
  {
    var s := c[|c| - 1];
    s.next == null || s.next.prev != s
  }

  lemma LinkAt(d: seq<Entry>, r: set<Entry>, n: nat)
    requires Linked(d, r) && n < |d|
    ensures if n + 1 < |d| then d[n].next == d[n + 1] && d[n + 1].prev == d[n] else d[n].next == null
  {
  }

  /** A chain that represents the list can only be the way that was walked, and more. */
  lemma {:induction false} OnlyWay(c: seq<Entry>, d: seq<Entry>, l: List, r: set<Entry>, n: nat)
    requires Walked(c, l, r) && Represents(d, l, r) && n <= |c|
    ensures n <= |d| && c[..n] == d[..n]
  {
    if n > 0 {
      OnlyWay(c, d, l, r, n - 1);
      if n > 1 {
        assert c[n - 2] == c[..n - 1][n - 2] == d[..n - 1][n - 2] == d[n - 2];
        assert c[n - 2].next == c[n - 1];
        LinkAt(d, r, n - 2);
      }
    }
  }

  /** Where the walk ends, such a chain ends. */
  lemma EndsTogether(c: seq<Entry>, d: seq<Entry>, l: List, r: set<Entry>)
    requires Closed(r) && Walked(c, l, r) && Represents(d, l, r) && Ends(c, r)
    ensures c == d
  {
    OnlyWay(c, d, l, r, |c|);
    var n := |c| - 1;
    assert c[n] == d[..|c|][n] == d[n];
    LinkAt(d, r, n);
  }

  /** No entry is met twice, so the walk ends. */
  lemma {:induction false} NotTwice(c: seq<Entry>, l: List, r: set<Entry>, i: nat, j: nat)
    requires Walked(c, l, r) && i < j < |c|
    ensures c[i] != c[j]
  {
    if c[i] == c[j] {
      assert c[j].prev == c[j - 1];
      if i > 0 {
        assert c[i].prev == c[i - 1];
        NotTwice(c, l, r, i - 1, j - 1);
      }
    }
  }

  lemma NotMany(c: seq<Entry>, l: List, r: set<Entry>)
    requires Walked(c, l, r)
    ensures |c| <= |r|
  {
    forall i, j | 0 <= i < j < |c| ensures c[i] != c[j] { NotTwice(c, l, r, i, j); }
    CountDistinct(c);
    Fewer(Elements(c), r);
  }

  lemma {:induction false} Fewer<T>(a: set<T>, b: set<T>)
    requires a <= b
    ensures |a| <= |b|
  {
    assert b == a + (b - a);
  }

  lemma OneOn(c: seq<Entry>, l: List, r: set<Entry>)
    requires Closed(r) && Walked(c, l, r) && !Ends(c, r)
    ensures Walked(c + [c[|c| - 1].next], l, r)
  {
  }

  lemma Sentinels(l: List, r: set<Entry>)
    ensures (exists d: seq<Entry> :: Represents(d, l, r)) ==>
              l.headSentinel != l.tailSentinel && l.headSentinel.prev == null && l.tailSentinel.next == null
  {
    forall d: seq<Entry> | Represents(d, l, r)
      ensures l.headSentinel != l.tailSentinel && l.headSentinel.prev == null && l.tailSentinel.next == null
    {
      assert d[|d| - 1].prev == d[|d| - 2];
    }
  }

  lemma EmptyOnly(l: List, r: set<Entry>)
    requires l.headSentinel in r && l.tailSentinel in r && l.headSentinel != l.tailSentinel && l.numels == 0
    requires l.headSentinel.prev == null && l.tailSentinel.next == null
    ensures l.mid == null && l.headSentinel.next == l.tailSentinel && l.tailSentinel.prev == l.headSentinel
       <==> exists c: seq<Entry> :: Represents(c, l, r)
  {
    forall c: seq<Entry> | Represents(c, l, r)
      ensures l.mid == null && l.headSentinel.next == l.tailSentinel && l.tailSentinel.prev == l.headSentinel
    {
      assert c[0].next == c[1] && c[1].prev == c[0];
    }
    if l.mid == null && l.headSentinel.next == l.tailSentinel && l.tailSentinel.prev == l.headSentinel {
      assert Represents([l.headSentinel, l.tailSentinel], l, r);
    }
  }

  /** If there is such a chain the first loop comes to the cached middle. */
  lemma ToTheMiddle(c: seq<Entry>, l: List, r: set<Entry>)
    requires Closed(r) && Walked(c, l, r) && l.numels > 0
    requires var half := (l.numels - 1) / 2; |c| <= half + 2 && (|c| < half + 2 ==> Ends(c, r))
    ensures (exists d: seq<Entry> :: Represents(d, l, r)) ==>
              var half := (l.numels - 1) / 2; |c| == half + 2 && l.mid == c[half + 1]
  {
    var half := (l.numels - 1) / 2;
    forall d: seq<Entry> | Represents(d, l, r) ensures |c| == half + 2 && l.mid == c[half + 1] {
      OnlyWay(c, d, l, r, |c|);
      if |c| < half + 2 { EndsTogether(c, d, l, r); }
      assert c == d[..|c|];
    }
  }

  /** The second loop came to the end. */
  lemma WholeWay(c: seq<Entry>, l: List, r: set<Entry>)
    requires Closed(r) && Walked(c, l, r) && Ends(c, r) && l.numels > 0 && l.tailSentinel.next == null
    requires var half := (l.numels - 1) / 2; half + 2 <= |c| && l.mid == c[half + 1]
    ensures |c| == l.numels + 2 && c[|c| - 1] == l.tailSentinel <==> exists d: seq<Entry> :: Represents(d, l, r)
  {
    forall d: seq<Entry> | Represents(d, l, r) ensures |c| == l.numels + 2 && c[|c| - 1] == l.tailSentinel {
      EndsTogether(c, d, l, r);
    }
    if |c| == l.numels + 2 && c[|c| - 1] == l.tailSentinel {
      assert Represents(c, l, r);
    }
  }

  /** Whatever the entries are linked to, the check ends, and succeeds exactly if some chain represents the
      list and there are at most five spare entries. */
  method RepOk(l: List, ghost r: set<Entry>) returns (ok: bool)
    requires Closed(r) && l.headSentinel in r && l.tailSentinel in r
    ensures ok <==> l.spareelsnum <= MAX_SPARE_ELEMS && exists c: seq<Entry> :: Represents(c, l, r)
  {
    Sentinels(l, r);
    if l.headSentinel == l.tailSentinel || l.headSentinel.prev != null || l.tailSentinel.next != null {
      return false;
    }
    if l.spareelsnum > MAX_SPARE_ELEMS {
      return false;
    }
    if l.numels == 0 {
      ok := l.mid == null && l.headSentinel.next == l.tailSentinel && l.tailSentinel.prev == l.headSentinel;
      EmptyOnly(l, r);
      return;
    }
    var half := (l.numels - 1) / 2;
    ghost var c: seq<Entry> := [l.headSentinel];
    var i, s := -1, l.headSentinel;
    while i < half && s.next != null
      invariant -1 <= i <= half && Walked(c, l, r) && |c| == i + 2 && s == c[i + 1]
      decreases half - i
    {
      if s.next.prev != s { break; }
      OneOn(c, l, r);
      c := c + [s.next];
      i, s := i + 1, s.next;
    }
    if i != half || l.mid != s {
      ToTheMiddle(c, l, r);
      return false;
    }
    while s.next != null
      invariant half <= i && Walked(c, l, r) && |c| == i + 2 && s == c[i + 1] && l.mid == c[half + 1]
      decreases |r| - i
    {
      if s.next.prev != s { break; }
      OneOn(c, l, r);
      c := c + [s.next];
      NotMany(c, l, r);
      i, s := i + 1, s.next;
    }
    ok := i == l.numels && s == l.tailSentinel;
    WholeWay(c, l, r);
  }

  /** Every list in order passes the check. */
  method CheckValid(l: List) returns (ok: bool)
    requires l.Valid()
    ensures ok
  {
    ghost var c := l.view.chain;
    ghost var r := Elements(c);
    assert Linked(c, l.view.owned) by { assert Threaded(l.view); }
    ChainCloses(c, l.view.owned);
    assert Represents(c, l, r);
    ok := RepOk(l, r);
    assert Represents(c, l, r);
  }

  lemma ChainCloses(c: seq<Entry>, owned: set<Entry>)
    requires Linked(c, owned)
    ensures Closed(Elements(c)) && Linked(c, Elements(c))
  {
    forall e | e in Elements(c) && e.next != null ensures e.next in Elements(c) {
      var i :| 0 <= i < |c| && c[i] == e;
      if i < |c| - 1 { assert c[i].next == c[i + 1]; }
    }
  }

  // ---- no entry is lost ----

  lemma {:induction false} CountDistinct<T>(s: seq<T>)
    requires Distinct(s)
    ensures |Elements(s)| == |s|
  {
    if s == [] {
      assert Elements(s) == {};
    } else {
      var n := |s| - 1;
      CountDistinct(s[..n]);
      assert s == s[..n] + [s[n]];
      assert Elements(s) == Elements(s[..n]) + {s[n]};
      assert s[n] !in Elements(s[..n]);
    }
  }

  lemma Disjoint<T>(a: seq<T>, b: seq<T>)
    requires Apart(a, b)
    ensures Elements(a) !! Elements(b)
  {
    forall x | x in Elements(a) ensures x !in Elements(b) {
      var i :| 0 <= i < |a| && a[i] == x;
      assert forall j :: 0 <= j < |b| ==> b[j] != a[i];
    }
  }

  /** Every entry ever obtained from malloc() is in the chain, spare or given back, and in only one of
      the three. */
  lemma NoEntryLost(v: View)
    requires Accounted(v)
    ensures v.owned == Elements(v.chain) + Elements(v.pool) + Elements(v.freed)
    ensures Elements(v.chain) !! Elements(v.pool) && Elements(v.chain) !! Elements(v.freed)
    ensures Elements(v.pool) !! Elements(v.freed)
  {
    CountDistinct(v.chain);
    CountDistinct(v.pool);
    CountDistinct(v.freed);
    Disjoint(v.chain, v.pool);
    Disjoint(v.chain, v.freed);
    Disjoint(v.pool, v.freed);
    var all := Elements(v.chain) + Elements(v.pool) + Elements(v.freed);
    assert |all| == |v.chain| + |v.pool| + |v.freed|;
    assert all <= v.owned;
    Full(all, v.owned);
  }

  lemma Full<T>(a: set<T>, b: set<T>)
    requires a <= b && |a| == |b|
    ensures a == b
  {
    var rest := b - a;
    assert b == a + rest;
  }
}
