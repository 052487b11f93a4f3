/** Rearranging a stretch of a sequence and leaving the rest alone. */
module Permutations {

  /** `e` is `e0` with the positions from `f` to `t - 1` rearranged. */
  ghost predicate PermWithin<T>(e: seq<T>, e0: seq<T>, f: int, t: int) {
    && |e| == |e0| && multiset(e) == multiset(e0)
    && (forall k {:trigger e[k]} :: 0 <= k < |e| && !(f <= k < t) ==> e[k] == e0[k])
  }

  function Swapped<T>(e: seq<T>, i: nat, j: nat): seq<T>
    requires i < |e| && j < |e|
  {
    e[i := e[j]][j := e[i]]
  }

  lemma SwapPerm<T>(e: seq<T>, i: nat, j: nat, f: int, t: int)
    requires f <= i < t && f <= j < t && i < |e| && j < |e|
    ensures PermWithin(Swapped(e, i, j), e, f, t)
  {
  }

  lemma PermTrans<T>(a: seq<T>, b: seq<T>, c: seq<T>, f: int, t: int)
    requires PermWithin(a, b, f, t) && PermWithin(b, c, f, t)
    ensures PermWithin(a, c, f, t)
  {
    forall k | 0 <= k < |a| && !(f <= k < t) ensures a[k] == c[k] {
      assert b[k] == c[k];
    }
  }

  lemma PermWiden<T>(a: seq<T>, b: seq<T>, f: int, t: int, f': int, t': int)
    requires PermWithin(a, b, f, t) && f' <= f && t <= t'
    ensures PermWithin(a, b, f', t')
  {
  }

  /** The stretch itself is rearranged: nothing comes in from outside. */
  lemma {:induction false} PermInside<T>(e: seq<T>, e0: seq<T>, f: nat, t: nat)
    requires PermWithin(e, e0, f, t) && f <= t <= |e|
    ensures multiset(e[f..t]) == multiset(e0[f..t])
  {
    Pieces(e, f, t);
    Pieces(e0, f, t);
    assert e[..f] == e0[..f] && e[t..] == e0[t..];
    var a, m, m0, c := multiset(e[..f]), multiset(e[f..t]), multiset(e0[f..t]), multiset(e[t..]);
    assert m == a + m + c - a - c && m0 == a + m0 + c - a - c;
  }

  lemma Pieces<T>(e: seq<T>, f: nat, t: nat)
    requires f <= t <= |e|
    ensures multiset(e) == multiset(e[..f]) + multiset(e[f..t]) + multiset(e[t..])
  {
    assert e == e[..t] + e[t..] && e[..t] == e[..f] + e[f..t];
  }

  /** Every element of the rearranged stretch was there before. */
  lemma PermFrom<T>(e: seq<T>, e0: seq<T>, f: nat, t: nat, k: nat) returns (j: nat)
    requires PermWithin(e, e0, f, t) && f <= k < t <= |e|
    ensures f <= j < t && e0[j] == e[k]
  {
    PermInside(e, e0, f, t);
    assert e[f..t][k - f] in multiset(e0[f..t]);
    var i :| 0 <= i < t - f && e0[f..t][i] == e[k];
    j := f + i;
  }
}
