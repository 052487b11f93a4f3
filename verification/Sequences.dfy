/** Inserting into and removing from sequences, as relations between positions. */
module Sequences {

  ghost predicate Distinct<T>(c: seq<T>) {
    forall i, j :: 0 <= i < j < |c| ==> c[i] != c[j]
  }

  ghost predicate Apart<T>(c: seq<T>, d: seq<T>) {
    forall i, j {:trigger c[i], d[j]} :: 0 <= i < |c| && 0 <= j < |d| ==> c[i] != d[j]
  }

  ghost function Elements<T>(c: seq<T>): set<T> {
    set e | e in c
  }

  /** `d` is `c` with `e` put before position `k`. */
  ghost predicate IsInserted<T>(d: seq<T>, c: seq<T>, k: nat, e: T) {
    && k <= |c| && |d| == |c| + 1 && d[k] == e
    && (forall i {:trigger d[i]} :: 0 <= i < k ==> d[i] == c[i])
    && (forall i {:trigger d[i]} :: k < i < |d| ==> d[i] == c[i - 1])
  }

  /** `d` is `c` without the positions from `k` to `m - 1`. */
  ghost predicate IsCut<T>(d: seq<T>, c: seq<T>, k: nat, m: nat) {
    && k <= m <= |c| && |d| == |c| - (m - k)
    && (forall i {:trigger d[i]} :: 0 <= i < k ==> d[i] == c[i])
    && (forall i {:trigger d[i]} :: k <= i < |d| ==> d[i] == c[i + (m - k)])
  }

  lemma Insert<T>(c: seq<T>, k: nat, e: T) returns (d: seq<T>)
    requires k <= |c|
    ensures IsInserted(d, c, k, e)
  {
    d := c[..k] + [e] + c[k..];
  }

  lemma Cut<T>(c: seq<T>, k: nat, m: nat) returns (d: seq<T>)
    requires k <= m <= |c|
    ensures IsCut(d, c, k, m)
  {
    d := c[..k] + c[m..];
  }

  /** The relations say exactly what the sequence is. */
  lemma InsertedIs<T>(d: seq<T>, c: seq<T>, k: nat, e: T)
    ensures IsInserted(d, c, k, e) <==> k <= |c| && d == c[..k] + [e] + c[k..]
  {
  }

  lemma CutIs<T>(d: seq<T>, c: seq<T>, k: nat, m: nat)
    ensures IsCut(d, c, k, m) <==> k <= m <= |c| && d == c[..k] + c[m..]
  {
  }

  lemma SlicesApart<T>(c: seq<T>, d: seq<T>, a: nat, k: nat, b: nat)
    requires Distinct(c) && a <= k <= b <= |c| && IsCut(d, c, a, b)
    ensures Distinct(d) && Apart(d, c[a..k]) && Apart(d, c[k..b]) && Apart(c[a..k], c[k..b])
  {
  }

  lemma ApartJoin<T>(p: seq<T>, c: seq<T>, a: nat, k: nat)
    requires Distinct(p) && Distinct(c) && Apart(c, p) && a <= k <= |c|
    ensures Distinct(p + c[a..k])
  {
  }

  lemma ApartOf<T>(c: seq<T>, x: seq<T>, y: seq<T>)
    requires Apart(c, x) && Apart(c, y)
    ensures Apart(c, x + y)
  {
  }
}
