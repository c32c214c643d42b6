/** `np.sort` and `np.argsort` on one column of weights. Both are modelled as
    insertion sorts: `Sort` arranges the values in ascending order and `ArgSort`
    arranges the row indices so that the values they name ascend. */
module Sorting {

  predicate Ascending(s: seq<real>) {
    forall i, j :: 0 <= i < j < |s| ==> s[i] <= s[j]
  }

  /** Every index is a valid row of a column of length `n`. */
  predicate InRange(p: seq<nat>, n: nat) {
    forall i :: 0 <= i < |p| ==> p[i] < n
  }

  predicate Distinct(p: seq<nat>) {
    forall i, j :: 0 <= i < j < |p| ==> p[i] != p[j]
  }

  /** The indices 0, 1, …, n - 1 in order. */
  function Indices(n: nat): (r: seq<nat>)
    ensures |r| == n
    ensures forall i :: 0 <= i < n ==> r[i] == i
  {
    seq(n, i requires 0 <= i < n => i)
  }

  /** The values a sequence of row indices names. */
  function Values(c: seq<real>, p: seq<nat>): (v: seq<real>)
    requires InRange(p, |c|)
    ensures |v| == |p|
    ensures forall i :: 0 <= i < |p| ==> v[i] == c[p[i]]
  {
    seq(|p|, i requires 0 <= i < |p| => c[p[i]])
  }

  // ------------------------------------------------------------- values

  /** Places `x` before the first element that is not smaller than it. */
  function InsertValue(x: real, s: seq<real>): (r: seq<real>)
    requires Ascending(s)
    ensures |r| == |s| + 1
    ensures multiset(r) == multiset(s) + multiset{x}
    ensures r[0] == x || (|s| > 0 && r[0] == s[0])
    ensures Ascending(r)
  {
    if |s| == 0 || x <= s[0] then ConsAscending(x, s); [x] + s
    else
      var t := InsertValue(x, s[1..]);
      TailMultiset(s);
      ConsAscending(s[0], t);
      [s[0]] + t
  }

  /** A value no larger than the head of an ascending sequence extends it. */
  lemma ConsAscending(h: real, t: seq<real>)
    requires Ascending(t) && (|t| == 0 || h <= t[0])
    ensures Ascending([h] + t)
  {
  }

  /** The first `k` values, sorted. */
  function SortPrefix(c: seq<real>, k: nat): (r: seq<real>)
    requires k <= |c|
    ensures |r| == k
    ensures multiset(r) == multiset(c[..k])
    ensures Ascending(r)
  {
    if k == 0 then []
    else
      assert c[..k] == c[..k - 1] + [c[k - 1]];
      InsertValue(c[k - 1], SortPrefix(c, k - 1))
  }

  /** `np.sort` of one column: its values rearranged into ascending order. */
  function Sort(c: seq<real>): (r: seq<real>)
    ensures |r| == |c|
    ensures multiset(r) == multiset(c)
    ensures Ascending(r)
  {
    assert c[..|c|] == c;
    SortPrefix(c, |c|)
  }

  /** Two ascending arrangements of the same values are the same sequence, so the
      sorted column does not depend on how a sort breaks ties. */
  lemma {:induction false} AscendingUnique(a: seq<real>, b: seq<real>)
    requires Ascending(a) && Ascending(b) && multiset(a) == multiset(b)
    ensures a == b
    decreases |a|
  {
    assert |a| == |multiset(a)| == |b|;
    if |a| > 0 {
      HeadIsLeast(a, b[0]);
      HeadIsLeast(b, a[0]);
      assert a[0] == b[0];
      TailMultiset(a);
      TailMultiset(b);
      AscendingUnique(a[1..], b[1..]);
      assert a == [a[0]] + a[1..] && b == [b[0]] + b[1..];
    }
  }

  /** The head of an ascending sequence is its least element. */
  lemma HeadIsLeast(a: seq<real>, x: real)
    requires Ascending(a) && x in multiset(a)
    ensures |a| > 0 && a[0] <= x
  {
    var i :| 0 <= i < |a| && a[i] == x;
  }

  lemma TailMultiset<T>(a: seq<T>)
    requires |a| > 0
    ensures multiset(a[1..]) == multiset(a) - multiset{a[0]}
  {
    assert a == [a[0]] + a[1..];
  }

  // ------------------------------------------------------------ indices

  /** Places index `k` before the first index whose value is not smaller than
      `c[k]`: the index counterpart of `InsertValue`. */
  function InsertIndex(c: seq<real>, k: nat, p: seq<nat>): (r: seq<nat>)
    requires k < |c| && InRange(p, |c|)
    ensures |r| == |p| + 1 && InRange(r, |c|)
    ensures multiset(r) == multiset(p) + multiset{k}
    ensures Distinct(p) && k !in p ==> Distinct(r)
  {
    if |p| == 0 || c[k] <= c[p[0]] then
      ConsIndex(k, p, |c|);
      [k] + p
    else
      var t := InsertIndex(c, k, p[1..]);
      TailMultiset(p);
      InsertIndexFresh(p, t, k);
      ConsIndex(p[0], t, |c|);
      [p[0]] + t
  }

  /** Putting a valid index in front of valid indices. */
  lemma ConsIndex(h: nat, t: seq<nat>, n: nat)
    requires h < n && InRange(t, n)
    ensures InRange([h] + t, n)
    ensures multiset([h] + t) == multiset(t) + multiset{h}
    ensures Distinct(t) && h !in t ==> Distinct([h] + t)
  {
    if Distinct(t) && h !in t {
      forall i, j | 0 <= i < j < |t| + 1 ensures ([h] + t)[i] != ([h] + t)[j] {
        if i == 0 {
          assert t[j - 1] in t;
        }
      }
    }
  }

  lemma InsertIndexFresh(p: seq<nat>, t: seq<nat>, k: nat)
    requires |p| > 0 && multiset(t) == multiset(p[1..]) + multiset{k}
    ensures Distinct(p) && k !in p ==> p[0] !in t
  {
    if Distinct(p) && k !in p {
      forall m | 0 <= m < |p| - 1 ensures p[1..][m] != p[0] {
        assert p[m + 1] != p[0];
      }
      assert p[0] !in multiset(p[1..]);
      assert p[0] != k;
      assert p[0] !in multiset(t);
    }
  }

  /** Inserting an index and then reading the values is inserting its value. */
  lemma {:induction false} InsertIndexValues(c: seq<real>, k: nat, p: seq<nat>)
    requires k < |c| && InRange(p, |c|) && Ascending(Values(c, p))
    ensures Values(c, InsertIndex(c, k, p)) == InsertValue(c[k], Values(c, p))
    decreases |p|
  {
    var v := Values(c, p);
    if |p| == 0 || c[k] <= c[p[0]] {
      assert Values(c, [k] + p) == [c[k]] + v;
    } else {
      assert InRange(p[1..], |c|);
      assert Values(c, p[1..]) == v[1..];
      InsertIndexValues(c, k, p[1..]);
      var t := InsertIndex(c, k, p[1..]);
      assert Values(c, [p[0]] + t) == [c[p[0]]] + Values(c, t);
    }
  }

  /** The indices 0 … k - 1 arranged so that their values ascend. */
  function ArgSortPrefix(c: seq<real>, k: nat): (p: seq<nat>)
    requires k <= |c|
    ensures |p| == k && InRange(p, k) && InRange(p, |c|) && Distinct(p)
    ensures multiset(p) == multiset(Indices(k))
    ensures Values(c, p) == SortPrefix(c, k)
  {
    if k == 0 then []
    else
      var q := ArgSortPrefix(c, k - 1);
      ArgSortStep(c, k, q);
      InsertIndex(c, k - 1, q)
  }

  lemma ArgSortStep(c: seq<real>, k: nat, q: seq<nat>)
    requires 0 < k <= |c|
    requires |q| == k - 1 && InRange(q, k - 1) && InRange(q, |c|) && Distinct(q)
    requires multiset(q) == multiset(Indices(k - 1))
    requires Values(c, q) == SortPrefix(c, k - 1)
    ensures InRange(InsertIndex(c, k - 1, q), k) && Distinct(InsertIndex(c, k - 1, q))
    ensures multiset(InsertIndex(c, k - 1, q)) == multiset(Indices(k))
    ensures Values(c, InsertIndex(c, k - 1, q)) == SortPrefix(c, k)
  {
    var r := InsertIndex(c, k - 1, q);
    assert k - 1 !in q;
    IndicesSnoc(k);
    InsertedBelow(r, q, k);
    InsertIndexValues(c, k - 1, q);
  }

  lemma IndicesSnoc(k: nat)
    requires 0 < k
    ensures multiset(Indices(k)) == multiset(Indices(k - 1)) + multiset{(k - 1) as nat}
  {
    assert Indices(k) == Indices(k - 1) + [k - 1];
  }

  /** Adding index `k - 1` to indices below `k - 1` leaves every index below `k`. */
  lemma InsertedBelow(r: seq<nat>, q: seq<nat>, k: nat)
    requires 0 < k && InRange(q, k - 1)
    requires multiset(r) == multiset(q) + multiset{(k - 1) as nat}
    ensures InRange(r, k)
  {
    forall i | 0 <= i < |r| ensures r[i] < k {
      assert r[i] in multiset(r);
      if r[i] != k - 1 {
        assert r[i] in multiset(q);
      }
    }
  }

  /** `np.argsort` of one column: the row indices, each exactly once, in an order
      under which the values ascend. */
  function ArgSort(c: seq<real>): (p: seq<nat>)
    ensures |p| == |c| && InRange(p, |c|) && Distinct(p)
    ensures multiset(p) == multiset(Indices(|c|))
    ensures Ascending(Values(c, p))
  {
    ArgSortPrefix(c, |c|)
  }

  /** Reading the column through its arg-sort gives exactly the sorted column: the
      k-th smallest value sits at the row the k-th index names. */
  lemma ArgSortMatchesSort(c: seq<real>)
    ensures Values(c, ArgSort(c)) == Sort(c)
  {
    var v := Values(c, ArgSort(c));
    assert v == SortPrefix(c, |c|);
  }

  /** Every row appears in the arg-sort. */
  lemma ArgSortCovers(c: seq<real>, j: nat)
    requires j < |c|
    ensures j in ArgSort(c)
  {
    var p := ArgSort(c);
    assert Indices(|c|)[j] == j;
    assert j in multiset(Indices(|c|));
    assert j in multiset(p);
  }
}
