/** Index orders, as produced by Python's `sorted(range(n), key=...)`.

    `sorted` is stable, so sorting indices by a key is the same as sorting
    them by the pair (key, index). That pair order is strict on distinct
    indices, which makes "ordered and a permutation" pin the result down
    completely (`OrderUnique`). */
module Sorting {

  /** Index `i` goes before index `j`: smaller key, or equal key and smaller index. */
  predicate Before(keys: seq<real>, i: nat, j: nat)
    requires i < |keys| && j < |keys|
  {
    keys[i] < keys[j] || (keys[i] == keys[j] && i < j)
  }

  predicate IndicesIn(s: seq<nat>, n: nat) {
    forall j :: 0 <= j < |s| ==> s[j] < n
  }

  /** Every earlier index goes before every later one. */
  predicate Ordered(keys: seq<real>, s: seq<nat>)
    requires IndicesIn(s, |keys|)
  {
    forall a, b :: 0 <= a < b < |s| ==> Before(keys, s[a], s[b])
  }

  /** `[0, 1, ..., n - 1]`. */
  function Range(n: nat): (r: seq<nat>)
    ensures |r| == n && forall i :: 0 <= i < n ==> r[i] == i
  {
    if n == 0 then [] else Range(n - 1) + [n - 1]
  }

  /** A permutation of `Range(|keys|)` in (key, index) order: exactly what a
      stable ascending sort of the indices by `keys` returns. */
  predicate IsStableOrder(keys: seq<real>, order: seq<nat>) {
    && IndicesIn(order, |keys|)
    && multiset(order) == multiset(Range(|keys|))
    && Ordered(keys, order)
  }

  /** Insert index `i` before the first index it goes before. */
  function Insert(keys: seq<real>, i: nat, s: seq<nat>): (r: seq<nat>)
    requires i < |keys| && IndicesIn(s, |keys|)
    ensures |r| == |s| + 1 && IndicesIn(r, |keys|)
    ensures multiset(r) == multiset(s) + multiset{i}
  {
    if s == [] || Before(keys, i, s[0]) then [i] + s
    else
      assert s == [s[0]] + s[1..];
      [s[0]] + Insert(keys, i, s[1..])
  }

  lemma BeforeTrans(keys: seq<real>, x: nat, y: nat, z: nat)
    requires x < |keys| && y < |keys| && z < |keys|
    requires Before(keys, x, y) && Before(keys, y, z)
    ensures Before(keys, x, z)
  {
  }

  /** `Before` is total on distinct indices. */
  lemma BeforeTotal(keys: seq<real>, x: nat, y: nat)
    requires x < |keys| && y < |keys| && x != y && !Before(keys, x, y)
    ensures Before(keys, y, x)
  {
  }

  /** An ordered list stays ordered under an index that goes before all of it. */
  lemma OrderedCons(keys: seq<real>, x: nat, t: seq<nat>)
    requires x < |keys| && IndicesIn(t, |keys|) && Ordered(keys, t)
    requires forall b :: 0 <= b < |t| ==> Before(keys, x, t[b])
    ensures IndicesIn([x] + t, |keys|) && Ordered(keys, [x] + t)
  {
    var r := [x] + t;
    forall a, b | 0 <= a < b < |r| ensures Before(keys, r[a], r[b]) {
      if a == 0 {
        assert r[b] == t[b - 1];
      } else {
        assert r[a] == t[a - 1] && r[b] == t[b - 1];
      }
    }
  }

  lemma {:induction false} InsertKeepsOrder(keys: seq<real>, i: nat, s: seq<nat>)
    requires i < |keys| && IndicesIn(s, |keys|) && Ordered(keys, s)
    requires i !in multiset(s)
    ensures Ordered(keys, Insert(keys, i, s))
    decreases |s|
  {
    if s == [] || Before(keys, i, s[0]) {
      forall b | 0 <= b < |s| ensures Before(keys, i, s[b]) {
        if b > 0 {
          BeforeTrans(keys, i, s[0], s[b]);
        }
      }
      OrderedCons(keys, i, s);
    } else {
      var tail := s[1..];
      assert s == [s[0]] + tail;
      assert multiset(s) == multiset{s[0]} + multiset(tail);
      OrderedTail(keys, s);
      InsertKeepsOrder(keys, i, tail);
      var t := Insert(keys, i, tail);
      BeforeTotal(keys, i, s[0]);
      forall b | 0 <= b < |t| ensures Before(keys, s[0], t[b]) {
        assert t[b] in multiset(t);
        if t[b] != i {
          assert t[b] in multiset(tail);
          var m :| 0 <= m < |tail| && tail[m] == t[b];
          assert s[m + 1] == t[b];
        }
      }
      OrderedCons(keys, s[0], t);
    }
  }

  /** Insertion sort of the indices in `s`. */
  function SortIndices(keys: seq<real>, s: seq<nat>): (r: seq<nat>)
    requires IndicesIn(s, |keys|)
    ensures |r| == |s| && IndicesIn(r, |keys|)
    ensures multiset(r) == multiset(s)
  {
    if s == [] then []
    else
      assert s == [s[0]] + s[1..];
      Insert(keys, s[0], SortIndices(keys, s[1..]))
  }

  lemma {:induction false} SortIndicesOrders(keys: seq<real>, s: seq<nat>)
    requires IndicesIn(s, |keys|)
    requires forall a, b :: 0 <= a < b < |s| ==> s[a] != s[b]
    ensures Ordered(keys, SortIndices(keys, s))
    decreases |s|
  {
    if s != [] {
      SortIndicesOrders(keys, s[1..]);
      assert s[0] !in multiset(s[1..]);
      InsertKeepsOrder(keys, s[0], SortIndices(keys, s[1..]));
    }
  }

  /** Python's `sorted(range(len(keys)), key=lambda i: keys[i])`. */
  function StableOrder(keys: seq<real>): (order: seq<nat>)
    ensures |order| == |keys|
    ensures IsStableOrder(keys, order)
  {
    SortIndicesOrders(keys, Range(|keys|));
    SortIndices(keys, Range(|keys|))
  }

  /** Two orders that hold the same indices and are both in (key, index)
      order are the same order: `IsStableOrder` determines the result. */
  lemma {:induction false} OrderUnique(keys: seq<real>, a: seq<nat>, b: seq<nat>)
    requires IndicesIn(a, |keys|) && IndicesIn(b, |keys|)
    requires Ordered(keys, a) && Ordered(keys, b)
    requires multiset(a) == multiset(b)
    ensures a == b
    decreases |a|
  {
    if a == [] {
      assert |multiset(b)| == 0;
    } else {
      assert |b| > 0 by { assert |multiset(b)| == |a|; }
      SameHead(keys, a, b);
      assert a == [a[0]] + a[1..] && b == [b[0]] + b[1..];
      assert multiset(a[1..]) == multiset(a) - multiset{a[0]};
      assert multiset(b[1..]) == multiset(b) - multiset{b[0]};
      OrderedTail(keys, a);
      OrderedTail(keys, b);
      OrderUnique(keys, a[1..], b[1..]);
    }
  }

  lemma SameHead(keys: seq<real>, a: seq<nat>, b: seq<nat>)
    requires IndicesIn(a, |keys|) && IndicesIn(b, |keys|)
    requires Ordered(keys, a) && Ordered(keys, b)
    requires multiset(a) == multiset(b) && |a| > 0 && |b| > 0
    ensures a[0] == b[0]
  {
    assert a[0] in multiset(b);
    var k :| 0 <= k < |b| && b[k] == a[0];
    assert b[0] in multiset(a);
    var m :| 0 <= m < |a| && a[m] == b[0];
  }

  lemma OrderedTail(keys: seq<real>, s: seq<nat>)
    requires IndicesIn(s, |keys|) && Ordered(keys, s) && |s| > 0
    ensures IndicesIn(s[1..], |keys|) && Ordered(keys, s[1..])
  {
    forall x, y | 0 <= x < y < |s| - 1 ensures Before(keys, s[1..][x], s[1..][y]) {
      assert s[1..][x] == s[x + 1] && s[1..][y] == s[y + 1];
    }
  }

  /** The items at the given indices, in that order: `[xs[i] for i in idx]`. */
  function Pick<T>(xs: seq<T>, idx: seq<nat>): (r: seq<T>)
    requires IndicesIn(idx, |xs|)
    ensures |r| == |idx| && forall j :: 0 <= j < |idx| ==> r[j] == xs[idx[j]]
  {
    seq(|idx|, j requires 0 <= j < |idx| => xs[idx[j]])
  }

  lemma PickCons<T>(xs: seq<T>, j: nat, s: seq<nat>)
    requires j < |xs| && IndicesIn(s, |xs|)
    ensures IndicesIn([j] + s, |xs|)
    ensures Pick(xs, [j] + s) == [xs[j]] + Pick(xs, s)
  {
  }

  lemma {:induction false} PickInsert<T>(xs: seq<T>, keys: seq<real>, i: nat, s: seq<nat>)
    requires |keys| == |xs| && i < |keys| && IndicesIn(s, |keys|)
    ensures multiset(Pick(xs, Insert(keys, i, s))) == multiset(Pick(xs, s)) + multiset{xs[i]}
    decreases |s|
  {
    if s != [] && !Before(keys, i, s[0]) {
      var tail := s[1..];
      assert s == [s[0]] + tail;
      PickInsert(xs, keys, i, tail);
      var t := Insert(keys, i, tail);
      assert Insert(keys, i, s) == [s[0]] + t;
      PickCons(xs, s[0], t);
      PickCons(xs, s[0], tail);
    } else {
      PickCons(xs, i, s);
    }
  }

  lemma {:induction false} PickSorted<T>(xs: seq<T>, keys: seq<real>, s: seq<nat>)
    requires |keys| == |xs| && IndicesIn(s, |keys|)
    ensures multiset(Pick(xs, SortIndices(keys, s))) == multiset(Pick(xs, s))
    decreases |s|
  {
    if s != [] {
      var tail := s[1..];
      assert s == [s[0]] + tail;
      PickSorted(xs, keys, tail);
      var st := SortIndices(keys, tail);
      assert SortIndices(keys, s) == Insert(keys, s[0], st);
      PickInsert(xs, keys, s[0], st);
      PickCons(xs, s[0], tail);
    }
  }

  /** Reordering by a stable order keeps every item, with its multiplicity. */
  lemma StableOrderPermutes<T>(xs: seq<T>, keys: seq<real>)
    requires |keys| == |xs|
    ensures multiset(Pick(xs, StableOrder(keys))) == multiset(xs)
  {
    PickSorted(xs, keys, Range(|keys|));
    assert Pick(xs, Range(|xs|)) == xs;
  }

  /** A stable order lists keys in non-decreasing order, and equal keys by
      increasing index. */
  lemma StableOrderSorted(keys: seq<real>, order: seq<nat>)
    requires IsStableOrder(keys, order)
    ensures forall a, b :: 0 <= a < b < |order| ==>
      && keys[order[a]] <= keys[order[b]]
      && (keys[order[a]] == keys[order[b]] ==> order[a] < order[b])
  {
    forall a, b | 0 <= a < b < |order|
      ensures keys[order[a]] <= keys[order[b]]
      ensures keys[order[a]] == keys[order[b]] ==> order[a] < order[b]
    {
      assert Before(keys, order[a], order[b]);
    }
  }

  /** Python's `s[::-1]`. */
  function Reverse(s: seq<nat>): (r: seq<nat>)
    ensures |r| == |s| && forall i :: 0 <= i < |s| ==> r[i] == s[|s| - 1 - i]
    ensures multiset(r) == multiset(s)
  {
    if s == [] then []
    else
      assert s == s[..|s| - 1] + [s[|s| - 1]];
      [s[|s| - 1]] + Reverse(s[..|s| - 1])
  }

  /** Reversing keeps every index in range. */
  lemma ReverseIndices(s: seq<nat>, n: nat)
    requires IndicesIn(s, n)
    ensures IndicesIn(Reverse(s), n)
  {
    forall i | 0 <= i < |s| ensures Reverse(s)[i] < n {
      assert Reverse(s)[i] == s[|s| - 1 - i];
    }
  }
}
