/** The two optional re-orderings of retrieved hits: mixing a lexical BM25
    score into the vector similarity, and sorting by a cross-encoder score.
    Both only reorder; the scorers themselves are inputs. */
module Reorder {
  import opened Util
  import opened Sorting
  import opened Retrieval

  /** Default weight of the BM25 score in the mix. */
  const Alpha: real := 0.2

  /** Guard added to the largest distance before dividing by it. */
  const Epsilon: real := 0.000000001

  function MaxOf(s: seq<real>): (m: real)
    requires |s| > 0
    ensures forall i :: 0 <= i < |s| ==> s[i] <= m
    ensures exists i :: 0 <= i < |s| && s[i] == m
  {
    if |s| == 1 then s[0]
    else
      var rest := MaxOf(s[1..]);
      assert forall i :: 1 <= i < |s| ==> s[i] == s[1..][i - 1];
      if s[0] >= rest then s[0] else rest
  }

  /** `dist.max() + 1e-9`, the scale that turns a distance into a similarity. */
  function Scale(hits: seq<Hit>): real
    requires |hits| > 0
  {
    MaxOf(Dists(hits)) + Epsilon
  }

  /** `alpha * bm25_i + (1 - alpha) * (1 - dist_i / scale)`. */
  function Mixed(hits: seq<Hit>, bm: seq<real>, alpha: real): seq<real>
    requires |bm| == |hits| && |hits| > 0 && Scale(hits) != 0.0
  {
    seq(|hits|, i requires 0 <= i < |hits| =>
      alpha * bm[i] + (1.0 - alpha) * (1.0 - hits[i].dist / Scale(hits)))
  }

  /** `mixed.argsort()[::-1]`. The order of equal mixed scores is left to
      numpy; this model fixes it as the reverse of a stable ascending sort. */
  function MixOrder(hits: seq<Hit>, bm: seq<real>, alpha: real): seq<nat>
    requires |bm| == |hits| && |hits| > 0 && Scale(hits) != 0.0
  {
    Reverse(StableOrder(Mixed(hits, bm, alpha)))
  }

  /** `bm25_mix`. `bm` holds the BM25 score of each hit's text for the
      query. An empty hit list fails: building the BM25 index over an empty
      corpus divides by its size of 0. */
  function Bm25Mix(hits: seq<Hit>, bm: seq<real>, alpha: real): Result<seq<Hit>, string>
    requires |bm| == |hits|
  {
    if |hits| == 0 then Failure("division by zero: empty BM25 corpus")
    else if Scale(hits) == 0.0 then Failure("division by zero")
    else
      ReverseIndices(StableOrder(Mixed(hits, bm, alpha)), |hits|);
      Success(Pick(hits, MixOrder(hits, bm, alpha)))
  }

  /** A reversed stable order: non-increasing keys, equal keys by
      decreasing index, every index once. */
  lemma ReversedOrderFacts(keys: seq<real>)
    ensures |Reverse(StableOrder(keys))| == |keys|
    ensures IndicesIn(Reverse(StableOrder(keys)), |keys|)
    ensures multiset(Reverse(StableOrder(keys))) == multiset(Range(|keys|))
    ensures Descending(keys, Reverse(StableOrder(keys)))
  {
    var s := StableOrder(keys);
    ReverseIndices(s, |keys|);
    StableOrderSorted(keys, s);
    ReverseDescending(keys, s, Reverse(s));
  }

  /** Keys never increase along `o`, and equal keys come by decreasing
      index. */
  predicate Descending(keys: seq<real>, o: seq<nat>)
    requires IndicesIn(o, |keys|)
  {
    forall a, b :: 0 <= a < b < |o| ==>
      && keys[o[a]] >= keys[o[b]]
      && (keys[o[a]] == keys[o[b]] ==> o[a] > o[b])
  }

  /** Reversing an ascending order gives a descending one. */
  lemma ReverseDescending(keys: seq<real>, s: seq<nat>, o: seq<nat>)
    requires IndicesIn(s, |keys|) && o == Reverse(s)
    requires forall a, b :: 0 <= a < b < |s| ==>
      && keys[s[a]] <= keys[s[b]]
      && (keys[s[a]] == keys[s[b]] ==> s[a] < s[b])
    ensures IndicesIn(o, |keys|) && Descending(keys, o)
  {
    forall a, b | 0 <= a < b < |o|
      ensures keys[o[a]] >= keys[o[b]] && (keys[o[a]] == keys[o[b]] ==> o[a] > o[b])
    {
      assert o[a] == s[|s| - 1 - a] && o[b] == s[|s| - 1 - b];
    }
  }

  /** The mix order is a permutation of the hit indices with non-increasing
      mixed score; equal scores come last index first. */
  lemma MixOrderFacts(hits: seq<Hit>, bm: seq<real>, alpha: real)
    requires |bm| == |hits| && |hits| > 0 && Scale(hits) != 0.0
    ensures |MixOrder(hits, bm, alpha)| == |hits| && IndicesIn(MixOrder(hits, bm, alpha), |hits|)
    ensures multiset(MixOrder(hits, bm, alpha)) == multiset(Range(|hits|))
    ensures Descending(Mixed(hits, bm, alpha), MixOrder(hits, bm, alpha))
  {
    ReversedOrderFacts(Mixed(hits, bm, alpha));
  }

  /** `bm25_mix` fails exactly on an empty hit list (or a zero scale), and
      otherwise returns the same hits, each once, best mixed score first. */
  lemma Bm25MixFacts(hits: seq<Hit>, bm: seq<real>, alpha: real)
    requires |bm| == |hits|
    ensures Bm25Mix(hits, bm, alpha).Success? <==> |hits| > 0 && Scale(hits) != 0.0
    ensures Bm25Mix(hits, bm, alpha).Success? ==>
      var r := Bm25Mix(hits, bm, alpha).value;
      var o := MixOrder(hits, bm, alpha);
      && multiset(r) == multiset(hits)
      && |r| == |o|
      && forall a :: 0 <= a < |r| ==> o[a] < |hits| && r[a] == hits[o[a]]
  {
    if |hits| > 0 && Scale(hits) != 0.0 {
      var o := MixOrder(hits, bm, alpha);
      var s := StableOrder(Mixed(hits, bm, alpha));
      MixOrderFacts(hits, bm, alpha);
      PickReverse(hits, s);
      StableOrderPermutes(hits, Mixed(hits, bm, alpha));
    }
  }

  /** Reading items through a reversed index list keeps the same multiset. */
  lemma PickReverse<T>(xs: seq<T>, s: seq<nat>)
    requires IndicesIn(s, |xs|) && IndicesIn(Reverse(s), |xs|)
    ensures multiset(Pick(xs, Reverse(s))) == multiset(Pick(xs, s))
  {
    var r := Reverse(s);
    assert Pick(xs, r) == Rev(Pick(xs, s)) by {
      forall i | 0 <= i < |r| ensures Pick(xs, r)[i] == Rev(Pick(xs, s))[i] {
        assert r[i] == s[|s| - 1 - i];
      }
    }
    RevMultiset(Pick(xs, s));
  }

  function Rev<T>(s: seq<T>): (r: seq<T>)
    ensures |r| == |s| && forall i :: 0 <= i < |s| ==> r[i] == s[|s| - 1 - i]
  {
    if s == [] then [] else [s[|s| - 1]] + Rev(s[..|s| - 1])
  }

  lemma {:induction false} RevMultiset<T>(s: seq<T>)
    ensures multiset(Rev(s)) == multiset(s)
  {
    if s != [] {
      RevMultiset(s[..|s| - 1]);
      assert s == s[..|s| - 1] + [s[|s| - 1]];
    }
  }

  /** With no BM25 weight and non-negative distances the mix is a pure
      distance order: nearest hit first. */
  lemma Bm25MixWithoutBm25(hits: seq<Hit>, bm: seq<real>)
    requires |bm| == |hits| && |hits| > 0
    requires forall i :: 0 <= i < |hits| ==> hits[i].dist >= 0.0
    ensures Bm25Mix(hits, bm, 0.0).Success?
    ensures var r := Bm25Mix(hits, bm, 0.0).value;
      forall a, b :: 0 <= a < b < |r| ==> r[a].dist <= r[b].dist
  {
    var d := Dists(hits);
    assert d[0] >= 0.0;
    assert Scale(hits) > 0.0;
    Bm25MixFacts(hits, bm, 0.0);
    MixOrderFacts(hits, bm, 0.0);
    var m := Mixed(hits, bm, 0.0);
    var o := MixOrder(hits, bm, 0.0);
    var r := Bm25Mix(hits, bm, 0.0).value;
    forall a, b | 0 <= a < b < |r| ensures r[a].dist <= r[b].dist {
      var x, y := hits[o[a]].dist, hits[o[b]].dist;
      assert m[o[a]] == 1.0 - x / Scale(hits) && m[o[b]] == 1.0 - y / Scale(hits);
      DivideMonotone(x, y, Scale(hits));
    }
  }

  lemma DivideMonotone(x: real, y: real, c: real)
    requires c > 0.0 && x / c <= y / c
    ensures x <= y
  {
    assert x == (x / c) * c && y == (y / c) * c;
  }

  /** `sorted(zip(hits, scores), key=score, reverse=True)`: descending by
      score; being a stable sort, equal scores keep their input order. */
  function RerankOrder(hits: seq<Hit>, ce: string -> real): seq<nat> {
    StableOrder(seq(|hits|, i requires 0 <= i < |hits| => -ce(hits[i].doc)))
  }

  /** `rerank_cross_encoder`. `ce(doc)` is the cross-encoder's score of the
      pair (query, doc). */
  function Rerank(hits: seq<Hit>, ce: string -> real): seq<Hit> {
    Pick(hits, RerankOrder(hits, ce))
  }

  /** Best cross-encoder score first. */
  predicate BestFirst(hs: seq<Hit>, ce: string -> real) {
    forall a, b :: 0 <= a < b < |hs| ==> ce(hs[a].doc) >= ce(hs[b].doc)
  }

  /** Reranking returns the same hits, each once, best score first, and
      keeps the input order of equal scores. */
  lemma RerankFacts(hits: seq<Hit>, ce: string -> real)
    ensures var r := Rerank(hits, ce);
      var o := RerankOrder(hits, ce);
      && multiset(r) == multiset(hits)
      && |o| == |hits| && IndicesIn(o, |hits|)
      && (forall a :: 0 <= a < |r| ==> r[a] == hits[o[a]])
      && BestFirst(r, ce)
      && (forall a, b :: 0 <= a < b < |r| && ce(r[a].doc) == ce(r[b].doc) ==> o[a] < o[b])
  {
    var keys := seq(|hits|, i requires 0 <= i < |hits| => -ce(hits[i].doc));
    var o := StableOrder(keys);
    StableOrderPermutes(hits, keys);
    StableOrderSorted(keys, o);
    var r := Rerank(hits, ce);
    forall a, b | 0 <= a < b < |r|
      ensures ce(r[a].doc) >= ce(r[b].doc)
      ensures ce(r[a].doc) == ce(r[b].doc) ==> o[a] < o[b]
    {
      assert keys[o[a]] == -ce(r[a].doc) && keys[o[b]] == -ce(r[b].doc);
    }
  }
}
