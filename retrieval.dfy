/** Candidate retrieval of the RAG query path: how many hits are asked of the
    vector store, and how the answer set is chosen from them, either by plain
    distance order or by greedy maximal marginal relevance (MMR). The store
    query and the embedding model are parameters. */
module Retrieval {
  import opened Util
  import opened Sorting

  /** The metadata stored with every chunk at ingestion. */
  datatype Meta = Meta(source: string, chunkIdx: int)

  /** One hit of a store query: chunk text, metadata and cosine distance. */
  datatype Hit = Hit(doc: string, meta: Meta, dist: real)

  /** Number of results asked of the store: three times `k` under MMR, so the
      greedy step has something to choose from, and never fewer than `k`. */
  function CandidateCount(k: int, mmr: bool): (n: int)
    ensures n >= k
    ensures n == if mmr && k > 0 then 3 * k else k
  {
    Max(if mmr then k * 3 else k, k)
  }

  function Dists(items: seq<Hit>): (d: seq<real>)
    ensures |d| == |items| && forall i :: 0 <= i < |items| ==> d[i] == items[i].dist
  {
    seq(|items|, i requires 0 <= i < |items| => items[i].dist)
  }

  /** `sorted(items, key=lambda x: x["dist"])`. */
  function ByDistance(items: seq<Hit>): seq<Hit> {
    Pick(items, StableOrder(Dists(items)))
  }

  /** The plain retrieval result: the `k` nearest hits, nearest first. */
  function Nearest(items: seq<Hit>, k: int): seq<Hit> {
    Prefix(ByDistance(items), k)
  }

  predicate SortedByDist(s: seq<Hit>) {
    forall a, b :: 0 <= a < b < |s| ==> s[a].dist <= s[b].dist
  }

  /** Sorting by distance permutes the hits into ascending distance. */
  lemma ByDistanceFacts(items: seq<Hit>)
    ensures multiset(ByDistance(items)) == multiset(items)
    ensures SortedByDist(ByDistance(items))
  {
    var full := ByDistance(items);
    var order := StableOrder(Dists(items));
    StableOrderPermutes(items, Dists(items));
    forall a, b | 0 <= a < b < |full| ensures full[a].dist <= full[b].dist {
      assert Before(Dists(items), order[a], order[b]);
    }
  }

  /** What a prefix leaves out is found after it. */
  lemma LeftOutIsAfter(full: seq<Hit>, r: seq<Hit>, x: Hit) returns (b: nat)
    requires |r| <= |full| && r == full[..|r|]
    requires x in multiset(full) - multiset(r)
    ensures |r| <= b < |full| && full[b] == x
  {
    var rest := full[|r|..];
    assert full == r + rest;
    assert multiset(full) == multiset(r) + multiset(rest);
    assert x in multiset(rest);
    var j :| 0 <= j < |rest| && rest[j] == x;
    b := |r| + j;
  }

  /** A prefix of a sorted sequence is sorted, and nothing after it is
      nearer than anything in it. */
  lemma SortedPrefix(full: seq<Hit>, r: seq<Hit>)
    requires SortedByDist(full) && |r| <= |full| && r == full[..|r|]
    ensures multiset(r) <= multiset(full)
    ensures SortedByDist(r)
    ensures forall a, x :: 0 <= a < |r| && x in multiset(full) - multiset(r) ==> r[a].dist <= x.dist
  {
    assert full == r + full[|r|..];
    assert multiset(full) == multiset(r) + multiset(full[|r|..]);
    forall a, x | 0 <= a < |r| && x in multiset(full) - multiset(r) ensures r[a].dist <= x.dist {
      var b := LeftOutIsAfter(full, r, x);
      assert r[a] == full[a];
    }
  }

  /** Without MMR: `min(k, n)` hits, in ascending distance, taken from the
      candidates, and no hit left out is nearer than a hit kept. */
  lemma NearestFacts(items: seq<Hit>, k: int)
    ensures k >= 0 ==> |Nearest(items, k)| == Min(k, |items|)
    ensures multiset(Nearest(items, k)) <= multiset(items)
    ensures SortedByDist(Nearest(items, k))
    ensures forall a, x :: 0 <= a < |Nearest(items, k)| && x in multiset(items) - multiset(Nearest(items, k)) ==>
      Nearest(items, k)[a].dist <= x.dist
  {
    ByDistanceFacts(items);
    SortedPrefix(ByDistance(items), Nearest(items, k));
  }

  /** `np.dot` on two vectors (of one model, hence of one length). */
  function Dot(u: seq<real>, v: seq<real>): real {
    if |u| == 0 || |v| == 0 then 0.0 else u[0] * v[0] + Dot(u[1..], v[1..])
  }

  /** Largest similarity of candidate `i` to an already selected chunk. */
  function MaxSim(emb: seq<seq<real>>, sel: seq<nat>, i: nat): (m: real)
    requires |sel| > 0 && IndicesIn(sel, |emb|) && i < |emb|
    ensures forall j :: 0 <= j < |sel| ==> Dot(emb[i], emb[sel[j]]) <= m
    ensures exists j :: 0 <= j < |sel| && Dot(emb[i], emb[sel[j]]) == m
  {
    var d := Dot(emb[i], emb[sel[0]]);
    if |sel| == 1 then d
    else
      var rest := MaxSim(emb, sel[1..], i);
      assert forall j :: 1 <= j < |sel| ==> sel[j] == sel[1..][j - 1];
      if d >= rest then d else rest
  }

  /** Weight of query relevance against redundancy in the MMR score. */
  const Lambda: real := 0.75

  /** `lam * (1 - dist_i) - (1 - lam) * max_j dot(e_i, e_j)` over selected `j`. */
  function MmrScore(dists: seq<real>, emb: seq<seq<real>>, sel: seq<nat>, i: nat): real
    requires |emb| == |dists| && |sel| > 0 && IndicesIn(sel, |dists|) && i < |dists|
  {
    Lambda * (1.0 - dists[i]) - (1.0 - Lambda) * MaxSim(emb, sel, i)
  }

  /** What the greedy step maximises: before anything is selected the nearest
      candidate wins (`min` by distance), afterwards the MMR score. */
  function Key(dists: seq<real>, emb: seq<seq<real>>, sel: seq<nat>, i: nat): real
    requires |emb| == |dists| && IndicesIn(sel, |dists|) && i < |dists|
  {
    if sel == [] then -dists[i] else MmrScore(dists, emb, sel, i)
  }

  function Keys(dists: seq<real>, emb: seq<seq<real>>, sel: seq<nat>, cand: seq<nat>): (v: seq<real>)
    requires |emb| == |dists| && IndicesIn(sel, |dists|) && IndicesIn(cand, |dists|)
    ensures |v| == |cand| && forall q :: 0 <= q < |cand| ==> v[q] == Key(dists, emb, sel, cand[q])
  {
    seq(|cand|, q requires 0 <= q < |cand| => Key(dists, emb, sel, cand[q]))
  }

  /** Python's `max` over candidates met in order: the first position holding
      the largest value. */
  function FirstMax(v: seq<real>): (p: nat)
    requires |v| > 0
    ensures p < |v|
    ensures forall q :: 0 <= q < |v| ==> v[q] <= v[p]
    ensures forall q :: 0 <= q < p ==> v[q] < v[p]
  {
    if |v| == 1 then 0
    else
      var p := FirstMax(v[..|v| - 1]);
      assert forall q :: 0 <= q < |v| - 1 ==> v[q] == v[..|v| - 1][q];
      if v[|v| - 1] > v[p] then |v| - 1 else p
  }

  /** The greedy loop from a given state: `sel` picked so far, `cand` the
      candidates still open, in the order a set of small integers iterates. */
  function MmrFrom(dists: seq<real>, emb: seq<seq<real>>, k: int, sel: seq<nat>, cand: seq<nat>): (r: seq<nat>)
    requires |emb| == |dists| && IndicesIn(sel, |dists|) && IndicesIn(cand, |dists|)
    decreases |cand|
  {
    if |cand| == 0 || |sel| >= k then sel
    else
      var p := FirstMax(Keys(dists, emb, sel, cand));
      MmrFrom(dists, emb, k, sel + [cand[p]], cand[..p] + cand[p + 1..])
  }

  /** The indices MMR selects, in pick order. */
  function Mmr(dists: seq<real>, emb: seq<seq<real>>, k: int): (r: seq<nat>)
    requires |emb| == |dists|
    ensures IndicesIn(r, |dists|)
  {
    MmrFromShape(dists, emb, k, [], Range(|dists|));
    MmrFrom(dists, emb, k, [], Range(|dists|))
  }

  predicate Distinct(s: seq<nat>) {
    forall a, b :: 0 <= a < b < |s| ==> s[a] != s[b]
  }

  predicate Increasing(cand: seq<nat>) {
    forall a, b :: 0 <= a < b < |cand| ==> cand[a] < cand[b]
  }

  /** No index of `cand` is in `sel`. */
  predicate Fresh(cand: seq<nat>, sel: seq<nat>) {
    forall j :: 0 <= j < |cand| ==> cand[j] !in sel
  }

  /** `cand` lists, in increasing order, exactly the indices below `n` that
      are not in `sel`. */
  predicate Pending(n: nat, sel: seq<nat>, cand: seq<nat>) {
    && IndicesIn(cand, n)
    && Increasing(cand)
    && Fresh(cand, sel)
    && (forall x :: 0 <= x < n && x !in sel ==> x in cand)
  }

  /** The keys of all `n` indices after `prefix` was picked. */
  function KeyTable(dists: seq<real>, emb: seq<seq<real>>, prefix: seq<nat>): (v: seq<real>)
    requires |emb| == |dists| && IndicesIn(prefix, |dists|)
    ensures |v| == |dists|
  {
    seq(|dists|, j requires 0 <= j < |dists| => Key(dists, emb, prefix, j))
  }

  /** `x` is not in `taken`, no other index outside `taken` has a larger
      key, and every smaller such index has a strictly smaller key. */
  predicate Best(v: seq<real>, taken: seq<nat>, x: nat) {
    && x < |v| && x !in taken
    && forall j :: 0 <= j < |v| && j !in taken ==> v[j] <= v[x] && (j < x ==> v[j] < v[x])
  }

  /** `x` is what the greedy step picks after `prefix`: the first unpicked
      index with the largest key. */
  predicate GoodPick(dists: seq<real>, emb: seq<seq<real>>, prefix: seq<nat>, x: nat)
    requires |emb| == |dists| && IndicesIn(prefix, |dists|)
  {
    Best(KeyTable(dists, emb, prefix), prefix, x)
  }

  lemma PickIsGood(dists: seq<real>, emb: seq<seq<real>>, sel: seq<nat>, cand: seq<nat>)
    requires |emb| == |dists| && IndicesIn(sel, |dists|)
    requires Pending(|dists|, sel, cand) && |cand| > 0
    ensures GoodPick(dists, emb, sel, cand[FirstMax(Keys(dists, emb, sel, cand))])
  {
    var v := Keys(dists, emb, sel, cand);
    var w := KeyTable(dists, emb, sel);
    var p := FirstMax(v);
    assert w[cand[p]] == v[p];
    forall j | 0 <= j < |dists| && j !in sel
      ensures w[j] <= w[cand[p]] && (j < cand[p] ==> w[j] < w[cand[p]])
    {
      var q :| 0 <= q < |cand| && cand[q] == j;
      assert w[j] == v[q];
      if j < cand[p] {
        assert q < p;
      }
    }
  }

  /** Every pick of `r` from position `from` on is a good pick. */
  predicate GoodFrom(dists: seq<real>, emb: seq<seq<real>>, r: seq<nat>, from: nat)
    requires |emb| == |dists| && IndicesIn(r, |dists|)
  {
    forall t :: from <= t < |r| ==> GoodPick(dists, emb, r[..t], r[t])
  }

  /** A pick followed by good picks is a run of good picks. */
  lemma GoodRun(dists: seq<real>, emb: seq<seq<real>>, sel: seq<nat>, x: nat, r: seq<nat>)
    requires |emb| == |dists| && IndicesIn(r, |dists|) && IndicesIn(sel, |dists|)
    requires |sel| < |r| && r[..|sel| + 1] == sel + [x]
    requires GoodPick(dists, emb, sel, x)
    requires GoodFrom(dists, emb, r, |sel| + 1)
    ensures GoodFrom(dists, emb, r, |sel|)
  {
    assert r[..|sel|] == sel by { assert r[..|sel|] == r[..|sel| + 1][..|sel|]; }
    assert r[|sel|] == x by { assert r[|sel|] == r[..|sel| + 1][|sel|]; }
  }

  lemma RemoveAt(cand: seq<nat>, p: nat)
    requires p < |cand|
    ensures var c := cand[..p] + cand[p + 1..];
      && |c| == |cand| - 1
      && forall j :: 0 <= j < |c| ==> c[j] == if j < p then cand[j] else cand[j + 1]
  {
  }

  lemma RemoveIncreasing(cand: seq<nat>, p: nat)
    requires Increasing(cand) && p < |cand|
    ensures Increasing(cand[..p] + cand[p + 1..])
  {
    var c := cand[..p] + cand[p + 1..];
    RemoveAt(cand, p);
    forall a, b | 0 <= a < b < |c| ensures c[a] < c[b] {
      var a' := if a < p then a else a + 1;
      var b' := if b < p then b else b + 1;
      assert c[a] == cand[a'] && c[b] == cand[b'];
    }
  }

  lemma RemoveFresh(n: nat, sel: seq<nat>, cand: seq<nat>, p: nat)
    requires IndicesIn(cand, n) && Increasing(cand) && p < |cand|
    requires Fresh(cand, sel)
    ensures IndicesIn(cand[..p] + cand[p + 1..], n)
    ensures Fresh(cand[..p] + cand[p + 1..], sel + [cand[p]])
  {
    var c := cand[..p] + cand[p + 1..];
    var s := sel + [cand[p]];
    RemoveAt(cand, p);
    forall j | 0 <= j < |c| ensures c[j] < n && c[j] !in s {
      var j' := if j < p then j else j + 1;
      assert c[j] == cand[j'] && j' != p;
      assert cand[j'] != cand[p];
    }
  }

  lemma RemoveCovers(n: nat, sel: seq<nat>, cand: seq<nat>, p: nat)
    requires p < |cand|
    requires forall x :: 0 <= x < n && x !in sel ==> x in cand
    ensures forall x :: 0 <= x < n && x !in sel + [cand[p]] ==> x in cand[..p] + cand[p + 1..]
  {
    var c := cand[..p] + cand[p + 1..];
    var s := sel + [cand[p]];
    RemoveAt(cand, p);
    forall x | 0 <= x < n && x !in s ensures x in c {
      assert x !in sel;
      var q :| 0 <= q < |cand| && cand[q] == x;
      if q < p { assert c[q] == x; } else { assert c[q - 1] == x; }
    }
  }

  lemma PendingAfterPick(n: nat, sel: seq<nat>, cand: seq<nat>, p: nat)
    requires Pending(n, sel, cand) && p < |cand|
    ensures Pending(n, sel + [cand[p]], cand[..p] + cand[p + 1..])
  {
    RemoveIncreasing(cand, p);
    RemoveFresh(n, sel, cand, p);
    RemoveCovers(n, sel, cand, p);
  }

  /** One greedy step keeps both index lists within range. */
  lemma StepIndices(n: nat, sel: seq<nat>, cand: seq<nat>, p: nat)
    requires IndicesIn(sel, n) && IndicesIn(cand, n) && p < |cand|
    ensures IndicesIn(sel + [cand[p]], n)
    ensures IndicesIn(cand[..p] + cand[p + 1..], n)
    ensures |cand[..p] + cand[p + 1..]| == |cand| - 1
  {
    RemoveAt(cand, p);
  }

  /** One greedy step: the pick leaves the open candidates and joins the
      selection, and the greedy run goes on from there. */
  lemma MmrFromStep(dists: seq<real>, emb: seq<seq<real>>, k: int, sel: seq<nat>, cand: seq<nat>, p: nat)
    requires |emb| == |dists| && IndicesIn(sel, |dists|) && IndicesIn(cand, |dists|)
    requires |cand| > 0 && |sel| < k && p == FirstMax(Keys(dists, emb, sel, cand))
    ensures IndicesIn(sel + [cand[p]], |dists|) && IndicesIn(cand[..p] + cand[p + 1..], |dists|)
    ensures |cand[..p] + cand[p + 1..]| == |cand| - 1
    ensures MmrFrom(dists, emb, k, sel, cand) == MmrFrom(dists, emb, k, sel + [cand[p]], cand[..p] + cand[p + 1..])
  {
    StepIndices(|dists|, sel, cand, p);
  }

  /** A result that extends `sel + [x]` extends `sel`. */
  lemma ExtendsPrefix(sel: seq<nat>, x: nat, r: seq<nat>)
    requires |sel| + 1 <= |r| && r[..|sel| + 1] == sel + [x]
    ensures r[..|sel|] == sel
  {
    assert r[..|sel|] == r[..|sel| + 1][..|sel|];
  }

  /** Shape of the greedy result: it extends `sel` by one pick per step
      while candidates remain and fewer than `k` are picked. */
  lemma {:induction false} MmrFromShape(dists: seq<real>, emb: seq<seq<real>>, k: int, sel: seq<nat>, cand: seq<nat>)
    requires |emb| == |dists| && IndicesIn(sel, |dists|) && IndicesIn(cand, |dists|)
    ensures |MmrFrom(dists, emb, k, sel, cand)| == (if |sel| >= k then |sel| else Min(k, |sel| + |cand|))
    ensures MmrFrom(dists, emb, k, sel, cand)[..|sel|] == sel
    ensures IndicesIn(MmrFrom(dists, emb, k, sel, cand), |dists|)
    decreases |cand|
  {
    if |cand| > 0 && |sel| < k {
      var p := FirstMax(Keys(dists, emb, sel, cand));
      var s := sel + [cand[p]];
      var c := cand[..p] + cand[p + 1..];
      MmrFromStep(dists, emb, k, sel, cand, p);
      MmrFromShape(dists, emb, k, s, c);
      var r := MmrFrom(dists, emb, k, s, c);
      assert |s| + |c| == |sel| + |cand|;
      ExtendsPrefix(sel, cand[p], r);
    } else {
      assert MmrFrom(dists, emb, k, sel, cand) == sel;
    }
  }

  lemma {:induction false} MmrFromDistinct(dists: seq<real>, emb: seq<seq<real>>, k: int, sel: seq<nat>, cand: seq<nat>)
    requires |emb| == |dists| && IndicesIn(sel, |dists|) && Distinct(sel)
    requires Pending(|dists|, sel, cand)
    ensures Distinct(MmrFrom(dists, emb, k, sel, cand))
    decreases |cand|
  {
    if |cand| > 0 && |sel| < k {
      var p := FirstMax(Keys(dists, emb, sel, cand));
      var s := sel + [cand[p]];
      MmrFromStep(dists, emb, k, sel, cand, p);
      PendingAfterPick(|dists|, sel, cand, p);
      assert Distinct(s) by {
        assert cand[p] !in sel;
        forall a, b | 0 <= a < b < |s| ensures s[a] != s[b] {
          if b == |sel| { assert s[a] == sel[a]; }
        }
      }
      MmrFromDistinct(dists, emb, k, s, cand[..p] + cand[p + 1..]);
    }
  }

  lemma {:induction false} MmrFromGood(dists: seq<real>, emb: seq<seq<real>>, k: int, sel: seq<nat>, cand: seq<nat>)
    requires |emb| == |dists| && IndicesIn(sel, |dists|)
    requires Pending(|dists|, sel, cand)
    ensures IndicesIn(MmrFrom(dists, emb, k, sel, cand), |dists|)
    ensures GoodFrom(dists, emb, MmrFrom(dists, emb, k, sel, cand), |sel|)
    decreases |cand|
  {
    MmrFromShape(dists, emb, k, sel, cand);
    if |cand| > 0 && |sel| < k {
      var p := FirstMax(Keys(dists, emb, sel, cand));
      var s := sel + [cand[p]];
      var c := cand[..p] + cand[p + 1..];
      MmrFromStep(dists, emb, k, sel, cand, p);
      PickIsGood(dists, emb, sel, cand);
      PendingAfterPick(|dists|, sel, cand, p);
      MmrFromGood(dists, emb, k, s, c);
      MmrFromShape(dists, emb, k, s, c);
      var r := MmrFrom(dists, emb, k, s, c);
      GoodRun(dists, emb, sel, cand[p], r);
    }
  }

  lemma RangePending(n: nat)
    ensures Pending(n, [], Range(n))
  {
    forall x | 0 <= x < n ensures x in Range(n) {
      assert Range(n)[x] == x;
    }
  }

  /** MMR picks `min(k, n)` distinct candidates. */
  lemma MmrSelection(dists: seq<real>, emb: seq<seq<real>>, k: int)
    requires |emb| == |dists|
    ensures var r := Mmr(dists, emb, k);
      && |r| == (if k <= 0 then 0 else Min(k, |dists|))
      && IndicesIn(r, |dists|) && Distinct(r)
  {
    RangePending(|dists|);
    MmrFromShape(dists, emb, k, [], Range(|dists|));
    MmrFromDistinct(dists, emb, k, [], Range(|dists|));
  }

  /** Each MMR pick is the unpicked candidate with the largest key (the
      nearest one first, then the best MMR score), ties going to the
      smallest index. */
  lemma MmrGreedy(dists: seq<real>, emb: seq<seq<real>>, k: int)
    requires |emb| == |dists|
    ensures IndicesIn(Mmr(dists, emb, k), |dists|)
    ensures forall t :: 0 <= t < |Mmr(dists, emb, k)| ==>
      GoodPick(dists, emb, Mmr(dists, emb, k)[..t], Mmr(dists, emb, k)[t])
  {
    RangePending(|dists|);
    MmrFromGood(dists, emb, k, [], Range(|dists|));
  }

  /** The first MMR pick is a nearest candidate, the first of them in order. */
  lemma MmrFirstNearest(dists: seq<real>, emb: seq<seq<real>>, k: int)
    requires |emb| == |dists| && k > 0 && |dists| > 0
    ensures var r := Mmr(dists, emb, k);
      && |r| > 0 && r[0] < |dists|
      && (forall j :: 0 <= j < |dists| ==> dists[r[0]] <= dists[j])
      && (forall j :: 0 <= j < r[0] ==> dists[r[0]] < dists[j])
  {
    MmrSelection(dists, emb, k);
    MmrGreedy(dists, emb, k);
    var r := Mmr(dists, emb, k);
    assert r[..0] == [];
    assert GoodPick(dists, emb, [], r[0]);
    var w := KeyTable(dists, emb, []);
    forall j | 0 <= j < |dists| ensures w[j] == -dists[j] {
    }
  }

  /** The MMR loop: `selected` grows by the best open candidate, which leaves
      the open set, until `k` are selected or none is left. */
  method SelectMmr(dists: seq<real>, emb: seq<seq<real>>, k: int) returns (selected: seq<nat>)
    requires |emb| == |dists|
    ensures selected == Mmr(dists, emb, k)
  {
    selected := [];
    var cand := Range(|dists|);
    while |cand| > 0 && |selected| < k
      invariant IndicesIn(selected, |dists|) && IndicesIn(cand, |dists|)
      invariant MmrFrom(dists, emb, k, selected, cand) == MmrFrom(dists, emb, k, [], Range(|dists|))
      decreases |cand|
    {
      var best := FirstMax(Keys(dists, emb, selected, cand));
      MmrFromStep(dists, emb, k, selected, cand, best);
      selected := selected + [cand[best]];
      cand := cand[..best] + cand[best + 1..];
    }
  }

  function Embeddings(items: seq<Hit>, embed: string -> seq<real>): (e: seq<seq<real>>)
    ensures |e| == |items| && forall i :: 0 <= i < |items| ==> e[i] == embed(items[i].doc)
  {
    seq(|items|, i requires 0 <= i < |items| => embed(items[i].doc))
  }

  /** What `retrieve` returns for the candidates the store answered. */
  function Retrieved(cands: seq<Hit>, embed: string -> seq<real>, k: int, mmr: bool): seq<Hit> {
    if mmr then
      Pick(cands, Mmr(Dists(cands), Embeddings(cands, embed), k))
    else Nearest(cands, k)
  }

  /** `retrieve`: ask the store for `CandidateCount(k, mmr)` hits, then
      select. `search(n)` is the store's answer to a query for `n` results. */
  method Retrieve(search: int -> seq<Hit>, embed: string -> seq<real>, k: int, mmr: bool)
    returns (items: seq<Hit>)
    ensures items == Retrieved(search(CandidateCount(k, mmr)), embed, k, mmr)
  {
    var cands := search(CandidateCount(k, mmr));
    if mmr {
      var emb := Embeddings(cands, embed);
      var selected := SelectMmr(Dists(cands), emb, k);
      MmrSelection(Dists(cands), emb, k);
      items := Pick(cands, selected);
    } else {
      items := Nearest(cands, k);
    }
  }

  /** Whatever the mode, `retrieve` returns `min(k, n)` of the candidates. */
  lemma RetrievedFacts(cands: seq<Hit>, embed: string -> seq<real>, k: int, mmr: bool)
    requires k >= 0
    ensures var r := Retrieved(cands, embed, k, mmr);
      && |r| == Min(k, |cands|)
      && forall i :: 0 <= i < |r| ==> r[i] in cands
  {
    var r := Retrieved(cands, embed, k, mmr);
    if mmr {
      MmrSelection(Dists(cands), Embeddings(cands, embed), k);
    } else {
      NearestFacts(cands, k);
      forall i | 0 <= i < |r| ensures r[i] in cands {
        assert r[i] in multiset(r);
      }
    }
  }
}
