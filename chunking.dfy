/** The ingestion side of the RAG prototype: the sliding token window of
    `token_chunk` and the parallel id/text/metadata lists that ingestion
    builds from every document's chunks.

    Tokens are integers; the tokenizer's `encode` and `decode` are parameters,
    since every property here is about token spans and none about the
    tokenizer itself. */
module Chunking {
  import opened Util

  /** Window size and overlap used at ingestion (`CHUNK_TOKENS`, `CHUNK_OVERLAP`). */
  const ChunkTokens: int := 400
  const ChunkOverlap: int := 80

  /** The half-open token range `[start, end)` that one chunk covers. */
  datatype Span = Span(start: nat, end: nat)

  /** The configurations for which the loop of `token_chunk` stops, for a
      positive window size: either the whole sequence fits in the first
      window, or the overlap is smaller than the window. */
  predicate Terminates(n: nat, maxTokens: int, overlap: int) {
    maxTokens > 0 && (n <= maxTokens || overlap < maxTokens)
  }

  /** The windows the loop visits when it is at `start`; `Windows` is the
      whole run, from 0. */
  function WindowsFrom(n: nat, maxTokens: int, overlap: int, start: nat): (w: seq<Span>)
    requires Terminates(n, maxTokens, overlap)
    decreases n - start
  {
    if start >= n then []
    else
      var end := Min(start + maxTokens, n);
      if end == n then [Span(start, end)]
      else [Span(start, end)] + WindowsFrom(n, maxTokens, overlap, Max(0, end - overlap))
  }

  function Windows(n: nat, maxTokens: int, overlap: int): seq<Span>
    requires Terminates(n, maxTokens, overlap)
  {
    WindowsFrom(n, maxTokens, overlap, 0)
  }

  /** Python's slice `s[a:b]` for non-negative bounds: both bounds are
      clipped to the length, and an inverted range is empty. */
  function Slice(s: seq<int>, a: nat, b: nat): (r: seq<int>)
    ensures a <= b <= |s| ==> r == s[a..b]
  {
    var lo := Min(a, |s|);
    s[lo..Max(Min(b, |s|), lo)]
  }

  /** The chunk texts: each span's tokens, decoded, in span order. */
  function Decoded(toks: seq<int>, spans: seq<Span>, decode: seq<int> -> string): (texts: seq<string>)
    ensures |texts| == |spans|
  {
    if spans == [] then []
    else [decode(Slice(toks, spans[0].start, spans[0].end))] + Decoded(toks, spans[1..], decode)
  }

  /** Chunk `i` is the decoding of exactly the tokens of window `i`. */
  lemma {:induction false} DecodedAt(toks: seq<int>, spans: seq<Span>, decode: seq<int> -> string, i: nat)
    requires i < |spans|
    ensures Decoded(toks, spans, decode)[i] == decode(Slice(toks, spans[i].start, spans[i].end))
    decreases i
  {
    if i > 0 {
      DecodedAt(toks, spans[1..], decode, i - 1);
    }
  }

  /** One turn of the loop: the chunk of the window at `start`, then the
      rest of the run (nothing once the window reaches the end). */
  lemma DecodedStep(toks: seq<int>, maxTokens: int, overlap: int, start: nat, decode: seq<int> -> string)
    requires Terminates(|toks|, maxTokens, overlap) && start < |toks|
    ensures var end := Min(start + maxTokens, |toks|);
      Decoded(toks, WindowsFrom(|toks|, maxTokens, overlap, start), decode) ==
        [decode(toks[start..end])] +
        (if end == |toks| then [] else Decoded(toks, WindowsFrom(|toks|, maxTokens, overlap, Max(0, end - overlap)), decode))
  {
    var n := |toks|;
    var end := Min(start + maxTokens, n);
    var rest := WindowsFrom(n, maxTokens, overlap, start);
    assert Slice(toks, start, end) == toks[start..end];
    if end < n {
      var later := WindowsFrom(n, maxTokens, overlap, Max(0, end - overlap));
      assert rest == [Span(start, end)] + later && rest[1..] == later;
    }
  }

  /** The loop invariant survives one turn, and the turn that reaches the
      end completes the result. */
  lemma StepKeeps(toks: seq<int>, maxTokens: int, overlap: int, start: nat, end: nat, next: nat,
                  decode: seq<int> -> string, chunk: string, chunks: seq<string>, all: seq<string>)
    requires Terminates(|toks|, maxTokens, overlap) && start < |toks|
    requires end == Min(start + maxTokens, |toks|) && next == Max(0, end - overlap)
    requires chunk == decode(toks[start..end])
    requires chunks + Decoded(toks, WindowsFrom(|toks|, maxTokens, overlap, start), decode) == all
    ensures end == |toks| ==> chunks + [chunk] == all
    ensures end < |toks| ==> next > start
    ensures end < |toks| ==> (chunks + [chunk]) + Decoded(toks, WindowsFrom(|toks|, maxTokens, overlap, next), decode) == all
  {
    DecodedStep(toks, maxTokens, overlap, start, decode);
    if end < |toks| {
      var rest := Decoded(toks, WindowsFrom(|toks|, maxTokens, overlap, next), decode);
      assert chunks + ([chunk] + rest) == (chunks + [chunk]) + rest;
    } else {
      assert [chunk] + [] == [chunk];
    }
  }

  lemma NothingLeft(toks: seq<int>, maxTokens: int, overlap: int, start: nat, decode: seq<int> -> string,
                    chunks: seq<string>)
    requires Terminates(|toks|, maxTokens, overlap) && start >= |toks|
    ensures chunks + Decoded(toks, WindowsFrom(|toks|, maxTokens, overlap, start), decode) == chunks
  {
    assert WindowsFrom(|toks|, maxTokens, overlap, start) == [];
  }

  /** `token_chunk`: slide a window of `maxTokens` tokens over the sequence,
      starting each window `overlap` tokens before the previous one ended,
      and stop after the window that reaches the end. */
  method TokenChunk(toks: seq<int>, decode: seq<int> -> string, maxTokens: int, overlap: int)
    returns (chunks: seq<string>)
    requires Terminates(|toks|, maxTokens, overlap)
    ensures chunks == Decoded(toks, Windows(|toks|, maxTokens, overlap), decode)
  {
    var n := |toks|;
    ghost var all := Decoded(toks, Windows(n, maxTokens, overlap), decode);
    chunks := [];
    var start: nat := 0;
    while start < n
      invariant chunks + Decoded(toks, WindowsFrom(n, maxTokens, overlap, start), decode) == all
      decreases n - start
    {
      var end := Min(start + maxTokens, n);
      var chunk := decode(toks[start..end]);
      StepKeeps(toks, maxTokens, overlap, start, end, Max(0, end - overlap), decode, chunk, chunks, all);
      chunks := chunks + [chunk];
      if end == n {
        break;
      }
      start := Max(0, end - overlap);
    }
    if start >= n {
      NothingLeft(toks, maxTokens, overlap, start, decode, chunks);
    }
  }

  /** Every window of a run lies inside the sequence, at or after where the
      run started, is non-empty and holds at most `maxTokens` tokens. */
  predicate WindowsWithin(w: seq<Span>, n: nat, maxTokens: int, start: nat) {
    forall i :: 0 <= i < |w| ==>
      start <= w[i].start < w[i].end && w[i].end == Min(w[i].start + maxTokens, n)
  }

  lemma {:induction false} WindowsFromWithin(n: nat, maxTokens: int, overlap: int, start: nat)
    requires Terminates(n, maxTokens, overlap)
    ensures WindowsWithin(WindowsFrom(n, maxTokens, overlap, start), n, maxTokens, start)
    decreases n - start
  {
    var end := Min(start + maxTokens, n);
    if start < n && end < n {
      var next := Max(0, end - overlap);
      WindowsFromWithin(n, maxTokens, overlap, next);
      var w := WindowsFrom(n, maxTokens, overlap, start);
      var rest := WindowsFrom(n, maxTokens, overlap, next);
      assert w == [Span(start, end)] + rest;
      forall i | 0 <= i < |w|
        ensures start <= w[i].start < w[i].end && w[i].end == Min(w[i].start + maxTokens, n)
      {
        if i > 0 { assert w[i] == rest[i - 1]; }
      }
    }
  }

  /** Every window lies inside the sequence, is non-empty and holds at most
      `maxTokens` tokens (`end = min(start + max_tokens, len)`). */
  lemma WindowsBounds(n: nat, maxTokens: int, overlap: int, i: nat)
    requires Terminates(n, maxTokens, overlap)
    requires i < |Windows(n, maxTokens, overlap)|
    ensures var w := Windows(n, maxTokens, overlap);
      w[i].start < w[i].end <= n && w[i].end - w[i].start <= maxTokens
  {
    WindowsFromWithin(n, maxTokens, overlap, 0);
  }

  /** A run is empty exactly when there is nothing left to cover, and
      otherwise starts where the loop is; when the overlap is not negative
      its last window ends at the end of the sequence. */
  lemma {:induction false} WindowsFromEnds(n: nat, maxTokens: int, overlap: int, start: nat)
    requires Terminates(n, maxTokens, overlap)
    ensures var w := WindowsFrom(n, maxTokens, overlap, start);
      && (|w| == 0 <==> start >= n)
      && (|w| > 0 ==> w[0].start == start)
      && (|w| > 0 && overlap >= 0 ==> w[|w| - 1].end == n)
    decreases n - start
  {
    var end := Min(start + maxTokens, n);
    if start < n && end < n {
      var next := Max(0, end - overlap);
      WindowsFromEnds(n, maxTokens, overlap, next);
      var rest := WindowsFrom(n, maxTokens, overlap, next);
      var w := WindowsFrom(n, maxTokens, overlap, start);
      assert w == [Span(start, end)] + rest;
      if overlap >= 0 {
        assert w[|w| - 1] == rest[|rest| - 1];
      }
    }
  }

  /** Every window but the last is full and stops short of the end (so the
      window reaching the end is emitted once, as the last), and the next
      window starts at `max(0, end - overlap)`. */
  lemma {:induction false} WindowsFromChained(n: nat, maxTokens: int, overlap: int, start: nat, i: nat)
    requires Terminates(n, maxTokens, overlap)
    requires i + 1 < |WindowsFrom(n, maxTokens, overlap, start)|
    ensures var w := WindowsFrom(n, maxTokens, overlap, start);
      && w[i].end < n && w[i].end == w[i].start + maxTokens
      && w[i + 1].start == Max(0, w[i].end - overlap)
    decreases n - start
  {
    var end := Min(start + maxTokens, n);
    var next := Max(0, end - overlap);
    var w := WindowsFrom(n, maxTokens, overlap, start);
    var rest := WindowsFrom(n, maxTokens, overlap, next);
    assert w == [Span(start, end)] + rest;
    if i > 0 {
      WindowsFromChained(n, maxTokens, overlap, next, i - 1);
      assert w[i] == rest[i - 1] && w[i + 1] == rest[i];
    } else {
      WindowsFromEnds(n, maxTokens, overlap, next);
    }
  }

  /** With a non-negative overlap the windows leave no gap: every token of
      the sequence lies in some window. */
  lemma {:induction false} WindowsCover(n: nat, maxTokens: int, overlap: int, t: nat)
    requires Terminates(n, maxTokens, overlap) && 0 <= overlap
    requires t < n
    ensures exists i :: (0 <= i < |Windows(n, maxTokens, overlap)|
      && Windows(n, maxTokens, overlap)[i].start <= t < Windows(n, maxTokens, overlap)[i].end)
  {
    var w := Windows(n, maxTokens, overlap);
    WindowsFromEnds(n, maxTokens, overlap, 0);
    // The first window whose end lies beyond t holds t.
    var i := 0;
    while w[i].end <= t
      invariant 0 <= i < |w| && w[i].start <= t
      decreases |w| - i
    {
      WindowsFromChained(n, maxTokens, overlap, 0, i);
      i := i + 1;
    }
  }

  /** With `0 <= overlap < maxTokens` the windows advance: each starts
      strictly after the previous one, ends strictly after it, and the two
      share exactly `overlap` tokens. */
  lemma WindowsAdvance(n: nat, maxTokens: int, overlap: int, i: nat)
    requires 0 <= overlap < maxTokens
    requires i + 1 < |Windows(n, maxTokens, overlap)|
    ensures var w := Windows(n, maxTokens, overlap);
      && w[i].start < w[i + 1].start
      && w[i].end < w[i + 1].end
      && w[i].end - w[i + 1].start == overlap
  {
    WindowsFromChained(n, maxTokens, overlap, 0, i);
    WindowsFromWithin(n, maxTokens, overlap, 0);
  }

  /** `ceil(a / b)` for a positive `b` (0 when `a <= 0`), by repeated subtraction. */
  function CeilDiv(a: int, b: nat): int
    requires b > 0
    decreases a
  {
    if a <= 0 then 0 else 1 + CeilDiv(a - b, b)
  }

  /** `CeilDiv(a, b)` is the least `c` with `c * b >= a`. */
  lemma {:induction false} CeilDivIsCeiling(a: int, b: nat)
    requires b > 0
    ensures CeilDiv(a, b) >= 0
    ensures CeilDiv(a, b) * b >= a
    ensures a > 0 ==> (CeilDiv(a, b) - 1) * b < a
    decreases a
  {
    if a > 0 {
      CeilDivIsCeiling(a - b, b);
      var c := CeilDiv(a - b, b);
      assert (1 + c) * b == b + c * b;
    }
  }

  lemma {:induction false} CeilDivMonotone(a: int, a': int, b: nat)
    requires b > 0 && a <= a'
    ensures CeilDiv(a, b) <= CeilDiv(a', b)
    decreases a'
  {
    CeilDivIsCeiling(a', b);
    if a > 0 {
      CeilDivMonotone(a - b, a' - b, b);
    }
  }

  lemma {:induction false} WindowCountFrom(n: nat, maxTokens: int, overlap: int, start: nat)
    requires 0 <= overlap < maxTokens && start < n
    ensures |WindowsFrom(n, maxTokens, overlap, start)|
         == 1 + CeilDiv(n - start - maxTokens, maxTokens - overlap)
    decreases n - start
  {
    if start + maxTokens < n {
      WindowCountFrom(n, maxTokens, overlap, start + maxTokens - overlap);
    }
  }

  /** How many chunks a sequence of `n` tokens yields: none when it is
      empty, one when it fits in a window, and otherwise one plus
      `ceil((n - maxTokens) / (maxTokens - overlap))`; never more than
      `ceil(n / (maxTokens - overlap))`. */
  lemma WindowCount(n: nat, maxTokens: int, overlap: int)
    requires 0 <= overlap < maxTokens
    ensures n == 0 ==> |Windows(n, maxTokens, overlap)| == 0
    ensures 0 < n <= maxTokens ==> |Windows(n, maxTokens, overlap)| == 1
    ensures n > maxTokens ==>
      |Windows(n, maxTokens, overlap)| == 1 + CeilDiv(n - maxTokens, maxTokens - overlap)
    ensures |Windows(n, maxTokens, overlap)| <= CeilDiv(n, maxTokens - overlap)
  {
    if n > 0 {
      var d := maxTokens - overlap;
      WindowCountFrom(n, maxTokens, overlap, 0);
      if n > maxTokens {
        // 1 + ceil((n - maxTokens) / d) == ceil((n - maxTokens + d) / d) <= ceil(n / d)
        assert CeilDiv(n - maxTokens + d, d) == 1 + CeilDiv(n - maxTokens, d);
        CeilDivMonotone(n - maxTokens + d, n, d);
      } else {
        CeilDivIsCeiling(n - d, d);
      }
    }
  }

  /** The start of the loop after `steps` iterations, ignoring its exit
      test: the step is `start := max(0, min(start + maxTokens, n) - overlap)`. */
  function StartAfter(n: nat, maxTokens: int, overlap: int, steps: nat): int
    decreases steps
  {
    if steps == 0 then 0
    else Max(0, Min(StartAfter(n, maxTokens, overlap, steps - 1) + maxTokens, n) - overlap)
  }

  /** The hazard `token_chunk` does not guard against: when the sequence is
      longer than a window and `overlap >= maxTokens`, the loop is back at
      start 0 after every iteration and no window ever reaches the end, so
      the loop never stops. */
  lemma {:induction false} LoopStalls(n: nat, maxTokens: int, overlap: int, steps: nat)
    requires 0 < maxTokens < n && overlap >= maxTokens
    ensures StartAfter(n, maxTokens, overlap, steps) == 0
    ensures Min(StartAfter(n, maxTokens, overlap, steps) + maxTokens, n) < n
    decreases steps
  {
    if steps > 0 {
      LoopStalls(n, maxTokens, overlap, steps - 1);
    }
  }

  /** A document as ingestion reads it. */
  datatype Doc = Doc(path: string, text: string)

  /** The metadata stored with each chunk: `{"source": path, "chunk_idx": i}`. */
  datatype ChunkMeta = ChunkMeta(source: string, chunkIdx: nat)

  /** The chunks of one document under the ingestion configuration. */
  function DocChunks(d: Doc, encode: string -> seq<int>, decode: seq<int> -> string): seq<string> {
    var toks := encode(d.text);
    Decoded(toks, Windows(|toks|, ChunkTokens, ChunkOverlap), decode)
  }

  /** The metadata of `count` chunks of the document at `path`, numbered from 0. */
  function NumberedMetas(path: string, count: nat): (r: seq<ChunkMeta>)
    ensures |r| == count
    ensures forall j :: 0 <= j < count ==> r[j] == ChunkMeta(path, j)
  {
    if count == 0 then [] else NumberedMetas(path, count - 1) + [ChunkMeta(path, count - 1)]
  }

  /** All chunk texts, document after document. */
  function AllTexts(docs: seq<Doc>, encode: string -> seq<int>, decode: seq<int> -> string): seq<string> {
    if docs == [] then []
    else AllTexts(docs[..|docs| - 1], encode, decode) + DocChunks(docs[|docs| - 1], encode, decode)
  }

  /** The metadata of all chunks: each document's chunks numbered 0, 1, ... */
  function AllMetas(docs: seq<Doc>, encode: string -> seq<int>, decode: seq<int> -> string): seq<ChunkMeta> {
    if docs == [] then []
    else
      var d := docs[|docs| - 1];
      AllMetas(docs[..|docs| - 1], encode, decode)
        + NumberedMetas(d.path, |DocChunks(d, encode, decode)|)
  }

  /** The loop of `main` that builds `ids`, `texts` and `metadatas`.
      `newId(k)` stands for the k-th identifier drawn from `uuid.uuid4()`. */
  method Ingest(docs: seq<Doc>, encode: string -> seq<int>, decode: seq<int> -> string, newId: nat -> string)
    returns (ids: seq<string>, texts: seq<string>, metas: seq<ChunkMeta>)
    ensures |ids| == |texts| == |metas|
    ensures texts == AllTexts(docs, encode, decode)
    ensures metas == AllMetas(docs, encode, decode)
    ensures forall k :: 0 <= k < |ids| ==> ids[k] == newId(k)
  {
    ids, texts, metas := [], [], [];
    for di := 0 to |docs|
      invariant |ids| == |texts| == |metas|
      invariant texts == AllTexts(docs[..di], encode, decode)
      invariant metas == AllMetas(docs[..di], encode, decode)
      invariant forall k :: 0 <= k < |ids| ==> ids[k] == newId(k)
    {
      var d := docs[di];
      var chunks := TokenChunk(encode(d.text), decode, ChunkTokens, ChunkOverlap);
      assert chunks == DocChunks(d, encode, decode);
      IngestPrefix(docs, di, encode, decode);
      ids, texts, metas := AppendChunks(ids, texts, metas, d.path, chunks, newId);
    }
    assert docs[..|docs|] == docs;
  }

  /** The inner loop of `main`: one entry per chunk of the document at
      `path`, with `chunk_idx` counting from 0. */
  method AppendChunks(ids: seq<string>, texts: seq<string>, metas: seq<ChunkMeta>,
                      path: string, chunks: seq<string>, newId: nat -> string)
    returns (ids': seq<string>, texts': seq<string>, metas': seq<ChunkMeta>)
    requires |ids| == |texts| == |metas|
    requires forall k :: 0 <= k < |ids| ==> ids[k] == newId(k)
    ensures |ids'| == |texts'| == |metas'|
    ensures texts' == texts + chunks
    ensures metas' == metas + NumberedMetas(path, |chunks|)
    ensures forall k :: 0 <= k < |ids'| ==> ids'[k] == newId(k)
  {
    ids', texts', metas' := ids, texts, metas;
    for i := 0 to |chunks|
      invariant |ids'| == |texts'| == |metas'|
      invariant texts' == texts + chunks[..i]
      invariant metas' == metas + NumberedMetas(path, i)
      invariant forall k :: 0 <= k < |ids'| ==> ids'[k] == newId(k)
    {
      ids' := ids' + [newId(|ids'|)];
      assert chunks[..i + 1] == chunks[..i] + [chunks[i]];
      texts' := texts' + [chunks[i]];
      metas' := metas' + [ChunkMeta(path, i)];
    }
    assert chunks[..|chunks|] == chunks;
  }

  lemma IngestPrefix(docs: seq<Doc>, di: nat, encode: string -> seq<int>, decode: seq<int> -> string)
    requires di < |docs|
    ensures AllTexts(docs[..di + 1], encode, decode)
         == AllTexts(docs[..di], encode, decode) + DocChunks(docs[di], encode, decode)
    ensures AllMetas(docs[..di + 1], encode, decode)
         == AllMetas(docs[..di], encode, decode)
          + NumberedMetas(docs[di].path, |DocChunks(docs[di], encode, decode)|)
  {
    assert docs[..di + 1][..di] == docs[..di];
  }

  /** The offset of document `d`'s first chunk in the ingestion lists. */
  function Offset(docs: seq<Doc>, d: nat, encode: string -> seq<int>, decode: seq<int> -> string): nat
    requires d <= |docs|
  {
    |AllTexts(docs[..d], encode, decode)|
  }

  /** Chunk `i` of document `d` is text number `Offset(d) + i`. */
  lemma {:induction false} IngestedText(docs: seq<Doc>, d: nat, i: nat, encode: string -> seq<int>, decode: seq<int> -> string)
    requires d < |docs| && i < |DocChunks(docs[d], encode, decode)|
    ensures Offset(docs, d, encode, decode) + i < |AllTexts(docs, encode, decode)|
    ensures AllTexts(docs, encode, decode)[Offset(docs, d, encode, decode) + i]
         == DocChunks(docs[d], encode, decode)[i]
    decreases |docs|
  {
    var init := docs[..|docs| - 1];
    var texts := AllTexts(init, encode, decode);
    assert AllTexts(docs, encode, decode) == texts + DocChunks(docs[|docs| - 1], encode, decode);
    if d == |docs| - 1 {
      assert docs[..d] == init;
    } else {
      assert init[..d] == docs[..d];
      assert init[d] == docs[d];
      IngestedText(init, d, i, encode, decode);
    }
  }

  /** The metadata of text number `Offset(d) + i` is `{source: path of d,
      chunk_idx: i}`. */
  lemma {:induction false} IngestedMeta(docs: seq<Doc>, d: nat, i: nat, encode: string -> seq<int>, decode: seq<int> -> string)
    requires d < |docs| && i < |DocChunks(docs[d], encode, decode)|
    ensures Offset(docs, d, encode, decode) + i < |AllMetas(docs, encode, decode)|
    ensures AllMetas(docs, encode, decode)[Offset(docs, d, encode, decode) + i] == ChunkMeta(docs[d].path, i)
    decreases |docs|
  {
    var init := docs[..|docs| - 1];
    var last := docs[|docs| - 1];
    var metas := AllMetas(init, encode, decode);
    var numbered := NumberedMetas(last.path, |DocChunks(last, encode, decode)|);
    MetasMatchTexts(init, encode, decode);
    assert AllMetas(docs, encode, decode) == metas + numbered;
    if d == |docs| - 1 {
      assert docs[..d] == init;
      assert Offset(docs, d, encode, decode) == |metas|;
      assert numbered[i] == ChunkMeta(last.path, i);
    } else {
      var o := Offset(init, d, encode, decode);
      assert init[..d] == docs[..d];
      assert Offset(docs, d, encode, decode) == o;
      assert init[d] == docs[d];
      IngestedMeta(init, d, i, encode, decode);
      assert (metas + numbered)[o + i] == metas[o + i];
    }
  }

  /** Chunk `i` of document `d` sits at `Offset(d) + i` in both lists, with
      its text and the metadata `{source: path of d, chunk_idx: i}`. */
  lemma IngestedChunk(docs: seq<Doc>, d: nat, i: nat, encode: string -> seq<int>, decode: seq<int> -> string)
    requires d < |docs| && i < |DocChunks(docs[d], encode, decode)|
    ensures |AllMetas(docs, encode, decode)| == |AllTexts(docs, encode, decode)|
    ensures Offset(docs, d, encode, decode) + i < |AllTexts(docs, encode, decode)|
    ensures AllTexts(docs, encode, decode)[Offset(docs, d, encode, decode) + i]
         == DocChunks(docs[d], encode, decode)[i]
    ensures AllMetas(docs, encode, decode)[Offset(docs, d, encode, decode) + i]
         == ChunkMeta(docs[d].path, i)
  {
    MetasMatchTexts(docs, encode, decode);
    IngestedText(docs, d, i, encode, decode);
    IngestedMeta(docs, d, i, encode, decode);
  }

  lemma {:induction false} MetasMatchTexts(docs: seq<Doc>, encode: string -> seq<int>, decode: seq<int> -> string)
    ensures |AllMetas(docs, encode, decode)| == |AllTexts(docs, encode, decode)|
    decreases |docs|
  {
    if docs != [] {
      MetasMatchTexts(docs[..|docs| - 1], encode, decode);
    }
  }
}
