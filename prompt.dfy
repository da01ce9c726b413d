/** Answer generation around the model call: the numbered context block and
    the two chat messages, the printed source list, and the order in which
    the command line runs retrieval and the optional reorders. The chat
    model itself is not part of this model. */
module Prompt {
  import opened Util
  import opened Sorting
  import opened Retrieval
  import opened Reorder

  datatype Message = Message(role: string, content: string)

  const SystemText: string :=
    "당신은 정확한 RAG 비서입니다. 제공된 '컨텍스트'만 근거로 한국어로 답하세요. "
    + "모르면 모른다고 말하세요. 반드시 근거가 된 출처를 인덱스 번호로 함께 표기하세요."

  const QuestionHead: string := "질문:\n"

  const ContextHead: string := "\n\n컨텍스트(참조용):\n"

  const Requirements: string :=
    "요구사항:\n- 컨텍스트 범위를 벗어난 추측 금지\n- 핵심 요약 → 근거 표기 [1], [2]...\n"

  /** `"[n]"` for a one-based position. */
  function Label(n: nat): string {
    "[" + NatToString(n) + "]"
  }

  /** Context entry `i` (zero-based): labelled `[i+1]`, with source, chunk
      number and text of the hit. */
  function Entry(i: nat, c: Hit): string {
    Label(i + 1) + EntryBody(c)
  }

  /** What follows the label: source, chunk number and text of the hit. */
  function EntryBody(c: Hit): string {
    " SOURCE: " + c.meta.source + " (chunk " + IntToString(c.meta.chunkIdx) + ")\n" + c.doc
  }

  function Entries(contexts: seq<Hit>): (es: seq<string>)
    ensures |es| == |contexts| && forall i :: 0 <= i < |contexts| ==> es[i] == Entry(i, contexts[i])
  {
    seq(|contexts|, i requires 0 <= i < |contexts| => Entry(i, contexts[i]))
  }

  /** Where `xs[i]` starts inside `Join(sep, xs)`. */
  function JoinOffset(sep: string, xs: seq<string>, i: nat): nat
    requires i < |xs|
  {
    if i == 0 then 0 else |xs[0]| + |sep| + JoinOffset(sep, xs[1..], i - 1)
  }

  /** `part` stands whole in `whole`, starting at `at`. */
  predicate Occurs(part: string, whole: string, at: nat) {
    at + |part| <= |whole| && whole[at..at + |part|] == part
  }

  /** A slice taken past a prefix is a slice of the rest. */
  lemma SliceAfter(p: string, q: string, lo: nat, hi: nat)
    requires lo <= hi <= |q|
    ensures (p + q)[|p| + lo..|p| + hi] == q[lo..hi]
  {
  }

  /** Every piece appears whole in the joined text, at its offset, and the
      offsets increase: the pieces keep their order. */
  lemma {:induction false} JoinHolds(sep: string, xs: seq<string>, i: nat)
    requires i < |xs|
    ensures Occurs(xs[i], Join(sep, xs), JoinOffset(sep, xs, i))
    decreases i
  {
    if i > 0 {
      var rest := Join(sep, xs[1..]);
      var o := JoinOffset(sep, xs[1..], i - 1);
      JoinHolds(sep, xs[1..], i - 1);
      assert xs[1..][i - 1] == xs[i];
      assert Join(sep, xs) == (xs[0] + sep) + rest;
      SliceAfter(xs[0] + sep, rest, o, o + |xs[i]|);
    } else if |xs| > 1 {
      assert Join(sep, xs) == xs[0] + (sep + Join(sep, xs[1..]));
    }
  }

  /** Consecutive pieces are `|sep|` apart. */
  lemma {:induction false} JoinOffsetStep(sep: string, xs: seq<string>, i: nat)
    requires i + 1 < |xs|
    ensures JoinOffset(sep, xs, i) + |xs[i]| + |sep| == JoinOffset(sep, xs, i + 1)
    decreases i
  {
    if i > 0 {
      JoinOffsetStep(sep, xs[1..], i - 1);
      assert xs[1..][i - 1] == xs[i];
    }
  }

  function ContextBlock(contexts: seq<Hit>): string {
    Join("\n\n", Entries(contexts))
  }

  function UserText(query: string, block: string): string {
    QuestionHead + query + ContextHead + block + "\n\n" + Requirements
  }

  /** `build_prompt`: a system message with the answering rules, then a user
      message with the question, the context block and the requirements. */
  function BuildPrompt(query: string, contexts: seq<Hit>): (msgs: seq<Message>)
    ensures |msgs| == 2 && msgs[0].role == "system" && msgs[1].role == "user"
  {
    [ Message("system", SystemText),
      Message("user", UserText(query, ContextBlock(contexts))) ]
  }

  /** Where the parts of a six-part text stand. */
  lemma Layout(h: string, q: string, m: string, blk: string, t1: string, t2: string, at: nat, e: string)
    requires Occurs(e, blk, at)
    ensures Occurs(h, h + q + m + blk + t1 + t2, 0)
    ensures Occurs(q, h + q + m + blk + t1 + t2, |h|)
    ensures Occurs(e, h + q + m + blk + t1 + t2, |h| + |q| + |m| + at)
  {
    var u := h + q + m + blk + t1 + t2;
    var rest := blk + (t1 + t2);
    assert u == (h + q + m) + rest;
    assert rest[at..at + |e|] == blk[at..at + |e|];
    SliceAfter(h + q + m, rest, at, at + |e|);
    SliceAfter(h, q + m + rest, 0, |q|);
    assert u == h + (q + m + rest);
  }

  /** The user text holds whatever the block holds, shifted past the
      question. */
  lemma UserTextCarries(query: string, block: string, at: nat, e: string)
    requires Occurs(e, block, at)
    ensures Occurs(e, UserText(query, block), |QuestionHead| + |query| + |ContextHead| + at)
  {
    Layout(QuestionHead, query, ContextHead, block, "\n\n", Requirements, at, e);
  }

  /** The user message opens with the question heading, then the question. */
  lemma PromptStartsWithQuery(query: string, contexts: seq<Hit>)
    ensures Occurs(QuestionHead, BuildPrompt(query, contexts)[1].content, 0)
    ensures Occurs(query, BuildPrompt(query, contexts)[1].content, |QuestionHead|)
  {
    Layout(QuestionHead, query, ContextHead, ContextBlock(contexts), "\n\n", Requirements, 0, []);
  }

  /** The user message carries each context entry whole, in input order,
      inside the block. */
  lemma PromptCarriesContexts(query: string, contexts: seq<Hit>, i: nat)
    requires i < |contexts|
    ensures Occurs(Entry(i, contexts[i]), BuildPrompt(query, contexts)[1].content,
      |QuestionHead| + |query| + |ContextHead| + JoinOffset("\n\n", Entries(contexts), i))
  {
    var es := Entries(contexts);
    var o := JoinOffset("\n\n", es, i);
    JoinHolds("\n\n", es, i);
    UserTextCarries(query, ContextBlock(contexts), o, es[i]);
    assert BuildPrompt(query, contexts)[1].content == UserText(query, ContextBlock(contexts));
  }

  /** Two bracketed digit strings at the head of a text can be told apart:
      the closing bracket sits right after the digits. */
  lemma BracketedDigits(a: string, b: string, ra: string, rb: string)
    requires IsDecimal(a) && IsDecimal(b)
    requires "[" + a + "]" + ra == "[" + b + "]" + rb
    ensures a == b
  {
    var e := "[" + a + "]" + ra;
    var f := "[" + b + "]" + rb;
    assert forall x :: 0 <= x < |a| ==> e[1 + x] == a[x];
    assert forall x :: 0 <= x < |b| ==> f[1 + x] == b[x];
    assert e[1 + |a|] == ']' && f[1 + |b|] == ']';
    if |a| < |b| {
      assert false;
    } else if |b| < |a| {
      assert false;
    } else {
      assert a == e[1..1 + |a|];
    }
  }

  /** Different positions give different entries, whatever the hits hold:
      the labels `[1]`, `[2]`, ... tell the entries apart. */
  lemma EntryLabelsDistinct(i: nat, j: nat, c: Hit, d: Hit)
    requires i != j
    ensures Entry(i, c) != Entry(j, d)
  {
    var ra := EntryBody(c);
    var rb := EntryBody(d);
    NatToStringInjective(i + 1, j + 1);
    if Entry(i, c) == Entry(j, d) {
      BracketedDigits(NatToString(i + 1), NatToString(j + 1), ra, rb);
    }
  }

  /** One printed source line: `[n] source (chunk idx)`, numbered from 1. */
  function SourceLine(n: nat, h: Hit): string {
    Label(n) + SourceBody(h)
  }

  /** What follows the label on a source line. */
  function SourceBody(h: Hit): string {
    " " + h.meta.source + " (chunk " + IntToString(h.meta.chunkIdx) + ")"
  }

  function SourceLines(hits: seq<Hit>): (lines: seq<string>)
    ensures |lines| == |hits|
  {
    seq(|hits|, i requires 0 <= i < |hits| => SourceLine(i + 1, hits[i]))
  }

  /** Source line `i` opens with the label `[i+1]`, then names the hit's
      source, then its chunk number. */
  lemma SourceLineParts(hits: seq<Hit>, i: nat)
    requires i < |hits|
    ensures Occurs(Label(i + 1), SourceLines(hits)[i], 0)
    ensures Occurs(hits[i].meta.source, SourceLines(hits)[i], |Label(i + 1)| + 1)
    ensures Occurs(IntToString(hits[i].meta.chunkIdx), SourceLines(hits)[i],
      |Label(i + 1)| + 1 + |hits[i].meta.source| + |" (chunk "|)
  {
    SourceLineAt(hits, i);
    LineParts(Label(i + 1), " ", hits[i].meta.source, " (chunk ", IntToString(hits[i].meta.chunkIdx), ")");
  }

  /** Source line `i` spelled out. */
  lemma SourceLineAt(hits: seq<Hit>, i: nat)
    requires i < |hits|
    ensures SourceLines(hits)[i] ==
      Label(i + 1) + (" " + hits[i].meta.source + " (chunk " + IntToString(hits[i].meta.chunkIdx) + ")")
  {
  }

  /** Where the first, third and fifth parts of `a + (b + c + d + e + f)` stand. */
  lemma LineParts(a: string, b: string, c: string, d: string, e: string, f: string)
    ensures Occurs(a, a + (b + c + d + e + f), 0)
    ensures Occurs(c, a + (b + c + d + e + f), |a| + |b|)
    ensures Occurs(e, a + (b + c + d + e + f), |a| + |b| + |c| + |d|)
  {
    var u := a + (b + c + d + e + f);
    forall k | 0 <= k < |a| ensures u[k] == a[k] { }
    assert u[..|a|] == a;
    forall k | 0 <= k < |c| ensures u[|a| + |b| + k] == c[k] { }
    assert u[|a| + |b|..|a| + |b| + |c|] == c;
    forall k | 0 <= k < |e| ensures u[|a| + |b| + |c| + |d| + k] == e[k] { }
    assert u[|a| + |b| + |c| + |d|..|a| + |b| + |c| + |d| + |e|] == e;
  }

  /** Different lines of the printed sources differ, whatever the hits
      hold: their labels `[1]`, `[2]`, ... tell them apart. */
  lemma SourceLinesDistinct(hits: seq<Hit>, i: nat, j: nat)
    requires i < |hits| && j < |hits| && i != j
    ensures SourceLines(hits)[i] != SourceLines(hits)[j]
  {
    var ra := SourceBody(hits[i]);
    var rb := SourceBody(hits[j]);
    NatToStringInjective(i + 1, j + 1);
    if SourceLines(hits)[i] == SourceLines(hits)[j] {
      BracketedDigits(NatToString(i + 1), NatToString(j + 1), ra, rb);
    }
  }

  function Docs(hits: seq<Hit>): (docs: seq<string>)
    ensures |docs| == |hits| && forall i :: 0 <= i < |hits| ==> docs[i] == hits[i].doc
  {
    seq(|hits|, i requires 0 <= i < |hits| => hits[i].doc)
  }

  /** What one run hands to the chat model and prints. */
  datatype Answer = Answer(contexts: seq<Hit>, messages: seq<Message>, sources: seq<string>)

  /** The retrieved hits after the optional reorders: BM25 mixing with
      `lexical`, then the cross-encoder with `rerank`. */
  function Ranked(hits: seq<Hit>, bm25: seq<string> -> seq<real>, ce: string -> real,
                  lexical: bool, rerank: bool): Result<seq<Hit>, string>
    requires forall docs :: |bm25(docs)| == |docs|
  {
    var mixed := if lexical then Bm25Mix(hits, bm25(Docs(hits)), Alpha) else Success(hits);
    if mixed.Failure? then Failure(mixed.error)
    else if rerank then Success(Rerank(mixed.value, ce))
    else Success(mixed.value)
  }

  /** `main`: retrieve (`cands` is the store's answer to the candidate
      query), mix in BM25 only with `lexical`, rerank only with `rerank`,
      and hand the first `k` hits to the prompt and the source list. */
  function Run(query: string, cands: seq<Hit>, embed: string -> seq<real>, bm25: seq<string> -> seq<real>,
               ce: string -> real, k: int, mmr: bool, lexical: bool, rerank: bool): Result<Answer, string>
    requires forall docs :: |bm25(docs)| == |docs|
  {
    var ranked := Ranked(Retrieved(cands, embed, k, mmr), bm25, ce, lexical, rerank);
    if ranked.Failure? then Failure(ranked.error)
    else
      var top := Prefix(ranked.value, k);
      Success(Answer(top, BuildPrompt(query, top), SourceLines(top)))
  }

  /** The reorders fail only when BM25 mixing meets no hits, and otherwise
      only rearrange the hits; after a rerank they come best cross-encoder
      score first. */
  lemma RankedFacts(hits: seq<Hit>, bm25: seq<string> -> seq<real>, ce: string -> real,
                    lexical: bool, rerank: bool)
    requires forall docs :: |bm25(docs)| == |docs|
    ensures var r := Ranked(hits, bm25, ce, lexical, rerank);
      && (r.Failure? <==> lexical && (|hits| == 0 || Scale(hits) == 0.0))
      && (r.Success? ==> multiset(r.value) == multiset(hits) && |r.value| == |hits|)
      && (r.Success? && rerank ==> BestFirst(r.value, ce))
  {
    if lexical {
      Bm25MixFacts(hits, bm25(Docs(hits)), Alpha);
    }
    var r := Ranked(hits, bm25, ce, lexical, rerank);
    if r.Success? {
      var mixed := if lexical then Bm25Mix(hits, bm25(Docs(hits)), Alpha).value else hits;
      assert multiset(mixed) == multiset(hits);
      if rerank {
        RerankFacts(mixed, ce);
      }
      assert |r.value| == |hits| by {
        assert |multiset(r.value)| == |multiset(hits)|;
      }
    }
  }

  /** A run fails only when BM25 mixing meets an empty retrieval; otherwise
      the prompt gets exactly the retrieved hits (retrieval never returns more
      than `k`), one printed source line each, and after a rerank they come
      best cross-encoder score first. */
  lemma RunFacts(query: string, cands: seq<Hit>, embed: string -> seq<real>, bm25: seq<string> -> seq<real>,
                 ce: string -> real, k: int, mmr: bool, lexical: bool, rerank: bool)
    requires forall docs :: |bm25(docs)| == |docs|
    requires k >= 0
    ensures var hits := Retrieved(cands, embed, k, mmr);
      var r := Run(query, cands, embed, bm25, ce, k, mmr, lexical, rerank);
      && (r.Failure? <==> lexical && (|hits| == 0 || Scale(hits) == 0.0))
      && (r.Success? ==>
            && multiset(r.value.contexts) == multiset(hits)
            && |r.value.contexts| == Min(k, |cands|)
            && |r.value.sources| == |r.value.contexts|
            && (rerank ==> BestFirst(r.value.contexts, ce)))
  {
    var hits := Retrieved(cands, embed, k, mmr);
    RetrievedFacts(cands, embed, k, mmr);
    RankedFacts(hits, bm25, ce, lexical, rerank);
    var ranked := Ranked(hits, bm25, ce, lexical, rerank);
    var r := Run(query, cands, embed, bm25, ce, k, mmr, lexical, rerank);
    if ranked.Success? {
      var top := ranked.value;
      assert Prefix(top, k) == top;
      assert r == Success(Answer(top, BuildPrompt(query, top), SourceLines(top)));
    } else {
      assert r == Failure(ranked.error);
    }
  }
}
