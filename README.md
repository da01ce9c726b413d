# RAG prototype and proposal-table helpers, modelled in Dafny

This project models the parts of the repository that do sequential work:

- **Ingestion** (`ingest-checkpoint.py`).
  - `token_chunk` slides a window of `max_tokens` tokens over a token sequence. Each window starts `overlap` tokens before the previous one ended, and the loop stops after the window that reaches the end.
  - `main` builds three parallel lists from every document's chunks: ids, texts, and metadata with `source` and a per-document `chunk_idx`.
- **Query path** (`rag-checkpoint.py`).
  - `retrieve` asks the store for `max(3k if mmr else k, k)` candidates. It then either picks `k` of them greedily by maximal marginal relevance (MMR), or keeps the `k` nearest by a stable sort on distance.
  - `bm25_mix` reorders the hits by a mix of a BM25 score and a distance-based similarity.
  - `rerank_cross_encoder` reorders them by a cross-encoder score.
  - `build_prompt` numbers the contexts `[1]`, `[2]`, … inside the user message.
  - `main` composes these steps in that order.
- **Proposal tool** (`app.py`).
  - `S` renders a spreadsheet cell as text, and `parse_url_list` splits a URL cell.
  - `compute_option_big_titles` gives every (request, option) group of slide rows one headline, chosen by a fixed priority.
  - The export screen first turns the slide-number and option-number columns to text (`astype(str)`). It then lists each request's options in numeric order. It assembles the exported rows as cover rows, then per request its overview slides and the rows of the chosen option, then closing rows.

Modules, one per concern:

- `Util`: Option and Result, Python slicing and `join`, and decimal rendering.
- `Chunking`: the token window and the ingestion lists.
- `Sorting`: Python's stable `sorted` over indices.
- `Retrieval`: the candidate count, the nearest-k cut and MMR.
- `Reorder`: BM25 mixing and cross-encoder reranking.
- `Prompt`: the prompt, the printed sources and the pipeline of `main`.
- `Cells`: cells, `S`, `strip` and `split`, and `parse_url_list`.
- `OptionTitles`: the option headlines.
- `Export`: the option order and the export frames.

The loops of the source are methods proved against functions: `TokenChunk`, `Ingest`, `SelectMmr`, `ParseUrlList`, `ComputeOptionBigTitles` and `BuildExport`. The properties are lemmas about those functions.

Where the system's own description and its code differ, the model follows the code:

- **Invalid overlap.** The code never rejects `overlap >= max_tokens`. For a text longer than one window the loop then never advances (`Chunking.LoopStalls`), so `TokenChunk` requires a configuration for which the loop stops.
- **Mixing ties.** Hits with equal mixed BM25 scores are not kept in their earlier order. `argsort()[::-1]` reverses an ascending order, so the model lists equal scores with the later hit first.
- **`k <= 0`.** It is not rejected: the count, the cut and MMR are modelled for every `k`.

## Model

| member | source | states |
|---|---|---|
| Chunking.TokenChunk | news_project/RAG_test/.ipynb_checkpoints/ingest-checkpoint.py:50-62 | the chunks are the decodings of the windows `Windows(len, max_tokens, overlap)`, one per window, in order |
| Chunking.DecodedAt | news_project/RAG_test/.ipynb_checkpoints/ingest-checkpoint.py:56-58 | chunk `i` decodes exactly the tokens `[start, end)` of window `i` |
| Chunking.WindowsBounds | news_project/RAG_test/.ipynb_checkpoints/ingest-checkpoint.py:56 | every window lies in the sequence, is non-empty and holds at most `max_tokens` tokens |
| Chunking.WindowsFromEnds | news_project/RAG_test/.ipynb_checkpoints/ingest-checkpoint.py:53-60 | no window iff nothing is left to cover; the first window starts where the loop stands (0 for the whole run); with `overlap >= 0` the last one ends at `len(toks)` |
| Chunking.WindowsFromChained | news_project/RAG_test/.ipynb_checkpoints/ingest-checkpoint.py:56-61 | every window but the last is full and ends short of `len(toks)`, so the end is reached only once; the next window starts at `max(0, end - overlap)` |
| Chunking.WindowsCover | news_project/RAG_test/.ipynb_checkpoints/ingest-checkpoint.py:56-61 | with a non-negative overlap every token lies in some window (no gaps) |
| Chunking.WindowsAdvance | news_project/RAG_test/.ipynb_checkpoints/ingest-checkpoint.py:61 | with `0 <= overlap < max_tokens` starts and ends strictly increase and consecutive windows share exactly `overlap` tokens |
| Chunking.WindowCount | news_project/RAG_test/.ipynb_checkpoints/ingest-checkpoint.py:55-61 | 0 chunks for no tokens; 1 for at most `max_tokens`; `1 + ceil((len - max_tokens) / (max_tokens - overlap))` above; never more than `ceil(len / (max_tokens - overlap))` |
| Chunking.CeilDivIsCeiling | news_project/RAG_test/.ipynb_checkpoints/ingest-checkpoint.py:55-61 | the ceiling used in the chunk count is the least `c` with `c * b >= a` |
| Chunking.LoopStalls | news_project/RAG_test/.ipynb_checkpoints/ingest-checkpoint.py:55-61 | when `overlap >= max_tokens` and the text is longer than one window, `start` stays 0 after any number of steps and no window reaches the end |
| Chunking.Ingest | news_project/RAG_test/.ipynb_checkpoints/ingest-checkpoint.py:88-94 | the three lists have equal length; texts are all documents' chunks in order; metadata numbers each document's chunks from 0 with its path; id `k` is the `k`-th fresh id |
| Chunking.AppendChunks | news_project/RAG_test/.ipynb_checkpoints/ingest-checkpoint.py:91-94 | one document appends its chunks, `{source: path, chunk_idx: i}` for `i` from 0, and one id per chunk |
| Chunking.IngestedChunk | news_project/RAG_test/.ipynb_checkpoints/ingest-checkpoint.py:88-94 | chunk `i` of document `d` sits at the same position in texts and metadata, with metadata `(path of d, i)` |
| Chunking.IngestedText | news_project/RAG_test/.ipynb_checkpoints/ingest-checkpoint.py:88-94 | chunk `i` of document `d` is the text at position `offset(d) + i`, where `offset(d)` counts the chunks of the earlier documents |
| Chunking.IngestedMeta | news_project/RAG_test/.ipynb_checkpoints/ingest-checkpoint.py:88-94 | the metadata at position `offset(d) + i` is `{source: path of d, chunk_idx: i}` |
| Chunking.MetasMatchTexts | news_project/RAG_test/.ipynb_checkpoints/ingest-checkpoint.py:88-94 | the metadata list is as long as the text list |
| Util.Prefix | news_project/RAG_test/.ipynb_checkpoints/rag-checkpoint.py:73 | `s[:k]` is a prefix of `s`; for `k >= 0` it keeps the first `k` items (all of them when `k >= len`), for `k < 0` it drops the last `-k` items (all of them when `-k >= len`) |
| Util.PrefixMonotone | news_project/RAG_test/.ipynb_checkpoints/rag-checkpoint.py:73 | for bounds of the same sign, a smaller `k` gives a prefix of what a larger `k` gives |
| Sorting.StableOrder | news_project/RAG_test/.ipynb_checkpoints/rag-checkpoint.py:73 | `sorted` of the indices by key is a permutation of `0..n-1` ordered by (key, index) |
| Sorting.OrderUnique | news_project/RAG_test/.ipynb_checkpoints/rag-checkpoint.py:73 | two index lists holding the same indices in (key, index) order are equal, so the stable order is determined |
| Sorting.StableOrderPermutes | news_project/RAG_test/.ipynb_checkpoints/rag-checkpoint.py:73 | reading items through the stable order keeps every item with its multiplicity |
| Sorting.StableOrderSorted | news_project/RAG_test/.ipynb_checkpoints/rag-checkpoint.py:95 | keys are non-decreasing along the order and equal keys keep increasing index (stability) |
| Sorting.Reverse | news_project/RAG_test/.ipynb_checkpoints/rag-checkpoint.py:88 | `[::-1]` puts item `len-1-i` at `i` and keeps the same items |
| Retrieval.CandidateCount | news_project/RAG_test/.ipynb_checkpoints/rag-checkpoint.py:41 | the store is asked for `3k` under MMR with `k > 0`, `k` otherwise; never fewer than `k` |
| Retrieval.NearestFacts | news_project/RAG_test/.ipynb_checkpoints/rag-checkpoint.py:73 | without MMR: `min(k, n)` candidates, ascending distance, and no candidate left out is nearer than one kept |
| Retrieval.MaxSim | news_project/RAG_test/.ipynb_checkpoints/rag-checkpoint.py:65 | the redundancy term bounds every dot product with a selected chunk and equals one of them |
| Retrieval.FirstMax | news_project/RAG_test/.ipynb_checkpoints/rag-checkpoint.py:68 | `max` picks a largest key, the first one in candidate order |
| Retrieval.SelectMmr | news_project/RAG_test/.ipynb_checkpoints/rag-checkpoint.py:49-71 | the greedy loop over the open candidates returns exactly the pick sequence `Mmr(dists, emb, k)` |
| Retrieval.MmrSelection | news_project/RAG_test/.ipynb_checkpoints/rag-checkpoint.py:51-71 | MMR picks `min(k, n)` pairwise distinct candidate indices (none for `k <= 0`) |
| Retrieval.MmrGreedy | news_project/RAG_test/.ipynb_checkpoints/rag-checkpoint.py:54-70 | every pick is an unpicked candidate of maximal `0.75 * (1 - dist) - 0.25 * max dot` (the first: of minimal distance), ties to the lowest index |
| Retrieval.MmrFirstNearest | news_project/RAG_test/.ipynb_checkpoints/rag-checkpoint.py:55-59 | the first pick has minimal distance, and every earlier index is strictly farther |
| Retrieval.Retrieve | news_project/RAG_test/.ipynb_checkpoints/rag-checkpoint.py:36-75 | `retrieve` asks the store for `CandidateCount(k, mmr)` hits and returns the MMR picks or the nearest `k` of them |
| Retrieval.RetrievedFacts | news_project/RAG_test/.ipynb_checkpoints/rag-checkpoint.py:49-73 | for `k >= 0`, in both modes the result has `min(k, n)` hits, each one of the candidates |
| Reorder.MaxOf | news_project/RAG_test/.ipynb_checkpoints/rag-checkpoint.py:86 | `dist.max()` bounds every distance and is one of them |
| Reorder.Bm25MixFacts | news_project/RAG_test/.ipynb_checkpoints/rag-checkpoint.py:78-89 | fails exactly on no hits or a zero scale; otherwise hit `a` of the result is hit `order[a]`, and the result holds the same hits with the same multiplicities |
| Reorder.ReverseDescending | news_project/RAG_test/.ipynb_checkpoints/rag-checkpoint.py:88 | reversing an ascending (key, index) order gives non-increasing keys, with equal keys later index first |
| Reorder.MixOrderFacts | news_project/RAG_test/.ipynb_checkpoints/rag-checkpoint.py:87-88 | the order is a permutation of the hit indices with non-increasing `alpha * bm25 + (1 - alpha) * sim`; equal scores come later index first |
| Reorder.Bm25MixWithoutBm25 | news_project/RAG_test/.ipynb_checkpoints/rag-checkpoint.py:85-88 | with `alpha = 0` and non-negative distances the mix orders hits by ascending distance |
| Reorder.RerankFacts | news_project/RAG_test/.ipynb_checkpoints/rag-checkpoint.py:91-96 | reranking keeps the same hits, orders them by non-increasing score, and keeps equal scores in input order |
| Prompt.BuildPrompt | news_project/RAG_test/.ipynb_checkpoints/rag-checkpoint.py:113-116 | exactly two messages, system then user |
| Prompt.PromptStartsWithQuery | news_project/RAG_test/.ipynb_checkpoints/rag-checkpoint.py:108-109 | the user text starts with `질문:\n` followed by the query |
| Prompt.PromptCarriesContexts | news_project/RAG_test/.ipynb_checkpoints/rag-checkpoint.py:100-110 | the user text holds context entry `i` (`[i+1] SOURCE: …`) whole, after the query and the context heading, at the entry's offset in the joined block, so entries appear in input order |
| Prompt.JoinHolds | news_project/RAG_test/.ipynb_checkpoints/rag-checkpoint.py:100-103 | each entry appears whole in the `"\n\n".join`, at its offset |
| Prompt.JoinOffsetStep | news_project/RAG_test/.ipynb_checkpoints/rag-checkpoint.py:100-103 | consecutive entries are separated by exactly `"\n\n"` |
| Prompt.EntryLabelsDistinct | news_project/RAG_test/.ipynb_checkpoints/rag-checkpoint.py:101 | entries at different positions differ, whatever the hits hold, because their `[n]` labels differ |
| Prompt.SourceLineParts | news_project/RAG_test/.ipynb_checkpoints/rag-checkpoint.py:148-150 | printed line `i` opens with the label `[i+1]`, then names hit `i`'s source, then its chunk number |
| Prompt.SourceLinesDistinct | news_project/RAG_test/.ipynb_checkpoints/rag-checkpoint.py:148-150 | lines at different positions differ, whatever the hits hold, because their `[n]` labels differ |
| Prompt.RankedFacts | news_project/RAG_test/.ipynb_checkpoints/rag-checkpoint.py:138-141 | the optional reorders fail only under `--lexical` on no hits (or a zero scale), keep the same hits, and after a rerank order them by cross-encoder score |
| Prompt.RunFacts | news_project/RAG_test/.ipynb_checkpoints/rag-checkpoint.py:137-150 | for `k >= 0`, a run fails exactly when BM25 mixing fails; otherwise the generator gets the retrieved hits rearranged, `min(k, n)` of them, one source line each, by score after a rerank |
| Cells.S | proposal_ai_agent/app.py:39-44 | empty cells give `""`, text gives itself, an integer passes `isdigit` iff non-negative and then reads back as itself |
| Util.DecimalValueOfNatToString | proposal_ai_agent/app.py:44 | `int(str(n)) == n` |
| Cells.StripFacts | proposal_ai_agent/app.py:55 | `strip` returns a middle slice with only whitespace around it and none at its own ends |
| Cells.StripIdempotent | proposal_ai_agent/app.py:55 | stripping twice is stripping once |
| Cells.SplitJoin | proposal_ai_agent/app.py:53 | joining `split(c)` with `c` gives back the text |
| Cells.SplitAnyNoSeparator | proposal_ai_agent/app.py:53-54 | no piece of a split holds a separator |
| Cells.PiecesIsOneSplit | proposal_ai_agent/app.py:53-54 | replacing `;`, splitting lines, then splitting commas is one split on `,`, `;` and newline |
| Cells.CleanFacts | proposal_ai_agent/app.py:55-57 | every kept piece is non-empty, stripped, and the stripped form of an input piece |
| Cells.CleanTexts | proposal_ai_agent/app.py:49-50 | a list gives the stripped non-empty `S` of its items, in order |
| Cells.CleanPieces | proposal_ai_agent/app.py:51-58 | a text gives its stripped non-empty pieces, line by line and comma by comma |
| Cells.ParseUrlList | proposal_ai_agent/app.py:46-58 | the loops return `UrlList(v)`: nothing for an empty cell, the cleaned list items, or the cleaned pieces of the text |
| Cells.UrlListFacts | proposal_ai_agent/app.py:46-58 | every URL is non-empty and stripped; from a text, none holds `,`, `;` or a newline |
| OptionTitles.FirstSlide | proposal_ai_agent/app.py:314-318 | a row picked is a slide whose number is a digit string |
| OptionTitles.FirstSlideNone | proposal_ai_agent/app.py:314-318 | no row is picked iff no slide is digit-numbered |
| OptionTitles.FirstSlideLeast | proposal_ai_agent/app.py:314-318 | the row picked has the least slide number, and every earlier digit-numbered slide has a larger one (first among equals) |
| OptionTitles.FirstLeastNone | proposal_ai_agent/app.py:314-318 | over the slide keys (-1 for an unnumbered row), nothing is found iff every key is negative |
| OptionTitles.FirstLeastLeast | proposal_ai_agent/app.py:314-318 | the key found is the least non-negative key, and strictly less than every earlier non-negative key |
| OptionTitles.BigTitle | proposal_ai_agent/app.py:303-320 | fails iff the group has no filled title cell (the `[0]` of an empty list); otherwise the title is never empty |
| OptionTitles.MetaTitleIsFirstMeta | proposal_ai_agent/app.py:308-312 | the META candidate is the title of the first `META` row, `""` without one |
| OptionTitles.GroupKeysExact | proposal_ai_agent/app.py:300 | the groups are exactly the (request, option) keys of rows with both cells filled |
| OptionTitles.WriteGroup | proposal_ai_agent/app.py:321 | the title is written to every row of the group and nowhere else |
| OptionTitles.ComputeOptionBigTitles | proposal_ai_agent/app.py:296-322 | the loop over groups returns `OptionBigTitles(t)`: each row of a digit-option group gets its group's title, or the whole call fails |
| OptionTitles.OptionBigTitlesShape | proposal_ai_agent/app.py:296-322 | same row count and order, the column present, every other cell kept, and groups without a digit option untouched (`""` where the column was missing) |
| OptionTitles.OptionBigTitlesFails | proposal_ai_agent/app.py:298-303 | failure iff the column exists and some digit-option group has no filled title; a table without the column never fails |
| OptionTitles.SameTitleInGroup | proposal_ai_agent/app.py:319-321 | all rows of a processed group get the same non-empty title |
| OptionTitles.ExistingTitleKept | proposal_ai_agent/app.py:303-305 | a group whose first filled title is non-empty keeps it |
| OptionTitles.MetaTitleUsed | proposal_ai_agent/app.py:307-312 | when the group's first filled title is empty and its `META` row's title is not, every row of the group gets the `META` title |
| OptionTitles.SlideTitleUsed | proposal_ai_agent/app.py:313-318 | without an existing or `META` title, the group gets the non-empty title of its lowest-numbered slide |
| OptionTitles.DefaultTitleUsed | proposal_ai_agent/app.py:319-320 | without an existing, `META` or slide title, the group is titled `옵션 <n>` after its option number |
| OptionTitles.OptionBigTitlesIdempotent | proposal_ai_agent/app.py:296-322 | computing the titles again changes nothing |
| Export.ReqIdsExact | proposal_ai_agent/app.py:704 | the request list holds every request id other than `COVER` and `CLOSING` exactly once |
| Export.OptionValuesMembers | proposal_ai_agent/app.py:710 | an option value is offered iff it is a digit string and some row of the request carries it |
| Export.OptionValuesDistinct | proposal_ai_agent/app.py:710 | the option values form a set: no value is listed twice |
| Export.OptionValuesExact | proposal_ai_agent/app.py:710 | the option set is the request's digit-string option numbers, each once |
| Export.PyStrKeepsS | proposal_ai_agent/app.py:688-689 | `astype(str)` keeps what `S` reads from a filled cell, so a digit option keeps its number |
| Export.TextOptionValues | proposal_ai_agent/app.py:688-710 | after the conversion a request offers option `"v"` iff `v` is a digit string and one of its rows has an option cell whose `str` is `v`, text or integer |
| Export.TextOptionRows | proposal_ai_agent/app.py:688-746 | a row lands in the part of the chosen option `"v"` iff it belongs to the request and its option cell's `str` is `v`, so an integer `7` and a text `"7"` go together |
| Export.OptionsFacts | proposal_ai_agent/app.py:710 | the offered options are exactly those, without duplicates, in non-decreasing numeric order |
| Export.Selected | proposal_ai_agent/app.py:710-730 | a request with no option is skipped; otherwise the selection is one of its options |
| Export.SelectOptions | proposal_ai_agent/app.py:707-730 | the loop records `(request, selection)` for every request with options, in request order |
| Export.CollectFrames | proposal_ai_agent/app.py:742-748 | the loop collects each selected request's overview rows, then its chosen option's rows |
| Export.BuildExport | proposal_ai_agent/app.py:688-752 | the slide-number and option-number columns are turned to text; then the exported rows are the cover rows, the selected requests' frames, then the closing rows |
| Export.FramesInOrder | proposal_ai_agent/app.py:742-748 | the frames hold only rows of listed requests, grouped in request order |
| Export.RequestBlock | proposal_ai_agent/app.py:742-747 | the export up to the end of the `j`-th selected request is the cover rows, the earlier requests' blocks, then that request's overview rows followed by its chosen option's rows; the option is the one selected for it |
| Export.ExportOrdered | proposal_ai_agent/app.py:738-752 | along the export, cover rows come first, then the requests in order of first appearance, then closing rows |
| Export.ExportMembers | proposal_ai_agent/app.py:738-752 | a row of the converted table is exported iff it is a cover or closing row, or an overview or chosen-option row of a request with options |

## Left out

- Tokenizer, embedder, store, BM25 scorer and cross-encoder: `encode`, `decode`, `embed`, the store's `query` (`search`), the BM25 scores and the cross-encoder's `predict` are parameters of the model. The external libraries behind them are not part of this model, nor is the chat-model call.
- Chunking.TokenChunk: requires a positive `max_tokens`. For `max_tokens <= 0` Python's negative slicing gives windows this model does not describe. For `overlap >= max_tokens` on a long text the loop never ends, which `LoopStalls` exhibits.
- Random ids: `uuid.uuid4` is a parameter `newId`.
- The `distances` fallback of `retrieve` (all distances 0 when the store returns none) is not modelled: hits always carry their distance.
- Retrieval.Dot: `np.dot` on vectors of unequal length raises an error. The model stops at the shorter vector, since embeddings of one model share one length.
- Floating point: scores and distances are exact reals. Reorder.Bm25MixFacts treats a zero scale (`dist.max() + 1e-9 == 0`) as a failure instead of producing `inf` or NaN. Rounding and NaN ordering are not modelled.
- Tie order:
  - numpy's `argsort` does not promise an order for equal keys. The model fixes it to the reverse of the stable ascending order.
  - Python's iteration order over a set of small integers is taken to be ascending. This decides MMR ties: the lowest index wins.
  - Pandas' `sort_values` ties among slides with the same number are unspecified. The model takes the first in row order.
  - Export.OptionsFacts: options whose numbers are equal but whose cells differ (`"07"` and `"7"`) keep their order of appearance. Python's set iteration order is not modelled, so this tie order is weaker than a promise.
- Cells:
  - `isdigit` is modelled on ASCII digits only: the Unicode digits Python also accepts are not modelled.
  - Cells are empty, NaN, text or integer. Float cells other than NaN are not modelled.
  - A missing `제목` cell is modelled as an empty cell.
- Export:
  - Request titles, the option labels shown in the radio buttons and the inline preview are display only and are not modelled.
  - The user's choice in the radio buttons is a parameter `picks`, falling back to the first option as the `index=0` default does.
- Printing, argument parsing, environment configuration, file and PDF reading, the Streamlit UI, fonts, the PDF, PowerPoint and Excel exporters, `parse_timeline` and the JSON helpers are outside this model.
