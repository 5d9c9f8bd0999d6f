# Pagination engine of the document reader, in Dafny

The reader web application (`app.py`) turns the text extracted from an uploaded
PDF, EPUB or DOCX file into a list of pages. The user then browses that list
one page at a time. This project models the pure core of that engine and
proves what it guarantees:

- `split_text_custom(text, chunk_size, max_pages)` is the hybrid policy. Up to
  `max_pages - 1` pages are cut as raw slices of exactly `chunk_size`
  characters. A slice is cut only while more than `chunk_size` characters
  remain. The rest, the *leftover*, goes to the sentence packer, and the
  combined list is cut down to `max_pages` pages.
- `split_text_by_sentence(text, chunk_size)` works in three steps:
  - It splits the text with `re.split('([.?!])', text)`.
  - It glues each piece to the terminator after it, strips the result with
    `str.strip()`, and drops empty sentences.
  - It packs the sentences greedily into chunks, joined by single spaces. A
    sentence joins the running chunk while
    `len(chunk) + len(sentence) + 1 <= chunk_size`.
- The decision of the page view `show_page(page_number)`:
  - "no text yet" when the stored list is empty;
  - an error for a number outside `1..total`;
  - otherwise page `n` is `pages[n - 1]`.

The modules:

- `Text` (`text.dfy`) is the string vocabulary. It covers Python's whitespace
  set of `str.isspace`, `strip()`, `" ".join`, `"".join`, and the
  non-whitespace content of a string. `split_text_by_sentence` never loses or
  reorders that content. `split_text_custom` keeps it only when the cut to
  `max_pages` pages drops nothing.
- `Sentences` (`sentences.dfy`) holds the tokeniser and the sentence loop.
- `Packing` (`packing.dfy`) holds the greedy packing loop. It also gives an
  independent description of the packing loop's result as the unique greedy
  grouping of the sentences.
- `Hybrid` (`hybrid.dfy`) holds the fixed-width phase and `split_text_custom`.
- `Lookup` (`lookup.dfy`) is the page view's decision.
- `Scenarios` (`scenarios.dfy`) works through a concrete input.

Python strings are `seq<char>`, one Dafny `char` per code point, so `|s|` is
`len(s)`. A chunk size below 1 or a page limit below 1 is excluded by a
precondition of `Hybrid.SplitCustom`.

Short sentences share a chunk: with chunk size 10, `"A. B! C?"` packs into
the single chunk `"A. B! C?"`, because 2 + 2 + 1 <= 10 and 5 + 2 + 1 <= 10
(`Scenarios.ShortSentencesExample`).

## Model

| member | source | states |
|---|---|---|
| `Text.Strip` | app.py:109-112 | `strip()` returns a string with neither leading nor trailing whitespace, no longer than its argument |
| `Text.StripIsInfix` | app.py:109-112 | `strip()` returns its argument minus a whitespace-only prefix and a whitespace-only suffix |
| `Text.StripKeepsContent` | app.py:109-112 | `strip()` removes whitespace only: the non-whitespace characters survive in order, and the result is empty exactly when the input is all whitespace |
| `Text.NonSpaceJoin` | app.py:121-124 | joining sentences with `" "` instead of nothing adds only whitespace |
| `Text.Keep` | app.py:113-114 | the `if sentence: sentences.append(sentence)` guard adds at most one string, never an empty one, and adds exactly the string's text |
| `Sentences.Tokens` | app.py:103 | the token list alternates terminator-free pieces with single terminators, starts and ends with a piece, and concatenates back to the text |
| `Sentences.TokensUnique` | app.py:103 | any list of that shape that concatenates to the text is the token list, so `Tokens` is exactly what `re.split('([.?!])', text)` returns |
| `Sentences.Collect` | app.py:106-114 | every collected sentence is non-empty and has no surrounding whitespace |
| `Sentences.GlueTerminator` | app.py:109-112 | a stripped piece followed by its terminator is already stripped, so the second `strip()` changes nothing, and the result ends with the terminator |
| `Sentences.CollectShape` | app.py:106-114 | for any well-shaped token list, every sentence has at most one terminator, and only as its last character; every sentence but the last ends with one |
| `Sentences.Split` | app.py:103-114 | every sentence of any text is non-empty, has no surrounding whitespace and at most one terminator, as its last character; every sentence but the last ends with one |
| `Sentences.CollectKeepsContent` | app.py:106-114 | the sentence loop drops only whitespace: the sentences' non-whitespace characters are the tokens', in order |
| `Sentences.SplitKeepsContent` | app.py:103-114 | the sentences of a text carry exactly its non-whitespace characters, in order |
| `Sentences.SplitEmpty` | app.py:103-114 | a text yields no sentence exactly when it is whitespace only |
| `Packing.PackFrom` | app.py:117-132 | the packing loop never emits an empty chunk |
| `Packing.PackIsGreedy` | app.py:117-132 | the loop's chunks are the space-joins of a greedy grouping of the sentences: consecutive runs in order, each fitting the bound or a single sentence, and each closed only because the next sentence would not fit |
| `Packing.GreedyUnique` | app.py:117-132 | there is only one greedy grouping, so the rule above determines the chunks completely |
| `Packing.FirstGroupMaximal` | app.py:121-128 | a greedy group is never shorter than the first group of any other greedy grouping: it closes only when the next sentence fails the bound |
| `Packing.JoinEachJoin` | app.py:117-132 | space-joining every group and then the chunks equals space-joining all sentences |
| `Packing.PackFacts` | app.py:117-134 | no chunk exists exactly when there is no sentence; the chunks, joined by spaces, are the sentences joined by spaces; a chunk longer than the bound is one of the sentences |
| `Packing.SplitBySentence` | app.py:97-134 | chunks are non-empty; there are none exactly when the text is whitespace only; joined by spaces they equal the sentences joined by spaces; a chunk over `chunk_size` is a single sentence |
| `Hybrid.FixedFrom` | app.py:72-79 | from any cursor, the loop cuts at most its remaining budget of slices, each exactly `chunk_size` long |
| `Hybrid.FixedSlices` | app.py:68-79 | the fixed-width phase cuts at most `max_pages - 1` pages, each exactly `chunk_size` long |
| `Hybrid.FixedFromPrefix` | app.py:72-79 | the slices, put back together, are a prefix of the text from the cursor on. They stop short of the end of a non-empty text, and they stop before the budget is spent only when at most `chunk_size` characters remain |
| `Hybrid.FixedFromConsumed` | app.py:79 | the slices consume `len(pages) * chunk_size` characters |
| `Hybrid.FixedSliceAt` | app.py:77-79 | the `i`-th fixed-width page is `text[i*c:(i+1)*c]` |
| `Hybrid.FixedPhase` | app.py:68-79 | the loop cuts the same slices as the recursive description and ends with `pos == len(pages) * chunk_size`; `text[pos:]` is the leftover |
| `Hybrid.Leftover` | app.py:84 | the consumed slices followed by the leftover give back the text; the leftover is non-empty for a non-empty text; it is at most `chunk_size` long when the phase stopped early |
| `Hybrid.Take` | app.py:92 | Python's `xs[:n]` keeps a prefix of at most `n` elements, all of `xs` when it is no longer |
| `Hybrid.SplitCustom` | app.py:58-94 | at most `max_pages` pages, none empty, and no page for an empty text |
| `Hybrid.SplitCustomTake` | app.py:84-92 | the `if leftover:` guard changes nothing: the pages are the first `max_pages` of the fixed pages followed by the sentence chunks of the leftover, whether or not the leftover is empty |
| `Hybrid.TakeAppend` | app.py:84-92 | truncating `fixed + chunks` to `n >= len(fixed)` keeps `fixed` whole and a prefix of `chunks`, and all of `chunks` when fewer than `n` pages result |
| `Hybrid.HybridLayout` | app.py:84-92 | the fixed-width pages survive truncation in place; after them comes a prefix of the sentence chunks of the leftover; the result is exactly the fixed pages followed by all chunks if and only if their number is at most `max_pages`, which holds in particular when fewer than `max_pages` pages result |
| `Hybrid.HybridEmpty` | app.py:58-94 | no page results exactly when the text is whitespace only and the fixed phase cuts nothing (`max_pages == 1` or at most `chunk_size` characters) |
| `Hybrid.HybridKeepsText` | app.py:58-94 | when the fixed pages and the leftover's chunks number at most `max_pages`, so that the cut drops nothing, the pages hold every non-whitespace character of the text, in order |
| `Lookup.ShowPage` | app.py:166-178 | "no text" exactly for an empty list; "invalid page" exactly for a non-empty list and a number outside `1..total`; otherwise the content is `pages[n - 1]` |
| `Lookup.ReadAll` | app.py:170-178 | visiting pages 1 to `total` and reading each shown page gives back the stored list |
| `Lookup.ShowSplitPage` | app.py:166-178 | for pages made by `split_text_custom`, "no text" comes up exactly in the empty-result case of `HybridEmpty`, and every shown page has text on it |
| `Scenarios.ThreeTokens` | app.py:103 | `re.split` turns `"x. y! z?"` into `[x, ".", " y", "!", " z", "?", ""]` |
| `Scenarios.CollectThree` | app.py:106-114 | the sentence loop turns any token list `[x, ".", " y", "!", " z", "?", ""]` into `"x."`, `"y!"`, `"z?"` |
| `Scenarios.ThreeSentences` | app.py:106-114 | the sentences of `"x. y! z?"` are `"x."`, `"y!"` and `"z?"` |
| `Scenarios.PackThree` | app.py:117-132 | the packing loop with chunk size 10 puts any three two-character sentences into one chunk, joined by spaces |
| `Scenarios.ShortSentencesShareChunk` | app.py:117-134 | with chunk size 10, `"x. y! z?"` is one chunk, for any letters `x`, `y`, `z` |
| `Scenarios.ShortSentencesExample` | app.py:97-134 | `split_text_by_sentence("A. B! C?", 10)` is `["A. B! C?"]` |

## Left out

- The Flask routes, the session store, the upload directory and file saving
  are left out. They are I/O; the page list is a plain parameter of
  `Lookup.ShowPage`.
- Text extraction from PDF, EPUB and DOCX (app.py:17-55) is left out. It calls
  foreign libraries. The model starts from the extracted string.
- Template rendering and HTTP status codes are left out. The view's three
  outcomes are the constructors of `Lookup.PageView`.
- The regular-expression engine is not modelled. `Sentences.Tokens` defines
  the output of the one pattern used, `([.?!])`, directly, and
  `Sentences.TokensUnique` pins it down.
- `Hybrid.SplitCustom` is modelled only for `chunk_size >= 1` and
  `max_pages >= 1`, the values the application uses (220 and 10). For other
  values Python slicing with negative or zero widths comes into play, and that
  is not modelled.
- `Hybrid.HybridKeepsText` states the no-loss property only when the fixed
  pages and the leftover's chunks number at most `max_pages`. Otherwise the cut
  at app.py:92 drops the chunks past `max_pages`, and their text is lost.
- Lone UTF-16 surrogates, which a Python string can hold but a Dafny `char`
  cannot, are not modelled.
