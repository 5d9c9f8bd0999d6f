/**
 The hybrid pagination policy `split_text_custom` (app.py, lines 58-94).

 Up to `max_pages - 1` pages are cut as fixed-width slices of exactly
 `chunk_size` characters, stopping as soon as the unconsumed rest is no longer
 than `chunk_size`; the rest is handed to the sentence packer, and the
 combined list is cut down to `max_pages` pages.
 */
module Hybrid {
  import opened Text
  import Sentences
  import Packing

  /** The fixed-width phase (lines 68-79) from cursor `pos` on, with `budget`
      turns of the loop left: a turn stops the phase as soon as
      `pos + c >= len(text)`, and otherwise cuts `text[pos:pos + c]` and
      moves the cursor on by `c`. */
  function FixedFrom(text: String, c: nat, budget: nat, pos: nat): (r: seq<String>)
    requires pos <= |text|
    ensures |r| <= budget
    ensures forall i :: 0 <= i < |r| ==> |r[i]| == c
    decreases budget
  {
    if budget == 0 || pos + c >= |text| then []
    else [text[pos..pos + c]] + FixedFrom(text, c, budget - 1, pos + c)
  }

  /** The pages of the fixed-width phase: at most `budget` of them. */
  function FixedSlices(text: String, c: nat, budget: nat): (r: seq<String>)
    ensures |r| <= budget
    ensures forall i :: 0 <= i < |r| ==> |r[i]| == c
  {
    FixedFrom(text, c, budget, 0)
  }

  /** The slices cut from `pos` on, put back together, are the text from
      `pos` up to a point that stops short of the end of the text; and they
      stop before the budget is spent only when at most `c` characters
      remain. */
  lemma {:induction false} FixedFromPrefix(text: String, c: nat, budget: nat, pos: nat)
    requires pos <= |text|
    ensures var n := |Concat(FixedFrom(text, c, budget, pos))|;
            && pos + n <= |text|
            && Concat(FixedFrom(text, c, budget, pos)) == text[pos..pos + n]
            && (pos < |text| ==> pos + n < |text|)
            && (|FixedFrom(text, c, budget, pos)| < budget ==> |text| - (pos + n) <= c)
    decreases budget
  {
    var r := FixedFrom(text, c, budget, pos);
    if budget > 0 && pos + c < |text| {
      var rest := FixedFrom(text, c, budget - 1, pos + c);
      FixedFromPrefix(text, c, budget - 1, pos + c);
      assert r[1..] == rest;
      assert text[pos..pos + c] + text[pos + c..pos + c + |Concat(rest)|]
          == text[pos..pos + c + |Concat(rest)|];
    }
  }

  lemma MulSucc(n: nat, c: nat)
    ensures (n + 1) * c == n * c + c
  {
  }

  /** The cursor advances by `chunk_size` per slice, so the slices cut from
      `pos` on consume `len(pages) * chunk_size` characters. */
  lemma {:induction false} FixedFromConsumed(text: String, c: nat, budget: nat, pos: nat)
    requires pos <= |text|
    ensures |Concat(FixedFrom(text, c, budget, pos))| == |FixedFrom(text, c, budget, pos)| * c
    decreases budget
  {
    if budget > 0 && pos + c < |text| {
      var r := FixedFrom(text, c, budget, pos);
      var rest := FixedFrom(text, c, budget - 1, pos + c);
      assert r[1..] == rest;
      FixedFromConsumed(text, c, budget - 1, pos + c);
      MulSucc(|rest|, c);
    }
  }

  /** Slice `i` of the fixed-width phase is `text[i*c:(i+1)*c]`, counted from
      where the phase started. */
  lemma {:induction false} FixedFromAt(text: String, c: nat, budget: nat, pos: nat, i: nat)
    requires pos <= |text|
    requires i < |FixedFrom(text, c, budget, pos)|
    ensures pos + (i + 1) * c <= |text|
    ensures FixedFrom(text, c, budget, pos)[i] == text[pos + i * c..pos + (i + 1) * c]
    decreases budget
  {
    var rest := FixedFrom(text, c, budget - 1, pos + c);
    if i > 0 {
      assert FixedFrom(text, c, budget, pos)[i] == rest[i - 1];
      FixedFromAt(text, c, budget - 1, pos + c, i - 1);
      MulSucc(i - 1, c);
      MulSucc(i, c);
    }
  }

  /** The `i`-th fixed-width page is `text[i*c:(i+1)*c]`. */
  lemma FixedSliceAt(text: String, c: nat, budget: nat, i: nat)
    requires i < |FixedSlices(text, c, budget)|
    ensures (i + 1) * c <= |text|
    ensures FixedSlices(text, c, budget)[i] == text[i * c..(i + 1) * c]
  {
    FixedFromAt(text, c, budget, 0, i);
  }

  /** The loop of lines 68-79 with its cursor `pos`: it cuts the same slices
      as `FixedSlices`, leaves `pos` at `len(pages) * chunk_size`, and
      `text[pos:]` is the leftover handed on to the sentence packer. */
  method FixedPhase(text: String, c: nat, maxPages: nat) returns (pages: seq<String>, pos: nat)
    requires maxPages >= 1
    ensures pages == FixedSlices(text, c, maxPages - 1)
    ensures pos == |pages| * c
    ensures pos <= |text| && text[pos..] == Leftover(text, c, maxPages)
  {
    pages := [];
    pos := 0;
    var textLen := |text|;
    var k := 0;
    while k < maxPages - 1
      invariant 0 <= k <= maxPages - 1
      invariant |pages| == k && pos <= |text|
      invariant |Concat(pages)| == pos
      invariant FixedSlices(text, c, maxPages - 1) == pages + FixedFrom(text, c, maxPages - 1 - k, pos)
    {
      if pos + c >= textLen {
        assert pages + [] == pages;
        break;
      }
      var chunk := text[pos..pos + c];
      ghost var later := FixedFrom(text, c, maxPages - 1 - (k + 1), pos + c);
      assert pages + ([chunk] + later) == (pages + [chunk]) + later;
      ConcatSnoc(pages, chunk);
      pages := pages + [chunk];
      pos := pos + c;
      k := k + 1;
    }
    FixedFromConsumed(text, c, maxPages - 1, 0);
  }

  /** Python's `xs[:n]` for `n >= 0`. */
  function Take(xs: seq<String>, n: nat): (r: seq<String>)
    ensures |r| <= n
    ensures r <= xs
    ensures |xs| <= n ==> r == xs
    ensures n <= |xs| ==> |r| == n
  {
    if |xs| <= n then xs else xs[..n]
  }

  /** The text the sentence packer receives: everything after the
      fixed-width slices. It is never empty when the text is not. */
  function Leftover(text: String, c: nat, maxPages: nat): (r: String)
    requires maxPages >= 1
    ensures text == Concat(FixedSlices(text, c, maxPages - 1)) + r
    ensures text != [] ==> r != []
    ensures |FixedSlices(text, c, maxPages - 1)| < maxPages - 1 ==> |r| <= c
  {
    var fixed := FixedSlices(text, c, maxPages - 1);
    FixedFromPrefix(text, c, maxPages - 1, 0);
    assert text == text[..|Concat(fixed)|] + text[|Concat(fixed)|..];
    text[|Concat(fixed)|..]
  }

  /** `split_text_custom(text, chunk_size, max_pages)`. */
  function SplitCustom(text: String, c: nat, maxPages: nat): (r: seq<String>)
    requires c >= 1 && maxPages >= 1
    ensures |r| <= maxPages
    ensures forall i :: 0 <= i < |r| ==> r[i] != []
    ensures text == [] ==> r == []
  {
    var fixed := FixedSlices(text, c, maxPages - 1);
    var leftover := Leftover(text, c, maxPages);
    var pages := fixed + (if leftover != [] then Packing.SplitBySentence(leftover, c) else []);
    assert forall i :: 0 <= i < |pages| ==> pages[i] != [] by {
      forall i | 0 <= i < |pages| ensures pages[i] != [] {
        if i < |fixed| {
          assert |pages[i]| == c;
        }
      }
    }
    assert text == [] ==> fixed == [] && pages == [];
    Take(pages, maxPages)
  }

  /** The leftover's guard `if leftover:` is redundant: the sentence packer
      returns no chunk for an empty leftover anyway. */
  lemma SplitCustomTake(text: String, c: nat, maxPages: nat)
    requires c >= 1 && maxPages >= 1
    ensures SplitCustom(text, c, maxPages)
         == Take(FixedSlices(text, c, maxPages - 1)
                 + Packing.SplitBySentence(Leftover(text, c, maxPages), c), maxPages)
  {
    var leftover := Leftover(text, c, maxPages);
    if leftover == [] {
      assert AllSpace(leftover);
    }
  }

  /** Cutting `xs + ys` down to `n >= |xs|` elements keeps all of `xs` and a
      prefix of `ys`, and all of `ys` when fewer than `n` elements remain. */
  lemma TakeAppend(xs: seq<String>, ys: seq<String>, n: nat)
    requires |xs| <= n
    ensures |xs| <= |Take(xs + ys, n)|
    ensures Take(xs + ys, n)[..|xs|] == xs
    ensures Take(xs + ys, n)[|xs|..] <= ys
    ensures |Take(xs + ys, n)| < n ==> Take(xs + ys, n) == xs + ys
    ensures Take(xs + ys, n) == xs + ys <==> |xs| + |ys| <= n
  {
    var r := Take(xs + ys, n);
    assert (xs + ys)[..|xs|] == xs;
    assert r[..|xs|] == (xs + ys)[..|xs|];
    assert r[|xs|..] == (xs + ys)[|xs|..|r|];
    assert (xs + ys)[|xs|..] == ys;
  }

  /** The page limit cuts nothing off: the fixed-width pages and the sentence
      chunks of the leftover together number at most `max_pages`. */
  predicate Untruncated(text: String, c: nat, maxPages: nat)
    requires maxPages >= 1
  {
    |FixedSlices(text, c, maxPages - 1)|
      + |Packing.SplitBySentence(Leftover(text, c, maxPages), c)| <= maxPages
  }

  /** Where the hybrid result comes from: the fixed-width pages survive the
      truncation in place (there are at most `max_pages - 1` of them), and
      after them comes a prefix of the sentence chunks of the leftover. The
      result is all of them exactly when the page limit cuts nothing off,
      which is in particular the case when fewer than `max_pages` pages
      result. */
  lemma HybridLayout(text: String, c: nat, maxPages: nat)
    requires c >= 1 && maxPages >= 1
    ensures var r := SplitCustom(text, c, maxPages);
            var fixed := FixedSlices(text, c, maxPages - 1);
            var chunks := Packing.SplitBySentence(Leftover(text, c, maxPages), c);
            && |fixed| < maxPages
            && |fixed| <= |r|
            && r[..|fixed|] == fixed
            && r[|fixed|..] <= chunks
            && (r == fixed + chunks <==> Untruncated(text, c, maxPages))
            && (|r| < maxPages ==> Untruncated(text, c, maxPages))
  {
    LayoutPrefix(text, c, maxPages);
    LayoutWhole(text, c, maxPages);
    LayoutShort(text, c, maxPages);
  }

  /** Part of `HybridLayout`: the fixed pages, then a prefix of the chunks. */
  lemma LayoutPrefix(text: String, c: nat, maxPages: nat)
    requires c >= 1 && maxPages >= 1
    ensures var r := SplitCustom(text, c, maxPages);
            var fixed := FixedSlices(text, c, maxPages - 1);
            var chunks := Packing.SplitBySentence(Leftover(text, c, maxPages), c);
            |fixed| <= |r| && r[..|fixed|] == fixed && r[|fixed|..] <= chunks
  {
    var r := SplitCustom(text, c, maxPages);
    var fixed := FixedSlices(text, c, maxPages - 1);
    var chunks := Packing.SplitBySentence(Leftover(text, c, maxPages), c);
    SplitCustomTake(text, c, maxPages);
    TakeLayout(r, fixed, chunks, maxPages);
  }

  /** Part of `HybridLayout`: all chunks survive exactly when the page limit
      cuts nothing off. */
  lemma LayoutWhole(text: String, c: nat, maxPages: nat)
    requires c >= 1 && maxPages >= 1
    ensures var r := SplitCustom(text, c, maxPages);
            var fixed := FixedSlices(text, c, maxPages - 1);
            var chunks := Packing.SplitBySentence(Leftover(text, c, maxPages), c);
            r == fixed + chunks <==> Untruncated(text, c, maxPages)
  {
    var r := SplitCustom(text, c, maxPages);
    var fixed := FixedSlices(text, c, maxPages - 1);
    var chunks := Packing.SplitBySentence(Leftover(text, c, maxPages), c);
    SplitCustomTake(text, c, maxPages);
    TakeLayout(r, fixed, chunks, maxPages);
  }

  /** Part of `HybridLayout`: fewer than `max_pages` pages means nothing was
      cut off. */
  lemma LayoutShort(text: String, c: nat, maxPages: nat)
    requires c >= 1 && maxPages >= 1
    ensures |SplitCustom(text, c, maxPages)| < maxPages ==> Untruncated(text, c, maxPages)
  {
    var r := SplitCustom(text, c, maxPages);
    var fixed := FixedSlices(text, c, maxPages - 1);
    var chunks := Packing.SplitBySentence(Leftover(text, c, maxPages), c);
    SplitCustomTake(text, c, maxPages);
    TakeLayout(r, fixed, chunks, maxPages);
  }

  /** `TakeAppend` for a list `r` known to be the cut of `fixed + chunks`. */
  lemma TakeLayout(r: seq<String>, fixed: seq<String>, chunks: seq<String>, n: nat)
    requires |fixed| < n && r == Take(fixed + chunks, n)
    ensures |fixed| <= |r| && r[..|fixed|] == fixed && r[|fixed|..] <= chunks
    ensures r == fixed + chunks <==> |fixed| + |chunks| <= n
    ensures |r| < n ==> |fixed| + |chunks| <= n
  {
    TakeAppend(fixed, chunks, n);
  }

  /** The "no text yet" case arises exactly for whitespace-only text that the
      fixed-width phase does not cut (one page allowed, or at most `c`
      characters): then the sentence packer finds nothing either. */
  lemma HybridEmpty(text: String, c: nat, maxPages: nat)
    requires c >= 1 && maxPages >= 1
    ensures SplitCustom(text, c, maxPages) == [] <==> AllSpace(text) && (maxPages == 1 || |text| <= c)
  {
    var fixed := FixedSlices(text, c, maxPages - 1);
    var leftover := Leftover(text, c, maxPages);
    HybridLayout(text, c, maxPages);
    if fixed == [] {
      assert leftover == text;
    } else {
      assert |fixed| >= 1 && maxPages > 1;
      assert c < |text|;
    }
  }

  /** When the page limit cuts nothing off, the pages hold every
      non-whitespace character of the text, in order: the fixed pages give
      the consumed prefix verbatim and the sentence chunks drop only
      whitespace of the leftover. */
  lemma HybridKeepsText(text: String, c: nat, maxPages: nat)
    requires c >= 1 && maxPages >= 1
    requires Untruncated(text, c, maxPages)
    ensures NonSpace(Concat(SplitCustom(text, c, maxPages))) == NonSpace(text)
  {
    var fixed := FixedSlices(text, c, maxPages - 1);
    var leftover := Leftover(text, c, maxPages);
    var chunks := Packing.SplitBySentence(leftover, c);
    HybridLayout(text, c, maxPages);
    ConcatAppend(fixed, chunks);
    // the sentence chunks carry the leftover's content
    NonSpaceJoin(chunks);
    NonSpaceJoin(Sentences.Split(leftover));
    Sentences.SplitKeepsContent(leftover);
    NonSpaceAppend(Concat(fixed), leftover);
    NonSpaceAppend(Concat(fixed), Concat(chunks));
  }
}
