/**
 The pure part of the page view `show_page(page_number)` (app.py, lines
 165-178): given the stored list of pages and a requested 1-based page number,
 decide between the "no text yet" message, the "invalid page number" error and
 the content of the page.
 */
module Lookup {
  import opened Text
  import Hybrid

  /** What the view answers: the "no text uploaded yet" message, the 404 for a
      page number out of range, or page `number` of `total` with its text. */
  datatype PageView =
    | NoText
    | InvalidPage
    | Shown(content: String, number: int, total: nat)

  /** The view's decision for page `n` of the stored `pages`. */
  function ShowPage(pages: seq<String>, n: int): (v: PageView)
    ensures v == NoText <==> pages == []
    ensures v == InvalidPage <==> pages != [] && !(1 <= n <= |pages|)
    ensures v.Shown? ==> 1 <= n <= |pages| && v.content == pages[n - 1]
                         && v.number == n && v.total == |pages|
  {
    var total := |pages|;
    if total == 0 then NoText
    else if n < 1 || n > total then InvalidPage
    else Shown(pages[n - 1], n, total)
  }

  /** Paging through the view from page 1 to the last page shows every stored
      page once, in order: the contents read back are the stored list. */
  method ReadAll(pages: seq<String>) returns (read: seq<String>)
    ensures read == pages
  {
    read := [];
    var n := 1;
    while n <= |pages|
      invariant 1 <= n <= |pages| + 1
      invariant read == pages[..n - 1]
    {
      var v := ShowPage(pages, n);
      read := read + [v.content];
      n := n + 1;
    }
  }

  /** For pages made by the hybrid splitter, the "no text" answer comes up
      exactly when the text was whitespace only and short enough (or the page
      limit one) for the fixed-width phase to cut nothing; and every page the
      view does show has some text on it. */
  lemma ShowSplitPage(text: String, c: nat, maxPages: nat, n: int)
    requires c >= 1 && maxPages >= 1
    ensures var v := ShowPage(Hybrid.SplitCustom(text, c, maxPages), n);
            && (v == NoText <==> AllSpace(text) && (maxPages == 1 || |text| <= c))
            && (v.Shown? ==> v.content != [] && 1 <= n <= maxPages)
  {
    Hybrid.HybridEmpty(text, c, maxPages);
  }
}
