/**
 Sentence tokenisation of `split_text_by_sentence` (app.py, lines 103-114).

 The text is first cut by `re.split('([.?!])', text)`. Because the pattern
 has a capture group, the result alternates between the pieces between
 terminators and the terminators themselves:
 `[seg0, term0, seg1, term1, ..., segN]`. `Tokens` produces exactly that list;
 `TokensUnique` shows that this shape, together with giving the text back
 when concatenated, determines it. `Collect` is the loop that glues each
 piece to the terminator after it, strips it, and drops empty sentences.
 */
module Sentences {
  import opened Text

  /** The sentence terminators of the split pattern `[.?!]`. */
  predicate IsTerminator(ch: char) {
    ch == '.' || ch == '?' || ch == '!'
  }

  predicate NoTerminator(s: String) {
    forall i :: 0 <= i < |s| ==> !IsTerminator(s[i])
  }

  /** A token that is one terminator character. */
  predicate IsTerminatorToken(d: String) {
    |d| == 1 && IsTerminator(d[0])
  }

  /** The shape of `re.split` with one captured single-character group:
      `[seg0, term0, seg1, term1, ..., segN]` with terminator-free pieces and
      single-terminator separators. */
  predicate TokenShape(r: seq<String>)
    decreases |r|
  {
    && |r| >= 1
    && NoTerminator(r[0])
    && (|r| == 1 || (|r| >= 3 && IsTerminatorToken(r[1]) && TokenShape(r[2..])))
  }

  /** `re.split('([.?!])', t)`: scanning left to right, a terminator closes the
      current piece, is emitted on its own, and opens a new (possibly empty)
      piece; any other character extends the current piece. */
  function Tokens(t: String): (r: seq<String>)
    ensures TokenShape(r)
    ensures Concat(r) == t
    decreases |t|
  {
    if t == [] then [[]]
    else if IsTerminator(t[0]) then
      var rest := Tokens(t[1..]);
      var r := [[], [t[0]]] + rest;
      assert r[2..] == rest;
      ConcatCons([t[0]], rest);
      ConcatCons([], [[t[0]]] + rest);
      assert r == [[]] + ([[t[0]]] + rest);
      r
    else
      var rest := Tokens(t[1..]);
      var r := [[t[0]] + rest[0]] + rest[1..];
      assert NoTerminator(r[0]) by {
        assert forall j :: 1 <= j < |r[0]| ==> r[0][j] == rest[0][j - 1];
      }
      assert |r| > 1 ==> r[1] == rest[1] && r[2..] == rest[2..];
      ConcatCons(rest[0], rest[1..]);
      assert rest == [rest[0]] + rest[1..];
      ConcatCons(r[0], rest[1..]);
      r
  }

  /** The token list of a text is the only list of that shape that
      concatenates back to the text: `Tokens` is exactly `re.split`'s output. */
  lemma {:induction false} TokensUnique(t: String, r: seq<String>)
    requires TokenShape(r)
    requires Concat(r) == t
    ensures r == Tokens(t)
    decreases |t|
  {
    assert r == [r[0]] + r[1..];
    ConcatCons(r[0], r[1..]);
    if r[0] != [] {
      // The first piece is non-empty: its first character is `t[0]`, not a
      // terminator, and the rest is the token list of `t[1..]`.
      assert t[0] == r[0][0];
      assert !IsTerminator(t[0]);
      var r' := [r[0][1..]] + r[1..];
      assert NoTerminator(r'[0]) by {
        assert forall j :: 0 <= j < |r'[0]| ==> r'[0][j] == r[0][j + 1];
      }
      assert |r'| > 1 ==> r'[1] == r[1] && r'[2..] == r[2..];
      assert TokenShape(r');
      ConcatCons(r[0][1..], r[1..]);
      assert r[0] == [t[0]] + r[0][1..];
      assert Concat(r') == t[1..];
      TokensUnique(t[1..], r');
      assert r'[1..] == r[1..];
    } else if |r| == 1 {
      assert t == [];
      assert r == [[]];
    } else {
      // The first piece is empty: `t` starts with the terminator `r[1]`.
      var tail := r[2..];
      assert r[1..] == [r[1]] + tail;
      ConcatCons(r[1], tail);
      assert t == r[1] + Concat(tail);
      assert t[0] == r[1][0];
      assert r[1] == [t[0]];
      assert t[1..] == Concat(tail);
      TokensUnique(t[1..], tail);
    }
  }

  /** Lines 107-114: walk the tokens two at a time; a piece followed by a
      terminator becomes `piece.strip() + terminator`, a final lone piece
      becomes `piece.strip()`; the result is stripped once more and kept only
      if non-empty. */
  function Collect(tokens: seq<String>): (r: seq<String>)
    ensures forall i :: 0 <= i < |r| ==> r[i] != [] && Stripped(r[i])
    decreases |tokens|
  {
    if tokens == [] then []
    else if |tokens| == 1 then Keep(Strip(Strip(tokens[0])))
    else Keep(Strip(Strip(tokens[0]) + tokens[1])) + Collect(tokens[2..])
  }

  /** The sentence list that `split_text_by_sentence` packs into chunks
      (lines 103-114). Every sentence is well formed, and every sentence but
      the last ends with its terminator. */
  function Split(t: String): (r: seq<String>)
    ensures forall i :: 0 <= i < |r| ==> IsSentence(r[i])
    ensures forall i :: 0 <= i < |r| - 1 ==> EndsWithTerminator(r[i])
  {
    CollectShape(Tokens(t));
    Collect(Tokens(t))
  }

  /** A well-formed sentence: non-empty, no surrounding whitespace, and no
      terminator anywhere except possibly as its last character. */
  predicate IsSentence(s: String) {
    s != [] && Stripped(s) && NoTerminator(s[..|s| - 1])
  }

  predicate EndsWithTerminator(s: String) {
    s != [] && IsTerminator(s[|s| - 1])
  }

  /** `strip()` only removes characters, so it adds no terminator. */
  lemma StripNoTerminator(seg: String)
    requires NoTerminator(seg)
    ensures NoTerminator(Strip(seg))
  {
    var x := Strip(seg);
    var a, b := StripIsInfix(seg);
    forall j | 0 <= j < |x| ensures !IsTerminator(x[j]) {
      assert x[j] == seg[|a| + j];
    }
  }

  /** A stripped piece glued to a terminator is already stripped. */
  lemma GlueStripped(x: String, d: String)
    requires Stripped(x)
    requires |d| == 1 && IsTerminator(d[0])
    ensures Stripped(x + d)
  {
    assert !IsSpace(d[0]);
  }

  /** A stripped, terminator-free piece glued to a terminator is already
      stripped, so the second `strip()` of line 112 changes nothing. */
  lemma GlueTerminator(seg: String, d: String)
    requires NoTerminator(seg)
    requires |d| == 1 && IsTerminator(d[0])
    ensures Strip(Strip(seg) + d) == Strip(seg) + d
    ensures IsSentence(Strip(seg) + d) && EndsWithTerminator(Strip(seg) + d)
  {
    var x := Strip(seg);
    StripNoTerminator(seg);
    GlueStripped(x, d);
    StripStripped(x + d);
    assert (x + d)[..|x + d| - 1] == x;
  }

  /** A final piece without terminator yields, if anything, a
      terminator-free sentence. */
  lemma LonePiece(seg: String)
    requires NoTerminator(seg)
    ensures Strip(Strip(seg)) == Strip(seg)
    ensures Strip(seg) != [] ==> IsSentence(Strip(seg)) && !EndsWithTerminator(Strip(seg))
  {
    var x := Strip(seg);
    StripNoTerminator(seg);
    StripStripped(x);
    if x != [] {
      assert !IsTerminator(x[|x| - 1]);
    }
  }

  /** Every sentence carries at most one terminator, as its last character, and
      only the last sentence may lack one. */
  lemma {:induction false} CollectShape(tokens: seq<String>)
    requires TokenShape(tokens)
    ensures forall i :: 0 <= i < |Collect(tokens)| ==> IsSentence(Collect(tokens)[i])
    ensures forall i :: 0 <= i < |Collect(tokens)| - 1 ==> EndsWithTerminator(Collect(tokens)[i])
    decreases |tokens|
  {
    if |tokens| == 1 {
      LonePiece(tokens[0]);
    } else {
      GlueTerminator(tokens[0], tokens[1]);
      var sentence := Strip(tokens[0]) + tokens[1];
      var rest := Collect(tokens[2..]);
      CollectShape(tokens[2..]);
      var r := [sentence] + rest;
      assert Collect(tokens) == r;
      forall i | 0 <= i < |r| ensures IsSentence(r[i]) {
        if i > 0 {
          assert r[i] == rest[i - 1];
        }
      }
      forall i | 0 <= i < |r| - 1 ensures EndsWithTerminator(r[i]) {
        if i > 0 {
          assert r[i] == rest[i - 1];
        }
      }
    }
  }

  /** The sentence built from a piece and the terminator after it has the
      same non-whitespace content as the two tokens. */
  lemma GluedContent(seg: String, d: String)
    ensures NonSpace(Strip(Strip(seg) + d)) == NonSpace(seg + d)
  {
    StripKeepsContent(Strip(seg) + d);
    StripKeepsContent(seg);
    NonSpaceAppend(Strip(seg), d);
    NonSpaceAppend(seg, d);
  }

  /** Appending a sentence that may have been dropped (because it was empty)
      keeps the non-whitespace content of the concatenation. */
  lemma KeptContent(sentence: String, rest: seq<String>)
    ensures NonSpace(Concat(Keep(sentence) + rest)) == NonSpace(sentence) + NonSpace(Concat(rest))
  {
    if sentence != [] {
      ConcatCons(sentence, rest);
      NonSpaceAppend(sentence, Concat(rest));
    } else {
      assert Keep(sentence) + rest == rest;
    }
  }

  /** Only whitespace is dropped by the sentence loop: the non-whitespace
      characters of the sentences are those of the tokens, in order. */
  lemma {:induction false} CollectKeepsContent(tokens: seq<String>)
    ensures NonSpace(Concat(Collect(tokens))) == NonSpace(Concat(tokens))
    decreases |tokens|
  {
    if |tokens| == 1 {
      StripKeepsContent(Strip(tokens[0]));
      StripKeepsContent(tokens[0]);
      var x := Strip(Strip(tokens[0]));
      assert Concat(tokens) == tokens[0] by {
        assert Concat(tokens) == tokens[0] + Concat(tokens[1..]);
        assert tokens[0] + [] == tokens[0];
      }
      if x != [] {
        assert Concat([x]) == x + Concat([x][1..]);
        assert x + [] == x;
      } else {
        NonSpaceOfAllSpace(x);
      }
    } else if |tokens| >= 2 {
      var sentence := Strip(Strip(tokens[0]) + tokens[1]);
      KeptContent(sentence, Collect(tokens[2..]));
      GluedContent(tokens[0], tokens[1]);
      ConcatPair(tokens);
      NonSpaceAppend(tokens[0] + tokens[1], Concat(tokens[2..]));
      CollectKeepsContent(tokens[2..]);
    }
  }

  /** The sentences of a text carry every non-whitespace character of the text,
      in the original order, and nothing else. */
  lemma SplitKeepsContent(t: String)
    ensures NonSpace(Concat(Split(t))) == NonSpace(t)
  {
    CollectKeepsContent(Tokens(t));
  }

  /** A text yields no sentence exactly when it is whitespace only. */
  lemma SplitEmpty(t: String)
    ensures Split(t) == [] <==> AllSpace(t)
  {
    var ss := Split(t);
    SplitKeepsContent(t);
    NonSpaceOfAllSpace(t);
    if ss != [] {
      assert IsSentence(ss[0]);
      ConcatHasContent(ss);
    }
  }
}
