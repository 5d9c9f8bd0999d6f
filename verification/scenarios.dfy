/**
 Worked inputs for the pagination engine, each proved from the definitions.
 */
module Scenarios {
  import opened Text
  import Sentences
  import Packing

  /** A letter: neither whitespace nor a sentence terminator. */
  predicate Letter(x: char) {
    !IsSpace(x) && !Sentences.IsTerminator(x)
  }

  /** The text "x. y! z?" for letters `x`, `y`, `z`. */
  function Three(x: char, y: char, z: char): String
  {
    [x, '.', ' ', y, '!', ' ', z, '?']
  }

  /** The pieces and terminators of "x. y! z?", in order. */
  function ThreeParts(x: char, y: char, z: char): seq<String>
  {
    [[x], ".", [' ', y], "!", [' ', z], "?", ""]
  }

  lemma ThreePartsShape(x: char, y: char, z: char)
    requires Letter(x) && Letter(y) && Letter(z)
    ensures Sentences.TokenShape(ThreeParts(x, y, z))
  {
    var toks := ThreeParts(x, y, z);
    var t3: seq<String> := [[' ', z], "?", ""];
    var t2: seq<String> := [[' ', y], "!"] + t3;
    assert toks[2..] == t2 && t2[2..] == t3 && t3[2..] == [""];
    assert Sentences.TokenShape(t3) by {
      assert Sentences.NoTerminator([' ', z]) by {
        assert forall i :: 0 <= i < 2 ==> [' ', z][i] in {' ', z};
      }
      assert Sentences.TokenShape([""]);
    }
    assert Sentences.TokenShape(t2) by {
      assert Sentences.NoTerminator([' ', y]) by {
        assert forall i :: 0 <= i < 2 ==> [' ', y][i] in {' ', y};
      }
    }
  }

  /** One step of `"".join` from position `k` on. */
  lemma ConcatFrom(ts: seq<String>, k: nat)
    requires k < |ts|
    ensures Concat(ts[k..]) == ts[k] + Concat(ts[k + 1..])
  {
    assert ts[k..] == [ts[k]] + ts[k + 1..];
    ConcatCons(ts[k], ts[k + 1..]);
  }

  /** `"".join` of seven strings. */
  lemma ConcatSeven(ts: seq<String>)
    requires |ts| == 7
    ensures Concat(ts) == ts[0] + (ts[1] + (ts[2] + (ts[3] + (ts[4] + (ts[5] + ts[6])))))
  {
    ConcatFrom(ts, 6);
    assert ts[7..] == [];
    assert ts[6] + [] == ts[6];
    ConcatFrom(ts, 5);
    ConcatFrom(ts, 4);
    ConcatFrom(ts, 3);
    ConcatFrom(ts, 2);
    ConcatFrom(ts, 1);
    ConcatFrom(ts, 0);
    assert ts[0..] == ts;
  }

  lemma ThreePartsConcat(x: char, y: char, z: char)
    ensures Concat(ThreeParts(x, y, z)) == Three(x, y, z)
  {
    ConcatSeven(ThreeParts(x, y, z));
  }

  /** `re.split('([.?!])', "x. y! z?")` is `[x, ".", " y", "!", " z", "?", ""]`. */
  lemma ThreeTokens(x: char, y: char, z: char)
    requires Letter(x) && Letter(y) && Letter(z)
    ensures Sentences.Tokens(Three(x, y, z)) == ThreeParts(x, y, z)
  {
    ThreePartsShape(x, y, z);
    ThreePartsConcat(x, y, z);
    Sentences.TokensUnique(Three(x, y, z), ThreeParts(x, y, z));
  }

  /** `" x".strip()` is `"x"`. */
  lemma StripSpaced(x: char)
    requires !IsSpace(x)
    ensures Strip([' ', x]) == [x]
  {
    var seg := [' ', x];
    assert seg[1..] == [x];
    assert LeadingSpaces(seg) == 1 by {
      assert LeadingSpaces(seg[1..]) == 0;
    }
    assert TrailingSpaces([x]) == 0;
  }

  /** A piece `x` or ` x` glued to the terminator `d` after it. */
  lemma GlueSentence(seg: String, x: char, d: char)
    requires seg == [x] || seg == [' ', x]
    requires !IsSpace(x) && !IsSpace(d)
    ensures Strip(Strip(seg) + [d]) == [x, d]
  {
    if seg == [' ', x] {
      StripSpaced(x);
    } else {
      StripStripped(seg);
    }
    assert [x] + [d] == [x, d];
    StripStripped([x, d]);
  }

  /** One turn of the collecting loop on a piece `x` or ` x` and the
      terminator `d` after it: it yields the sentence `xd` in front of what
      the rest of the tokens yield. */
  lemma CollectSentence(ts: seq<String>, x: char, d: char, rest: seq<String>)
    requires |ts| >= 2 && (ts[0] == [x] || ts[0] == [' ', x]) && ts[1] == [d]
    requires !IsSpace(x) && !IsSpace(d)
    requires Sentences.Collect(ts[2..]) == rest
    ensures Sentences.Collect(ts) == [[x, d]] + rest
  {
    GlueSentence(ts[0], x, d);
  }

  lemma ListOfThree(a: String, b: String, c: String)
    ensures [a] + ([b] + ([c] + [])) == [a, b, c]
  {
  }

  /** A final empty piece yields no sentence. */
  lemma CollectEmptyPiece(ts: seq<String>)
    requires |ts| == 1 && ts[0] == []
    ensures Sentences.Collect(ts) == []
  {
    assert Strip([]) == [];
  }

  /** The sentence loop on any token list shaped like "x. y! z?". */
  lemma CollectThree(ts: seq<String>, x: char, y: char, z: char)
    requires Letter(x) && Letter(y) && Letter(z)
    requires |ts| == 7 && ts[0] == [x] && ts[1] == ['.'] && ts[2] == [' ', y]
    requires ts[3] == ['!'] && ts[4] == [' ', z] && ts[5] == ['?'] && ts[6] == []
    ensures Sentences.Collect(ts) == [[x, '.'], [y, '!'], [z, '?']]
  {
    var t2, t4, t6 := ts[2..], ts[4..], ts[6..];
    var r4, r2 := [[z, '?']] + [], [[y, '!']] + ([[z, '?']] + []);
    assert Sentences.Collect(t4) == r4 by {
      assert t4[2..] == t6;
      CollectEmptyPiece(t6);
      CollectSentence(t4, z, '?', []);
    }
    assert Sentences.Collect(t2) == r2 by {
      assert t2[2..] == t4;
      CollectSentence(t2, y, '!', r4);
    }
    CollectSentence(ts, x, '.', r2);
    ListOfThree([x, '.'], [y, '!'], [z, '?']);
  }

  /** The sentence loop turns the pieces of "x. y! z?" into "x.", "y!", "z?". */
  lemma ThreeCollected(x: char, y: char, z: char)
    requires Letter(x) && Letter(y) && Letter(z)
    ensures Sentences.Collect(ThreeParts(x, y, z)) == [[x, '.'], [y, '!'], [z, '?']]
  {
    CollectThree(ThreeParts(x, y, z), x, y, z);
  }

  /** The sentences of "x. y! z?" are "x.", "y!" and "z?". */
  lemma ThreeSentences(x: char, y: char, z: char)
    requires Letter(x) && Letter(y) && Letter(z)
    ensures Sentences.Split(Three(x, y, z)) == [[x, '.'], [y, '!'], [z, '?']]
  {
    ThreeTokens(x, y, z);
    ThreeCollected(x, y, z);
  }

  /** One turn of the packing loop. */
  lemma PackStep(s: String, ss: seq<String>, cur: String, c: int)
    ensures Packing.PackFrom([s] + ss, cur, c)
         == if |cur| + |s| + 1 <= c
            then Packing.PackFrom(ss, (if cur != [] then cur + " " else cur) + s, c)
            else Keep(cur) + Packing.PackFrom(ss, s, c)
  {
    assert ([s] + ss)[1..] == ss;
  }

  /** Three two-character sentences under a chunk size of 10 form one chunk:
      after the first (length 2) and the first two (length 5), adding the third
      needs 5 + 2 + 1 = 8 <= 10 characters. */
  lemma PackThree(a: String, b: String, c: String)
    requires |a| == 2 && |b| == 2 && |c| == 2
    ensures Packing.PackFrom([a, b, c], [], 10) == [a + " " + b + " " + c]
  {
    var ab := a + " " + b;
    assert Packing.PackFrom([a, b, c], [], 10) == Packing.PackFrom([b, c], a, 10) by {
      PackStep(a, [b, c], [], 10);
      assert [a, b, c] == [a] + [b, c];
      assert [] + a == a;
    }
    assert Packing.PackFrom([b, c], a, 10) == Packing.PackFrom([c], ab, 10) by {
      PackStep(b, [c], a, 10);
      assert [b, c] == [b] + [c];
    }
    assert Packing.PackFrom([c], ab, 10) == Packing.PackFrom([], ab + " " + c, 10) by {
      PackStep(c, [], ab, 10);
      assert [c] == [c] + [];
    }
  }

  /** With chunk size 10, "x. y! z?" is a single chunk. */
  lemma ShortSentencesShareChunk(x: char, y: char, z: char)
    requires Letter(x) && Letter(y) && Letter(z)
    ensures Packing.SplitBySentence(Three(x, y, z), 10) == [Three(x, y, z)]
  {
    ThreeSentences(x, y, z);
    PackThree([x, '.'], [y, '!'], [z, '?']);
    assert [x, '.'] + " " + [y, '!'] + " " + [z, '?'] == Three(x, y, z);
  }

  /** The same for "A. B! C?": one chunk holding all three sentences. */
  lemma ShortSentencesExample()
    ensures Packing.SplitBySentence("A. B! C?", 10) == ["A. B! C?"]
  {
    ShortSentencesShareChunk('A', 'B', 'C');
    assert Three('A', 'B', 'C') == "A. B! C?";
  }
}
