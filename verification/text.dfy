/**
 The string vocabulary shared by the pagination engine: Python's notion of
 whitespace, `str.strip()`, `" ".join(...)`, plain concatenation of a list of
 strings, and the "non-whitespace content" of a string. The sentence splitter
 never loses or reorders that content; the hybrid splitter keeps it only when
 its page limit cuts nothing off.

 A Dafny `char` stands for one Python code point, so `|s|` is Python's `len(s)`.
 */
module Text {

  type String = seq<char>

  /** The code points for which Python's `str.isspace()` holds; these are the
      characters `str.strip()` removes when called without an argument:
      U+0009..U+000D, U+001C..U+0020, U+0085, U+00A0, U+1680, U+2000..U+200A,
      U+2028, U+2029, U+202F, U+205F and U+3000. */
  predicate IsSpace(ch: char) {
    var c := ch as int;
    || 0x09 <= c <= 0x0D
    || 0x1C <= c <= 0x20
    || c == 0x85
    || c == 0xA0
    || c == 0x1680
    || 0x2000 <= c <= 0x200A
    || c == 0x2028
    || c == 0x2029
    || c == 0x202F
    || c == 0x205F
    || c == 0x3000
  }

  /** Every character of `s` is whitespace (vacuously true of the empty string). */
  predicate AllSpace(s: String) {
    forall i :: 0 <= i < |s| ==> IsSpace(s[i])
  }

  /** `s` has no leading and no trailing whitespace: a fixed point of `strip()`. */
  predicate Stripped(s: String) {
    s == [] || (!IsSpace(s[0]) && !IsSpace(s[|s| - 1]))
  }

  /** The non-whitespace characters of `s`, in order. */
  function NonSpace(s: String): (r: String)
    ensures |r| <= |s|
    ensures forall i :: 0 <= i < |r| ==> !IsSpace(r[i])
  {
    if s == [] then []
    else (if IsSpace(s[0]) then [] else [s[0]]) + NonSpace(s[1..])
  }

  lemma {:induction false} NonSpaceAppend(a: String, b: String)
    ensures NonSpace(a + b) == NonSpace(a) + NonSpace(b)
    decreases |a|
  {
    if a == [] {
      assert a + b == b;
    } else {
      assert (a + b)[0] == a[0];
      assert (a + b)[1..] == a[1..] + b;
      NonSpaceAppend(a[1..], b);
    }
  }

  lemma {:induction false} NonSpaceOfAllSpace(s: String)
    ensures AllSpace(s) <==> NonSpace(s) == []
    decreases |s|
  {
    if s != [] {
      NonSpaceOfAllSpace(s[1..]);
      if AllSpace(s) {
        assert AllSpace(s[1..]) by {
          forall i | 0 <= i < |s[1..]| ensures IsSpace(s[1..][i]) {
            assert s[1..][i] == s[i + 1];
          }
        }
      } else if IsSpace(s[0]) {
        assert !AllSpace(s[1..]) by {
          var j :| 0 <= j < |s| && !IsSpace(s[j]);
          assert s[1..][j - 1] == s[j];
        }
      }
    }
  }

  /** How many whitespace characters `s` starts with: what `lstrip()` drops. */
  function LeadingSpaces(s: String): (n: nat)
    ensures n <= |s|
    ensures AllSpace(s[..n])
    ensures n == |s| || !IsSpace(s[n])
    decreases |s|
  {
    if |s| > 0 && IsSpace(s[0]) then
      var n' := LeadingSpaces(s[1..]);
      n' + 1
    else 0
  }

  /** How many whitespace characters `s` ends with: what `rstrip()` drops. */
  function TrailingSpaces(s: String): (n: nat)
    ensures n <= |s|
    ensures AllSpace(s[|s| - n..])
    ensures n == |s| || !IsSpace(s[|s| - n - 1])
    decreases |s|
  {
    if |s| > 0 && IsSpace(s[|s| - 1]) then
      var s' := s[..|s| - 1];
      var n' := TrailingSpaces(s');
      n' + 1
    else 0
  }

  /** Python's `strip()` with no argument: `lstrip()` followed by `rstrip()`. */
  function Strip(s: String): (r: String)
    ensures Stripped(r)
    ensures |r| <= |s|
  {
    var rest := s[LeadingSpaces(s)..];
    rest[..|rest| - TrailingSpaces(rest)]
  }

  /** What `strip()` returns is what is left of `s` once a whitespace-only
      prefix `a` and a whitespace-only suffix `b` are cut off. */
  lemma StripIsInfix(s: String) returns (a: String, b: String)
    ensures s == a + Strip(s) + b
    ensures AllSpace(a) && AllSpace(b)
  {
    var i := LeadingSpaces(s);
    var rest := s[i..];
    var k := |rest| - TrailingSpaces(rest);
    a, b := s[..i], rest[k..];
    CutSlices(s, i, k);
  }

  /** Cutting `s` at `i`, and what follows again at `k`, gives three parts that
      put back together are `s`. */
  lemma CutSlices(s: String, i: nat, k: nat)
    requires i <= |s| && k <= |s| - i
    ensures s == s[..i] + s[i..][..k] + s[i..][k..]
  {
    assert s[i..][..k] == s[i..i + k];
    assert s[i..][k..] == s[i + k..];
    CutThree(s, i, i + k);
  }

  /** Cutting a string at two positions and putting the three parts back
      together gives the string. */
  lemma CutThree(s: String, i: nat, j: nat)
    requires i <= j <= |s|
    ensures s == s[..i] + s[i..j] + s[j..]
  {
    assert s[..i] + s[i..j] == s[..j];
  }

  /** `strip()` removes whitespace only: the non-whitespace content survives
      unchanged and in order, and nothing is left exactly when nothing but
      whitespace was there. */
  lemma StripKeepsContent(s: String)
    ensures NonSpace(Strip(s)) == NonSpace(s)
    ensures Strip(s) == [] <==> AllSpace(s)
  {
    var a, b := StripIsInfix(s);
    NonSpaceAround(a, Strip(s), b);
    NonSpaceOfAllSpace(s);
    if Strip(s) != [] {
      NonSpaceNonEmpty(Strip(s));
    }
  }

  /** Whitespace around a string adds nothing to its non-whitespace content. */
  lemma NonSpaceAround(a: String, m: String, b: String)
    requires AllSpace(a) && AllSpace(b)
    ensures NonSpace(a + m + b) == NonSpace(m)
  {
    NonSpaceAppend(a + m, b);
    NonSpaceAppend(a, m);
    NonSpaceOfAllSpace(a);
    NonSpaceOfAllSpace(b);
  }

  lemma NonSpaceNonEmpty(s: String)
    requires s != [] && !IsSpace(s[0])
    ensures NonSpace(s) != []
  {
    assert NonSpace(s) == [s[0]] + NonSpace(s[1..]);
  }

  /** A string with no surrounding whitespace is left alone by `strip()`. */
  lemma StripStripped(s: String)
    requires Stripped(s)
    ensures Strip(s) == s
  {
  }

  /** The list holding `s` if it is non-empty and nothing otherwise: the
      `if x: xs.append(x)` idiom. */
  function Keep(s: String): (r: seq<String>)
    ensures |r| <= 1
    ensures forall x :: x in r ==> x != []
    ensures Concat(r) == s
  {
    if s != [] then
      assert Concat([s]) == s + Concat([]);
      [s]
    else []
  }

  /** Plain concatenation of a list of strings, Python's `"".join(xs)`. */
  function Concat(xs: seq<String>): String
  {
    if xs == [] then [] else xs[0] + Concat(xs[1..])
  }

  /** Concatenation of a list that starts with `x`. */
  lemma ConcatCons(x: String, xs: seq<String>)
    ensures Concat([x] + xs) == x + Concat(xs)
  {
    assert ([x] + xs)[1..] == xs;
  }

  /** A list of at least two strings concatenates as its first two strings
      followed by the concatenation of the rest. */
  lemma ConcatPair(tokens: seq<String>)
    requires |tokens| >= 2
    ensures Concat(tokens) == tokens[0] + tokens[1] + Concat(tokens[2..])
  {
    var rest := tokens[2..];
    assert tokens[1..] == [tokens[1]] + rest;
    ConcatCons(tokens[1], rest);
    assert tokens == [tokens[0]] + tokens[1..];
    ConcatCons(tokens[0], tokens[1..]);
    AppendAssoc(tokens[0], tokens[1], Concat(rest));
  }

  lemma AppendAssoc(a: String, b: String, c: String)
    ensures a + (b + c) == a + b + c
  {
    assert |a + (b + c)| == |a + b + c|;
  }

  /** A list whose first string starts with a non-whitespace character has
      non-whitespace content. */
  lemma ConcatHasContent(xs: seq<String>)
    requires xs != [] && xs[0] != [] && !IsSpace(xs[0][0])
    ensures NonSpace(Concat(xs)) != []
  {
    ConcatCons(xs[0], xs[1..]);
    assert xs == [xs[0]] + xs[1..];
    NonSpaceAppend(xs[0], Concat(xs[1..]));
    NonSpaceNonEmpty(xs[0]);
  }

  /** Concatenation distributes over appending lists. */
  lemma {:induction false} ConcatAppend(xs: seq<String>, ys: seq<String>)
    ensures Concat(xs + ys) == Concat(xs) + Concat(ys)
    decreases |xs|
  {
    if xs == [] {
      assert xs + ys == ys;
    } else {
      assert (xs + ys)[1..] == xs[1..] + ys;
      ConcatAppend(xs[1..], ys);
    }
  }

  /** Concatenation of a list that ends with `x`. */
  lemma ConcatSnoc(xs: seq<String>, x: String)
    ensures Concat(xs + [x]) == Concat(xs) + x
  {
    ConcatAppend(xs, [x]);
    assert Concat([x]) == x + Concat([]);
  }

  /** Python's `" ".join(xs)`: the strings of `xs` separated by single spaces. */
  function JoinSpace(xs: seq<String>): String
  {
    if xs == [] then []
    else if |xs| == 1 then xs[0]
    else xs[0] + " " + JoinSpace(xs[1..])
  }

  /** Splitting a list of strings anywhere but at its ends splits its
      space-join at one of the separating spaces. */
  lemma {:induction false} JoinSpaceSplit(xs: seq<String>, k: nat)
    requires 0 < k < |xs|
    ensures JoinSpace(xs) == JoinSpace(xs[..k]) + " " + JoinSpace(xs[k..])
    decreases k
  {
    if k == 1 {
      assert xs[..1] == [xs[0]];
      assert xs[1..] == xs[k..];
    } else {
      JoinSpaceSplit(xs[1..], k - 1);
      assert xs[1..][..k - 1] == xs[1..k];
      assert xs[1..][k - 1..] == xs[k..];
      assert xs[..k][1..] == xs[1..k];
    }
  }

  /** Appending one more string to a non-empty list extends its space-join by
      a space and that string: what `cur += " "; cur += s` computes. */
  lemma JoinSpaceSnoc(xs: seq<String>, s: String)
    requires xs != []
    ensures JoinSpace(xs + [s]) == JoinSpace(xs) + " " + s
  {
    var ys := xs + [s];
    JoinSpaceSplit(ys, |xs|);
    assert ys[..|xs|] == xs;
    assert ys[|xs|..] == [s];
  }

  /** The space-join of non-empty strings is empty exactly when the list is. */
  lemma JoinSpaceEmpty(xs: seq<String>)
    requires forall i :: 0 <= i < |xs| ==> xs[i] != []
    ensures JoinSpace(xs) == [] <==> xs == []
  {
    if |xs| >= 2 {
      assert |JoinSpace(xs)| >= |xs[0]| + 1;
    }
  }

  /** Joining with spaces instead of nothing adds only whitespace. */
  lemma {:induction false} NonSpaceJoin(xs: seq<String>)
    ensures NonSpace(JoinSpace(xs)) == NonSpace(Concat(xs))
    decreases |xs|
  {
    if |xs| == 1 {
      assert Concat(xs) == xs[0] + Concat(xs[1..]);
      assert xs[0] + [] == xs[0];
    } else if |xs| >= 2 {
      NonSpaceJoin(xs[1..]);
      NonSpaceAppend(xs[0] + " ", JoinSpace(xs[1..]));
      NonSpaceAppend(xs[0], " ");
      NonSpaceAppend(xs[0], Concat(xs[1..]));
      assert NonSpace(" ") == [] by {
        assert " "[1..] == [];
      }
    }
  }
}
