/**
 Greedy packing of sentences into chunks, the second half of
 `split_text_by_sentence` (app.py, lines 116-134).

 `PackFrom` follows the loop: a running chunk absorbs the next sentence,
 separated by one space, while `len(cur) + len(s) + 1 <= chunk_size`;
 otherwise the running chunk is closed (if non-empty) and the sentence starts
 a new one. The result is specified independently by `GreedyPartition`, a
 grouping of the sentences into consecutive runs; `PackIsGreedy` shows the
 loop produces such a grouping and `GreedyUnique` that there is only one.
 */
module Packing {
  import opened Text
  import Sentences

  /** The loop of lines 119-132, with the running chunk `cur` as accumulator. */
  function PackFrom(ss: seq<String>, cur: String, c: int): (r: seq<String>)
    ensures forall i :: 0 <= i < |r| ==> r[i] != []
    decreases |ss|
  {
    if ss == [] then Keep(cur)
    else
      var s := ss[0];
      if |cur| + |s| + 1 <= c then
        PackFrom(ss[1..], (if cur != [] then cur + " " else cur) + s, c)
      else
        Keep(cur) + PackFrom(ss[1..], s, c)
  }

  /** `split_text_by_sentence(text, chunk_size)`. */
  function SplitBySentence(t: String, c: int): (r: seq<String>)
    ensures forall i :: 0 <= i < |r| ==> r[i] != []
    ensures r == [] <==> AllSpace(t)
    ensures JoinSpace(r) == JoinSpace(Sentences.Split(t))
    ensures forall i :: 0 <= i < |r| && |r[i]| > c ==> r[i] in Sentences.Split(t)
  {
    var ss := Sentences.Split(t);
    Sentences.SplitEmpty(t);
    PackFacts(ss, c);
    PackFrom(ss, [], c)
  }

  // ----- the independent description: a greedy grouping of the sentences -----

  /** All groups, concatenated in order; the first group comes first. */
  function Flatten(gs: seq<seq<String>>): (r: seq<String>)
    ensures gs != [] ==> gs[0] <= r
  {
    if gs == [] then [] else gs[0] + Flatten(gs[1..])
  }

  /** The chunk each group becomes: its sentences joined by single spaces. */
  function JoinEach(gs: seq<seq<String>>): (r: seq<String>)
    ensures |r| == |gs|
    ensures forall i :: 0 <= i < |gs| ==> r[i] == JoinSpace(gs[i])
  {
    if gs == [] then [] else [JoinSpace(gs[0])] + JoinEach(gs[1..])
  }

  /** A group respects the bound: it is a single sentence (which may be
      oversized) or its space-join is at most `c` characters. */
  predicate Fits(g: seq<String>, c: int) {
    |g| == 1 || |JoinSpace(g)| <= c
  }

  /** Whether the next group's first sentence could not have joined the group
      before it: `len(cur) + len(s) + 1 > chunk_size`. */
  predicate Closed(prev: seq<String>, next: seq<String>, c: int)
    requires next != []
  {
    |JoinSpace(prev)| + |next[0]| + 1 > c
  }

  /** `gs` splits `ss` into consecutive non-empty runs that each fit, and each
      run ends only because the following sentence would not fit in it. */
  predicate GreedyPartition(ss: seq<String>, gs: seq<seq<String>>, c: int) {
    && Flatten(gs) == ss
    && (forall i :: 0 <= i < |gs| ==> gs[i] != [] && Fits(gs[i], c))
    && (forall i :: 1 <= i < |gs| ==> gs[i] != [] && Closed(gs[i - 1], gs[i], c))
  }

  lemma FlattenCons(g: seq<String>, gs: seq<seq<String>>)
    ensures Flatten([g] + gs) == g + Flatten(gs)
  {
    assert ([g] + gs)[1..] == gs;
  }

  /** The running chunk `cur` is the space-join of the group collected so far;
      the lemma returns the grouping the rest of the loop produces. */
  lemma {:induction false} PackFromGreedy(ss: seq<String>, g: seq<String>, c: int)
    returns (gs: seq<seq<String>>)
    requires forall i :: 0 <= i < |ss| ==> ss[i] != []
    requires forall i :: 0 <= i < |g| ==> g[i] != []
    requires g == [] || Fits(g, c)
    ensures PackFrom(ss, JoinSpace(g), c) == JoinEach(gs)
    ensures GreedyPartition(g + ss, gs, c)
    ensures g != [] ==> gs != [] && |g| <= |gs[0]| && gs[0][..|g|] == g
    decreases |ss|
  {
    JoinSpaceEmpty(g);
    if ss == [] {
      gs := if g == [] then [] else [g];
      assert g + ss == g;
      if g != [] {
        FlattenCons(g, []);
        assert [g] + [] == [g];
      }
    } else if |JoinSpace(g)| + |ss[0]| + 1 <= c {
      GrowFits(g, ss[0], c);
      gs := PackFromGreedy(ss[1..], g + [ss[0]], c);
      GrowStep(ss, g, gs, c);
    } else {
      var gs' := PackFromGreedy(ss[1..], [ss[0]], c);
      gs := CloseStep(ss, g, gs', c);
    }
  }

  /** The sentence `s` joins the running group `g`: the grown group still
      fits, and its space-join is what `cur += " "; cur += s` builds. */
  lemma GrowFits(g: seq<String>, s: String, c: int)
    requires forall i :: 0 <= i < |g| ==> g[i] != []
    requires s != [] && |JoinSpace(g)| + |s| + 1 <= c
    ensures forall i :: 0 <= i < |g + [s]| ==> (g + [s])[i] != []
    ensures Fits(g + [s], c)
    ensures (if JoinSpace(g) != [] then JoinSpace(g) + " " else JoinSpace(g)) + s
         == JoinSpace(g + [s])
  {
    JoinSpaceEmpty(g);
    if g != [] {
      JoinSpaceSnoc(g, s);
    } else {
      assert g + [s] == [s];
    }
  }

  /** One turn of the loop in which the sentence joins the running group. */
  lemma GrowStep(ss: seq<String>, g: seq<String>, gs: seq<seq<String>>, c: int)
    requires ss != [] && ss[0] != []
    requires forall i :: 0 <= i < |g| ==> g[i] != []
    requires |JoinSpace(g)| + |ss[0]| + 1 <= c
    requires PackFrom(ss[1..], JoinSpace(g + [ss[0]]), c) == JoinEach(gs)
    requires GreedyPartition(g + [ss[0]] + ss[1..], gs, c)
    requires gs != [] && |g| + 1 <= |gs[0]| && gs[0][..|g| + 1] == g + [ss[0]]
    ensures PackFrom(ss, JoinSpace(g), c) == JoinEach(gs)
    ensures GreedyPartition(g + ss, gs, c)
    ensures g != [] ==> gs != [] && |g| <= |gs[0]| && gs[0][..|g|] == g
  {
    GrowPack(ss, g, c);
    SnocRest(g, ss);
    GrowPrefix(g, ss[0], gs[0]);
  }

  /** The loop turn itself: the running chunk grows by the sentence. */
  lemma GrowPack(ss: seq<String>, g: seq<String>, c: int)
    requires ss != [] && ss[0] != []
    requires forall i :: 0 <= i < |g| ==> g[i] != []
    requires |JoinSpace(g)| + |ss[0]| + 1 <= c
    ensures PackFrom(ss, JoinSpace(g), c) == PackFrom(ss[1..], JoinSpace(g + [ss[0]]), c)
  {
    GrowFits(g, ss[0], c);
  }

  lemma SnocRest(g: seq<String>, ss: seq<String>)
    requires ss != []
    ensures g + [ss[0]] + ss[1..] == g + ss
  {
    assert [ss[0]] + ss[1..] == ss;
  }

  /** A group that starts with `g + [s]` starts with `g`. */
  lemma GrowPrefix(g: seq<String>, s: String, first: seq<String>)
    requires |g| + 1 <= |first| && first[..|g| + 1] == g + [s]
    ensures |g| <= |first| && first[..|g|] == g
  {
    assert first[..|g|] == first[..|g| + 1][..|g|];
  }

  /** One turn of the loop in which the sentence does not fit: the running
      group is closed (if there is one) and the sentence opens the next. */
  lemma CloseStep(ss: seq<String>, g: seq<String>, gs': seq<seq<String>>, c: int)
    returns (gs: seq<seq<String>>)
    requires ss != [] && ss[0] != []
    requires forall i :: 0 <= i < |g| ==> g[i] != []
    requires g == [] || Fits(g, c)
    requires |JoinSpace(g)| + |ss[0]| + 1 > c
    requires PackFrom(ss[1..], JoinSpace([ss[0]]), c) == JoinEach(gs')
    requires GreedyPartition([ss[0]] + ss[1..], gs', c)
    requires gs' != [] && 1 <= |gs'[0]| && gs'[0][..1] == [ss[0]]
    ensures PackFrom(ss, JoinSpace(g), c) == JoinEach(gs)
    ensures GreedyPartition(g + ss, gs, c)
    ensures g != [] ==> gs != [] && |g| <= |gs[0]| && gs[0][..|g|] == g
  {
    JoinSpaceEmpty(g);
    assert [ss[0]] + ss[1..] == ss;
    assert gs'[0][0] == ss[0] by {
      assert gs'[0][..1] == [ss[0]];
    }
    if g == [] {
      gs := gs';
      assert g + ss == ss;
    } else {
      gs := [g] + gs';
      ConsGroup(g, ss, gs', c);
      assert gs[0][..|g|] == g;
    }
  }

  /** Putting a closed group in front of a greedy grouping gives a greedy
      grouping. */
  lemma ConsGroup(g: seq<String>, rest: seq<String>, gs: seq<seq<String>>, c: int)
    requires g != [] && Fits(g, c)
    requires GreedyPartition(rest, gs, c)
    requires gs != [] && gs[0] != [] && Closed(g, gs[0], c)
    ensures GreedyPartition(g + rest, [g] + gs, c)
    ensures JoinEach([g] + gs) == [JoinSpace(g)] + JoinEach(gs)
  {
    var all := [g] + gs;
    FlattenCons(g, gs);
    assert all[1..] == gs;
    forall i | 0 <= i < |all| ensures all[i] != [] && Fits(all[i], c) {
      if i > 0 {
        assert all[i] == gs[i - 1];
      }
    }
    forall i | 1 <= i < |all| ensures all[i] != [] && Closed(all[i - 1], all[i], c) {
      if i > 1 {
        assert all[i] == gs[i - 1] && all[i - 1] == gs[i - 2];
      }
    }
  }

  /** The packing loop produces the greedy grouping of its sentences. */
  lemma PackIsGreedy(ss: seq<String>, c: int) returns (gs: seq<seq<String>>)
    requires forall i :: 0 <= i < |ss| ==> ss[i] != []
    ensures GreedyPartition(ss, gs, c)
    ensures PackFrom(ss, [], c) == JoinEach(gs)
  {
    gs := PackFromGreedy(ss, [], c);
    assert [] + ss == ss;
  }

  /** Joining every group and then joining the chunks with spaces is the same
      as joining all sentences with spaces. */
  lemma {:induction false} JoinEachJoin(gs: seq<seq<String>>)
    requires forall i :: 0 <= i < |gs| ==> gs[i] != []
    ensures JoinSpace(JoinEach(gs)) == JoinSpace(Flatten(gs))
    decreases |gs|
  {
    if |gs| == 1 {
      FlattenCons(gs[0], []);
      assert gs == [gs[0]] + [];
      assert gs[0] + [] == gs[0];
    } else if |gs| > 1 {
      var rest := gs[1..];
      JoinEachJoin(rest);
      assert gs == [gs[0]] + rest;
      FlattenCons(gs[0], rest);
      var flat := Flatten(gs);
      assert Flatten(rest) != [] by {
        FlattenCons(rest[0], rest[1..]);
        assert rest == [rest[0]] + rest[1..];
      }
      JoinSpaceSplit(flat, |gs[0]|);
      assert flat[..|gs[0]|] == gs[0];
      assert flat[|gs[0]|..] == Flatten(rest);
      assert JoinEach(gs)[1..] == JoinEach(rest);
    }
  }

  /** Each sentence of a grouping lies in the list it was taken from. */
  lemma {:induction false} FlattenMember(gs: seq<seq<String>>, i: nat)
    requires i < |gs| && gs[i] != []
    ensures gs[i][0] in Flatten(gs)
    decreases i
  {
    FlattenCons(gs[0], gs[1..]);
    assert gs == [gs[0]] + gs[1..];
    if i > 0 {
      FlattenMember(gs[1..], i - 1);
    }
  }

  /** The chunk-level promises of the packing loop for well-formed sentences:
      no sentence is lost, duplicated or reordered, and a chunk over the bound
      is a single sentence. */
  lemma PackFacts(ss: seq<String>, c: int)
    requires forall i :: 0 <= i < |ss| ==> ss[i] != []
    ensures PackFrom(ss, [], c) == [] <==> ss == []
    ensures JoinSpace(PackFrom(ss, [], c)) == JoinSpace(ss)
    ensures forall i :: 0 <= i < |PackFrom(ss, [], c)| && |PackFrom(ss, [], c)[i]| > c
              ==> PackFrom(ss, [], c)[i] in ss
  {
    var gs := PackIsGreedy(ss, c);
    var r := PackFrom(ss, [], c);
    JoinEachJoin(gs);
    if ss != [] {
      assert gs != [];
    }
    forall i | 0 <= i < |r| && |r[i]| > c ensures r[i] in ss {
      assert |gs[i]| == 1;
      FlattenMember(gs, i);
    }
  }

  /** The greedy grouping is unique, so `GreedyPartition` pins down the
      chunks completely. */
  lemma {:induction false} GreedyUnique(ss: seq<String>, gs1: seq<seq<String>>, gs2: seq<seq<String>>, c: int)
    requires GreedyPartition(ss, gs1, c)
    requires GreedyPartition(ss, gs2, c)
    ensures gs1 == gs2
    decreases |gs1|
  {
    FlattenEmpty(gs1);
    FlattenEmpty(gs2);
    if ss != [] {
      var a, b := gs1[0], gs2[0];
      FlattenCons(a, gs1[1..]);
      FlattenCons(b, gs2[1..]);
      assert gs1 == [a] + gs1[1..];
      assert gs2 == [b] + gs2[1..];
      FirstGroupMaximal(ss, gs1, gs2, c);
      FirstGroupMaximal(ss, gs2, gs1, c);
      assert a == ss[..|a|] == b;
      TailGreedy(ss, gs1, c);
      TailGreedy(ss, gs2, c);
      GreedyUnique(ss[|a|..], gs1[1..], gs2[1..], c);
    }
  }

  /** A grouping into non-empty groups is empty exactly when it groups nothing. */
  lemma FlattenEmpty(gs: seq<seq<String>>)
    requires forall i :: 0 <= i < |gs| ==> gs[i] != []
    ensures Flatten(gs) == [] <==> gs == []
  {
    if gs != [] {
      FlattenCons(gs[0], gs[1..]);
      assert gs == [gs[0]] + gs[1..];
    }
  }

  /** Dropping the first group of a greedy grouping leaves a greedy grouping
      of the remaining sentences. */
  lemma TailGreedy(ss: seq<String>, gs: seq<seq<String>>, c: int)
    requires GreedyPartition(ss, gs, c) && gs != []
    ensures GreedyPartition(ss[|gs[0]|..], gs[1..], c)
  {
    FlattenCons(gs[0], gs[1..]);
    assert gs == [gs[0]] + gs[1..];
    var tail := gs[1..];
    forall i | 0 <= i < |tail| ensures tail[i] != [] && Fits(tail[i], c) {
      assert tail[i] == gs[i + 1];
    }
    forall i | 1 <= i < |tail| ensures tail[i] != [] && Closed(tail[i - 1], tail[i], c) {
      assert tail[i] == gs[i + 1] && tail[i - 1] == gs[i];
    }
  }

  /** A prefix of a list of strings has a space-join no longer than the list's. */
  lemma JoinPrefixLength(b: seq<String>, k: nat)
    requires 1 <= k <= |b|
    ensures |JoinSpace(b[..k])| <= |JoinSpace(b)|
  {
    if k < |b| {
      JoinSpaceSplit(b, k);
    } else {
      assert b[..k] == b;
    }
  }

  /** A greedy grouping's first group is never shorter than another greedy
      grouping's: had it stopped earlier, the sentence after it would have
      fitted, as the longer group shows. */
  lemma FirstGroupMaximal(ss: seq<String>, gs1: seq<seq<String>>, gs2: seq<seq<String>>, c: int)
    requires GreedyPartition(ss, gs1, c)
    requires GreedyPartition(ss, gs2, c)
    requires gs1 != [] && gs2 != []
    ensures |gs1[0]| >= |gs2[0]|
  {
    var a, b := gs1[0], gs2[0];
    if |a| < |b| {
      FlattenCons(a, gs1[1..]);
      FlattenCons(b, gs2[1..]);
      assert gs1 == [a] + gs1[1..];
      assert gs2 == [b] + gs2[1..];
      assert ss[..|a|] == a && ss[..|b|] == b;
      assert b[..|a|] == a;
      // `gs1` has a second group, starting with the sentence after `a`
      assert gs1[1..] != [];
      var next := gs1[1];
      FlattenCons(next, gs1[2..]);
      assert gs1[1..] == [next] + gs1[2..];
      assert next[0] == ss[|a|] == b[|a|];
      assert Closed(a, next, c);
      // `b` holds `a` and that sentence, and fits, yet `a` was closed
      var k := |a| + 1;
      assert b[..k] == a + [b[|a|]];
      JoinPrefixLength(b, k);
      JoinSpaceSnoc(a, b[|a|]);
    }
  }
}
