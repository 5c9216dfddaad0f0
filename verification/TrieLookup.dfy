/** Looking n-grams up in a finished trie, word by word from the newest. */
module TrieLookup {
  import opened NGrams
  import opened HashedBuild
  import opened TrieMerge
  import opened TrieLayout
  import opened TrieSearch

  /** The records of the next order that extend an n-gram. */
  datatype NodeRange = NodeRange(begin: nat, end: nat)

  /** `levels` is the trie written for the calls `out`. */
  ghost predicate TrieOk(src: Sources, out: seq<Emission>, levels: seq<Level>) {
    && src.Valid() && Finished(src.file, out) && |levels| == src.file.order + 1
    && forall n :: 1 <= n <= src.file.order ==> LevelDone(src, out, n, levels[n])
  }

  /** g lies at place i of its order, and its children in `node`. */
  ghost predicate At(src: Sources, out: seq<Emission>, g: Gram, i: nat, node: NodeRange) {
    && InClosure(src.file, g) && |g| < src.file.order
    && i < |Row(out, |g|)| && i < |Nexts(out, |g|)| && Row(out, |g|)[i].gram == g
    && node == NodeRange(Begin(out, |g|, i), End(out, |g|, i))
  }

  /** The weights stored for g. */
  ghost predicate HasWeights(src: Sources, out: seq<Emission>, g: Gram, w: ProbBackoff) {
    exists e :: e in out && e.gram == g && |g| < |src.contexts| && src.Stored(e, src.contexts[|g|], w)
  }

  ghost predicate HasChildren(a: Lm, g: Gram) {
    exists w: Word :: InClosure(a, g + [w])
  }

  lemma {:induction false} EmittedInRow(out: seq<Emission>, g: Gram) returns (i: nat)
    requires Emitted(out, g)
    ensures i < |Row(out, |g|)| && Row(out, |g|)[i].gram == g
  {
    var rest := out[..|out| - 1];
    if out[|out| - 1].gram == g {
      i := |Row(rest, |g|)|;
    } else {
      var k :| 0 <= k < |out| && out[k].gram == g;
      assert rest[k] == out[k];
      i := EmittedInRow(rest, g);
    }
  }

  lemma RowIsEmitted(out: seq<Emission>, n: nat, i: nat)
    requires i < |Row(out, n)|
    ensures Emitted(out, Row(out, n)[i].gram) && |Row(out, n)[i].gram| == n
  {
    RowFacts(out, n);
    var k :| 0 <= k < |out| && out[k] == Row(out, n)[i];
  }

  lemma RangeInRow(out: seq<Emission>, n: nat, i: nat)
    requires i < |Nexts(out, n)|
    ensures Begin(out, n, i) <= |Row(out, n + 1)| && End(out, n, i) <= |Row(out, n + 1)|
  {
    RowFacts(out, n);
  }

  /** A record in the range of g is the n-gram of g and its word. */
  lemma InRange(src: Sources, out: seq<Emission>, levels: seq<Level>, g: Gram, i: nat, node: NodeRange, j: nat)
    requires TrieOk(src, out, levels) && At(src, out, g, i, node) && g != [] && node.begin <= j < node.end
    ensures j < |Row(out, |g| + 1)| && j < |levels[|g| + 1].words| && Row(out, |g| + 1)[j].gram == g + [levels[|g| + 1].words[j]]
    ensures InClosure(src.file, g + [levels[|g| + 1].words[j]])
  {
    hide Row, Nexts, Finished, InClosure, Emitted, PreOrder, ValidArpa, Sorted, InOrder, LevelDone;
    var n := |g|;
    RangeInRow(out, n, i);
    FinishedIsPreOrder(src.file, out);
    ChildrenAreRange(out, n, i, j);
    RowIsEmitted(out, n + 1, j);
    WordAt(src, out, levels, n + 1, j);
    var h := Row(out, n + 1)[j].gram;
    assert h == h[..n] + [h[n]];
    EmittedIffClosure(src.file, out, h);
  }

  /** The word written for the j-th n-gram of an order is its oldest. */
  lemma WordAt(src: Sources, out: seq<Emission>, levels: seq<Level>, n: nat, j: nat)
    requires TrieOk(src, out, levels) && 1 <= n <= src.file.order && j < |Row(out, n)|
    ensures |levels[n].words| == |Row(out, n)| && |Row(out, n)[j].gram| == n && levels[n].words[j] == Row(out, n)[j].gram[n - 1]
  {
    hide Row, Finished, ValidArpa, Sorted, InOrder;
    assert LevelDone(src, out, n, levels[n]);
    RowFacts(out, n);
  }

  /** Every extension of g by one word is in its range. */
  lemma ChildInRange(src: Sources, out: seq<Emission>, levels: seq<Level>, g: Gram, i: nat, node: NodeRange, w: Word) returns (j: nat)
    requires TrieOk(src, out, levels) && At(src, out, g, i, node) && g != [] && InClosure(src.file, g + [w])
    ensures node.begin <= j < node.end && j < |levels[|g| + 1].words| && levels[|g| + 1].words[j] == w
  {
    hide Row, Nexts, Finished, InClosure, Emitted, PreOrder, ValidArpa, Sorted, InOrder, LevelDone;
    var n := |g|;
    EmittedIffClosure(src.file, out, g + [w]);
    j := EmittedInRow(out, g + [w]);
    FinishedIsPreOrder(src.file, out);
    assert (g + [w])[..n] == g;
    ChildrenAreRange(out, n, i, j);
    WordAt(src, out, levels, n + 1, j);
  }

  /** The words of one range ascend. */
  lemma RangeAscends(src: Sources, out: seq<Emission>, levels: seq<Level>, g: Gram, i: nat, node: NodeRange, j: nat, k: nat)
    requires TrieOk(src, out, levels) && At(src, out, g, i, node) && g != [] && node.begin <= j < k < node.end
    ensures k < |levels[|g| + 1].words| && levels[|g| + 1].words[j] < levels[|g| + 1].words[k]
  {
    InRange(src, out, levels, g, i, node, j);
    InRange(src, out, levels, g, i, node, k);
    FinishedAscends(src.file, out);
    RowAscends(out, |g| + 1);
    LessSameContext(g, levels[|g| + 1].words[j], levels[|g| + 1].words[k]);
  }

  lemma RangeEmptyIff(src: Sources, out: seq<Emission>, levels: seq<Level>, g: Gram, i: nat, node: NodeRange)
    requires TrieOk(src, out, levels) && At(src, out, g, i, node) && g != []
    ensures node.begin < node.end <==> HasChildren(src.file, g)
    ensures node.begin <= node.end <= |levels[|g| + 1].words|
  {
    RangeOrdered(out, |g|, i);
    assert LevelDone(src, out, |g| + 1, levels[|g| + 1]);
    RangeInRow(out, |g|, i);
    if node.begin < node.end {
      InRange(src, out, levels, g, i, node, node.begin);
    }
    if HasChildren(src.file, g) {
      var w: Word :| InClosure(src.file, g + [w]);
      var j := ChildInRange(src, out, levels, g, i, node, w);
    }
  }

  lemma {:induction false} RangeOrdered(out: seq<Emission>, n: nat, i: nat)
    requires i < |Nexts(out, n)|
    ensures Begin(out, n, i) <= End(out, n, i)
  {
    var rest := out[..|out| - 1];
    RowFacts(out, n);
    RowFacts(rest, n);
    if i < |Nexts(rest, n)| {
      RangeOrdered(rest, n, i);
    }
  }

  /** The unigrams lie in the places of their words. */
  lemma UnigramPlace(src: Sources, out: seq<Emission>, w: Word)
    requires src.Valid() && Finished(src.file, out) && w <= src.file.bound
    ensures w < |Row(out, 1)| && Row(out, 1)[w].gram == [w]
  {
    hide Row, Finished, Ascending, Emitted, ValidArpa, InOrder, Sorted;
    FinishedAscends(src.file, out);
    RowAscends(out, 1);
    RowFacts(out, 1);
    forall v: Word | v <= w
      ensures Emitted(Row(out, 1), [v])
    {
      WordInRow(src.file, out, v);
    }
    PlacesOfWords(Row(out, 1), w);
  }

  lemma WordInRow(a: Lm, out: seq<Emission>, v: Word)
    requires ValidArpa(a) && Finished(a, out) && v <= a.bound
    ensures Emitted(Row(out, 1), [v])
  {
    hide Row, Finished, ValidArpa;
    if v < a.bound {
      WordsIn(a, v);
      assert [v] <= [v];
    }
    EmittedIffClosure(a, out, [v]);
    var i := EmittedInRow(out, [v]);
  }

  lemma PlacesOfWords(row: seq<Emission>, w: Word)
    requires Ascending(row) && (forall i :: 0 <= i < |row| ==> |row[i].gram| == 1) && forall v: Word :: v <= w ==> Emitted(row, [v])
    ensures w < |row| && row[w].gram == [w]
  {
    hide Less;
    var grams := seq(|row|, i requires 0 <= i < |row| => row[i].gram);
    forall v: Word | v <= w
      ensures [v] in grams
    {
      assert Emitted(row, [v]);
      var k :| 0 <= k < |row| && row[k].gram == [v];
      assert grams[k] == [v];
    }
    WordPlace(grams, w);
  }

  /** The weights at place j of its order are those of the n-gram there. */
  lemma WeightsAt(src: Sources, out: seq<Emission>, levels: seq<Level>, n: nat, j: nat)
    requires TrieOk(src, out, levels) && 1 <= n <= src.file.order && j < |Row(out, n)|
    ensures j < |levels[n].weights| && HasWeights(src, out, Row(out, n)[j].gram, levels[n].weights[j])
  {
    assert LevelDone(src, out, n, levels[n]);
    RowFacts(out, n);
    assert src.Stored(Row(out, n)[j], src.contexts[n], levels[n].weights[j]);
  }

  lemma PointersThere(src: Sources, out: seq<Emission>, levels: seq<Level>, g: Gram, j: nat)
    requires TrieOk(src, out, levels) && 1 <= |g| < src.file.order && InClosure(src.file, g)
    requires j < |Row(out, |g|)| && Row(out, |g|)[j].gram == g
    ensures j + 1 < |levels[|g|].nexts|
    ensures At(src, out, g, j, NodeRange(levels[|g|].nexts[j], levels[|g|].nexts[j + 1]))
  {
    assert LevelDone(src, out, |g|, levels[|g|]);
    var x :| src.file.Has(x) && g <= x;
    assert LineOk(src.file, x) && g[0] == x[0] < src.file.bound;
    assert PointersOk(out, |g|, levels[|g|].nexts, j);
  }

  class Trie {
    const order: nat
    var levels: seq<Level>

    constructor (order: nat, levels: seq<Level>)
      ensures this.order == order && this.levels == levels
    {
      this.order, this.levels := order, levels;
    }

    /** The word among the records of a range, by bisection. */
    method FindIn(n: nat, node: NodeRange, word: Word) returns (found: bool, at: nat)
      requires n < |levels| && node.begin <= node.end <= |levels[n].words|
      requires AscendingRange(levels[n].words, node)
      ensures found ==> node.begin <= at < node.end && levels[n].words[at] == word
      ensures !found ==> forall j :: node.begin <= j < node.end ==> levels[n].words[j] != word
    {
      var lo, hi := node.begin, node.end;
      at := 0;
      while lo < hi
        invariant node.begin <= lo <= hi <= node.end
        invariant forall j :: node.begin <= j < lo ==> levels[n].words[j] < word
        invariant forall j :: hi <= j < node.end ==> word < levels[n].words[j]
      {
        var mid := (lo + hi) / 2;
        if levels[n].words[mid] == word {
          return true, mid;
        } else if levels[n].words[mid] < word {
          lo := mid + 1;
        } else {
          hi := mid;
        }
      }
      found := false;
    }

    method LookupUnigram(word: Word, ghost src: Sources, ghost out: seq<Emission>)
      returns (weights: ProbBackoff, node: NodeRange, independentLeft: bool, extendLeft: nat)
      requires TrieOk(src, out, levels) && word < src.file.bound
      ensures At(src, out, [word], extendLeft, node) && HasWeights(src, out, [word], weights)
      ensures independentLeft <==> !HasChildren(src.file, [word])
    {
      UnigramPlace(src, out, word);
      WordsIn(src.file, word);
      assert [word] <= [word];
      PointersThere(src, out, levels, [word], word);
      WeightsAt(src, out, levels, 1, word);
      weights := levels[1].weights[word];
      node := NodeRange(levels[1].nexts[word], levels[1].nexts[word + 1]);
      independentLeft := node.begin == node.end;
      extendLeft := word;
      RangeEmptyIff(src, out, levels, [word], word, node);
    }

    /** The n-gram g and one older word, among the children of g. */
    method LookupMiddle(word: Word, node: NodeRange, ghost g: Gram, ghost i: nat, n: nat, ghost src: Sources, ghost out: seq<Emission>)
      returns (found: bool, weights: ProbBackoff, next: NodeRange, independentLeft: bool, extendLeft: nat)
      requires TrieOk(src, out, levels) && At(src, out, g, i, node) && 1 <= |g| == n - 1 && n < src.file.order
      ensures found <==> InClosure(src.file, g + [word])
      ensures found ==> At(src, out, g + [word], extendLeft, next) && HasWeights(src, out, g + [word], weights)
      ensures independentLeft <==> !(found && HasChildren(src.file, g + [word]))
    {
      RangeUsable(src, out, levels, g, i, node);
      found, extendLeft := FindIn(n, node, word);
      weights, next, independentLeft := ProbBackoff(0.0, NoExtension), node, true;
      if found {
        InRange(src, out, levels, g, i, node, extendLeft);
        PointersThere(src, out, levels, g + [word], extendLeft);
        WeightsAt(src, out, levels, n, extendLeft);
        weights := levels[n].weights[extendLeft];
        next := NodeRange(levels[n].nexts[extendLeft], levels[n].nexts[extendLeft + 1]);
        independentLeft := next.begin == next.end;
        RangeEmptyIff(src, out, levels, g + [word], extendLeft, next);
      } else if InClosure(src.file, g + [word]) {
        var j := ChildInRange(src, out, levels, g, i, node, word);
        assert false;
      }
    }

    method LookupLongest(word: Word, node: NodeRange, ghost g: Gram, ghost i: nat, ghost src: Sources, ghost out: seq<Emission>)
      returns (found: bool, weights: ProbBackoff)
      requires TrieOk(src, out, levels) && At(src, out, g, i, node) && |g| + 1 == order == src.file.order
      ensures found <==> InClosure(src.file, g + [word])
      ensures found ==> HasWeights(src, out, g + [word], weights)
    {
      RangeUsable(src, out, levels, g, i, node);
      var at;
      found, at := FindIn(order, node, word);
      weights := ProbBackoff(0.0, NoExtension);
      if found {
        InRange(src, out, levels, g, i, node, at);
        WeightsAt(src, out, levels, order, at);
        weights := levels[order].weights[at];
      } else if InClosure(src.file, g + [word]) {
        var j := ChildInRange(src, out, levels, g, i, node, word);
        assert false;
      }
    }

    /** An entry by its place, as kept in a left state. */
    method Unpack(extendPointer: nat, extendLength: nat, ghost g: Gram, ghost at: NodeRange, ghost src: Sources, ghost out: seq<Emission>)
      returns (weights: ProbBackoff, node: NodeRange)
      requires TrieOk(src, out, levels) && At(src, out, g, extendPointer, at) && 1 <= |g| == extendLength
      ensures node == at && HasWeights(src, out, g, weights)
    {
      PointersThere(src, out, levels, g, extendPointer);
      WeightsAt(src, out, levels, |g|, extendPointer);
      weights := levels[extendLength].weights[extendPointer];
      node := NodeRange(levels[extendLength].nexts[extendPointer], levels[extendLength].nexts[extendPointer + 1]);
    }

    /** The range of a whole n-gram, if it is stored. */
    method FastMakeNode(g: Gram, ghost src: Sources, ghost out: seq<Emission>) returns (ok: bool, node: NodeRange, ghost place: nat)
      requires TrieOk(src, out, levels) && 1 <= |g| < src.file.order && g[0] < src.file.bound
      ensures ok <==> InClosure(src.file, g)
      ensures ok ==> At(src, out, g, place, node)
    {
      var weights, independentLeft;
      weights, node, independentLeft, place := LookupUnigram(g[0], src, out);
      assert g[..1] == [g[0]];
      for i := 1 to |g|
        invariant At(src, out, g[..i], place, node)
        invariant independentLeft <==> !HasChildren(src.file, g[..i])
      {
        assert g[..i] + [g[i]] == g[..i + 1];
        PrefixInClosure(src.file, g, i + 1);
        if independentLeft {
          return false, node, place;
        }
        var found;
        found, weights, node, independentLeft, place := LookupMiddle(g[i], node, g[..i], place, i + 1, src, out);
        if !found {
          return false, node, place;
        }
      }
      assert g[..|g|] == g;
      ok := true;
    }
  }

  lemma PrefixInClosure(a: Lm, g: Gram, k: nat)
    requires 1 <= k <= |g|
    ensures InClosure(a, g) ==> InClosure(a, g[..k])
  {
    if InClosure(a, g) {
      var x :| a.Has(x) && g <= x;
      assert g[..k] <= x;
    }
  }

  ghost predicate AscendingRange(words: seq<Word>, node: NodeRange) {
    node.end <= |words| && forall j, k :: node.begin <= j < k < node.end ==> words[j] < words[k]
  }

  /** What a search in the range of g needs. */
  lemma RangeUsable(src: Sources, out: seq<Emission>, levels: seq<Level>, g: Gram, i: nat, node: NodeRange)
    requires TrieOk(src, out, levels) && At(src, out, g, i, node) && g != []
    ensures |g| + 1 < |levels| && node.begin <= node.end <= |levels[|g| + 1].words|
    ensures AscendingRange(levels[|g| + 1].words, node)
  {
    RangeEmptyIff(src, out, levels, g, i, node);
    var words := levels[|g| + 1].words;
    forall j, k | node.begin <= j < k < node.end
      ensures words[j] < words[k]
    {
      RangeAscends(src, out, levels, g, i, node, j, k);
    }
  }

  // ----- the same model as the probing one -----

  /** The call for an n-gram of the closure: real if and only if the file has it. */
  lemma CallFor(src: Sources, out: seq<Emission>, e: Emission)
    requires src.Valid() && Finished(src.file, out) && e in out && InClosure(src.file, e.gram)
    ensures e.Real? <==> src.file.Has(e.gram)
    ensures 1 <= |e.gram| <= src.file.order && src.file.Has([e.gram[0]])
  {
    var x :| src.file.Has(x) && e.gram <= x;
    assert LineOk(src.file, x) && e.gram[0] == x[0];
    WordsIn(src.file, x[0]);
    FinishedEnds(src.file, out);
    var k :| 0 <= k < |out| && out[k] == e;
    assert k < |out| - 1 ==> EmissionOk(src.file, out[..|out| - 1][k]);
  }

  lemma RealWeights(a: Lm, g: Gram)
    requires ValidArpa(a) && a.Has(g)
    ensures g != [] && a.Has([g[0]]) && a.Textbook(g[0], g[1..]) == a.table[g].prob
    ensures |g| == a.order ==> a.BackoffOf(g) == 0.0
    ensures |g| != a.order ==> a.BackoffOf(g) == a.table[g].backoff.Value()
  {
    assert LineOk(a, g);
    WordsIn(a, g[0]);
    assert [g[0]] + g[1..] == g;
    assert g[1..] == [] ==> g == [g[0]];
  }

  /** What is stored in the trie is what the file says of it: the probability by backing off, and the file's back-off. */
  lemma WeightsAreTextbook(src: Sources, out: seq<Emission>, g: Gram, w: ProbBackoff)
    requires src.Valid() && Finished(src.file, out) && InClosure(src.file, g) && HasWeights(src, out, g, w)
    ensures src.file.Has([g[0]]) && w.prob == src.file.Textbook(g[0], g[1..]) && w.backoff.Value() == src.file.BackoffOf(g)
  {
    var e :| e in out && e.gram == g && |g| < |src.contexts| && src.Stored(e, src.contexts[|g|], w);
    CallFor(src, out, e);
    if e.Real? {
      RealWeights(src.file, g);
    }
  }

  /** The trie and the probing table hold the same n-grams. */
  lemma SameNGrams(t: Table, a: Lm, maxRest: bool, g: Gram)
    requires Built(t, a, a.table.Keys, maxRest) && g != []
    ensures g in t <==> InClosure(a, g)
  {
    assert EntryOk(t, a, a.table.Keys, g);
    if g in t {
      var x :| x in a.table.Keys && g <= x;
      assert a.Has(x);
    }
    if InClosure(a, g) {
      var x :| a.Has(x) && g <= x;
      PrefixesStored(t, a, maxRest, x, |g|);
      assert g == x[..|g|];
    }
  }

  lemma {:induction false} PrefixesStored(t: Table, a: Lm, maxRest: bool, x: Gram, k: nat)
    requires Built(t, a, a.table.Keys, maxRest) && x in t && 1 <= k <= |x|
    ensures x[..k] in t
    decreases |x| - k
  {
    if k == |x| {
      assert x[..k] == x;
    } else {
      PrefixesStored(t, a, maxRest, x, k + 1);
      assert EntryOk(t, a, a.table.Keys, x[..k + 1]);
      assert x[..k + 1][..k] == x[..k];
    }
  }
}
