/** Writing the trie and looking n-grams up in it. */
module TrieSearch {
  import opened NGrams
  import opened HashedBuild
  import opened TrieMerge
  import opened TrieLayout

  datatype ProbBackoff = ProbBackoff(prob: real, backoff: Backoff)

  /** The records of one order: word, weights, and where the children begin in the next order. */
  datatype Level = Level(words: seq<Word>, weights: seq<ProbBackoff>, nexts: seq<nat>)

  /** How far the lists that the writer reads along with one order have been read. */
  datatype Cursor = Cursor(values: nat, contexts: nat, kept: nat)

  /** Sorted, perhaps with repetitions. */
  ghost predicate InOrder(s: seq<Gram>) {
    forall i, j :: 0 <= i < j < |s| ==> NotAfter(s[i], s[j])
  }

  /** The blanks of order n. */
  function Blanks(out: seq<Emission>, n: nat): seq<Gram> {
    if out == [] then []
    else
      var e := out[|out| - 1];
      Blanks(out[..|out| - 1], n) + if e.Blank? && |e.gram| == n then [e.gram] else []
  }

  /** What the second pass reads, by order: the file, the sorted contexts of its n-grams, the probabilities of the
      blanks, and the blanks known to extend to the right. */
  datatype Sources = Sources(file: Lm, contexts: seq<seq<Gram>>, values: seq<seq<real>>, kept: seq<seq<Gram>>) {

    ghost predicate Valid() {
      && ValidArpa(file)
      && |contexts| == |values| == |kept| == file.order + 1 && contexts[file.order] == []
      && (forall n :: 0 <= n < |contexts| ==> Sorted(contexts[n]) && forall j :: 0 <= j < |contexts[n]| ==> |contexts[n][j]| == n)
      && (forall n :: 0 <= n < |kept| ==> InOrder(kept[n]))
    }

    /** The probabilities of the blanks are at hand, in the order in which the blanks are emitted. */
    ghost predicate ValuesFit(out: seq<Emission>, n: nat) {
      n < |values| && |values[n]| == |Blanks(out, n)|
      && forall k :: 0 <= k < |values[n]| ==> BlankValue(Blanks(out, n)[k], values[n][k])
    }

    /** A blank has the probability that backing off gives it in the file. */
    ghost predicate BlankValue(g: Gram, prob: real) {
      g != [] && file.Has([g[0]]) && prob == file.Textbook(g[0], g[1..])
    }

    /** The weights of the n-gram of a call, when of the contexts of its order those in `met` have been marked. */
    ghost predicate Stored(e: Emission, met: seq<Gram>, w: ProbBackoff) {
      var g := e.gram;
      if e.Blank? then
        BlankValue(g, w.prob) && |g| < |kept| && w.backoff == if g in kept[|g|] then Charged(0.0) else NoExtension
      else
        file.Has(g) ==>
          && w.prob == file.table[g].prob
          && w.backoff == if |g| == file.order then NoExtension
                          else if g in met then file.table[g].backoff.SetExtension() else file.table[g].backoff
    }

    // ----- one order while it is being written -----

    ghost predicate LevelOk(done: seq<Emission>, n: nat, level: Level, c: Cursor)
      requires n < |contexts|
    {
      var row := Row(done, n);
      && c.contexts <= |contexts[n]| && c.values == |Blanks(done, n)|
      && WordsOk(row, level.words) && WeightsOk(row, contexts[n][..c.contexts], level.weights)
      && (n < file.order ==> level.nexts == Nexts(done, n))
    }

    ghost predicate WordsOk(row: seq<Emission>, words: seq<Word>) {
      |words| == |row| && forall i :: 0 <= i < |row| ==> row[i].gram != [] && words[i] == row[i].gram[|row[i].gram| - 1]
    }

    ghost predicate WeightsOk(row: seq<Emission>, met: seq<Gram>, weights: seq<ProbBackoff>) {
      |weights| == |row| && forall i :: 0 <= i < |row| ==> Stored(row[i], met, weights[i])
    }

    lemma WeightsAppend(row: seq<Emission>, met: seq<Gram>, weights: seq<ProbBackoff>, e: Emission, met': seq<Gram>, w: ProbBackoff)
      requires WeightsOk(row, met, weights) && Stored(e, met', w)
      requires met' == met || met' == met + [e.gram]
      requires forall x :: x in row ==> x.gram != e.gram
      ensures WeightsOk(row + [e], met', weights + [w])
    {
      forall i | 0 <= i < |row|
        ensures Stored(row[i], met', weights[i])
      {
        StillStored(row[i], met, met', weights[i], e.gram);
      }
      hide Stored;
    }

    lemma StillStored(x: Emission, met: seq<Gram>, met': seq<Gram>, w: ProbBackoff, g: Gram)
      requires met' == met || met' == met + [g]
      requires x.gram != g && Stored(x, met, w)
      ensures Stored(x, met', w)
    {
    }

    ghost predicate Behind(done: seq<Emission>, g: Gram) {
      exists k :: 0 <= k < |done| && Less(g, done[k].gram)
    }

    /** The contexts marked have been met, and of the blanks known to extend only those are behind that come before some
        blank met. */
    ghost predicate CursorOk(done: seq<Emission>, n: nat, c: Cursor)
      requires n < |contexts| && n < |kept|
    {
      && c.contexts <= |contexts[n]| && c.kept <= |kept[n]|
      && (forall j :: 0 <= j < c.contexts ==> Real(contexts[n][j]) in done && file.Has(contexts[n][j]))
      && (forall j :: 0 <= j < c.kept ==> Behind(done, kept[n][j]))
    }
  
    // ----- one call -----

    /** The next call, when `done` have been made. */
    ghost predicate Next(done: seq<Emission>, e: Emission) {
      Ascending(done + [e]) && e.gram != [] && |e.gram| <= file.order && (e.Blank? ==> |e.gram| < file.order)
    }

    lemma NotMetBefore(done: seq<Emission>, e: Emission, x: Emission)
      requires Next(done, e) && x in done
      ensures Less(x.gram, e.gram) && x.gram != e.gram
    {
      var k :| 0 <= k < |done| && done[k] == x;
      assert (done + [e])[k] == x && (done + [e])[|done|] == e;
      LessIrreflexive(e.gram);
    }

    lemma OtherOrders(done: seq<Emission>, e: Emission, m: nat, level: Level, c: Cursor)
      requires m != |e.gram| && m < |contexts| && LevelOk(done, m, level, c)
      ensures LevelOk(done + [e], m, level, c)
    {
      assert (done + [e])[..|done|] == done;
    }

    function Added(level: Level, e: Emission, w: ProbBackoff, begin: nat): Level
      requires e.gram != []
    {
      Level(level.words + [e.gram[|e.gram| - 1]], level.weights + [w],
            if |e.gram| < file.order then level.nexts + [begin] else level.nexts)
    }

    /** One more record, with the right weights. */
    lemma AddedOk(done: seq<Emission>, e: Emission, level: Level, c: Cursor, w: ProbBackoff, c': Cursor)
      requires Next(done, e) && |e.gram| < |contexts| && |e.gram| < |kept|
      requires LevelOk(done, |e.gram|, level, c) && CursorOk(done, |e.gram|, c)
      requires c'.contexts <= |contexts[|e.gram|]|
      requires c'.contexts == c.contexts || (c'.contexts == c.contexts + 1 && contexts[|e.gram|][c.contexts] == e.gram)
      requires c'.values == if e.Blank? then c.values + 1 else c.values
      requires Stored(e, contexts[|e.gram|][..c'.contexts], w)
      ensures LevelOk(done + [e], |e.gram|, Added(level, e, w, |Row(done, |e.gram| + 1)|), c')
    {
      var n := |e.gram|;
      assert e.gram != [];
      hide Row, Nexts, Blanks, Stored, WordsOk, WeightsOk, Less, Next;
      RowStep(done, e);
      RowFacts(done, n);
      forall x | x in Row(done, n)
        ensures x.gram != e.gram
      {
        NotMetBefore(done, e, x);
      }
      WordsAppend(Row(done, n), level.words, e);
      assert c'.contexts != c.contexts ==> contexts[n][..c'.contexts] == contexts[n][..c.contexts] + [e.gram];
      WeightsAppend(Row(done, n), contexts[n][..c.contexts], level.weights, e, contexts[n][..c'.contexts], w);
    }

    lemma RowStep(done: seq<Emission>, e: Emission)
      ensures Row(done + [e], |e.gram|) == Row(done, |e.gram|) + [e]
      ensures Nexts(done + [e], |e.gram|) == Nexts(done, |e.gram|) + [|Row(done, |e.gram| + 1)|]
      ensures Blanks(done + [e], |e.gram|) == Blanks(done, |e.gram|) + if e.Blank? then [e.gram] else []
    {
      assert (done + [e])[..|done|] == done;
    }

    lemma WordsAppend(row: seq<Emission>, words: seq<Word>, e: Emission)
      requires WordsOk(row, words) && e.gram != []
      ensures WordsOk(row + [e], words + [e.gram[|e.gram| - 1]])
    {
    }

    lemma {:induction false} BlanksPrefix(out: seq<Emission>, k: nat, n: nat)
      requires k <= |out|
      ensures |Blanks(out[..k], n)| <= |Blanks(out, n)|
      ensures forall i :: 0 <= i < |Blanks(out[..k], n)| ==> Blanks(out, n)[i] == Blanks(out[..k], n)[i]
    {
      if k < |out| {
        assert out[..|out| - 1][..k] == out[..k];
        BlanksPrefix(out[..|out| - 1], k, n);
      } else {
        assert out[..k] == out;
      }
    }

    /** The value read for a blank is the next one of its order. */
    lemma NextValue(out: seq<Emission>, k: nat)
      requires k < |out| && out[k].Blank? && ValuesFit(out, |out[k].gram|)
      ensures |Blanks(out[..k], |out[k].gram|)| < |values[|out[k].gram|]|
      ensures BlankValue(out[k].gram, values[|out[k].gram|][|Blanks(out[..k], |out[k].gram|)|])
    {
      var n := |out[k].gram|;
      assert out[..k + 1][..k] == out[..k];
      BlanksPrefix(out, k + 1, n);
      assert Blanks(out[..k + 1], n) == Blanks(out[..k], n) + [out[k].gram];
    }

    /** Reading on in the list of blanks that extend finds the blank if and only if it is there. */
    lemma KeptFound(done: seq<Emission>, e: Emission, c: Cursor, pos: nat)
      requires Valid() && Next(done, e) && |e.gram| < |kept| && CursorOk(done, |e.gram|, c)
      requires c.kept <= pos <= |kept[|e.gram|]|
      requires forall j :: c.kept <= j < pos ==> Less(kept[|e.gram|][j], e.gram)
      requires pos < |kept[|e.gram|]| ==> !Less(kept[|e.gram|][pos], e.gram)
      ensures e.gram in kept[|e.gram|] <==> pos < |kept[|e.gram|]| && kept[|e.gram|][pos] == e.gram
      ensures forall j :: 0 <= j < pos ==> Less(kept[|e.gram|][j], e.gram)
    {
      var s := kept[|e.gram|];
      forall j | 0 <= j < pos
        ensures Less(s[j], e.gram)
      {
        if j < c.kept {
          var k :| 0 <= k < |done| && Less(s[j], done[k].gram);
          NotMetBefore(done, e, done[k]);
          LessTransitive(s[j], done[k].gram, e.gram);
        }
      }
      LessIrreflexive(e.gram);
    }
  }

  /** Every context listed is an n-gram of the file. */
  ghost predicate ContextsReal(src: Sources) {
    forall n, j :: 1 <= n < src.file.order && n < |src.contexts| && 0 <= j < |src.contexts[n]| ==> src.file.Has(src.contexts[n][j])
  }

  /** The contexts still to come have not been met. */
  ghost predicate Unmet(done: seq<Emission>, s: seq<Gram>, pos: nat) {
    forall j :: pos <= j < |s| ==> Real(s[j]) !in done
  }

  lemma RealIsEmitted(a: Lm, out: seq<Emission>, g: Gram)
    requires ValidArpa(a) && Finished(a, out) && a.Has(g)
    ensures Real(g) in out
  {
    var body := out[..|out| - 1];
    assert VisitedOrWaiting(a, body, {}, g);
    var k :| 0 <= k < |body| && body[k].gram == g;
    assert EmissionOk(a, body[k]) && body[k] == out[k];
  }

  /** The next n-gram of the file is the next context, or none of those still to come. */
  lemma StillUnmet(a: Lm, out: seq<Emission>, k: nat, s: seq<Gram>, pos: nat)
    requires ValidArpa(a) && Finished(a, out) && k < |out| && Sorted(s) && (forall j :: 0 <= j < |s| ==> a.Has(s[j]))
    requires Unmet(out[..k], s, pos)
    ensures Unmet(out[..k + 1], s, if pos < |s| && out[k] == Real(s[pos]) then pos + 1 else pos)
  {
    FinishedAscends(a, out);
    var pos' := if pos < |s| && out[k] == Real(s[pos]) then pos + 1 else pos;
    assert out[..k + 1] == out[..k] + [out[k]];
    assert forall i :: 0 <= i < k ==> out[..k][i] == out[i];
    forall j | pos' <= j < |s|
      ensures Real(s[j]) != out[k]
    {
      if pos' == pos + 1 {
        LessIrreflexive(s[j]);
      } else if pos < j && Real(s[j]) == out[k] {
        RealIsEmitted(a, out, s[pos]);
        var i :| 0 <= i < |out| && out[i] == Real(s[pos]);
        LessAsymmetric(out, k, i);
        assert false;
      }
    }
  }

  ghost predicate PointersOk(out: seq<Emission>, n: nat, nexts: seq<nat>, i: nat) {
    i + 1 < |nexts| && i < |Nexts(out, n)| && nexts[i] == Begin(out, n, i) && nexts[i + 1] == End(out, n, i)
  }

  /** The finished records of one order: the right words and weights, and after every record's next pointer that of its
      successor. */
  ghost predicate LevelDone(src: Sources, out: seq<Emission>, n: nat, level: Level)
    requires n < |src.contexts|
  {
    var row := Row(out, n);
    && src.WordsOk(row, level.words) && src.WeightsOk(row, src.contexts[n], level.weights)
    && (n < src.file.order ==> forall i :: 0 <= i < |row| && row[i].gram != [src.file.bound] ==> PointersOk(out, n, level.nexts, i))
  }

  lemma {:induction false} RowEnd(out: seq<Emission>, n: nat)
    requires out != [] && |out[|out| - 1].gram| == n
    ensures Row(out, n) != [] && Row(out, n)[|Row(out, n)| - 1] == out[|out| - 1]
  {
  }

  lemma ClosePointers(src: Sources, out: seq<Emission>, n: nat, level: Level, c: Cursor, nexts: seq<nat>)
    requires n < |src.contexts| && 1 <= n && src.LevelOk(out, n, level, c) && c.contexts == |src.contexts[n]|
    requires out != [] && out[|out| - 1] == Real([src.file.bound])
    requires nexts == if 1 < n < src.file.order then level.nexts + [|Row(out, n + 1)|] else level.nexts
    ensures LevelDone(src, out, n, level.(nexts := nexts))
  {
    assert src.contexts[n][..c.contexts] == src.contexts[n];
    hide Row, Nexts, Blanks, Less, Sources.WordsOk, Sources.WeightsOk, PointersOk;
    RowFacts(out, n);
    if n < src.file.order {
      forall i | 0 <= i < |Row(out, n)| && Row(out, n)[i].gram != [src.file.bound]
        ensures PointersOk(out, n, nexts, i)
      {
        PointersAt(out, n, nexts, i);
      }
    }
  }

  lemma PointersAt(out: seq<Emission>, n: nat, nexts: seq<nat>, i: nat)
    requires 1 <= n && out != [] && i < |Row(out, n)| && (n == 1 ==> |LastGram(out)| == 1 && Row(out, n)[i].gram != LastGram(out))
    requires nexts == if 1 < n then Nexts(out, n) + [|Row(out, n + 1)|] else Nexts(out, n)
    ensures PointersOk(out, n, nexts, i)
  {
    RowFacts(out, n);
    if n == 1 {
      RowEnd(out, 1);
    }
    hide Row, Nexts;
  }

  ghost predicate AllOk(src: Sources, done: seq<Emission>, levels: seq<Level>, cursors: seq<Cursor>) {
    && |levels| == |cursors| == src.file.order + 1 && src.Valid()
    && forall n :: 1 <= n < |levels| ==> src.LevelOk(done, n, levels[n], cursors[n]) && src.CursorOk(done, n, cursors[n])
  }

  /** One record more on its own order leaves the other orders as they were. */
  lemma InsertOk(src: Sources, done: seq<Emission>, e: Emission, levels: seq<Level>, cursors: seq<Cursor>, w: ProbBackoff, c: Cursor, begin: nat)
    requires AllOk(src, done, levels, cursors) && src.Next(done, e) && 1 <= |e.gram| < |levels|
    requires c.contexts <= |src.contexts[|e.gram|]| && c.contexts == ContextsAfter(src, e, cursors[|e.gram|].contexts)
    requires c.values == if e.Blank? then cursors[|e.gram|].values + 1 else cursors[|e.gram|].values
    requires src.Stored(e, src.contexts[|e.gram|][..c.contexts], w) && src.CursorOk(done + [e], |e.gram|, c)
    requires |e.gram| < src.file.order ==> begin == |levels[|e.gram| + 1].words|
    ensures AllOk(src, done + [e], levels[|e.gram| := src.Added(levels[|e.gram|], e, w, begin)], cursors[|e.gram| := c])
  {
    hide Sources.LevelOk, Sources.CursorOk, Sources.Stored, Sources.Next, Sources.Valid, Sources.Added, ContextsAfter;
    var n := |e.gram|;
    AddedAtOrder(src, done, e, levels, cursors, w, c, begin);
    forall m | 1 <= m < |levels| && m != n
      ensures src.LevelOk(done + [e], m, levels[m], cursors[m]) && src.CursorOk(done + [e], m, cursors[m])
    {
      src.OtherOrders(done, e, m, levels[m], cursors[m]);
      CursorsKept(src, done, e, m, cursors[m]);
    }
  }

  lemma AddedAtOrder(src: Sources, done: seq<Emission>, e: Emission, levels: seq<Level>, cursors: seq<Cursor>, w: ProbBackoff, c: Cursor, begin: nat)
    requires AllOk(src, done, levels, cursors) && src.Next(done, e) && 1 <= |e.gram| < |levels|
    requires c.contexts <= |src.contexts[|e.gram|]| && c.contexts == ContextsAfter(src, e, cursors[|e.gram|].contexts)
    requires c.values == if e.Blank? then cursors[|e.gram|].values + 1 else cursors[|e.gram|].values
    requires src.Stored(e, src.contexts[|e.gram|][..c.contexts], w)
    requires |e.gram| < src.file.order ==> begin == |levels[|e.gram| + 1].words|
    ensures src.Valid() && |levels| <= |src.contexts| && |levels| <= |src.kept|
    ensures e.gram != [] && src.LevelOk(done + [e], |e.gram|, src.Added(levels[|e.gram|], e, w, begin), c)
  {
    var n := |e.gram|;
    src.AddedOk(done, e, levels[n], cursors[n], w, c);
    assert n < src.file.order ==> src.LevelOk(done, n + 1, levels[n + 1], cursors[n + 1]);
    assert src.Added(levels[n], e, w, begin) == src.Added(levels[n], e, w, |Row(done, n + 1)|);
  }

  class WriteEntries {
    const src: Sources
    var levels: seq<Level>
    var cursors: seq<Cursor>

    ghost predicate Valid(done: seq<Emission>)
      reads this
    {
      AllOk(src, done, levels, cursors)
    }

    /** The place of e.gram in the contexts, if it is the next one. */
    method MarkContext(ghost done: seq<Emission>, e: Emission, c: Cursor) returns (backoff: Backoff, contexts: nat)
      requires src.Valid() && src.Next(done, e) && src.CursorOk(done, |e.gram|, c)
      requires src.file.Has(e.gram) && e.Real? && |e.gram| < src.file.order
      ensures contexts <= |src.contexts[|e.gram|]|
      ensures contexts == if c.contexts < |src.contexts[|e.gram|]| && src.contexts[|e.gram|][c.contexts] == e.gram
                          then c.contexts + 1 else c.contexts
      ensures src.Stored(e, src.contexts[|e.gram|][..contexts], ProbBackoff(src.file.table[e.gram].prob, backoff))
    {
      var g := e.gram;
      var s := src.contexts[|g|];
      contexts := c.contexts;
      backoff := src.file.table[g].backoff;
      if contexts < |s| && s[contexts] == g {
        backoff := backoff.SetExtension();
        contexts := contexts + 1;
        assert s[..contexts][contexts - 1] == g;
      } else {
        forall j | 0 <= j < contexts
          ensures s[j] != g
        {
          src.NotMetBefore(done, e, Real(s[j]));
        }
      }
    }

    method Extends(ghost done: seq<Emission>, e: Emission, c: Cursor) returns (extends_: bool, kept: nat)
      requires src.Valid() && src.Next(done, e) && |e.gram| < |src.kept| && src.CursorOk(done, |e.gram|, c)
      ensures extends_ <==> e.gram in src.kept[|e.gram|]
      ensures kept <= |src.kept[|e.gram|]| && forall j :: 0 <= j < kept ==> Less(src.kept[|e.gram|][j], e.gram)
    {
      var s := src.kept[|e.gram|];
      kept := c.kept;
      while kept < |s| && Less(s[kept], e.gram)
        invariant c.kept <= kept <= |s| && forall j :: c.kept <= j < kept ==> Less(s[j], e.gram)
      {
        kept := kept + 1;
      }
      src.KeptFound(done, e, c, kept);
      extends_ := kept < |s| && s[kept] == e.gram;
    }
  
    constructor (src: Sources)
      requires src.Valid()
      ensures Valid([]) && this.src == src
      ensures forall n :: 0 <= n < |cursors| ==> cursors[n] == Cursor(0, 0, 0)
    {
      this.src := src;
      levels := seq(src.file.order + 1, _ => Level([], [], []));
      cursors := seq(src.file.order + 1, _ => Cursor(0, 0, 0));
    }

    /** The weights of the next record, and how far the lists have been read then. */
    method Weigh(ghost done: seq<Emission>, ghost out: seq<Emission>, e: Emission) returns (w: ProbBackoff, c: Cursor)
      requires Valid(done) && src.Next(done, e) && |done| < |out| && done == out[..|done|] && e == out[|done|]
      requires e.Blank? ==> src.ValuesFit(out, |e.gram|)
      requires e.Real? ==> src.file.Has(e.gram) || e.gram == [src.file.bound]
      ensures c.contexts <= |src.contexts[|e.gram|]|
      ensures c.contexts == ContextsAfter(src, e, cursors[|e.gram|].contexts)
      ensures c.values == if e.Blank? then cursors[|e.gram|].values + 1 else cursors[|e.gram|].values
      ensures src.Stored(e, src.contexts[|e.gram|][..c.contexts], w)
      ensures src.CursorOk(done + [e], |e.gram|, c)
    {
      var n := |e.gram|;
      c := cursors[n];
      if e.Blank? {
        src.NextValue(out, |done|);
        var extends_, kept := Extends(done, e, c);
        w := ProbBackoff(src.values[n][c.values], if extends_ then Charged(0.0) else NoExtension);
        c := c.(values := c.values + 1, kept := kept);
      } else if !src.file.Has(e.gram) {
        w := ProbBackoff(0.0, NoExtension);
      } else if n == src.file.order {
        w := ProbBackoff(src.file.table[e.gram].prob, NoExtension);
      } else {
        var backoff, contexts := MarkContext(done, e, c);
        w := ProbBackoff(src.file.table[e.gram].prob, backoff);
        c := c.(contexts := contexts);
      }
      CursorLater(src, done, e, cursors[n], c);
    }

    /** Write the next record. */
    method Insert(ghost done: seq<Emission>, ghost out: seq<Emission>, e: Emission)
      requires Valid(done) && src.Next(done, e) && |done| < |out| && done == out[..|done|] && e == out[|done|]
      requires e.Blank? ==> src.ValuesFit(out, |e.gram|)
      requires e.Real? ==> src.file.Has(e.gram) || e.gram == [src.file.bound]
      modifies this
      ensures Valid(done + [e])
      ensures forall n :: 1 <= n < |levels| && n != |e.gram| ==> cursors[n].contexts == old(cursors[n].contexts)
      ensures cursors[|e.gram|].contexts == ContextsAfter(src, e, old(cursors[|e.gram|].contexts))
    {
      var n := |e.gram|;
      var w, c := Weigh(done, out, e);
      hide AllOk, Sources.Stored, Sources.CursorOk, ContextsAfter, Sources.Added;
      var begin := if n < src.file.order then |levels[n + 1].words| else 0;
      InsertOk(src, done, e, levels, cursors, w, c, begin);
      levels := levels[n := src.Added(levels[n], e, w, begin)];
      cursors := cursors[n := c];
    }

    /** Writes every record and closes the last range of every order. Fails if and only if some context is not an n-gram
        of the file. */
    method Write(out: seq<Emission>) returns (ok: bool)
      requires Valid([]) && (forall n :: 0 <= n < |cursors| ==> cursors[n] == Cursor(0, 0, 0))
      requires Finished(src.file, out) && (forall n :: 1 <= n < src.file.order ==> src.ValuesFit(out, n))
      modifies this
      ensures ok <==> ContextsReal(src)
      ensures ok ==> |levels| == src.file.order + 1 && forall n :: 1 <= n <= src.file.order ==> LevelDone(src, out, n, levels[n])
    {
      hide Sources.LevelOk, Sources.CursorOk, ContextsReal, Unmet, Finished, Sources.ValuesFit;
      assert out[..0] == [];
      NoneMetYet(src);
      for k := 0 to |out|
        invariant Valid(out[..k])
        invariant forall n :: 1 <= n < |cursors| ==> UnmetIfReal(src, out[..k], n, cursors[n].contexts)
      {
        NextCall(src, out, k);
        ghost var was := cursors;
        Insert(out[..k], out, out[k]);
        assert out[..k + 1] == out[..k] + [out[k]];
        forall n | 1 <= n < |cursors|
          ensures UnmetIfReal(src, out[..k + 1], n, cursors[n].contexts)
        {
          OneCallLater(src, out, k, n, was[n].contexts);
        }
      }
      assert out[..|out|] == out;
      ok := AllContextsMet(out);
      if ok {
        FinishedEnds(src.file, out);
        FinishLoading(out);
      }
    }

    /** No context is left over. */
    method AllContextsMet(ghost out: seq<Emission>) returns (ok: bool)
      requires Valid(out) && Finished(src.file, out)
      requires forall n :: 1 <= n < |cursors| ==> UnmetIfReal(src, out, n, cursors[n].contexts)
      ensures ok <==> ContextsReal(src)
      ensures ok <==> forall n :: 1 <= n < |cursors| ==> cursors[n].contexts == |src.contexts[n]|
    {
      hide ContextsReal, Finished, UnmetIfReal, Sources.LevelOk, Sources.CursorOk;
      ok := true;
      for n := 1 to |cursors|
        invariant ok <==> forall m :: 1 <= m < n ==> cursors[m].contexts == |src.contexts[m]|
      {
        if cursors[n].contexts != |src.contexts[n]| {
          ok := false;
        }
      }
      AllMet(src, out, cursors);
    }

    method FinishLoading(ghost out: seq<Emission>)
      requires Valid(out) && out != [] && out[|out| - 1] == Real([src.file.bound])
      requires forall n :: 1 <= n < |cursors| ==> cursors[n].contexts == |src.contexts[n]|
      modifies this`levels
      ensures |levels| == src.file.order + 1 && forall n :: 1 <= n < |levels| ==> LevelDone(src, out, n, levels[n])
    {
      ghost var was := levels;
      hide LevelDone, Less;
      for n := 1 to |levels|
        invariant |levels| == |was| && (forall m :: n <= m < |levels| ==> levels[m] == was[m])
        invariant forall m :: 1 <= m < n ==> LevelDone(src, out, m, levels[m])
      {
        ghost var nexts := if 1 < n < src.file.order then levels[n].nexts + [|Row(out, n + 1)|] else levels[n].nexts;
        ClosePointers(src, out, n, levels[n], cursors[n], nexts);
        if 1 < n < src.file.order {
          levels := levels[n := levels[n].(nexts := levels[n].nexts + [|levels[n + 1].words|])];
        } else {
          assert levels[n].(nexts := nexts) == levels[n];
        }
      }
    }
  }

  ghost predicate UnmetIfReal(src: Sources, done: seq<Emission>, n: nat, pos: nat)
    requires n < |src.contexts|
  {
    ContextsReal(src) ==> Unmet(done, src.contexts[n], pos)
  }

  lemma FinishedEnds(a: Lm, out: seq<Emission>)
    requires Finished(a, out)
    ensures out != [] && out[|out| - 1] == Real([a.bound])
  {
  }

  lemma NoneMetYet(src: Sources)
    ensures forall n, pos :: 0 <= n < |src.contexts| ==> UnmetIfReal(src, [], n, pos)
  {
  }

  lemma OneCallLater(src: Sources, out: seq<Emission>, k: nat, n: nat, pos: nat)
    requires src.Valid() && Finished(src.file, out) && k < |out| && 1 <= n < |src.contexts|
    requires |out[k].gram| < |src.contexts| && UnmetIfReal(src, out[..k], n, pos)
    ensures UnmetIfReal(src, out[..k + 1], n, if |out[k].gram| == n then ContextsAfter(src, out[k], pos) else pos)
  {
    if ContextsReal(src) {
      var s := src.contexts[n];
      forall j | 0 <= j < |s|
        ensures src.file.Has(s[j]) && |s[j]| == n
      {
      }
      if |out[k].gram| != n {
        assert out[..k + 1] == out[..k] + [out[k]];
      } else {
        StillUnmet(src.file, out, k, s, pos);
      }
    }
  }

  lemma NextCall(src: Sources, out: seq<Emission>, k: nat)
    requires src.Valid() && Finished(src.file, out) && k < |out|
    ensures src.Next(out[..k], out[k]) && 1 <= |out[k].gram| < |src.contexts| && (out[k].Blank? ==> |out[k].gram| < src.file.order)
    ensures out[k].Real? ==> src.file.Has(out[k].gram) || out[k].gram == [src.file.bound]
  {
    FinishedAscends(src.file, out);
    assert out[..k] + [out[k]] == out[..k + 1];
    var body := out[..|out| - 1];
    if k < |body| {
      assert EmissionOk(src.file, body[k]) && InClosure(src.file, body[k].gram);
      var x :| src.file.Has(x) && body[k].gram <= x;
      assert LineOk(src.file, x);
    }
  }

  lemma AllMet(src: Sources, out: seq<Emission>, cursors: seq<Cursor>)
    requires src.Valid() && Finished(src.file, out) && |cursors| == src.file.order + 1
    requires forall n :: 1 <= n < |cursors| ==> src.CursorOk(out, n, cursors[n]) && UnmetIfReal(src, out, n, cursors[n].contexts)
    ensures ContextsReal(src) <==> forall n :: 1 <= n < |cursors| ==> cursors[n].contexts == |src.contexts[n]|
  {
    if ContextsReal(src) {
      forall n | 1 <= n < |cursors|
        ensures cursors[n].contexts == |src.contexts[n]|
      {
        assert src.CursorOk(out, n, cursors[n]) && UnmetIfReal(src, out, n, cursors[n].contexts);
        if cursors[n].contexts < |src.contexts[n]| && n < src.file.order {
          RealIsEmitted(src.file, out, src.contexts[n][cursors[n].contexts]);
          assert false;
        }
      }
    }
  }

  function ContextsAfter(src: Sources, e: Emission, contexts: nat): nat
    requires |e.gram| < |src.contexts|
  {
    if contexts < |src.contexts[|e.gram|]| && |e.gram| < src.file.order && src.file.Has(e.gram) && e == Real(src.contexts[|e.gram|][contexts])
    then contexts + 1 else contexts
  }

  lemma CursorsKept(src: Sources, done: seq<Emission>, e: Emission, n: nat, c: Cursor)
    requires n < |src.contexts| && n < |src.kept| && src.CursorOk(done, n, c)
    ensures src.CursorOk(done + [e], n, c)
  {
    forall j | 0 <= j < c.kept
      ensures src.Behind(done + [e], src.kept[n][j])
    {
      var k :| 0 <= k < |done| && Less(src.kept[n][j], done[k].gram);
      assert (done + [e])[k] == done[k];
    }
  }

  lemma CursorLater(src: Sources, done: seq<Emission>, e: Emission, c: Cursor, c': Cursor)
    requires |e.gram| < |src.contexts| && |e.gram| < |src.kept| && src.CursorOk(done, |e.gram|, c)
    requires c'.contexts <= |src.contexts[|e.gram|]| && c'.kept <= |src.kept[|e.gram|]|
    requires forall j :: c.contexts <= j < c'.contexts ==> Real(src.contexts[|e.gram|][j]) == e && src.file.Has(e.gram)
    requires c'.kept == c.kept || forall j :: 0 <= j < c'.kept ==> Less(src.kept[|e.gram|][j], e.gram)
    ensures src.CursorOk(done + [e], |e.gram|, c')
  {
    var done' := done + [e];
    assert done'[|done|] == e;
    forall j | 0 <= j < c'.contexts
      ensures Real(src.contexts[|e.gram|][j]) in done' && src.file.Has(src.contexts[|e.gram|][j])
    {
      if c.contexts <= j {
        assert Real(src.contexts[|e.gram|][j]) == e;
      }
    }
    forall j | 0 <= j < c'.kept
      ensures src.Behind(done', src.kept[|e.gram|][j])
    {
      if c'.kept == c.kept {
        var k :| 0 <= k < |done| && Less(src.kept[|e.gram|][j], done[k].gram);
        assert done'[k] == done[k];
      } else {
        assert done'[|done|] == e;
      }
    }
  }
}
