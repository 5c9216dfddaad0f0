/** The trie as a model: what its lookups present, compared with the file and with the probing table of the same file. */
module TrieModel {
  import opened NGrams
  import opened HashedBuild
  import opened TrieMerge
  import opened TrieLayout
  import opened TrieSearch
  import opened TrieLookup
  import opened TrieMessages
  import opened TrieBuild
  import opened TrieLoading

  lemma SameClosure(a: Lm, a': Lm, g: Gram)
    requires SameFile(a, a')
    ensures InClosure(a, g) <==> InClosure(a', g)
  {
    if InClosure(a, g) {
      var x :| a.Has(x) && g <= x;
      assert a'.Has(x);
    }
    if InClosure(a', g) {
      var x :| a'.Has(x) && g <= x;
      assert a.Has(x);
    }
  }

  // ----- both builders -----

  /** From one file, both builders give an n-gram the same probability and the same back-off. */
  lemma SameFromBothBuilders(file: Lm, src: Sources, out: seq<Emission>, t: Table, maxRest: bool, g: Gram, w: ProbBackoff)
    requires SameFile(file, src.file) && src.Valid() && Finished(src.file, out)
    requires Built(t, file, file.table.Keys, maxRest) && NonPositive(file)
    requires g != [] && HasWeights(src, out, g, w)
    ensures g in t <==> InClosure(src.file, g)
    ensures g in t ==> w.prob == t[g].Prob() && w.backoff.Value() == t[g].backoff.Value()
  {
    SameNGrams(t, file, maxRest, g);
    SameClosure(file, src.file, g);
    if g in t {
      LoadedWeights(file, src, out, g, w);
      assert EntryOk(t, file, file.table.Keys, g);
    }
  }

  // ----- the table that the lookups present -----

  ghost predicate EntryFrom(src: Sources, out: seq<Emission>, g: Gram, e: Entry) {
    exists w :: HasWeights(src, out, g, w) && e == Entry(w.prob, w.backoff, w.prob, !HasChildren(src.file, g))
  }

  /** `lm` has the n-grams that chained lookups find, with the weights and the flags they return. */
  ghost predicate Presents(lm: Lm, src: Sources, out: seq<Emission>) {
    && lm.order == src.file.order && lm.bound == src.file.bound && !lm.differentRest
    && (forall g :: lm.Has(g) <==> InClosure(src.file, g))
    && (forall g :: lm.Has(g) ==> EntryFrom(src, out, g, lm.table[g]))
  }

  ghost function EntryAt(src: Sources, out: seq<Emission>, g: Gram): (e: Entry)
    requires exists w :: HasWeights(src, out, g, w)
    ensures EntryFrom(src, out, g, e)
  {
    var w :| HasWeights(src, out, g, w);
    Entry(w.prob, w.backoff, w.prob, !HasChildren(src.file, g))
  }

  /** Every trie presents such a table. */
  lemma SomethingPresented(src: Sources, out: seq<Emission>, levels: seq<Level>) returns (lm: Lm)
    requires TrieOk(src, out, levels)
    ensures Presents(lm, src, out)
  {
    hide HasWeights, LevelDone, Finished, Sources.Valid, HasChildren, EntryAt;
    forall g | InClosure(src.file, g)
      ensures exists w :: HasWeights(src, out, g, w)
      ensures Emitted(out, g)
    {
      StoredSomewhere(src, out, levels, g);
    }
    lm := Lm(src.file.order, src.file.bound, false,
             map g | g in (set e | e in out :: e.gram) && InClosure(src.file, g) :: EntryAt(src, out, g));
    forall g
      ensures lm.Has(g) <==> InClosure(src.file, g)
    {
      if InClosure(src.file, g) {
        assert Emitted(out, g);
      }
    }
  }

  lemma StoredSomewhere(src: Sources, out: seq<Emission>, levels: seq<Level>, g: Gram)
    requires TrieOk(src, out, levels) && InClosure(src.file, g)
    ensures Emitted(out, g) && exists w :: HasWeights(src, out, g, w)
  {
    hide HasWeights, LevelDone, Finished, InClosure;
    ClosureLength(src.file, g);
    EmittedIffClosure(src.file, out, g);
    var i := EmittedInRow(out, g);
    WeightsAt(src, out, levels, |g|, i);
  }

  /** What the file has to say of an n-gram that a lookup finds. */
  lemma PresentedWeights(file: Lm, src: Sources, out: seq<Emission>, lm: Lm, g: Gram)
    requires ValidArpa(file) && SameFile(file, src.file) && src.Valid() && Finished(src.file, out) && Presents(lm, src, out)
    requires lm.Has(g)
    ensures g != [] && InClosure(file, g) && 1 <= |g| <= file.order && file.Has([g[0]])
    ensures lm.table[g].prob == file.Textbook(g[0], g[1..]) && lm.table[g].backoff.Value() == file.BackoffOf(g)
  {
    hide Sources.Valid, Finished, ValidArpa, Lm.Textbook;
    SameClosure(file, src.file, g);
    assert EntryFrom(src, out, g, lm.table[g]);
    var w :| HasWeights(src, out, g, w) && lm.table[g] == Entry(w.prob, w.backoff, w.prob, !HasChildren(src.file, g));
    LoadedWeights(file, src, out, g, w);
    ClosureLength(file, g);
  }

  lemma ClosureLength(a: Lm, g: Gram)
    requires ValidArpa(a) && InClosure(a, g)
    ensures 1 <= |g| <= a.order
  {
    var x :| a.Has(x) && g <= x;
    assert LineOk(a, x);
  }

  /** The trie predicts what the file predicts: filling in the missing suffixes changes no log-probability. */
  lemma {:induction false} TriePredicts(file: Lm, src: Sources, out: seq<Emission>, lm: Lm, w: Word, h: seq<Word>)
    requires ValidArpa(file) && SameFile(file, src.file) && src.Valid() && Finished(src.file, out) && Presents(lm, src, out)
    requires w < file.bound
    ensures file.Has([w]) && lm.Has([w]) && lm.Textbook(w, h) == file.Textbook(w, h)
    decreases |h|
  {
    hide Sources.Valid, Finished, ValidArpa, Presents, InClosure, SameFile;
    WordsIn(file, w);
    RealPresented(file, src, out, lm, [w]);
    PresentedWeights(file, src, out, lm, [w]);
    if h != [] {
      if lm.Has([w] + h) {
        PresentedWeights(file, src, out, lm, [w] + h);
        assert ([w] + h)[1..] == h;
      } else {
        if file.Has([w] + h) {
          RealPresented(file, src, out, lm, [w] + h);
          assert false;
        }
        TriePredicts(file, src, out, lm, w, h[..|h| - 1]);
        PresentedBackoff(file, src, out, lm, h);
      }
    }
  }

  lemma RealPresented(file: Lm, src: Sources, out: seq<Emission>, lm: Lm, g: Gram)
    requires SameFile(file, src.file) && Presents(lm, src, out) && file.Has(g) && g != []
    ensures lm.Has(g)
  {
    RealInClosure(file, g);
    SameClosure(file, src.file, g);
  }

  lemma PresentedBackoff(file: Lm, src: Sources, out: seq<Emission>, lm: Lm, h: Gram)
    requires ValidArpa(file) && SameFile(file, src.file) && src.Valid() && Finished(src.file, out) && Presents(lm, src, out)
    requires h != []
    ensures lm.BackoffOf(h) == file.BackoffOf(h)
  {
    hide Sources.Valid, Finished, ValidArpa, InClosure;
    if lm.Has(h) {
      PresentedWeights(file, src, out, lm, h);
      assert lm.order == file.order;
    } else if file.Has(h) {
      RealPresented(file, src, out, lm, h);
      assert false;
    }
  }

  // ----- extension flags -----

  /** The file has a later n-gram of the same order. */
  ghost predicate LaterInFile(a: Lm, g: Gram) {
    exists x :: a.Has(x) && |x| == |g| && Less(g, x)
  }

  /** A missing suffix that is a context gets its extension flag. */
  ghost predicate FlagKept(a: Lm, g: Gram) {
    g != [] && !a.Has(g) && ContextInClosure(a, g) ==> LaterInFile(a, g)
  }

  ghost predicate NoFlagLost(a: Lm) {
    forall g :: FlagKept(a, g)
  }

  lemma LaterIff(a: Lm, records: seq<Record>, g: Gram)
    requires StreamOk(a, records, |g|)
    ensures HasLater(records, g) <==> LaterInFile(a, g)
  {
    hide Less;
    if HasLater(records, g) {
      var j :| 0 <= j < |records| && Less(g, records[j].gram);
      assert RecordOk(a, records[j], |g|);
    }
    if LaterInFile(a, g) {
      var x :| a.Has(x) && |x| == |g| && Less(g, x);
      assert InStream(records, 0, x);
      var j :| 0 <= j < |records| && records[j].gram == x;
    }
  }

  /** Which n-grams of fewer than N words carry the flag in the trie. */
  lemma TrieFlags(file: Lm, src: Sources, out: seq<Emission>, records: seq<seq<Record>>, levels: seq<Level>, g: Gram, w: ProbBackoff)
    requires ValidArpa(file) && ContextsIn(file) && TrieFor(file, src, out, records, levels)
    requires InClosure(file, g) && |g| < file.order && HasWeights(src, out, g, w)
    ensures w.backoff.HasExtension() <==> file.Ext(g) || (ContextInClosure(file, g) && (file.Has(g) || LaterInFile(file, g)))
  {
    hide Less, InClosure, ContextInClosure, LaterInFile, HasLater, LevelDone, ContextsIn, ContextsListed, Finished, ValidArpa,
      StreamOk, Sources.Stored, Sources.Valid;
    FlagSource(file, src, out, records, levels, g, w);
    var e :| e in out && e.gram == g && |g| < |src.contexts| && src.Stored(e, src.contexts[|g|], w);
    CallFor(src, out, e);
    ClosureLength(file, g);
    if e.Real? {
      assert FlaggedFor(file, src.file, out, g);
      RealFlags(file, src, out, g, w);
    } else {
      BlankFlags(file, src, out, records[|g|], g, e.lower, e.basis, w);
      LaterIff(file, records[|g|], g);
    }
  }

  lemma FlagSource(file: Lm, src: Sources, out: seq<Emission>, records: seq<seq<Record>>, levels: seq<Level>, g: Gram, w: ProbBackoff)
    requires ValidArpa(file) && TrieFor(file, src, out, records, levels) && InClosure(file, g) && |g| < file.order
    ensures InClosure(src.file, g) && src.file.order == file.order && src.Valid() && |src.kept| == |records| == file.order + 1
    ensures forall x :: src.file.Has(x) <==> file.Has(x)
    ensures 1 <= |g| && StreamOk(file, records[|g|], |g|) && KeptFor(file, out, |g|, records[|g|], src.kept[|g|])
  {
    SameClosure(file, src.file, g);
    ClosureLength(file, g);
  }

  // ----- when the model's requirements are met -----

  /** An n-gram presented with the flag. */
  lemma PresentedFlag(file: Lm, src: Sources, out: seq<Emission>, records: seq<seq<Record>>, levels: seq<Level>, lm: Lm, g: Gram)
    requires ValidArpa(file) && ContextsIn(file) && TrieFor(file, src, out, records, levels) && Presents(lm, src, out)
    requires InClosure(file, g) && |g| < file.order
    ensures lm.Ext(g) <==> file.Ext(g) || (ContextInClosure(file, g) && (file.Has(g) || LaterInFile(file, g)))
  {
    hide ContextInClosure, LaterInFile, ContextsIn, ValidArpa, InClosure, HasWeights, TrieOk, Finished, RecordsOk, ContextsListed,
      AllKept, AllFlagged;
    SameClosure(file, src.file, g);
    assert EntryFrom(src, out, g, lm.table[g]);
    var w :| HasWeights(src, out, g, w) && lm.table[g] == Entry(w.prob, w.backoff, w.prob, !HasChildren(src.file, g));
    TrieFlags(file, src, out, records, levels, g, w);
  }

  /** The context of an n-gram of the closure is in it too, and it is the context of a stored n-gram. */
  lemma ContextOfClosure(a: Lm, g: Gram)
    requires ContextsIn(a) && InClosure(a, g) && 1 < |g|
    ensures InClosure(a, g[1..]) && ContextInClosure(a, g[1..])
  {
    var x :| a.Has(x) && g <= x;
    assert a.Has(x[1..]) && g[1..] <= x[1..];
    assert [g[0]] + g[1..] == g;
  }

  /** Everything the model needs, but for the flag of the context. */
  lemma PresentedClosed(file: Lm, src: Sources, out: seq<Emission>, lm: Lm, g: Gram)
    requires ValidArpa(file) && SameFile(file, src.file) && Presents(lm, src, out) && InClosure(file, g)
    ensures lm.Has(g) && 1 <= |g| <= lm.order && lm.table[g].rest == lm.table[g].prob
    ensures 1 < |g| ==> lm.Has(g[..|g| - 1]) && !lm.table[g[..|g| - 1]].independentLeft
  {
    hide ValidArpa, HasWeights, SameFile, InClosure, HasChildren;
    ClosureLength(file, g);
    SameOrder(file, src.file);
    SameClosure(file, src.file, g);
    assert EntryFrom(src, out, g, lm.table[g]);
    if 1 < |g| {
      OpenPresented(src, out, lm, g);
    }
  }

  lemma OpenPresented(src: Sources, out: seq<Emission>, lm: Lm, g: Gram)
    requires Presents(lm, src, out) && InClosure(src.file, g) && 1 < |g|
    ensures lm.Has(g[..|g| - 1]) && !lm.table[g[..|g| - 1]].independentLeft
  {
    hide InClosure, HasWeights;
    var p, n := g[..|g| - 1], |g| - 1;
    PrefixInClosure(src.file, g, n);
    assert p + [g[n]] == g;
    assert HasChildren(src.file, p);
    assert EntryFrom(src, out, p, lm.table[p]);
  }

  /** What the lookups present meets the model's requirements exactly when no flag is lost. */
  lemma WellFormedIffNoFlagLost(file: Lm, src: Sources, out: seq<Emission>, records: seq<seq<Record>>, levels: seq<Level>, lm: Lm)
    requires ValidArpa(file) && ContextsIn(file) && TrieFor(file, src, out, records, levels) && Presents(lm, src, out)
    ensures lm.WellFormed() <==> NoFlagLost(file)
  {
    hide ContextInClosure, LaterInFile, ContextsIn, InClosure, TrieOk, Finished, RecordsOk, ContextsListed, AllKept, AllFlagged;
    if lm.WellFormed() {
      forall g
        ensures FlagKept(file, g)
      {
        if g != [] && !file.Has(g) && ContextInClosure(file, g) {
          FlagNeeded(file, src, out, lm, g);
          PresentedFlag(file, src, out, records, levels, lm, g);
        }
      }
    }
    if NoFlagLost(file) {
      forall g
        ensures lm.EntryClosed(g)
      {
        SameClosure(file, src.file, g);
        if lm.Has(g) {
          PresentedClosed(file, src, out, lm, g);
          if 1 < |g| {
            ContextOfClosure(file, g);
            PresentedFlag(file, src, out, records, levels, lm, g[1..]);
            assert FlagKept(file, g[1..]);
          }
        }
      }
      WordsPresented(file, src, out, lm);
    }
  }

  lemma WordsPresented(file: Lm, src: Sources, out: seq<Emission>, lm: Lm)
    requires ValidArpa(file) && SameFile(file, src.file) && Presents(lm, src, out)
    ensures 2 <= lm.order && lm.bound == file.bound && forall w: Word :: w < lm.bound ==> lm.Has([w])
  {
    hide InClosure;
    forall w: Word | w < lm.bound
      ensures lm.Has([w])
    {
      WordsIn(file, w);
      RealPresented(file, src, out, lm, [w]);
    }
  }

  /** The model requires the flag of every context. */
  lemma FlagNeeded(file: Lm, src: Sources, out: seq<Emission>, lm: Lm, g: Gram)
    requires ContextsIn(file) && SameFile(file, src.file) && Presents(lm, src, out) && lm.WellFormed()
    requires g != [] && ContextInClosure(file, g)
    ensures InClosure(file, g) && |g| < file.order && lm.Ext(g)
  {
    var w: Word :| InClosure(file, [w] + g);
    var x := [w] + g;
    assert x[1..] == g;
    ContextOfClosure(file, x);
    SameClosure(file, src.file, x);
    assert lm.EntryClosed(x);
  }

  /** Then every log-probability the model gives is the file's. */
  lemma TrieModelIsFile(file: Lm, src: Sources, out: seq<Emission>, records: seq<seq<Record>>, levels: seq<Level>, lm: Lm)
    requires ValidArpa(file) && ContextsIn(file) && TrieFor(file, src, out, records, levels) && Presents(lm, src, out)
    requires NoFlagLost(file)
    ensures lm.WellFormed() && forall w: Word, h: seq<Word> :: SamePrediction(lm, file, w, h)
  {
    WellFormedIffNoFlagLost(file, src, out, records, levels, lm);
    forall w: Word, h: seq<Word>
      ensures SamePrediction(lm, file, w, h)
    {
      if w < file.bound {
        TriePredicts(file, src, out, lm, w, h);
      }
    }
  }

  // ----- a flag that is lost -----

  /** "0 1" is missing although "0 0 1 0" is there, and no bigram of the file comes after it. */
  function LostFlagFile(): Lm {
    var e := Entry(-1.0, NoExtension, 0.0, true);
    Lm(4, 2, false, map[[0] := e, [1] := e, [0, 0] := e, [1, 0, 0] := e, [0, 1, 0, 0] := e])
  }

  function Line(g: Gram): Record {
    Record(g, -1.0, NoExtension)
  }

  lemma LostFlagLines()
    ensures Lists(LostFlagFile(), 1, [Line([0]), Line([1])]) && Lists(LostFlagFile(), 2, [Line([0, 0])])
    ensures Lists(LostFlagFile(), 3, [Line([1, 0, 0])]) && Lists(LostFlagFile(), 4, [Line([0, 1, 0, 0])])
  {
    hide UpTo, GramsOf;
    OneLine([0, 0]);
    OneLine([1, 0, 0]);
    OneLine([0, 1, 0, 0]);
    TwoLines([0], [1]);
    LostFlagUpTo();
  }

  lemma LostFlagUpTo()
    ensures UpTo(LostFlagFile(), 0) == {} && UpTo(LostFlagFile(), 1) == {[0], [1]}
    ensures UpTo(LostFlagFile(), 2) == {[0], [1]} + {[0, 0]} && UpTo(LostFlagFile(), 3) == {[0], [1]} + {[0, 0]} + {[1, 0, 0]}
    ensures UpTo(LostFlagFile(), 4) == {[0], [1]} + {[0, 0]} + {[1, 0, 0]} + {[0, 1, 0, 0]}
  {
  }

  lemma LostFlagIsValid()
    ensures ValidArpa(LostFlagFile()) && ContextsIn(LostFlagFile())
  {
    assert [0, 0][1..] == [0] && [1, 0, 0][1..] == [0, 0] && [0, 1, 0, 0][1..] == [1, 0, 0];
  }

  lemma TwoLines(g: Gram, h: Gram)
    ensures GramsOf([Line(g), Line(h)]) == {g, h}
  {
    var lines := [Line(g), Line(h)];
    assert lines[0].gram == g && lines[1].gram == h;
  }

  lemma OneLine(g: Gram)
    ensures GramsOf([Line(g)]) == {g}
  {
    assert [Line(g)][0].gram == g;
  }

  lemma FlagIsLost()
    ensures InClosure(LostFlagFile(), [1, 0]) && ContextInClosure(LostFlagFile(), [1, 0])
    ensures !LostFlagFile().Ext([1, 0]) && !LostFlagFile().Has([1, 0]) && !LaterInFile(LostFlagFile(), [1, 0])
    ensures !NoFlagLost(LostFlagFile())
  {
    var a := LostFlagFile();
    assert a.Has([1, 0, 0]) && [1, 0] <= [1, 0, 0];
    assert a.Has([0, 1, 0, 0]) && [0] + [1, 0] == [0, 1, 0] <= [0, 1, 0, 0];
    assert InClosure(a, [0] + [1, 0]);
    forall x | a.Has(x) && |x| == |[1, 0]|
      ensures !Less([1, 0], x)
    {
      assert x == [0, 0];
    }
    assert !FlagKept(a, [1, 0]);
  }

  /** In the trie of this file "0 1" is found without the flag, although it is the context of "0 1 0", which is stored. */
  method LostFlag(batchSize: nat) returns (found: bool, weights: ProbBackoff)
    requires 0 < batchSize
    ensures ContextsIn(LostFlagFile()) && ContextInClosure(LostFlagFile(), [1, 0])
    ensures found && !weights.backoff.HasExtension()
  {
    LostFlagLines();
    LostFlagIsValid();
    FlagIsLost();
    hide ContextInClosure, LaterInFile, InClosure, Lists, ValidArpa, ContextsIn, TrieOk, TrieFor, NoFlagLost, SameFile;
    var file := LostFlagFile();
    var lines := [[Line([0]), Line([1])], [Line([0, 0])], [Line([1, 0, 0])], [Line([0, 1, 0, 0])]];
    var ok, trie;
    ghost var src, out, sorted;
    ok, trie, src, out, sorted := LoadTrie(file, lines, batchSize);
    found, weights := FindBigram(file, trie, 1, 0, src, out, sorted);
    TrieFlags(file, src, out, sorted, trie.levels, [1, 0], weights);
  }

  method FindBigram(ghost file: Lm, trie: Trie, w: Word, v: Word, ghost src: Sources, ghost out: seq<Emission>,
                    ghost sorted: seq<seq<Record>>)
    returns (found: bool, weights: ProbBackoff)
    requires TrieFor(file, src, out, sorted, trie.levels) && w < file.bound && 2 < file.order
    ensures found <==> InClosure(file, [w, v])
    ensures found ==> HasWeights(src, out, [w, v], weights)
  {
    hide InClosure, TrieOk, HasWeights, At, RecordsOk, ContextsListed, AllKept, AllFlagged, Finished;
    var node, independentLeft, place, next;
    weights, node, independentLeft, place := trie.LookupUnigram(w, src, out);
    found, weights, next, independentLeft, place := trie.LookupMiddle(v, node, [w], place, 2, src, out);
    assert [w] + [v] == [w, v];
    SameClosure(file, src.file, [w, v]);
  }
}
