/** Building the probing model from an ARPA file: inserting n-grams order by order, filling in the suffixes that are
    missing from the file, marking what extends what, and keeping maximum rest costs. */
module HashedBuild {
  import opened NGrams

  /** A float whose sign bit is used as a flag: set means "does not extend to the left". */
  datatype Signed = Signed(negative: bool, magnitude: real)

  function Abs(x: real): real {
    if x < 0.0 then -x else x
  }

  function Store(x: real): Signed {
    Signed(x < 0.0, Abs(x))
  }

  datatype Weights = Weights(prob: Signed, backoff: Backoff, rest: real) {
    /** Log-probabilities are read with the sign bit forced on. */
    function Prob(): real {
      -prob.magnitude
    }
  }

  type Table = map<Gram, Weights>

  /** One line of the file; `gram` newest word first. */
  datatype Record = Record(gram: Gram, prob: real, backoff: Backoff)

  /** An entry inserted for a missing suffix, before its probability is known. */
  const BLANK := Weights(Signed(true, 0.0), NoExtension, 0.0)

  // ----- what the table means -----

  /** The table as the model sees it. Without separate rest costs the rest cost is the probability. */
  function AsLm(t: Table, order: nat, bound: nat, maxRest: bool): Lm {
    Lm(order, bound, maxRest,
       map g | g in t :: Entry(t[g].Prob(), t[g].backoff, if maxRest then t[g].rest else t[g].Prob(), t[g].prob.negative))
  }

  ghost predicate LineOk(a: Lm, g: Gram) {
    a.Has(g) ==>
      && 1 <= |g| <= a.order && a.ValidWords(g) && a.table[g].prob <= 0.0
      && (|g| == a.order ==> a.table[g].backoff == NoExtension)
  }

  /** The file as a (possibly not suffix-closed) n-gram set: every word has a unigram, no log-probability is
      positive, and the longest n-grams have no back-off. */
  ghost predicate ValidArpa(a: Lm) {
    && 2 <= a.order
    && (forall w: Word :: w < a.bound ==> a.Has([w]))
    && (forall g :: LineOk(a, g))
  }

  /** Backing off to the last k words of `g` does not give a positive log-probability. */
  ghost predicate SuffixNonPositive(a: Lm, g: Gram, k: nat) {
    a.Has(g) && 1 <= k <= |g| && a.Has([g[0]]) ==> a.Textbook(g[0], g[1..k]) <= 0.0
  }

  /** No suffix of an n-gram in the file gets a positive log-probability by backing off. */
  ghost predicate NonPositive(a: Lm) {
    forall g, k: nat :: SuffixNonPositive(a, g, k)
  }

  /** Some n-gram of `s` extends `g` to the left (or is `g`). */
  ghost predicate Covered(g: Gram, s: set<Gram>) {
    exists x :: x in s && g <= x
  }

  ghost predicate IsContext<T>(g: Gram, t: map<Gram, T>) {
    exists w: Word :: [w] + g in t
  }

  /** The entry of `g` agrees with the file: the right probability, the file's back-off, a flag on everything that
      is a context, and only on that. */
  ghost predicate EntryOk(t: Table, a: Lm, s: set<Gram>, g: Gram) {
    g in t ==>
      && Covered(g, s)
      && 1 <= |g| <= a.order && a.ValidWords(g)
      && a.Has([g[0]])
      && (a.Has(g) ==> t[g].Prob() == a.table[g].prob)
      && (NonPositive(a) ==> t[g].Prob() == a.Textbook(g[0], g[1..]))
      && 0.0 <= t[g].prob.magnitude
      && t[g].backoff.Value() == a.BackoffOf(g)
      && (t[g].backoff.HasExtension() ==> a.Ext(g) || IsContext(g, t))
      && (a.Ext(g) ==> t[g].backoff.HasExtension())
      && (1 < |g| ==> && g[..|g| - 1] in t && !t[g[..|g| - 1]].prob.negative
                      && g[1..] in t && t[g[1..]].backoff.HasExtension())
  }

  /** Some n-gram in the table extends `g` to the left. */
  ghost predicate Extended<T>(g: Gram, t: map<Gram, T>) {
    exists w: Word :: g + [w] in t
  }

  /** The sign bit is set on exactly the n-grams that nothing extends to the left. Only a unigram whose log-probability is zero
      never has it. */
  ghost predicate LeftOk(t: Table, a: Lm, g: Gram) {
    g in t && g != [] ==> (t[g].prob.negative <==> !Extended(g, t) && (|g| == 1 ==> a.Has(g) && a.table[g].prob < 0.0))
  }

  /** Every rest cost is the largest probability among the stored n-grams that end in the n-gram. */
  ghost predicate RestsOk(t: Table) {
    && (forall x :: Attained(t, x))
    && (forall x, y :: x in t && y in t && x <= y ==> t[y].Prob() <= t[x].rest)
  }

  /** The state of the table after the n-grams `s` have been read. */
  ghost predicate Built(t: Table, a: Lm, s: set<Gram>, maxRest: bool) {
    && ValidArpa(a)
    && s <= t.Keys && s <= a.table.Keys
    && (forall g :: EntryOk(t, a, s, g))
    && (forall g :: LeftOk(t, a, g))
    && (maxRest ==> RestsOk(t))
  }

  // ----- the finished table -----

  /** All of the file has been read. */
  lemma FinishedIsWellFormed(t: Table, a: Lm, maxRest: bool)
    requires Built(t, a, a.table.Keys, maxRest)
    ensures AsLm(t, a.order, a.bound, maxRest).WellFormed()
  {
    var lm := AsLm(t, a.order, a.bound, maxRest);
    forall g
      ensures lm.EntryClosed(g)
    {
      assert EntryOk(t, a, a.table.Keys, g);
      if g in t && 1 < |g| {
        assert EntryOk(t, a, a.table.Keys, g[1..]);
      }
    }
  }

  /** What the model sees of every entry. The left flag is set if nothing extends the n-gram, but never on a unigram of
      log-probability zero; the n-gram may be kept as state if the file has a back-off to charge for it or it is the context of
      another one. */
  lemma FinishedFlagsAreExact(t: Table, a: Lm, maxRest: bool, g: Gram)
    requires Built(t, a, a.table.Keys, maxRest) && g in t
    ensures g != [] && (|g| == 1 ==> a.Has(g))
    ensures var lm := AsLm(t, a.order, a.bound, maxRest);
            && (lm.table[g].independentLeft <==> !Extended(g, t) && (|g| == 1 ==> a.table[g].prob < 0.0))
            && (lm.Ext(g) <==> |g| < a.order && (a.Ext(g) || IsContext(g, t)))
  {
    assert EntryOk(t, a, a.table.Keys, g) && LeftOk(t, a, g);
    assert |g| == 1 ==> g == [g[0]];
    if IsContext(g, t) {
      var w: Word :| [w] + g in t;
      assert EntryOk(t, a, a.table.Keys, [w] + g) && ([w] + g)[1..] == g;
    }
  }

  /** The rest cost that the model sees is the greatest probability of the n-grams that end in the n-gram, itself included; without
      separate rest costs it is its own probability. */
  lemma FinishedRestIsGreatest(t: Table, a: Lm, maxRest: bool, g: Gram)
    requires Built(t, a, a.table.Keys, maxRest) && g in t
    ensures var lm := AsLm(t, a.order, a.bound, maxRest);
            if maxRest then
              && (exists y :: lm.Has(y) && g <= y && lm.table[y].prob == lm.table[g].rest)
              && (forall y :: lm.Has(y) && g <= y ==> lm.table[y].prob <= lm.table[g].rest)
            else lm.table[g].rest == lm.table[g].prob
  {
    if maxRest {
      var lm := AsLm(t, a.order, a.bound, maxRest);
      assert Attained(t, g);
      var y :| y in t && g <= y && t[y].Prob() == t[g].rest;
      assert lm.Has(y);
    }
  }

  /** Nothing extends a unigram of log-probability zero in this file, and still it is said to be extended. */
  lemma ZeroUnigramLooksExtended(t: Table, maxRest: bool)
    requires Built(t, ZeroUnigramFile(), ZeroUnigramFile().table.Keys, maxRest)
    ensures [0] in t && !Extended([0], t) && !AsLm(t, 2, 1, maxRest).table[[0]].independentLeft
  {
    var a := ZeroUnigramFile();
    assert a.Has([0]) && [0] in t;
    FinishedFlagsAreExact(t, a, maxRest, [0]);
    forall w: Word
      ensures [0] + [w] !in t
    {
      assert EntryOk(t, a, a.table.Keys, [0] + [w]);
    }
  }

  function ZeroUnigramFile(): Lm {
    Lm(2, 1, false, map[[0] := Entry(0.0, NoExtension, 0.0, true)])
  }

  /** The file gives a back-off to an n-gram only if some longer n-gram has it as its context. */
  ghost predicate BackoffsOnContexts(a: Lm) {
    forall g :: a.Ext(g) ==> IsContext(g, a.table)
  }

  /** If the file gives back-offs only to n-grams that are contexts, the flags are closed as well. */
  lemma FinishedFlagsClosed(t: Table, a: Lm, maxRest: bool)
    requires Built(t, a, a.table.Keys, maxRest)
    requires BackoffsOnContexts(a)
    ensures AsLm(t, a.order, a.bound, maxRest).FlagsClosed()
  {
    var lm := AsLm(t, a.order, a.bound, maxRest);
    forall g
      ensures lm.FlagClosed(g)
    {
      if lm.Ext(g) && 1 < |g| {
        FlaggedIsContext(t, a, g);
        var w: Word :| [w] + g in t;
        FlagOfShorter(t, a, [w] + g, g);
      }
    }
  }

  lemma FlaggedIsContext(t: Table, a: Lm, g: Gram)
    requires EntryOk(t, a, a.table.Keys, g) && a.table.Keys <= t.Keys && BackoffsOnContexts(a)
    requires g in t && t[g].backoff.HasExtension()
    ensures IsContext(g, t)
  {
    hide Covered, NonPositive;
    if a.Ext(g) {
      var w: Word :| [w] + g in a.table;
      assert [w] + g in t;
    }
  }

  lemma FlagOfShorter(t: Table, a: Lm, x: Gram, g: Gram)
    requires (forall y :: EntryOk(t, a, a.table.Keys, y)) && x in t && 2 < |x| && x[1..] == g
    ensures g[..|g| - 1] in t && t[g[..|g| - 1]].backoff.HasExtension()
  {
    hide Covered, NonPositive;
    assert EntryOk(t, a, a.table.Keys, x);
    var y := x[..|x| - 1];
    assert EntryOk(t, a, a.table.Keys, y);
    assert y[1..] == g[..|g| - 1];
  }

  /** Both tables give `w` the same log-probability after `h`. */
  ghost predicate SamePrediction(lm: Lm, a: Lm, w: Word, h: seq<Word>) {
    w < a.bound ==> lm.Has([w]) && a.Has([w]) && lm.Textbook(w, h) == a.Textbook(w, h)
  }

  /** Blank insertion preserves every back-off probability, exactly when no missing suffix has a positive one. */
  lemma BlanksPreserveMeaning(t: Table, a: Lm, maxRest: bool)
    requires Built(t, a, a.table.Keys, maxRest)
    ensures (forall w: Word, h: seq<Word> :: SamePrediction(AsLm(t, a.order, a.bound, maxRest), a, w, h))
            <==> NonPositive(a)
  {
    var lm := AsLm(t, a.order, a.bound, maxRest);
    if NonPositive(a) {
      forall w: Word, h: seq<Word>
        ensures SamePrediction(lm, a, w, h)
      {
        if w < a.bound {
          SameTextbook(t, a, maxRest, w, h);
        }
      }
    } else if forall w: Word, h: seq<Word> :: SamePrediction(lm, a, w, h) {
      forall g, k: nat
        ensures SuffixNonPositive(a, g, k)
      {
        if a.Has(g) && 1 <= k <= |g| {
          StoredIsNonPositive(t, a, maxRest, g, k);
          assert SamePrediction(lm, a, g[0], g[1..k]);
        }
      }
    }
  }

  /** A stored suffix is never predicted with a positive log-probability. */
  lemma StoredIsNonPositive(t: Table, a: Lm, maxRest: bool, g: Gram, k: nat)
    requires Built(t, a, a.table.Keys, maxRest)
    requires a.Has(g) && 1 <= k <= |g|
    ensures g[0] < a.bound && AsLm(t, a.order, a.bound, maxRest).Has([g[0]])
    ensures AsLm(t, a.order, a.bound, maxRest).Textbook(g[0], g[1..k]) <= 0.0
  {
    var lm := AsLm(t, a.order, a.bound, maxRest);
    FinishedIsWellFormed(t, a, maxRest);
    assert LineOk(a, g);
    lm.HasPrefix(g, k);
    assert EntryOk(t, a, a.table.Keys, g[..k]);
    assert [g[0]] + g[1..k] == g[..k];
    assert k == 1 ==> g[1..k] == [] && g[..k] == [g[0]];
  }

  lemma {:induction false} SameTextbook(t: Table, a: Lm, maxRest: bool, w: Word, h: seq<Word>)
    requires Built(t, a, a.table.Keys, maxRest) && NonPositive(a) && w < a.bound
    ensures AsLm(t, a.order, a.bound, maxRest).Has([w])
    ensures AsLm(t, a.order, a.bound, maxRest).Textbook(w, h) == a.Textbook(w, h)
    decreases |h|
  {
    var lm := AsLm(t, a.order, a.bound, maxRest);
    assert EntryOk(t, a, a.table.Keys, [w]);
    if h == [] {
    } else {
      assert EntryOk(t, a, a.table.Keys, [w] + h);
      assert ([w] + h)[1..] == h;
      SameBackoff(t, a, maxRest, h);
      SameTextbook(t, a, maxRest, w, h[..|h| - 1]);
    }
  }

  lemma SameBackoff(t: Table, a: Lm, maxRest: bool, h: seq<Word>)
    requires Built(t, a, a.table.Keys, maxRest)
    ensures AsLm(t, a.order, a.bound, maxRest).BackoffOf(h) == a.BackoffOf(h)
  {
    assert EntryOk(t, a, a.table.Keys, h);
  }

  /** A file in which "0 1" is missing although "2 0 1" is there, with a positive back-off on "0". */
  function PositiveBackoffFile(): Lm {
    Lm(3, 3, false,
       map[[0] := Entry(-1.0, Charged(4.0), 0.0, true), [1] := Entry(-1.0, NoExtension, 0.0, true),
           [2] := Entry(-1.0, Charged(-1.0), 0.0, true), [0, 2] := Entry(-1.0, Charged(-1.0), 0.0, true),
           [1, 0, 2] := Entry(-1.0, NoExtension, 0.0, true)])
  }

  /** For this file the missing "0 1" should have log-probability 3; the sign bit makes it -3. */
  lemma PositiveBlankIsMisread(t: Table, maxRest: bool)
    requires Built(t, PositiveBackoffFile(), PositiveBackoffFile().table.Keys, maxRest)
    ensures ValidArpa(PositiveBackoffFile()) && ContextsIn(PositiveBackoffFile())
    ensures !SamePrediction(AsLm(t, 3, 3, maxRest), PositiveBackoffFile(), 1, [0])
  {
    var a := PositiveBackoffFile();
    var lm := AsLm(t, 3, 3, maxRest);
    var g := [1, 0, 2];
    assert a.Has(g) && g[1..2] == [0];
    StoredIsNonPositive(t, a, maxRest, g, 2);
    assert [1] + [0] == [1, 0] && !a.Has([1, 0]);
    assert [0][..0] == [];
    assert a.Textbook(1, []) == -1.0;
    assert a.Textbook(1, [0]) == 3.0;
  }

  // ----- adding one n-gram -----

  /** The suffixes of `g` (in text) longer than `basis` words, down to `g` itself. */
  function Prefixes(g: Gram, basis: nat): set<Gram> {
    set k: nat | basis < k <= |g| :: g[..k]
  }

  /** An entry present before keeps its probability and back-off; flags are only added, and only to contexts. */
  ghost predicate OldEntry(t0: Table, t: Table, x: Gram) {
    x in t0 ==>
      && x in t
      && t[x].prob.magnitude == t0[x].prob.magnitude
      && (t[x].prob.negative ==> t0[x].prob.negative)
      && t[x].backoff.Value() == t0[x].backoff.Value()
      && (t0[x].backoff.HasExtension() ==> t[x].backoff.HasExtension())
      && (t[x].backoff.HasExtension() ==> t0[x].backoff.HasExtension() || IsContext(x, t))
  }

  /** The sign bit stays as it was on everything that is no suffix of `g`. */
  ghost predicate LeftKept(t0: Table, t: Table, g: Gram, x: Gram) {
    x in t0 && !(x <= g) ==> x in t && (t[x].prob.negative <==> t0[x].prob.negative)
  }

  /** The entry for the last k words of `g`, missing before; up to `priced` words its probability is known. */
  ghost predicate Blank(t: Table, a: Lm, g: Gram, basis: nat, priced: nat, k: nat) {
    basis < k < |g| ==>
      && g[..k] in t
      && 0.0 <= t[g[..k]].prob.magnitude
      && t[g[..k]].backoff.Value() == 0.0
      && (t[g[..k]].backoff.HasExtension() ==> IsContext(g[..k], t))
      && (k <= priced && NonPositive(a) && a.Has([g[0]]) ==> t[g[..k]].Prob() == a.Textbook(g[0], g[1..k]))
  }

  /** The context of the last k words of `g` carries the extension flag. */
  ghost predicate Flagged(t: Table, g: Gram, k: nat) {
    0 < k <= |g| && g[1..k] in t ==> t[g[1..k]].backoff.HasExtension()
  }

  /** `g` and blanks for its missing suffixes longer than `basis` have been added to `t0`; blanks of up to `priced`
      words have their probability, and the contexts up to there are flagged. */
  ghost predicate Adding(t0: Table, t: Table, a: Lm, g: Gram, basis: nat, priced: nat) {
    && 1 <= basis <= priced <= |g| && basis < |g|
    && a.Has(g) && g[..basis] in t0
    && (forall k :: basis < k <= |g| ==> g[..k] !in t0)
    && t.Keys == t0.Keys + Prefixes(g, basis)
    && (forall x :: OldEntry(t0, t, x))
    && (forall x :: LeftKept(t0, t, g, x))
    && (forall k: nat :: Blank(t, a, g, basis, priced, k))
    && (forall k: nat :: basis < k <= priced ==> Flagged(t, g, k))
    && g in t && t[g].prob.negative && t[g].Prob() == a.table[g].prob
    && 0.0 <= t[g].prob.magnitude
    && t[g].backoff.Value() == a.BackoffOf(g)
    && (t[g].backoff.HasExtension() ==> a.Ext(g) || IsContext(g, t))
    && (a.Ext(g) ==> t[g].backoff.HasExtension())
  }

  /** Some stored left extension of `x` has exactly the rest cost of `x` as its probability. */
  ghost predicate Attained(t: Table, x: Gram) {
    x in t ==> exists y :: y in t && x <= y && t[y].Prob() == t[x].rest
  }

  /** Rest costs are right, except that suffixes of `g` shorter than `level` may still miss those suffixes of `g`
      that are longer than `basis`. */
  ghost predicate RestBound(t: Table, g: Gram, level: nat, basis: nat, x: Gram, y: Gram) {
    x in t && y in t && x <= y ==>
      t[y].Prob() <= t[x].rest || (|x| < level && x != y && y <= g && basis < |y|)
  }

  ghost predicate RestOpen(t: Table, g: Gram, level: nat, basis: nat) {
    && (forall x :: Attained(t, x))
    && (forall x, y :: RestBound(t, g, level, basis, x, y))
  }

  /** Nothing has been marked yet: old rest costs are as before, new ones are the entry's own probability. */
  ghost predicate RestsFresh(t0: Table, t: Table, g: Gram, basis: nat, priced: nat) {
    && (forall x :: x in t0 && x in t ==> t[x].rest == t0[x].rest)
    && (forall k :: basis < k <= priced && k <= |g| && g[..k] in t ==> t[g[..k]].rest == t[g[..k]].Prob())
    && (g in t ==> t[g].rest == t[g].Prob())
  }

  // ----- steps -----

  lemma FirstWordRead(t: Table, a: Lm, s: set<Gram>, g: Gram)
    requires ValidArpa(a) && ShorterRead(t, a, |g|) && 1 < |g| && a.Has(g)
    ensures a.Has([g[0]]) && g[..1] in t && a.ValidWords(g)
    ensures a.table[g].prob <= 0.0 && a.EntryBackoff(g) == a.table[g].backoff && (|g| == a.order ==> a.table[g].backoff.Value() == 0.0)
  {
    assert LineOk(a, g);
    assert g[..1] == [g[0]];
  }

  /** Inserting `g` and blanks for all its missing suffixes. */
  lemma Inserted(t0: Table, t: Table, a: Lm, s: set<Gram>, g: Gram, basis: nat, added: Weights)
    requires ValidArpa(a) && a.Has(g) && (forall x :: EntryOk(t0, a, s, x))
    requires 1 <= basis < |g| && g[..basis] in t0 && (forall k :: basis < k <= |g| ==> g[..k] !in t0)
    requires t.Keys == t0.Keys + Prefixes(g, basis)
    requires forall x :: x in t0 ==> t[x] == t0[x]
    requires forall k :: basis < k < |g| ==> g[..k] in t && t[g[..k]] == BLANK
    requires g in t && t[g] == added
    requires added.prob.negative && added.Prob() == a.table[g].prob && added.backoff == a.EntryBackoff(g)
    requires a.order == |g| ==> added.backoff.Value() == 0.0
    ensures Adding(t0, t, a, g, basis, basis)
  {
    assert LineOk(a, g);
  }

  /** All n-grams of the file shorter than n words are in the table. */
  ghost predicate ShorterRead(t: Table, a: Lm, n: nat) {
    forall x :: a.Has(x) && |x| < n ==> x in t
  }

  /** Pricing the next longer blank from its context's back-off `bow`, flagging the context. */
  lemma PriceStep(t0: Table, t: Table, t1: Table, a: Lm, s: set<Gram>, g: Gram, basis: nat, b: nat,
                  p: real, q: real, rest: real)
    requires ValidArpa(a) && (forall x :: EntryOk(t0, a, s, x)) && ShorterRead(t0, a, |g|)
    requires Adding(t0, t, a, g, basis, b) && b < |g| - 1
    requires a.Has([g[0]]) && (NonPositive(a) ==> p == a.Textbook(g[0], g[1..b]))
    requires var c := g[1..b + 1];
             q == p + (if c in t then t[c].backoff.Value() else 0.0)
    requires var c := g[1..b + 1];
             var u := if c in t then t[c := t[c].(backoff := t[c].backoff.SetExtension())] else t;
             t1 == u[g[..b + 1] := Weights(Store(q), BlankEntry(u, g[..b + 1]).backoff, rest)]
    ensures Adding(t0, t1, a, g, basis, b + 1)
    ensures NonPositive(a) ==> q == a.Textbook(g[0], g[1..b + 1])
  {
    hide EntryOk, NonPositive, ValidArpa, ShorterRead, Blank, OldEntry, LeftKept, Flagged, IsContext;
    var c, x, b' := g[1..b + 1], g[..b + 1], b + 1;
    ContextBackoff(t0, t, a, s, g, basis, b);
    BackOffOnce(t0, a, g, b);
    SuffixPricedNonPositive(a, g, b');
    assert x == [g[0]] + c;
    assert x in Prefixes(g, basis) && x in t;
    IsItsContext(g[0], c, t);
    IsItsContext(g[0], c, t1);
    SameContexts(t, t1, g);
    PriceKeepsOld(t0, t, t1, c, x);
    PriceKeepsLeft(t0, t, t1, g, c, x);
    forall k: nat
      ensures Blank(t1, a, g, basis, b', k)
    {
      PricedBlank(t, t1, a, g, basis, b, q, rest, k);
    }
    forall k: nat | basis < k <= b + 1
      ensures Flagged(t1, g, k)
    {
      assert k <= b ==> Flagged(t, g, k);
      FlagsStay(t, t1, g, b, k);
    }
  }

  lemma IsItsContext(w: Word, c: Gram, t: Table)
    requires [w] + c in t
    ensures IsContext(c, t)
  {
  }

  lemma SameContexts(t: Table, t1: Table, g: Gram)
    requires t1.Keys == t.Keys
    ensures IsContext(g, t) ==> IsContext(g, t1)
  {
    if IsContext(g, t) {
      var w: Word :| [w] + g in t;
      assert [w] + g in t1;
    }
  }

  lemma FlagsStay(t: Table, t1: Table, g: Gram, b: nat, k: nat)
    requires b + 1 < |g| && (k <= b ==> Flagged(t, g, k)) && k <= b + 1 && t1.Keys == t.Keys
    requires forall y :: y in t && y != g[..b + 1] && y != g[1..b + 1] ==> t1[y] == t[y]
    requires g[..b + 1] in t && t1[g[..b + 1]].backoff == t[g[..b + 1]].backoff
    requires g[1..b + 1] in t ==> t1[g[1..b + 1]] == t[g[1..b + 1]].(backoff := t[g[1..b + 1]].backoff.SetExtension())
    ensures Flagged(t1, g, k)
  {
  }

  /** What pricing the blank of b + 1 words does to the blank of k words. */
  lemma PricedBlank(t: Table, t1: Table, a: Lm, g: Gram, basis: nat, b: nat, q: real, rest: real, k: nat)
    requires basis <= b && b + 1 < |g| && Blank(t, a, g, basis, b, k) && t1.Keys == t.Keys && IsContext(g[1..b + 1], t)
    requires forall y :: y in t && y != g[..b + 1] && y != g[1..b + 1] ==> t1[y] == t[y]
    requires g[..b + 1] in t && t1[g[..b + 1]] == Weights(Store(q), t[g[..b + 1]].backoff, rest)
    requires g[1..b + 1] in t ==> t1[g[1..b + 1]] == t[g[1..b + 1]].(backoff := t[g[1..b + 1]].backoff.SetExtension())
    requires a.Has([g[0]]) && (NonPositive(a) ==> q == a.Textbook(g[0], g[1..b + 1]) && q <= 0.0)
    ensures Blank(t1, a, g, basis, b + 1, k)
  {
    hide NonPositive;
    if basis < k < |g| {
      assert IsContext(g[..k], t) ==> IsContext(g[..k], t1);
      assert g[..k] == g[1..b + 1] ==> IsContext(g[..k], t1);
    }
  }

  lemma SuffixPricedNonPositive(a: Lm, g: Gram, k: nat)
    requires a.Has(g) && 1 <= k <= |g| && a.Has([g[0]])
    ensures NonPositive(a) ==> a.Textbook(g[0], g[1..k]) <= 0.0
  {
    assert NonPositive(a) ==> SuffixNonPositive(a, g, k);
  }

  /** Flagging a context and rewriting a blank leaves the entries present before as they were. */
  lemma PriceKeepsOld(t0: Table, t: Table, t1: Table, c: Gram, x: Gram)
    requires (forall y :: OldEntry(t0, t, y)) && x !in t0 && IsContext(c, t1) && t1.Keys == t.Keys
    requires forall y :: y in t && y != x && y != c ==> t1[y] == t[y]
    requires c in t && c != x ==> t1[c] == t[c].(backoff := t[c].backoff.SetExtension())
    ensures forall y :: OldEntry(t0, t1, y)
  {
    forall y
      ensures OldEntry(t0, t1, y)
    {
      assert OldEntry(t0, t, y);
      assert IsContext(y, t) ==> IsContext(y, t1);
    }
  }

  lemma PriceKeepsLeft(t0: Table, t: Table, t1: Table, g: Gram, c: Gram, x: Gram)
    requires (forall y :: LeftKept(t0, t, g, y)) && x <= g && t1.Keys == t.Keys
    requires forall y :: y in t && y != x && y != c ==> t1[y] == t[y]
    requires c in t && c != x ==> t1[c] == t[c].(backoff := t[c].backoff.SetExtension())
    ensures forall y :: LeftKept(t0, t1, g, y)
  {
    forall y
      ensures LeftKept(t0, t1, g, y)
    {
      assert LeftKept(t0, t, g, y);
    }
  }

  /** The back-off found for a context is the file's. */
  lemma ContextBackoff(t0: Table, t: Table, a: Lm, s: set<Gram>, g: Gram, basis: nat, b: nat)
    requires ValidArpa(a) && (forall x :: EntryOk(t0, a, s, x)) && ShorterRead(t0, a, |g|)
    requires Adding(t0, t, a, g, basis, b) && b < |g| - 1
    ensures var c := g[1..b + 1];
            (if c in t then t[c].backoff.Value() else 0.0) == a.BackoffOf(c)
  {
    var c := g[1..b + 1];
    assert OldEntry(t0, t, c) && EntryOk(t0, a, s, c);
    if c in t && c !in t0 {
      var k: nat :| basis < k <= |g| && c == g[..k];
      assert Blank(t, a, g, basis, b, k);
    }
  }

  lemma BackOffOnce(t0: Table, a: Lm, g: Gram, b: nat)
    requires ShorterRead(t0, a, |g|) && 1 <= b && b + 1 < |g| && g[..b + 1] !in t0 && a.Has([g[0]])
    ensures a.Textbook(g[0], g[1..b + 1]) == a.BackoffOf(g[1..b + 1]) + a.Textbook(g[0], g[1..b])
  {
    assert [g[0]] + g[1..b + 1] == g[..b + 1];
    assert g[1..b + 1][..b - 1] == g[1..b];
  }

  function BlankEntry(t: Table, x: Gram): Weights {
    if x in t then t[x] else BLANK
  }

  /** Clearing the sign bit of an entry and raising its rest cost. */
  function Marked(t: Table, x: Gram, rest: real): Table
    requires x in t
  {
    t[x := t[x].(prob := t[x].prob.(negative := false), rest := rest)]
  }

  lemma MarkKeepsAdding(t0: Table, t: Table, a: Lm, g: Gram, basis: nat, priced: nat, x: Gram, rest: real)
    requires Adding(t0, t, a, g, basis, priced) && x in t && x <= g && x != g
    ensures Adding(t0, Marked(t, x, rest), a, g, basis, priced)
  {
    var t1 := Marked(t, x, rest);
    forall y
      ensures LeftKept(t0, t1, g, y)
    {
      assert LeftKept(t0, t, g, y);
    }
    forall y
      ensures IsContext(y, t) ==> IsContext(y, t1)
    {
    }
    forall y
      ensures OldEntry(t0, t1, y)
    {
      assert OldEntry(t0, t, y);
    }
    forall k: nat
      ensures Blank(t1, a, g, basis, priced, k)
    {
      assert Blank(t, a, g, basis, priced, k);
    }
    forall k: nat | basis < k <= priced
      ensures Flagged(t1, g, k)
    {
      assert Flagged(t, g, k);
    }
  }

  /** Before marking, only suffixes of `g` miss only suffixes of `g`. */
  lemma RestsBeforeMarking(t0: Table, t: Table, a: Lm, s: set<Gram>, g: Gram, basis: nat)
    requires (forall x :: EntryOk(t0, a, s, x)) && RestsOk(t0) && 1 < |g|
    requires Adding(t0, t, a, g, basis, |g| - 1) && RestsFresh(t0, t, g, basis, |g| - 1)
    ensures RestOpen(t, g, |g|, basis)
  {
    hide EntryOk, Adding, RestsFresh, RestBound, Attained;
    forall x
      ensures Attained(t, x)
    {
      AttainedBeforeMarking(t0, t, a, g, basis, x);
    }
    forall x, y
      ensures RestBound(t, g, |g|, basis, x, y)
    {
      BoundBeforeMarking(t0, t, a, s, g, basis, x, y);
    }
  }

  lemma AttainedBeforeMarking(t0: Table, t: Table, a: Lm, g: Gram, basis: nat, x: Gram)
    requires RestsOk(t0) && 1 < |g|
    requires Adding(t0, t, a, g, basis, |g| - 1) && RestsFresh(t0, t, g, basis, |g| - 1)
    ensures Attained(t, x)
  {
    if x in t0 {
      assert Attained(t0, x) && OldEntry(t0, t, x);
      var y :| y in t0 && x <= y && t0[y].Prob() == t0[x].rest;
      assert OldEntry(t0, t, y);
    } else if x in t {
      NewRest(t0, t, a, g, basis, x);
      assert x <= x;
    }
  }

  lemma BoundBeforeMarking(t0: Table, t: Table, a: Lm, s: set<Gram>, g: Gram, basis: nat, x: Gram, y: Gram)
    requires (forall x :: EntryOk(t0, a, s, x)) && RestsOk(t0) && 1 < |g|
    requires Adding(t0, t, a, g, basis, |g| - 1) && RestsFresh(t0, t, g, basis, |g| - 1)
    ensures RestBound(t, g, |g|, basis, x, y)
  {
    hide Attained, EntryOk, Blank, Flagged, IsContext;
    if x in t && y in t && x <= y {
      if y in t0 {
        if x !in t0 {
          NewIsPrefix(t0, t, a, g, basis, |g| - 1, x);
        }
        NotEmpty(t0, t, a, s, g, basis, |g| - 1, x);
        StoredPrefix(t0, a, s, y, |x|);
        assert y[..|x|] == x;
        assert OldEntry(t0, t, x) && OldEntry(t0, t, y);
      } else {
        NewIsPrefix(t0, t, a, g, basis, |g| - 1, y);
        if |x| == |g| {
          assert x == y == g;
        }
      }
    }
  }

  lemma NotEmpty(t0: Table, t: Table, a: Lm, s: set<Gram>, g: Gram, basis: nat, priced: nat, x: Gram)
    requires (forall y :: EntryOk(t0, a, s, y)) && Adding(t0, t, a, g, basis, priced) && x in t
    ensures 1 <= |x|
  {
    assert EntryOk(t0, a, s, x);
  }

  lemma NewRest(t0: Table, t: Table, a: Lm, g: Gram, basis: nat, x: Gram)
    requires 1 < |g| && Adding(t0, t, a, g, basis, |g| - 1) && RestsFresh(t0, t, g, basis, |g| - 1)
    requires x in t && x !in t0
    ensures t[x].rest == t[x].Prob()
  {
    NewIsPrefix(t0, t, a, g, basis, |g| - 1, x);
    var k := |x|;
    if k == |g| {
      assert x == g;
    } else {
      assert g[..k] in t;
    }
  }

  lemma NewIsPrefix(t0: Table, t: Table, a: Lm, g: Gram, basis: nat, priced: nat, x: Gram)
    requires Adding(t0, t, a, g, basis, priced) && x in t && x !in t0
    ensures basis < |x| <= |g| && x <= g && x == g[..|x|]
  {
  }

  lemma {:induction false} StoredPrefix(t: Table, a: Lm, s: set<Gram>, g: Gram, k: nat)
    requires (forall x :: EntryOk(t, a, s, x)) && g in t && k <= |g|
    ensures 0 < k ==> g[..k] in t && (k < |g| ==> !t[g[..k]].prob.negative)
    decreases |g|
  {
    assert EntryOk(t, a, s, g);
    if k == |g| {
      assert g[..k] == g;
    } else if 0 < k {
      var h := g[..|g| - 1];
      StoredPrefix(t, a, s, h, k);
      assert h[..k] == g[..k];
    }
  }

  /** Raising the rest cost of the next shorter suffix of `g` to that of the longer one settles it. */
  lemma RestStep(t: Table, g: Gram, m: nat, basis: nat)
    requires 1 < m <= |g| && g[..m] in t && g[..m - 1] in t
    requires RestOpen(t, g, m, basis)
    ensures RestOpen(Marked(t, g[..m - 1], Larger(t[g[..m - 1]].rest, t[g[..m]].rest)), g, m - 1, basis)
  {
    var x0, l := g[..m - 1], g[..m];
    var t1 := Marked(t, x0, Larger(t[x0].rest, t[l].rest));
    forall x
      ensures Attained(t1, x)
    {
      assert Attained(t, x);
      if x in t {
        var v := if x == x0 && t[x0].rest < t[l].rest then l else x;
        assert Attained(t, v);
        var y :| y in t && v <= y && t[y].Prob() == t[v].rest;
        assert x <= y && t1[y].Prob() == t[y].Prob();
      }
    }
    var n := m - 1;
    forall x, y
      ensures RestBound(t1, g, n, basis, x, y)
    {
      assert RestBound(t, g, m, basis, x, y);
      assert RestBound(t, g, m, basis, l, y);
      if x in t && y in t && x <= y && |x| == n && y <= g {
        assert x == x0;
        assert x != y ==> l <= y;
      }
    }
  }

  ghost predicate OldRest(t0: Table, t: Table, x: Gram) {
    x in t0 ==> x in t && t[x].rest == t0[x].rest
  }

  /** The longest suffix found has its textbook probability. */
  lemma BasisPrice(t0: Table, t: Table, a: Lm, s: set<Gram>, g: Gram, basis: nat)
    requires (forall x :: EntryOk(t0, a, s, x)) && Adding(t0, t, a, g, basis, basis)
    ensures g[..basis] in t && a.Has([g[0]])
    ensures NonPositive(a) ==> t[g[..basis]].Prob() == a.Textbook(g[0], g[1..basis])
  {
    var x := g[..basis];
    assert OldEntry(t0, t, x) && EntryOk(t0, a, s, x);
    assert x[1..] == g[1..basis];
  }

  /** Going down below the basis: suffixes of `g` of more than k words have the rest costs they need, the last one
      exactly `longer`; shorter ones are untouched. */
  ghost predicate Lowering(t0: Table, t: Table, a: Lm, g: Gram, basis: nat, k: nat, longer: real) {
    && 1 <= k < basis < |g|
    && Adding(t0, t, a, g, basis, |g| - 1)
    && (forall i :: basis <= i < |g| && g[..i] in t ==> !t[g[..i]].prob.negative)
    && RestOpen(t, g, k + 1, basis)
    && (forall x :: |x| <= k ==> OldRest(t0, t, x))
    && g[..k] in t && g[..k + 1] in t && t[g[..k + 1]].rest == longer
  }

  /** The table when marking is done. */
  ghost predicate Settled(t0: Table, t: Table, a: Lm, g: Gram, basis: nat) {
    && 1 <= basis < |g|
    && Adding(t0, t, a, g, basis, |g| - 1)
    && (forall i :: basis <= i < |g| && g[..i] in t ==> !t[g[..i]].prob.negative)
    && RestsOk(t)
  }

  lemma LoweringStep(t0: Table, t: Table, a: Lm, s: set<Gram>, g: Gram, basis: nat, k: nat, longer: real)
    requires (forall x :: EntryOk(t0, a, s, x)) && RestsOk(t0)
    requires Lowering(t0, t, a, g, basis, k, longer)
    ensures var t1 := Marked(t, g[..k], Larger(t[g[..k]].rest, longer));
            && (k == 1 || longer <= t[g[..k]].rest ==> Settled(t0, t1, a, g, basis))
            && (1 < k && t[g[..k]].rest < longer ==> Lowering(t0, t1, a, g, basis, k - 1, longer))
  {
    hide Adding, RestsOk;
    var rest := Larger(t[g[..k]].rest, longer);
    MarkKeepsAdding(t0, t, a, g, basis, |g| - 1, g[..k], rest);
    assert g[..k + 1][..k] == g[..k];
    RestStep(t, g, k + 1, basis);
    if k == 1 {
      AllSettled(t0, Marked(t, g[..k], rest), a, s, g, basis);
    } else if longer <= t[g[..k]].rest {
      CoveredBelow(t0, t, a, s, g, basis, k, longer);
    } else {
      LowerBy1(t0, t, a, s, g, basis, k, longer);
    }
  }

  lemma LowerBy1(t0: Table, t: Table, a: Lm, s: set<Gram>, g: Gram, basis: nat, k: nat, longer: real)
    requires (forall x :: EntryOk(t0, a, s, x))
    requires Lowering(t0, t, a, g, basis, k, longer) && 1 < k && t[g[..k]].rest < longer
    requires var t1 := Marked(t, g[..k], longer);
             Adding(t0, t1, a, g, basis, |g| - 1) && RestOpen(t1, g, k, basis)
    ensures Lowering(t0, Marked(t, g[..k], longer), a, g, basis, k - 1, longer)
  {
    hide Adding, RestOpen;
    var t1 := Marked(t, g[..k], longer);
    PrefixAdded(t0, t, a, s, g, basis, |g| - 1, k - 1);
    forall x | |x| <= k - 1
      ensures OldRest(t0, t1, x)
    {
      assert OldRest(t0, t, x);
    }
  }

  /** Nothing is shorter than a unigram. */
  lemma AllSettled(t0: Table, t: Table, a: Lm, s: set<Gram>, g: Gram, basis: nat)
    requires (forall x :: EntryOk(t0, a, s, x)) && 1 < |g| && Adding(t0, t, a, g, basis, |g| - 1)
    requires RestOpen(t, g, 1, basis)
    ensures RestsOk(t)
  {
    forall x, y | x in t && y in t && x <= y
      ensures t[y].Prob() <= t[x].rest
    {
      assert RestBound(t, g, 1, basis, x, y);
      assert EntryOk(t0, a, s, x);
      if x !in t0 {
        NewIsPrefix(t0, t, a, g, basis, |g| - 1, x);
      }
    }
  }

  /** A suffix of `g` of k words whose rest cost need not be raised covers all shorter suffixes. */
  lemma CoveredBelow(t0: Table, t: Table, a: Lm, s: set<Gram>, g: Gram, basis: nat, k: nat, longer: real)
    requires (forall x :: EntryOk(t0, a, s, x)) && RestsOk(t0)
    requires Lowering(t0, t, a, g, basis, k, longer) && longer <= t[g[..k]].rest
    ensures RestsOk(Marked(t, g[..k], t[g[..k]].rest))
  {
    var t1 := Marked(t, g[..k], t[g[..k]].rest);
    forall x
      ensures Attained(t1, x)
    {
      assert Attained(t, x);
      if x in t {
        var y :| y in t && x <= y && t[y].Prob() == t[x].rest;
        assert t1[y].Prob() == t[y].Prob();
      }
    }
    forall x, y | x in t && y in t && x <= y
      ensures t[y].Prob() <= t[x].rest
    {
      assert RestBound(t, g, k + 1, basis, x, y);
      if |x| <= k && x != y && y <= g && basis < |y| {
        CoveredPair(t0, t, a, s, g, basis, k, longer, x, y);
      }
    }
  }

  lemma CoveredPair(t0: Table, t: Table, a: Lm, s: set<Gram>, g: Gram, basis: nat, k: nat, longer: real,
                    x: Gram, y: Gram)
    requires (forall z :: EntryOk(t0, a, s, z)) && RestsOk(t0)
    requires Lowering(t0, t, a, g, basis, k, longer) && longer <= t[g[..k]].rest
    requires x in t && y in t && x <= y <= g && |x| <= k && basis < |y|
    ensures t[y].Prob() <= t[x].rest
  {
    hide Attained, RestsOk;
    var u, l := g[..k], g[..k + 1];
    assert l <= y && RestBound(t, g, k + 1, basis, l, y);
    assert x == g[..|x|];
    NotEmpty(t0, t, a, s, g, basis, |g| - 1, x);
    OldCovers(t0, a, s, g, basis, |x|, k);
    assert OldRest(t0, t, x) && OldRest(t0, t, u);
  }

  /** Before, shorter suffixes had at least the rest costs of longer ones. */
  lemma OldCovers(t0: Table, a: Lm, s: set<Gram>, g: Gram, basis: nat, i: nat, k: nat)
    requires (forall x :: EntryOk(t0, a, s, x)) && RestsOk(t0)
    requires 1 <= i <= k < basis <= |g| && g[..basis] in t0
    ensures g[..i] in t0 && g[..k] in t0 && t0[g[..k]].rest <= t0[g[..i]].rest
  {
    StoredPrefix(t0, a, s, g[..basis], i);
    StoredPrefix(t0, a, s, g[..basis], k);
    assert g[..basis][..i] == g[..i] && g[..basis][..k] == g[..k];
    assert Attained(t0, g[..k]);
    var z :| z in t0 && g[..k] <= z && t0[z].Prob() == t0[g[..k]].rest;
    assert g[..i] <= z;
  }

  function Larger(x: real, y: real): real {
    if x < y then y else x
  }

  // ----- the record is complete -----

  /** With the blanks marked and the context of `g` in place, the table is that of one more n-gram read. */
  lemma AddedIsBuilt(t0: Table, t: Table, a: Lm, s: set<Gram>, g: Gram, basis: nat, maxRest: bool)
    requires Built(t0, a, s, maxRest) && ShorterRead(t0, a, |g|)
    requires Adding(t0, t, a, g, basis, |g|)
    requires forall k :: basis <= k < |g| && g[..k] in t ==> !t[g[..k]].prob.negative
    requires g[1..] in t
    requires maxRest ==> RestsOk(t)
    ensures Built(t, a, s + {g}, maxRest)
  {
    var s1 := s + {g};
    assert LineOk(a, g);
    forall x
      ensures EntryOk(t, a, s1, x)
    {
      if x in t0 {
        OldEntryOk(t0, t, a, s, g, basis, x);
      } else if x in t {
        NewIsPrefix(t0, t, a, g, basis, |g|, x);
        NewEntryOk(t0, t, a, s, g, basis, |x|);
      }
    }
    forall x
      ensures LeftOk(t, a, x)
    {
      LeftStaysOk(t0, t, a, s, g, basis, x);
    }
    assert forall x :: x in s ==> OldEntry(t0, t, x);
  }

  /** The sign bits after one more n-gram: its suffixes are extended, it is not, and for the rest nothing changes. */
  lemma LeftStaysOk(t0: Table, t: Table, a: Lm, s: set<Gram>, g: Gram, basis: nat, x: Gram)
    requires (forall y :: EntryOk(t0, a, s, y)) && (forall y :: LeftOk(t0, a, y)) && Adding(t0, t, a, g, basis, |g|)
    requires forall k :: basis <= k < |g| && g[..k] in t ==> !t[g[..k]].prob.negative
    ensures LeftOk(t, a, x)
  {
    hide EntryOk, OldEntry, Blank, Flagged, LeftKept, LeftOk, Extended;
    if x in t && x != [] {
      if x == g {
        LeftOfNew(t0, t, a, s, g, basis);
      } else if x <= g {
        assert x == g[..|x|];
        LeftOfSuffix(t0, t, a, s, g, basis, |x|);
      } else {
        LeftOfOther(t0, t, a, g, basis, x);
      }
    } else {
      LeftOfNothing(t, a, x);
    }
  }

  lemma LeftOfNothing(t: Table, a: Lm, x: Gram)
    requires x !in t || x == []
    ensures LeftOk(t, a, x)
  {
  }

  lemma LeftOfNew(t0: Table, t: Table, a: Lm, s: set<Gram>, g: Gram, basis: nat)
    requires (forall y :: EntryOk(t0, a, s, y)) && Adding(t0, t, a, g, basis, |g|)
    ensures LeftOk(t, a, g)
  {
    hide OldEntry, Blank, Flagged, LeftKept, NonPositive, Covered;
    assert g[..|g|] == g;
    forall w: Word
      ensures g + [w] !in t
    {
      assert EntryOk(t0, a, s, g + [w]) && (g + [w])[..|g|] == g;
    }
  }

  lemma LeftOfSuffix(t0: Table, t: Table, a: Lm, s: set<Gram>, g: Gram, basis: nat, k: nat)
    requires (forall y :: EntryOk(t0, a, s, y)) && Adding(t0, t, a, g, basis, |g|) && 1 <= k < |g|
    requires forall k :: basis <= k < |g| && g[..k] in t ==> !t[g[..k]].prob.negative
    ensures LeftOk(t, a, g[..k])
  {
    hide EntryOk, Blank, Flagged, LeftKept;
    PrefixAdded(t0, t, a, s, g, basis, |g|, k);
    PrefixAdded(t0, t, a, s, g, basis, |g|, k + 1);
    assert g[..k] + [g[k]] == g[..k + 1];
    if k < basis {
      StoredPrefix(t0, a, s, g[..basis], k);
      assert g[..basis][..k] == g[..k] && OldEntry(t0, t, g[..k]);
    }
  }

  lemma LeftOfOther(t0: Table, t: Table, a: Lm, g: Gram, basis: nat, x: Gram)
    requires (forall y :: LeftOk(t0, a, y)) && Adding(t0, t, a, g, basis, |g|) && x in t && !(x <= g)
    ensures LeftOk(t, a, x)
  {
    hide Blank, Flagged;
    if x !in t0 {
      NewIsPrefix(t0, t, a, g, basis, |g|, x);
    }
    assert LeftOk(t0, a, x) && LeftKept(t0, t, g, x);
    forall w: Word
      ensures x + [w] in t <==> x + [w] in t0
    {
      assert OldEntry(t0, t, x + [w]);
      assert x + [w] <= g ==> x <= g;
      if x + [w] in t && x + [w] !in t0 {
        NewIsPrefix(t0, t, a, g, basis, |g|, x + [w]);
      }
    }
  }

  lemma OldEntryOk(t0: Table, t: Table, a: Lm, s: set<Gram>, g: Gram, basis: nat, x: Gram)
    requires (forall y :: EntryOk(t0, a, s, y)) && Adding(t0, t, a, g, basis, |g|) && x in t0
    ensures EntryOk(t, a, s + {g}, x)
  {
    assert OldEntry(t0, t, x) && EntryOk(t0, a, s, x);
    var y :| y in s && x <= y;
    assert y in s + {g};
    if IsContext(x, t0) {
      var w: Word :| [w] + x in t0;
      assert OldEntry(t0, t, [w] + x);
    }
    if 1 < |x| {
      assert OldEntry(t0, t, x[..|x| - 1]) && OldEntry(t0, t, x[1..]);
    }
  }

  lemma NewEntryOk(t0: Table, t: Table, a: Lm, s: set<Gram>, g: Gram, basis: nat, k: nat)
    requires ValidArpa(a) && (forall y :: EntryOk(t0, a, s, y)) && ShorterRead(t0, a, |g|)
    requires Adding(t0, t, a, g, basis, |g|) && basis < k <= |g|
    requires forall i :: basis <= i < |g| && g[..i] in t ==> !t[g[..i]].prob.negative
    requires g[1..] in t
    ensures EntryOk(t, a, s + {g}, g[..k])
  {
    var x := g[..k];
    assert LineOk(a, g);
    assert x <= g && g in s + {g};
    PrefixAdded(t0, t, a, s, g, basis, |g|, k - 1);
    assert x[..k - 1] == g[..k - 1];
    ContextAdded(t0, t, a, s, g, basis, k);
    assert x[1..] == g[1..k];
    assert Flagged(t, g, k);
    if k == |g| {
      assert x == g && [g[0]] + g[1..] == g;
    } else {
      assert Blank(t, a, g, basis, |g|, k);
    }
  }

  lemma PrefixAdded(t0: Table, t: Table, a: Lm, s: set<Gram>, g: Gram, basis: nat, priced: nat, k: nat)
    requires (forall y :: EntryOk(t0, a, s, y)) && Adding(t0, t, a, g, basis, priced)
    requires 1 <= k <= |g|
    ensures g[..k] in t
  {
    if k <= basis {
      StoredPrefix(t0, a, s, g[..basis], k);
      assert g[..basis][..k] == g[..k];
      assert OldEntry(t0, t, g[..k]);
    } else {
      assert g[..k] in Prefixes(g, basis);
    }
  }

  /** The contexts of all suffixes of `g` are stored once that of `g` is. */
  lemma {:induction false} ContextAdded(t0: Table, t: Table, a: Lm, s: set<Gram>, g: Gram, basis: nat, k: nat)
    requires (forall y :: EntryOk(t0, a, s, y)) && Adding(t0, t, a, g, basis, |g|)
    requires 1 < k <= |g| && g[1..] in t
    ensures g[1..k] in t
    decreases |g| - k
  {
    if k == |g| {
      assert g[1..k] == g[1..];
    } else {
      ContextAdded(t0, t, a, s, g, basis, k + 1);
      var c := g[1..k + 1];
      assert c[..k - 1] == g[1..k];
      if c in t0 {
        StoredPrefix(t0, a, s, c, k - 1);
        assert OldEntry(t0, t, g[1..k]);
      } else {
        NewIsPrefix(t0, t, a, g, basis, |g|, c);
        assert g[1..k] == g[..k - 1];
        PrefixAdded(t0, t, a, s, g, basis, |g|, k - 1);
      }
    }
  }

  function GramsOf(lines: seq<Record>): set<Gram> {
    set i | 0 <= i < |lines| :: lines[i].gram
  }

  ghost predicate LineMatches(a: Lm, n: nat, line: Record) {
    && a.Has(line.gram) && |line.gram| == n
    && line.prob == a.table[line.gram].prob && line.backoff == a.table[line.gram].backoff
  }

  /** The n-grams of the file of up to n words. */
  ghost function UpTo(a: Lm, n: nat): set<Gram> {
    set g | g in a.table && |g| <= n
  }

  /** `lines` are the n-grams of order n, each once. */
  ghost predicate Lists(a: Lm, n: nat, lines: seq<Record>) {
    && 0 < n
    && (forall i :: 0 <= i < |lines| ==> LineMatches(a, n, lines[i]))
    && (forall i, j :: 0 <= i < j < |lines| ==> lines[i].gram != lines[j].gram)
    && UpTo(a, n) == UpTo(a, n - 1) + GramsOf(lines)
  }

  /** Every n-gram's context is listed. */
  ghost predicate ContextsIn(a: Lm) {
    forall g :: a.Has(g) && 1 < |g| ==> a.Has(g[1..])
  }

  /** The context of the i-th n-gram of order n has been met by then: it is a suffix of an n-gram read so far. */
  ghost predicate ContextMet(a: Lm, n: nat, lines: seq<Record>, i: nat)
    requires 2 <= n && i < |lines|
  {
    lines[i].gram != [] && Covered(lines[i].gram[1..], UpTo(a, n - 1) + GramsOf(lines[..i + 1]))
  }

  ghost predicate ContextsMet(a: Lm, n: nat, lines: seq<Record>)
    requires 2 <= n
  {
    forall i :: 0 <= i < |lines| ==> ContextMet(a, n, lines, i)
  }

  ghost predicate FileLoads(a: Lm, file: seq<seq<Record>>)
    requires |file| == a.order
  {
    forall i :: 1 <= i < |file| ==> ContextsMet(a, i + 1, file[i])
  }

  lemma MetIs(a: Lm, n: nat, lines: seq<Record>, i: nat)
    requires 2 <= n && i < |lines|
    ensures ContextMet(a, n, lines, i) <==>
            lines[i].gram != [] && Covered(lines[i].gram[1..], UpTo(a, n - 1) + GramsOf(lines[..i + 1]))
  {
  }

  /** A file that lists all contexts loads. */
  lemma ListedContextsLoad(a: Lm, file: seq<seq<Record>>)
    requires |file| == a.order && (forall i :: 0 <= i < a.order ==> Lists(a, i + 1, file[i]))
    ensures ContextsIn(a) ==> FileLoads(a, file)
  {
    if ContextsIn(a) {
      forall i | 1 <= i < |file|
        ensures ContextsMet(a, i + 1, file[i])
      {
        ListedAreMet(a, i + 1, file[i]);
      }
    }
  }

  lemma ListedAreMet(a: Lm, n: nat, lines: seq<Record>)
    requires 2 <= n && Lists(a, n, lines) && ContextsIn(a)
    ensures ContextsMet(a, n, lines)
  {
    forall i | 0 <= i < |lines|
      ensures ContextMet(a, n, lines, i)
    {
      assert LineMatches(a, n, lines[i]);
      var c := lines[i].gram[1..];
      assert c in UpTo(a, n - 1) && c <= c;
    }
  }

  function NoBigramFile(): Lm {
    Lm(3, 1, false, map[[0] := Entry(0.0, NoExtension, 0.0, true), [0, 0, 0] := Entry(0.0, NoExtension, 0.0, true)])
  }

  function NoBigramLines(): seq<seq<Record>> {
    [[Record([0], 0.0, NoExtension)], [], [Record([0, 0, 0], 0.0, NoExtension)]]
  }

  lemma NoBigramFacts()
    ensures var a, lines := NoBigramFile(), NoBigramLines();
            && UpTo(a, 0) == {} && UpTo(a, 1) == UpTo(a, 2) == {[0]} && UpTo(a, 3) == {[0], [0, 0, 0]}
            && GramsOf(lines[0]) == {[0]} && GramsOf(lines[1]) == {} && GramsOf(lines[2]) == {[0, 0, 0]}
  {
    var lines: seq<seq<Record>> := NoBigramLines();
    assert lines[0][0].gram == [0] && lines[2][0].gram == [0, 0, 0];
  }

  /** So does one that does not list them, if they are added as blanks in time: here "0 0" is for "0 0 0" itself. */
  lemma BlankSuppliesContext()
    ensures var a, lines := NoBigramFile(), NoBigramLines();
            && ValidArpa(a) && (forall i :: 0 <= i < 3 ==> Lists(a, i + 1, lines[i])) && !ContextsIn(a) && FileLoads(a, lines)
  {
    hide UpTo, GramsOf;
    var a, lines := NoBigramFile(), NoBigramLines();
    NoBigramFacts();
    assert a.Has([0, 0, 0]) && [0, 0, 0][1..] == [0, 0] && !a.Has([0, 0]);
    assert lines[2][..1] == lines[2] && [0, 0] <= [0, 0, 0] && [0, 0, 0] in UpTo(a, 2) + GramsOf(lines[2][..1]);
    assert ContextMet(a, 3, lines[2], 0);
  }

  /** An n-gram not read yet is not in the table, and all shorter ones are. */
  lemma Unread(t: Table, a: Lm, lines: seq<Record>, n: nat, i: nat, s: set<Gram>)
    requires 2 <= n && Lists(a, n, lines) && i < |lines|
    requires s == UpTo(a, n - 1) + GramsOf(lines[..i]) && s <= t.Keys
    requires forall x :: EntryOk(t, a, s, x)
    ensures LineMatches(a, n, lines[i]) && lines[i].gram !in t && ShorterRead(t, a, n)
  {
    var g := lines[i].gram;
    assert EntryOk(t, a, s, g);
    assert LineMatches(a, n, lines[i]);
    if g in t {
      var x :| x in s && g <= x;
      NotListedBefore(a, lines, n, i, x);
      assert false;
    }
    forall x | a.Has(x) && |x| < n
      ensures x in t
    {
      assert x in UpTo(a, n - 1);
    }
  }

  lemma NotListedBefore(a: Lm, lines: seq<Record>, n: nat, i: nat, x: Gram)
    requires 0 < n && Lists(a, n, lines) && i < |lines|
    requires x in UpTo(a, n - 1) + GramsOf(lines[..i])
    ensures !(lines[i].gram <= x)
  {
    assert LineMatches(a, n, lines[i]);
    if x in GramsOf(lines[..i]) {
      var j :| 0 <= j < i && lines[..i][j].gram == x;
      assert LineMatches(a, n, lines[j]);
    }
  }

  lemma GramsStep(lines: seq<Record>, i: nat)
    requires i < |lines|
    ensures GramsOf(lines[..i + 1]) == GramsOf(lines[..i]) + {lines[i].gram}
  {
    var a, b := GramsOf(lines[..i + 1]), GramsOf(lines[..i]) + {lines[i].gram};
    forall g | g in a
      ensures g in b
    {
      var j :| 0 <= j < i + 1 && lines[..i + 1][j].gram == g;
      assert j < i ==> lines[..i][j].gram == g;
    }
    forall g | g in b
      ensures g in a
    {
      if g == lines[i].gram {
        assert lines[..i + 1][i].gram == g;
      } else {
        var j :| 0 <= j < i && lines[..i][j].gram == g;
        assert lines[..i + 1][j].gram == g;
      }
    }
  }

  function FlagContext(t: Table, c: Gram): Table
    requires c in t
  {
    t[c := t[c].(backoff := t[c].backoff.SetExtension())]
  }

  /** Flagging the context of `g` itself. */
  lemma FlagStep(t0: Table, t: Table, a: Lm, g: Gram, basis: nat, priced: nat)
    requires Adding(t0, t, a, g, basis, priced) && priced == |g| - 1 && g[1..] in t
    ensures Adding(t0, FlagContext(t, g[1..]), a, g, basis, |g|)
  {
    var c, n := g[1..], |g|;
    var t1 := FlagContext(t, c);
    assert [g[0]] + c == g && g[1..n] == c;
    assert IsContext(c, t1);
    assert forall y :: IsContext(y, t) ==> IsContext(y, t1);
    forall y
      ensures OldEntry(t0, t1, y) && LeftKept(t0, t1, g, y)
    {
      assert OldEntry(t0, t, y) && LeftKept(t0, t, g, y);
    }
    forall k: nat
      ensures Blank(t1, a, g, basis, n, k)
    {
      assert Blank(t, a, g, basis, priced, k);
    }
    forall k: nat | basis < k <= n
      ensures Flagged(t1, g, k)
    {
      assert k < n ==> Flagged(t, g, k);
    }
  }

  lemma FlagKeepsRests(t: Table, c: Gram)
    requires RestsOk(t) && c in t
    ensures RestsOk(FlagContext(t, c))
  {
    var t1 := FlagContext(t, c);
    forall x
      ensures Attained(t1, x)
    {
      assert Attained(t, x);
      if x in t {
        var y :| y in t && x <= y && t[y].Prob() == t[x].rest;
        assert t1[y].Prob() == t[y].Prob();
      }
    }
  }

  class HashedSearch {
    const order: nat
    const maxRest: bool
    var table: Table

    constructor (n: nat, rest: bool)
      ensures order == n && maxRest == rest && table == map[]
    {
      order, maxRest, table := n, rest, map[];
    }

    /** Goes back to the longest right-aligned entry of `g`, inserting blanks for the missing ones on the way. */
    method FindLower(g: Gram) returns (between: seq<Gram>, ghost basis: nat)
      requires 2 <= |g| && g[..1] in table
      modifies this
      ensures 1 <= basis < |g| && |between| == |g| - basis
      ensures forall i :: 0 <= i < |between| ==> between[i] == g[..|g| - 1 - i]
      ensures g[..basis] in old(table) && (forall k :: basis < k < |g| ==> g[..k] !in old(table))
      ensures table.Keys == old(table).Keys + (Prefixes(g, basis) - {g})
      ensures forall x :: x in old(table) ==> table[x] == old(table)[x]
      ensures forall k :: basis < k < |g| ==> g[..k] in table && table[g[..k]] == BLANK
    {
      between := [];
      var lower := |g| - 1;
      assert g[..|g|] == g && Prefixes(g, lower) == {g};
      while true
        invariant 1 <= lower < |g| && |between| == |g| - 1 - lower
        invariant forall i :: 0 <= i < |between| ==> between[i] == g[..|g| - 1 - i]
        invariant forall k :: lower < k < |g| ==> g[..k] !in old(table)
        invariant table.Keys == old(table).Keys + (Prefixes(g, lower) - {g})
        invariant forall x :: x in old(table) ==> table[x] == old(table)[x]
        invariant forall k :: lower < k < |g| ==> g[..k] in table && table[g[..k]] == BLANK
        decreases lower
      {
        if lower == 1 {
          return between + [g[..1]], 1;
        }
        var key := g[..lower];
        var found := key in table;
        if !found {
          table := table[key := BLANK];
        }
        between := between + [key];
        if found {
          assert between[|g| - 1 - lower] == g[..lower];
          return between, lower;
        }
        lower := lower - 1;
      }
    }

    /** The rest cost an entry starts with: its probability, where rest costs are kept at all. */
    function SetRest(w: Weights): Weights {
      if maxRest then w.(rest := w.Prob()) else w
    }

    /** Notes that the entry extends to the left by something with rest cost `to`. Returns whether its own rest cost
        had to be raised. */
    method MarkExtends(x: Gram, to: real) returns (raised: bool)
      requires x in table
      modifies this
      ensures table == Marked(old(table), x, if maxRest then Larger(old(table)[x].rest, to) else old(table)[x].rest)
      ensures raised == (maxRest && old(table)[x].rest < to)
    {
      var w := table[x];
      w := w.(prob := w.prob.(negative := false));
      raised := maxRest && w.rest < to;
      if raised {
        w := w.(rest := to);
      }
      table := table[x := w];
    }

    /** Everything a record needs before and while it is added, apart from the table itself. */
    ghost predicate Context(t0: Table, a: Lm, s: set<Gram>, g: Gram, basis: nat) {
      && Built(t0, a, s, maxRest) && ShorterRead(t0, a, |g|)
      && a.order == order && a.Has(g) && 1 < |g| && a.ValidWords(g)
      && 1 <= basis < |g|
    }

    lemma BlankThere(t0: Table, t: Table, a: Lm, g: Gram, basis: nat, b: nat)
      requires Adding(t0, t, a, g, basis, b) && b < |g| - 1
      ensures g[..b + 1] in t && g[..b + 1] !in t0 && 1 <= basis <= b
    {
      assert g[..b + 1] in Prefixes(g, basis);
    }

    lemma FreshStep(t0: Table, t: Table, t1: Table, g: Gram, basis: nat, b: nat)
      requires maxRest ==> RestsFresh(t0, t, g, basis, b)
      requires basis <= b < |g| - 1 && t1.Keys == t.Keys && g[..b + 1] in t && g[..b + 1] !in t0
      requires forall x :: x in t && x != g[..b + 1] ==> t1[x].rest == t[x].rest && t1[x].prob == t[x].prob
      requires maxRest ==> t1[g[..b + 1]].rest == t1[g[..b + 1]].Prob()
      ensures maxRest ==> RestsFresh(t0, t1, g, basis, b + 1)
    {
    }

    /** The values of a missing suffix from its context: probability of the next shorter one plus back-off. */
    method PriceBlank(g: Gram, b: nat, prob: real, ghost t0: Table, ghost a: Lm, ghost s: set<Gram>, ghost basis: nat)
      returns (next: real)
      requires Context(t0, a, s, g, basis) && b < |g| - 1
      requires Adding(t0, table, a, g, basis, b) && (maxRest ==> RestsFresh(t0, table, g, basis, b))
      requires NonPositive(a) ==> prob == a.Textbook(g[0], g[1..b])
      modifies this
      ensures Adding(t0, table, a, g, basis, b + 1)
      ensures maxRest ==> RestsFresh(t0, table, g, basis, b + 1)
      ensures NonPositive(a) ==> next == a.Textbook(g[0], g[1..b + 1])
    {
      hide RestOpen, RestsOk, NonPositive, Covered, OldEntry, Blank, Flagged, EntryOk, ValidArpa, ShorterRead, IsContext,
        RestsFresh;
      FirstWordRead(t0, a, s, g);
      ghost var t := table;
      next := prob;
      var context, blank := g[1..b + 1], g[..b + 1];
      if context in table {
        table := table[context := table[context].(backoff := table[context].backoff.SetExtension())];
        next := next + table[context].backoff.Value();
      }
      BlankThere(t0, t, a, g, basis, b);
      table := table[blank := SetRest(table[blank].(prob := Store(next)))];
      FreshStep(t0, t, table, g, basis, b);
      PriceStep(t0, t, table, a, s, g, basis, b, prob, next, table[blank].rest);
    }

    /** Gives the blanks found on the way down their probabilities, shortest first, each from the one before and
        the back-off of its context. A context that is missing charges nothing. */
    method PriceBlanks(g: Gram, ghost t0: Table, ghost a: Lm, ghost s: set<Gram>, basis: nat)
      requires Context(t0, a, s, g, basis)
      requires Adding(t0, table, a, g, basis, basis) && (maxRest ==> RestsFresh(t0, table, g, basis, basis))
      modifies this
      ensures Adding(t0, table, a, g, basis, |g| - 1)
      ensures maxRest ==> RestsFresh(t0, table, g, basis, |g| - 1)
    {
      hide Adding, RestsFresh, EntryOk, LeftOk, NonPositive, ValidArpa, ShorterRead, RestsOk;
      BasisPrice(t0, table, a, s, g, basis);
      var prob, b := table[g[..basis]].Prob(), basis;
      while b < |g| - 1
        invariant basis <= b <= |g| - 1
        invariant Adding(t0, table, a, g, basis, b) && (maxRest ==> RestsFresh(t0, table, g, basis, b))
        invariant NonPositive(a) ==> prob == a.Textbook(g[0], g[1..b])
      {
        prob := PriceBlank(g, b, prob, t0, a, s, basis);
        b := b + 1;
      }
    }

    /** The suffixes of `g` of at least m words know that they extend to the left. */
    ghost predicate Marking(t0: Table, t: Table, a: Lm, g: Gram, basis: nat, m: nat) {
      && 1 <= basis < |g| && basis <= m <= |g|
      && Adding(t0, t, a, g, basis, |g| - 1)
      && (forall k :: m <= k < |g| && g[..k] in t ==> !t[g[..k]].prob.negative)
      && (maxRest ==> RestOpen(t, g, m, basis))
      && (maxRest ==> forall x :: |x| < basis ==> OldRest(t0, t, x))
    }

    lemma StartMarking(t0: Table, t: Table, a: Lm, s: set<Gram>, g: Gram, basis: nat)
      requires Context(t0, a, s, g, basis)
      requires Adding(t0, t, a, g, basis, |g| - 1) && (maxRest ==> RestsFresh(t0, t, g, basis, |g| - 1))
      ensures Marking(t0, t, a, g, basis, |g|)
    {
      if maxRest {
        RestsBeforeMarking(t0, t, a, s, g, basis);
        forall x | |x| < basis
          ensures OldRest(t0, t, x)
        {
          assert OldEntry(t0, t, x);
        }
      }
    }

    lemma MarkingStep(t0: Table, t: Table, a: Lm, s: set<Gram>, g: Gram, basis: nat, m: nat, rest: real)
      requires Context(t0, a, s, g, basis) && Marking(t0, t, a, g, basis, m) && basis < m
      requires g[..m] in t && g[..m - 1] in t
      requires rest == if maxRest then Larger(t[g[..m - 1]].rest, t[g[..m]].rest) else t[g[..m - 1]].rest
      ensures Marking(t0, Marked(t, g[..m - 1], rest), a, g, basis, m - 1)
    {
      hide Adding, RestOpen, Built, ShorterRead;
      MarkKeepsAdding(t0, t, a, g, basis, |g| - 1, g[..m - 1], rest);
      if maxRest {
        RestStep(t, g, m, basis);
      }
    }

    /** Adjusts the entries between the new n-gram `g` and its longest suffix found: blanks are priced, and each
        entry, longest first, learns that it extends to the left. */
    method AdjustLower(g: Gram, between: seq<Gram>, ghost t0: Table, ghost a: Lm, ghost s: set<Gram>)
      requires between != [] && |between| < |g|
      requires forall i :: 0 <= i < |between| ==> between[i] == g[..|g| - 1 - i]
      requires var basis := |g| - |between|;
               && Context(t0, a, s, g, basis)
               && Adding(t0, table, a, g, basis, basis) && (maxRest ==> RestsFresh(t0, table, g, basis, basis))
      modifies this
      ensures Marking(t0, table, a, g, |g| - |between|, |g| - |between|)
    {
      hide Adding, RestsFresh, RestOpen, OldRest, Built;
      var basis := |g| - |between|;
      if 1 < |between| {
        PriceBlanks(g, t0, a, s, basis);
      }
      StartMarking(t0, table, a, s, g, basis);
      MarkBetween(g, between, t0, a, s);
    }

    /** Marks the entries from the longest to the basis. */
    method MarkBetween(g: Gram, between: seq<Gram>, ghost t0: Table, ghost a: Lm, ghost s: set<Gram>)
      requires between != [] && |between| < |g|
      requires forall i :: 0 <= i < |between| ==> between[i] == g[..|g| - 1 - i]
      requires Context(t0, a, s, g, |g| - |between|) && Marking(t0, table, a, g, |g| - |between|, |g|)
      modifies this
      ensures Marking(t0, table, a, g, |g| - |between|, |g| - |between|)
    {
      hide Adding, RestsFresh, RestOpen, OldRest, RestsOk, EntryOk, ValidArpa, ShorterRead;
      ghost var basis := |g| - |between|;
      var i, longer := 0, g;
      assert g[..|g|] == g;
      while i < |between|
        invariant 0 <= i <= |between| && longer == g[..|g| - i]
        invariant Marking(t0, table, a, g, basis, |g| - i)
      {
        var lower := between[i];
        PrefixAdded(t0, table, a, s, g, basis, |g| - 1, |g| - i);
        PrefixAdded(t0, table, a, s, g, basis, |g| - 1, |g| - i - 1);
        MarkingStep(t0, table, a, s, g, basis, |g| - i,
                    if maxRest then Larger(table[lower].rest, table[longer].rest) else table[lower].rest);
        var raised := MarkExtends(lower, table[longer].rest);
        longer := lower;
        i := i + 1;
      }
    }

    lemma StartLowering(t0: Table, t: Table, a: Lm, s: set<Gram>, g: Gram, startOrder: nat)
      requires maxRest && startOrder + 1 < |g| && Context(t0, a, s, g, startOrder + 1)
      requires Marking(t0, t, a, g, startOrder + 1, startOrder + 1) && g[..startOrder + 1] in t
      ensures if startOrder == 0 then Settled(t0, t, a, g, 1)
              else Lowering(t0, t, a, g, startOrder + 1, startOrder, t[g[..startOrder + 1]].rest)
    {
      hide Adding, RestOpen, RestsOk, OldRest, EntryOk, ValidArpa, ShorterRead;
      if startOrder == 0 {
        AllSettled(t0, t, a, s, g, 1);
      } else {
        PrefixAdded(t0, t, a, s, g, startOrder + 1, |g| - 1, startOrder);
      }
    }

    /** Marks the entries below the basis as long as their rest costs have to be raised. The first one that need
        not be raised already covers all shorter ones. */
    method MarkLower(g: Gram, startOrder: nat, longer: real, ghost t0: Table, ghost a: Lm, ghost s: set<Gram>)
      requires maxRest && startOrder + 1 < |g| && Context(t0, a, s, g, startOrder + 1)
      requires Marking(t0, table, a, g, startOrder + 1, startOrder + 1)
      requires g[..startOrder + 1] in table && longer == table[g[..startOrder + 1]].rest
      modifies this
      ensures Settled(t0, table, a, g, startOrder + 1)
    {
      hide Adding, Marking, RestOpen, OldRest, Settled, RestsOk;
      ghost var basis := startOrder + 1;
      StartLowering(t0, table, a, s, g, startOrder);
      if startOrder == 0 {
        return;
      }
      var k := startOrder;
      while true
        invariant 1 <= k <= startOrder
        invariant Lowering(t0, table, a, g, basis, k, longer)
        decreases k
      {
        LoweringStep(t0, table, a, s, g, basis, k, longer);
        var raised := MarkExtends(g[..k], longer);
        if k == 1 {
          return;
        }
        if !raised {
          return;
        }
        k := k - 1;
      }
    }

    /** Flags the context of a new n-gram, so that it is kept in right states. The context has to be there. */
    method Activate(g: Gram) returns (ok: bool)
      requires 1 < |g|
      modifies this
      ensures ok == (g[1..] in old(table))
      ensures table == if ok then FlagContext(old(table), g[1..]) else old(table)
    {
      var context := g[1..];
      ok := context in table;
      if ok {
        table := table[context := table[context].(backoff := table[context].backoff.SetExtension())];
      }
    }

    /** Adds one n-gram of the file. Fails if its context is not there. */
    method AddNGram(line: Record, ghost a: Lm, ghost s: set<Gram>) returns (ok: bool)
      requires Built(table, a, s, maxRest) && ShorterRead(table, a, |line.gram|) && a.order == order
      requires 1 < |line.gram| && a.Has(line.gram) && line.gram !in table
      requires line.prob == a.table[line.gram].prob && line.backoff == a.table[line.gram].backoff
      modifies this
      ensures ok ==> Built(table, a, s + {line.gram}, maxRest)
      ensures ok <==> Covered(line.gram[1..], s + {line.gram})
    {
      hide Adding, RestsOk, RestOpen, EntryOk, NonPositive, Covered, IsContext, LineOk, ShorterRead;
      var g := line.gram;
      ghost var t0 := table;
      FirstWordRead(table, a, s, g);
      // Initially the sign bit is on, indicating that it does not extend left.
      table := table[g := SetRest(Weights(Signed(true, Abs(line.prob)), line.backoff, 0.0))];
      var between;
      ghost var basis;
      between, basis := FindLower(g);
      assert g[..|g|] == g && g in Prefixes(g, basis);
      Inserted(t0, table, a, s, g, basis, table[g]);
      AdjustLower(g, between, t0, a, s);
      BasisStored(t0, table, a, g, basis);
      if maxRest {
        var lowest := between[|between| - 1];
        assert lowest == g[..basis];
        MarkLower(g, |g| - |between| - 1, table[lowest].rest, t0, a, s);
      }
      FinishMarking(t0, table, a, g, basis);
      ghost var t := table;
      ContextFoundIff(t0, t, a, s, g, basis);
      ok := Activate(g);
      if ok {
        RecordDone(t0, t, a, s, g, basis);
      }
    }

    /** A context is found if it is a suffix of an n-gram read so far, so that it is listed or has been added as a blank. */
    lemma ContextFoundIff(t0: Table, t: Table, a: Lm, s: set<Gram>, g: Gram, basis: nat)
      requires Built(t0, a, s, maxRest) && AllMarked(t0, t, a, g, basis) && 1 < |g|
      ensures g[1..] in t <==> Covered(g[1..], s + {g})
    {
      hide RestsOk, ValidArpa, OldEntry, Blank;
      var c := g[1..];
      if c in t {
        if c in t0 {
          assert EntryOk(t0, a, s, c);
          var x :| x in s && c <= x;
          assert x in s + {g};
        } else {
          NewIsPrefix(t0, t, a, g, basis, |g| - 1, c);
        }
      }
      if Covered(c, s + {g}) {
        var x :| x in s + {g} && c <= x;
        assert c == x[..|c|];
        if x in s {
          StoredPrefix(t0, a, s, x, |c|);
        } else {
          PrefixAdded(t0, t, a, s, g, basis, |g| - 1, |c|);
        }
      }
    }

    lemma BasisStored(t0: Table, t: Table, a: Lm, g: Gram, basis: nat)
      requires Marking(t0, t, a, g, basis, basis)
      ensures g[..basis] in t
    {
      assert OldEntry(t0, t, g[..basis]);
    }

    /** With or without rest costs, all marks are in place. */
    ghost predicate AllMarked(t0: Table, t: Table, a: Lm, g: Gram, basis: nat) {
      && 1 <= basis < |g|
      && Adding(t0, t, a, g, basis, |g| - 1)
      && (forall k :: basis <= k < |g| && g[..k] in t ==> !t[g[..k]].prob.negative)
      && (maxRest ==> RestsOk(t))
    }

    lemma FinishMarking(t0: Table, t: Table, a: Lm, g: Gram, basis: nat)
      requires if maxRest then Settled(t0, t, a, g, basis) else Marking(t0, t, a, g, basis, basis)
      ensures AllMarked(t0, t, a, g, basis) && t0.Keys <= t.Keys
    {
    }

    lemma RecordDone(t0: Table, t: Table, a: Lm, s: set<Gram>, g: Gram, basis: nat)
      requires Context(t0, a, s, g, basis) && AllMarked(t0, t, a, g, basis) && g[1..] in t
      ensures Built(FlagContext(t, g[1..]), a, s + {g}, maxRest)
    {
      FlagStep(t0, t, a, g, basis, |g| - 1);
      if maxRest {
        FlagKeepsRests(t, g[1..]);
      }
      AddedIsBuilt(t0, FlagContext(t, g[1..]), a, s, g, basis, maxRest);
    }

    /** Reads the n-grams of one order. */
    method ReadNGrams(n: nat, lines: seq<Record>, ghost a: Lm) returns (ok: bool)
      requires 2 <= n <= a.order == order && Lists(a, n, lines)
      requires Built(table, a, UpTo(a, n - 1), maxRest)
      modifies this
      ensures ok ==> Built(table, a, UpTo(a, n), maxRest)
      ensures ok <==> ContextsMet(a, n, lines)
    {
      hide EntryOk, RestsOk, ValidArpa, Covered, ContextMet;
      ghost var s := UpTo(a, n - 1);
      assert GramsOf(lines[..0]) == {};
      for i := 0 to |lines|
        invariant s == UpTo(a, n - 1) + GramsOf(lines[..i])
        invariant Built(table, a, s, maxRest)
        invariant forall j :: 0 <= j < i ==> ContextMet(a, n, lines, j)
      {
        Unread(table, a, lines, n, i, s);
        ok := AddNGram(lines[i], a, s);
        GramsStep(lines, i);
        assert s + {lines[i].gram} == UpTo(a, n - 1) + GramsOf(lines[..i + 1]);
        MetIs(a, n, lines, i);
        if !ok {
          return;
        }
        s := s + {lines[i].gram};
      }
      assert lines[..|lines|] == lines;
      return true;
    }

    /** Reads the whole file, given as one list of lines per order. Fails exactly when the context of some n-gram is neither
        listed nor a suffix of an n-gram of the same order read before it. */
    method InitializeFromARPA(file: seq<seq<Record>>, ghost a: Lm) returns (ok: bool)
      requires table == map[] && ValidArpa(a) && a.order == order
      requires |file| == order && (forall i :: 0 <= i < order ==> Lists(a, i + 1, file[i]))
      modifies this
      ensures ok ==> Built(table, a, a.table.Keys, maxRest)
      ensures ok <==> FileLoads(a, file)
    {
      hide ContextsMet;
      Read1Grams(file[0], a);
      for n := 2 to order + 1
        invariant Built(table, a, UpTo(a, n - 1), maxRest)
        invariant forall i :: 1 <= i < n - 1 ==> ContextsMet(a, i + 1, file[i])
      {
        ok := ReadNGrams(n, file[n - 1], a);
        if !ok {
          return;
        }
      }
      forall g | a.Has(g)
        ensures g in UpTo(a, order)
      {
        assert LineOk(a, g);
      }
      assert UpTo(a, order) == a.table.Keys;
      return true;
    }

    method Read1Grams(lines: seq<Record>, ghost a: Lm)
      requires table == map[] && ValidArpa(a) && Lists(a, 1, lines)
      modifies this
      ensures Built(table, a, UpTo(a, 1), maxRest)
    {
      for i := 0 to |lines|
        invariant table.Keys == GramsOf(lines[..i])
        invariant forall j :: 0 <= j < i ==> UnigramOk(table, a, lines[j].gram)
      {
        var line := lines[i];
        assert LineMatches(a, 1, line) && LineOk(a, line.gram);
        ghost var t := table;
        table := table[line.gram := SetRest(Weights(Store(line.prob), line.backoff, 0.0))];
        forall j | 0 <= j < i + 1
          ensures UnigramOk(table, a, lines[j].gram)
        {
          if j < i {
            assert UnigramOk(t, a, lines[j].gram);
          }
        }
        GramsStep(lines, i);
      }
      assert lines[..|lines|] == lines;
      UnigramsBuilt(table, a, lines);
    }

    ghost predicate UnigramOk(t: Table, a: Lm, g: Gram) {
      && a.Has(g) && |g| == 1 && g in t
      && t[g].Prob() == a.table[g].prob && t[g].backoff == a.table[g].backoff && 0.0 <= t[g].prob.magnitude
      && (t[g].prob.negative <==> a.table[g].prob < 0.0)
      && (maxRest ==> t[g].rest == t[g].Prob())
    }

    lemma UnigramsBuilt(t: Table, a: Lm, lines: seq<Record>)
      requires ValidArpa(a) && Lists(a, 1, lines) && t.Keys == GramsOf(lines)
      requires forall j :: 0 <= j < |lines| ==> UnigramOk(t, a, lines[j].gram)
      ensures Built(t, a, UpTo(a, 1), maxRest)
    {
      var s := UpTo(a, 1);
      forall g | a.Has(g)
        ensures 1 <= |g|
      {
        assert LineOk(a, g);
      }
      assert UpTo(a, 0) == {};
      assert s == GramsOf(lines);
      forall g
        ensures EntryOk(t, a, s, g)
      {
        if g in t {
          var j :| 0 <= j < |lines| && lines[j].gram == g;
          assert UnigramOk(t, a, lines[j].gram) && LineOk(a, g);
          assert g <= g && g == [g[0]];
        }
      }
      forall g
        ensures LeftOk(t, a, g)
      {
        if g in t && g != [] {
          var j :| 0 <= j < |lines| && lines[j].gram == g;
          assert UnigramOk(t, a, lines[j].gram);
          assert forall w: Word :: g + [w] !in t;
        }
      }
      if maxRest {
        forall x
          ensures Attained(t, x)
        {
          assert x <= x;
          if x in t {
            var j :| 0 <= j < |lines| && lines[j].gram == x;
            assert UnigramOk(t, a, lines[j].gram);
          }
        }
        forall x, y | x in t && y in t && x <= y
          ensures t[y].Prob() <= t[x].rest
        {
          var j :| 0 <= j < |lines| && lines[j].gram == x;
          var k :| 0 <= k < |lines| && lines[k].gram == y;
          assert UnigramOk(t, a, lines[j].gram) && UnigramOk(t, a, lines[k].gram);
        }
      }
    }
  }
}
