/** The n-gram table a KenLM search structure presents to the model, and the textbook back-off
    probability that every scoring routine has to reproduce.

    An n-gram is written newest word first, the order in which the code walks it: `[w] + h` is the word `w`
    after the history `h`, whose first element is the word just before `w`. In this order a text suffix is
    a sequence prefix, so "left extension" appends and "context" drops the first element. */
module NGrams {

  type Word = nat
  type Gram = seq<Word>

  /** A back-off weight together with its sign-bit flag: -0.0 means "zero and never extended to the right",
      +0.0 means "zero, but some longer n-gram has this one as its context". */
  datatype Backoff = NoExtension | Charged(weight: real) {
    function Value(): real {
      if NoExtension? then 0.0 else weight
    }

    predicate HasExtension() {
      Charged?
    }

    /** -0.0 and +0.0 compare equal, so both become +0.0; any other weight is kept. */
    function SetExtension(): (b: Backoff)
      ensures b.HasExtension() && b.Value() == Value()
    {
      if Value() == 0.0 then Charged(0.0) else this
    }
  }

  datatype Entry = Entry(prob: real, backoff: Backoff, rest: real, independentLeft: bool)

  /** Sum of the back-off weights of a buffer. */
  function Total(b: seq<Backoff>): real {
    if b == [] then 0.0 else Total(b[..|b| - 1]) + b[|b| - 1].Value()
  }

  lemma {:induction false} TotalAppend(a: seq<Backoff>, b: seq<Backoff>)
    ensures Total(a + b) == Total(a) + Total(b)
  {
    if b == [] {
      assert a + b == a;
    } else {
      TotalAppend(a, b[..|b| - 1]);
      assert (a + b)[..|a + b| - 1] == a + b[..|b| - 1];
    }
  }

  function Min(a: int, b: int): int {
    if a < b then a else b
  }

  /** One more history word on an n-gram. */
  lemma PrefixGrows(g: Gram, h: seq<Word>, k: nat)
    requires k < |h|
    ensures g + h[..k] + [h[k]] == g + h[..k + 1]
    ensures (g + h[..k + 1])[..|g| + k] == g + h[..k]
  {
    assert h[..k + 1] == h[..k] + [h[k]];
  }

  /** The words and back-offs a right state holds; the back-off at i is that of the context of i+1 words. */
  datatype RightState = RightState(words: seq<Word>, backoff: seq<Backoff>)

  /** The n-gram table: `order` is N, `bound` the vocabulary size, `differentRest` the search structure's
      kDifferentRest constant. */
  datatype Lm = Lm(order: nat, bound: nat, differentRest: bool, table: map<Gram, Entry>) {

    predicate Has(g: Gram) {
      g in table
    }

    /** `g` may be kept as right state: it is a middle n-gram whose back-off carries the extension flag. */
    predicate Ext(g: Gram) {
      Has(g) && |g| < order && table[g].backoff.HasExtension()
    }

    /** The back-off weight charged when the context `g` fails to predict the next word. */
    function BackoffOf(g: Gram): real {
      if Has(g) && |g| < order then table[g].backoff.Value() else 0.0
    }

    /** A middle n-gram that words further to the left may still extend. */
    predicate Open(g: Gram) {
      Has(g) && |g| < order && !table[g].independentLeft
    }

    /** The rest cost reported for a stored n-gram; the longest n-grams store none. */
    function RestOf(g: Gram): real
      requires Has(g)
    {
      if |g| == order then table[g].prob else table[g].rest
    }

    /** A stored n-gram with its oldest word dropped is stored and known to extend to the left; its context
        is stored and carries the extension flag. */
    ghost predicate EntryClosed(g: Gram) {
      Has(g) ==>
        && 1 <= |g| <= order
        && (!differentRest ==> table[g].rest == table[g].prob)
        && (1 < |g| ==> Has(g[..|g| - 1]) && !table[g[..|g| - 1]].independentLeft && Ext(g[1..]))
    }

    /** Every word has a unigram and the table is closed as described above. */
    ghost predicate WellFormed() {
      && 2 <= order
      && (forall w: Word :: w < bound ==> Has([w]))
      && (forall g :: EntryClosed(g))
    }

    /** What right-state minimisation of fragments needs on top: extension flags are closed under dropping
        the oldest word, which holds when only contexts of longer n-grams carry a back-off. */
    ghost predicate FlagsClosed() {
      forall g :: FlagClosed(g)
    }

    ghost predicate FlagClosed(g: Gram) {
      Ext(g) && 1 < |g| ==> Ext(g[..|g| - 1])
    }

    ghost predicate ValidWords(h: seq<Word>) {
      forall i :: 0 <= i < |h| ==> h[i] < bound
    }

    /** Textbook back-off log-probability of `w` after the history `h`. */
    function Textbook(w: Word, h: seq<Word>): real
      requires Has([w])
      decreases |h|
    {
      if h == [] then table[[w]].prob
      else if Has([w] + h) then table[[w] + h].prob
      else BackoffOf(h) + Textbook(w, h[..|h| - 1])
    }

    /** The last N-1 words of a history, which is all the definition of an N-gram model looks at. */
    function LastWords(h: seq<Word>): seq<Word> {
      if order <= |h| then (if order == 0 then [] else h[..order - 1]) else h
    }

    /** Length of the minimised right state of history `h`: its longest prefix that can still matter. */
    function StateLength(h: seq<Word>): nat
      decreases |h|
    {
      if h == [] then 0 else if Ext(h) then |h| else StateLength(h[..|h| - 1])
    }

    /** How many words of `h` the longest stored left extension of `g` uses. */
    function MatchLength(g: Gram, h: seq<Word>): nat
      decreases |h|
    {
      if h == [] then 0 else if Has(g + h) then |h| else MatchLength(g, h[..|h| - 1])
    }

    /** Back-off weights of the prefixes of `h` that are longer than `from` words. */
    function BackoffSum(h: seq<Word>, from: nat): real
      decreases |h|
    {
      if |h| <= from then 0.0 else BackoffSum(h[..|h| - 1], from) + BackoffOf(h)
    }

    // ----- prefixes of stored n-grams -----

    lemma {:induction false} HasPrefix(g: Gram, k: nat)
      requires WellFormed() && Has(g) && 1 <= k <= |g|
      ensures Has(g[..k])
      decreases |g|
    {
      if k == |g| {
        assert g[..k] == g;
      } else {
        assert EntryClosed(g);
        HasPrefix(g[..|g| - 1], k);
        assert g[..|g| - 1][..k] == g[..k];
      }
    }

    lemma HasPrefixDependent(g: Gram, k: nat)
      requires WellFormed() && Has(g) && 1 <= k < |g|
      ensures Has(g[..k]) && !table[g[..k]].independentLeft
    {
      HasPrefix(g, k);
      HasPrefix(g, k + 1);
      assert EntryClosed(g[..k + 1]);
      assert g[..k + 1][..k] == g[..k];
    }

    lemma {:induction false} ExtPrefix(g: Gram, k: nat)
      requires WellFormed() && FlagsClosed() && Ext(g) && 1 <= k <= |g|
      ensures Ext(g[..k])
      decreases |g|
    {
      if k == |g| {
        assert g[..k] == g;
      } else {
        assert FlagClosed(g);
        ExtPrefix(g[..|g| - 1], k);
        assert g[..|g| - 1][..k] == g[..k];
      }
    }

    /** Dropping the newest words keeps an n-gram stored. */
    lemma {:induction false} HasSuffix(g: Gram, k: nat)
      requires WellFormed() && Has(g) && k < |g|
      ensures Has(g[k..])
      ensures 0 < k ==> Ext(g[k..])
      decreases k
    {
      if k == 0 {
        assert g[0..] == g;
      } else {
        HasSuffix(g, k - 1);
        assert EntryClosed(g[k - 1..]);
        assert g[k - 1..][1..] == g[k..];
      }
    }

    // ----- what StateLength and MatchLength mean -----

    lemma {:induction false} StateLengthIs(h: seq<Word>)
      ensures StateLength(h) <= |h|
      ensures 0 < StateLength(h) ==> Ext(h[..StateLength(h)])
      ensures forall k :: StateLength(h) < k <= |h| ==> !Ext(h[..k])
      decreases |h|
    {
      if h != [] {
        if Ext(h) {
          assert h[..|h|] == h;
        } else {
          var s := h[..|h| - 1];
          StateLengthIs(s);
          assert 0 < StateLength(h) ==> s[..StateLength(s)] == h[..StateLength(h)];
          forall k | StateLength(h) < k <= |h|
            ensures !Ext(h[..k])
          {
            if k == |h| {
              assert h[..k] == h;
            } else {
              assert s[..k] == h[..k];
            }
          }
        }
      }
    }

    lemma StateLengthUnique(h: seq<Word>, n: nat)
      requires n <= |h|
      requires 0 < n ==> Ext(h[..n])
      requires forall k :: n < k <= |h| ==> !Ext(h[..k])
      ensures StateLength(h) == n
    {
      StateLengthIs(h);
    }

    /** Cutting a history anywhere behind its state does not change the state. */
    lemma StateLengthOfPrefix(h: seq<Word>, m: nat)
      requires StateLength(h) <= m <= |h|
      ensures StateLength(h[..m]) == StateLength(h)
    {
      StateLengthIs(h);
      var n := StateLength(h);
      assert h[..m][..n] == h[..n];
      forall k | n < k <= m
        ensures !Ext(h[..m][..k])
      {
        assert h[..m][..k] == h[..k];
      }
      StateLengthUnique(h[..m], n);
    }

    lemma {:induction false} MatchLengthIs(g: Gram, h: seq<Word>)
      requires Has(g)
      ensures MatchLength(g, h) <= |h|
      ensures Has(g + h[..MatchLength(g, h)])
      ensures forall k :: MatchLength(g, h) < k <= |h| ==> !Has(g + h[..k])
      decreases |h|
    {
      if h == [] {
        assert g + h[..0] == g;
      } else if Has(g + h) {
        assert h[..|h|] == h;
      } else {
        var s := h[..|h| - 1];
        MatchLengthIs(g, s);
        assert s[..MatchLength(g, s)] == h[..MatchLength(g, h)];
        forall k | MatchLength(g, h) < k <= |h|
          ensures !Has(g + h[..k])
        {
          if k == |h| {
            assert h[..k] == h;
          } else {
            assert s[..k] == h[..k];
          }
        }
      }
    }

    lemma MatchLengthUnique(g: Gram, h: seq<Word>, n: nat)
      requires Has(g) && n <= |h|
      requires Has(g + h[..n])
      requires forall k :: n < k <= |h| ==> !Has(g + h[..k])
      ensures MatchLength(g, h) == n
    {
      MatchLengthIs(g, h);
    }

    /** The walk that finds the longest match may stop at the first n-gram that is not stored: nothing longer
        is stored either, and nothing longer can be kept as state. */
    lemma WalkStops(g: Gram, h: seq<Word>, n: nat)
      requires WellFormed() && n < |h| && g != []
      requires Has(g + h[..n]) && !Has(g + h[..n + 1])
      ensures MatchLength(g, h) == n
      ensures StateLength(g + h) == StateLength(g + h[..n])
    {
      forall k | n < k <= |h|
        ensures !Has(g + h[..k])
      {
        if Has(g + h[..k]) {
          assert (g + h[..k])[..|g| + n + 1] == g + h[..n + 1];
          HasPrefix(g + h[..k], |g| + n + 1);
        }
      }
      HasPrefix(g + h[..n], |g|);
      assert (g + h[..n])[..|g|] == g;
      MatchLengthUnique(g, h, n);
      forall k | |g| + n < k <= |g + h|
        ensures !Ext((g + h)[..k])
      {
        assert (g + h)[..k] == g + h[..k - |g|];
      }
      StateLengthIs(g + h);
      StateLengthOfPrefix(g + h, |g| + n);
      assert (g + h)[..|g| + n] == g + h[..n];
    }

    /** The recursive definition in closed form: the longest stored n-gram's probability plus the back-offs
        of all longer contexts. */
    lemma {:induction false} TextbookClosedForm(w: Word, h: seq<Word>)
      requires Has([w])
      ensures MatchLength([w], h) <= |h| && Has([w] + h[..MatchLength([w], h)])
      ensures Textbook(w, h) == table[[w] + h[..MatchLength([w], h)]].prob + BackoffSum(h, MatchLength([w], h))
      decreases |h|
    {
      MatchLengthIs([w], h);
      if h == [] {
        assert [w] + h[..0] == [w];
      } else if Has([w] + h) {
        assert h[..|h|] == h;
      } else {
        var s := h[..|h| - 1];
        TextbookClosedForm(w, s);
        MatchLengthIs([w], s);
        assert s[..MatchLength([w], s)] == h[..MatchLength([w], h)];
      }
    }

    /** The definition never looks beyond the last N-1 words. */
    lemma {:induction false} TextbookLastWords(w: Word, h: seq<Word>)
      requires WellFormed() && Has([w])
      ensures Textbook(w, h) == Textbook(w, LastWords(h))
      decreases |h|
    {
      if order <= |h| {
        assert EntryClosed([w] + h);
        TextbookLastWords(w, h[..|h| - 1]);
        assert LastWords(h[..|h| - 1]) == LastWords(h);
      }
    }

    /** Contexts longer than the minimised state carry no back-off. */
    lemma {:induction false} BackoffSumBeyondState(h: seq<Word>, from: nat)
      ensures StateLength(h) <= |h|
      ensures BackoffSum(h, from) == BackoffSum(h[..StateLength(h)], from)
      decreases |h|
    {
      StateLengthIs(h);
      if h != [] && !Ext(h) {
        var s := h[..|h| - 1];
        BackoffSumBeyondState(s, from);
        StateLengthIs(s);
        assert s[..StateLength(s)] == h[..StateLength(h)];
      } else {
        assert h[..StateLength(h)] == h;
      }
    }

    lemma {:induction false} BackoffSumSplit(h: seq<Word>, from: nat, n: nat)
      requires from <= n <= |h|
      ensures BackoffSum(h, from) == BackoffSum(h[..n], from) + BackoffSum(h, n)
      decreases |h|
    {
      if n < |h| {
        var s := h[..|h| - 1];
        BackoffSumSplit(s, from, n);
        assert s[..n] == h[..n];
      } else {
        assert h[..n] == h;
      }
    }

    /** Once a context is not stored, no longer one is, so no further back-off is due and none is kept. */
    lemma {:induction false} NoLongerContext(h: seq<Word>, from: nat, k: nat)
      requires WellFormed() && 0 < k < |h| && !Has(h[..k + 1])
      ensures from <= k ==> BackoffSum(h, from) == BackoffSum(h[..k], from)
      ensures StateLength(h) == StateLength(h[..k])
      decreases |h|
    {
      if Has(h) {
        HasPrefix(h, k + 1);
      }
      var s := h[..|h| - 1];
      if k < |s| {
        assert s[..k + 1] == h[..k + 1] && s[..k] == h[..k];
        NoLongerContext(s, from, k);
      } else {
        assert s == h[..k];
      }
    }

    /** One more word on a context. */
    lemma NextContext(h: seq<Word>, k: nat)
      requires k < |h|
      ensures h[..k] + [h[k]] == h[..k + 1]
      ensures StateLength(h[..k + 1]) == if Ext(h[..k + 1]) then k + 1 else StateLength(h[..k])
    {
      assert h[..k + 1][..k] == h[..k];
    }

    lemma ContextOfMatch(w: Word, h: seq<Word>)
      requires WellFormed() && Has([w] + h) && h != []
      ensures Ext(h)
    {
      assert EntryClosed([w] + h) && ([w] + h)[1..] == h;
    }

    /** A word matched with k context words leaves at least k words of state before it. */
    lemma MatchWithinState(w: Word, h: seq<Word>, k: nat)
      requires WellFormed() && k <= |h| && Has([w] + h[..k])
      ensures k <= StateLength(h)
    {
      StateLengthIs(h);
      if 0 < k {
        assert EntryClosed([w] + h[..k]);
        assert ([w] + h[..k])[1..] == h[..k];
      }
    }

    /** State minimisation loses nothing for the next word... */
    lemma TextbookNeedsOnlyState(w: Word, h: seq<Word>)
      requires WellFormed() && Has([w])
      ensures StateLength(h) <= |h|
      ensures Textbook(w, h) == Textbook(w, h[..StateLength(h)])
    {
      StateLengthIs(h);
      var n := StateLength(h);
      var s := h[..n];
      TextbookClosedForm(w, h);
      TextbookClosedForm(w, s);
      MatchLengthIs([w], h);
      var m := MatchLength([w], h);
      MatchWithinState(w, h, m);
      assert s[..m] == h[..m];
      forall k | m < k <= |s|
        ensures !Has([w] + s[..k])
      {
        assert s[..k] == h[..k];
      }
      MatchLengthUnique([w], s, m);
      BackoffSumBeyondState(h, m);
    }

    /** A word adds at most itself to the state. */
    lemma NextStateLength(w: Word, h: seq<Word>)
      requires WellFormed()
      ensures StateLength([w] + h) <= 1 + StateLength(h)
    {
      var n := StateLength([w] + h);
      StateLengthIs([w] + h);
      if 1 < n {
        assert ([w] + h)[..n] == [w] + h[..n - 1];
        MatchWithinState(w, h, n - 1);
      }
    }

    /** ... and nothing for the state after it. */
    lemma NextStateNeedsOnlyState(w: Word, h: seq<Word>)
      requires WellFormed()
      ensures StateLength(h) <= |h|
      ensures StateLength([w] + h[..StateLength(h)]) == StateLength([w] + h)
    {
      StateLengthIs(h);
      NextStateLength(w, h);
      var m := StateLength(h);
      assert [w] + h[..m] == ([w] + h)[..m + 1];
      StateLengthOfPrefix([w] + h, m + 1);
    }

    // ----- extending to the left -----

    /** The score a left extension by `add` gives to the first word of `g`, when `b` holds the back-offs of the
        contexts `g[1..]` extended by ever more of `add`. */
    function ExtendedScore(g: Gram, add: seq<Word>, b: seq<Backoff>): real
      requires Has(g) && |add| <= |b|
    {
      MatchLengthIs(g, add);
      var m := MatchLength(g, add);
      table[g + add[..m]].prob + Total(b[m..|add|])
    }

    /** The rest cost of `g` extended by as much of `add` as is stored. */
    function ExtendedRest(g: Gram, add: seq<Word>): real
      requires Has(g)
    {
      MatchLengthIs(g, add);
      RestOf(g + add[..MatchLength(g, add)])
    }

    /** How many words of `add` the next word to the right can still use. */
    function NextUse(g: Gram, add: seq<Word>): nat {
      if StateLength(g + add) > |g| then StateLength(g + add) - |g| else 0
    }

    // ----- rest costs -----

    /** Sum of probability minus rest cost over already scored n-grams. */
    ghost function UnRestSum(pointers: seq<Gram>): real
      requires forall i :: 0 <= i < |pointers| ==> Has(pointers[i])
    {
      if pointers == [] then 0.0
      else
        var last := |pointers| - 1;
        assert Has(pointers[last]);
        UnRestSum(pointers[..last]) + table[pointers[last]].prob - table[pointers[last]].rest
    }

    lemma UnRestAppend(pointers: seq<Gram>, g: Gram)
      requires Has(g) && forall i :: 0 <= i < |pointers| ==> Has(pointers[i])
      ensures forall i :: 0 <= i < |pointers + [g]| ==> Has((pointers + [g])[i])
      ensures UnRestSum(pointers + [g]) == UnRestSum(pointers) + table[g].prob - table[g].rest
    {
      assert (pointers + [g])[..|pointers|] == pointers;
    }

    lemma {:induction false} UnRestIsZero(pointers: seq<Gram>)
      requires WellFormed() && !differentRest
      requires forall i :: 0 <= i < |pointers| ==> Has(pointers[i])
      ensures UnRestSum(pointers) == 0.0
    {
      if pointers != [] {
        assert EntryClosed(pointers[|pointers| - 1]);
        UnRestIsZero(pointers[..|pointers| - 1]);
      }
    }

    // ----- right states -----

    function EntryBackoff(g: Gram): Backoff {
      if Has(g) then table[g].backoff else NoExtension
    }

    /** Back-offs of the first n contexts of a history, shortest first. */
    function ContextBackoffs(h: seq<Word>, n: nat): (b: seq<Backoff>)
      requires n <= |h|
      ensures |b| == n
    {
      if n == 0 then [] else ContextBackoffs(h, n - 1) + [EntryBackoff(h[..n])]
    }

    lemma {:induction false} ContextBackoffAt(h: seq<Word>, n: nat, i: nat)
      requires i < n <= |h|
      ensures ContextBackoffs(h, n)[i] == EntryBackoff(h[..i + 1])
    {
      if i < n - 1 {
        ContextBackoffAt(h, n - 1, i);
      }
    }

    lemma {:induction false} ContextBackoffsPrefix(h: seq<Word>, n: nat, k: nat)
      requires k <= n <= |h|
      ensures ContextBackoffs(h, n)[..k] == ContextBackoffs(h, k)
    {
      if k < n {
        ContextBackoffsPrefix(h, n - 1, k);
      }
    }

    lemma ContextBackoffsAre(h: seq<Word>, b: seq<Backoff>)
      requires |b| <= |h|
      requires forall i :: 0 <= i < |b| ==> b[i] == EntryBackoff(h[..i + 1])
      ensures b == ContextBackoffs(h, |b|)
    {
      forall i | 0 <= i < |b|
        ensures b[i] == ContextBackoffs(h, |b|)[i]
      {
        ContextBackoffAt(h, |b|, i);
      }
    }

    /** The minimised right state of a history. */
    function Minimal(h: seq<Word>): (s: RightState)
      ensures StateLength(h) <= |h|
    {
      StateLengthIs(h);
      var n := StateLength(h);
      RightState(h[..n], ContextBackoffs(h, n))
    }

    /** Position i of the buffer holds the back-off of the stored context of i+1 words. */
    ghost predicate Holds(b: seq<Backoff>, h: seq<Word>, i: nat) {
      HoldsAfter(b, [], h, i)
    }

    /** Position i of the buffer holds the back-off of the stored n-gram that extends `g` by i+1 words. */
    ghost predicate HoldsAfter(b: seq<Backoff>, g: Gram, h: seq<Word>, i: nat) {
      i < |b| && i < |h| && Has(g + h[..i + 1]) && b[i] == table[g + h[..i + 1]].backoff
    }

    /** `s` is a right state for history `h`: it holds a prefix of `h` that is long enough to matter. */
    ghost predicate Represents(s: RightState, h: seq<Word>) {
      && |s.words| == |s.backoff| <= |h|
      && |s.words| < order
      && s.words == h[..|s.words|]
      && (forall i :: 0 <= i < |s.words| ==> Holds(s.backoff, h, i))
      && StateLength(h) <= |s.words|
    }

    lemma MinimalRepresents(h: seq<Word>)
      requires WellFormed()
      ensures Represents(Minimal(h), h)
    {
      StateLengthIs(h);
      var n := StateLength(h);
      forall i | 0 <= i < n
        ensures Holds(Minimal(h).backoff, h, i)
      {
        HasPrefix(h[..n], i + 1);
        assert h[..n][..i + 1] == h[..i + 1] == [] + h[..i + 1];
        ContextBackoffAt(h, n, i);
      }
    }

    lemma MinimalDependsOnState(a: seq<Word>, b: seq<Word>)
      requires StateLength(a) == StateLength(b)
      requires StateLength(a) <= |a| && StateLength(b) <= |b| && a[..StateLength(a)] == b[..StateLength(b)]
      ensures Minimal(a) == Minimal(b)
    {
      var n := StateLength(a);
      forall i | 0 <= i < n
        ensures ContextBackoffs(a, n)[i] == ContextBackoffs(b, n)[i]
      {
        assert a[..i + 1] == a[..n][..i + 1] == b[..i + 1];
        ContextBackoffAt(a, n, i);
        ContextBackoffAt(b, n, i);
      }
    }

    /** The longest stored match is found within the state. */
    lemma MatchNeedsOnlyState(s: RightState, h: seq<Word>, w: Word)
      requires WellFormed() && Has([w]) && Represents(s, h)
      ensures MatchLength([w], s.words) == MatchLength([w], h) <= |s.words|
      ensures [w] + s.words[..MatchLength([w], h)] == [w] + h[..MatchLength([w], h)]
    {
      var t := s.words;
      MatchLengthIs([w], t);
      StateLengthIs(h);
      var m := MatchLength([w], t);
      assert t[..m] == h[..m];
      forall k | m < k <= |h|
        ensures !Has([w] + h[..k])
      {
        if k <= |t| {
          assert t[..k] == h[..k];
        } else {
          assert EntryClosed([w] + h[..k]) && ([w] + h[..k])[1..] == h[..k];
        }
      }
      MatchLengthUnique([w], h, m);
    }

    /** Any representing state predicts as the whole history does. */
    lemma RepresentsSuffices(s: RightState, h: seq<Word>, w: Word)
      requires WellFormed() && Has([w]) && Represents(s, h)
      ensures Textbook(w, s.words) == Textbook(w, h)
      ensures Minimal([w] + s.words) == Minimal([w] + h)
    {
      var t := s.words;
      StateLengthOfPrefix(h, |t|);
      assert t[..StateLength(t)] == h[..StateLength(h)];
      TextbookNeedsOnlyState(w, h);
      TextbookNeedsOnlyState(w, t);
      NextStateNeedsOnlyState(w, h);
      NextStateNeedsOnlyState(w, t);
      NextStateLength(w, t);
      StateLengthIs(t);
      var n := StateLength([w] + t);
      assert ([w] + t)[..n] == ([w] + h)[..n];
      MinimalDependsOnState([w] + t, [w] + h);
    }

    /** The minimised state never reaches beyond the last N-1 words. */
    lemma StateIsLastWords(h: seq<Word>)
      requires WellFormed()
      ensures Minimal(LastWords(h)) == Minimal(h)
    {
      StateLengthIs(h);
      StateLengthOfPrefix(h, |LastWords(h)|);
      MinimalDependsOnState(LastWords(h), h);
    }

    /** ... and neither does the state after one more word. */
    lemma LastWordsState(w: Word, h: seq<Word>)
      requires WellFormed()
      ensures Minimal([w] + LastWords(h)) == Minimal([w] + h)
    {
      StateIsLastWords([w] + h);
      StateIsLastWords([w] + LastWords(h));
      assert LastWords([w] + LastWords(h)) == LastWords([w] + h);
    }

    /** No stored n-gram reaches beyond the last N-1 words of a history. */
    lemma LastWordsMatch(w: Word, h: seq<Word>)
      requires WellFormed() && Has([w])
      ensures MatchLength([w], LastWords(h)) == MatchLength([w], h) <= |LastWords(h)|
      ensures [w] + LastWords(h)[..MatchLength([w], h)] == [w] + h[..MatchLength([w], h)]
    {
      var t := LastWords(h);
      MatchLengthIs([w], t);
      var m := MatchLength([w], t);
      assert t[..m] == h[..m];
      forall k | m < k <= |h|
        ensures !Has([w] + h[..k])
      {
        if k <= |t| {
          assert t[..k] == h[..k];
        } else {
          assert EntryClosed([w] + h[..k]);
        }
      }
      MatchLengthUnique([w], h, m);
    }

    /** A buffer that carries the back-offs of `g` extended by ever more words of `h` sums to the back-offs of
        those contexts. */
    lemma {:induction false} BufferIsBackoffSum(b: seq<Backoff>, g: Gram, h: seq<Word>, from: nat)
      requires from <= |h| <= |b| && |g| + |h| < order
      requires forall i :: from <= i < |h| ==> HoldsAfter(b, g, h, i)
      ensures Total(b[from..|h|]) == BackoffSum(g + h, |g| + from)
      decreases |h|
    {
      if |h| > from {
        var n := |h| - 1;
        var h' := h[..n];
        forall i | from <= i < |h'|
          ensures HoldsAfter(b, g, h', i)
        {
          assert HoldsAfter(b, g, h, i);
          assert h'[..i + 1] == h[..i + 1];
        }
        BufferIsBackoffSum(b, g, h', from);
        assert b[from..|h|][..n - from] == b[from..n];
        assert HoldsAfter(b, g, h, n) && h[..n + 1] == h && b[from..|h|][n - from] == b[n];
        assert (g + h)[..|g + h| - 1] == g + h';
      }
    }

    /** Cutting a history anywhere behind its state does not change the prediction. */
    lemma TextbookOfPrefix(w: Word, h: seq<Word>, n: nat)
      requires WellFormed() && Has([w]) && StateLength(h) <= n <= |h|
      ensures Textbook(w, h[..n]) == Textbook(w, h)
    {
      StateLengthOfPrefix(h, n);
      TextbookNeedsOnlyState(w, h);
      TextbookNeedsOnlyState(w, h[..n]);
      assert h[..n][..StateLength(h)] == h[..StateLength(h)];
    }
  }
}
