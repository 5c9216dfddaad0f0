/** What a sentence fragment's chart state has to be, defined one word at a time, and the facts about joining two
    fragments. Fragments are written newest word first; `bos` says that the fragment starts the sentence. */
module Fragments {
  import opened NGrams

  lemma SliceAppend<T>(s: seq<T>, x: T, n: nat)
    requires n <= |s|
    ensures (s + [x])[n..] == s[n..] + [x]
  {
  }

  /** The model and the sentence-start word. */
  datatype Grammar = Grammar(lm: Lm, begin: Word) {

    ghost predicate Valid() {
      lm.WellFormed() && lm.FlagsClosed() && begin < lm.bound
    }

    /** All the history a fragment shows to the word after it. */
    function History(r: seq<Word>, bos: bool): seq<Word> {
      if bos then r + [begin] else r
    }

    /** No word further to the left can change how the words of the fragment are scored, up to back-off. */
    predicate Full(r: seq<Word>, bos: bool) {
      if r == [] then bos
      else Full(r[1..], bos) || !lm.Open(r) || !lm.Ext(r) || |r| == lm.order - 1
    }

    /** The n-grams through which words further to the left still enter: one for each leading word. */
    function Pointers(r: seq<Word>, bos: bool): seq<Gram> {
      if r == [] then []
      else if !Full(r[1..], bos) && lm.Open(r) then Pointers(r[1..], bos) + [r]
      else Pointers(r[1..], bos)
    }

    /** Score of a fragment: the rest cost of each word whose left context is still open, the textbook
        probability of every other word. */
    function Cost(r: seq<Word>, bos: bool): real
      requires lm.WellFormed() && lm.ValidWords(r)
    {
      if r == [] then 0.0
      else
        Cost(r[1..], bos) +
        (if !Full(r[1..], bos) && lm.Open(r) then lm.table[r].rest
         else lm.Textbook(r[0], History(r[1..], bos)))
    }

    function Right(r: seq<Word>, bos: bool): RightState {
      if r == [] && bos then RightState([begin], [lm.EntryBackoff([begin])]) else lm.Minimal(History(r, bos))
    }

    /** Every leading part of the fragment is open to the left and worth keeping to the right. */
    predicate AllOpen(r: seq<Word>) {
      r == [] || (AllOpen(r[1..]) && lm.Open(r) && lm.Ext(r))
    }

    lemma {:induction false} NotFullIsOpen(r: seq<Word>, bos: bool)
      requires !Full(r, bos)
      ensures !bos && AllOpen(r) && History(r, bos) == r
    {
      if r != [] {
        NotFullIsOpen(r[1..], bos);
      }
    }

    lemma {:induction false} OpenIsNotFull(r: seq<Word>)
      requires lm.WellFormed() && AllOpen(r)
      ensures Full(r, false) <==> |r| == lm.order - 1
      ensures Pointers(r, false) == LeadingParts(r)
    {
      if r != [] {
        OpenIsNotFull(r[1..]);
      }
    }

    /** The fragment's leading parts, shortest first. */
    function LeadingParts(r: seq<Word>): (p: seq<Gram>)
      ensures |p| == |r|
    {
      if r == [] then [] else LeadingParts(r[1..]) + [r]
    }

    lemma {:induction false} PointersLength(r: seq<Word>, bos: bool)
      requires 0 < lm.order
      ensures |Pointers(r, bos)| <= |r|
      ensures |Pointers(r, bos)| < lm.order
    {
      if r != [] {
        PointersLength(r[1..], bos);
      }
    }

    lemma OpenState(r: seq<Word>)
      requires AllOpen(r)
      ensures Right(r, false).words == r
    {
      assert r[..|r|] == r;
    }

    // ----- extending a word to the left -----

    /** The first |add| words of the history `a` are all that still matters behind the n-gram `g`, and `b` holds
        the back-offs of `g` extended by them. */
    ghost predicate Carries(g: Gram, add: seq<Word>, b: seq<Backoff>, a: seq<Word>) {
      && |add| <= |a| && add == a[..|add|]
      && |add| <= |b| && |g| + |add| < lm.order
      && lm.StateLength(g + a) <= |g| + |add|
      && (forall i :: 0 <= i < |add| ==> lm.HoldsAfter(b, g, add, i))
    }

    lemma CarriesInBuffer(g: Gram, add: seq<Word>, b: seq<Backoff>, a: seq<Word>, buffer: seq<Backoff>)
      requires Carries(g, add, b, a) && b <= buffer
      ensures Carries(g, add, buffer, a)
    {
      forall i | 0 <= i < |add|
        ensures lm.HoldsAfter(buffer, g, add, i)
      {
        assert lm.HoldsAfter(b, g, add, i);
      }
    }

    /** The score of an extended word is its textbook probability after all the history. */
    lemma ExtendedWord(g: Gram, add: seq<Word>, b: seq<Backoff>, a: seq<Word>)
      requires lm.WellFormed() && lm.Open(g) && g != [] && lm.Has([g[0]])
      requires Carries(g[1..], add, b, a)
      ensures lm.ExtendedScore(g, add, b) == lm.Textbook(g[0], g[1..] + a)
    {
      var w, c := g[0], g[1..];
      var m := lm.MatchLength(g, add);
      lm.MatchLengthIs(g, add);
      assert c + add == (c + a)[..|c| + |add|];
      lm.TextbookOfPrefix(w, c + a, |c| + |add|);
      lm.TextbookClosedForm(w, c + add);
      assert [w] + (c + add)[..|c| + m] == g + add[..m];
      forall k | |c| + m < k <= |c + add|
        ensures !lm.Has([w] + (c + add)[..k])
      {
        assert [w] + (c + add)[..k] == g + add[..k - |c|];
      }
      lm.MatchLengthUnique([w], c + add, |c| + m);
      lm.BufferIsBackoffSum(b, c, add, m);
    }

    lemma NextCarries(g: Gram, add: seq<Word>, b: seq<Backoff>, a: seq<Word>, next: seq<Backoff>)
      requires lm.WellFormed() && lm.Open(g) && g != []
      requires Carries(g[1..], add, b, a)
      requires forall i :: 0 <= i < lm.NextUse(g, add) ==> lm.HoldsAfter(next, g, add, i)
      ensures lm.NextUse(g, add) <= |add|
      ensures Carries(g, add[..lm.NextUse(g, add)], next, a)
      ensures lm.NextUse(g, add) == lm.NextUse(g, a)
    {
      var n := lm.NextUse(g, add);
      assert 0 < n ==> lm.HoldsAfter(next, g, add, n - 1);
      lm.StateLengthIs(g + add);
      lm.NextStateLength(g[0], g[1..] + a);
      assert [g[0]] + (g[1..] + a) == g + a;
      lm.StateLengthOfPrefix(g + a, |g| + |add|);
      assert (g + a)[..|g| + |add|] == g + add;
      forall i | 0 <= i < n
        ensures lm.HoldsAfter(next, g, add[..n], i)
      {
        assert lm.HoldsAfter(next, g, add, i);
        assert add[..n][..i + 1] == add[..i + 1];
      }
    }

    // ----- building a fragment word by word -----

    /** The builder's "left is done" flag: once set the fragment is full; before, every word is still open. */
    predicate DoneFlag(done: bool, r: seq<Word>, bos: bool) {
      if done then Full(r, bos) else !bos && AllOpen(r)
    }

    lemma RightRepresents(r: seq<Word>, bos: bool)
      requires lm.WellFormed() && begin < lm.bound
      ensures lm.Represents(Right(r, bos), History(r, bos))
    {
      if r == [] && bos {
        assert History(r, bos) == [begin];
        lm.StateLengthIs([begin]);
        assert [] + [begin][..1] == [begin];
        assert lm.Holds(Right(r, bos).backoff, [begin], 0);
      } else {
        lm.MinimalRepresents(History(r, bos));
      }
    }

    /** The chart state of a finished fragment is one its words build. */
    lemma WholePart(b: seq<Word>, bos: bool)
      requires Valid() && lm.ValidWords(b)
      ensures Builds(Pointers(b, bos), Right(b, bos), Full(b, bos), b, bos)
      ensures |Pointers(b, bos)| < lm.order && |Right(b, bos).words| < lm.order
    {
      PointersLength(b, bos);
      RightRepresents(b, bos);
      if !Full(b, bos) {
        NotFullIsOpen(b, bos);
      }
    }

    /** An open fragment with one more word, itself open, is full exactly when its state falls short of it. */
    lemma OpenGrows(m: seq<Word>)
      requires m != [] && AllOpen(m[1..]) && lm.Open(m)
      ensures lm.StateLength(m) <= |m|
      ensures if lm.StateLength(m) == |m| then AllOpen(m) else Full(m, false)
    {
      lm.StateLengthIs(m);
      assert m[..|m|] == m;
    }

    /** The chart state under construction for a fragment. */
    ghost predicate Builds(left: seq<Gram>, right: RightState, done: bool, r: seq<Word>, bos: bool) {
      && lm.ValidWords(r)
      && left == Pointers(r, bos)
      && right == Right(r, bos)
      && DoneFlag(done, r, bos)
    }

    /** Appending a terminal `w`; `open` says that its n-gram with all the fragment before it is open. */
    lemma TerminalStep(left: seq<Gram>, right: RightState, done: bool, r: seq<Word>, bos: bool, w: Word)
      requires Valid() && w < lm.bound && Builds(left, right, done, r, bos)
      ensures lm.Represents(right, History(r, bos))
      ensures lm.ValidWords([w] + r)
      ensures var m := [w] + r;
              var next := lm.Minimal([w] + History(r, bos));
              var open := !done && lm.Open([w] + right.words);
              && |left| <= lm.order - 2 + (if open then 0 else 1)
              && Builds(left + (if open then [[w] + right.words] else []), next,
                        done || !open || |next.words| != |right.words| + 1, m, bos)
              && Cost(m, bos) - Cost(r, bos) ==
                 (if open then lm.table[[w] + right.words].rest else lm.Textbook(w, History(r, bos)))
    {
      var m := [w] + r;
      assert m[1..] == r;
      RightRepresents(r, bos);
      PointersLength(r, bos);
      PointersLength(m, bos);
      assert [w] + History(r, bos) == History(m, bos);
      if !done {
        OpenState(r);
        OpenIsNotFull(r);
        if lm.Open(m) {
          OpenGrows(m);
        }
      }
    }

    /** Extending to the left the first word of `g`, an open n-gram, when `g[1..]` has already been joined to the
        fragment `r` and `add` is what of the history behind it still matters. */
    lemma JoinStep(g: Gram, r: seq<Word>, bos: bool, done: bool, add: seq<Word>, b: seq<Backoff>)
      requires Valid() && lm.ValidWords(g + r) && lm.Open(g) && g != []
      requires DoneFlag(done, g[1..] + r, bos) && (!done ==> r != [])
      requires Carries(g[1..], add, b, History(r, bos))
      ensures lm.ValidWords(g[1..] + r)
      ensures var m, before := g + r, g[1..] + r;
              var open := !done && lm.Open(g + add);
              && (open ==> g + add == m)
              && Cost(m, bos) - Cost(before, bos) == (if open then lm.ExtendedRest(g, add) else lm.ExtendedScore(g, add, b))
              && Pointers(m, bos) == Pointers(before, bos) + (if open then [m] else [])
              && DoneFlag(done || !open || lm.NextUse(g, add) != |r|, m, bos)
    {
      var m, before := g + r, g[1..] + r;
      var a := History(r, bos);
      assert m[1..] == before && m[0] == g[0];
      assert forall i :: 0 <= i < |before| ==> before[i] == m[i + 1];
      assert History(before, bos) == g[1..] + a;
      ExtendedWord(g, add, b, a);
      if !done {
        OpenIsNotFull(before);
        assert lm.StateLength(before) == |before|;
        assert add == r && add[..|add|] == add;
        lm.MatchLengthIs(g, add);
        if lm.Open(m) {
          OpenGrows(m);
        }
      }
    }

    lemma OpenPointersLength(r: seq<Word>)
      requires lm.WellFormed() && AllOpen(r)
      ensures |Pointers(r, false)| == |r|
    {
      OpenIsNotFull(r);
    }

    /** Every pointer is an open n-gram: the leading part of the fragment of that many words. */
    lemma {:induction false} PointerAt(r: seq<Word>, bos: bool, i: nat)
      requires i < |Pointers(r, bos)|
      ensures |Pointers(r, bos)| <= |r|
      ensures Pointers(r, bos)[i] == r[|r| - i - 1..]
      ensures lm.Open(Pointers(r, bos)[i]) && !Full(r[|r| - i..], bos)
      decreases |r|
    {
      PointersAtMost(r, bos);
      var s := r[1..];
      if i < |Pointers(s, bos)| {
        PointerAt(s, bos, i);
        DropOne(r, i + 1);
        DropOne(r, i);
      } else {
        LastPointer(r, bos);
      }
    }

    lemma {:induction false} PointersAtMost(r: seq<Word>, bos: bool)
      ensures |Pointers(r, bos)| <= |r|
    {
      if r != [] {
        PointersAtMost(r[1..], bos);
      }
    }

    lemma DropOne(r: seq<Word>, n: nat)
      requires n < |r|
      ensures r[1..][|r| - 1 - n..] == r[|r| - n..]
    {
    }

    lemma LastPointer(r: seq<Word>, bos: bool)
      requires r != [] && |Pointers(r, bos)| > |Pointers(r[1..], bos)|
      ensures |Pointers(r, bos)| == |r| && Pointers(r, bos)[|r| - 1] == r == r[0..] && lm.Open(r)
    {
      NotFullIsOpen(r[1..], bos);
      OpenPointers(r[1..]);
    }

    lemma PointersStored(r: seq<Word>, bos: bool)
      ensures forall i :: 0 <= i < |Pointers(r, bos)| ==> lm.Has(Pointers(r, bos)[i])
    {
      forall i | 0 <= i < |Pointers(r, bos)|
        ensures lm.Has(Pointers(r, bos)[i])
      {
        PointerAt(r, bos, i);
      }
    }

    lemma {:induction false} OpenPointers(r: seq<Word>)
      requires AllOpen(r) && !Full(r, false)
      ensures |Pointers(r, false)| == |r|
    {
      if r != [] {
        OpenPointers(r[1..]);
      }
    }

    /** Probability minus rest cost of the words of an open fragment start, from its n-th pointer on. */
    ghost function UnRestFrom(r: seq<Word>, n: nat): real
      requires n <= |Pointers(r, false)|
    {
      PointersStored(r, false);
      lm.UnRestSum(Pointers(r, false)[n..])
    }

    /** Joining `b` to the fragment `r` once nothing to the left matters after the first words `g` of `b`: the
        remaining words score as they do without `r`, and those scored by rest cost are charged their
        probability instead. */
    ghost predicate Settled(b: seq<Word>, g: seq<Word>, r: seq<Word>, bos: bool)
      requires lm.WellFormed() && lm.ValidWords(b) && lm.ValidWords(g) && lm.ValidWords(r)
    {
      && Full(b + r, bos)
      && Pointers(b + r, bos) == Pointers(g + r, bos)
      && lm.Minimal(b + History(r, bos)) == lm.Minimal(b)
      && |Pointers(g, false)| <= |Pointers(b, false)|
      && Cost(b + r, bos) - Cost(g + r, bos) ==
         Cost(b, false) - Cost(g, false) + UnRestFrom(b, |Pointers(g, false)|)
    }

    lemma {:induction false} SettledTail(b: seq<Word>, j: nat, r: seq<Word>, bos: bool)
      requires Valid() && lm.ValidWords(b) && lm.ValidWords(r) && j <= |b|
      requires Full(b[|b| - j..] + r, bos)
      requires lm.StateLength(b[|b| - j..] + History(r, bos)) <= j
      ensures Settled(b, b[|b| - j..], r, bos)
    {
      var g := b[|b| - j..];
      if |b| == j {
        var a := History(r, bos);
        assert g == b;
        lm.StateLengthOfPrefix(b + a, j);
        assert (b + a)[..j] == b;
        lm.MinimalDependsOnState(b + a, b);
      } else {
        var b' := b[1..];
        assert b'[|b'| - j..] == g && [b[0]] + b' == b;
        SettledTail(b', j, r, bos);
        SettledStep(b[0], b', g, r, bos);
      }
    }

    lemma SettledStep(w: Word, b: seq<Word>, g: seq<Word>, r: seq<Word>, bos: bool)
      requires lm.WellFormed() && w < lm.bound && lm.ValidWords(b) && lm.ValidWords(g) && lm.ValidWords(r)
      requires Settled(b, g, r, bos)
      ensures Settled([w] + b, g, r, bos)
    {
      var c := [w] + b;
      assert (c + r)[1..] == b + r;
      assert lm.Minimal(c + History(r, bos)) == lm.Minimal(c) by {
        SettledWord(w, b, History(r, bos));
      }
      assert Cost(c + r, bos) - Cost(b + r, bos) == lm.Textbook(w, b) by {
        SettledWord(w, b, History(r, bos));
        assert History(b + r, bos) == b + History(r, bos);
      }
      RestCharged(w, b, |Pointers(g, false)|);
    }

    /** A word appended to a fragment is scored by its probability once its rest cost has been exchanged. */
    lemma RestCharged(w: Word, b: seq<Word>, n: nat)
      requires lm.WellFormed() && w < lm.bound && lm.ValidWords(b) && n <= |Pointers(b, false)|
      ensures n <= |Pointers([w] + b, false)|
      ensures Cost([w] + b, false) - Cost(b, false) == lm.Textbook(w, b) - UnRestFrom([w] + b, n) + UnRestFrom(b, n)
    {
      var c := [w] + b;
      var p, p' := Pointers(c, false), Pointers(b, false);
      assert c[1..] == b && History(b, false) == b;
      PointersStored(b, false);
      if !Full(b, false) && lm.Open(c) {
        assert p == p' + [c];
        assert lm.Textbook(w, b) == lm.table[c].prob by {
          assert b == [] ==> c == [w];
        }
        SliceAppend(p', c, n);
        TailStored(p', n);
        lm.UnRestAppend(p'[n..], c);
      }
    }

    lemma TailStored(p: seq<Gram>, n: nat)
      requires n <= |p| && forall i :: 0 <= i < |p| ==> lm.Has(p[i])
      ensures forall i :: 0 <= i < |p[n..]| ==> lm.Has(p[n..][i])
    {
    }

    /** One word behind which nothing to the left matters. */
    lemma SettledWord(w: Word, h: seq<Word>, a: seq<Word>)
      requires lm.WellFormed() && lm.Has([w])
      requires lm.Minimal(h + a) == lm.Minimal(h)
      ensures lm.Textbook(w, h + a) == lm.Textbook(w, h)
      ensures lm.Minimal([w] + h + a) == lm.Minimal([w] + h)
      ensures lm.Has([w] + h) ==> lm.Textbook(w, h) == lm.table[[w] + h].prob
    {
      lm.StateLengthIs(h);
      lm.StateLengthIs(h + a);
      assert |lm.Minimal(h + a).words| == |lm.Minimal(h).words|;
      lm.TextbookOfPrefix(w, h + a, |h|);
      assert (h + a)[..|h|] == h;
      lm.NextStateLength(w, h + a);
      assert [w] + (h + a) == [w] + h + a;
      lm.StateLengthOfPrefix([w] + h + a, 1 + |h|);
      assert ([w] + h + a)[..1 + |h|] == [w] + h;
      lm.MinimalDependsOnState([w] + h + a, [w] + h);
    }

    /** A word that is independent of the words before the fragment `g` is charged exactly the back-offs of the
        carried contexts, and nothing behind it matters. */
    lemma IndependentWord(w: Word, g: Gram, add: seq<Word>, b: seq<Backoff>, a: seq<Word>)
      requires lm.WellFormed() && lm.Has([w]) && !lm.Open([w] + g) && |g| + 1 < lm.order
      requires Carries(g, add, b, a)
      ensures lm.Textbook(w, g + a) == lm.Textbook(w, g) + Total(b[..|add|])
      ensures lm.StateLength([w] + g + a) <= |g| + 1
    {
      var c := g + add;
      assert c == (g + a)[..|c|];
      lm.TextbookOfPrefix(w, g + a, |c|);
      lm.TextbookClosedForm(w, c);
      lm.TextbookClosedForm(w, g);
      var m := lm.MatchLength([w], g);
      IndependentMatch(w, g, add);
      lm.BackoffSumSplit(c, m, |g|);
      assert c[..|g|] == g && c[..m] == g[..m];
      lm.BufferIsBackoffSum(b, g, add, 0);
      assert b[0..|add|] == b[..|add|];
      IndependentState(w, g, a);
    }

    lemma IndependentState(w: Word, g: Gram, a: seq<Word>)
      requires lm.WellFormed() && !lm.Open([w] + g) && |g| + 1 < lm.order
      ensures lm.StateLength([w] + g + a) <= |g| + 1
    {
      var h := [w] + g + a;
      forall n | |g| + 1 < n <= |h|
        ensures !lm.Ext(h[..n])
      {
        assert h[..n] == [w] + g + a[..n - |g| - 1];
        NotExtended(w, g, a[..n - |g| - 1]);
      }
      lm.StateLengthIs(h);
    }

    lemma NotExtended(w: Word, g: Gram, x: seq<Word>)
      requires lm.WellFormed() && !lm.Open([w] + g) && |g| + 1 < lm.order && x != []
      ensures !lm.Has([w] + g + x)
    {
      if lm.Has([w] + g + x) {
        assert ([w] + g + x)[..|g| + 1] == [w] + g;
        lm.HasPrefixDependent([w] + g + x, |g| + 1);
      }
    }

    lemma IndependentMatch(w: Word, g: Gram, x: seq<Word>)
      requires lm.WellFormed() && lm.Has([w]) && !lm.Open([w] + g) && |g| + 1 < lm.order
      ensures lm.MatchLength([w], g) <= |g|
      ensures lm.MatchLength([w], g + x) == lm.MatchLength([w], g)
    {
      var c, m := g + x, lm.MatchLength([w], g);
      lm.MatchLengthIs([w], g);
      assert c[..m] == g[..m];
      forall k | m < k <= |c|
        ensures !lm.Has([w] + c[..k])
      {
        if k <= |g| {
          assert c[..k] == g[..k];
        } else {
          NotExtended(w, g, x[..k - |g|]);
          assert [w] + c[..k] == [w] + g + x[..k - |g|];
        }
      }
      lm.MatchLengthUnique([w], c, m);
    }

    /** The right state of two joined fragments when the second one is open. */
    lemma OpenJoin(b: seq<Word>, r: seq<Word>, bos: bool, add: seq<Word>, back: seq<Backoff>)
      requires lm.WellFormed() && b != [] && AllOpen(b)
      requires Carries(b, add, back, History(r, bos))
      requires lm.StateLength(b + History(r, bos)) == |b| + |add|
      ensures Right(b + r, bos) == RightState(b + add, lm.Minimal(b).backoff + back[..|add|])
    {
      var a := History(r, bos);
      var h := b + a;
      assert History(b + r, bos) == h;
      assert b[..|b|] == b && h[..|b| + |add|] == b + add;
      var all := lm.Minimal(b).backoff + back[..|add|];
      forall i | 0 <= i < |all|
        ensures all[i] == lm.EntryBackoff(h[..i + 1])
      {
        if i < |b| {
          lm.ContextBackoffAt(b, |b|, i);
          assert b[..i + 1] == h[..i + 1];
        } else {
          assert lm.HoldsAfter(back, b, add, i - |b|);
          assert b + add[..i - |b| + 1] == h[..i + 1];
        }
      }
      lm.ContextBackoffsAre(h, all);
    }

    // ----- joining a fragment b to the fragment r on its left -----

    /** The first j words of `b` have been joined: `left` and `done` are those of the joined fragment, `gain` is
        what joining changed in the sum of the two scores. */
    ghost predicate Joins(left: seq<Gram>, gain: real, done: bool, b: seq<Word>, j: nat, r: seq<Word>, bos: bool)
      requires lm.WellFormed() && lm.ValidWords(b) && lm.ValidWords(r) && j <= |b|
    {
      var c := b[|b| - j..];
      && left == Pointers(c + r, bos)
      && DoneFlag(done, c + r, bos)
      && gain == Cost(c + r, bos) - Cost(r, bos) - Cost(c, false)
    }

    lemma NothingJoined(left: seq<Gram>, right: RightState, done: bool, b: seq<Word>, r: seq<Word>, bos: bool)
      requires Valid() && lm.ValidWords(b) && Builds(left, right, done, r, bos)
      ensures Joins(left, 0.0, done, b, 0, r, bos)
      ensures b[|b|..] == [] && Carries([], right.words, right.backoff, History(r, bos))
      ensures !done && right.words != [] ==> r != []
    {
      if !done {
        OpenState(r);
      }
      assert b[|b|..] == [] && [] + r == r && [] + History(r, bos) == History(r, bos);
      RightRepresents(r, bos);
      forall i | 0 <= i < |right.words|
        ensures lm.HoldsAfter(right.backoff, [], right.words, i)
      {
        assert lm.Holds(right.backoff, History(r, bos), i);
        assert right.words[..i + 1] == History(r, bos)[..i + 1];
      }
    }

    lemma PointerStep(b: seq<Word>, j: nat)
      requires lm.WellFormed() && lm.ValidWords(b) && j < |Pointers(b, false)|
      ensures |Pointers(b, false)| <= |b|
      ensures var m := b[|b| - j - 1..];
              && Pointers(b, false)[j] == m && m[1..] == b[|b| - j..] && |m| == j + 1
              && lm.Open(m)
              && Cost(m, false) - Cost(m[1..], false) == lm.table[m].rest
    {
      PointerAt(b, false, j);
      var m := b[|b| - j - 1..];
      assert m[1..] == b[|b| - j..];
    }

    /** One more word of `b`, an open one, with `add` the history that still matters for it. */
    lemma ExtendStep(left: seq<Gram>, gain: real, done: bool, b: seq<Word>, j: nat, r: seq<Word>, bos: bool,
                     add: seq<Word>, back: seq<Backoff>)
      requires Valid() && lm.ValidWords(b) && lm.ValidWords(r) && j < |Pointers(b, false)| <= |b|
      requires Joins(left, gain, done, b, j, r, bos) && (!done ==> r != [])
      requires Carries(b[|b| - j..], add, back, History(r, bos))
      ensures var m := b[|b| - j - 1..];
              var open := !done && lm.Open(m + add);
              && Pointers(b, false)[j] == m && m[1..] == b[|b| - j..]
              && lm.Open(m)
              && |left| <= lm.order - 2 + (if open then 0 else 1)
              && Joins(left + (if open then [m + add] else []), gain - lm.table[m].rest +
                       (if open then lm.ExtendedRest(m, add) else lm.ExtendedScore(m, add, back)),
                       done || !open || lm.NextUse(m, add) != |Right(r, bos).words|, b, j + 1, r, bos)
    {
      PointerStep(b, j);
      var m, c := b[|b| - j - 1..], b[|b| - j..];
      JoinStep(m, r, bos, done, add, back);
      PointersLength(c + r, bos);
      PointersLength(m + r, bos);
      if !done {
        OpenParts(c, r);
        OpenState(r);
      }
    }

    /** The same, for the values a left extension returns: `prob` and `rest` relative to the old rest cost, the
        pointer unless the word became independent, and the next back-offs. */
    lemma ExtendResult(left: seq<Gram>, gain: real, done: bool, b: seq<Word>, j: nat, r: seq<Word>, bos: bool,
                       add: seq<Word>, back: seq<Backoff>,
                       prob: real, rest: real, independent: bool, extended: Gram, next: nat, nextBack: seq<Backoff>)
      requires Valid() && lm.ValidWords(b) && lm.ValidWords(r) && j < |Pointers(b, false)| <= |b|
      requires Joins(left, gain, done, b, j, r, bos) && (!done ==> r != [])
      requires Carries(b[|b| - j..], add, back, History(r, bos))
      requires var m := Pointers(b, false)[j];
               && lm.Has(m)
               && prob == lm.ExtendedScore(m, add, back) - lm.table[m].rest
               && rest == lm.ExtendedRest(m, add) - lm.table[m].rest
               && (independent <==> !lm.Open(m + add))
               && (!independent ==> extended == m + add)
               && next == lm.NextUse(m, add)
               && forall i :: 0 <= i < next ==> lm.HoldsAfter(nextBack, m, add, i)
      ensures var open := !done && !independent;
              Joins(if open then left + [extended] else left, gain + (if open then rest else prob),
                    done || independent || next != |Right(r, bos).words|, b, j + 1, r, bos)
      ensures next <= |add| && Carries(b[|b| - (j + 1)..], add[..next], nextBack, History(r, bos))
      ensures next == lm.NextUse(b[|b| - (j + 1)..], History(r, bos))
    {
      ExtendStep(left, gain, done, b, j, r, bos, add, back);
      NextCarries(b[|b| - j - 1..], add, back, History(r, bos), nextBack);
    }

    /** Before the extension: the pointer is an open n-gram and there is room for one more. */
    lemma ExtendReady(left: seq<Gram>, gain: real, done: bool, b: seq<Word>, j: nat, r: seq<Word>, bos: bool,
                      add: seq<Word>, back: seq<Backoff>)
      requires Valid() && lm.ValidWords(b) && lm.ValidWords(r) && j < |Pointers(b, false)|
      requires j <= |b| && Joins(left, gain, done, b, j, r, bos) && (!done ==> r != [])
      requires Carries(b[|b| - j..], add, back, History(r, bos))
      ensures |Pointers(b, false)| <= |b| && |add| < lm.order
      ensures var m := Pointers(b, false)[j];
              lm.Open(m) && |m| == j + 1 && |left| <= lm.order - 2 + (if !done && lm.Open(m + add) then 0 else 1)
    {
      PointersLength(b, false);
      ExtendStep(left, gain, done, b, j, r, bos, add, back);
    }

    /** Early exit in terms of the pointer buffer. */
    lemma ExitPlan(left: seq<Gram>, gain: real, b: seq<Word>, j: nat, r: seq<Word>, bos: bool, pointers: seq<Gram>)
      requires Valid() && lm.ValidWords(b) && lm.ValidWords(r)
      requires pointers == Pointers(b, false) && 0 < j <= |pointers| && j <= |b|
      requires Joins(left, gain, true, b, j, r, bos)
      requires lm.StateLength(b[|b| - j..] + History(r, bos)) <= j
      ensures |Right(b, false).words| < lm.order
      ensures Builds(left, Right(b, false), true, b + r, bos)
      ensures forall i :: 0 <= i < |pointers| ==> lm.Has(pointers[i])
      ensures gain + lm.UnRestSum(pointers[j..]) == Gain(b, r, bos)
    {
      PointersStored(b, false);
      PointersLength(b, false);
      RightRepresents(b, false);
      EarlyExit(left, gain, b, j, r, bos);
      PointersOfPart(b, j);
    }

    lemma {:induction false} OpenParts(c: seq<Word>, r: seq<Word>)
      requires AllOpen(c + r)
      ensures AllOpen(r)
    {
      if c == [] {
        assert c + r == r;
      } else {
        assert (c + r)[1..] == c[1..] + r;
        OpenParts(c[1..], r);
      }
    }

    /** What joining the whole of `b` changes in the sum of the two scores. */
    function Gain(b: seq<Word>, r: seq<Word>, bos: bool): real
      requires lm.WellFormed() && lm.ValidWords(b) && lm.ValidWords(r)
    {
      Cost(b + r, bos) - Cost(r, bos) - Cost(b, false)
    }

    /** Nothing to the left matters after j words: the rest of `b` only needs its rest costs exchanged. */
    lemma EarlyExit(left: seq<Gram>, gain: real, b: seq<Word>, j: nat, r: seq<Word>, bos: bool)
      requires Valid() && lm.ValidWords(b) && lm.ValidWords(r) && b != [] && j <= |b|
      requires Joins(left, gain, true, b, j, r, bos)
      requires lm.StateLength(b[|b| - j..] + History(r, bos)) <= j
      ensures Builds(left, lm.Minimal(b), true, b + r, bos)
      ensures |Pointers(b[|b| - j..], false)| <= |Pointers(b, false)|
      ensures gain + UnRestFrom(b, |Pointers(b[|b| - j..], false)|) == Gain(b, r, bos)
    {
      SettledTail(b, j, r, bos);
      assert History(b + r, bos) == b + History(r, bos);
    }

    /** The leading words that pointers stand for have a pointer each. */
    lemma PointersOfPart(b: seq<Word>, j: nat)
      requires j <= |Pointers(b, false)| <= |b|
      ensures |Pointers(b[|b| - j..], false)| == j
      ensures AllOpen(b[|b| - j..]) || 0 < j
    {
      if 0 < j {
        PointerAt(b, false, j - 1);
        var c := b[|b| - j..];
        assert c[1..] == b[|b| - (j - 1)..];
        NotFullIsOpen(c[1..], false);
        OpenPointers(c[1..]);
      }
    }

    lemma {:induction false} PointersGrow(b: seq<Word>, j: nat)
      requires j <= |b|
      ensures |Pointers(b[|b| - j..], false)| <= |Pointers(b, false)|
    {
      if j == |b| {
        assert b[0..] == b;
      } else {
        PointersGrow(b[1..], j);
        assert b[1..][|b| - 1 - j..] == b[|b| - j..];
      }
    }

    /** A full fragment whose pointers all still matter to the right has an independent word behind them. */
    lemma WordBehindPointers(b: seq<Word>, j: nat, a: seq<Word>, n: nat)
      requires Valid() && j == |Pointers(b, false)| <= |b| && Full(b, false)
      requires 0 < j ==> 0 < n && lm.StateLength(b[|b| - j..] + a) == j + n < lm.order
      ensures j < |b| && j + 1 < lm.order
      ensures !lm.Open(b[|b| - j - 1..])
    {
      var c := b[|b| - j..];
      PointersOfPart(b, j);
      if 0 < j {
        PointerAt(b, false, j - 1);
        assert c[1..] == b[|b| - (j - 1)..];
        lm.StateLengthIs(c + a);
        lm.ExtPrefix((c + a)[..j + n], j);
        assert (c + a)[..j + n][..j] == c;
      }
      assert !Full(c, false);
      assert j == |b| ==> c == b;
      var d := b[|b| - j - 1..];
      assert d[1..] == c;
      PointersGrow(b, j + 1);
    }

    lemma IndependentStep(left: seq<Gram>, gain: real, done: bool, b: seq<Word>, j: nat, r: seq<Word>, bos: bool,
                          add: seq<Word>, back: seq<Backoff>)
      requires Valid() && lm.ValidWords(b) && lm.ValidWords(r) && j < |b| && j + 1 < lm.order
      requires Joins(left, gain, done, b, j, r, bos)
      requires Carries(b[|b| - j..], add, back, History(r, bos))
      requires !lm.Open(b[|b| - j - 1..])
      ensures Joins(left, gain + Total(back[..|add|]), true, b, j + 1, r, bos)
      ensures lm.StateLength(b[|b| - (j + 1)..] + History(r, bos)) <= j + 1
    {
      var c, d, a := b[|b| - j..], b[|b| - j - 1..], History(r, bos);
      var w := d[0];
      assert d == [w] + c && d[1..] == c;
      assert d + a == [w] + c + a;
      IndependentWord(w, c, add, back, a);
      StaysClosed(d, r);
      ClosedWord(w, c, r, bos, done);
    }

    /** A word that is not open is scored by its textbook probability, before and after joining. */
    lemma ClosedWord(w: Word, c: seq<Word>, r: seq<Word>, bos: bool, done: bool)
      requires lm.WellFormed() && w < lm.bound && lm.ValidWords(c) && lm.ValidWords(r)
      requires !lm.Open([w] + c) && !lm.Open([w] + c + r) && DoneFlag(done, c + r, bos)
      ensures Cost([w] + c, false) - Cost(c, false) == lm.Textbook(w, c)
      ensures Cost([w] + c + r, bos) - Cost(c + r, bos) == lm.Textbook(w, c + History(r, bos))
      ensures Pointers([w] + c + r, bos) == Pointers(c + r, bos)
      ensures Full([w] + c + r, bos)
    {
      assert ([w] + c + r)[1..] == c + r && ([w] + c)[1..] == c;
      assert History(c + r, bos) == c + History(r, bos) && History(c, false) == c;
    }

    lemma StaysClosed(d: Gram, r: seq<Word>)
      requires lm.WellFormed() && d != [] && |d| < lm.order && !lm.Open(d)
      ensures !lm.Open(d + r)
    {
      if r == [] {
        assert d + r == d;
      } else if lm.Has(d + r) {
        assert (d + r)[..|d|] == d;
        lm.HasPrefixDependent(d + r, |d|);
      }
    }

    /** The word behind the last pointer adds none. */
    lemma PointersBehind(b: seq<Word>, j: nat)
      requires j == |Pointers(b, false)| < |b|
      ensures |Pointers(b[|b| - (j + 1)..], false)| == j
    {
      PointersOfPart(b, j);
      PointersGrow(b, j + 1);
      var d := b[|b| - (j + 1)..];
      assert d[1..] == b[|b| - j..];
    }

    /** Nothing to the left matters after the word behind the last pointer. */
    lemma ExitBehindPointers(left: seq<Gram>, gain: real, b: seq<Word>, r: seq<Word>, bos: bool)
      requires Valid() && lm.ValidWords(b) && lm.ValidWords(r) && |Pointers(b, false)| < |b|
      requires Joins(left, gain, true, b, |Pointers(b, false)| + 1, r, bos)
      requires lm.StateLength(b[|b| - (|Pointers(b, false)| + 1)..] + History(r, bos)) <= |Pointers(b, false)| + 1
      ensures Builds(left, lm.Minimal(b), true, b + r, bos)
      ensures gain == Gain(b, r, bos)
    {
      hide *;
      var j := |Pointers(b, false)|;
      assert UnRestFrom(b, j) == 0.0 by {
        NoneToUnRest(b);
      }
      PointersBehind(b, j);
      EarlyExit(left, gain, b, j + 1, r, bos);
    }

    lemma NoneToUnRest(b: seq<Word>)
      ensures UnRestFrom(b, |Pointers(b, false)|) == 0.0
    {
    }

    /** All open words of `b` have been joined and `b` is full: its next word is independent of what is to the
        left and takes the carried back-offs. */
    lemma IndependentJoin(left: seq<Gram>, gain: real, done: bool, b: seq<Word>, j: nat, r: seq<Word>, bos: bool,
                          add: seq<Word>, back: seq<Backoff>)
      requires Valid() && lm.ValidWords(b) && lm.ValidWords(r)
      requires j == |Pointers(b, false)| <= |b| && Full(b, false)
      requires Joins(left, gain, done, b, j, r, bos)
      requires Carries(b[|b| - j..], add, back, History(r, bos))
      requires |add| <= |back|
      requires 0 < j ==> add != [] && lm.StateLength(b[|b| - j..] + History(r, bos)) == j + |add| < lm.order
      ensures b != [] && Builds(left, lm.Minimal(b), true, b + r, bos)
      ensures gain + Total(back[..|add|]) == Gain(b, r, bos)
    {
      hide *;
      WordBehindPointers(b, j, History(r, bos), |add|);
      IndependentStep(left, gain, done, b, j, r, bos, add, back);
      ExitBehindPointers(left, gain + Total(back[..|add|]), b, r, bos);
    }

    /** All words of `b` are open and have been joined. */
    lemma OpenEnd(left: seq<Gram>, gain: real, done: bool, b: seq<Word>, r: seq<Word>, bos: bool,
                  add: seq<Word>, back: seq<Backoff>)
      requires Valid() && lm.ValidWords(b) && lm.ValidWords(r) && b != [] && !Full(b, false)
      requires Joins(left, gain, done, b, |b|, r, bos)
      requires Carries(b, add, back, History(r, bos))
      requires lm.StateLength(b + History(r, bos)) == |b| + |add|
      ensures |Pointers(b, false)| == |b| == |Right(b, false).words|
      ensures Builds(left, RightState(b + add, Right(b, false).backoff + back[..|add|]), done, b + r, bos)
      ensures gain == Gain(b, r, bos)
    {
      assert b[|b| - |b|..] == b;
      NotFullIsOpen(b, false);
      OpenPointers(b);
      OpenState(b);
      OpenJoin(b, r, bos, add, back);
    }

    // ----- the cases of a join -----

    lemma EmptyJoin(b: seq<Word>, r: seq<Word>, bos: bool)
      requires lm.WellFormed() && lm.ValidWords(b) && lm.ValidWords(r)
      requires Pointers(b, false) == [] && !Full(b, false)
      ensures b == [] && b + r == r && Gain(b, r, bos) == 0.0
    {
      NotFullIsOpen(b, false);
      OpenPointers(b);
      assert b + r == r;
    }

    /** `b` starts with an independent word. */
    lemma IndependentStart(left: seq<Gram>, right: RightState, done: bool, b: seq<Word>, r: seq<Word>, bos: bool)
      requires Valid() && lm.ValidWords(b) && Builds(left, right, done, r, bos)
      requires Pointers(b, false) == [] && Full(b, false)
      ensures lm.ValidWords(r) && |Right(b, false).words| < lm.order
      ensures Builds(left, Right(b, false), true, b + r, bos)
      ensures Total(right.backoff) == Gain(b, r, bos)
    {
      NothingJoined(left, right, done, b, r, bos);
      assert b[|b| - 0..] == [] && right.backoff[..|right.words|] == right.backoff;
      RightRepresents(b, false);
      IndependentJoin(left, 0.0, done, b, 0, r, bos, right.words, right.backoff);
    }

    /** There is no right state to join with. */
    lemma NoContext(left: seq<Gram>, right: RightState, done: bool, b: seq<Word>, r: seq<Word>, bos: bool)
      requires Valid() && lm.ValidWords(b) && Builds(left, right, done, r, bos) && right.words == []
      requires Pointers(b, false) != []
      ensures lm.ValidWords(r) && |Right(b, false).words| < lm.order
      ensures |Pointers(b, false)| < lm.order
      ensures forall i :: 0 <= i < |Pointers(b, false)| ==> lm.Has(Pointers(b, false)[i])
      ensures done ==> && Builds(left, Right(b, false), true, b + r, bos)
                       && lm.UnRestSum(Pointers(b, false)) == Gain(b, r, bos)
      ensures !done ==> && left == []
                        && Builds(Pointers(b, false), Right(b, false), Full(b, false), b + r, bos)
                        && Gain(b, r, bos) == 0.0
    {
      PointersStored(b, false);
      PointersLength(b, false);
      RightRepresents(b, false);
      RightRepresents(r, bos);
      assert b[|b| - 0..] == [] && [] + History(r, bos) == History(r, bos);
      if done {
        NothingJoined(left, right, done, b, r, bos);
        EarlyExit(left, 0.0, b, 0, r, bos);
        assert Pointers(b, false)[0..] == Pointers(b, false);
      } else {
        OpenState(r);
        assert r == [] && b + r == b;
        if !Full(b, false) {
          NotFullIsOpen(b, false);
        }
      }
    }

    /** The loop over the pointers is through and some history still matters. */
    lemma LoopEnd(left: seq<Gram>, gain: real, done: bool, b: seq<Word>, j: nat, r: seq<Word>, bos: bool,
                  add: seq<Word>, back: seq<Backoff>)
      requires Valid() && lm.ValidWords(b) && lm.ValidWords(r)
      requires 0 < j == |Pointers(b, false)| <= |b| && add != [] && |add| <= |back|
      requires Joins(left, gain, done, b, j, r, bos)
      requires Carries(b[|b| - j..], add, back, History(r, bos))
      requires |add| == lm.NextUse(b[|b| - j..], History(r, bos))
      ensures |Right(b, false).words| < lm.order
      ensures Full(b, false) ==> && Builds(left, Right(b, false), true, b + r, bos)
                                 && gain + Total(back[..|add|]) == Gain(b, r, bos)
      ensures !Full(b, false) ==>
                && j == |Right(b, false).words| && j + |add| < lm.order && b == Right(b, false).words
                && Builds(left, RightState(b + add, Right(b, false).backoff + back[..|add|]), done, b + r, bos)
                && gain == Gain(b, r, bos)
    {
      RightRepresents(b, false);
      assert |b[|b| - j..]| == j;
      if Full(b, false) {
        IndependentJoin(left, gain, done, b, j, r, bos, add, back);
      } else {
        NotFullIsOpen(b, false);
        OpenPointers(b);
        OpenState(b);
        assert b[|b| - j..] == b;
        OpenEnd(left, gain, done, b, r, bos, add, back);
      }
    }

    // ----- whole sentences -----

    /** Textbook log-probability of all words in a row. */
    function SentenceScore(r: seq<Word>, bos: bool): real
      requires lm.WellFormed() && lm.ValidWords(r)
    {
      if r == [] then 0.0
      else SentenceScore(r[1..], bos) + lm.Textbook(r[0], History(r[1..], bos))
    }

    /** Behind a sentence start, or with rest costs equal to probabilities, fragment scores are textbook
        probabilities. */
    lemma {:induction false} CostIsTextbook(r: seq<Word>, bos: bool)
      requires lm.WellFormed() && lm.ValidWords(r)
      requires bos || !lm.differentRest
      ensures Cost(r, bos) == SentenceScore(r, bos)
    {
      if r != [] {
        CostIsTextbook(r[1..], bos);
        if !Full(r[1..], bos) && lm.Open(r) {
          NotFullIsOpen(r[1..], bos);
          assert lm.EntryClosed(r);
          assert [r[0]] + r[1..] == r;
          assert r[1..] == [] ==> r == [r[0]];
        }
      }
    }
  }

  /** A nesting of rule applications: each rule adds words and already built fragments from left to right. */
  datatype Derivation = Empty | AddWord(before: Derivation, word: Word) | AddPart(before: Derivation, part: Derivation) {

    /** The words derived, newest first. */
    function Yield(): seq<Word> {
      match this
      case Empty => []
      case AddWord(before, word) => [word] + before.Yield()
      case AddPart(before, part) => part.Yield() + before.Yield()
    }

    /** The words derived, as they stand in the text. */
    function Text(): seq<Word> {
      match this
      case Empty => []
      case AddWord(before, word) => before.Text() + [word]
      case AddPart(before, part) => before.Text() + part.Text()
    }
  }
}
