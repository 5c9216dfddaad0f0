/** The query side of the model: scoring a word from a right state or from a raw context, and extending an
    already scored n-gram to the left. */
module Model {
  import opened NGrams
  import opened Buffers

  datatype FullScoreReturn = FullScoreReturn(prob: real, ngramLength: nat, independentLeft: bool,
                                             extendLeft: Gram, rest: real)

  /** A right state in its fixed-size buffers; only the first `length` positions mean anything. */
  class State {
    const words: array<Word>
    const backoff: array<Backoff>
    var length: nat

    constructor (capacity: nat)
      ensures Valid() && words.Length == capacity && length == 0
      ensures fresh(words) && fresh(backoff)
    {
      words := new Word[capacity](_ => 0);
      backoff := new Backoff[capacity](_ => NoExtension);
      length := 0;
    }

    ghost predicate Valid()
      reads this
    {
      words.Length == backoff.Length && length <= words.Length
    }

    ghost function Value(): RightState
      reads this, words, backoff
      requires Valid()
    {
      RightState(words[..length], backoff[..length])
    }

    /** A copy on the side. */
    constructor Copy(from: State)
      requires from.Valid()
      ensures Valid() && Value() == from.Value() && words.Length == from.words.Length
      ensures fresh(words) && fresh(backoff)
    {
      words := new Word[from.words.Length](i requires 0 <= i < from.words.Length reads from.words => from.words[i]);
      backoff := new Backoff[from.words.Length](i requires 0 <= i < from.backoff.Length reads from.backoff
                                                => from.backoff[i]);
      length := from.length;
    }

    /** Plain assignment of the structure. */
    method Assign(from: State)
      requires Valid() && from.Valid() && from.length <= words.Length
      requires this != from && words != from.words && backoff != from.backoff
      modifies this, words, backoff
      ensures Valid() && Value() == from.Value()
    {
      length := from.length;
      CopyRange(from.words, from.length, words, 0);
      CopyRange(from.backoff, from.length, backoff, 0);
      assert words[..length] == words[0..0 + from.length] && backoff[..length] == backoff[0..0 + from.length];
    }
  }

  class GenericModel {
    const search: Lm
    const begin: Word

    constructor (lm: Lm, beginSentence: Word)
      ensures search == lm && begin == beginSentence
    {
      search, begin := lm, beginSentence;
    }

    /** `ret` carries the weights of the stored n-gram `g`. */
    ghost predicate Found(g: Gram, ret: FullScoreReturn) {
      && search.Has(g)
      && ret.ngramLength == |g|
      && ret.prob == search.table[g].prob
      && ret.rest == search.RestOf(g)
    }

    /** Which n-gram was matched: its length and its rest cost, which for the longest order is its probability. */
    ghost predicate Matched(g: Gram, ret: FullScoreReturn) {
      search.Has(g) && ret.ngramLength == |g| && ret.rest == search.RestOf(g)
    }

    /** `ret` says whether words further to the left can still extend `g`, and if so where to go on. */
    ghost predicate LeftExtension(g: Gram, ret: FullScoreReturn) {
      && (ret.independentLeft <==> !search.Open(g))
      && (!ret.independentLeft ==> ret.extendLeft == g)
    }

    /** What resuming a score at the stored n-gram `g` reports: the longest stored left extension of `g` by the
        words of `hist`. */
    ghost predicate Resumed(g: Gram, hist: seq<Word>, ret: FullScoreReturn)
      requires search.Has(g)
    {
      search.MatchLengthIs(g, hist);
      Found(g + hist[..search.MatchLength(g, hist)], ret) && LeftExtension(g + hist, ret)
    }

    /** The walk over `hist` ends after k words because the next longer n-gram is not stored. */
    lemma StoppedAt(start: Gram, hist: seq<Word>, k: nat, ret: FullScoreReturn)
      requires search.WellFormed() && start != [] && k < |hist|
      requires search.Has(start) && search.Has(start + hist[..k]) && !search.Has(start + hist[..k + 1])
      requires Found(start + hist[..k], ret)
      ensures Resumed(start, hist, ret.(independentLeft := true))
      ensures search.MatchLength(start, hist) == k
      ensures search.StateLength(start + hist) == search.StateLength(start + hist[..k])
    {
      search.WalkStops(start, hist, k);
      search.MatchLengthIs(start, hist);
      assert hist[..|hist|] == hist;
    }

    /** The walk over `hist` ends at the longest order. */
    lemma StoppedAtOrder(start: Gram, hist: seq<Word>, k: nat)
      requires search.WellFormed() && start != [] && k < |hist|
      requires |start| + k == search.order - 1
      requires search.Has(start) && search.Has(start + hist[..k + 1])
      ensures search.MatchLength(start, hist) == k + 1
      ensures !search.Open(start + hist)
      ensures search.StateLength(start + hist) == search.StateLength(start + hist[..k])
    {
      forall n | k + 1 < n <= |hist|
        ensures !search.Has(start + hist[..n])
      {
        assert search.EntryClosed(start + hist[..n]);
      }
      search.MatchLengthUnique(start, hist, k + 1);
      search.StateLengthIs(start + hist);
      search.StateLengthOfPrefix(start + hist, |start| + k);
      assert (start + hist)[..|start| + k] == start + hist[..k];
    }

    /** Writing the next back-off keeps the ones before it. */
    lemma BufferGrows(before: seq<Backoff>, after: seq<Backoff>, start: Gram, hist: seq<Word>, k: nat)
      requires k < |hist| && k < |before| && search.Has(start + hist[..k + 1])
      requires after == before[k := search.table[start + hist[..k + 1]].backoff]
      requires forall i :: 0 <= i < k ==> search.HoldsAfter(before, start, hist, i)
      ensures forall i :: 0 <= i < k + 1 ==> search.HoldsAfter(after, start, hist, i)
    {
      forall i | 0 <= i < k + 1
        ensures search.HoldsAfter(after, start, hist, i)
      {
        if i < k {
          assert search.HoldsAfter(before, start, hist, i);
        }
      }
    }

    /** One more history word on the node of the walk. */
    lemma NextNode(start: Gram, hist: seq<Word>, k: nat)
      requires search.WellFormed() && k < |hist| && start != []
      requires search.Has(start + hist[..k])
      ensures start + hist[..k] + [hist[k]] == start + hist[..k + 1]
      ensures search.Has(start + hist[..k + 1]) ==> !search.table[start + hist[..k]].independentLeft
      ensures search.StateLength(start + hist[..k + 1]) ==
              if search.Ext(start + hist[..k + 1]) then |start| + k + 1 else search.StateLength(start + hist[..k])
    {
      var node, next := start + hist[..k], start + hist[..k + 1];
      PrefixGrows(start, hist, k);
      assert search.EntryClosed(next);
    }

    /** Walks from the stored n-gram `start` through the words of `hist`, oldest last, for as long as the
        n-grams are stored, writing their back-offs. */
    method ResumeScore(hist: seq<Word>, orderMinus2: nat, start: Gram, backoffOut: array<Backoff>, outStart: nat,
                       nextUse0: nat, ret0: FullScoreReturn)
      returns (nextUse: nat, ret: FullScoreReturn)
      requires search.WellFormed()
      requires search.Has(start) && |start| == orderMinus2 + 1 < search.order
      requires Found(start, ret0) && LeftExtension(start, ret0)
      requires outStart + Min(|hist|, search.order - 1 - |start|) <= backoffOut.Length
      modifies backoffOut
      ensures Resumed(start, hist, ret)
      ensures nextUse == if search.StateLength(start + hist) > |start| then search.StateLength(start + hist) else nextUse0
      ensures forall i :: 0 <= i < search.MatchLength(start, hist) && i < search.order - 1 - |start|
                ==> search.HoldsAfter(backoffOut[outStart..], start, hist, i)
      ensures backoffOut[..outStart] == old(backoffOut[..outStart])
    {
      nextUse, ret := nextUse0, ret0;
      search.StateLengthIs(start);
      var node := start;
      var order2 := orderMinus2;
      var k := 0;
      while true
        invariant k <= |hist| && order2 == |node| - 1 <= search.order - 2
        invariant node == start + hist[..k] && search.Has(node)
        invariant Found(node, ret) && LeftExtension(node, ret)
        invariant nextUse == if search.StateLength(node) > |start| then search.StateLength(node) else nextUse0
        invariant forall i :: 0 <= i < k ==> search.HoldsAfter(backoffOut[outStart..], start, hist, i)
        invariant backoffOut[..outStart] == old(backoffOut[..outStart])
        decreases |hist| - k
      {
        if k == |hist| {
          assert hist[..k] == hist;
          search.MatchLengthIs(start, hist);
          return;
        }
        if ret.independentLeft {
          NextNode(start, hist, k);
          StoppedAt(start, hist, k, ret);
          return;
        }
        if order2 == search.order - 2 {
          break;
        }
        NextNode(start, hist, k);
        node := node + [hist[k]];
        if !search.Has(node) {
          StoppedAt(start, hist, k, ret);
          ret := ret.(independentLeft := true);
          return;
        }
        var entry := search.table[node];
        ghost var buffer := backoffOut[outStart..];
        backoffOut[outStart + k] := entry.backoff;
        BufferGrows(buffer, backoffOut[outStart..], start, hist, k);
        ret := FullScoreReturn(entry.prob, order2 + 2, entry.independentLeft,
                               node, entry.rest);
        if entry.backoff.HasExtension() {
          nextUse := ret.ngramLength;
        }
        k := k + 1;
        order2 := order2 + 1;
      }
      ret := ret.(independentLeft := true);
      NextNode(start, hist, k);
      var longest := node + [hist[k]];
      if search.Has(longest) {
        StoppedAtOrder(start, hist, k);
      } else {
        StoppedAt(start, hist, k, ret);
      }
      if search.Has(longest) {
        ret := ret.(prob := search.table[longest].prob, rest := search.table[longest].prob,
        ngramLength := search.order);
      }
    }

    /** Copies the history behind the word already written at position 0. */
    method CopyRemainingHistory(from: seq<Word>, outState: State)
      requires outState.Valid() && outState.length <= 1 + |from|
      modifies outState.words
      ensures outState.words[..outState.length] ==
              if outState.length == 0 then [] else [old(outState.words[0])] + from[..outState.length - 1]
    {
      var i := 1;
      while i < outState.length
        invariant 1 <= i && (i <= outState.length || outState.length == 0)
        invariant 0 < outState.length ==> outState.words[..i] == [old(outState.words[0])] + from[..i - 1]
      {
        outState.words[i] := from[i - 1];
        i := i + 1;
      }
    }

    /** Without any longer context, the state is the word itself if that can matter. */
    lemma FirstWordState(word: Word, context: seq<Word>)
      requires search.WellFormed()
      ensures search.StateLength([word] + context) < search.order
      ensures search.StateLength([word] + context) <= 1 + |context|
      ensures search.StateLength([word] + context) <= 1 ==>
                search.StateLength([word] + context) == if search.Ext([word]) then 1 else 0
    {
      search.StateLengthIs([word] + context);
      assert ([word] + context)[..1] == [word];
    }

    /** The state of a word and its context uses no more context than the word's longest stored n-gram. */
    lemma StateWithinMatch(word: Word, context: seq<Word>)
      requires search.WellFormed() && search.Has([word])
      ensures search.StateLength([word] + context) <= 1 + search.MatchLength([word], context)
    {
      var n := search.StateLength([word] + context);
      search.StateLengthIs([word] + context);
      if 1 < n {
        assert ([word] + context)[..n] == [word] + context[..n - 1];
        search.MatchLengthIs([word], context);
      }
    }

    /** Position i behind the word comes from the walk over the context. */
    lemma AssembledPosition(word: Word, context: seq<Word>, backoff: seq<Backoff>, i: nat)
      requires 0 < i <= |context| && i < |backoff|
      requires search.HoldsAfter(backoff[1..], [word], context, i - 1)
      ensures backoff[i] == search.EntryBackoff(([word] + context)[..i + 1])
    {
      assert ([word] + context)[..i + 1] == [word] + context[..i];
    }

    /** The buffers written for the word and for the walk over its context make up the minimised state. */
    lemma AssembledState(word: Word, context: seq<Word>, words: seq<Word>, backoff: seq<Backoff>)
      requires search.WellFormed() && search.Has([word])
      requires |words| == search.StateLength([word] + context) <= |backoff| && |words| <= 1 + |context|
      requires words == if words == [] then [] else [word] + context[..|words| - 1]
      requires backoff != [] && backoff[0] == search.table[[word]].backoff
      requires forall i :: 0 <= i < search.MatchLength([word], context) && i < search.order - 2
                 ==> search.HoldsAfter(backoff[1..], [word], context, i)
      ensures RightState(words, backoff[..|words|]) == search.Minimal([word] + context)
    {
      var h := [word] + context;
      var n := |words|;
      forall i | 0 <= i < n
        ensures backoff[i] == search.EntryBackoff(h[..i + 1])
      {
        if i == 0 {
          assert h[..1] == [word];
        } else {
          FirstWordState(word, context);
          StateWithinMatch(word, context);
          AssembledPosition(word, context, backoff, i);
        }
      }
      assert words == h[..n];
      search.ContextBackoffsAre(h, backoff[..n]);
    }

    /** Scores `word` after `context` except for back-offs, leaving the minimised state in `outState`. */
    method ScoreExceptBackoff(context: seq<Word>, word: Word, outState: State) returns (ret: FullScoreReturn)
      requires search.WellFormed() && word < search.bound
      requires |context| < search.order
      requires outState.Valid() && search.order - 1 <= outState.words.Length
      modifies outState, outState.words, outState.backoff
      ensures search.Has([word]) && Resumed([word], context, ret)
      ensures outState.Valid() && outState.Value() == search.Minimal([word] + context)
    {
      var node := [word];
      var uni := search.table[node];
      ret := FullScoreReturn(uni.prob, 1, uni.independentLeft, node, uni.rest);
      outState.backoff[0] := uni.backoff;
      outState.length := if uni.backoff.HasExtension() then 1 else 0;
      outState.words[0] := word;
      if context == [] {
        FirstWordState(word, context);
        assert [word] + context == node;
        AssembledState(word, context, outState.words[..outState.length], outState.backoff[..]);
        return;
      }
      var length;
      length, ret := ResumeScore(context, 0, node, outState.backoff, 1, outState.length, ret);
      FirstWordState(word, context);
      outState.length := length;
      CopyRemainingHistory(context, outState);
      assert outState.backoff[0] == outState.backoff[..1][0];
      AssembledState(word, context, outState.words[..length], outState.backoff[..]);
    }

    /** Adds the back-offs at [from, to) of a buffer to a score. */
    method Charge(score: real, buffer: array<Backoff>, from: nat, to: nat) returns (total: real)
      requires from <= to <= buffer.Length
      ensures total == score + Total(buffer[from..to])
    {
      total := score;
      for i := from to to
        invariant total == score + Total(buffer[from..i])
      {
        total := total + buffer[i].Value();
        assert buffer[from..i + 1][..i - from] == buffer[from..i];
      }
    }

    /** The longest match of a word plus the back-offs of the longer contexts is its textbook probability. */
    lemma ChargedScore(word: Word, s: RightState, h: seq<Word>)
      requires search.WellFormed() && search.Has([word]) && search.Represents(s, h)
      ensures search.MatchLength([word], s.words) <= |s.backoff|
      ensures search.Has([word] + s.words[..search.MatchLength([word], s.words)])
      ensures search.table[[word] + s.words[..search.MatchLength([word], s.words)]].prob
              + Total(s.backoff[search.MatchLength([word], s.words)..]) == search.Textbook(word, h)
    {
      var t := s.words;
      search.TextbookClosedForm(word, t);
      search.RepresentsSuffices(s, h, word);
      forall i | 0 <= i < |t|
        ensures search.HoldsAfter(s.backoff, [], t, i)
      {
        assert search.Holds(s.backoff, h, i);
        assert t[..i + 1] == h[..i + 1];
      }
      var m := search.MatchLength([word], t);
      search.BufferIsBackoffSum(s.backoff, [], t, m);
      assert [] + t == t && s.backoff[m..|t|] == s.backoff[m..];
    }

    /** Scores `word` from a right state and moves to the next state. `h` is any history that `inState`
        represents: the score is the textbook probability after the whole of `h`, whatever the state dropped. */
    method FullScore(inState: State, word: Word, outState: State, ghost h: seq<Word>) returns (ret: FullScoreReturn)
      requires search.WellFormed() && word < search.bound
      requires inState.Valid() && search.Represents(inState.Value(), h)
      requires outState.Valid() && search.order - 1 <= outState.words.Length
      requires inState != outState && inState.words != outState.words && inState.backoff != outState.backoff
      modifies outState, outState.words, outState.backoff
      ensures ret.prob == search.Textbook(word, h)
      ensures outState.Valid() && outState.Value() == search.Minimal([word] + h)
      ensures search.Has([word]) && search.MatchLength([word], h) <= |h|
      ensures Matched([word] + h[..search.MatchLength([word], h)], ret)
      ensures LeftExtension([word] + inState.Value().words, ret)
      ensures !ret.independentLeft ==> ret.rest == search.table[[word] + inState.Value().words].rest
    {
      ghost var s := inState.Value();
      ret := ScoreExceptBackoff(inState.words[..inState.length], word, outState);
      assert outState.Value() == search.Minimal([word] + h) by {
        search.RepresentsSuffices(s, h, word);
      }
      ChargedScore(word, s, h);
      search.MatchNeedsOnlyState(s, h, word);
      assert s.words[..|s.words|] == s.words;
      var prob := Charge(ret.prob, inState.backoff, ret.ngramLength - 1, inState.length);
      assert s.backoff[ret.ngramLength - 1..] == inState.backoff[ret.ngramLength - 1..inState.length];
      ret := ret.(prob := prob);
    }

    /** Adds the back-offs of the stored contexts of at least `start` words, looking them up one by one. */
    method ChargeContexts(context: seq<Word>, start: nat, score: real) returns (total: real)
      requires search.WellFormed() && search.ValidWords(context)
      requires 1 <= start <= |context| < search.order
      requires 1 < start ==> search.Has(context[..start - 1])
      ensures total == score + search.BackoffSum(context, start - 1)
    {
      total := score;
      var node, i := context[..start - 1], start - 1;
      if start <= 1 {
        node := [context[0]];
        assert context[..1] == node && context[..0] == [];
        total := total + search.table[node].backoff.Value();
        i := 1;
      }
      while i < |context|
        invariant 1 <= i <= |context| && start - 1 <= i
        invariant node == context[..i]
        invariant total == score + search.BackoffSum(context[..i], start - 1)
      {
        node := node + [context[i]];
        assert node == context[..i + 1] && node[..i] == context[..i];
        if !search.Has(node) {
          search.NoLongerContext(context, start - 1, i);
          return;
        }
        total := total + search.table[node].backoff.Value();
        i := i + 1;
      }
      assert context[..i] == context;
    }

    /** Scores `word` from a raw history, newest word first, without any state. */
    method FullScoreForgotState(history: seq<Word>, word: Word, outState: State) returns (ret: FullScoreReturn)
      requires search.WellFormed() && word < search.bound && search.ValidWords(history)
      requires outState.Valid() && search.order - 1 <= outState.words.Length
      modifies outState, outState.words, outState.backoff
      ensures ret.prob == search.Textbook(word, history)
      ensures outState.Valid() && outState.Value() == search.Minimal([word] + history)
      ensures search.Has([word]) && search.MatchLength([word], history) <= |history|
      ensures Matched([word] + history[..search.MatchLength([word], history)], ret)
      ensures LeftExtension([word] + search.LastWords(history), ret)
    {
      var context := if search.order - 1 < |history| then history[..search.order - 1] else history;
      assert context == search.LastWords(history);
      ret := ScoreExceptBackoff(context, word, outState);
      assert outState.Value() == search.Minimal([word] + history) by {
        search.LastWordsState(word, history);
      }
      search.TextbookClosedForm(word, context);
      search.TextbookLastWords(word, history);
      search.LastWordsMatch(word, history);
      if |context| < ret.ngramLength {
        return;
      }
      if 1 < ret.ngramLength {
        search.ContextOfMatch(word, context[..ret.ngramLength - 1]);
      }
      var prob := ChargeContexts(context, ret.ngramLength, ret.prob);
      ret := ret.(prob := prob);
    }

    method CopyWords(from: seq<Word>, outState: State)
      requires outState.Valid() && outState.length <= |from|
      modifies outState.words
      ensures outState.words[..outState.length] == from[..outState.length]
    {
      for k := 0 to outState.length
        invariant outState.words[..k] == from[..k]
      {
        outState.words[k] := from[k];
      }
    }

    /** Looks the contexts up one by one, writing their back-offs; `length` is the longest one worth keeping. */
    method FillContext(context: seq<Word>, backoff: array<Backoff>) returns (length: nat)
      requires search.WellFormed() && search.ValidWords(context)
      requires 1 <= |context| <= backoff.Length && |context| < search.order
      modifies backoff
      ensures length == search.StateLength(context) <= |context|
      ensures backoff[..length] == search.ContextBackoffs(context, length)
    {
      var node := [context[0]];
      backoff[0] := search.table[node].backoff;
      length := if backoff[0].HasExtension() then 1 else 0;
      var i := 1;
      assert node == context[..1] && search.ContextBackoffs(context, 1) == [backoff[0]];
      search.NextContext(context, 0);
      while i < |context|
        invariant 1 <= i <= |context| && node == context[..i]
        invariant length == search.StateLength(node) <= i
        invariant backoff[..i] == search.ContextBackoffs(context, i)
      {
        search.NextContext(context, i);
        node := node + [context[i]];
        if !search.Has(node) {
          search.NoLongerContext(context, 0, i);
          break;
        }
        backoff[i] := search.table[node].backoff;
        if backoff[i].HasExtension() {
          length := i + 1;
        }
        assert backoff[..i + 1] == backoff[..i] + [backoff[i]];
        i := i + 1;
      }
      assert context[..|context|] == context;
      search.ContextBackoffsPrefix(context, i, length);
      assert backoff[..i][..length] == backoff[..length];
    }

    /** Rebuilds a right state from a raw history. */
    method GetState(history: seq<Word>, outState: State)
      requires search.WellFormed() && search.ValidWords(history)
      requires outState.Valid() && search.order - 1 <= outState.words.Length
      modifies outState, outState.words, outState.backoff
      ensures outState.Valid() && outState.Value() == search.Minimal(history)
    {
      var context := if search.order - 1 < |history| then history[..search.order - 1] else history;
      assert context == search.LastWords(history);
      search.StateIsLastWords(history);
      if context == [] {
        outState.length := 0;
        return;
      }
      var length := FillContext(context, outState.backoff);
      outState.length := length;
      CopyWords(context, outState);
    }

    /** Extends the stored n-gram `pointer` to the left by the words of `add`. The score and the rest cost
        returned are relative to the rest cost `pointer` was reported with. */
    method ExtendLeft(add: seq<Word>, backoffIn: array<Backoff>, pointer: Gram, extendLength: nat,
                      backoffOut: array<Backoff>)
      returns (nextUse: nat, ret: FullScoreReturn)
      requires search.WellFormed() && search.Open(pointer) && |pointer| == extendLength
      requires |add| <= backoffIn.Length && backoffIn != backoffOut
      requires |add| <= backoffOut.Length
      modifies backoffOut
      ensures ret.prob == search.ExtendedScore(pointer, add, backoffIn[..]) - search.table[pointer].rest
      ensures ret.rest == search.ExtendedRest(pointer, add) - search.table[pointer].rest
      ensures LeftExtension(pointer + add, ret)
      ensures search.Has(pointer) && ret.ngramLength == |pointer| + search.MatchLength(pointer, add)
      ensures nextUse == search.NextUse(pointer, add)
      ensures forall i :: 0 <= i < nextUse ==> search.HoldsAfter(backoffOut[..], pointer, add, i)
    {
      var entry := search.table[pointer];
      assert search.EntryClosed(pointer);
      ret := FullScoreReturn(entry.prob, extendLength, false, pointer, entry.rest);
      var subtractMe := ret.rest;
      nextUse, ret := ResumeScore(add, extendLength - 1, pointer, backoffOut, 0, extendLength, ret);
      search.MatchLengthIs(pointer, add);
      NextUseWithinMatch(pointer, add);
      nextUse := nextUse - extendLength;
      assert backoffOut[0..] == backoffOut[..];
      var prob := Charge(ret.prob, backoffIn, ret.ngramLength - extendLength, |add|);
      assert backoffIn[..][search.MatchLength(pointer, add)..|add|] == backoffIn[search.MatchLength(pointer, add)..|add|];
      ret := ret.(prob := prob - subtractMe, rest := ret.rest - subtractMe);
    }

    /** The words of `add` still usable after `pointer` are all matched, and shorter than the longest order. */
    lemma NextUseWithinMatch(pointer: Gram, add: seq<Word>)
      requires search.WellFormed() && search.Has(pointer)
      ensures search.StateLength(pointer + add) <= |pointer| + search.MatchLength(pointer, add)
      ensures search.StateLength(pointer + add) < search.order
    {
      var n := search.StateLength(pointer + add);
      search.StateLengthIs(pointer + add);
      search.MatchLengthIs(pointer, add);
      if |pointer| < n {
        assert (pointer + add)[..n] == pointer + add[..n - |pointer|];
      }
    }

    /** Probability minus rest cost for the pointers at [from, to). */
    method UnRest(pointers: array<Gram>, from: nat, to: nat) returns (total: real)
      requires search.WellFormed() && from <= to <= pointers.Length
      requires forall i :: from <= i < to ==> search.Has(pointers[i])
      ensures total == search.UnRestSum(pointers[from..to])
    {
      total := 0.0;
      if !search.differentRest {
        search.UnRestIsZero(pointers[from..to]);
        return;
      }
      for i := from to to
        invariant total == search.UnRestSum(pointers[from..i])
      {
        assert pointers[from..i + 1][..i - from] == pointers[from..i];
        total := total + search.table[pointers[i]].prob - search.table[pointers[i]].rest;
      }
    }

    /** The state after the sentence-start word, kept even when nothing extends it. */
    method BeginSentenceState(outState: State)
      requires search.WellFormed() && begin < search.bound
      requires outState.Valid() && 1 <= outState.words.Length
      modifies outState, outState.words, outState.backoff
      ensures outState.Valid()
      ensures outState.Value() == RightState([begin], [search.EntryBackoff([begin])])
      ensures search.Represents(outState.Value(), [begin])
    {
      outState.length := 1;
      outState.words[0] := begin;
      outState.backoff[0] := search.table[[begin]].backoff;
      search.StateLengthIs([begin]);
      assert [] + [begin][..1] == [begin];
      assert search.Holds(outState.Value().backoff, [begin], 0);
    }
  }
}
