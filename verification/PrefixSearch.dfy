/** The searches for the path that best matches the typed prefix: by error level, with or without one block of skipped
    transitions, and in one weighted pass with pruning. */
module PrefixSearch {
  import opened PrefixMatch
  import opened SearchPaths
  import opened SearchTable
  import opened SearchResults

  // ----- matches as moves -----

  /** The cost at which the first row of a cost table stops growing. */
  function TableCap(task: Task, output: seq<Word>): nat {
    if task.capped then task.Cap() else |task.prefix.words| + |output|
  }

  predicate IsMatch(task: Task, n: Node, tr: nat, m: Match) {
    if m.prefixMatched < |task.prefix.words| then
      var move := Move(tr, false, m.prefixMatched);
      task.Allowed(n, move) && m.error == task.MoveError(n, move) && m.transitionMatched == |task.Taken(n.state, tr).output|
    else
      var end := Ending(tr, m.transitionMatched);
      m.prefixMatched == |task.prefix.words| && task.MayFinish(n, end) && m.error == task.EndError(n, end)
  }

  lemma CapDoesNotMatter(task: Task, from: nat, output: seq<Word>, i: nat, j: nat)
    requires from + i <= |task.prefix.words| && j <= |output|
    ensures task.prefix.Capped(TableCap(task, output), from, output, i, j) == task.Cost(from, output, i, j)
  {
    if !task.capped {
      task.prefix.CapNotReached(TableCap(task, output), from, output, i, j);
    }
  }

  lemma MatchesAreMoves(task: Task, n: Node, tr: nat, m: Match)
    requires task.HasTransition(n.state, tr) && n.prefixMatched < |task.prefix.words|
    ensures var output := task.Taken(n.state, tr).output;
            var cap := TableCap(task, output);
            task.prefix.Consumes(cap, n.prefixMatched, output, m) || task.prefix.Advances(cap, n.prefixMatched, output, m)
            <==> IsMatch(task, n, tr, m)
  {
    var output := task.Taken(n.state, tr).output;
    if n.prefixMatched < m.prefixMatched < |task.prefix.words| {
      CapDoesNotMatter(task, n.prefixMatched, output, m.prefixMatched - n.prefixMatched, |output|);
    } else if m.prefixMatched == |task.prefix.words| && m.transitionMatched <= |output| {
      CapDoesNotMatter(task, n.prefixMatched, output, |task.prefix.words| - n.prefixMatched, m.transitionMatched);
    }
  }

  ghost predicate MatchCovered(sp: Search, t: Table, n: Node, e: nat, s: real, tr: nat, m: Match)
    requires sp.Valid()
  {
    if m.prefixMatched < |sp.task.prefix.words| then sp.MoveCovered(t, n, e, s, Move(tr, false, m.prefixMatched))
    else sp.EndingCovered(t, n, e, s, Ending(tr, m.transitionMatched))
  }

  lemma GrowsKeepsMatch(sp: Search, t: Table, t': Table, state: nat, n: Node, e: nat, s: real, tr: nat, m: Match)
    requires sp.Valid() && sp.Grows(t, t', state) && MatchCovered(sp, t, n, e, s, tr, m)
    ensures MatchCovered(sp, t', n, e, s, tr, m)
  {
    if m.prefixMatched < |sp.task.prefix.words| {
      sp.GrowsKeepsMove(t, t', state, n, e, s, Move(tr, false, m.prefixMatched));
    } else {
      sp.GrowsKeepsEnding(t, t', state, n, e, s, Ending(tr, m.transitionMatched));
    }
  }

  /** A transition is covered when its matches and, where it may be skipped, the skip are. */
  lemma AllMatchesCovered(sp: Search, t: Table, n: Node, e: nat, s: real, tr: nat, matches: seq<Match>)
    requires sp.Valid() && sp.task.HasTransition(n.state, tr)
    requires forall m: Match :: IsMatch(sp.task, n, tr, m) ==> m in matches
    requires forall k :: 0 <= k < |matches| ==> MatchCovered(sp, t, n, e, s, tr, matches[k])
    requires sp.MoveCovered(t, n, e, s, Move(tr, true, n.prefixMatched))
    ensures sp.TransitionCovered(t, n, e, s, tr)
  {
    forall m: Move | m.transition == tr && sp.task.Allowed(n, m)
      ensures sp.MoveCovered(t, n, e, s, m)
    {
      if m.skip {
        assert m == Move(tr, true, n.prefixMatched);
      } else {
        var match_ := Match(sp.task.MoveError(n, m), m.prefixMatched, |sp.task.Taken(n.state, tr).output|);
        assert m == Move(tr, false, match_.prefixMatched);
        assert IsMatch(sp.task, n, tr, match_);
        assert MatchCovered(sp, t, n, e, s, tr, match_);
      }
    }
    forall x: Ending | x.transition == tr && sp.task.MayFinish(n, x)
      ensures sp.EndingCovered(t, n, e, s, x)
    {
      var match_ := Match(sp.task.EndError(n, x), |sp.task.prefix.words|, x.outputMatched);
      assert x == Ending(tr, match_.transitionMatched);
      assert IsMatch(sp.task, n, tr, match_);
      assert MatchCovered(sp, t, n, e, s, tr, match_);
    }
  }

  /** What each search needs to know of its completions: none below the level; or the best of them, and their greatest error. */
  ghost predicate Tracks(sp: Search, t: Table, level: nat, discoverError: int) {
    match sp.order
    case ErrorFirst => forall l :: 0 <= l < level && l < |t.best| ==> !t.best[l].Set()
    case Weighted(_) =>
      && BestScoreIs(sp, t)
      && (forall l :: 0 <= l < |t.best| && t.best[l].Set() ==> l <= discoverError)
      && (discoverError == -1 || (0 <= discoverError < BestCount - 1 && discoverError < |t.best| && t.best[discoverError].Set()))
  }

  function AfterMatch(sp: Search, t: Table, state: nat, b: BackTransition, tr: nat, m: Match): Table
    requires sp.task.Valid() && IsMatch(sp.task, sp.NodeOf(state, b), tr, m)
    requires |t.back| == |sp.task.graph| && (m.prefixMatched == |sp.task.prefix.words| ==> b.error + m.error < |t.best|)
  {
    if m.prefixMatched < |sp.task.prefix.words| then
      sp.Offer(t, sp.task.Taken(state, tr).toState, sp.NewBack(state, b, Move(tr, false, m.prefixMatched)))
    else
      sp.OfferBest(t, b.error + m.error, sp.NewBest(state, b, Ending(tr, m.transitionMatched)))
  }

  lemma MatchFits(sp: Search, t: Table, level: nat, state: nat, i: nat, tr: nat, m: Match)
    requires sp.Valid() && sp.Ready(t, level, state, i) && IsMatch(sp.task, sp.NodeOf(state, t.back[state][i]), tr, m)
    ensures sp.task.Valid() && |t.back| == |sp.task.graph| && |t.best| == BestCount
    ensures m.prefixMatched <= |sp.task.prefix.words| && (sp.order.ErrorFirst? ==> t.back[state][i].error == level)
    ensures m.prefixMatched == |sp.task.prefix.words| ==>
              t.back[state][i].error + m.error < if sp.order.Weighted? then BestCount - 1 else BestCount
  {
    var b := t.back[state][i];
    assert sp.Linked(t.back, level, state, state, b);
    if m.prefixMatched == |sp.task.prefix.words| {
      sp.EndErrorFits(state, b, Ending(tr, m.transitionMatched));
    }
  }

  /** Processing one match covers it and keeps everything else. */
  lemma MatchStep(sp: Search, t: Table, level: nat, state: nat, i: nat, tr: nat, m: Match)
    requires sp.Valid() && sp.task.Valid() && sp.Ready(t, level, state, i)
    requires IsMatch(sp.task, sp.NodeOf(state, t.back[state][i]), tr, m)
    requires |t.back| == |sp.task.graph|
    requires m.prefixMatched == |sp.task.prefix.words| ==> t.back[state][i].error + m.error < |t.best|
    ensures var b := t.back[state][i];
            var t' := AfterMatch(sp, t, state, b, tr, m);
            sp.Ready(t', level, state, i) && sp.Grows(t, t', state) && MatchCovered(sp, t', sp.NodeOf(state, b), b.error, b.score, tr, m)
  {
    hide Search.Sound, Search.Done, Search.Grows, Search.MoveCovered, Search.EndingCovered, Search.Valid;
    if m.prefixMatched < |sp.task.prefix.words| {
      sp.OfferMove(t, level, state, i, Move(tr, false, m.prefixMatched));
    } else {
      sp.OfferEnding(t, level, state, i, Ending(tr, m.transitionMatched));
    }
  }

  lemma MatchTracks(sp: Search, t: Table, level: nat, state: nat, b: BackTransition, tr: nat, m: Match, discoverError: int)
    requires sp.Valid() && IsMatch(sp.task, sp.NodeOf(state, b), tr, m) && Tracks(sp, t, level, discoverError)
    requires |t.back| == |sp.task.graph| && |t.best| == BestCount
    requires m.prefixMatched == |sp.task.prefix.words| ==> b.error + m.error < if sp.order.Weighted? then BestCount - 1 else BestCount
    requires sp.order.ErrorFirst? ==> b.error == level
    ensures var t' := AfterMatch(sp, t, state, b, tr, m);
            var replaced := m.prefixMatched == |sp.task.prefix.words|
                            && sp.Replaces(sp.NewBest(state, b, Ending(tr, m.transitionMatched)), t.best[b.error + m.error]);
            Tracks(sp, t', level, if replaced && b.error + m.error < BestCount - 1 && discoverError < b.error + m.error
                                  then b.error + m.error else discoverError)
  {
    if m.prefixMatched == |sp.task.prefix.words| && sp.order.Weighted? {
      OfferBestScore(sp, t, b.error + m.error, sp.NewBest(state, b, Ending(tr, m.transitionMatched)));
    }
  }

  // ----- scanning a list of back transitions -----

  lemma {:induction false} RecordFound(o: Order, l: seq<BackTransition>, b: BackTransition, i: nat)
    requires i < |l| && l[i].SameKey(b) && forall k :: 0 <= k < i ==> !l[k].SameKey(b)
    ensures Record(o, l, b) == if o.Improves(b, l[i]) then l[i := b] else l
  {
    if 0 < i {
      RecordFound(o, l[1..], b, i - 1);
      assert l == [l[0]] + l[1..];
    }
  }

  lemma {:induction false} RecordNotFound(o: Order, l: seq<BackTransition>, b: BackTransition)
    requires forall k :: 0 <= k < |l| ==> !l[k].SameKey(b)
    ensures Record(o, l, b) == l + [b]
  {
    if l != [] {
      RecordNotFound(o, l[1..], b);
      assert l == [l[0]] + l[1..];
    }
  }

  lemma SoundShape(sp: Search, t: Table, level: nat, state: nat)
    requires sp.Valid() && sp.Sound(t, level, state)
    ensures |t.back| == |sp.task.graph| && |t.best| == BestCount
  {
  }

  lemma FreshTracks(sp: Search, t: Table)
    requires sp.order.Weighted? && Fresh(sp, t) && t.bestScore == Floor
    ensures Tracks(sp, t, 0, -1)
  {
  }

  /** No complete path is worth more than what the weighted pass starts from. */
  ghost predicate NothingAboveFloor(task: Task, order: Order)
    requires task.Valid() && order.Weighted?
  {
    forall p, x :: task.Complete(p, x) ==> order.Value(task.TotalError(p, x), task.TotalScore(p, x)) <= Floor
  }

  ghost predicate NoPath(task: Task) {
    forall p, x :: !task.Complete(p, x)
  }

  lemma SearchStarts(sp: Search, t: Table, discoverError: int)
    requires sp.Valid() && sp.order.ErrorFirst?
    ensures |sp.task.prefix.words| < BestCount - 1 && Tracks(sp, t, 0, discoverError)
  {
  }

  lemma SearchEnds(sp: Search, t: Table, level: nat, discoverError: int)
    requires sp.Valid() && sp.order.ErrorFirst? && sp.Sound(t, level, |t.back|) && sp.Done(t, level, |t.back|)
    requires level <= |sp.task.prefix.words| && level < |t.best| && t.best[level].Set() && Tracks(sp, t, level, discoverError)
    ensures Uncapped(sp.task).Valid() && LeastError(Uncapped(sp.task), level, t.best[level].score)
  {
    LevelReached(sp, t, level);
  }

  lemma SearchGoesOn(sp: Search, t: Table, level: nat, discoverError: int)
    requires sp.Valid() && sp.order.ErrorFirst? && sp.Sound(t, level, |t.back|) && sp.Done(t, level, |t.back|)
    requires level <= |sp.task.prefix.words| && level < |t.best| && !t.best[level].Set() && Tracks(sp, t, level, discoverError)
    ensures Uncapped(sp.task).Valid() && NoPathWithin(Uncapped(sp.task), level)
    ensures sp.Sound(t, level + 1, 0) && sp.Done(t, level + 1, 0) && Tracks(sp, t, level + 1, discoverError)
  {
    LevelsExhausted(sp, t, level);
    NextLevel(sp, t, level);
  }

  lemma NothingFound(sp: Search, t: Table)
    requires sp.Valid() && sp.order.Weighted? && sp.order.weight <= 0.0 && Admissible(sp.task)
    requires sp.Sound(t, 0, |t.back|) && sp.Done(t, 0, |t.back|) && Tracks(sp, t, 0, -1)
    ensures NothingAboveFloor(sp.task, sp.order)
  {
    forall p, x | sp.task.Complete(p, x)
      ensures sp.order.Value(sp.task.TotalError(p, x), sp.task.TotalScore(p, x)) <= Floor
    {
      NothingBetter(sp, t, 0, p, x);
    }
  }

  lemma SomethingFound(sp: Search, t: Table, discoverError: nat, er: nat)
    requires sp.Valid() && sp.order.Weighted? && sp.order.weight <= 0.0 && Admissible(sp.task)
    requires sp.Sound(t, 0, |t.back|) && sp.Done(t, 0, |t.back|) && Tracks(sp, t, 0, discoverError)
    requires er <= discoverError < |t.best|
    requires t.bestScore > Floor ==> t.best[er].Set() && sp.order.Value(er, t.best[er].score) == t.bestScore
    ensures !NoPath(sp.task)
    ensures !NothingAboveFloor(sp.task, sp.order) ==> t.best[er].Set() && GreatestValue(sp.task, sp.order, er, t.best[er].score)
  {
    BestIsComplete(sp, t, 0, |t.back|, discoverError);
    if t.bestScore > Floor {
      BestIsGreatest(sp, t, 0, er);
    } else {
      forall p, x | sp.task.Complete(p, x)
        ensures sp.order.Value(sp.task.TotalError(p, x), sp.task.TotalScore(p, x)) <= Floor
      {
        NothingBetter(sp, t, 0, p, x);
      }
    }
  }

  lemma NoSuchTransition(sp: Search, t: Table, n: Node, e: nat, s: real, tr: nat)
    requires sp.Valid() && !sp.task.HasTransition(n.state, tr)
    ensures sp.TransitionCovered(t, n, e, s, tr)
  {
  }

  lemma ReadyEntry(sp: Search, t: Table, level: nat, state: nat, i: nat)
    requires sp.Valid() && sp.Ready(t, level, state, i)
    ensures sp.InRange(t.back[state][i]) && sp.task.Valid() && |t.back| == |sp.task.graph|
  {
    assert sp.Linked(t.back, level, state, state, t.back[state][i]);
  }

  lemma StateSettledKept(sp: Search, t: Table, t': Table, level: nat, state: nat, upTo: nat)
    requires sp.Valid() && StateSettled(sp, t, level, state, upTo) && sp.Grows(t, t', state)
    ensures StateSettled(sp, t', level, state, upTo)
  {
    forall i | 0 <= i < upTo && i < |t'.back[state]| && (sp.order.ErrorFirst? ==> t'.back[state][i].error == level)
      ensures sp.Settled(t', state, t'.back[state][i])
    {
      sp.GrowsKeepsSettled(t, t', state, state, t'.back[state][i]);
    }
  }

  lemma OneMoreSettled(sp: Search, t: Table, level: nat, state: nat, i: nat)
    requires sp.Valid() && StateSettled(sp, t, level, state, i) && i < |t.back[state]|
    requires (sp.order.ErrorFirst? && t.back[state][i].error != level) || sp.Settled(t, state, t.back[state][i])
    ensures StateSettled(sp, t, level, state, i + 1)
  {
  }

  /** `s` holds the words w, last first. */
  ghost predicate ReadBackwards(s: seq<Word>, w: seq<Word>) {
    |s| == |w| && forall k :: 0 <= k < |s| ==> s[k] == w[|w| - 1 - k]
  }

  function Reversed(s: seq<Word>): (r: seq<Word>)
    ensures ReadBackwards(r, s)
  {
    if s == [] then [] else Reversed(s[1..]) + [s[0]]
  }

  lemma OnlyReverse(s: seq<Word>, w: seq<Word>)
    requires ReadBackwards(s, w)
    ensures s == Reversed(w) && w == Reversed(s)
  {
  }

  lemma {:induction false} ReversedConcat(s: seq<Word>, s': seq<Word>)
    ensures Reversed(s + s') == Reversed(s') + Reversed(s)
  {
    if s == [] {
      assert s + s' == s';
    } else {
      assert (s + s')[1..] == s[1..] + s';
      ReversedConcat(s[1..], s');
    }
  }

  lemma SoundStart(sp: Search, t: Table, level: nat, state: nat)
    requires sp.Valid() && sp.Sound(t, level, state)
    ensures 0 < |t.back| && t.back[0] == [Initial]
  {
  }

  lemma SoundLists(sp: Search, t: Table, level: nat, state: nat)
    requires sp.Valid() && sp.Sound(t, level, state)
    ensures |t.back| == |sp.task.graph| && forall q :: 0 <= q < |t.back| ==> Unique(t.back[q])
  {
  }

  /** The words on the way back from n, last first. */
  ghost function WordsBack(sp: Search, t: Table, level: nat, state: nat, n: Node, skipped: bool): seq<Word>
    requires sp.Valid() && sp.Sound(t, level, state)
    requires n.state < |t.back| && HasKey(t.back[n.state], n.prefixMatched, n.phase)
  {
    TraceIsPath(sp, t, level, state, n);
    Reversed(sp.task.Words(Trace(sp, t, level, state, n), skipped))
  }

  /** What the walk from a best completion back to the initial state finds. */
  ghost predicate IsCompletion(sp: Search, t: Table, level: nat, state: nat, er: nat, matchedPrefix: seq<Word>, jumpedPrefix: seq<Word>)
    requires sp.Valid() && sp.Sound(t, level, state) && er < |t.best| && t.best[er].Set()
  {
    BestIsComplete(sp, t, level, state, er);
    var p := Trace(sp, t, level, state, BestNode(t.best[er]));
    && ReadBackwards(matchedPrefix, sp.task.Words(p, false) + LastWords(sp, t, er))
    && ReadBackwards(jumpedPrefix, sp.task.Words(p, true))
  }

  /** The words of the last transition that match the end of the prefix. */
  ghost function LastWords(sp: Search, t: Table, er: nat): seq<Word>
    requires er < |t.best| && 0 <= t.best[er].fromState && sp.task.HasTransition(t.best[er].fromState, t.best[er].transition)
    requires t.best[er].outputMatched <= |sp.task.Taken(t.best[er].fromState, t.best[er].transition).output|
  {
    sp.task.Taken(t.best[er].fromState, t.best[er].transition).output[..t.best[er].outputMatched]
  }

  lemma BestStart(sp: Search, t: Table, level: nat, state: nat, er: nat)
    requires sp.Valid() && sp.Sound(t, level, state) && er < |t.best| && t.best[er].Set()
    ensures 0 <= t.best[er].fromState < |t.back| && HasKey(t.back[t.best[er].fromState], t.best[er].backMatched, t.best[er].backPhase)
    ensures sp.task.HasTransition(t.best[er].fromState, t.best[er].transition)
    ensures t.best[er].outputMatched <= |sp.task.Taken(t.best[er].fromState, t.best[er].transition).output|
    ensures BestNode(t.best[er]) == Node(t.best[er].fromState, t.best[er].backMatched, t.best[er].backPhase)
    ensures LastWords(sp, t, er) == sp.task.Taken(t.best[er].fromState, t.best[er].transition).output[..t.best[er].outputMatched]
  {
    BestIsComplete(sp, t, level, state, er);
  }

  lemma WalkDone(sp: Search, t: Table, level: nat, state: nat, er: nat, matchedPrefix: seq<Word>, jumpedPrefix: seq<Word>)
    requires sp.Valid() && sp.Sound(t, level, state) && er < |t.best| && t.best[er].Set()
    requires 0 <= t.best[er].fromState < |t.back| && HasKey(t.back[t.best[er].fromState], t.best[er].backMatched, t.best[er].backPhase)
    requires sp.task.HasTransition(t.best[er].fromState, t.best[er].transition)
    requires t.best[er].outputMatched <= |sp.task.Taken(t.best[er].fromState, t.best[er].transition).output|
    requires matchedPrefix == Reversed(LastWords(sp, t, er)) + WordsBack(sp, t, level, state, BestNode(t.best[er]), false)
    requires jumpedPrefix == WordsBack(sp, t, level, state, BestNode(t.best[er]), true)
    ensures IsCompletion(sp, t, level, state, er, matchedPrefix, jumpedPrefix)
  {
    BestIsComplete(sp, t, level, state, er);
    TraceIsPath(sp, t, level, state, BestNode(t.best[er]));
    ReversedConcat(sp.task.Words(Trace(sp, t, level, state, BestNode(t.best[er])), false), LastWords(sp, t, er));
  }

  /** A complete path with these totals, whose matched words, skipped words and words still to come are these. */
  ghost predicate Predicts(task: Task, p: Path, x: Ending, matchedPrefix: seq<Word>, jumpedPrefix: seq<Word>, predictedSuffix: seq<Word>)
    requires task.Valid()
  {
    && task.Complete(p, x)
    && var last := task.Taken(task.End(p).value.state, x.transition);
       && ReadBackwards(matchedPrefix, task.Words(p, false) + last.output[..x.outputMatched])
       && ReadBackwards(jumpedPrefix, task.Words(p, true))
       && exists words :: task.IsContinuation(last.toState, words) && predictedSuffix == last.output[x.outputMatched..] + words
  }

  ghost predicate Completion(task: Task, error: nat, score: real, matchedPrefix: seq<Word>, jumpedPrefix: seq<Word>, predictedSuffix: seq<Word>)
    requires task.Valid()
  {
    exists p, x :: Predicts(task, p, x, matchedPrefix, jumpedPrefix, predictedSuffix)
                   && task.TotalError(p, x) == error && task.TotalScore(p, x) == score
  }

  lemma CompletionIs(sp: Search, t: Table, level: nat, state: nat, er: nat,
                     matchedPrefix: seq<Word>, jumpedPrefix: seq<Word>, predictedSuffix: seq<Word>, words: seq<Word>)
    requires sp.Valid() && sp.Sound(t, level, state) && er < |t.best| && t.best[er].Set()
    requires IsCompletion(sp, t, level, state, er, matchedPrefix, jumpedPrefix)
    requires 0 <= t.best[er].fromState && sp.task.HasTransition(t.best[er].fromState, t.best[er].transition)
    requires var last := sp.task.Taken(t.best[er].fromState, t.best[er].transition);
             && t.best[er].outputMatched <= |last.output| && last.toState < |sp.task.graph|
             && sp.task.IsContinuation(last.toState, words) && predictedSuffix == last.output[t.best[er].outputMatched..] + words
    ensures Completion(sp.task, er, t.best[er].score, matchedPrefix, jumpedPrefix, predictedSuffix)
  {
    BestIsComplete(sp, t, level, state, er);
    TraceIsPath(sp, t, level, state, BestNode(t.best[er]));
    var p, x := Trace(sp, t, level, state, BestNode(t.best[er])), Ending(t.best[er].transition, t.best[er].outputMatched);
    assert Predicts(sp.task, p, x, matchedPrefix, jumpedPrefix, predictedSuffix);
  }

  lemma {:induction false} WordsAgree(task: Task, p: Path, skipped: bool)
    requires task.IsPath(p)
    ensures Uncapped(task).IsPath(p) && Uncapped(task).Words(p, skipped) == task.Words(p, skipped)
  {
    EndAgrees(task, p);
    match p
    case Root =>
    case Via(before, m) =>
      EndAgrees(task, before);
      WordsAgree(task, before, skipped);
  }

  /** Below the cap the completion is one of the uncapped problem, too. */
  lemma CompletionAgrees(task: Task, error: nat, score: real, matchedPrefix: seq<Word>, jumpedPrefix: seq<Word>, predictedSuffix: seq<Word>)
    requires task.Valid() && Completion(task, error, score, matchedPrefix, jumpedPrefix, predictedSuffix) && error < task.Cap()
    ensures Uncapped(task).Valid() && Completion(Uncapped(task), error, score, matchedPrefix, jumpedPrefix, predictedSuffix)
  {
    hide Task.TotalError, Task.TotalScore, Task.Words, Task.IsContinuation, ReadBackwards;
    var p, x :| Predicts(task, p, x, matchedPrefix, jumpedPrefix, predictedSuffix)
                && task.TotalError(p, x) == error && task.TotalScore(p, x) == score;
    PredictsComplete(task, p, x, matchedPrefix, jumpedPrefix, predictedSuffix);
    CompleteAgrees(task, p, x);
    PredictsUncapped(task, p, x, matchedPrefix, jumpedPrefix, predictedSuffix);
  }

  /** The matched words of a completion are within its error of what was typed. */
  lemma CompletionIsClose(task: Task, error: nat, score: real, matchedPrefix: seq<Word>, jumpedPrefix: seq<Word>, predictedSuffix: seq<Word>)
    requires task.Valid() && !task.capped && Completion(task, error, score, matchedPrefix, jumpedPrefix, predictedSuffix)
    ensures task.prefix.Distance(0, Reversed(matchedPrefix), |task.prefix.words|, |matchedPrefix|) <= error
  {
    hide Task.Words, Task.IsContinuation, Task.TotalError, Task.TotalScore, ReadBackwards;
    var p, x :| Predicts(task, p, x, matchedPrefix, jumpedPrefix, predictedSuffix)
                && task.TotalError(p, x) == error && task.TotalScore(p, x) == score;
    task.CompleteIsClose(p, x);
    OnlyReverse(matchedPrefix, task.Words(p, false) + task.Taken(task.End(p).value.state, x.transition).output[..x.outputMatched]);
    SameLength(matchedPrefix);
  }

  lemma SameLength(s: seq<Word>)
    ensures |Reversed(s)| == |s|
  {
  }

  /** The score of a completion is that of a whole sentence: of the path, of the last transition, and of the transitions that give
      the predicted words. */
  lemma PredictedScore(task: Task, p: Path, x: Ending, words: seq<Word>) returns (ts: seq<nat>, f: nat)
    requires task.Valid() && task.Complete(p, x)
    requires task.IsContinuation(task.Taken(task.End(p).value.state, x.transition).toState, words)
    ensures var last := task.Taken(task.End(p).value.state, x.transition);
            && task.Follow(last.toState, ts) == Some(f) && f < |task.graph| && task.graph[f].forward <= 0
            && words == task.FollowOutput(last.toState, ts)
            && task.TotalScore(p, x)
               == task.Score(p) + last.score + task.FollowScore(last.toState, ts) + task.graph[f].forwardScore
  {
    var q := task.Taken(task.End(p).value.state, x.transition).toState;
    ts, f :| task.Follow(q, ts) == Some(f) && f < |task.graph| && task.graph[f].forward <= 0
             && words == task.FollowOutput(q, ts)
             && task.FollowScore(q, ts) + task.graph[f].forwardScore == task.graph[q].forwardScore;
  }

  lemma PredictsComplete(task: Task, p: Path, x: Ending, matchedPrefix: seq<Word>, jumpedPrefix: seq<Word>, predictedSuffix: seq<Word>)
    requires task.Valid() && Predicts(task, p, x, matchedPrefix, jumpedPrefix, predictedSuffix)
    ensures task.Complete(p, x)
  {
  }

  lemma PredictsUncapped(task: Task, p: Path, x: Ending, matchedPrefix: seq<Word>, jumpedPrefix: seq<Word>, predictedSuffix: seq<Word>)
    requires task.Valid() && Predicts(task, p, x, matchedPrefix, jumpedPrefix, predictedSuffix)
    ensures Uncapped(task).Valid() && Predicts(Uncapped(task), p, x, matchedPrefix, jumpedPrefix, predictedSuffix)
  {
    hide Task.Words, Task.IsContinuation, ReadBackwards, Task.TotalError, Task.TotalScore;
    CompleteAgrees(task, p, x);
    EndAgrees(task, p);
    WordsAgree(task, p, false);
    WordsAgree(task, p, true);
    var last := task.Taken(task.End(p).value.state, x.transition);
    var words :| task.IsContinuation(last.toState, words) && predictedSuffix == last.output[x.outputMatched..] + words;
    ContinuationAgrees(task, last.toState, words);
  }

  lemma {:induction false} FollowAgrees(task: Task, q: nat, ts: seq<nat>)
    ensures Uncapped(task).Follow(q, ts) == task.Follow(q, ts)
    ensures task.Follow(q, ts).Some? ==>
              Uncapped(task).FollowScore(q, ts) == task.FollowScore(q, ts) && Uncapped(task).FollowOutput(q, ts) == task.FollowOutput(q, ts)
    decreases |ts|
  {
    if ts != [] && task.HasTransition(q, ts[0]) {
      FollowAgrees(task, task.Taken(q, ts[0]).toState, ts[1..]);
    }
  }

  lemma ContinuationAgrees(task: Task, q: nat, words: seq<Word>)
    requires q < |task.graph| && task.IsContinuation(q, words)
    ensures Uncapped(task).IsContinuation(q, words)
  {
    var ts, f: nat :| task.Follow(q, ts) == Some(f) && f < |task.graph| && task.graph[f].forward <= 0
                 && words == task.FollowOutput(q, ts)
                 && task.FollowScore(q, ts) + task.graph[f].forwardScore == task.graph[q].forwardScore;
    FollowAgrees(task, q, ts);
  }

  lemma NoWordsLeft(sp: Search, t: Table, level: nat, state: nat, n: Node)
    requires sp.Valid() && sp.Sound(t, level, state)
    requires n.state == 0 < |t.back| && HasKey(t.back[n.state], n.prefixMatched, n.phase)
    ensures WordsBack(sp, t, level, state, n, false) == WordsBack(sp, t, level, state, n, true) == []
  {
  }

  lemma Associates(a: seq<Word>, b: seq<Word>, c: seq<Word>)
    ensures (a + b) + c == a + (b + c) && a + ([] + c) == a + c
  {
  }

  lemma WordsOneStep(sp: Search, t: Table, level: nat, state: nat, n: Node)
    requires sp.Valid() && sp.Sound(t, level, state)
    requires 0 < n.state < |t.back| && HasKey(t.back[n.state], n.prefixMatched, n.phase)
    ensures var c := t.back[n.state][PlaceOf(t.back[n.state], n.prefixMatched, n.phase)];
            && 0 <= c.backState < n.state && HasKey(t.back[c.backState], c.backMatched, c.backPhase)
            && sp.task.HasTransition(c.backState, c.transition)
            && var before := Node(c.backState, c.backMatched, c.backPhase);
               var words := Reversed(sp.task.Taken(c.backState, c.transition).output);
               && WordsBack(sp, t, level, state, n, false)
                  == (if c.phase != 1 then words else []) + WordsBack(sp, t, level, state, before, false)
               && WordsBack(sp, t, level, state, n, true)
                  == (if c.phase != 1 then [] else words) + WordsBack(sp, t, level, state, before, true)
  {
    var k := PlaceOf(t.back[n.state], n.prefixMatched, n.phase);
    var c := t.back[n.state][k];
    LinkHasKey(sp, t, level, state, n.state, k);
    var before := Node(c.backState, c.backMatched, c.backPhase);
    TraceIsPath(sp, t, level, state, n);
    TraceIsPath(sp, t, level, state, before);
    OneStepOfWords(sp.task, Trace(sp, t, level, state, before), c.Step());
  }

  lemma OneStepOfWords(task: Task, p: Path, m: Move)
    requires task.IsPath(Via(p, m))
    ensures var words := Reversed(task.Taken(task.End(p).value.state, m.transition).output);
            && Reversed(task.Words(Via(p, m), false)) == (if m.skip then [] else words) + Reversed(task.Words(p, false))
            && Reversed(task.Words(Via(p, m), true)) == (if m.skip then words else []) + Reversed(task.Words(p, true))
  {
    var output := task.Taken(task.End(p).value.state, m.transition).output;
    ReversedConcat(task.Words(p, false), if m.skip then [] else output);
    ReversedConcat(task.Words(p, true), if m.skip then output else []);
  }

  class Searcher {
    const task: Task
    const order: Order
    var back: seq<seq<BackTransition>>
    var best: seq<Best>
    var bestScore: real

    /** The greatest error of a completion in the table, -1 when there is none; only the weighted pass looks at it. */
    var discoverError: int

    ghost function Spec(): Search {
      Search(task, order)
    }

    ghost function Now(): Table
      reads this
    {
      Table(back, best, bestScore)
    }

    /** Offer b to the list of state r. */
    method Offer(r: nat, b: BackTransition)
      requires r < |back|
      modifies this`back
      ensures Now() == Spec().Offer(old(Now()), r, b)
    {
      var i := 0;
      while i < |back[r]|
        invariant i <= |back[r]| && back == old(back)
        invariant forall k :: 0 <= k < i ==> !back[r][k].SameKey(b)
      {
        if back[r][i].SameKey(b) {
          RecordFound(order, back[r], b, i);
          var oldBack := back[r][i];
          var better :=
            match order
            case ErrorFirst =>
              || oldBack.error > b.error
              || (oldBack.error == b.error && (oldBack.score < b.score || (oldBack.score == b.score && oldBack.backMatched < b.prefixMatched)))
            case Weighted(weight) =>
              var oldValue, value := oldBack.score + weight * oldBack.error as real, b.score + weight * b.error as real;
              oldValue < value || (oldValue == value && oldBack.backMatched < b.prefixMatched);
          if better {
            back := back[r := back[r][i := b]];
          }
          return;
        }
        i := i + 1;
      }
      RecordNotFound(order, back[r], b);
      back := back[r := back[r] + [b]];
    }

    /** Skip the transition; only the first skipped transition counts as an error. */
    method ProcessJump(state: nat, b: BackTransition, tr: nat)
      requires task.Allowed(Spec().NodeOf(state, b), Move(tr, true, b.prefixMatched))
      requires task.Taken(state, tr).toState < |back|
      modifies this`back
      ensures Now() == Spec().Offer(old(Now()), task.Taken(state, tr).toState,
                                    Spec().NewBack(state, b, Move(tr, true, b.prefixMatched)))
    {
      var transition := task.graph[state].transitions[tr];
      var score := b.score + transition.score;
      var error := b.error + if b.phase == 0 then 1 else 0;
      Offer(transition.toState, BackTransition(score, error, b.prefixMatched, state, b.prefixMatched, tr, 1, b.phase));
    }

    method ProcessMatch(state: nat, b: BackTransition, m: Match, tr: nat) returns (er: nat)
      requires Spec().Valid() && IsMatch(task, Spec().NodeOf(state, b), tr, m)
      requires |back| == |task.graph| && (m.prefixMatched == |task.prefix.words| ==> b.error + m.error < |best|)
      modifies this`back, this`best, this`bestScore
      ensures m.prefixMatched < |task.prefix.words| ==>
                && er == BestCount - 1
                && Now() == Spec().Offer(old(Now()), task.Taken(state, tr).toState,
                                         Spec().NewBack(state, b, Move(tr, false, m.prefixMatched)))
      ensures m.prefixMatched == |task.prefix.words| ==>
                && Now() == Spec().OfferBest(old(Now()), b.error + m.error,
                                             Spec().NewBest(state, b, Ending(tr, m.transitionMatched)))
                && er == if Spec().Replaces(Spec().NewBest(state, b, Ending(tr, m.transitionMatched)), old(best[b.error + m.error]))
                         then b.error + m.error else BestCount - 1
    {
      var transition := task.graph[state].transitions[tr];
      var score := b.score + transition.score;
      var error := b.error + m.error;
      er := BestCount - 1;
      if m.prefixMatched < |task.prefix.words| {
        Offer(transition.toState, BackTransition(score, error, m.prefixMatched, state, b.prefixMatched, tr,
                                                 if b.phase == 0 then 0 else 2, b.phase));
      } else {
        score := score + task.graph[transition.toState].forwardScore;
        if || best[error].fromState == -1 || score > best[error].score
           || (score == best[error].score && m.prefixMatched > best[error].prefixMatched)
        {
          if order.Weighted? && order.Value(error, score) > bestScore {
            bestScore := order.Value(error, score);
          }
          best := best[error := Best(score, state, tr, m.transitionMatched, b.prefixMatched, m.prefixMatched, b.phase)];
          er := error;
        }
      }
    }
  
    // ----- extending the table -----

    method ExtendMatch(ghost level: nat, ghost i: nat, state: nat, b: BackTransition, tr: nat, m: Match)
      requires Spec().Valid() && Spec().Ready(Now(), level, state, i) && b == back[state][i]
      requires Tracks(Spec(), Now(), level, discoverError) && IsMatch(task, Spec().NodeOf(state, b), tr, m)
      modifies this
      ensures Spec().Ready(Now(), level, state, i) && Tracks(Spec(), Now(), level, discoverError)
      ensures Spec().Grows(old(Now()), Now(), state)
      ensures MatchCovered(Spec(), Now(), Spec().NodeOf(state, b), b.error, b.score, tr, m)
    {
      hide Search.Ready, Search.Grows, Tracks, MatchCovered, Search.Valid, Task.Valid;
      hide Search.Offer, Search.OfferBest, Search.Replaces, Search.NewBack, Search.NewBest, IsMatch;
      MatchFits(Spec(), Now(), level, state, i, tr, m);
      MatchStep(Spec(), Now(), level, state, i, tr, m);
      MatchTracks(Spec(), Now(), level, state, b, tr, m, discoverError);
      var er := ProcessMatch(state, b, m, tr);
      if er < BestCount - 1 && discoverError < er {
        discoverError := er;
      }
    }

    /** All matches of one transition. */
    method ExtendMatches(ghost level: nat, ghost i: nat, state: nat, b: BackTransition, tr: nat, matches: seq<Match>)
      requires Spec().Valid() && Spec().Ready(Now(), level, state, i) && b == back[state][i]
      requires Tracks(Spec(), Now(), level, discoverError)
      requires forall m :: m in matches ==> IsMatch(task, Spec().NodeOf(state, b), tr, m)
      modifies this
      ensures Spec().Ready(Now(), level, state, i) && Tracks(Spec(), Now(), level, discoverError)
      ensures Spec().Grows(old(Now()), Now(), state)
      ensures forall j :: 0 <= j < |matches| ==> MatchCovered(Spec(), Now(), Spec().NodeOf(state, b), b.error, b.score, tr, matches[j])
    {
      hide Search.Valid, Search.Sound, Search.Done, Tracks, MatchCovered, IsMatch;
      ghost var n := Spec().NodeOf(state, b);
      for k := 0 to |matches|
        invariant Spec().Ready(Now(), level, state, i) && Tracks(Spec(), Now(), level, discoverError)
        invariant Spec().Grows(old(Now()), Now(), state)
        invariant forall j :: 0 <= j < k ==> MatchCovered(Spec(), Now(), n, b.error, b.score, tr, matches[j])
      {
        ghost var before := Now();
        ExtendMatch(level, i, state, b, tr, matches[k]);
        Spec().GrowsTransitive(old(Now()), before, Now(), state);
        forall j | 0 <= j < k
          ensures MatchCovered(Spec(), Now(), n, b.error, b.score, tr, matches[j])
        {
          GrowsKeepsMatch(Spec(), before, Now(), state, n, b.error, b.score, tr, matches[j]);
        }
      }
    }

    method ExtendTransition(ghost level: nat, ghost i: nat, state: nat, b: BackTransition, tr: nat)
      requires Spec().Valid() && Spec().Ready(Now(), level, state, i) && b == back[state][i]
      requires Tracks(Spec(), Now(), level, discoverError) && task.HasTransition(state, tr)
      modifies this
      ensures Spec().Ready(Now(), level, state, i) && Tracks(Spec(), Now(), level, discoverError)
      ensures Spec().Grows(old(Now()), Now(), state)
      ensures Spec().TransitionCovered(Now(), Spec().NodeOf(state, b), b.error, b.score, tr)
    {
      ghost var n := Spec().NodeOf(state, b);
      ghost var skip := Move(tr, true, b.prefixMatched);
      ReadyEntry(Spec(), Now(), level, state, i);
      hide Search.Sound, Search.Done, MatchCovered, IsMatch, Search.TransitionCovered;
      if task.maySkip && (b.phase == 0 || b.phase == 1) {
        ExtendSkip(level, i, state, b, tr);
      }
      var output := task.graph[state].transitions[tr].output;
      var matches := task.prefix.StringEditDistance(TableCap(task, output), b.prefixMatched, output);
      forall m: Match
        ensures m in matches <==> IsMatch(task, n, tr, m)
      {
        MatchesAreMoves(task, n, tr, m);
      }
      ghost var before := Now();
      hide Search.MoveCovered;
      ExtendMatches(level, i, state, b, tr, matches);
      Spec().GrowsKeepsMove(before, Now(), state, n, b.error, b.score, skip);
      Spec().GrowsTransitive(old(Now()), before, Now(), state);
      AllMatchesCovered(Spec(), Now(), n, b.error, b.score, tr, matches);
    }

    method ExtendSkip(ghost level: nat, ghost i: nat, state: nat, b: BackTransition, tr: nat)
      requires Spec().Valid() && Spec().Ready(Now(), level, state, i) && b == back[state][i]
      requires Tracks(Spec(), Now(), level, discoverError)
      requires task.Allowed(Spec().NodeOf(state, b), Move(tr, true, b.prefixMatched))
      modifies this`back
      ensures Spec().Ready(Now(), level, state, i) && Tracks(Spec(), Now(), level, discoverError)
      ensures Spec().Grows(old(Now()), Now(), state)
      ensures Spec().MoveCovered(Now(), Spec().NodeOf(state, b), b.error, b.score, Move(tr, true, b.prefixMatched))
    {
      Spec().OfferMove(Now(), level, state, i, Move(tr, true, b.prefixMatched));
      hide Search.Ready, Search.Grows, Search.MoveCovered, Search.Valid;
      ProcessJump(state, b, tr);
    }
  
    /** All transitions out of the back transition at place i of `state`. */
    method ExtendEntry(ghost level: nat, state: nat, i: nat)
      requires Spec().Valid() && Spec().Ready(Now(), level, state, i) && Tracks(Spec(), Now(), level, discoverError)
      modifies this
      ensures Spec().Ready(Now(), level, state, i) && Tracks(Spec(), Now(), level, discoverError)
      ensures Spec().Grows(old(Now()), Now(), state) && Spec().EntryCovered(Now(), state, back[state][i])
    {
      var b := back[state][i];
      ghost var n := Spec().NodeOf(state, b);
      ReadyEntry(Spec(), Now(), level, state, i);
      hide Search.Sound, Search.Done, Tracks, Search.TransitionCovered, Search.Valid;
      for tr := 0 to |task.graph[state].transitions|
        invariant Spec().Ready(Now(), level, state, i) && Tracks(Spec(), Now(), level, discoverError)
        invariant Spec().Grows(old(Now()), Now(), state)
        invariant forall k: nat :: k < tr ==> Spec().TransitionCovered(Now(), n, b.error, b.score, k)
      {
        ghost var before := Now();
        ExtendTransition(level, i, state, b, tr);
        Spec().GrowsTransitive(old(Now()), before, Now(), state);
        forall k: nat | k < tr
          ensures Spec().TransitionCovered(Now(), n, b.error, b.score, k)
        {
          Spec().GrowsKeepsTransition(before, Now(), state, n, b.error, b.score, k);
        }
      }
      forall k: nat
        ensures Spec().TransitionCovered(Now(), n, b.error, b.score, k)
      {
        if |task.graph[state].transitions| <= k {
          NoSuchTransition(Spec(), Now(), n, b.error, b.score, k);
        }
      }
    }

    // ----- the search by error level -----

    /** Extend what `state` holds with exactly `level` errors; less was extended before. */
    method ExtendAtLevel(level: nat, state: nat)
      requires Spec().Valid() && order.ErrorFirst? && level <= |task.prefix.words| && state < |back|
      requires Spec().Sound(Now(), level, state) && Spec().Done(Now(), level, state) && Tracks(Spec(), Now(), level, discoverError)
      modifies this
      ensures |back| == old(|back|)
      ensures Spec().Sound(Now(), level, state + 1) && Spec().Done(Now(), level, state + 1) && Tracks(Spec(), Now(), level, discoverError)
    {
      var i := 0;
      hide Search.Sound, Search.Done, Tracks, Search.Valid, Search.EntryCovered;
      while i < |back[state]|
        invariant |back| == old(|back|) && back[state] == old(back[state]) && i <= |back[state]|
        invariant Spec().Sound(Now(), level, state) && Spec().Done(Now(), level, state) && Tracks(Spec(), Now(), level, discoverError)
        invariant StateSettled(Spec(), Now(), level, state, i)
        decreases |back[state]| - i
      {
        if back[state][i].error == level {
          ghost var before := Now();
          ExtendEntry(level, state, i);
          StateSettledKept(Spec(), before, Now(), level, state, i);
        }
        OneMoreSettled(Spec(), Now(), level, state, i);
        i := i + 1;
      }
      NextState(Spec(), Now(), level, state);
    }
  
    /** Nothing is left of an earlier search. */
    ghost predicate Clear()
      reads this
    {
      && |back| == |task.graph| && |best| == BestCount
      && (forall q :: 0 <= q < |back| ==> back[q] == [])
      && (forall l :: 0 <= l < |best| ==> !best[l].Set())
    }

    /** One pass over the states at one error level. */
    method SweepLevel(level: nat)
      requires Spec().Valid() && order.ErrorFirst? && level <= |task.prefix.words|
      requires Spec().Sound(Now(), level, 0) && Spec().Done(Now(), level, 0) && Tracks(Spec(), Now(), level, discoverError)
      modifies this
      ensures |back| == |task.graph| && |best| == BestCount
      ensures Spec().Sound(Now(), level, |back|) && Spec().Done(Now(), level, |back|) && Tracks(Spec(), Now(), level, discoverError)
    {
      for state := 0 to |task.graph|
        invariant |back| == |task.graph|
        invariant Spec().Sound(Now(), level, state) && Spec().Done(Now(), level, state) && Tracks(Spec(), Now(), level, discoverError)
      {
        ExtendAtLevel(level, state);
      }
      SoundShape(Spec(), Now(), level, |back|);
    }

    /** The least number of errors with which the prefix can be matched, if it is no more than the length of the prefix. */
    method SearchByLevel() returns (errorAllowed: nat)
      requires Spec().Valid() && order.ErrorFirst? && Clear()
      modifies this
      ensures |task.prefix.words| < BestCount - 1
      ensures errorAllowed == BestCount - 1 ==>
                NoPathWithin(Uncapped(task), |task.prefix.words|) && 0 < |back| && back[0] == [Initial]
      ensures errorAllowed != BestCount - 1 ==>
                && errorAllowed <= |task.prefix.words| && |best| == BestCount && best[errorAllowed].Set()
                && LeastError(Uncapped(task), errorAllowed, best[errorAllowed].score)
                && Spec().Sound(Now(), errorAllowed, |back|)
    {
      back := back[0 := back[0] + [Initial]];
      FreshIsSound(Spec(), Now());
      errorAllowed := 0;
      SearchStarts(Spec(), Now(), discoverError);
      hide Search.Sound, Search.Done, Tracks, NoPathWithin, LeastError, Search.Valid;
      while errorAllowed <= |task.prefix.words|
        invariant errorAllowed <= |task.prefix.words| + 1
        invariant Spec().Sound(Now(), errorAllowed, 0) && Spec().Done(Now(), errorAllowed, 0)
        invariant Tracks(Spec(), Now(), errorAllowed, discoverError)
        invariant Uncapped(task).Valid() && (0 < errorAllowed ==> NoPathWithin(Uncapped(task), errorAllowed - 1))
      {
        SweepLevel(errorAllowed);
        if best[errorAllowed].fromState != -1 {
          SearchEnds(Spec(), Now(), errorAllowed, discoverError);
          return;
        }
        SearchGoesOn(Spec(), Now(), errorAllowed, discoverError);
        errorAllowed := errorAllowed + 1;
      }
      SoundStart(Spec(), Now(), errorAllowed, 0);
      errorAllowed := BestCount - 1;
    }

    // ----- the weighted pass -----

    /** Extend whatever `state` holds, except what cannot lead to anything better than the best completion found. */
    method ExtendUnpruned(state: nat)
      requires Spec().Valid() && order.Weighted? && state < |back|
      requires Spec().Sound(Now(), 0, state) && Spec().Done(Now(), 0, state) && Tracks(Spec(), Now(), 0, discoverError)
      modifies this
      ensures |back| == |task.graph| && |best| == BestCount
      ensures Spec().Sound(Now(), 0, state + 1) && Spec().Done(Now(), 0, state + 1) && Tracks(Spec(), Now(), 0, discoverError)
    {
      var i := 0;
      hide Search.Sound, Search.Done, Tracks, Search.Valid, Search.EntryCovered, Order.Value;
      SoundShape(Spec(), Now(), 0, state);
      while i < |back[state]|
        invariant |back| == old(|back|) && back[state] == old(back[state]) && i <= |back[state]|
        invariant Spec().Sound(Now(), 0, state) && Spec().Done(Now(), 0, state) && Tracks(Spec(), Now(), 0, discoverError)
        invariant StateSettled(Spec(), Now(), 0, state, i)
        decreases |back[state]| - i
      {
        var b := back[state][i];
        if task.graph[state].forwardScore + order.Value(b.error, b.score) >= bestScore {
          ghost var before := Now();
          ExtendEntry(0, state, i);
          StateSettledKept(Spec(), before, Now(), 0, state, i);
        }
        OneMoreSettled(Spec(), Now(), 0, state, i);
        i := i + 1;
      }
      NextState(Spec(), Now(), 0, state);
      SoundShape(Spec(), Now(), 0, state + 1);
    }

    /** The error of the completion that is worth most. */
    method SelectError() returns (bestError: nat)
      requires order.Weighted? && |best| == BestCount && BestScoreIs(Spec(), Now())
      requires forall l :: 0 <= l < |best| && best[l].Set() ==> l <= discoverError
      requires 0 <= discoverError < |best|
      ensures bestError <= discoverError
      ensures bestScore > Floor ==> best[bestError].Set() && order.Value(bestError, best[bestError].score) == bestScore
    {
      bestError := 0;
      var score := Floor;
      for er := 0 to discoverError + 1
        invariant bestError <= discoverError && score >= Floor
        invariant score > Floor ==> best[bestError].Set() && order.Value(bestError, best[bestError].score) == score
        invariant forall k :: 0 <= k < er && best[k].Set() ==> order.Value(k, best[k].score) <= score
      {
        if best[er].fromState != -1 {
          if score < best[er].score + order.weight * er as real {
            score := best[er].score + order.weight * er as real;
            bestError := er;
          }
        }
      }
    }

    method SearchWeighted() returns (er: nat)
      requires Spec().Valid() && order.Weighted? && order.weight <= 0.0 && Admissible(task) && Clear() && bestScore == Floor
      modifies this
      ensures er == BestCount - 1 ==> NothingAboveFloor(task, order)
      ensures NoPath(task) ==> er == BestCount - 1
      ensures |best| == BestCount && Spec().Sound(Now(), 0, |back|)
      ensures er != BestCount - 1 ==> er < |best|
      ensures er != BestCount - 1 && !NothingAboveFloor(task, order) ==>
                best[er].Set() && GreatestValue(task, order, er, best[er].score)
    {
      back := back[0 := back[0] + [Initial]];
      discoverError := -1;
      FreshIsSound(Spec(), Now());
      FreshTracks(Spec(), Now());
      hide Search.Sound, Search.Done;
      for state := 0 to |task.graph|
        invariant |back| == |task.graph| && |best| == BestCount
        invariant Spec().Sound(Now(), 0, state) && Spec().Done(Now(), 0, state) && Tracks(Spec(), Now(), 0, discoverError)
      {
        ExtendUnpruned(state);
      }
      if discoverError == -1 {
        NothingFound(Spec(), Now());
        return BestCount - 1;
      }
      er := SelectError();
      SomethingFound(Spec(), Now(), discoverError, er);
    }
  
    // ----- from the best completion to words -----

    /** Append words, last first. */
    method PushBackwards(words: seq<Word>, to: seq<Word>) returns (r: seq<Word>)
      ensures r == to + Reversed(words)
    {
      r := to;
      var i := |words|;
      while 0 < i
        invariant 0 <= i <= |words| && r == to + Reversed(words[i..])
      {
        i := i - 1;
        r := r + [words[i]];
        assert words[i..][1..] == words[i + 1..];
      }
    }

    /** The words from state q to the end of the sentence, along the best path forward. */
    method PredictFrom(q: nat) returns (predictedSuffix: seq<Word>)
      requires task.Valid() && task.ForwardsSound() && q < |task.graph|
      ensures task.IsContinuation(q, predictedSuffix)
    {
      var suffixState := q;
      predictedSuffix := [];
      ghost var ts: seq<nat> := [];
      while task.graph[suffixState].forward > 0
        invariant suffixState < |task.graph| && task.Follow(q, ts) == Some(suffixState)
        invariant predictedSuffix == task.FollowOutput(q, ts)
        invariant task.FollowScore(q, ts) + task.graph[suffixState].forwardScore == task.graph[q].forwardScore
        decreases |task.graph| - suffixState
      {
        var t := BestForward(suffixState);
        task.FollowOneMore(q, ts, t);
        predictedSuffix := predictedSuffix + task.graph[suffixState].transitions[t].output;
        ts := ts + [t];
        suffixState := task.graph[suffixState].forward;
      }
    }

    method BestForward(q: nat) returns (t: nat)
      requires task.Valid() && task.ForwardsSound() && q < |task.graph| && task.graph[q].forward > 0
      ensures q < task.graph[q].forward < |task.graph| && t < |task.graph[q].transitions| && task.Onward(q, t)
    {
      var transitions := task.graph[q].transitions;
      assert task.ForwardFrom(q);
      var found := false;
      t := 0;
      var bestScore := -999.0;
      for k := 0 to |transitions|
        invariant !found ==> bestScore == -999.0
        invariant found ==> t < k && transitions[t].toState == task.graph[q].forward && transitions[t].score == bestScore > -999.0
        invariant forall u :: 0 <= u < k && transitions[u].toState == task.graph[q].forward ==> transitions[u].score <= bestScore
      {
        if transitions[k].toState == task.graph[q].forward && transitions[k].score > bestScore {
          t, bestScore, found := k, transitions[k].score, true;
        }
      }
    }

    /** The first place with the key; there is one. */
    method FindBack(q: nat, prefixMatched: nat, phase: nat) returns (k: nat)
      requires q < |back| && Unique(back[q]) && HasKey(back[q], prefixMatched, phase)
      ensures k < |back[q]| && k == PlaceOf(back[q], prefixMatched, phase)
    {
      k := 0;
      while !(back[q][k].prefixMatched == prefixMatched && back[q][k].phase == phase)
        invariant k <= PlaceOf(back[q], prefixMatched, phase)
        decreases |back[q]| - k
      {
        k := k + 1;
      }
      OnlyPlace(back[q], k);
    }

    /** Follow one back transition and collect its words. */
    method StepBack(ghost level: nat, ghost state: nat, n: Node, matchedPrefix: seq<Word>, jumpedPrefix: seq<Word>)
      returns (n': Node, matchedPrefix': seq<Word>, jumpedPrefix': seq<Word>)
      requires Spec().Valid() && Spec().Sound(Now(), level, state)
      requires 0 < n.state < |back| && HasKey(back[n.state], n.prefixMatched, n.phase)
      ensures n'.state < n.state && HasKey(back[n'.state], n'.prefixMatched, n'.phase)
      ensures matchedPrefix' + WordsBack(Spec(), Now(), level, state, n', false)
           == matchedPrefix + WordsBack(Spec(), Now(), level, state, n, false)
      ensures jumpedPrefix' + WordsBack(Spec(), Now(), level, state, n', true)
           == jumpedPrefix + WordsBack(Spec(), Now(), level, state, n, true)
    {
      SoundLists(Spec(), Now(), level, state);
      hide *;
      var k := FindBack(n.state, n.prefixMatched, n.phase);
      var c := back[n.state][k];
      WordsOneStep(Spec(), Now(), level, state, n);
      var words := task.Taken(c.backState, c.transition).output;
      n' := Node(c.backState, c.backMatched, c.backPhase);
      Associates(matchedPrefix, Reversed(words), WordsBack(Spec(), Now(), level, state, n', false));
      Associates(jumpedPrefix, Reversed(words), WordsBack(Spec(), Now(), level, state, n', true));
      matchedPrefix', jumpedPrefix' := matchedPrefix, jumpedPrefix;
      if c.phase != 1 {
        matchedPrefix' := PushBackwards(words, matchedPrefix);
      } else {
        jumpedPrefix' := PushBackwards(words, jumpedPrefix);
      }
    }

    /** Follow the back transitions from n to the initial state. */
    method WalkFrom(ghost level: nat, ghost state: nat, from: Node, ending: seq<Word>) returns (matchedPrefix: seq<Word>, jumpedPrefix: seq<Word>)
      requires Spec().Valid() && Spec().Sound(Now(), level, state)
      requires from.state < |back| && HasKey(back[from.state], from.prefixMatched, from.phase)
      ensures matchedPrefix == ending + WordsBack(Spec(), Now(), level, state, from, false)
      ensures jumpedPrefix == WordsBack(Spec(), Now(), level, state, from, true)
    {
      hide Search.Sound, Search.Valid, WordsBack;
      matchedPrefix, jumpedPrefix := ending, [];
      var n := from;
      while n.state > 0
        invariant n.state < |back| && HasKey(back[n.state], n.prefixMatched, n.phase)
        invariant matchedPrefix + WordsBack(Spec(), Now(), level, state, n, false)
               == ending + WordsBack(Spec(), Now(), level, state, from, false)
        invariant jumpedPrefix + WordsBack(Spec(), Now(), level, state, n, true)
               == WordsBack(Spec(), Now(), level, state, from, true)
        decreases n.state
      {
        n, matchedPrefix, jumpedPrefix := StepBack(level, state, n, matchedPrefix, jumpedPrefix);
      }
      NoWordsLeft(Spec(), Now(), level, state, n);
    }

    /** The matched words, last first, and the skipped ones. */
    method WalkBack(ghost level: nat, ghost state: nat, er: nat) returns (matchedPrefix: seq<Word>, jumpedPrefix: seq<Word>)
      requires Spec().Valid() && Spec().Sound(Now(), level, state) && er < |best| && best[er].Set()
      ensures IsCompletion(Spec(), Now(), level, state, er, matchedPrefix, jumpedPrefix)
    {
      hide Search.Sound, Search.Valid, Task.Valid, WordsBack, IsCompletion, HasKey;
      BestStart(Spec(), Now(), level, state, er);
      var b := best[er];
      var output := task.Taken(b.fromState, b.transition).output;
      var ending := PushBackwards(output[..b.outputMatched], []);
      matchedPrefix, jumpedPrefix := WalkFrom(level, state, Node(b.fromState, b.backMatched, b.backPhase), ending);
      WalkDone(Spec(), Now(), level, state, er, matchedPrefix, jumpedPrefix);
    }
  
    /** The words of the best completion with `er` errors. */
    method ReadOff(ghost level: nat, ghost state: nat, er: nat)
      returns (matchedPrefix: seq<Word>, jumpedPrefix: seq<Word>, predictedSuffix: seq<Word>)
      requires Spec().Valid() && task.Valid() && Spec().Sound(Now(), level, state) && er < |best| && best[er].Set() && task.ForwardsSound()
      ensures Completion(task, er, best[er].score, matchedPrefix, jumpedPrefix, predictedSuffix)
    {
      BestStart(Spec(), Now(), level, state, er);
      hide Search.Sound, Search.Valid, Task.ForwardsSound, IsCompletion, Completion, Task.IsContinuation;
      matchedPrefix, jumpedPrefix := WalkBack(level, state, er);
      var last := task.graph[best[er].fromState].transitions[best[er].transition];
      var words := PredictFrom(last.toState);
      predictedSuffix := last.output[best[er].outputMatched..] + words;
      CompletionIs(Spec(), Now(), level, state, er, matchedPrefix, jumpedPrefix, predictedSuffix, words);
    }

    method Reset()
      modifies this`back, this`best
      ensures |back| == old(|back|) && |best| == old(|best|)
      ensures (forall q :: 0 <= q < |back| ==> back[q] == []) && (forall l :: 0 <= l < |best| ==> !best[l].Set())
    {
      for q := 0 to |back|
        invariant best == old(best) && |back| == old(|back|) && forall r :: 0 <= r < q ==> back[r] == []
      {
        back := back[q := []];
      }
      for l := 0 to |best|
        invariant |back| == old(|back|) && |best| == old(|best|)
        invariant (forall q :: 0 <= q < |back| ==> back[q] == []) && forall k :: 0 <= k < l ==> !best[k].Set()
      {
        best := best[l := best[l].(fromState := -1)];
      }
    }

    /** The completion with the fewest errors, and of those the one with the best score. When there is none with at most as
        many errors as the prefix has words, the tables are left as they are, and so are not ready for another search. */
    method CompleteByLevel() returns (errorAllowed: nat, score: real, matchedPrefix: seq<Word>, jumpedPrefix: seq<Word>, predictedSuffix: seq<Word>)
      requires Spec().Valid() && task.Valid() && order.ErrorFirst? && Clear() && task.ForwardsSound()
      modifies this
      ensures errorAllowed == BestCount - 1 ==> NoPathWithin(Uncapped(task), |task.prefix.words|) && !Clear()
      ensures errorAllowed != BestCount - 1 ==>
                && LeastError(Uncapped(task), errorAllowed, score) && Clear()
                && Completion(Uncapped(task), errorAllowed, score, matchedPrefix, jumpedPrefix, predictedSuffix)
                && task.prefix.Distance(0, Reversed(matchedPrefix), |task.prefix.words|, |matchedPrefix|) <= errorAllowed
    {
      score, matchedPrefix, jumpedPrefix, predictedSuffix := 0.0, [], [], [];
      errorAllowed := SearchByLevel();
      if errorAllowed == BestCount - 1 {
        return;
      }
      score := best[errorAllowed].score;
      matchedPrefix, jumpedPrefix, predictedSuffix := ReadOff(errorAllowed, |back|, errorAllowed);
      CompletionAgrees(task, errorAllowed, score, matchedPrefix, jumpedPrefix, predictedSuffix);
      CompletionIsClose(Uncapped(task), errorAllowed, score, matchedPrefix, jumpedPrefix, predictedSuffix);
      SoundShape(Spec(), Now(), errorAllowed, |back|);
      Reset();
    }

    /** The completion with the greatest value, if some completion is worth more than what bestScore starts from. None is found
        if there is none at all. If there are only completions worth no more than that, the best error is not chosen but left
        at 0, and the entry for no errors, if it has been set, is read off. */
    method CompleteByValue()
      returns (er: nat, found: bool, score: real, matchedPrefix: seq<Word>, jumpedPrefix: seq<Word>, predictedSuffix: seq<Word>)
      requires Spec().Valid() && task.Valid() && order.Weighted? && order.weight <= 0.0 && Admissible(task) && Clear() && task.ForwardsSound()
      modifies this
      ensures NoPath(task) ==> er == BestCount - 1
      ensures er == BestCount - 1 ==> !found
      ensures !found ==> NothingAboveFloor(task, order)
      ensures found ==> Clear() && Completion(task, er, score, matchedPrefix, jumpedPrefix, predictedSuffix)
      ensures found && !NothingAboveFloor(task, order) ==> GreatestValue(task, order, er, score)
      ensures found && !task.capped ==>
                task.prefix.Distance(0, Reversed(matchedPrefix), |task.prefix.words|, |matchedPrefix|) <= er
    {
      hide Search.Sound, Completion, GreatestValue, NothingAboveFloor, NoPath, Admissible, Task.ForwardsSound;
      score, matchedPrefix, jumpedPrefix, predictedSuffix := 0.0, [], [], [];
      bestScore := Floor;
      er := SearchWeighted();
      found := er != BestCount - 1 && best[er].Set();
      if !found {
        return;
      }
      score := best[er].score;
      matchedPrefix, jumpedPrefix, predictedSuffix := ReadOff(0, |back|, er);
      if !task.capped {
        CompletionIsClose(task, er, score, matchedPrefix, jumpedPrefix, predictedSuffix);
      }
      SoundShape(Spec(), Now(), 0, |back|);
      Reset();
    }
  }
}
