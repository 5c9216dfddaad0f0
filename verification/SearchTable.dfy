/** What the tables of a search mean, and what every back transition or completion offered to them keeps. */
module SearchTable {
  import opened PrefixMatch
  import opened SearchPaths

  /** The back transitions of every graph state, the best completion of every error, and the best value so far. */
  datatype Table = Table(back: seq<seq<BackTransition>>, best: seq<Best>, bestScore: real)

  datatype Search = Search(task: Task, order: Order) {

    /** The graph is ordered, and no error can run past the end of the table of completions. */
    ghost predicate Valid() {
      && task.Valid()
      && match order
         case ErrorFirst => |task.prefix.words| + Max(|task.prefix.words|, task.longest) < BestCount
         case Weighted(_) => !task.maySkip && |task.prefix.words| * (1 + task.longest) < BestCount - 1
    }

    ghost predicate Shaped(t: Table) {
      && |t.back| == |task.graph| && |t.best| == BestCount && t.back != [] && t.back[0] == [Initial]
      && forall q :: 0 <= q < |t.back| ==> Unique(t.back[q])
    }

    // ----- where the entries come from -----

    /** No back transition offered while transitions leave `state` at error level `level` can replace b. */
    ghost predicate Frozen(level: nat, state: nat, q: nat, b: BackTransition) {
      match order
      case ErrorFirst => b.error < level || (b.error == level && q <= state)
      case Weighted(_) => q <= state
    }

    /** b, at state q, is `from` with the move that b records. */
    ghost predicate Extends(q: nat, b: BackTransition, from: BackTransition) {
      && 0 <= b.backState && from.prefixMatched == b.backMatched && from.phase == b.backPhase
      && var n := Node(b.backState, b.backMatched, b.backPhase);
         && task.Allowed(n, b.Step()) && task.After(n, b.Step()) == Node(q, b.prefixMatched, b.phase)
         && b.error == from.error + task.MoveError(n, b.Step()) && b.score == from.score + task.MoveScore(n, b.Step())
    }

    /** Some of the prefix is still to be matched; without skips every error comes with a step forward. */
    ghost predicate InRange(b: BackTransition) {
      && b.prefixMatched < |task.prefix.words|
      && (order.Weighted? ==> b.error <= b.prefixMatched * (1 + task.longest))
    }

    ghost predicate Linked(back: seq<seq<BackTransition>>, level: nat, state: nat, q: nat, b: BackTransition) {
      && InRange(b)
      && (|| (q == 0 && b == Initial)
          || (&& 0 <= b.backState < q && b.backState < |back|
              && exists k :: 0 <= k < |back[b.backState]| && Extends(q, b, back[b.backState][k])
                             && Frozen(level, state, b.backState, back[b.backState][k])))
    }

    ghost predicate Finishes(l: nat, x: Best, from: BackTransition)
      requires Valid()
    {
      && 0 <= x.fromState && from.prefixMatched == x.backMatched && from.phase == x.backPhase
      && var n, end := Node(x.fromState, x.backMatched, x.backPhase), Ending(x.transition, x.outputMatched);
         task.MayFinish(n, end) && l == from.error + task.EndError(n, end) && x.score == from.score + task.EndScore(n, end)
    }

    ghost predicate BestLinked(back: seq<seq<BackTransition>>, level: nat, state: nat, l: nat, x: Best)
      requires Valid()
    {
      x.Set() ==>
        && 0 <= x.fromState < |back|
        && exists k :: 0 <= k < |back[x.fromState]| && Finishes(l, x, back[x.fromState][k])
                       && Frozen(level, state, x.fromState, back[x.fromState][k])
    }

    ghost predicate Sound(t: Table, level: nat, state: nat)
      requires Valid()
    {
      && Shaped(t)
      && (forall q, i :: 0 <= q < |t.back| && 0 <= i < |t.back[q]| ==> Linked(t.back, level, state, q, t.back[q][i]))
      && (forall l :: 0 <= l < |t.best| ==> BestLinked(t.back, level, state, l, t.best[l]))
    }

    // ----- what the tables cover -----

    ghost predicate Holds(t: Table, n: Node, e: nat, s: real) {
      n.state < |t.back| && ListHolds(order, t.back[n.state], n.prefixMatched, n.phase, e, s)
    }

    ghost predicate BestHolds(t: Table, l: nat, s: real) {
      l < |t.best| && t.best[l].Set() && t.best[l].score >= s
    }

    ghost predicate MoveCovered(t: Table, n: Node, e: nat, s: real, m: Move) {
      task.Allowed(n, m) ==> Holds(t, task.After(n, m), e + task.MoveError(n, m), s + task.MoveScore(n, m))
    }

    ghost predicate EndingCovered(t: Table, n: Node, e: nat, s: real, x: Ending)
      requires Valid()
    {
      task.MayFinish(n, x) ==> BestHolds(t, e + task.EndError(n, x), s + task.EndScore(n, x))
    }

    ghost predicate TransitionCovered(t: Table, n: Node, e: nat, s: real, tr: nat)
      requires Valid()
    {
      && (forall m: Move :: m.transition == tr ==> MoveCovered(t, n, e, s, m))
      && (forall x: Ending :: x.transition == tr ==> EndingCovered(t, n, e, s, x))
    }

    ghost predicate EntryCovered(t: Table, q: nat, b: BackTransition)
      requires Valid()
    {
      forall tr: nat :: TransitionCovered(t, Node(q, b.prefixMatched, b.phase), b.error, b.score, tr)
    }

    /** b cannot lead to anything better than the best completion found. */
    ghost predicate Pruned(t: Table, q: nat, b: BackTransition) {
      q < |task.graph| && order.Weighted? && task.graph[q].forwardScore + order.Value(b.error, b.score) < t.bestScore
    }

    /** Transitions have left b already. */
    ghost predicate Left(level: nat, state: nat, q: nat, b: BackTransition) {
      match order
      case ErrorFirst => b.error < level || (b.error == level && q < state)
      case Weighted(_) => q < state
    }

    ghost predicate Settled(t: Table, q: nat, b: BackTransition)
      requires Valid()
    {
      EntryCovered(t, q, b) || Pruned(t, q, b)
    }

    ghost predicate Done(t: Table, level: nat, state: nat)
      requires Valid()
    {
      forall q, i :: 0 <= q < |t.back| && 0 <= i < |t.back[q]| && Left(level, state, q, t.back[q][i]) ==> Settled(t, q, t.back[q][i])
    }

    // ----- growth -----

    ghost predicate Kept(t: Table, t': Table, n: Node, e: nat, s: real) {
      Holds(t, n, e, s) ==> Holds(t', n, e, s)
    }

    ghost predicate BestKept(t: Table, t': Table, l: nat, s: real) {
      BestHolds(t, l, s) ==> BestHolds(t', l, s)
    }

    /** While transitions leave `state`, only later states change, and nothing covered is lost. */
    ghost predicate Grows(t: Table, t': Table, state: nat) {
      && |t.back| == |t'.back| && |t.best| == |t'.best| && t.bestScore <= t'.bestScore
      && (forall q :: 0 <= q <= state && q < |t.back| ==> t'.back[q] == t.back[q])
      && (forall n, e, s :: Kept(t, t', n, e, s))
      && (forall l, s :: BestKept(t, t', l, s))
    }

    lemma GrowsTransitive(t: Table, t': Table, t'': Table, state: nat)
      requires Grows(t, t', state) && Grows(t', t'', state)
      ensures Grows(t, t'', state)
    {
      forall n, e, s
        ensures Kept(t, t'', n, e, s)
      {
        assert Kept(t, t', n, e, s) && Kept(t', t'', n, e, s);
      }
      forall l, s
        ensures BestKept(t, t'', l, s)
      {
        assert BestKept(t, t', l, s) && BestKept(t', t'', l, s);
      }
    }

    lemma GrowsKeepsMove(t: Table, t': Table, state: nat, n: Node, e: nat, s: real, m: Move)
      requires Grows(t, t', state) && MoveCovered(t, n, e, s, m)
      ensures MoveCovered(t', n, e, s, m)
    {
      if task.Allowed(n, m) {
        assert Kept(t, t', task.After(n, m), e + task.MoveError(n, m), s + task.MoveScore(n, m));
      }
    }

    lemma GrowsKeepsEnding(t: Table, t': Table, state: nat, n: Node, e: nat, s: real, x: Ending)
      requires Valid() && Grows(t, t', state) && EndingCovered(t, n, e, s, x)
      ensures EndingCovered(t', n, e, s, x)
    {
      if task.MayFinish(n, x) {
        assert BestKept(t, t', e + task.EndError(n, x), s + task.EndScore(n, x));
      }
    }

    lemma GrowsKeepsTransition(t: Table, t': Table, state: nat, n: Node, e: nat, s: real, tr: nat)
      requires Valid() && Grows(t, t', state) && TransitionCovered(t, n, e, s, tr)
      ensures TransitionCovered(t', n, e, s, tr)
    {
      forall m: Move | m.transition == tr
        ensures MoveCovered(t', n, e, s, m)
      {
        GrowsKeepsMove(t, t', state, n, e, s, m);
      }
      forall x: Ending | x.transition == tr
        ensures EndingCovered(t', n, e, s, x)
      {
        GrowsKeepsEnding(t, t', state, n, e, s, x);
      }
    }

    lemma GrowsKeepsSettled(t: Table, t': Table, state: nat, q: nat, b: BackTransition)
      requires Valid() && Grows(t, t', state) && Settled(t, q, b)
      ensures Settled(t', q, b)
    {
      if EntryCovered(t, q, b) {
        forall tr: nat
          ensures TransitionCovered(t', Node(q, b.prefixMatched, b.phase), b.error, b.score, tr)
        {
          GrowsKeepsTransition(t, t', state, Node(q, b.prefixMatched, b.phase), b.error, b.score, tr);
        }
      }
    }

    // ----- offering a back transition -----

    function Offer(t: Table, r: nat, b: BackTransition): Table
      requires r < |t.back|
    {
      t.(back := t.back[r := Record(order, t.back[r], b)])
    }

    lemma OfferGrows(t: Table, state: nat, r: nat, b: BackTransition)
      requires Shaped(t) && state < r < |t.back|
      ensures Shaped(Offer(t, r, b)) && Grows(t, Offer(t, r, b), state)
      ensures Holds(Offer(t, r, b), Node(r, b.prefixMatched, b.phase), b.error, b.score)
    {
      var t' := Offer(t, r, b);
      RecordUnique(order, t.back[r], b);
      RecordHolds(order, t.back[r], b);
      forall n, e, s
        ensures Kept(t, t', n, e, s)
      {
        if n.state == r && Holds(t, n, e, s) {
          RecordKeepsHolds(order, t.back[r], b, n.prefixMatched, n.phase, e, s);
        }
      }
    }

    /** Frozen entries stay where they are. */
    lemma OfferKeepsFrozen(t: Table, level: nat, state: nat, r: nat, b: BackTransition, q: nat, k: nat)
      requires Shaped(t) && state < r < |t.back| && (order.ErrorFirst? ==> level <= b.error)
      requires q < |t.back| && k < |t.back[q]| && Frozen(level, state, q, t.back[q][k])
      ensures k < |Offer(t, r, b).back[q]| && Offer(t, r, b).back[q][k] == t.back[q][k]
    {
      if q == r {
        RecordAt(order, t.back[r], b);
      }
    }

    lemma OfferKeepsLinked(t: Table, level: nat, state: nat, r: nat, b: BackTransition, q: nat, c: BackTransition)
      requires Shaped(t) && state < r < |t.back| && (order.ErrorFirst? ==> level <= b.error)
      requires Linked(t.back, level, state, q, c)
      ensures Linked(Offer(t, r, b).back, level, state, q, c)
    {
      if !(q == 0 && c == Initial) {
        var k :| 0 <= k < |t.back[c.backState]| && Extends(q, c, t.back[c.backState][k])
                 && Frozen(level, state, c.backState, t.back[c.backState][k]);
        OfferKeepsFrozen(t, level, state, r, b, c.backState, k);
      }
    }

    lemma OfferKeepsBestLinked(t: Table, level: nat, state: nat, r: nat, b: BackTransition, l: nat, x: Best)
      requires Valid() && Shaped(t) && state < r < |t.back| && (order.ErrorFirst? ==> level <= b.error)
      requires BestLinked(t.back, level, state, l, x)
      ensures BestLinked(Offer(t, r, b).back, level, state, l, x)
    {
      if x.Set() {
        var k :| 0 <= k < |t.back[x.fromState]| && Finishes(l, x, t.back[x.fromState][k])
                 && Frozen(level, state, x.fromState, t.back[x.fromState][k]);
        OfferKeepsFrozen(t, level, state, r, b, x.fromState, k);
      }
    }

    lemma OfferEntries(t: Table, r: nat, b: BackTransition, q: nat, i: nat)
      requires Shaped(t) && r < |t.back| && q < |t.back| && i < |Offer(t, r, b).back[q]|
      ensures (q == r && Offer(t, r, b).back[q][i] == b) || (i < |t.back[q]| && Offer(t, r, b).back[q][i] == t.back[q][i])
    {
      if q == r {
        RecordAt(order, t.back[r], b);
      }
    }

    lemma OfferSound(t: Table, level: nat, state: nat, r: nat, b: BackTransition)
      requires Valid() && Sound(t, level, state) && state < r < |t.back| && (order.ErrorFirst? ==> level <= b.error)
      requires Linked(t.back, level, state, r, b)
      ensures Sound(Offer(t, r, b), level, state)
    {
      var t' := Offer(t, r, b);
      OfferGrows(t, state, r, b);
      forall q, i | 0 <= q < |t'.back| && 0 <= i < |t'.back[q]|
        ensures Linked(t'.back, level, state, q, t'.back[q][i])
      {
        OfferEntries(t, r, b, q, i);
        OfferKeepsLinked(t, level, state, r, b, q, t'.back[q][i]);
      }
      forall l | 0 <= l < |t'.best|
        ensures BestLinked(t'.back, level, state, l, t'.best[l])
      {
        OfferKeepsBestLinked(t, level, state, r, b, l, t.best[l]);
      }
    }

    /** What has been left stays settled: the new entry has not been left yet. */
    lemma OfferDone(t: Table, level: nat, state: nat, r: nat, b: BackTransition)
      requires Valid() && Shaped(t) && Done(t, level, state)
      requires state < r < |t.back| && (order.ErrorFirst? ==> level <= b.error)
      ensures Done(Offer(t, r, b), level, state)
    {
      var t' := Offer(t, r, b);
      OfferGrows(t, state, r, b);
      forall q, i | 0 <= q < |t'.back| && 0 <= i < |t'.back[q]| && Left(level, state, q, t'.back[q][i])
        ensures Settled(t', q, t'.back[q][i])
      {
        OfferEntries(t, r, b, q, i);
        GrowsKeepsSettled(t, t', state, q, t'.back[q][i]);
      }
    }
  
    // ----- offering a completion -----

    predicate Replaces(x: Best, old_: Best) {
      !old_.Set() || x.score > old_.score || (x.score == old_.score && x.prefixMatched > old_.prefixMatched)
    }

    function OfferBest(t: Table, l: nat, x: Best): Table
      requires l < |t.best|
    {
      if !Replaces(x, t.best[l]) then t
      else if order.Weighted? && order.Value(l, x.score) > t.bestScore then
        t.(best := t.best[l := x], bestScore := order.Value(l, x.score))
      else
        t.(best := t.best[l := x])
    }

    lemma OfferBestGrows(t: Table, state: nat, l: nat, x: Best)
      requires Shaped(t) && l < |t.best| && x.Set()
      ensures Shaped(OfferBest(t, l, x)) && Grows(t, OfferBest(t, l, x), state)
      ensures BestHolds(OfferBest(t, l, x), l, x.score)
    {
    }

    lemma OfferBestSound(t: Table, level: nat, state: nat, l: nat, x: Best)
      requires Valid() && Sound(t, level, state) && l < |t.best| && x.Set()
      requires BestLinked(t.back, level, state, l, x)
      ensures Sound(OfferBest(t, l, x), level, state)
    {
      hide Linked, BestLinked;
    }

    lemma OfferBestDone(t: Table, level: nat, state: nat, l: nat, x: Best)
      requires Valid() && Shaped(t) && Done(t, level, state) && l < |t.best| && x.Set()
      ensures Done(OfferBest(t, l, x), level, state)
    {
      var t' := OfferBest(t, l, x);
      OfferBestGrows(t, state, l, x);
      forall q, i | 0 <= q < |t'.back| && 0 <= i < |t'.back[q]| && Left(level, state, q, t'.back[q][i])
        ensures Settled(t', q, t'.back[q][i])
      {
        GrowsKeepsSettled(t, t', state, q, t'.back[q][i]);
      }
    }

    // ----- one entry and its transitions -----

    /** The search is about to extend the back transition at place i of `state`. */
    ghost predicate Ready(t: Table, level: nat, state: nat, i: nat)
      requires Valid()
    {
      && Sound(t, level, state) && Done(t, level, state)
      && state < |t.back| && i < |t.back[state]|
      && (order.ErrorFirst? ==> t.back[state][i].error == level <= |task.prefix.words|)
    }

    function NodeOf(state: nat, b: BackTransition): Node {
      Node(state, b.prefixMatched, b.phase)
    }

    function NewBack(state: nat, b: BackTransition, m: Move): BackTransition
      requires task.Allowed(NodeOf(state, b), m)
    {
      var n := NodeOf(state, b);
      BackTransition(b.score + task.MoveScore(n, m), b.error + task.MoveError(n, m), m.prefixMatched, state, b.prefixMatched,
                     m.transition, task.After(n, m).phase, b.phase)
    }

    function NewBest(state: nat, b: BackTransition, x: Ending): Best
      requires task.Valid() && task.MayFinish(NodeOf(state, b), x)
    {
      Best(b.score + task.EndScore(NodeOf(state, b), x), state, x.transition, x.outputMatched, b.prefixMatched,
           |task.prefix.words|, b.phase)
    }

    lemma Distribute(a: nat, b: nat, c: nat)
      ensures (a + b) * c == a * c + b * c
    {
    }

    lemma {:induction false} RoomForStep(from: nat, to: nat, longest: nat)
      requires from < to
      ensures from * (1 + longest) + (to - from) + longest <= to * (1 + longest)
    {
      Distribute(to - 1, 1, 1 + longest);
      if from < to - 1 {
        RoomForStep(from, to - 1, longest);
      }
    }

    lemma NewBackInRange(state: nat, b: BackTransition, m: Move)
      requires Valid() && InRange(b) && task.Allowed(NodeOf(state, b), m)
      ensures InRange(NewBack(state, b, m))
    {
      if order.Weighted? {
        var output := task.Taken(state, m.transition).output;
        task.CostAtMost(b.prefixMatched, output, m.prefixMatched - b.prefixMatched, |output|);
        RoomForStep(b.prefixMatched, m.prefixMatched, task.longest);
      }
    }

    lemma EndErrorFits(state: nat, b: BackTransition, x: Ending)
      requires Valid() && InRange(b) && (order.ErrorFirst? ==> b.error <= |task.prefix.words|)
      requires task.MayFinish(NodeOf(state, b), x)
      ensures b.error + task.EndError(NodeOf(state, b), x) < if order.Weighted? then BestCount - 1 else BestCount
    {
      var output := task.Taken(state, x.transition).output;
      task.CostAtMost(b.prefixMatched, output, |task.prefix.words| - b.prefixMatched, x.outputMatched);
      if order.Weighted? {
        RoomForStep(b.prefixMatched, |task.prefix.words|, task.longest);
      }
    }

    lemma NewBackCovers(t: Table, state: nat, b: BackTransition, m: Move)
      requires task.Allowed(NodeOf(state, b), m)
      requires var c := NewBack(state, b, m);
               Holds(t, Node(task.After(NodeOf(state, b), m).state, c.prefixMatched, c.phase), c.error, c.score)
      ensures MoveCovered(t, NodeOf(state, b), b.error, b.score, m)
    {
    }

    /** Offering the outcome of a move covers it and keeps everything else. */
    lemma OfferMove(t: Table, level: nat, state: nat, i: nat, m: Move)
      requires Valid() && Ready(t, level, state, i)
      requires task.Allowed(NodeOf(state, t.back[state][i]), m)
      ensures task.After(NodeOf(state, t.back[state][i]), m).state < |t.back|
      ensures var b := t.back[state][i];
              var t' := Offer(t, task.After(NodeOf(state, b), m).state, NewBack(state, b, m));
              Ready(t', level, state, i) && Grows(t, t', state) && MoveCovered(t', NodeOf(state, b), b.error, b.score, m)
    {
      var b := t.back[state][i];
      var r := task.After(NodeOf(state, b), m).state;
      var c := NewBack(state, b, m);
      assert Linked(t.back, level, state, state, b);
      NewBackInRange(state, b, m);
      assert c.Step() == m;
      assert Extends(r, c, b) && Frozen(level, state, state, b);
      assert Linked(t.back, level, state, r, c);
      OfferGrows(t, state, r, c);
      OfferSound(t, level, state, r, c);
      OfferDone(t, level, state, r, c);
      NewBackCovers(Offer(t, r, c), state, b, m);
    }

    lemma OfferEnding(t: Table, level: nat, state: nat, i: nat, x: Ending)
      requires Valid() && Ready(t, level, state, i)
      requires task.MayFinish(NodeOf(state, t.back[state][i]), x)
      ensures t.back[state][i].error + task.EndError(NodeOf(state, t.back[state][i]), x) < |t.best|
      ensures var b := t.back[state][i];
              var t' := OfferBest(t, b.error + task.EndError(NodeOf(state, b), x), NewBest(state, b, x));
              Ready(t', level, state, i) && Grows(t, t', state) && EndingCovered(t', NodeOf(state, b), b.error, b.score, x)
    {
      hide Done, Linked, BestLinked, Grows, EndingCovered, BestHolds;
      var b := t.back[state][i];
      var l := b.error + task.EndError(NodeOf(state, b), x);
      var y := NewBest(state, b, x);
      EndingFits(t, level, state, i, x);
      OfferBestGrows(t, state, l, y);
      OfferBestSound(t, level, state, l, y);
      OfferBestDone(t, level, state, l, y);
      BestCovers(OfferBest(t, l, y), state, b, x);
    }

    lemma BestCovers(t: Table, state: nat, b: BackTransition, x: Ending)
      requires Valid() && task.MayFinish(NodeOf(state, b), x)
      requires BestHolds(t, b.error + task.EndError(NodeOf(state, b), x), NewBest(state, b, x).score)
      ensures EndingCovered(t, NodeOf(state, b), b.error, b.score, x)
    {
    }

    lemma EndingFits(t: Table, level: nat, state: nat, i: nat, x: Ending)
      requires Valid() && Ready(t, level, state, i)
      requires task.MayFinish(NodeOf(state, t.back[state][i]), x)
      ensures var b := t.back[state][i];
              var l := b.error + task.EndError(NodeOf(state, b), x);
              l < |t.best| && NewBest(state, b, x).Set() && BestLinked(t.back, level, state, l, NewBest(state, b, x))
    {
      hide Done;
      var b := t.back[state][i];
      var l := b.error + task.EndError(NodeOf(state, b), x);
      var y := NewBest(state, b, x);
      assert Linked(t.back, level, state, state, b);
      EndErrorFits(state, b, x);
      assert Ending(y.transition, y.outputMatched) == x;
      assert Finishes(l, y, b) && Frozen(level, state, state, b);
    }
  }
}
