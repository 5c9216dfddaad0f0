/** From the tables of a finished search to paths: every entry is a path, and every path is covered by an entry. */
module SearchResults {
  import opened PrefixMatch
  import opened SearchPaths
  import opened SearchTable

  // ----- stages of a search -----

  ghost predicate Fresh(sp: Search, t: Table) {
    && |t.back| == |sp.task.graph| && |t.best| == BestCount && t.back != [] && t.back[0] == [Initial]
    && (forall q :: 1 <= q < |t.back| ==> t.back[q] == [])
    && (forall l :: 0 <= l < |t.best| ==> !t.best[l].Set())
  }

  lemma FreshIsSound(sp: Search, t: Table)
    requires sp.Valid() && Fresh(sp, t)
    ensures sp.Sound(t, 0, 0) && sp.Done(t, 0, 0)
  {
    forall q, i | 0 <= q < |t.back| && 0 <= i < |t.back[q]|
      ensures sp.Linked(t.back, 0, 0, q, t.back[q][i])
    {
      assert q == 0 && i == 0;
    }
  }

  /** Every back transition of `state` that the search had to extend has been extended. */
  ghost predicate StateSettled(sp: Search, t: Table, level: nat, state: nat, upTo: nat)
    requires sp.Valid()
  {
    state < |t.back| &&
    forall i :: 0 <= i < upTo && i < |t.back[state]| && (sp.order.ErrorFirst? ==> t.back[state][i].error == level)
                ==> sp.Settled(t, state, t.back[state][i])
  }

  lemma FrozenLater(sp: Search, back: seq<seq<BackTransition>>, level: nat, state: nat, level': nat, state': nat, q: nat, b: BackTransition)
    requires sp.Linked(back, level, state, q, b)
    requires |back| == |sp.task.graph|
    requires (level' == level && state <= state') || (level' == level + 1 && sp.order.ErrorFirst?)
    ensures sp.Linked(back, level', state', q, b)
  {
    if !(q == 0 && b == Initial) {
      var k :| 0 <= k < |back[b.backState]| && sp.Extends(q, b, back[b.backState][k])
               && sp.Frozen(level, state, b.backState, back[b.backState][k]);
      assert sp.Frozen(level', state', b.backState, back[b.backState][k]);
    }
  }

  lemma BestFrozenLater(sp: Search, back: seq<seq<BackTransition>>, level: nat, state: nat, level': nat, state': nat, l: nat, x: Best)
    requires sp.Valid() && sp.BestLinked(back, level, state, l, x)
    requires (level' == level && state <= state') || (level' == level + 1 && sp.order.ErrorFirst?)
    ensures sp.BestLinked(back, level', state', l, x)
  {
    if x.Set() {
      var k :| 0 <= k < |back[x.fromState]| && sp.Finishes(l, x, back[x.fromState][k])
               && sp.Frozen(level, state, x.fromState, back[x.fromState][k]);
      assert sp.Frozen(level', state', x.fromState, back[x.fromState][k]);
    }
  }

  lemma SoundLater(sp: Search, t: Table, level: nat, state: nat, level': nat, state': nat)
    requires sp.Valid() && sp.Sound(t, level, state)
    requires (level' == level && state <= state') || (level' == level + 1 && sp.order.ErrorFirst?)
    ensures sp.Sound(t, level', state')
  {
    forall q, i | 0 <= q < |t.back| && 0 <= i < |t.back[q]|
      ensures sp.Linked(t.back, level', state', q, t.back[q][i])
    {
      FrozenLater(sp, t.back, level, state, level', state', q, t.back[q][i]);
    }
    forall l | 0 <= l < |t.best|
      ensures sp.BestLinked(t.back, level', state', l, t.best[l])
    {
      BestFrozenLater(sp, t.back, level, state, level', state', l, t.best[l]);
    }
  }

  lemma NextState(sp: Search, t: Table, level: nat, state: nat)
    requires sp.Valid() && sp.Sound(t, level, state) && sp.Done(t, level, state) && state < |t.back|
    requires StateSettled(sp, t, level, state, |t.back[state]|)
    ensures sp.Sound(t, level, state + 1) && sp.Done(t, level, state + 1)
  {
    SoundLater(sp, t, level, state, level, state + 1);
    forall q, i | 0 <= q < |t.back| && 0 <= i < |t.back[q]| && sp.Left(level, state + 1, q, t.back[q][i])
      ensures sp.Settled(t, q, t.back[q][i])
    {
      if !sp.Left(level, state, q, t.back[q][i]) {
        assert q == state;
      }
    }
  }

  lemma NextLevel(sp: Search, t: Table, level: nat)
    requires sp.Valid() && sp.order.ErrorFirst? && sp.Sound(t, level, |t.back|) && sp.Done(t, level, |t.back|)
    ensures sp.Sound(t, level + 1, 0) && sp.Done(t, level + 1, 0)
  {
    SoundLater(sp, t, level, |t.back|, level + 1, 0);
  }

  // ----- every entry is a path -----

  ghost predicate HasKey(l: seq<BackTransition>, prefixMatched: nat, phase: nat) {
    exists i :: 0 <= i < |l| && l[i].prefixMatched == prefixMatched && l[i].phase == phase
  }

  ghost function PlaceOf(l: seq<BackTransition>, prefixMatched: nat, phase: nat): (i: nat)
    requires HasKey(l, prefixMatched, phase)
    ensures i < |l| && l[i].prefixMatched == prefixMatched && l[i].phase == phase
  {
    var i :| 0 <= i < |l| && l[i].prefixMatched == prefixMatched && l[i].phase == phase;
    i
  }

  lemma OnlyPlace(l: seq<BackTransition>, i: nat)
    requires Unique(l) && i < |l|
    ensures HasKey(l, l[i].prefixMatched, l[i].phase) && PlaceOf(l, l[i].prefixMatched, l[i].phase) == i
  {
    var k := PlaceOf(l, l[i].prefixMatched, l[i].phase);
    assert l[i].SameKey(l[k]) && l[k].SameKey(l[i]);
  }

  lemma LinkHasKey(sp: Search, t: Table, level: nat, state: nat, q: nat, i: nat)
    requires sp.Valid() && sp.Sound(t, level, state) && 0 < q < |t.back| && i < |t.back[q]|
    ensures var b := t.back[q][i];
            0 <= b.backState < q && HasKey(t.back[b.backState], b.backMatched, b.backPhase)
            && sp.Extends(q, b, t.back[b.backState][PlaceOf(t.back[b.backState], b.backMatched, b.backPhase)])
  {
    var b := t.back[q][i];
    assert sp.Linked(t.back, level, state, q, b);
    var k :| 0 <= k < |t.back[b.backState]| && sp.Extends(q, b, t.back[b.backState][k])
             && sp.Frozen(level, state, b.backState, t.back[b.backState][k]);
    OnlyPlace(t.back[b.backState], k);
  }

  /** The path found by following the back transitions. */
  ghost function Trace(sp: Search, t: Table, level: nat, state: nat, n: Node): Path
    requires sp.Valid() && sp.Sound(t, level, state)
    requires n.state < |t.back| && HasKey(t.back[n.state], n.prefixMatched, n.phase)
    decreases n.state
  {
    if n.state == 0 then Root
    else
      var i := PlaceOf(t.back[n.state], n.prefixMatched, n.phase);
      LinkHasKey(sp, t, level, state, n.state, i);
      var b := t.back[n.state][i];
      Via(Trace(sp, t, level, state, Node(b.backState, b.backMatched, b.backPhase)), b.Step())
  }

  lemma {:induction false} TraceIsPath(sp: Search, t: Table, level: nat, state: nat, n: Node)
    requires sp.Valid() && sp.Sound(t, level, state)
    requires n.state < |t.back| && HasKey(t.back[n.state], n.prefixMatched, n.phase)
    ensures var p := Trace(sp, t, level, state, n);
            var b := t.back[n.state][PlaceOf(t.back[n.state], n.prefixMatched, n.phase)];
            sp.task.End(p) == Some(n) && sp.task.Error(p) == b.error && sp.task.Score(p) == b.score
    decreases n.state
  {
    var i := PlaceOf(t.back[n.state], n.prefixMatched, n.phase);
    if n.state != 0 {
      LinkHasKey(sp, t, level, state, n.state, i);
      var b := t.back[n.state][i];
      TraceIsPath(sp, t, level, state, Node(b.backState, b.backMatched, b.backPhase));
    }
  }

  ghost function BestNode(x: Best): Node
    requires 0 <= x.fromState
  {
    Node(x.fromState, x.backMatched, x.backPhase)
  }

  /** A completion in the table is that of the path traced back from it. */
  lemma BestIsComplete(sp: Search, t: Table, level: nat, state: nat, l: nat)
    requires sp.Valid() && sp.Sound(t, level, state) && l < |t.best| && t.best[l].Set()
    ensures 0 <= t.best[l].fromState < |t.back| && HasKey(t.back[t.best[l].fromState], t.best[l].backMatched, t.best[l].backPhase)
    ensures var p, x := Trace(sp, t, level, state, BestNode(t.best[l])), Ending(t.best[l].transition, t.best[l].outputMatched);
            sp.task.Complete(p, x) && sp.task.TotalError(p, x) == l && sp.task.TotalScore(p, x) == t.best[l].score
    ensures sp.task.MayFinish(BestNode(t.best[l]), Ending(t.best[l].transition, t.best[l].outputMatched))
  {
    var y := t.best[l];
    assert sp.BestLinked(t.back, level, state, l, y);
    var k :| 0 <= k < |t.back[y.fromState]| && sp.Finishes(l, y, t.back[y.fromState][k])
             && sp.Frozen(level, state, y.fromState, t.back[y.fromState][k]);
    OnlyPlace(t.back[y.fromState], k);
    TraceIsPath(sp, t, level, state, BestNode(y));
  }

  // ----- every path is covered, error level by error level -----

  lemma HoldsMove(sp: Search, t: Table, n: Node, c: BackTransition, e: nat, s: real, m: Move)
    requires sp.Valid() && sp.task.Allowed(n, m) && n == sp.NodeOf(n.state, c) && sp.EntryCovered(t, n.state, c)
    requires sp.order.AsGood(c.error, c.score, e, s)
    ensures sp.Holds(t, sp.task.After(n, m), e + sp.task.MoveError(n, m), s + sp.task.MoveScore(n, m))
  {
    var r, error, score := sp.task.After(n, m), sp.task.MoveError(n, m), sp.task.MoveScore(n, m);
    assert sp.TransitionCovered(t, n, c.error, c.score, m.transition);
    assert sp.MoveCovered(t, n, c.error, c.score, m);
    assert ListHolds(sp.order, t.back[r.state], r.prefixMatched, r.phase, c.error + error, c.score + score);
    var l := t.back[r.state];
    var i :| 0 <= i < |l| && l[i].prefixMatched == r.prefixMatched && l[i].phase == r.phase
             && sp.order.AsGood(l[i].error, l[i].score, c.error + error, c.score + score);
    sp.order.AsGoodAdds(c.error, c.score, e, s, error, score);
    assert sp.order.AsGood(l[i].error, l[i].score, e + error, s + score);
  }

  /** The entry that witnesses Holds. */
  lemma HeldBy(sp: Search, t: Table, n: Node, e: nat, s: real) returns (i: nat)
    requires sp.Holds(t, n, e, s)
    ensures i < |t.back[n.state]| && n == sp.NodeOf(n.state, t.back[n.state][i])
    ensures sp.order.AsGood(t.back[n.state][i].error, t.back[n.state][i].score, e, s)
  {
    var l := t.back[n.state];
    i :| 0 <= i < |l| && l[i].prefixMatched == n.prefixMatched && l[i].phase == n.phase
         && sp.order.AsGood(l[i].error, l[i].score, e, s);
  }

  /** Once a level is finished, whatever is held at no more than its error has been extended. */
  lemma HeldAndExtended(sp: Search, t: Table, level: nat, n: Node, e: nat, s: real) returns (c: BackTransition)
    requires sp.Valid() && sp.order.ErrorFirst? && sp.Sound(t, level, |t.back|) && sp.Done(t, level, |t.back|)
    requires sp.Holds(t, n, e, s) && e <= level
    ensures n == sp.NodeOf(n.state, c) && sp.order.AsGood(c.error, c.score, e, s) && sp.EntryCovered(t, n.state, c)
  {
    var i := HeldBy(sp, t, n, e, s);
    c := t.back[n.state][i];
    assert sp.Left(level, |t.back|, n.state, c);
    assert sp.Settled(t, n.state, c);
  }

  lemma {:induction false} PathHeld(sp: Search, t: Table, level: nat, p: Path)
    requires sp.Valid() && sp.order.ErrorFirst? && sp.Sound(t, level, |t.back|) && sp.Done(t, level, |t.back|)
    requires sp.task.IsPath(p) && sp.task.Error(p) <= level
    ensures sp.Holds(t, sp.task.End(p).value, sp.task.Error(p), sp.task.Score(p))
  {
    match p
    case Root =>
      assert t.back[0][0] == Initial;
    case Via(before, m) =>
      PathHeld(sp, t, level, before);
      var n := sp.task.End(before).value;
      var c := HeldAndExtended(sp, t, level, n, sp.task.Error(before), sp.task.Score(before));
      HoldsMove(sp, t, n, c, sp.task.Error(before), sp.task.Score(before), m);
  }

  lemma CompletionFound(sp: Search, t: Table, level: nat, p: Path, x: Ending) returns (l: nat)
    requires sp.Valid() && sp.order.ErrorFirst? && sp.Sound(t, level, |t.back|) && sp.Done(t, level, |t.back|)
    requires sp.task.Complete(p, x) && sp.task.Error(p) <= level
    ensures l <= sp.task.TotalError(p, x) && l < |t.best| && t.best[l].Set()
    ensures l == sp.task.TotalError(p, x) ==> t.best[l].score >= sp.task.TotalScore(p, x)
  {
    PathHeld(sp, t, level, p);
    var n := sp.task.End(p).value;
    var c := HeldAndExtended(sp, t, level, n, sp.task.Error(p), sp.task.Score(p));
    hide Search.Sound, Search.Done, Search.Holds, Search.EntryCovered, Search.Valid;
    l := c.error + sp.task.EndError(n, x);
    EntryEnds(sp, t, n.state, c, x);
  }

  lemma EntryEnds(sp: Search, t: Table, q: nat, c: BackTransition, x: Ending)
    requires sp.Valid() && sp.EntryCovered(t, q, c) && sp.task.MayFinish(sp.NodeOf(q, c), x)
    ensures var l := c.error + sp.task.EndError(sp.NodeOf(q, c), x);
            l < |t.best| && t.best[l].Set() && t.best[l].score >= c.score + sp.task.EndScore(sp.NodeOf(q, c), x)
  {
    assert sp.TransitionCovered(t, sp.NodeOf(q, c), c.error, c.score, x.transition);
    assert sp.EndingCovered(t, sp.NodeOf(q, c), c.error, c.score, x);
  }

  // ----- without the cap on the cost tables -----

  function Uncapped(task: Task): Task {
    task.(capped := false)
  }

  lemma CostAgrees(task: Task, from: nat, output: seq<Word>, i: nat, j: nat)
    requires from + i <= |task.prefix.words| && j <= |output|
    ensures Min(task.Cost(from, output, i, j), task.Cap()) == Min(Uncapped(task).Cost(from, output, i, j), task.Cap())
  {
    task.prefix.CapIsHarmless(task.Cap(), from, output, i, j);
  }

  lemma MoveAgrees(task: Task, n: Node, m: Move)
    requires task.Allowed(n, m)
    ensures Uncapped(task).Allowed(n, m) && Uncapped(task).After(n, m) == task.After(n, m)
    ensures Uncapped(task).MoveScore(n, m) == task.MoveScore(n, m)
    ensures Min(task.MoveError(n, m), task.Cap()) == Min(Uncapped(task).MoveError(n, m), task.Cap())
  {
    if !m.skip {
      var output := task.Taken(n.state, m.transition).output;
      CostAgrees(task, n.prefixMatched, output, m.prefixMatched - n.prefixMatched, |output|);
    }
  }

  lemma {:induction false} EndAgrees(task: Task, p: Path)
    ensures Uncapped(task).End(p) == task.End(p)
  {
    match p
    case Root =>
    case Via(before, m) => EndAgrees(task, before);
  }

  /** Errors below the cap are the true edit errors. */
  lemma {:induction false} PathAgrees(task: Task, p: Path)
    requires task.IsPath(p)
    ensures Uncapped(task).IsPath(p) && Uncapped(task).Score(p) == task.Score(p)
    ensures Min(task.Error(p), task.Cap()) == Min(Uncapped(task).Error(p), task.Cap())
  {
    EndAgrees(task, p);
    match p
    case Root =>
    case Via(before, m) =>
      EndAgrees(task, before);
      PathAgrees(task, before);
      MoveAgrees(task, task.End(before).value, m);
  }

  lemma CompleteAgrees(task: Task, p: Path, x: Ending)
    requires task.Valid()
    ensures Uncapped(task).Complete(p, x) <==> task.Complete(p, x)
    ensures task.Complete(p, x) ==>
              && Uncapped(task).TotalScore(p, x) == task.TotalScore(p, x)
              && Min(task.TotalError(p, x), task.Cap()) == Min(Uncapped(task).TotalError(p, x), task.Cap())
  {
    hide Task.Cost, Task.Error, Task.Score, Task.End;
    EndAgrees(task, p);
    if task.Complete(p, x) {
      PathAgrees(task, p);
      var n := task.End(p).value;
      CostAgrees(task, n.prefixMatched, task.Taken(n.state, x.transition).output, |task.prefix.words| - n.prefixMatched, x.outputMatched);
    }
  }

  // ----- what a search promises -----

  /** `level` is the least error of a complete path, and `score` the best score of those with that error. */
  ghost predicate LeastError(task: Task, level: nat, score: real)
    requires task.Valid()
  {
    && (exists p, x :: task.Complete(p, x) && task.TotalError(p, x) == level && task.TotalScore(p, x) == score)
    && (forall p, x :: task.Complete(p, x) ==>
          task.TotalError(p, x) >= level && (task.TotalError(p, x) == level ==> task.TotalScore(p, x) <= score))
  }

  ghost predicate NoPathWithin(task: Task, level: nat)
    requires task.Valid()
  {
    forall p, x :: task.Complete(p, x) ==> task.TotalError(p, x) > level
  }

  lemma LevelReached(sp: Search, t: Table, level: nat)
    requires sp.Valid() && sp.order.ErrorFirst? && sp.Sound(t, level, |t.back|) && sp.Done(t, level, |t.back|)
    requires level <= |sp.task.prefix.words| && t.best[level].Set()
    requires forall l :: 0 <= l < level ==> !t.best[l].Set()
    ensures LeastError(Uncapped(sp.task), level, t.best[level].score)
  {
    BestIsComplete(sp, t, level, |t.back|, level);
    CompleteAgrees(sp.task, Trace(sp, t, level, |t.back|, BestNode(t.best[level])), Ending(t.best[level].transition, t.best[level].outputMatched));
    forall p, x | Uncapped(sp.task).Complete(p, x)
      ensures Uncapped(sp.task).TotalError(p, x) >= level
      ensures Uncapped(sp.task).TotalError(p, x) == level ==> Uncapped(sp.task).TotalScore(p, x) <= t.best[level].score
    {
      NoneBelow(sp, t, level, p, x);
    }
  }

  lemma NoneBelow(sp: Search, t: Table, level: nat, p: Path, x: Ending)
    requires sp.Valid() && sp.order.ErrorFirst? && sp.Sound(t, level, |t.back|) && sp.Done(t, level, |t.back|)
    requires level <= |sp.task.prefix.words| && Uncapped(sp.task).Complete(p, x)
    requires forall l :: 0 <= l < level ==> !t.best[l].Set()
    ensures Uncapped(sp.task).TotalError(p, x) >= level
    ensures Uncapped(sp.task).TotalError(p, x) == level ==>
              t.best[level].Set() && Uncapped(sp.task).TotalScore(p, x) <= t.best[level].score
  {
    CompleteAgrees(sp.task, p, x);
    if sp.task.TotalError(p, x) <= level {
      var l := CompletionFound(sp, t, level, p, x);
    }
  }

  lemma LevelsExhausted(sp: Search, t: Table, level: nat)
    requires sp.Valid() && sp.order.ErrorFirst? && sp.Sound(t, level, |t.back|) && sp.Done(t, level, |t.back|)
    requires level <= |sp.task.prefix.words|
    requires forall l :: 0 <= l <= level ==> !t.best[l].Set()
    ensures NoPathWithin(Uncapped(sp.task), level)
  {
    forall p, x | Uncapped(sp.task).Complete(p, x)
      ensures Uncapped(sp.task).TotalError(p, x) > level
    {
      NoneBelow(sp, t, level, p, x);
    }
  }

  // ----- one weighted pass with pruning -----

  /** What bestScore starts from. */
  const Floor := -1000000.0

  /** The forward score of a state is no less than what any of its transitions leads to. */
  ghost predicate Admissible(task: Task)
    requires task.Valid()
  {
    forall q, t :: 0 <= q < |task.graph| && 0 <= t < |task.graph[q].transitions| ==>
      task.graph[q].forwardScore >= task.graph[q].transitions[t].score + task.graph[task.graph[q].transitions[t].toState].forwardScore
  }

  /** bestScore is the greatest value in the table of completions, or still the floor. */
  ghost predicate BestScoreIs(sp: Search, t: Table)
    requires sp.order.Weighted?
  {
    && (forall l: nat :: l < |t.best| && t.best[l].Set() ==> sp.order.Value(l, t.best[l].score) <= t.bestScore)
    && (t.bestScore == Floor || exists l: nat :: l < |t.best| && t.best[l].Set() && sp.order.Value(l, t.best[l].score) == t.bestScore)
    && t.bestScore >= Floor
  }

  lemma OfferBestScore(sp: Search, t: Table, l: nat, x: Best)
    requires sp.order.Weighted? && BestScoreIs(sp, t) && l < |t.best| && x.Set()
    ensures BestScoreIs(sp, sp.OfferBest(t, l, x))
  {
    var t' := sp.OfferBest(t, l, x);
    if t'.bestScore == t.bestScore && t.bestScore != Floor {
      var k: nat :| k < |t.best| && t.best[k].Set() && sp.order.Value(k, t.best[k].score) == t.bestScore;
      assert sp.order.Value(k, t'.best[k].score) >= t.bestScore;
      assert t'.best[k].Set();
    } else if t'.bestScore != t.bestScore {
      assert t'.best[l] == x && sp.order.Value(l, t'.best[l].score) == t'.bestScore;
    }
  }

  /** Nothing worth as much as the best completion can follow n, reached with error e and score s. */
  ghost predicate Cut(sp: Search, t: Table, n: Node, e: nat, s: real)
    requires sp.order.Weighted?
  {
    n.state < |sp.task.graph| && sp.task.graph[n.state].forwardScore + sp.order.Value(e, s) < t.bestScore
  }

  ghost predicate HeldOrCut(sp: Search, t: Table, n: Node, e: nat, s: real)
    requires sp.order.Weighted?
  {
    sp.Holds(t, n, e, s) || Cut(sp, t, n, e, s)
  }

  lemma CutMove(sp: Search, t: Table, n: Node, e: nat, s: real, m: Move)
    requires sp.Valid() && sp.order.Weighted? && sp.order.weight <= 0.0 && Admissible(sp.task)
    requires sp.task.Allowed(n, m) && Cut(sp, t, n, e, s)
    ensures Cut(sp, t, sp.task.After(n, m), e + sp.task.MoveError(n, m), s + sp.task.MoveScore(n, m))
  {
    sp.order.ValueAdds(e, s, sp.task.MoveError(n, m), sp.task.MoveScore(n, m));
    sp.order.ErrorNeverHelps(sp.task.MoveError(n, m));
  }

  /** What is held has been extended, or cannot lead to anything better. */
  lemma ExtendedOrCut(sp: Search, t: Table, level: nat, n: Node, e: nat, s: real) returns (c: BackTransition)
    requires sp.Valid() && sp.order.Weighted? && sp.Sound(t, level, |t.back|) && sp.Done(t, level, |t.back|)
    requires sp.Holds(t, n, e, s)
    ensures n == sp.NodeOf(n.state, c) && sp.order.AsGood(c.error, c.score, e, s)
    ensures Cut(sp, t, n, e, s) || sp.EntryCovered(t, n.state, c)
  {
    var i := HeldBy(sp, t, n, e, s);
    c := t.back[n.state][i];
    assert sp.Left(level, |t.back|, n.state, c);
    assert sp.Settled(t, n.state, c);
  }

  lemma MoveHeldOrCut(sp: Search, t: Table, level: nat, n: Node, e: nat, s: real, m: Move)
    requires sp.Valid() && sp.order.Weighted? && sp.order.weight <= 0.0 && Admissible(sp.task)
    requires sp.Sound(t, level, |t.back|) && sp.Done(t, level, |t.back|)
    requires HeldOrCut(sp, t, n, e, s) && sp.task.Allowed(n, m)
    ensures HeldOrCut(sp, t, sp.task.After(n, m), e + sp.task.MoveError(n, m), s + sp.task.MoveScore(n, m))
  {
    hide Search.Holds, Cut, Search.Sound, Search.Done, Admissible, Search.Valid, Search.EntryCovered, Order.AsGood, Order.Value;
    if Cut(sp, t, n, e, s) {
      CutMove(sp, t, n, e, s, m);
    } else {
      var c := ExtendedOrCut(sp, t, level, n, e, s);
      HoldsMove(sp, t, n, c, e, s, m);
    }
  }

  lemma {:induction false} PathHeldOrCut(sp: Search, t: Table, level: nat, p: Path)
    requires sp.Valid() && sp.order.Weighted? && sp.order.weight <= 0.0 && Admissible(sp.task)
    requires sp.Sound(t, level, |t.back|) && sp.Done(t, level, |t.back|) && sp.task.IsPath(p)
    ensures HeldOrCut(sp, t, sp.task.End(p).value, sp.task.Error(p), sp.task.Score(p))
  {
    hide HeldOrCut, Search.Sound, Search.Done, Search.Valid, Admissible;
    match p
    case Root => RootHeld(sp, t, level, |t.back|);
    case Via(before, m) =>
      PathHeldOrCut(sp, t, level, before);
      MoveHeldOrCut(sp, t, level, sp.task.End(before).value, sp.task.Error(before), sp.task.Score(before), m);
  }

  lemma RootHeld(sp: Search, t: Table, level: nat, state: nat)
    requires sp.Valid() && sp.order.Weighted? && sp.Sound(t, level, state)
    ensures HeldOrCut(sp, t, Node(0, 0, 0), 0, 0.0)
  {
    assert t.back[0][0] == Initial;
  }

  lemma CutEnding(sp: Search, t: Table, n: Node, e: nat, s: real, x: Ending)
    requires sp.Valid() && sp.order.Weighted? && sp.order.weight <= 0.0 && Admissible(sp.task)
    requires sp.task.MayFinish(n, x) && Cut(sp, t, n, e, s)
    ensures sp.order.Value(e + sp.task.EndError(n, x), s + sp.task.EndScore(n, x)) <= t.bestScore
  {
    sp.order.ValueAdds(e, s, sp.task.EndError(n, x), sp.task.EndScore(n, x));
    sp.order.ErrorNeverHelps(sp.task.EndError(n, x));
  }

  lemma BestBounds(sp: Search, t: Table, l: nat, s: real)
    requires sp.order.Weighted? && BestScoreIs(sp, t) && l < |t.best| && t.best[l].Set() && t.best[l].score >= s
    ensures sp.order.Value(l, s) <= t.bestScore
  {
  }

  lemma CoveredEnding(sp: Search, t: Table, n: Node, c: BackTransition, e: nat, s: real, x: Ending)
    requires sp.Valid() && sp.order.Weighted? && BestScoreIs(sp, t)
    requires sp.task.MayFinish(n, x) && n == sp.NodeOf(n.state, c) && sp.EntryCovered(t, n.state, c)
    requires sp.order.AsGood(c.error, c.score, e, s)
    ensures sp.order.Value(e + sp.task.EndError(n, x), s + sp.task.EndScore(n, x)) <= t.bestScore
  {
    var error, score := sp.task.EndError(n, x), sp.task.EndScore(n, x);
    EntryEnds(sp, t, n.state, c, x);
    BestBounds(sp, t, c.error + error, c.score + score);
    sp.order.AsGoodAdds(c.error, c.score, e, s, error, score);
  }

  lemma EndingBounded(sp: Search, t: Table, level: nat, n: Node, e: nat, s: real, x: Ending)
    requires sp.Valid() && sp.order.Weighted? && sp.order.weight <= 0.0 && Admissible(sp.task)
    requires sp.Sound(t, level, |t.back|) && sp.Done(t, level, |t.back|) && BestScoreIs(sp, t)
    requires HeldOrCut(sp, t, n, e, s) && sp.task.MayFinish(n, x)
    ensures sp.order.Value(e + sp.task.EndError(n, x), s + sp.task.EndScore(n, x)) <= t.bestScore
  {
    hide Search.Holds, Cut, Search.Sound, Search.Done, Admissible, Search.EntryCovered, BestScoreIs, Order.AsGood, Order.Value;
    if Cut(sp, t, n, e, s) {
      CutEnding(sp, t, n, e, s, x);
    } else {
      var c := ExtendedOrCut(sp, t, level, n, e, s);
      CoveredEnding(sp, t, n, c, e, s, x);
    }
  }

  lemma CompleteParts(sp: Search, p: Path, x: Ending)
    requires sp.Valid() && sp.task.Complete(p, x)
    ensures sp.task.Valid() && sp.task.IsPath(p) && sp.task.End(p).Some? && sp.task.MayFinish(sp.task.End(p).value, x)
    ensures sp.task.TotalError(p, x) == sp.task.Error(p) + sp.task.EndError(sp.task.End(p).value, x)
    ensures sp.task.TotalScore(p, x) == sp.task.Score(p) + sp.task.EndScore(sp.task.End(p).value, x)
  {
  }

  /** No complete path is worth more than bestScore. */
  lemma NothingBetter(sp: Search, t: Table, level: nat, p: Path, x: Ending)
    requires sp.Valid() && sp.order.Weighted? && sp.order.weight <= 0.0 && Admissible(sp.task)
    requires sp.Sound(t, level, |t.back|) && sp.Done(t, level, |t.back|) && BestScoreIs(sp, t)
    requires sp.task.Complete(p, x)
    ensures sp.order.Value(sp.task.TotalError(p, x), sp.task.TotalScore(p, x)) <= t.bestScore
  {
    hide *;
    CompleteParts(sp, p, x);
    PathHeldOrCut(sp, t, level, p);
    EndingBounded(sp, t, level, sp.task.End(p).value, sp.task.Error(p), sp.task.Score(p), x);
  }

  /** `error` and `score` are those of a complete path, and no complete path is worth more. */
  ghost predicate GreatestValue(task: Task, order: Order, error: nat, score: real)
    requires task.Valid() && order.Weighted?
  {
    && (exists p, x :: task.Complete(p, x) && task.TotalError(p, x) == error && task.TotalScore(p, x) == score)
    && (forall p, x :: task.Complete(p, x) ==>
          order.Value(task.TotalError(p, x), task.TotalScore(p, x)) <= order.Value(error, score))
  }

  lemma BestIsGreatest(sp: Search, t: Table, level: nat, l: nat)
    requires sp.Valid() && sp.order.Weighted? && sp.order.weight <= 0.0 && Admissible(sp.task)
    requires sp.Sound(t, level, |t.back|) && sp.Done(t, level, |t.back|) && BestScoreIs(sp, t)
    requires l < |t.best| && t.best[l].Set() && sp.order.Value(l, t.best[l].score) == t.bestScore
    ensures GreatestValue(sp.task, sp.order, l, t.best[l].score)
  {
    BestIsComplete(sp, t, level, |t.back|, l);
    forall p, x | sp.task.Complete(p, x)
      ensures sp.order.Value(sp.task.TotalError(p, x), sp.task.TotalScore(p, x)) <= sp.order.Value(l, t.best[l].score)
    {
      NothingBetter(sp, t, level, p, x);
    }
  }
}
