/** Paths through the decoder's search graph that match the typed prefix, and the table of back transitions in which the
    searches keep the best of them: one per graph state, number of matched prefix words and phase. */
module SearchPaths {
  import opened PrefixMatch

  datatype Option<T> = None | Some(value: T)

  /** Where a search stands. The phase is 0 before, 1 inside and 2 after the block of skipped transitions. */
  datatype Node = Node(state: nat, prefixMatched: nat, phase: nat)

  /** Take a transition: skip it, or match all of it with the prefix words up to `prefixMatched`. */
  datatype Move = Move(transition: nat, skip: bool, prefixMatched: nat)

  datatype Path = Root | Via(before: Path, move: Move)

  /** The rest of the prefix is matched by the first words of a last transition. */
  datatype Ending = Ending(transition: nat, outputMatched: nat)

  datatype BackTransition = BackTransition(score: real, error: nat, prefixMatched: nat, backState: int, backMatched: nat,
                                           transition: nat, phase: nat, backPhase: nat)
  {
    predicate SameKey(that: BackTransition) {
      prefixMatched == that.prefixMatched && phase == that.phase
    }

    function Step(): Move {
      Move(transition, phase == 1, prefixMatched)
    }
  }

  const Initial := BackTransition(0.0, 0, 0, -1, 0, 0, 0, 0)

  datatype Best = Best(score: real, fromState: int, transition: nat, outputMatched: nat, backMatched: nat, prefixMatched: nat,
                       backPhase: nat)
  {
    predicate Set() {
      fromState != -1
    }
  }

  const BestCount := 20001

  /** What makes one way to a node better than another. */
  datatype Order = ErrorFirst | Weighted(weight: real) {

    function Value(e: nat, s: real): real
      requires Weighted?
    {
      s + Penalty(e)
    }

    function Penalty(e: nat): real
      requires Weighted?
    {
      weight * e as real
    }

    predicate AsGood(e: nat, s: real, e': nat, s': real) {
      match this
      case ErrorFirst => e < e' || (e == e' && s >= s')
      case Weighted(_) => Value(e, s) >= Value(e', s')
    }

    /** `new` replaces `old`. */
    predicate Improves(new_: BackTransition, old_: BackTransition) {
      || !AsGood(old_.error, old_.score, new_.error, new_.score)
      || (AsGood(new_.error, new_.score, old_.error, old_.score) && old_.backMatched < new_.prefixMatched)
    }

    lemma ValueAdds(e: nat, s: real, error: nat, score: real)
      requires Weighted?
      ensures Value(e + error, s + score) == Value(e, s) + (score + Penalty(error))
    {
      var x, y := e as real, error as real;
      assert (e + error) as real == x + y;
      assert weight * (x + y) == weight * x + weight * y;
    }

    lemma ErrorNeverHelps(e: nat)
      requires Weighted? && weight <= 0.0
      ensures Penalty(e) <= 0.0
    {
    }

    lemma AsGoodAdds(e: nat, s: real, e': nat, s': real, error: nat, score: real)
      requires AsGood(e, s, e', s')
      ensures AsGood(e + error, s + score, e' + error, s' + score)
    {
      if Weighted? {
        ValueAdds(e, s, error, score);
        ValueAdds(e', s', error, score);
      }
    }
  }

  // ----- one list of back transitions -----

  predicate Unique(l: seq<BackTransition>) {
    forall i, j :: 0 <= i < j < |l| ==> !l[i].SameKey(l[j])
  }

  /** The list after a back transition has been offered: it takes the place of the first with its key if it improves it. */
  function Record(o: Order, l: seq<BackTransition>, b: BackTransition): seq<BackTransition> {
    if l == [] then [b]
    else if l[0].SameKey(b) then if o.Improves(b, l[0]) then [b] + l[1..] else l
    else [l[0]] + Record(o, l[1..], b)
  }

  predicate ListHolds(o: Order, l: seq<BackTransition>, prefixMatched: nat, phase: nat, e: nat, s: real) {
    exists i :: 0 <= i < |l| && l[i].prefixMatched == prefixMatched && l[i].phase == phase && o.AsGood(l[i].error, l[i].score, e, s)
  }

  /** Every place keeps its back transition, or has the new one in place of a worse one. */
  lemma {:induction false} RecordAt(o: Order, l: seq<BackTransition>, b: BackTransition)
    requires Unique(l)
    ensures |l| <= |Record(o, l, b)| <= |l| + 1
    ensures forall i :: 0 <= i < |l| ==>
              Record(o, l, b)[i] == if l[i].SameKey(b) && o.Improves(b, l[i]) then b else l[i]
    ensures |Record(o, l, b)| == |l| + 1 <==> forall i :: 0 <= i < |l| ==> !l[i].SameKey(b)
    ensures |Record(o, l, b)| == |l| + 1 ==> Record(o, l, b)[|l|] == b
  {
    if l != [] {
      if l[0].SameKey(b) {
        forall i | 1 <= i < |l|
          ensures !l[i].SameKey(b)
        {
          assert !l[0].SameKey(l[i]);
        }
      } else {
        RecordAt(o, l[1..], b);
        var r := Record(o, l[1..], b);
        assert Record(o, l, b) == [l[0]] + r;
        forall i | 0 <= i < |l|
          ensures Record(o, l, b)[i] == if l[i].SameKey(b) && o.Improves(b, l[i]) then b else l[i]
        {
          if 0 < i {
            assert l[1..][i - 1] == l[i];
          }
        }
        if |r| == |l| {
          forall i | 0 <= i < |l|
            ensures !l[i].SameKey(b)
          {
            if 0 < i {
              assert l[1..][i - 1] == l[i];
            }
          }
        }
      }
    }
  }

  lemma RecordUnique(o: Order, l: seq<BackTransition>, b: BackTransition)
    requires Unique(l)
    ensures Unique(Record(o, l, b))
  {
    RecordAt(o, l, b);
  }

  lemma RecordHolds(o: Order, l: seq<BackTransition>, b: BackTransition)
    requires Unique(l)
    ensures ListHolds(o, Record(o, l, b), b.prefixMatched, b.phase, b.error, b.score)
  {
    RecordAt(o, l, b);
    var r := Record(o, l, b);
    if i :| 0 <= i < |l| && l[i].SameKey(b) {
      assert r[i].SameKey(b) && o.AsGood(r[i].error, r[i].score, b.error, b.score);
    } else {
      assert r[|l|] == b;
    }
  }

  lemma RecordKeepsHolds(o: Order, l: seq<BackTransition>, b: BackTransition, prefixMatched: nat, phase: nat, e: nat, s: real)
    requires Unique(l) && ListHolds(o, l, prefixMatched, phase, e, s)
    ensures ListHolds(o, Record(o, l, b), prefixMatched, phase, e, s)
  {
    RecordAt(o, l, b);
    var r := Record(o, l, b);
    var i :| 0 <= i < |l| && l[i].prefixMatched == prefixMatched && l[i].phase == phase && o.AsGood(l[i].error, l[i].score, e, s);
    assert r[i].prefixMatched == prefixMatched && r[i].phase == phase && o.AsGood(r[i].error, r[i].score, e, s);
  }

  // ----- the graph and its paths -----

  /** A search problem. `capped` says that the cost tables of the search stop growing, as ModifiedCaitra's do; no phrase has
      more than `longest` words. */
  datatype Task = Task(prefix: Prefix, graph: seq<GraphState>, maySkip: bool, capped: bool, longest: nat) {

    /** The graph is ordered: every transition leads to a later state. */
    predicate Valid() {
      && prefix.words != [] && graph != []
      && (forall q, t :: 0 <= q < |graph| && 0 <= t < |graph[q].transitions| ==> q < graph[q].transitions[t].toState < |graph|)
      && (forall q, t :: 0 <= q < |graph| && 0 <= t < |graph[q].transitions| ==> |graph[q].transitions[t].output| <= longest)
    }

    function Cap(): nat {
      2 * |prefix.words| + 2
    }

    function Cost(from: nat, output: seq<Word>, i: nat, j: nat): nat
      requires from + i <= |prefix.words| && j <= |output|
    {
      if capped then prefix.Capped(Cap(), from, output, i, j) else prefix.Distance(from, output, i, j)
    }

    lemma CostAtMost(from: nat, output: seq<Word>, i: nat, j: nat)
      requires from + i <= |prefix.words| && j <= |output|
      ensures Cost(from, output, i, j) <= Max(i, j)
    {
      prefix.CappedAtMost(Cap(), from, output, i, j);
      prefix.CapNotReached(j, from, output, i, j);
      prefix.CappedAtMost(j, from, output, i, j);
    }

    /** Where the tables are capped, they hold the true distances if and only if the phrase has at most twice the words of the prefix
        and two. */
    lemma CostExactIff(from: nat, output: seq<Word>)
      requires capped && from <= |prefix.words|
      ensures (forall i, j :: 0 <= i <= |prefix.words| - from && 0 <= j <= |output| ==>
                 Cost(from, output, i, j) == prefix.Distance(from, output, i, j))
              <==> |output| <= 2 * |prefix.words| + 2
    {
      prefix.TableExactIff(Cap(), from, output);
      hide Prefix.Capped, Prefix.Distance;
      assert forall i, j :: 0 <= i <= |prefix.words| - from && 0 <= j <= |output| ==>
                 Cost(from, output, i, j) == prefix.Capped(Cap(), from, output, i, j);
    }

    predicate HasTransition(state: nat, t: nat) {
      state < |graph| && t < |graph[state].transitions|
    }

    function Taken(state: nat, t: nat): Transition
      requires HasTransition(state, t)
    {
      graph[state].transitions[t]
    }

    // ----- moves -----

    predicate Allowed(n: Node, m: Move) {
      && HasTransition(n.state, m.transition)
      && if m.skip then maySkip && n.phase <= 1 && m.prefixMatched == n.prefixMatched
         else n.prefixMatched < m.prefixMatched < |prefix.words|
    }

    function After(n: Node, m: Move): Node
      requires Allowed(n, m)
    {
      Node(Taken(n.state, m.transition).toState, m.prefixMatched, if m.skip then 1 else if n.phase == 0 then 0 else 2)
    }

    function MoveError(n: Node, m: Move): nat
      requires Allowed(n, m)
    {
      if m.skip then if n.phase == 0 then 1 else 0
      else
        var output := Taken(n.state, m.transition).output;
        Cost(n.prefixMatched, output, m.prefixMatched - n.prefixMatched, |output|)
    }

    function MoveScore(n: Node, m: Move): real
      requires Allowed(n, m)
    {
      Taken(n.state, m.transition).score
    }

    predicate MayFinish(n: Node, x: Ending) {
      && HasTransition(n.state, x.transition) && n.prefixMatched <= |prefix.words|
      && var output := Taken(n.state, x.transition).output;
         1 <= x.outputMatched <= |output| && prefix.MayEnd(output[x.outputMatched - 1])
    }

    function EndError(n: Node, x: Ending): nat
      requires MayFinish(n, x)
    {
      Cost(n.prefixMatched, Taken(n.state, x.transition).output, |prefix.words| - n.prefixMatched, x.outputMatched)
    }

    /** The score of the last transition and of the best way on from there. */
    function EndScore(n: Node, x: Ending): real
      requires Valid() && MayFinish(n, x)
    {
      var taken := Taken(n.state, x.transition);
      taken.score + graph[taken.toState].forwardScore
    }

    // ----- paths -----

    /** Where a path leads, if all its moves are allowed. */
    function End(p: Path): Option<Node> {
      match p
      case Root => Some(Node(0, 0, 0))
      case Via(before, move) =>
        match End(before)
        case None => None
        case Some(n) => if Allowed(n, move) then Some(After(n, move)) else None
    }

    predicate IsPath(p: Path) {
      End(p).Some?
    }

    function Error(p: Path): nat
      requires IsPath(p)
    {
      match p
      case Root => 0
      case Via(before, move) => Error(before) + MoveError(End(before).value, move)
    }

    function Score(p: Path): real
      requires IsPath(p)
    {
      match p
      case Root => 0.0
      case Via(before, move) => Score(before) + MoveScore(End(before).value, move)
    }

    /** A path and an ending that together match the whole prefix. */
    predicate Complete(p: Path, x: Ending) {
      IsPath(p) && MayFinish(End(p).value, x)
    }

    function TotalError(p: Path, x: Ending): nat
      requires Complete(p, x)
    {
      Error(p) + EndError(End(p).value, x)
    }

    function TotalScore(p: Path, x: Ending): real
      requires Valid() && Complete(p, x)
    {
      Score(p) + EndScore(End(p).value, x)
    }
  
    // ----- the words of a path -----

    /** The phrases that were matched, and those that were skipped. */
    function Words(p: Path, skipped: bool): seq<Word>
      requires IsPath(p)
    {
      match p
      case Root => []
      case Via(before, move) =>
        Words(before, skipped) + if move.skip == skipped then Taken(End(before).value.state, move.transition).output else []
    }

    // ----- the block of skipped transitions -----

    function Moves(p: Path): seq<Move> {
      match p
      case Root => []
      case Via(before, move) => Moves(before) + [move]
    }

    /** Where the moves lead when the phases are forgotten: any transition may be skipped. */
    function Reach(p: Path): Option<(nat, nat)> {
      match p
      case Root => Some((0, 0))
      case Via(before, move) =>
        match Reach(before)
        case None => None
        case Some((state, matched)) =>
          if && HasTransition(state, move.transition)
             && (if move.skip then maySkip && move.prefixMatched == matched else matched < move.prefixMatched < |prefix.words|)
          then Some((Taken(state, move.transition).toState, move.prefixMatched))
          else None
    }

    ghost predicate SkipsExactly(p: Path, i: nat, j: nat) {
      && i <= j <= |Moves(p)|
      && forall k :: 0 <= k < |Moves(p)| ==> (Moves(p)[k].skip <==> i <= k < j)
    }

    /** The skipped transitions follow one another. */
    ghost predicate OneBlock(p: Path) {
      exists i: nat, j: nat :: SkipsExactly(p, i, j)
    }

    /** What the phase says of the block. */
    ghost predicate PhaseFits(p: Path, phase: nat) {
      match phase
      case 0 => SkipsExactly(p, |Moves(p)|, |Moves(p)|)
      case 1 => exists i: nat :: i < |Moves(p)| && SkipsExactly(p, i, |Moves(p)|)
      case _ => phase == 2 && exists i: nat, j: nat :: i < j < |Moves(p)| && SkipsExactly(p, i, j)
    }

    lemma {:induction false} PathHasOneBlock(p: Path)
      requires IsPath(p)
      ensures Reach(p) == Some((End(p).value.state, End(p).value.prefixMatched)) && PhaseFits(p, End(p).value.phase)
    {
      match p
      case Root =>
      case Via(before, move) =>
        PathHasOneBlock(before);
        var n := |Moves(before)|;
        if move.skip {
          if End(before).value.phase == 0 {
            assert SkipsExactly(p, n, n + 1);
          } else {
            var i: nat :| i < n && SkipsExactly(before, i, n);
            assert SkipsExactly(p, i, n + 1);
          }
        } else if End(before).value.phase == 0 {
          assert SkipsExactly(p, n + 1, n + 1);
        } else if End(before).value.phase == 1 {
          var i: nat :| i < n && SkipsExactly(before, i, n);
          assert SkipsExactly(p, i, n);
        } else {
          var i: nat, j: nat :| i < j < n && SkipsExactly(before, i, j);
          assert SkipsExactly(p, i, j);
        }
    }

    lemma BlockIsUnique(p: Path, i: nat, j: nat, i': nat, j': nat)
      requires SkipsExactly(p, i, j) && SkipsExactly(p, i', j') && i < j
      ensures i' == i && j' == j
    {
      assert Moves(p)[i].skip && Moves(p)[j - 1].skip;
      assert i' <= i && j <= j';
      assert Moves(p)[i'].skip && Moves(p)[j' - 1].skip;
    }

    lemma {:induction false} OneBlockIsPath(p: Path, i: nat, j: nat)
      requires Reach(p).Some? && SkipsExactly(p, i, j)
      ensures IsPath(p)
    {
      match p
      case Root =>
      case Via(before, move) =>
        var n := |Moves(before)|;
        assert Moves(p)[n] == move;
        forall k | 0 <= k < n
          ensures Moves(before)[k] == Moves(p)[k]
        {
        }
        assert move.skip <==> i <= n < j;
        if move.skip {
          assert SkipsExactly(before, i, n);
          OneBlockIsPath(before, i, n);
          PathHasOneBlock(before);
          if End(before).value.phase == 2 {
            var i': nat, j': nat :| i' < j' < n && SkipsExactly(before, i', j');
            BlockIsUnique(before, i', j', i, n);
            assert false;
          }
        } else if j <= n {
          assert SkipsExactly(before, i, j);
          OneBlockIsPath(before, i, j);
          PathHasOneBlock(before);
        } else {
          assert SkipsExactly(before, n, n);
          OneBlockIsPath(before, n, n);
          PathHasOneBlock(before);
        }
    }

    /** The skip automaton allows exactly the ways through the graph with at most one block of skipped transitions. */
    lemma PathIffOneBlock(p: Path)
      ensures IsPath(p) <==> Reach(p).Some? && OneBlock(p)
    {
      if IsPath(p) {
        PathHasOneBlock(p);
      } else if Reach(p).Some? && OneBlock(p) {
        var i: nat, j: nat :| SkipsExactly(p, i, j);
        OneBlockIsPath(p, i, j);
      }
    }

    /** The edit errors of the matched phrases. */
    function MatchErrors(p: Path): nat
      requires IsPath(p)
    {
      match p
      case Root => 0
      case Via(before, move) => MatchErrors(before) + if move.skip then 0 else MoveError(End(before).value, move)
    }

    ghost predicate Skips(p: Path) {
      exists k :: 0 <= k < |Moves(p)| && Moves(p)[k].skip
    }

    lemma PhaseSkips(p: Path, phase: nat)
      requires PhaseFits(p, phase)
      ensures Skips(p) <==> phase != 0
    {
      if phase == 1 {
        var i: nat :| i < |Moves(p)| && SkipsExactly(p, i, |Moves(p)|);
        assert Moves(p)[i].skip;
      } else if phase != 0 {
        var i: nat, j: nat :| i < j < |Moves(p)| && SkipsExactly(p, i, j);
        assert Moves(p)[i].skip;
      }
    }

    /** Skipping costs one error, however long the block. */
    lemma {:induction false} SkipCostsOne(p: Path)
      requires IsPath(p)
      ensures Error(p) == MatchErrors(p) + if Skips(p) then 1 else 0
    {
      hide Skips, PhaseFits;
      PathHasOneBlock(p);
      PhaseSkips(p, End(p).value.phase);
      match p
      case Root =>
      case Via(before, move) =>
        SkipCostsOne(before);
        PathHasOneBlock(before);
        PhaseSkips(before, End(before).value.phase);
    }

    // ----- what the words of a path are -----

    /** The states on the way, from the first to the one the path leads to. */
    function States(p: Path): (states: seq<nat>)
      requires IsPath(p)
      ensures |states| == |Moves(p)| + 1
    {
      match p
      case Root => [0]
      case Via(before, move) => States(before) + [Taken(End(before).value.state, move.transition).toState]
    }

    ghost predicate IsStep(p: Path, k: nat)
      requires IsPath(p) && k < |Moves(p)|
    {
      && HasTransition(States(p)[k], Moves(p)[k].transition)
      && States(p)[k + 1] == Taken(States(p)[k], Moves(p)[k].transition).toState
    }

    lemma {:induction false} StatesAreChain(p: Path)
      requires IsPath(p)
      ensures States(p)[0] == 0 && States(p)[|Moves(p)|] == End(p).value.state
      ensures forall k :: 0 <= k < |Moves(p)| ==> IsStep(p, k)
    {
      match p
      case Root =>
      case Via(before, move) =>
        StatesAreChain(before);
        forall k | 0 <= k < |Moves(p)|
          ensures IsStep(p, k)
        {
          if k < |Moves(before)| {
            assert IsStep(before, k);
          }
        }
    }

    /** The words from one cut to the next are the phrase of the k-th transition, if it was skipped or matched as asked. */
    ghost predicate IsPiece(p: Path, skipped: bool, words: seq<Word>, cuts: seq<nat>, k: nat)
      requires IsPath(p) && k < |Moves(p)| && |cuts| == |Moves(p)| + 1
    {
      && IsStep(p, k) && cuts[k] <= cuts[k + 1] <= |words|
      && words[cuts[k]..cuts[k + 1]]
         == if Moves(p)[k].skip == skipped then Taken(States(p)[k], Moves(p)[k].transition).output else []
    }

    ghost predicate Transcript(p: Path, skipped: bool, words: seq<Word>, cuts: seq<nat>)
      requires IsPath(p)
    {
      && |cuts| == |Moves(p)| + 1 && cuts[0] == 0 && cuts[|Moves(p)|] == |words|
      && forall k :: 0 <= k < |Moves(p)| ==> IsPiece(p, skipped, words, cuts, k)
    }

    /** The matched words of a path are the phrases of its matched transitions, in order and nothing else; likewise the skipped
        ones. */
    lemma {:induction false} WordsAreTranscript(p: Path, skipped: bool) returns (cuts: seq<nat>)
      requires IsPath(p)
      ensures Transcript(p, skipped, Words(p, skipped), cuts)
    {
      StatesAreChain(p);
      match p
      case Root => cuts := [0];
      case Via(before, move) =>
        var cuts0 := WordsAreTranscript(before, skipped);
        StatesAreChain(before);
        var w, w0, n := Words(p, skipped), Words(before, skipped), |Moves(before)|;
        cuts := cuts0 + [|w|];
        forall k | 0 <= k < |Moves(p)|
          ensures IsPiece(p, skipped, w, cuts, k)
        {
          assert IsStep(p, k);
          if k < n {
            assert IsPiece(before, skipped, w0, cuts0, k);
            assert w[cuts[k]..cuts[k + 1]] == w0[cuts0[k]..cuts0[k + 1]];
          }
        }
    }

    ghost predicate IsSum(p: Path, sums: seq<real>, k: nat)
      requires IsPath(p) && k < |Moves(p)| && |sums| == |Moves(p)| + 1
    {
      IsStep(p, k) && sums[k + 1] == sums[k] + Taken(States(p)[k], Moves(p)[k].transition).score
    }

    /** The score of a path is the sum of the scores of its transitions, skipped or not. */
    lemma {:induction false} ScoreIsSum(p: Path) returns (sums: seq<real>)
      requires IsPath(p)
      ensures |sums| == |Moves(p)| + 1 && sums[0] == 0.0 && sums[|Moves(p)|] == Score(p)
      ensures forall k :: 0 <= k < |Moves(p)| ==> IsSum(p, sums, k)
    {
      StatesAreChain(p);
      match p
      case Root => sums := [0.0];
      case Via(before, move) =>
        var sums0 := ScoreIsSum(before);
        StatesAreChain(before);
        sums := sums0 + [Score(p)];
        forall k | 0 <= k < |Moves(p)|
          ensures IsSum(p, sums, k)
        {
          assert IsStep(p, k);
          if k < |Moves(before)| {
            assert IsSum(before, sums0, k);
          }
        }
    }

    /** The matched words are no farther from the part of the prefix they match than the match errors say. */
    lemma {:induction false} PathIsClose(p: Path)
      requires IsPath(p) && !capped
      ensures End(p).value.prefixMatched <= |prefix.words|
      ensures prefix.Distance(0, Words(p, false), End(p).value.prefixMatched, |Words(p, false)|) <= MatchErrors(p)
    {
      hide Prefix.Distance;
      match p
      case Root => prefix.EdgeDistance(0, [], 0, 0);
      case Via(before, move) =>
        PathIsClose(before);
        if !move.skip {
          var n := End(before).value;
          var output := Taken(n.state, move.transition).output;
          prefix.DistanceAdds(0, Words(before, false), n.prefixMatched, output, move.prefixMatched - n.prefixMatched, |output|);
          assert output[..|output|] == output;
          assert Words(p, false) == Words(before, false) + output;
        } else {
          assert Words(p, false) == Words(before, false);
        }
    }

    /** The words matched by a complete path are within the edit distance of what was typed that the path's error says, less the
        one error for skipping. */
    lemma CompleteIsClose(p: Path, x: Ending)
      requires Complete(p, x) && !capped
      ensures var w := Words(p, false) + Taken(End(p).value.state, x.transition).output[..x.outputMatched];
              prefix.Distance(0, w, |prefix.words|, |w|) + (if Skips(p) then 1 else 0) <= TotalError(p, x)
    {
      hide Prefix.Distance;
      var n := End(p).value;
      PathIsClose(p);
      SkipCostsOne(p);
      prefix.DistanceAdds(0, Words(p, false), n.prefixMatched, Taken(n.state, x.transition).output,
                          |prefix.words| - n.prefixMatched, x.outputMatched);
    }

    // ----- the rest of the sentence -----

    /** Where the transitions `ts`, taken from state q, lead. */
    function Follow(q: nat, ts: seq<nat>): Option<nat>
      decreases |ts|
    {
      if ts == [] then Some(q)
      else if HasTransition(q, ts[0]) then Follow(Taken(q, ts[0]).toState, ts[1..])
      else None
    }

    function FollowScore(q: nat, ts: seq<nat>): real
      requires Follow(q, ts).Some?
      decreases |ts|
    {
      if ts == [] then 0.0 else Taken(q, ts[0]).score + FollowScore(Taken(q, ts[0]).toState, ts[1..])
    }

    function FollowOutput(q: nat, ts: seq<nat>): seq<Word>
      requires Follow(q, ts).Some?
      decreases |ts|
    {
      if ts == [] then [] else Taken(q, ts[0]).output + FollowOutput(Taken(q, ts[0]).toState, ts[1..])
    }

    lemma {:induction false} FollowOneMore(q: nat, ts: seq<nat>, t: nat)
      requires Follow(q, ts).Some? && HasTransition(Follow(q, ts).value, t)
      ensures var last := Taken(Follow(q, ts).value, t);
              && Follow(q, ts + [t]) == Some(last.toState)
              && FollowScore(q, ts + [t]) == FollowScore(q, ts) + last.score
              && FollowOutput(q, ts + [t]) == FollowOutput(q, ts) + last.output
      decreases |ts|
    {
      if ts == [] {
        assert Follow(Taken(q, t).toState, []) == Some(Taken(q, t).toState);
      } else {
        assert (ts + [t])[1..] == ts[1..] + [t];
        FollowOneMore(Taken(q, ts[0]).toState, ts[1..], t);
      }
    }

    /** Of the transitions to the next state of q's best continuation, the best one has the score that q promises. */
    ghost predicate ForwardFrom(q: nat)
      requires q < |graph|
    {
      graph[q].forward > 0 ==>
        && q < graph[q].forward < |graph|
        && exists t :: 0 <= t < |graph[q].transitions| && Onward(q, t)
    }

    ghost predicate Onward(q: nat, t: nat)
      requires q < |graph| && 0 < graph[q].forward < |graph| && t < |graph[q].transitions|
    {
      && graph[q].transitions[t].toState == graph[q].forward && graph[q].transitions[t].score > -999.0
      && graph[q].forwardScore == graph[q].transitions[t].score + graph[graph[q].forward].forwardScore
      && forall u :: 0 <= u < |graph[q].transitions| && graph[q].transitions[u].toState == graph[q].forward
                     ==> graph[q].transitions[u].score <= graph[q].transitions[t].score
    }

    ghost predicate ForwardsSound() {
      forall q :: 0 <= q < |graph| ==> ForwardFrom(q)
    }

    /** `words` are those of a continuation of q to the end of the sentence, with the score that q promises. */
    ghost predicate IsContinuation(q: nat, words: seq<Word>)
      requires q < |graph|
    {
      exists ts, f: nat :: Follow(q, ts) == Some(f) && f < |graph| && graph[f].forward <= 0
                    && words == FollowOutput(q, ts) && FollowScore(q, ts) + graph[f].forwardScore == graph[q].forwardScore
    }
  }
}
