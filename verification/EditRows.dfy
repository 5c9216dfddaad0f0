/** Edit distances carried down the tree of best back-transitions: every state gets the row of distances between its whole
    best string and the beginnings of what was typed, computed from the row of the state before it. */
module EditRows {
  import opened PrefixMatch

  type Text = seq<Word>

  const Space: Word := 32

  function Typed(p: Text): Prefix {
    Prefix(p, false, true, {})
  }

  /** Edit distance between u and the first j characters typed. */
  function Lev(p: Text, u: Text, j: nat): nat
    requires j <= |p|
  {
    Typed(p).Distance(0, u, j, |u|)
  }

  /** Only the beginning of a text matters for the distance to it. */
  lemma {:induction false} LevPrefix(p: Text, u: Text, v: Text, i: nat, j: nat)
    requires i <= |p| && j <= |u|
    ensures Typed(p).Distance(0, u + v, i, j) == Typed(p).Distance(0, u, i, j)
  {
    hide Prefix.Distance, Prefix.Capped, Prefix.WordError, Cheapest, Min;
    if 0 < i && 0 < j {
      LevPrefix(p, u, v, i - 1, j);
      LevPrefix(p, u, v, i, j - 1);
      LevPrefix(p, u, v, i - 1, j - 1);
      Typed(p).InnerCell(0, 0, u + v, i, j);
      Typed(p).InnerCell(0, 0, u, i, j);
      assert (u + v)[j - 1] == u[j - 1];
    } else {
      Typed(p).EdgeDistance(0, u + v, i, j);
      Typed(p).EdgeDistance(0, u, i, j);
    }
  }

  /** The row after one more character. */
  lemma LevStep(p: Text, u: Text, c: Word, j: nat)
    requires j <= |p|
    ensures j == 0 ==> Lev(p, u + [c], 0) == Lev(p, u, 0) + 1
    ensures 0 < j ==> Lev(p, u + [c], j) == Cheapest(Lev(p, u + [c], j - 1), Lev(p, u, j), Lev(p, u, j - 1) + if p[j - 1] == c then 0 else 1)
  {
    hide Prefix.Distance, Prefix.Capped, Cheapest, Min;
    LevPrefix(p, u, [c], j, |u|);
    if j == 0 {
      Typed(p).EdgeDistance(0, u + [c], 0, |u| + 1);
      Typed(p).EdgeDistance(0, u, 0, |u|);
    } else {
      LevPrefix(p, u, [c], j - 1, |u|);
      Typed(p).InnerCell(0, 0, u + [c], j, |u| + 1);
    }
  }

  ghost predicate IsRow(p: Text, u: Text, d: seq<nat>) {
    |d| == |p| + 1 && forall j :: 0 <= j <= |p| ==> d[j] == Lev(p, u, j)
  }

  ghost predicate RowAt(p: Text, u: Text, editCost: array2<nat>, i: nat)
    requires i < editCost.Length0 && editCost.Length1 == |p| + 1
    reads editCost
  {
    forall j :: 0 <= j <= |p| ==> editCost[i, j] == Lev(p, u, j)
  }

  function Least(a: nat, b: nat, c: nat): nat {
    Min(a, Min(b, c))
  }

  /** One more row of the table. */
  method FillRow(p: Text, s: Text, editCost: array2<nat>, i: nat, ghost u: Text)
    requires 0 < i < editCost.Length0 && i <= |s| && editCost.Length1 == |p| + 1 && RowAt(p, u, editCost, i - 1)
    modifies editCost
    ensures RowAt(p, u + [s[i - 1]], editCost, i)
    ensures forall k, v :: 0 <= k < i && old(RowAt(p, v, editCost, k)) ==> RowAt(p, v, editCost, k)
  {
    ghost var c := s[i - 1];
    editCost[i, 0] := editCost[i - 1, 0] + 1;
    LevStep(p, u, c, 0);
    for j := 1 to |p| + 1
      invariant forall l :: 0 <= l < j ==> editCost[i, l] == Lev(p, u + [c], l)
      invariant forall k, l :: 0 <= k < i && 0 <= l <= |p| ==> editCost[k, l] == old(editCost[k, l])
    {
      var paired := editCost[i - 1, j - 1] + if s[i - 1] == p[j - 1] then 0 else 1;
      LevStep(p, u, c, j);
      editCost[i, j] := Least(paired, editCost[i - 1, j] + 1, editCost[i, j - 1] + 1);
    }
  }

  /** Continues the rows of u with the characters of s. */
  method GetEditDistanceCharLevel(dis: seq<nat>, s: Text, p: Text, ghost u: Text) returns (prefixConsumed: seq<nat>, stateConsumed: seq<nat>)
    requires IsRow(p, u, dis)
    ensures IsRow(p, u + s, stateConsumed)
    ensures |prefixConsumed| == |s| + 1 && forall i :: 0 <= i <= |s| ==> prefixConsumed[i] == Lev(p, u + s[..i], |p|)
  {
    var editCost := new nat[|s| + 1, |p| + 1];
    for j := 0 to |p| + 1
      invariant forall l :: 0 <= l < j ==> editCost[0, l] == dis[l]
    {
      editCost[0, j] := dis[j];
    }
    assert u + s[..0] == u;
    hide Lev;
    for i := 1 to |s| + 1
      invariant forall k :: 0 <= k < i ==> RowAt(p, u + s[..k], editCost, k)
    {
      assert RowAt(p, u + s[..i - 1], editCost, i - 1);
      assert u + s[..i - 1] + [s[i - 1]] == u + s[..i];
      FillRow(p, s, editCost, i, u + s[..i - 1]);
    }
    assert s[..|s|] == s;
    prefixConsumed := seq(|s| + 1, i requires 0 <= i <= |s| reads editCost => editCost[i, |p|]);
    stateConsumed := seq(|p| + 1, j requires 0 <= j <= |p| reads editCost => editCost[|s|, j]);
  }

  // ----- the search graph -----

  datatype Option<T> = None | Some(value: T)

  datatype Transition = Transition(toState: nat, outputString: Text)

  /** A decoder state: where its best path comes from, and its transitions. */
  datatype GraphState = GraphState(back: int, transitions: seq<Transition>)

  datatype Graph = Graph(states: seq<GraphState>) {

    /** Transitions lead to later states. */
    ghost predicate Valid() {
      states != [] && forall q, t :: 0 <= q < |states| && 0 <= t < |states[q].transitions| ==> q < states[q].transitions[t].toState < |states|
    }

    /** The first transition from state q to s, or the number of transitions if there is none. */
    function FirstTo(q: nat, s: nat, t: nat): (r: nat)
      requires q < |states| && t <= |states[q].transitions|
      ensures t <= r <= |states[q].transitions|
      ensures forall k :: t <= k < r ==> states[q].transitions[k].toState != s
      ensures r < |states[q].transitions| ==> states[q].transitions[r].toState == s
      decreases |states[q].transitions| - t
    {
      if t == |states[q].transitions| || states[q].transitions[t].toState == s then t else FirstTo(q, s, t + 1)
    }

    /** The string of the best path to a state, with a space between phrases, if back-transitions lead to the start. */
    function BestString(s: nat): Option<Text>
      requires s < |states|
    {
      if s == 0 then Some([])
      else
        var b := states[s].back;
        if 0 <= b < s && FirstTo(b, s, 0) < |states[b].transitions| && BestString(b).Some? then
          Some((if b == 0 then [] else BestString(b).value + [Space]) + states[b].transitions[FirstTo(b, s, 0)].outputString)
        else None
    }

    /** The last phrase of a state's best string, and what stands before it. */
    function Last(s: nat): Text
      requires s < |states| && BestString(s).Some?
    {
      if s == 0 then [] else states[states[s].back].transitions[FirstTo(states[s].back, s, 0)].outputString
    }

    function Before(s: nat): Text
      requires s < |states| && BestString(s).Some?
    {
      if s == 0 || states[s].back == 0 then [] else BestString(states[s].back).value + [Space]
    }
  }

  /** `path` follows the back-transitions to its last state. */
  ghost predicate IsBestPath(g: Graph, path: seq<nat>) {
    && path != [] && path[0] == 0 && (forall k :: 0 <= k < |path| ==> path[k] < |g.states|)
    && forall k :: 0 <= k < |path| - 1 ==> IsBackStep(g, path, k)
  }

  ghost predicate IsBackStep(g: Graph, path: seq<nat>, k: nat)
    requires k < |path| - 1 && path[k] < |g.states| && path[k + 1] < |g.states|
  {
    path[k] < path[k + 1] && g.states[path[k + 1]].back == path[k]
  }

  ghost predicate IsFirst(g: Graph, q: nat, s: nat, t: int)
    requires q < |g.states|
  {
    && 0 <= t < |g.states[q].transitions| && g.states[q].transitions[t].toState == s
    && forall u :: 0 <= u < t ==> g.states[q].transitions[u].toState != s
  }

  /** From one cut to the next the text has the k-th phrase of the path, behind a space unless it is the first. */
  ghost predicate IsPhraseAt(g: Graph, path: seq<nat>, text: Text, cuts: seq<nat>, k: nat)
    requires k < |path| - 1 && |cuts| == |path| && path[k] < |g.states|
  {
    && cuts[k] <= cuts[k + 1] <= |text|
    && exists t :: IsFirst(g, path[k], path[k + 1], t)
                   && text[cuts[k]..cuts[k + 1]] == (if k == 0 then [] else [Space]) + g.states[path[k]].transitions[t].outputString
  }

  ghost predicate IsSpaced(g: Graph, path: seq<nat>, text: Text, cuts: seq<nat>)
    requires forall k :: 0 <= k < |path| ==> path[k] < |g.states|
  {
    && path != [] && |cuts| == |path| && cuts[0] == 0 && cuts[|path| - 1] == |text|
    && forall k :: 0 <= k < |path| - 1 ==> IsPhraseAt(g, path, text, cuts, k)
  }

  /** The best string of a state is that of its best path: the phrases in order, with a space between them and nothing else. */
  lemma {:induction false} BestStringIsSpaced(g: Graph, s: nat) returns (path: seq<nat>, cuts: seq<nat>)
    requires s < |g.states| && g.BestString(s).Some?
    ensures IsBestPath(g, path) && path[|path| - 1] == s && IsSpaced(g, path, g.BestString(s).value, cuts)
  {
    if s == 0 {
      path, cuts := [0], [0];
    } else {
      var b := g.states[s].back;
      var path0, cuts0 := BestStringIsSpaced(g, b);
      var text, text0, n := g.BestString(s).value, g.BestString(b).value, |path0| - 1;
      path, cuts := path0 + [s], cuts0 + [|text|];
      var t := g.FirstTo(b, s, 0);
      assert IsFirst(g, b, s, t);
      StartsAtZero(g, path0);
      forall k | 0 <= k < |path| - 1
        ensures IsBackStep(g, path, k) && IsPhraseAt(g, path, text, cuts, k)
      {
        if k < n {
          assert IsBackStep(g, path0, k) && IsPhraseAt(g, path0, text0, cuts0, k);
          assert text[cuts[k]..cuts[k + 1]] == text0[cuts0[k]..cuts0[k + 1]];
        } else {
          assert text[|text0|..] == (if k == 0 then [] else [Space]) + g.states[b].transitions[t].outputString;
        }
      }
    }
  }

  /** Only the path of one state ends where it starts. */
  lemma StartsAtZero(g: Graph, path: seq<nat>)
    requires IsBestPath(g, path)
    ensures path[|path| - 1] == 0 <==> |path| == 1
  {
    if 1 < |path| {
      assert IsBackStep(g, path, |path| - 2);
    }
  }

  /** The distances between everything typed and a state's string up to each character of its last phrase. */
  ghost predicate IsColumn(p: Text, before: Text, last: Text, d: seq<nat>) {
    |d| == |last| + 1 && forall i :: 0 <= i <= |last| ==> d[i] == Lev(p, before + last[..i], |p|)
  }

  /** State s has been reached if its back-transition leads to q. */
  ghost predicate ChildDone(g: Graph, mark: seq<bool>, q: nat, s: nat)
    requires q < |g.states| && s < |g.states| && |mark| == |g.states|
  {
    g.states[s].back == q && q < s && g.FirstTo(q, s, 0) < |g.states[q].transitions| ==> mark[s]
  }

  /** Everything in the queue is marked, and what is marked and has left the queue has been expanded. */
  ghost predicate QueueOk(g: Graph, mark: seq<bool>, queue: seq<nat>) {
    && |mark| == |g.states|
    && (forall i :: 0 <= i < |queue| ==> queue[i] < |g.states| && mark[queue[i]])
    && (forall q, s :: 0 <= q < |g.states| && 0 <= s < |g.states| && mark[q] && q !in queue ==> ChildDone(g, mark, q, s))
  }

  lemma Queued(g: Graph, mark: seq<bool>, queue: seq<nat>, nxt: nat)
    requires QueueOk(g, mark, queue) && nxt < |g.states|
    ensures QueueOk(g, mark[nxt := true], queue + [nxt])
  {
    var mark' := mark[nxt := true];
    forall r, s | 0 <= r < |g.states| && 0 <= s < |g.states| && mark'[r] && r !in queue + [nxt]
      ensures ChildDone(g, mark', r, s)
    {
      assert r != nxt by {
        assert (queue + [nxt])[|queue|] == nxt;
      }
      assert ChildDone(g, mark, r, s);
    }
  }

  /** A state leaves the queue when everything reached from it is marked. */
  lemma LeavesQueue(g: Graph, mark: seq<bool>, stateId: nat, queue: seq<nat>)
    requires stateId < |g.states| && QueueOk(g, mark, [stateId] + queue)
    requires forall s :: 0 <= s < |g.states| ==> ChildDone(g, mark, stateId, s)
    ensures QueueOk(g, mark, queue)
  {
    var q := [stateId] + queue;
    assert forall i :: 0 <= i < |queue| ==> q[i + 1] == queue[i];
  }

  /** The row after a space. */
  method AfterSpace(p: Text, d: seq<nat>, ghost u: Text) returns (d2: seq<nat>)
    requires IsRow(p, u, d)
    ensures IsRow(p, u + [Space], d2)
  {
    LevStep(p, u, Space, 0);
    d2 := [d[0] + 1];
    for i := 1 to |d|
      invariant |d2| == i && forall j :: 0 <= j < i ==> d2[j] == Lev(p, u + [Space], j)
    {
      LevStep(p, u, Space, i);
      var x := if p[i - 1] == Space then d[i - 1] else d[i - 1] + 1;
      d2 := d2 + [Least(x, d[i] + 1, d2[i - 1] + 1)];
    }
  }

  class EditSearch {
    const graph: Graph
    const typed: Text
    var mark: seq<bool>
    var stateConsumed: seq<seq<nat>>
    var prefixConsumed: seq<seq<nat>>

    /** A marked state has the rows of its best string. */
    ghost predicate StateOk(s: nat)
      requires s < |graph.states| && |mark| == |stateConsumed| == |prefixConsumed| == |graph.states|
      reads this
    {
      mark[s] ==>
        && graph.BestString(s).Some? && IsRow(typed, graph.BestString(s).value, stateConsumed[s])
        && IsColumn(typed, graph.Before(s), graph.Last(s), prefixConsumed[s])
    }

    ghost predicate Valid()
      reads this
    {
      && graph.Valid() && |mark| == |stateConsumed| == |prefixConsumed| == |graph.states|
      && forall s :: 0 <= s < |graph.states| ==> StateOk(s)
    }

    constructor (graph: Graph, typed: Text)
      requires graph.Valid()
      ensures this.graph == graph && this.typed == typed && Valid()
      ensures forall s :: 0 <= s < |graph.states| ==> !mark[s]
    {
      this.graph, this.typed := graph, typed;
      mark := seq(|graph.states|, _ => false);
      stateConsumed := seq(|graph.states|, _ => []);
      prefixConsumed := seq(|graph.states|, _ => []);
    }

    /** Mark a state and compute its rows from the row of the state before it. */
    method ProcessState(s: nat, d: seq<nat>, output: Text, ghost u: Text)
      requires Valid() && s < |graph.states| && !mark[s] && IsRow(typed, u, d) && graph.BestString(s).Some?
      requires s != 0 ==> 0 <= graph.states[s].back < s && graph.BestString(graph.states[s].back) == Some(u)
      requires s == 0 ==> u == []
      requires output == graph.Last(s)
      modifies this
      ensures Valid() && mark == old(mark)[s := true]
    {
      var d2 := d;
      ghost var u2 := u;
      if s != 0 && graph.states[s].back != 0 {
        d2 := AfterSpace(typed, d, u);
        u2 := u + [Space];
      }
      assert graph.BestString(0) == Some([]);
      assert u2 == graph.Before(s) && graph.BestString(s).value == u2 + output;
      var p, c := GetEditDistanceCharLevel(d2, output, typed, u2);
      mark, prefixConsumed, stateConsumed := mark[s := true], prefixConsumed[s := p], stateConsumed[s := c];
      forall r | 0 <= r < |graph.states|
        ensures StateOk(r)
      {
        assert r != s ==> old(StateOk(r));
      }
    }

    ghost function Unmarked(): set<nat>
      requires |mark| == |graph.states|
      reads this
    {
      set s | 0 <= s < |graph.states| && !mark[s]
    }

    /** Breadth first from the start, along the best back-transitions. */
    method ComputeEditDistances()
      requires Valid() && forall s :: 0 <= s < |graph.states| ==> !mark[s]
      modifies this
      ensures Valid() && forall s :: 0 <= s < |graph.states| ==> (mark[s] <==> graph.BestString(s).Some?)
    {
      var d := seq(|typed| + 1, j => j);
      StartRow(typed, d);
      ProcessState(0, d, [], []);
      var queue: seq<nat> := [0];
      while queue != []
        invariant Valid() && QueueOk(graph, mark, queue) && mark[0]
        decreases Unmarked(), |queue|
      {
        var stateId := queue[0];
        queue := ExpandState(stateId, queue[1..]);
      }
      forall s | 0 <= s < |graph.states|
        ensures mark[s] <==> graph.BestString(s).Some?
      {
        assert StateOk(s);
        if graph.BestString(s).Some? {
          AllReached(s);
        }
      }
    }

    lemma {:induction false} AllReached(s: nat)
      requires Valid() && QueueOk(graph, mark, []) && mark[0] && s < |graph.states| && graph.BestString(s).Some?
      ensures mark[s]
    {
      if s != 0 {
        var b := graph.states[s].back;
        AllReached(b);
        assert ChildDone(graph, mark, b, s);
      }
    }

    /** Mark the states reached from a state by their back-transitions, and queue them. */
    method ExpandState(stateId: nat, queue: seq<nat>) returns (queue': seq<nat>)
      requires Valid() && QueueOk(graph, mark, [stateId] + queue) && stateId < |graph.states| && mark[stateId] && mark[0]
      modifies this
      ensures Valid() && QueueOk(graph, mark, queue') && mark[0]
      ensures Unmarked() < old(Unmarked()) || (Unmarked() == old(Unmarked()) && queue' == queue)
    {
      queue' := queue;
      var transitions := graph.states[stateId].transitions;
      for i := 0 to |transitions|
        invariant Valid() && QueueOk(graph, mark, [stateId] + queue') && mark[stateId] && mark[0]
        invariant forall k :: 0 <= k < i && graph.states[transitions[k].toState].back == stateId ==> mark[transitions[k].toState]
        invariant Unmarked() < old(Unmarked()) || (Unmarked() == old(Unmarked()) && queue' == queue)
      {
        var nxt := transitions[i].toState;
        if !mark[nxt] && graph.states[nxt].back == stateId {
          assert StateOk(stateId);
          assert graph.FirstTo(stateId, nxt, 0) == i;
          ghost var unmarked, marked := Unmarked(), mark;
          ProcessState(nxt, stateConsumed[stateId], transitions[i].outputString, graph.BestString(stateId).value);
          assert nxt in unmarked && nxt !in Unmarked();
          Queued(graph, marked, [stateId] + queue', nxt);
          assert [stateId] + queue' + [nxt] == [stateId] + (queue' + [nxt]);
          queue' := queue' + [nxt];
        }
      }
      forall s | 0 <= s < |graph.states|
        ensures ChildDone(graph, mark, stateId, s)
      {
        var k := graph.FirstTo(stateId, s, 0);
      }
      LeavesQueue(graph, mark, stateId, queue');
    }
  }

  lemma StartRow(p: Text, d: seq<nat>)
    requires |d| == |p| + 1 && forall j :: 0 <= j <= |p| ==> d[j] == j
    ensures IsRow(p, [], d)
  {
    forall j | 0 <= j <= |p|
      ensures Lev(p, [], j) == j
    {
      Typed(p).EdgeDistance(0, [], j, 0);
    }
  }
}
