/** Matching what the user has typed against paths through the decoder's search graph: edit distance of one phrase,
    the moves a search may take, and the paths built from them. */
module PrefixMatch {

  type Word = nat

  datatype Transition = Transition(toState: nat, score: real, output: seq<Word>)

  /** A decoder state: the next state of its best continuation, if any, and the score of that continuation. */
  datatype GraphState = GraphState(forward: int, forwardScore: real, transitions: seq<Transition>)

  /** Part of the prefix matched with (part of) one phrase. */
  datatype Match = Match(error: nat, prefixMatched: nat, transitionMatched: nat)

  /** One way to edit a stretch of the prefix into a stretch of a phrase, last edit outermost. */
  datatype Script = Nothing | Delete(before: Script) | Insert(before: Script) | Replace(before: Script)

  function Min(a: nat, b: nat): nat {
    if a < b then a else b
  }

  function Max(a: nat, b: nat): nat {
    if a < b then b else a
  }

  /** The best of deleting a prefix word, inserting a phrase word, and pairing the two. */
  function Cheapest(deleted: nat, inserted: nat, paired: nat): nat {
    Min(Min(deleted + 1, inserted + 1), paired)
  }

  /** The user's prefix as words, and which words count as completions of its last, possibly partial, word. */
  datatype Prefix = Prefix(words: seq<Word>, lastMayMatchPartially: bool, hasFinalSpace: bool, completions: set<Word>) {

    /** Error of matching the prefix word at `i` with `w`. */
    function WordError(i: nat, w: Word): nat
      requires i < |words|
    {
      if words[i] == w || (lastMayMatchPartially && i == |words| - 1 && w in completions) then 0 else 1
    }

    /** Edit distance between the i prefix words behind the first `from` and the first j words of `output`. */
    function Distance(from: nat, output: seq<Word>, i: nat, j: nat): nat
      requires from + i <= |words| && j <= |output|
    {
      if i == 0 then j
      else if j == 0 then i
      else
        Cheapest(Distance(from, output, i - 1, j), Distance(from, output, i, j - 1),
                 Distance(from, output, i - 1, j - 1) + WordError(from + i - 1, output[j - 1]))
    }

    /** `s` edits those i prefix words into those j words of `output`. */
    predicate Edits(s: Script, i: nat, j: nat) {
      match s
      case Nothing => i == 0 && j == 0
      case Delete(before) => 0 < i && Edits(before, i - 1, j)
      case Insert(before) => 0 < j && Edits(before, i, j - 1)
      case Replace(before) => 0 < i && 0 < j && Edits(before, i - 1, j - 1)
    }

    function EditCost(s: Script, from: nat, output: seq<Word>, i: nat, j: nat): nat
      requires from + i <= |words| && j <= |output| && Edits(s, i, j)
    {
      match s
      case Nothing => 0
      case Delete(before) => EditCost(before, from, output, i - 1, j) + 1
      case Insert(before) => EditCost(before, from, output, i, j - 1) + 1
      case Replace(before) =>
        EditCost(before, from, output, i - 1, j - 1) + WordError(from + i - 1, output[j - 1])
    }

    /** No script is cheaper than the distance... */
    lemma {:induction false} DistanceIsLeast(s: Script, from: nat, output: seq<Word>, i: nat, j: nat)
      requires from + i <= |words| && j <= |output| && Edits(s, i, j)
      ensures Distance(from, output, i, j) <= EditCost(s, from, output, i, j)
    {
      match s
      case Nothing =>
      case Delete(before) => DistanceIsLeast(before, from, output, i - 1, j);
      case Insert(before) => DistanceIsLeast(before, from, output, i, j - 1);
      case Replace(before) => DistanceIsLeast(before, from, output, i - 1, j - 1);
    }

    /** ... and one script attains it. */
    lemma {:induction false} DistanceIsAttained(from: nat, output: seq<Word>, i: nat, j: nat) returns (s: Script)
      requires from + i <= |words| && j <= |output|
      ensures Edits(s, i, j) && EditCost(s, from, output, i, j) == Distance(from, output, i, j)
    {
      if i == 0 && j == 0 {
        s := Nothing;
      } else if i == 0 || (0 < j && Distance(from, output, i, j) == Distance(from, output, i, j - 1) + 1) {
        var before := DistanceIsAttained(from, output, i, j - 1);
        s := Insert(before);
      } else if j == 0 || Distance(from, output, i, j) == Distance(from, output, i - 1, j) + 1 {
        var before := DistanceIsAttained(from, output, i - 1, j);
        s := Delete(before);
      } else {
        var before := DistanceIsAttained(from, output, i - 1, j - 1);
        s := Replace(before);
      }
    }

    // ----- one phrase after another -----

    lemma {:induction false} EditCostPrefix(s: Script, from: nat, output: seq<Word>, more: seq<Word>, i: nat, j: nat)
      requires from + i <= |words| && j <= |output| && Edits(s, i, j)
      ensures EditCost(s, from, output + more, i, j) == EditCost(s, from, output, i, j)
    {
      match s
      case Nothing =>
      case Delete(before) => EditCostPrefix(before, from, output, more, i - 1, j);
      case Insert(before) => EditCostPrefix(before, from, output, more, i, j - 1);
      case Replace(before) => EditCostPrefix(before, from, output, more, i - 1, j - 1);
    }

    /** Editing one stretch of the prefix into one phrase and the next stretch into the next. */
    function Joined(s: Script, t: Script): Script {
      match t
      case Nothing => s
      case Delete(before) => Delete(Joined(s, before))
      case Insert(before) => Insert(Joined(s, before))
      case Replace(before) => Replace(Joined(s, before))
    }

    lemma {:induction false} JoinedCost(s: Script, t: Script, from: nat, first: seq<Word>, i: nat, second: seq<Word>, i': nat, j: nat)
      requires from + i + i' <= |words| && j <= |second| && Edits(s, i, |first|) && Edits(t, i', j)
      ensures Edits(Joined(s, t), i + i', |first| + j)
      ensures EditCost(Joined(s, t), from, first + second, i + i', |first| + j)
           == EditCost(s, from, first, i, |first|) + EditCost(t, from + i, second, i', j)
    {
      match t
      case Nothing => EditCostPrefix(s, from, first, second, i, |first|);
      case Delete(before) => JoinedCost(s, before, from, first, i, second, i' - 1, j);
      case Insert(before) => JoinedCost(s, before, from, first, i, second, i', j - 1);
      case Replace(before) => JoinedCost(s, before, from, first, i, second, i' - 1, j - 1);
    }

    /** Matching two phrases one after the other costs no less than matching them together. */
    lemma DistanceAdds(from: nat, first: seq<Word>, i: nat, second: seq<Word>, i': nat, j: nat)
      requires from + i + i' <= |words| && j <= |second|
      ensures Distance(from, first + second[..j], i + i', |first| + j)
           <= Distance(from, first, i, |first|) + Distance(from + i, second, i', j)
    {
      var s := DistanceIsAttained(from, first, i, |first|);
      var t := DistanceIsAttained(from + i, second, i', j);
      JoinedCost(s, t, from, first, i, second, i', j);
      var joined := Joined(s, t);
      assert first + second == (first + second[..j]) + second[j..];
      EditCostPrefix(joined, from, first + second[..j], second[j..], i + i', |first| + j);
      DistanceIsLeast(joined, from, first + second[..j], i + i', |first| + j);
    }

    // ----- the cost table -----

    /** The table ModifiedCaitra fills: its first row stops growing at `cap`. */
    function Capped(cap: nat, from: nat, output: seq<Word>, i: nat, j: nat): nat
      requires from + i <= |words| && j <= |output|
    {
      if i == 0 then Min(j, cap)
      else if j == 0 then i
      else
        Cheapest(Capped(cap, from, output, i - 1, j), Capped(cap, from, output, i, j - 1),
                 Capped(cap, from, output, i - 1, j - 1) + WordError(from + i - 1, output[j - 1]))
    }

    lemma EdgeDistance(from: nat, output: seq<Word>, i: nat, j: nat)
      requires from + i <= |words| && j <= |output|
      ensures i == 0 ==> Distance(from, output, i, j) == j
      ensures j == 0 ==> Distance(from, output, i, j) == i
    {
    }

    lemma InnerCell(cap: nat, from: nat, output: seq<Word>, i: nat, j: nat)
      requires 0 < i && 0 < j && from + i <= |words| && j <= |output|
      ensures Capped(cap, from, output, i, j)
           == Cheapest(Capped(cap, from, output, i - 1, j), Capped(cap, from, output, i, j - 1),
                       Capped(cap, from, output, i - 1, j - 1) + WordError(from + i - 1, output[j - 1]))
      ensures Distance(from, output, i, j)
           == Cheapest(Distance(from, output, i - 1, j), Distance(from, output, i, j - 1),
                       Distance(from, output, i - 1, j - 1) + WordError(from + i - 1, output[j - 1]))
    {
    }

    lemma EdgeCell(cap: nat, from: nat, output: seq<Word>, i: nat, j: nat)
      requires (i == 0 || j == 0) && from + i <= |words| && j <= |output|
      ensures Min(Capped(cap, from, output, i, j), cap) == Min(Distance(from, output, i, j), cap)
      ensures j <= cap ==> Capped(cap, from, output, i, j) == Distance(from, output, i, j)
    {
    }

    /** The cap spoils only distances that reach it... */
    lemma {:induction false} CapIsHarmless(cap: nat, from: nat, output: seq<Word>, i: nat, j: nat)
      requires from + i <= |words| && j <= |output|
      ensures Min(Capped(cap, from, output, i, j), cap) == Min(Distance(from, output, i, j), cap)
    {
      hide *;
      if 0 < i && 0 < j {
        CapIsHarmless(cap, from, output, i - 1, j);
        CapIsHarmless(cap, from, output, i, j - 1);
        CapIsHarmless(cap, from, output, i - 1, j - 1);
        InnerCell(cap, from, output, i, j);
        CheapestAgrees(cap, WordError(from + i - 1, output[j - 1]),
                       Capped(cap, from, output, i - 1, j), Distance(from, output, i - 1, j),
                       Capped(cap, from, output, i, j - 1), Distance(from, output, i, j - 1),
                       Capped(cap, from, output, i - 1, j - 1), Distance(from, output, i - 1, j - 1));
      } else {
        EdgeCell(cap, from, output, i, j);
      }
    }

    /** ... which takes a phrase longer than it. */
    lemma {:induction false} CapNotReached(cap: nat, from: nat, output: seq<Word>, i: nat, j: nat)
      requires from + i <= |words| && j <= |output| && j <= cap
      ensures Capped(cap, from, output, i, j) == Distance(from, output, i, j)
    {
      hide *;
      if 0 < i && 0 < j {
        CapNotReached(cap, from, output, i - 1, j);
        CapNotReached(cap, from, output, i, j - 1);
        CapNotReached(cap, from, output, i - 1, j - 1);
        InnerCell(cap, from, output, i, j);
      } else {
        EdgeCell(cap, from, output, i, j);
      }
    }

    ghost predicate TableExact(cap: nat, from: nat, output: seq<Word>)
      requires from <= |words|
    {
      forall i, j :: 0 <= i <= |words| - from && 0 <= j <= |output| ==> Capped(cap, from, output, i, j) == Distance(from, output, i, j)
    }

    /** The table holds the true distances if and only if the phrase is no longer than the cap. */
    lemma TableExactIff(cap: nat, from: nat, output: seq<Word>)
      requires from <= |words|
      ensures TableExact(cap, from, output) <==> |output| <= cap
    {
      if |output| <= cap {
        forall i, j | 0 <= i <= |words| - from && 0 <= j <= |output|
          ensures Capped(cap, from, output, i, j) == Distance(from, output, i, j)
        {
          CapNotReached(cap, from, output, i, j);
        }
      } else if TableExact(cap, from, output) {
        FirstRowEnd(cap, from, output);
        assert false;
      }
    }

    lemma FirstRowEnd(cap: nat, from: nat, output: seq<Word>)
      requires from <= |words|
      ensures Capped(cap, from, output, 0, |output|) == Min(|output|, cap) && Distance(from, output, 0, |output|) == |output|
    {
    }

    lemma CheapestAgrees(cap: nat, e: nat, a: nat, a': nat, b: nat, b': nat, c: nat, c': nat)
      requires Min(a, cap) == Min(a', cap) && Min(b, cap) == Min(b', cap) && Min(c, cap) == Min(c', cap)
      ensures Min(Cheapest(a, b, c + e), cap) == Min(Cheapest(a', b', c' + e), cap)
    {
    }

    /** The cell (i, j) of the cost table, from the cells before it. */
    method CellCost(cap: nat, from: nat, transition: seq<Word>, cost: array2<nat>, i: nat, j: nat) returns (lowestError: nat)
      requires from + i <= |words| && j <= |transition|
      requires i < cost.Length0 && j < cost.Length1
      requires 0 < i ==> cost[i - 1, j] == Capped(cap, from, transition, i - 1, j)
      requires 0 < j ==> cost[i, j - 1] == Capped(cap, from, transition, i, j - 1)
      requires 0 < i && 0 < j ==> cost[i - 1, j - 1] == Capped(cap, from, transition, i - 1, j - 1)
      ensures lowestError == Capped(cap, from, transition, i, j)
    {
      if i == 0 && j == 0 {
        return 0;
      }
      lowestError := cap;
      if 0 < i {
        lowestError := cost[i - 1, j] + 1;
      }
      if 0 < j {
        var thisError := cost[i, j - 1] + 1;
        if thisError < lowestError {
          lowestError := thisError;
        }
      }
      if 0 < i && 0 < j {
        var thisError := cost[i - 1, j - 1];
        if words[from + i - 1] != transition[j - 1] {
          if !(lastMayMatchPartially && from + i - 1 == |words| - 1 && transition[j - 1] in completions) {
            thisError := thisError + 1;
          }
        }
        if thisError < lowestError {
          lowestError := thisError;
        }
      }
    }

    predicate RowFilled(cap: nat, from: nat, transition: seq<Word>, cost: array2<nat>, i: nat)
      requires from + i <= |words| && i < cost.Length0 && cost.Length1 == |transition| + 1
      reads cost
    {
      forall l :: 0 <= l <= |transition| ==> cost[i, l] == Capped(cap, from, transition, i, l)
    }

    method FillRow(cap: nat, from: nat, transition: seq<Word>, cost: array2<nat>, i: nat)
      requires from + i <= |words| && i < cost.Length0 && cost.Length1 == |transition| + 1
      requires 0 < i ==> RowFilled(cap, from, transition, cost, i - 1)
      modifies cost
      ensures RowFilled(cap, from, transition, cost, i)
      ensures forall k :: 0 <= k < i && old(RowFilled(cap, from, transition, cost, k)) ==> RowFilled(cap, from, transition, cost, k)
    {
      for j := 0 to |transition| + 1
        invariant forall k, l :: 0 <= k < i && 0 <= l < cost.Length1 ==> cost[k, l] == old(cost[k, l])
        invariant forall l :: 0 <= l < j ==> cost[i, l] == Capped(cap, from, transition, i, l)
      {
        var c := CellCost(cap, from, transition, cost, i, j);
        cost[i, j] := c;
      }
    }

    method CostTable(cap: nat, from: nat, transition: seq<Word>) returns (cost: array2<nat>)
      requires from <= |words|
      ensures cost.Length0 == |words| - from + 1 && cost.Length1 == |transition| + 1
      ensures forall k :: 0 <= k < cost.Length0 ==> RowFilled(cap, from, transition, cost, k)
    {
      var toMatch := |words| - from;
      cost := new nat[toMatch + 1, |transition| + 1];
      for i := 0 to toMatch + 1
        invariant forall k :: 0 <= k < i ==> RowFilled(cap, from, transition, cost, k)
      {
        FillRow(cap, from, transition, cost, i);
      }
    }

    // ----- matches -----

    /** The word may end the matched prefix: anything when the last word is complete, else only a completion. */
    predicate MayEnd(w: Word) {
      || (lastMayMatchPartially && !hasFinalSpace && w in completions)
      || !lastMayMatchPartially || hasFinalSpace
    }

    /** The rest of the prefix is matched by the first words of the phrase. */
    predicate Consumes(cap: nat, from: nat, output: seq<Word>, m: Match) {
      && from <= |words| && m.prefixMatched == |words|
      && 1 <= m.transitionMatched <= |output| && MayEnd(output[m.transitionMatched - 1])
      && m.error == Capped(cap, from, output, |words| - from, m.transitionMatched)
    }

    /** Some, but not all, of the rest of the prefix is matched by the whole phrase. */
    predicate Advances(cap: nat, from: nat, output: seq<Word>, m: Match) {
      && from < m.prefixMatched < |words| && m.transitionMatched == |output|
      && m.error == Capped(cap, from, output, m.prefixMatched - from, |output|)
    }

    lemma {:induction false} CappedAtMost(cap: nat, from: nat, output: seq<Word>, i: nat, j: nat)
      requires from + i <= |words| && j <= |output|
      ensures Capped(cap, from, output, i, j) <= Max(i, j)
    {
      if 0 < i && 0 < j {
        CappedAtMost(cap, from, output, i - 1, j - 1);
      }
    }

    method StringEditDistance(cap: nat, alreadyMatched: nat, transition: seq<Word>) returns (matches: seq<Match>)
      requires alreadyMatched <= |words|
      ensures forall m :: m in matches <==>
                          Consumes(cap, alreadyMatched, transition, m) || Advances(cap, alreadyMatched, transition, m)
      // The matches that use up the prefix: one for every completion while the last word is partial, else for every word.
      ensures forall m :: m in matches && m.prefixMatched == |words| ==>
                && 1 <= m.transitionMatched <= |transition|
                && (lastMayMatchPartially && !hasFinalSpace ==> transition[m.transitionMatched - 1] in completions)
      ensures forall k :: 0 <= k < |transition|
                          && (lastMayMatchPartially && !hasFinalSpace ==> transition[k] in completions) ==>
                Match(Capped(cap, alreadyMatched, transition, |words| - alreadyMatched, k + 1), |words|, k + 1) in matches
    {
      var toMatch := |words| - alreadyMatched;
      var cost := CostTable(cap, alreadyMatched, transition);
      matches := [];
      for j := 1 to |transition| + 1
        invariant forall m :: m in matches <==> Consumes(cap, alreadyMatched, transition, m) && m.transitionMatched < j
      {
        assert RowFilled(cap, alreadyMatched, transition, cost, toMatch);
        if (lastMayMatchPartially && !hasFinalSpace && transition[j - 1] in completions) || !lastMayMatchPartially || hasFinalSpace {
          matches := matches + [Match(cost[toMatch, j], |words|, j)];
        }
      }
      var i := 1;
      while i < toMatch
        invariant 1 <= i && (toMatch <= 1 || i <= toMatch)
        invariant forall m :: m in matches <==>
                  || Consumes(cap, alreadyMatched, transition, m)
                  || (Advances(cap, alreadyMatched, transition, m) && m.prefixMatched < alreadyMatched + i)
      {
        assert RowFilled(cap, alreadyMatched, transition, cost, i);
        matches := matches + [Match(cost[i, |transition|], alreadyMatched + i, |transition|)];
        i := i + 1;
      }
    }
  }
}
