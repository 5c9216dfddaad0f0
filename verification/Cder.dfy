/** The CDER error: the cheapest way through the alignment grid of a candidate and a reference sentence, with long jumps
    along a row, computed row by row. */
module Cder {
  import opened PrefixMatch

  /** A way through the grid, last step outermost. `Jump` comes from column `from` of the same row. */
  datatype Way = Start | Delete(before: Way) | Insert(before: Way) | Replace(before: Way) | Jump(before: Way, from: nat)

  function MinOf(s: seq<nat>): (m: nat)
    requires s != []
    ensures m in s && forall i :: 0 <= i < |s| ==> m <= s[i]
  {
    if |s| == 1 then s[0] else Min(MinOf(s[..|s| - 1]), s[|s| - 1])
  }

  lemma CheapestSwaps(deleted: nat, inserted: nat, paired: nat)
    ensures Cheapest(deleted, inserted, paired) == Cheapest(inserted, deleted, paired)
  {
  }

  datatype Pair = Pair(cand: seq<Word>, ref: seq<Word>, longJumps: bool) {

    function Distance(i: nat, l: nat): nat
      requires i < |cand| && l < |ref|
    {
      if ref[l] == cand[i] then 0 else 1
    }

    predicate LeadsTo(w: Way, i: nat, l: nat) {
      i <= |cand| && l <= |ref| &&
      match w
      case Start => i == 0 && l == 0
      case Delete(before) => 0 < i && LeadsTo(before, i - 1, l)
      case Insert(before) => 0 < l && LeadsTo(before, i, l - 1)
      case Replace(before) => 0 < i && 0 < l && LeadsTo(before, i - 1, l - 1)
      case Jump(before, from) => longJumps && LeadsTo(before, from, l)
    }

    function Cost(w: Way, i: nat, l: nat): nat
      requires LeadsTo(w, i, l)
    {
      match w
      case Start => 0
      case Delete(before) => Cost(before, i - 1, l) + 1
      case Insert(before) => Cost(before, i, l - 1) + 1
      case Replace(before) => Cost(before, i - 1, l - 1) + Distance(i - 1, l - 1)
      case Jump(before, from) => Cost(before, from, l) + 1
    }

    // ----- the rows -----

    /** The first n costs of the row after `row`, before long jumps. */
    function NextRow(row: seq<nat>, l: nat, n: nat): (r: seq<nat>)
      requires 1 <= l <= |ref| && n <= |row| == |cand| + 1
      ensures |r| == n
    {
      if n == 0 then []
      else if n == 1 then [row[0] + 1]
      else
        var r := NextRow(row, l, n - 1);
        r + [Cheapest(r[n - 2], row[n - 1], row[n - 2] + Distance(n - 2, l - 1))]
    }

    function Jumped(row: seq<nat>): (r: seq<nat>)
      requires row != []
      ensures |r| == |row|
    {
      if longJumps then seq(|row|, i requires 0 <= i < |row| => Min(row[i], 1 + MinOf(row))) else row
    }

    /** The costs of the cheapest ways to the places of row l. */
    function Row(l: nat): (r: seq<nat>)
      requires l <= |ref|
      ensures |r| == |cand| + 1
    {
      if l == 0 then seq(|cand| + 1, i => if longJumps && 0 < i then 1 else i)
      else Jumped(NextRow(Row(l - 1), l, |cand| + 1))
    }

    lemma {:induction false} NextRowAt(row: seq<nat>, l: nat, n: nat, i: nat)
      requires 1 <= l <= |ref| && i < n <= |row| == |cand| + 1
      ensures NextRow(row, l, n)[i] == if i == 0 then row[0] + 1
              else Cheapest(NextRow(row, l, n)[i - 1], row[i], row[i - 1] + Distance(i - 1, l - 1))
    {
      if i < n - 1 {
        NextRowAt(row, l, n - 1, i);
      }
    }

    /** Stepping to the right or jumping costs one at most. */
    lemma RowSteps(l: nat, i: nat, from: nat)
      requires l <= |ref| && i <= |cand| && from <= |cand|
      ensures 0 < i ==> Row(l)[i] <= Row(l)[i - 1] + 1
      ensures longJumps ==> Row(l)[i] <= Row(l)[from] + 1
      ensures 0 < l ==> Row(l)[i] <= Row(l - 1)[i] + 1
      ensures 0 < l && 0 < i ==> Row(l)[i] <= Row(l - 1)[i - 1] + Distance(i - 1, l - 1)
    {
      if 0 < l {
        NextRowAt(Row(l - 1), l, |cand| + 1, i);
      }
    }

    /** No way is cheaper than its place in the row... */
    lemma {:induction false} RowIsLeast(w: Way, i: nat, l: nat)
      requires LeadsTo(w, i, l)
      ensures Row(l)[i] <= Cost(w, i, l)
    {
      match w
      case Start =>
      case Delete(before) =>
        RowIsLeast(before, i - 1, l);
        RowSteps(l, i, 0);
      case Insert(before) =>
        RowIsLeast(before, i, l - 1);
        RowSteps(l, i, 0);
      case Replace(before) =>
        RowIsLeast(before, i - 1, l - 1);
        RowSteps(l, i, 0);
      case Jump(before, from) =>
        RowIsLeast(before, from, l);
        RowSteps(l, i, from);
    }

    /** ... and some way attains it. */
    lemma {:induction false} RowIsAttained(i: nat, l: nat) returns (w: Way)
      requires i <= |cand| && l <= |ref|
      ensures LeadsTo(w, i, l) && Cost(w, i, l) == Row(l)[i]
      decreases l, 1, i
    {
      if l == 0 {
        if i == 0 {
          w := Start;
        } else if longJumps {
          w := Jump(Start, 0);
        } else {
          var before := RowIsAttained(i - 1, 0);
          w := Way.Delete(before);
        }
      } else {
        var next := NextRow(Row(l - 1), l, |cand| + 1);
        if longJumps && 1 + MinOf(next) < next[i] {
          var from :| 0 <= from <= |cand| && next[from] == MinOf(next);
          var before := NextIsAttained(from, l);
          w := Jump(before, from);
        } else {
          w := NextIsAttained(i, l);
        }
      }
    }

    lemma {:induction false} NextIsAttained(i: nat, l: nat) returns (w: Way)
      requires i <= |cand| && 1 <= l <= |ref|
      ensures LeadsTo(w, i, l) && Cost(w, i, l) == NextRow(Row(l - 1), l, |cand| + 1)[i]
      decreases l, 0, i
    {
      var row := Row(l - 1);
      var next := NextRow(row, l, |cand| + 1);
      NextRowAt(row, l, |cand| + 1, i);
      if i == 0 || next[i] == row[i] + 1 {
        var before := RowIsAttained(i, l - 1);
        w := Way.Insert(before);
      } else if next[i] == next[i - 1] + 1 {
        var before := NextIsAttained(i - 1, l);
        w := Way.Delete(before);
      } else {
        var before := RowIsAttained(i - 1, l - 1);
        w := Way.Replace(before);
      }
    }

    // ----- with and without jumps -----

    /** Without jumps the rows are those of the edit distance. */
    lemma {:induction false} WithoutJumpsIsEditDistance(i: nat, l: nat)
      requires i <= |cand| && l <= |ref| && !longJumps
      ensures Row(l)[i] == Prefix(ref, false, true, {}).Distance(0, cand, l, i)
      decreases l, i
    {
      var p := Prefix(ref, false, true, {});
      hide Prefix.Distance, Prefix.Capped, Cheapest, Min, NextRow;
      if l == 0 {
        p.EdgeDistance(0, cand, 0, i);
      } else {
        NextRowAt(Row(l - 1), l, |cand| + 1, i);
        if i == 0 {
          p.EdgeDistance(0, cand, l, 0);
          WithoutJumpsIsEditDistance(0, l - 1);
          p.EdgeDistance(0, cand, l - 1, 0);
        } else {
          WithoutJumpsIsEditDistance(i - 1, l);
          WithoutJumpsIsEditDistance(i, l - 1);
          WithoutJumpsIsEditDistance(i - 1, l - 1);
          p.InnerCell(0, 0, cand, l, i);
          CheapestSwaps(Row(l)[i - 1], Row(l - 1)[i], Row(l - 1)[i - 1] + Distance(i - 1, l - 1));
        }
      }
    }

    /** Jumps never make it dearer. */
    lemma {:induction false} JumpsNeverCostMore(w: Way, i: nat, l: nat)
      requires LeadsTo(w, i, l) && !longJumps
      ensures Pair(cand, ref, true).LeadsTo(w, i, l) && Pair(cand, ref, true).Cost(w, i, l) == Cost(w, i, l)
    {
      match w
      case Start =>
      case Delete(before) => JumpsNeverCostMore(before, i - 1, l);
      case Insert(before) => JumpsNeverCostMore(before, i, l - 1);
      case Replace(before) => JumpsNeverCostMore(before, i - 1, l - 1);
    }

    lemma JumpsOnlyHelp(i: nat, l: nat)
      requires i <= |cand| && l <= |ref|
      ensures Pair(cand, ref, true).Row(l)[i] <= Pair(cand, ref, false).Row(l)[i]
    {
      var plain := Pair(cand, ref, false);
      var w := plain.RowIsAttained(i, l);
      plain.JumpsNeverCostMore(w, i, l);
      Pair(cand, ref, true).RowIsLeast(w, i, l);
    }

    // ----- the computation -----

    method FirstRow() returns (row: seq<nat>)
      ensures row == Row(0)
    {
      row := seq(|cand| + 1, i => i);
      if longJumps {
        for i := 1 to |cand| + 1
          invariant |row| == |cand| + 1 && forall k :: 0 <= k <= |cand| ==> row[k] == if 0 < k < i then 1 else k
        {
          row := row[i := 1];
        }
      }
    }

    /** Costs of the next row from those of the previous one. */
    method FillRow(row: seq<nat>, l: nat) returns (nextRow: seq<nat>)
      requires 1 <= l <= |ref| && |row| == |cand| + 1
      ensures nextRow == NextRow(row, l, |cand| + 1)
    {
      nextRow := [];
      for i := 0 to |cand| + 1
        invariant nextRow == NextRow(row, l, i)
      {
        var cost := row[i] + 1;
        if 0 < i {
          var deletion := nextRow[i - 1] + 1;
          var substitution := row[i - 1] + Distance(i - 1, l - 1);
          cost := Min(Min(deletion, cost), substitution);
        }
        nextRow := nextRow + [cost];
      }
    }

    /** The same jump costs for every place of the row. */
    method JumpAlong(row: seq<nat>) returns (jumped: seq<nat>)
      requires row != [] && longJumps
      ensures jumped == Jumped(row)
    {
      var lj := row[0];
      for i := 1 to |row|
        invariant lj == MinOf(row[..i])
      {
        assert row[..i + 1][..i] == row[..i];
        lj := Min(lj, row[i]);
      }
      assert row[..|row|] == row;
      lj := 1 + lj;
      jumped := row;
      for i := 0 to |row|
        invariant |jumped| == |row| && forall k :: 0 <= k < |row| ==> jumped[k] == if k < i then Min(row[k], lj) else row[k]
      {
        jumped := jumped[i := Min(jumped[i], lj)];
      }
    }

    lemma RowAfter(l: nat)
      requires 1 <= l <= |ref|
      ensures var next := NextRow(Row(l - 1), l, |cand| + 1);
              Row(l) == if longJumps then Jumped(next) else next
    {
    }

    method ComputeCD() returns (stats: (nat, nat))
      ensures stats.1 == |ref| && stats.0 == Row(|ref|)[|cand|]
    {
      hide Row, NextRow, Jumped, MinOf;
      var row := FirstRow();
      var l := 1;
      while l < |ref| + 1
        invariant 1 <= l <= |ref| + 1 && row == Row(l - 1)
      {
        var nextRow := FillRow(row, l);
        RowAfter(l);
        if longJumps {
          nextRow := JumpAlong(nextRow);
        }
        row := nextRow;
        l := l + 1;
      }
      stats := (row[|cand|], |ref|);
    }
  }
}
