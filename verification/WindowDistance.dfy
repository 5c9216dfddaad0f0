/** Edit distance of a phrase in which prefix words may be matched a little out of order: a mask says which of the last
    three prefix words are matched already. The recursion remembers its results in a table. */
module WindowDistance {
  import opened PrefixMatch

  const WindowSize := 3

  /** A set of up to three of the last prefix words, the last one in the lowest bit. */
  type Mask = n: nat | n < 8

  predicate Bit(bt: Mask, k: nat) {
    if k == 0 then bt % 2 == 1 else if k == 1 then (bt / 2) % 2 == 1 else (bt / 4) % 2 == 1
  }

  function With(bt: Mask, k: nat): (m: Mask)
    requires k < WindowSize && !Bit(bt, k)
    ensures Bit(m, k)
  {
    if k == 0 then bt + 1 else if k == 1 then bt + 2 else bt + 4
  }

  /** One way to match a phrase, last step outermost: pass a prefix word matched already, delete one that is not, insert a phrase
      word, or pair a phrase word with the k-th last of the prefix words so far. */
  datatype Way = Begin | Pass(before: Way) | Drop(before: Way) | Add(before: Way) | Pair(before: Way, k: nat)

  /** Matching one phrase with the prefix words behind the first `from`, when those of `mask` are matched already. */
  datatype Phrase = Phrase(prefix: Prefix, from: nat, mask: Mask, output: seq<Word>) {

    function MaxEditError(): nat {
      |prefix.words| + |output| + 1
    }

    predicate Within(i: nat, j: nat) {
      from + i <= |prefix.words| && j <= |output|
    }

    /** The cost of the first i prefix words and j phrase words with the words of `bt` matched, without the table. */
    function Cost(i: nat, bt: Mask, j: nat): nat
      requires Within(i, j)
      decreases i + j, WindowSize + 1
    {
      if i == 0 && j == 0 && bt == mask then 0
      else if 0 < i && Bit(bt, 0) then Cost(i - 1, bt / 2, j)
      else
        var deleted := if 0 < i then Min(MaxEditError(), Cost(i - 1, bt / 2, j) + 1) else MaxEditError();
        var inserted := if 0 < j then Min(deleted, Cost(i, bt, j - 1) + 1) else deleted;
        if 0 < j then Paired(i, bt, j, 0, inserted) else inserted
    }

    /** The best of c and of pairing the phrase word with one of the window's words from the k-th on. */
    function Paired(i: nat, bt: Mask, j: nat, k: nat, c: nat): nat
      requires Within(i, j) && 0 < j
      decreases i + j, if k < WindowSize then WindowSize - k else 0
    {
      if WindowSize <= k || from + i < k + 1 then c
      else if Bit(bt, k) then Paired(i, bt, j, k + 1, c)
      else
        Paired(i, bt, j, k + 1, Min(c, Cost(i, With(bt, k), j - 1) + prefix.WordError(from + i - k - 1, output[j - 1])))
    }

    lemma {:induction false} PairedAtMost(i: nat, bt: Mask, j: nat, k: nat, c: nat)
      requires Within(i, j) && 0 < j
      ensures Paired(i, bt, j, k, c) <= c
      decreases if k < WindowSize then WindowSize - k else 0
    {
      if k < WindowSize && k + 1 <= from + i {
        if Bit(bt, k) {
          PairedAtMost(i, bt, j, k + 1, c);
        } else {
          PairedAtMost(i, bt, j, k + 1, Min(c, Cost(i, With(bt, k), j - 1) + prefix.WordError(from + i - k - 1, output[j - 1])));
        }
      }
    }

    lemma PairLast(i: nat, j: nat, c: nat)
      requires Within(i, j) && 0 < i && 0 < j
      ensures Paired(i, 0, j, 0, c) <= Cost(i - 1, 0, j - 1) + prefix.WordError(from + i - 1, output[j - 1])
    {
      assert With(0, 0) == 1 && !Bit(0, 0) && Bit(1, 0) && (1 as Mask) / 2 == 0;
      var d := Cost(i, 1, j - 1);
      assert d == if i == 0 && j - 1 == 0 && 1 == mask then 0 else Cost(i - 1, 0, j - 1);
      PairedAtMost(i, 0, j, 1, Min(c, d + prefix.WordError(from + i - 1, output[j - 1])));
    }

    /** The three ways to reach a cell from nothing matched. */
    lemma NoMoreThanStep(i: nat, j: nat)
      requires Within(i, j) && (0 < i || 0 < j)
      ensures Cost(i, 0, j) <= MaxEditError()
      ensures 0 < i ==> Cost(i, 0, j) <= Cost(i - 1, 0, j) + 1
      ensures 0 < j ==> Cost(i, 0, j) <= Cost(i, 0, j - 1) + 1
      ensures 0 < i && 0 < j ==> Cost(i, 0, j) <= Cost(i - 1, 0, j - 1) + prefix.WordError(from + i - 1, output[j - 1])
    {
      var deleted := if 0 < i then Min(MaxEditError(), Cost(i - 1, 0, j) + 1) else MaxEditError();
      if 0 < j {
        var inserted := Min(deleted, Cost(i, 0, j - 1) + 1);
        PairedAtMost(i, 0, j, 0, inserted);
        if 0 < i {
          PairLast(i, j, inserted);
        }
      }
    }

    // ----- the cheapest way -----

    /** `s` takes in the first i prefix words and j phrase words and leaves the words of `bt` matched. */
    predicate Matches(s: Way, i: nat, bt: Mask, j: nat) {
      match s
      case Begin => i == 0 && bt == mask && j == 0
      case Pass(before) => 0 < i && Bit(bt, 0) && Matches(before, i - 1, bt / 2, j)
      case Drop(before) => 0 < i && !Bit(bt, 0) && Matches(before, i - 1, bt / 2, j)
      case Add(before) => 0 < j && Matches(before, i, bt, j - 1)
      case Pair(before, k) =>
        k < WindowSize && k < from + i && !Bit(bt, k) && 0 < j && Matches(before, i, With(bt, k), j - 1)
    }

    /** Deleting and inserting cost one; so does pairing different words, unless one completes the other, the last one. */
    function WayCost(s: Way, i: nat, bt: Mask, j: nat): nat
      requires Within(i, j) && Matches(s, i, bt, j)
    {
      match s
      case Begin => 0
      case Pass(before) => WayCost(before, i - 1, bt / 2, j)
      case Drop(before) => WayCost(before, i - 1, bt / 2, j) + 1
      case Add(before) => WayCost(before, i, bt, j - 1) + 1
      case Pair(before, k) =>
        var id, w := from + i - k - 1, output[j - 1];
        WayCost(before, i, With(bt, k), j - 1) +
        if prefix.words[id] == w || (prefix.lastMayMatchPartially && id == |prefix.words| - 1 && w in prefix.completions) then 0 else 1
    }

    lemma PassCell(i: nat, bt: Mask, j: nat)
      requires Within(i, j) && 0 < i && Bit(bt, 0)
      ensures Cost(i, bt, j) == Cost(i - 1, bt / 2, j)
    {
    }

    lemma DeleteStep(i: nat, bt: Mask, j: nat)
      requires Within(i, j) && 0 < i && !Bit(bt, 0)
      ensures Cost(i, bt, j) <= Cost(i - 1, bt / 2, j) + 1
    {
      if 0 < j {
        var deleted := Min(MaxEditError(), Cost(i - 1, bt / 2, j) + 1);
        PairedAtMost(i, bt, j, 0, Min(deleted, Cost(i, bt, j - 1) + 1));
      }
    }

    lemma {:induction false} InsertStep(i: nat, bt: Mask, j: nat)
      requires Within(i, j) && 0 < j
      ensures Cost(i, bt, j) <= Cost(i, bt, j - 1) + 1
      decreases i
    {
      if 0 < i && Bit(bt, 0) {
        PassCell(i, bt, j);
        PassCell(i, bt, j - 1);
        InsertStep(i - 1, bt / 2, j);
      } else {
        var deleted := if 0 < i then Min(MaxEditError(), Cost(i - 1, bt / 2, j) + 1) else MaxEditError();
        PairedAtMost(i, bt, j, 0, Min(deleted, Cost(i, bt, j - 1) + 1));
      }
    }

    /** The pairings still to come include the one with the k-th word. */
    lemma {:induction false} PairedIncludes(i: nat, bt: Mask, j: nat, from_: nat, k: nat, c: nat)
      requires Within(i, j) && 0 < j && from_ <= k < WindowSize && k < from + i && !Bit(bt, k)
      ensures Paired(i, bt, j, from_, c) <= Cost(i, With(bt, k), j - 1) + prefix.WordError(from + i - k - 1, output[j - 1])
      decreases k - from_
    {
      hide Cost, With, MaxEditError, Prefix.WordError;
      if from_ == k {
        PairedAtMost(i, bt, j, k + 1, Min(c, Cost(i, With(bt, k), j - 1) + prefix.WordError(from + i - k - 1, output[j - 1])));
      } else if Bit(bt, from_) {
        PairedIncludes(i, bt, j, from_ + 1, k, c);
      } else {
        PairedIncludes(i, bt, j, from_ + 1, k,
                       Min(c, Cost(i, With(bt, from_), j - 1) + prefix.WordError(from + i - from_ - 1, output[j - 1])));
      }
    }

    /** Passing a matched word shifts the window. */
    lemma WindowShifts(bt: Mask, k: nat)
      requires 0 < k < WindowSize && Bit(bt, 0) && !Bit(bt, k)
      ensures !Bit(bt / 2, k - 1) && Bit(With(bt, k), 0) && With(bt, k) / 2 == With(bt / 2, k - 1)
    {
    }

    lemma {:induction false} PairStep(i: nat, bt: Mask, j: nat, k: nat)
      requires Within(i, j) && 0 < j && k < WindowSize && k < from + i && !Bit(bt, k)
      ensures Cost(i, bt, j) <= Cost(i, With(bt, k), j - 1) + prefix.WordError(from + i - k - 1, output[j - 1])
      decreases i
    {
      if 0 < i && Bit(bt, 0) {
        WindowShifts(bt, k);
        PassCell(i, bt, j);
        PassCell(i, With(bt, k), j - 1);
        PairStep(i - 1, bt / 2, j, k - 1);
      } else {
        var deleted := if 0 < i then Min(MaxEditError(), Cost(i - 1, bt / 2, j) + 1) else MaxEditError();
        PairedIncludes(i, bt, j, 0, k, Min(deleted, Cost(i, bt, j - 1) + 1));
      }
    }

    /** No way is cheaper than the cell... */
    lemma {:induction false} CostIsLeast(s: Way, i: nat, bt: Mask, j: nat)
      requires Within(i, j) && Matches(s, i, bt, j)
      ensures Cost(i, bt, j) <= WayCost(s, i, bt, j)
    {
      hide Cost, With, MaxEditError;
      match s
      case Begin => StartCell();
      case Pass(before) =>
        PassCell(i, bt, j);
        CostIsLeast(before, i - 1, bt / 2, j);
      case Drop(before) =>
        DeleteStep(i, bt, j);
        CostIsLeast(before, i - 1, bt / 2, j);
      case Add(before) =>
        InsertStep(i, bt, j);
        CostIsLeast(before, i, bt, j - 1);
      case Pair(before, k) =>
        PairStep(i, bt, j, k);
        CostIsLeast(before, i, With(bt, k), j - 1);
    }

    lemma StartCell()
      requires Within(0, 0)
      ensures Cost(0, mask, 0) == 0
    {
    }

    /** A cell below the greatest error has a way that is as cheap. */
    lemma {:induction false} AttainedBelow(i: nat, bt: Mask, j: nat) returns (s: Way)
      requires Within(i, j) && Cost(i, bt, j) < MaxEditError()
      ensures Matches(s, i, bt, j) && WayCost(s, i, bt, j) == Cost(i, bt, j)
      decreases i + j
    {
      hide With, MaxEditError;
      if i == 0 && j == 0 && bt == mask {
        s := Begin;
      } else if 0 < i && Bit(bt, 0) {
        s := AttainedBelow(i - 1, bt / 2, j);
        s := Pass(s);
      } else {
        var k := CheapestStep(i, bt, j);
        if k == DeleteIt {
          s := AttainedBelow(i - 1, bt / 2, j);
          s := Drop(s);
        } else if k == InsertIt {
          s := AttainedBelow(i, bt, j - 1);
          s := Add(s);
        } else {
          s := AttainedBelow(i, With(bt, k.k), j - 1);
          s := Pair(s, k.k);
        }
      }
    }

    lemma {:induction false} WayCostAtMost(s: Way, i: nat, bt: Mask, j: nat)
      requires Within(i, j) && Matches(s, i, bt, j)
      ensures WayCost(s, i, bt, j) <= i + j
    {
      match s
      case Begin =>
      case Pass(before) => WayCostAtMost(before, i - 1, bt / 2, j);
      case Drop(before) => WayCostAtMost(before, i - 1, bt / 2, j);
      case Add(before) => WayCostAtMost(before, i, bt, j - 1);
      case Pair(before, k) => WayCostAtMost(before, i, With(bt, k), j - 1);
    }

    /** ... and if there is a way at all, one is as cheap. */
    lemma CostIsAttained(i: nat, bt: Mask, j: nat) returns (s: Way)
      requires Within(i, j) && exists w: Way :: Matches(w, i, bt, j)
      ensures Matches(s, i, bt, j) && WayCost(s, i, bt, j) == Cost(i, bt, j)
    {
      var w: Way :| Matches(w, i, bt, j);
      CostIsLeast(w, i, bt, j);
      WayCostAtMost(w, i, bt, j);
      s := AttainedBelow(i, bt, j);
    }

    lemma {:induction false} CostAtMost(i: nat, bt: Mask, j: nat)
      requires Within(i, j)
      ensures Cost(i, bt, j) <= MaxEditError()
      decreases i
    {
      if 0 < i && Bit(bt, 0) {
        CostAtMost(i - 1, bt / 2, j);
      } else if 0 < j {
        var deleted := if 0 < i then Min(MaxEditError(), Cost(i - 1, bt / 2, j) + 1) else MaxEditError();
        PairedAtMost(i, bt, j, 0, Min(deleted, Cost(i, bt, j - 1) + 1));
      }
    }

    /** Where no way leads, the cell holds an error that no way reaches. */
    lemma NoWay(i: nat, bt: Mask, j: nat)
      requires Within(i, j) && !exists w: Way :: Matches(w, i, bt, j)
      ensures Cost(i, bt, j) == |prefix.words| + |output| + 1
    {
      CostAtMost(i, bt, j);
      if Cost(i, bt, j) < MaxEditError() {
        var s := AttainedBelow(i, bt, j);
        assert false;
      }
    }

    /** The step that a cell below the greatest error takes its cost from. */
    lemma CheapestStep(i: nat, bt: Mask, j: nat) returns (step: Step)
      requires Within(i, j) && Cost(i, bt, j) < MaxEditError()
      requires !(i == 0 && j == 0 && bt == mask) && !(0 < i && Bit(bt, 0))
      ensures match step
              case DeleteIt => 0 < i && Cost(i, bt, j) == Cost(i - 1, bt / 2, j) + 1
              case InsertIt => 0 < j && Cost(i, bt, j) == Cost(i, bt, j - 1) + 1
              case PairIt(k) =>
                && k < WindowSize && k < from + i && !Bit(bt, k) && 0 < j
                && Cost(i, bt, j) == Cost(i, With(bt, k), j - 1) + prefix.WordError(from + i - k - 1, output[j - 1])
    {
      var deleted := if 0 < i then Min(MaxEditError(), Cost(i - 1, bt / 2, j) + 1) else MaxEditError();
      if j == 0 {
        return DeleteIt;
      }
      var inserted := Min(deleted, Cost(i, bt, j - 1) + 1);
      var paired, k := PairedFrom(i, bt, j, 0, inserted);
      step := if paired then PairIt(k) else if inserted == deleted then DeleteIt else InsertIt;
    }

    lemma {:induction false} PairedFrom(i: nat, bt: Mask, j: nat, from_: nat, c: nat) returns (paired: bool, k: nat)
      requires Within(i, j) && 0 < j
      ensures !paired ==> Paired(i, bt, j, from_, c) == c
      ensures paired ==>
                && k < WindowSize && k < from + i && !Bit(bt, k)
                && Paired(i, bt, j, from_, c) == Cost(i, With(bt, k), j - 1) + prefix.WordError(from + i - k - 1, output[j - 1])
      decreases if from_ < WindowSize then WindowSize - from_ else 0
    {
      hide Cost, With, MaxEditError, Prefix.WordError;
      if WindowSize <= from_ || from + i < from_ + 1 {
        return false, 0;
      }
      if Bit(bt, from_) {
        paired, k := PairedFrom(i, bt, j, from_ + 1, c);
      } else {
        var here := Cost(i, With(bt, from_), j - 1) + prefix.WordError(from + i - from_ - 1, output[j - 1]);
        paired, k := PairedFrom(i, bt, j, from_ + 1, Min(c, here));
        if !paired && here < c {
          return true, from_;
        }
      }
    }

    /** Starting from nothing matched, looking around in the window never costs more than the plain edit distance. */
    lemma {:induction false} NoMoreThanPlain(i: nat, j: nat)
      requires Within(i, j) && mask == 0
      ensures Cost(i, 0, j) <= prefix.Distance(from, output, i, j)
      decreases i + j
    {
      hide Cost, MaxEditError, Prefix.Distance, Prefix.Capped, Prefix.WordError, Cheapest, Min;
      if i == 0 && j == 0 {
        NothingToMatch();
        prefix.EdgeDistance(from, output, 0, 0);
      } else if i == 0 || j == 0 {
        NoMoreThanStep(i, j);
        prefix.EdgeDistance(from, output, i, j);
        if i == 0 {
          NoMoreThanPlain(0, j - 1);
          prefix.EdgeDistance(from, output, 0, j - 1);
        } else {
          NoMoreThanPlain(i - 1, 0);
          prefix.EdgeDistance(from, output, i - 1, 0);
        }
      } else {
        NoMoreThanStep(i, j);
        NoMoreThanPlain(i - 1, j);
        NoMoreThanPlain(i, j - 1);
        NoMoreThanPlain(i - 1, j - 1);
        prefix.InnerCell(0, from, output, i, j);
        AtMostCheapest(Cost(i, 0, j), prefix.Distance(from, output, i - 1, j), prefix.Distance(from, output, i, j - 1),
                       prefix.Distance(from, output, i - 1, j - 1) + prefix.WordError(from + i - 1, output[j - 1]));
      }
    }

    lemma NothingToMatch()
      requires Within(0, 0) && mask == 0
      ensures Cost(0, 0, 0) == 0
    {
    }
  }

  datatype Step = DeleteIt | InsertIt | PairIt(k: nat)

  lemma AtMostCheapest(x: nat, deleted: nat, inserted: nat, paired: nat)
    requires x <= deleted + 1 && x <= inserted + 1 && x <= paired
    ensures x <= Cheapest(deleted, inserted, paired)
  {
  }

  class Table {
    const phrase: Phrase
    const cost: array3<int>

    constructor (phrase: Phrase)
      requires phrase.from <= |phrase.prefix.words|
      ensures this.phrase == phrase && fresh(cost) && Valid()
      ensures forall i, bt, j :: 0 <= i < cost.Length0 && 0 <= bt < 8 && 0 <= j < cost.Length2 ==> cost[i, bt, j] == -1
    {
      this.phrase := phrase;
      cost := new int[|phrase.prefix.words| - phrase.from + 1, 8, |phrase.output| + 1]((i, bt, j) => -1);
    }

    predicate Valid() {
      && phrase.from <= |phrase.prefix.words|
      && cost.Length0 == |phrase.prefix.words| - phrase.from + 1 && cost.Length1 == 8 && cost.Length2 == |phrase.output| + 1
    }

    /** A filled cell holds what the recursion without the table would give. */
    ghost predicate CellOk(i: nat, bt: Mask, j: nat)
      requires Valid() && i < cost.Length0 && j < cost.Length2
      reads cost
    {
      cost[i, bt, j] == -1 || cost[i, bt, j] == phrase.Cost(i, bt, j)
    }

    /** So do all cells with no more than n words to go. */
    ghost predicate FilledRight(n: int)
      requires Valid()
      reads cost
    {
      forall i: nat, bt: Mask, j: nat :: i < cost.Length0 && j < cost.Length2 && i + j <= n ==> CellOk(i, bt, j)
    }

    /** Cells with more words to go are as they were. */
    twostate predicate Untouched(n: int)
      requires Valid()
      reads cost
    {
      forall i: nat, bt: Mask, j: nat :: i < cost.Length0 && j < cost.Length2 && n < i + j ==> cost[i, bt, j] == old(cost[i, bt, j])
    }

    /** Cells with as many words to go as (i, bt, j), other than that cell, are as they were. */
    twostate predicate OnlyCell(i: nat, bt: Mask, j: nat)
      requires Valid()
      reads cost
    {
      forall i': nat, bt': Mask, j': nat :: i' < cost.Length0 && j' < cost.Length2 && i + j <= i' + j' && (i', bt', j') != (i, bt, j)
        ==> cost[i', bt', j'] == old(cost[i', bt', j'])
    }

    method SetCell(i: nat, bt: Mask, j: nat, v: int)
      requires Valid() && i < cost.Length0 && j < cost.Length2 && FilledRight(i + j - 1)
      modifies cost
      ensures cost[i, bt, j] == v && FilledRight(i + j - 1)
      ensures forall i': nat, bt': Mask, j': nat :: i' < cost.Length0 && j' < cost.Length2 && (i', bt', j') != (i, bt, j)
                ==> cost[i', bt', j'] == old(cost[i', bt', j'])
    {
      cost[i, bt, j] := v;
      forall i': nat, bt': Mask, j': nat | i' < cost.Length0 && j' < cost.Length2 && i' + j' <= i + j - 1
        ensures CellOk(i', bt', j')
      {
        assert old(CellOk(i', bt', j'));
      }
    }

    lemma Lower(n: int, m: int)
      requires Valid() && FilledRight(n) && m <= n
      ensures FilledRight(m)
    {
    }

    method EditDistance(i: nat, bt: Mask, j: nat) returns (d: int)
      requires Valid() && i < cost.Length0 && j < cost.Length2 && FilledRight(i + j)
      modifies cost
      ensures d == phrase.Cost(i, bt, j) && FilledRight(i + j) && Untouched(i + j)
      decreases i + j, 2
    {
      if cost[i, bt, j] != -1 {
        assert CellOk(i, bt, j);
        return cost[i, bt, j];
      }
      Lower(i + j, i + j - 1);
      d := Compute(i, bt, j);
      SetCell(i, bt, j, d);
      forall i': nat, bt': Mask, j': nat | i' < cost.Length0 && j' < cost.Length2 && i' + j' <= i + j
        ensures CellOk(i', bt', j')
      {
        if i' + j' == i + j && (i', bt', j') != (i, bt, j) {
          assert old(CellOk(i', bt', j'));
        }
      }
    }

    /** The cost of a cell, from cells with fewer words to go. */
    method Compute(i: nat, bt: Mask, j: nat) returns (d: int)
      requires Valid() && i < cost.Length0 && j < cost.Length2 && FilledRight(i + j - 1)
      modifies cost
      ensures d == phrase.Cost(i, bt, j) && FilledRight(i + j - 1) && OnlyCell(i, bt, j)
      decreases i + j, 1
    {
      if i == 0 && j == 0 && bt == phrase.mask {
        return 0;
      }
      d := phrase.MaxEditError();
      SetCell(i, bt, j, d);
      if 0 < i && Bit(bt, 0) {
        d := EditDistance(i - 1, bt / 2, j);
        return;
      }
      if 0 < i {
        var deleted := EditDistance(i - 1, bt / 2, j);
        d := if deleted + 1 < d then deleted + 1 else d;
      }
      if 0 < j {
        var inserted := EditDistance(i, bt, j - 1);
        d := if inserted + 1 < d then inserted + 1 else d;
        d := PairWindow(i, bt, j, d);
      }
    }

    /** Pair the phrase word with each of the window's words that are not matched yet. */
    method PairWindow(i: nat, bt: Mask, j: nat, c: nat) returns (d: nat)
      requires Valid() && i < cost.Length0 && 0 < j < cost.Length2 && FilledRight(i + j - 1)
      modifies cost
      ensures d == phrase.Paired(i, bt, j, 0, c) && FilledRight(i + j - 1) && Untouched(i + j - 1)
      decreases i + j, 0
    {
      d := c;
      var prefix, k := phrase.prefix, 0;
      while k < WindowSize && 0 <= phrase.from + i - k - 1
        invariant 0 <= k <= WindowSize && k <= phrase.from + i
        invariant phrase.Paired(i, bt, j, k, d) == phrase.Paired(i, bt, j, 0, c)
        invariant FilledRight(i + j - 1) && Untouched(i + j - 1)
      {
        if !Bit(bt, k) {
          var id := phrase.from + i - k - 1;
          var thisError := EditDistance(i, With(bt, k), j - 1);
          if prefix.words[id] != phrase.output[j - 1] {
            if !(prefix.lastMayMatchPartially && id == |prefix.words| - 1 && phrase.output[j - 1] in prefix.completions) {
              thisError := thisError + 1;
            }
          }
          d := if thisError < d then thisError else d;
        }
        k := k + 1;
      }
    }
  }
}
