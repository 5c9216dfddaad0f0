/** Joining two chart states in place, without a rule score. */
module Partial {
  import opened NGrams
  import opened Model
  import opened Fragments
  import opened LeftState
  import opened Buffers

  datatype ExtendReturn = ExtendReturn(adjust: real, makeFull: bool, nextUse: nat)

  /** The fragments being joined, for the specification: `b` to the right of `r`. */
  datatype Join = Join(g: Grammar, b: seq<Word>, r: seq<Word>, bos: bool) {

    ghost predicate Valid() {
      g.Valid() && g.lm.ValidWords(b) && g.lm.ValidWords(r)
    }

    function Pointers(): seq<Gram> {
      g.Pointers(b, false)
    }

    /** The left fragment is empty: there is nothing to join with. */
    predicate Trivial() {
      r == [] && !bos
    }

    /** j pointers have been extended. In a trivial join every pointer stays as it is. */
    ghost predicate Extended(left: seq<Gram>, adjust: real, done: bool, j: nat, add: seq<Word>, back: seq<Backoff>)
      requires Valid()
    {
      && j <= |Pointers()| <= |b|
      && |add| <= |back|
      && if Trivial() then
           add == [] && !done && adjust == 0.0 && left == Pointers()[..j]
         else
           && g.Joins(left, adjust, done, b, j, r, bos)
           && g.Carries(b[|b| - j..], add, back, g.History(r, bos))
           && (0 < j ==> |add| == g.lm.NextUse(b[|b| - j..], g.History(r, bos)))
           && (!done ==> r != [])
    }

    /** The pointer loop is over. Either nothing to the left matters any more and the whole of `b` is settled, or
        all pointers have been extended and `nextUse` words of the left fragment's right state remain in use. */
    ghost predicate Outcome(left: seq<Gram>, adjust: real, done: bool, nextUse: nat, back: seq<Backoff>)
      requires Valid() && nextUse <= |g.Right(r, bos).words|
    {
      if Settled(nextUse) then done && g.Builds(left, g.Right(b, false), true, b + r, bos) && adjust == g.Gain(b, r, bos)
      else && Extended(left, adjust, done, |Pointers()|, g.Right(r, bos).words[..nextUse], back)
           && (Pointers() == [] ==> nextUse == |g.Right(r, bos).words|)
    }

    predicate Settled(nextUse: nat) {
      !Trivial() && Pointers() != [] && nextUse == 0
    }

    /** The pointers not extended only need their rest costs exchanged. */
    lemma Conclude(left: seq<Gram>, adjust: real, done: bool, j: nat, nextUse: nat, back: seq<Backoff>)
      requires Valid() && nextUse <= |g.Right(r, bos).words|
      requires Extended(left, adjust, done, j, g.Right(r, bos).words[..nextUse], back)
      requires j < |Pointers()| ==> nextUse == 0 && done
      requires Settled(nextUse) && j == |Pointers()| ==> done
      requires j == 0 ==> nextUse == |g.Right(r, bos).words|
      ensures forall i :: 0 <= i < |Pointers()| ==> g.lm.Has(Pointers()[i])
      ensures Outcome(left, adjust + g.lm.UnRestSum(Pointers()[j..]), done, nextUse, back)
    {
      hide Grammar.Builds, Grammar.Gain, Grammar.Cost, Grammar.Pointers, Grammar.Full, Lm.Has, Lm.WellFormed;
      g.PointersStored(b, false);
      if Settled(nextUse) {
        g.EarlyExit(left, adjust, b, j, r, bos);
        g.PointersOfPart(b, j);
      } else {
        assert Pointers()[j..] == [];
      }
    }

    /** The right state of the joined fragment, put together. */
    function JoinedRight(nextUse: nat, back: seq<Backoff>): RightState
      requires nextUse <= |g.Right(r, bos).words| && nextUse <= |back|
    {
      var right := g.Right(b, false);
      if g.Full(b, false) then right
      else RightState(right.words + g.Right(r, bos).words[..nextUse], right.backoff + back[..nextUse])
    }

    /** The two ends of the joined fragment and the change in score are as they have to be. */
    ghost predicate Completed(left: seq<Gram>, adjust: real, done: bool, nextUse: nat, back: seq<Backoff>)
      requires Valid() && nextUse <= |g.Right(r, bos).words| && nextUse <= |back|
    {
      && g.Builds(left, JoinedRight(nextUse, back), done || g.Full(b, false), b + r, bos)
      && adjust + (if g.Full(b, false) then Total(back[..nextUse]) else 0.0) == g.Gain(b, r, bos)
    }

    lemma CompleteTrivial(left: seq<Gram>, adjust: real, done: bool, nextUse: nat, back: seq<Backoff>)
      requires Valid() && nextUse <= |g.Right(r, bos).words| && nextUse <= |back|
      requires Outcome(left, adjust, done, nextUse, back) && Trivial()
      ensures Completed(left, adjust, done, nextUse, back)
    {
      g.lm.StateLengthIs([]);
      assert g.Right(r, bos).words == [];
      assert b + r == b;
      assert Pointers()[..|Pointers()|] == Pointers();
      var right := g.Right(b, false);
      assert right == RightState(right.words + [], right.backoff + []);
      if !g.Full(b, false) {
        g.NotFullIsOpen(b, false);
      }
    }

    lemma CompleteSettled(left: seq<Gram>, adjust: real, done: bool, nextUse: nat, back: seq<Backoff>)
      requires Valid() && nextUse <= |g.Right(r, bos).words| && nextUse <= |back|
      requires Outcome(left, adjust, done, nextUse, back) && Settled(nextUse)
      ensures Completed(left, adjust, done, nextUse, back)
    {
      var right := g.Right(b, false);
      assert right == RightState(right.words + [], right.backoff + []);
    }

    lemma CompleteIndependent(left: seq<Gram>, adjust: real, done: bool, nextUse: nat, back: seq<Backoff>)
      requires Valid() && nextUse <= |g.Right(r, bos).words| && nextUse <= |back|
      requires Outcome(left, adjust, done, nextUse, back)
      requires !Trivial() && !Settled(nextUse) && g.Full(b, false)
      ensures Completed(left, adjust, done, nextUse, back)
    {
      var j, add := |Pointers()|, g.Right(r, bos).words[..nextUse];
      assert |b[|b| - j..]| == j;
      g.IndependentJoin(left, adjust, done, b, j, r, bos, add, back);
    }

    lemma CompleteOpen(left: seq<Gram>, adjust: real, done: bool, nextUse: nat, back: seq<Backoff>)
      requires Valid() && nextUse <= |g.Right(r, bos).words| && nextUse <= |back|
      requires Outcome(left, adjust, done, nextUse, back)
      requires !Trivial() && !Settled(nextUse) && !g.Full(b, false)
      ensures Completed(left, adjust, done, nextUse, back)
    {
      var add := g.Right(r, bos).words[..nextUse];
      g.NotFullIsOpen(b, false);
      g.OpenPointers(b);
      assert b[|b| - |b|..] == b;
      if b == [] {
        g.EmptyJoin(b, r, bos);
        CarriedIsRight(add, back);
        g.lm.StateLengthIs([]);
        var right := g.Right(r, bos);
        assert RightState([] + right.words, [] + right.backoff) == right;
      } else {
        g.OpenState(b);
        g.OpenEnd(left, adjust, done, b, r, bos, add, back);
      }
    }

    /** The whole right state carried unchanged. */
    lemma CarriedIsRight(add: seq<Word>, back: seq<Backoff>)
      requires Valid() && add == g.Right(r, bos).words && |add| <= |back|
      requires g.Carries([], add, back, g.History(r, bos))
      ensures back[..|add|] == g.Right(r, bos).backoff
    {
      var right, h := g.Right(r, bos), g.History(r, bos);
      g.RightRepresents(r, bos);
      forall i | 0 <= i < |add|
        ensures back[i] == right.backoff[i]
      {
        assert g.lm.HoldsAfter(back, [], add, i) && g.lm.Holds(right.backoff, h, i);
        assert add[..i + 1] == h[..i + 1];
      }
    }

    /** The outcome of the pointer loop, completed by the part of the right fragment behind its pointers. */
    lemma Complete(left: seq<Gram>, adjust: real, done: bool, nextUse: nat, back: seq<Backoff>)
      requires Valid() && nextUse <= |g.Right(r, bos).words| && nextUse <= |back|
      requires Outcome(left, adjust, done, nextUse, back)
      ensures Completed(left, adjust, done, nextUse, back)
      ensures |g.Right(b + r, bos).words| < g.lm.order
      ensures g.Full(b + r, bos) == (|| done || g.Full(b, false) || |left| == g.lm.order - 1
                                     || |g.Right(b + r, bos).words| == g.lm.order - 1)
    {
      if Trivial() {
        CompleteTrivial(left, adjust, done, nextUse, back);
      } else if Settled(nextUse) {
        CompleteSettled(left, adjust, done, nextUse, back);
      } else if g.Full(b, false) {
        CompleteIndependent(left, adjust, done, nextUse, back);
      } else {
        CompleteOpen(left, adjust, done, nextUse, back);
      }
      FullByLength(done || g.Full(b, false), b + r);
    }

    /** Whether a fragment is full can be told from the lengths of its two ends. */
    lemma FullByLength(done: bool, f: seq<Word>)
      requires g.Valid() && g.lm.ValidWords(f) && g.DoneFlag(done, f, bos)
      ensures |g.Right(f, bos).words| < g.lm.order
      ensures g.Full(f, bos) == (|| done || |g.Pointers(f, bos)| == g.lm.order - 1
                                 || |g.Right(f, bos).words| == g.lm.order - 1)
    {
      g.RightRepresents(f, bos);
      if !done {
        g.OpenIsNotFull(f);
        g.OpenPointersLength(f);
        g.OpenState(f);
      }
    }

    lemma CanExtend(left: seq<Gram>, adjust: real, done: bool, i: nat, add: seq<Word>, back: seq<Backoff>)
      requires Valid() && i < |Pointers()| && Extended(left, adjust, done, i, add, back)
      ensures |add| <= |back|
      ensures var m := Pointers()[i];
              && g.lm.Has(m) && g.lm.Open(m) && |m| == i + 1 && |left| <= g.lm.order - 2 + (if !done && g.lm.Open(m + add) then 0 else 1)
    {
      hide Lm.Open;
      g.PointerAt(b, false, i);
      g.PointersLength(b, false);
      if Trivial() {
        TrivialExtension(this, i);
      } else {
        g.ExtendReady(left, adjust, done, b, i, r, bos, add, back);
      }
    }

    /** What extending the i-th pointer returned is the next step. */
    lemma ExtendsOne(left: seq<Gram>, adjust: real, done: bool, i: nat, add: seq<Word>, back: seq<Backoff>,
                     next: nat, ret: FullScoreReturn, nextBack: seq<Backoff>)
      requires Valid() && i < |Pointers()| && Extended(left, adjust, done, i, add, back) && |add| <= |nextBack|
      requires var m := Pointers()[i];
               && g.lm.Has(m)
               && ret.prob == g.lm.ExtendedScore(m, add, back) - g.lm.table[m].rest
               && ret.rest == g.lm.ExtendedRest(m, add) - g.lm.table[m].rest
               && (ret.independentLeft <==> !g.lm.Open(m + add))
               && (!ret.independentLeft ==> ret.extendLeft == m + add)
               && next == g.lm.NextUse(m, add)
               && forall i :: 0 <= i < next ==> g.lm.HoldsAfter(nextBack, m, add, i)
      ensures next <= |add|
      ensures var open := !done && !ret.independentLeft;
              Extended(if open then left + [ret.extendLeft] else left, adjust + (if open then ret.rest else ret.prob),
                       done || ret.independentLeft || next != |g.Right(r, bos).words|, i + 1, add[..next], nextBack)
    {
      hide Lm.Open, Lm.HoldsAfter, Lm.NextUse, Lm.ExtendedScore, Lm.ExtendedRest;
      if Trivial() {
        TrivialExtension(this, i);
      } else {
        g.ExtendResult(left, adjust, done, b, i, r, bos, add, back,
                       ret.prob, ret.rest, ret.independentLeft, ret.extendLeft, next, nextBack);
      }
    }

    /** Nothing extended yet. */
    lemma Start(back: seq<Backoff>)
      requires Valid() && g.Right(r, bos).backoff <= back
      ensures Extended(g.Pointers(r, bos), 0.0, g.Full(r, bos), 0, g.Right(r, bos).words, back)
      ensures g.Right(r, bos).words == [] ==> g.Full(r, bos) || Trivial()
    {
      var right := g.Right(r, bos);
      g.PointersLength(b, false);
      if !g.Full(r, bos) {
        g.NotFullIsOpen(r, bos);
        g.OpenState(r);
      }
      g.NothingJoined(g.Pointers(r, bos), right, g.Full(r, bos), b, r, bos);
      g.CarriesInBuffer([], right.words, right.backoff, g.History(r, bos), back);
    }
  }

  /** Extends the i-th pointer by the history still in use. */
  method ExtendOne(model: GenericModel, add: seq<Word>, backIn: array<Backoff>, pointers: array<Gram>, i: nat,
                   backOut: array<Backoff>, ghost j: Join, ghost left: seq<Gram>, ghost adjust: real, ghost done: bool)
    returns (next: nat, ret: FullScoreReturn)
    requires j.Valid() && j.g == Grammar(model.search, model.begin)
    requires i < |j.Pointers()| <= pointers.Length && pointers[..|j.Pointers()|] == j.Pointers()
    requires j.Extended(left, adjust, done, i, add, backIn[..])
    requires backIn != backOut && |add| <= backOut.Length
    modifies backOut
    ensures next <= |add|
    ensures !done && !ret.independentLeft ==> |left| + 1 < j.g.lm.order
    ensures var open := !done && !ret.independentLeft;
            j.Extended(if open then left + [ret.extendLeft] else left, adjust + (if open then ret.rest else ret.prob),
                       done || ret.independentLeft || next != |j.g.Right(j.r, j.bos).words|, i + 1,
                       add[..next], backOut[..])
  {
    hide Join.Extended, Join.Trivial, Grammar.Pointers, Lm.ExtendedScore, Lm.ExtendedRest, Lm.NextUse, Lm.HoldsAfter, Lm.Open;
    hide Lm.WellFormed, Lm.ValidWords, Lm.FlagsClosed, Grammar.Right, Lm.Has;
    ghost var back := backIn[..];
    var pointer := pointers[i];
    assert pointer == pointers[..|j.Pointers()|][i];
    j.CanExtend(left, adjust, done, i, add, back);
    next, ret := model.ExtendLeft(add, backIn, pointer, i + 1, backOut);
    j.ExtendsOne(left, adjust, done, i, add, back, next, ret, backOut[..]);
  }

  /** Extending by nothing changes nothing. */
  lemma TrivialExtension(j: Join, i: nat)
    requires j.Valid() && j.Trivial() && i < |j.Pointers()|
    ensures var m := j.Pointers()[i];
            && j.g.lm.Open(m) && m + [] == m
            && j.g.lm.ExtendedRest(m, []) == j.g.lm.table[m].rest
            && j.g.lm.NextUse(m, []) == 0
            && j.g.Right([], false).words == []
            && j.Pointers()[..i] + [m] == j.Pointers()[..i + 1]
  {
    var m := j.Pointers()[i];
    j.g.PointerAt(j.b, false, i);
    j.g.lm.StateLengthIs(m);
    j.g.lm.StateLengthIs([]);
    assert m + [] == m;
  }

  /** Extends the pointers from the i-th on while some of the history is in use, without keeping them. */
  method ExtendPart(model: GenericModel, add: seq<Word>, nextUse0: nat, back0: array<Backoff>, back1: array<Backoff>,
                    pointers: array<Gram>, length: nat, i0: nat, adjust0: real, ghost j: Join, ghost left: seq<Gram>, ghost done: bool)
    returns (adjust: real, nextUse: nat, i: nat, back: array<Backoff>)
    requires j.Valid() && j.g == Grammar(model.search, model.begin)
    requires i0 <= length == |j.Pointers()| <= pointers.Length && pointers[..length] == j.Pointers()
    requires nextUse0 <= |add| <= back0.Length == back1.Length && back0 != back1
    requires j.Extended(left, adjust0, done, i0, add[..nextUse0], back0[..])
    requires i0 < length || nextUse0 < |add| ==> done
    requires |add| == |j.g.Right(j.r, j.bos).words|
    modifies back0, back1
    ensures i0 <= i <= length && nextUse <= nextUse0 && (back == back0 || back == back1)
    ensures j.Extended(left, adjust, done, i, add[..nextUse], back[..])
    ensures (i < length ==> nextUse == 0 && done) && (nextUse < |add| ==> done) && (i == i0 ==> nextUse == nextUse0)
  {
    hide Grammar.Pointers, Grammar.Full, Grammar.Right, Grammar.Cost, Grammar.Carries, Grammar.Joins, Grammar.Builds;
    hide Join.Extended, Lm.NextUse, Lm.UnRestSum, Join.Outcome, Lm.WellFormed, Lm.ValidWords, Lm.FlagsClosed;
    adjust, nextUse, i := adjust0, nextUse0, i0;
    var backIn, backOut := back0, back1;
    while i < length && nextUse != 0
      invariant i0 <= i <= length && nextUse <= nextUse0
      invariant (backIn == back0 && backOut == back1) || (backIn == back1 && backOut == back0)
      invariant j.Extended(left, adjust, done, i, add[..nextUse], backIn[..])
      invariant i < length || nextUse < |add| ==> done
      invariant i == i0 ==> nextUse == nextUse0
    {
      ghost var n := nextUse;
      var ret;
      nextUse, ret := ExtendOne(model, add[..nextUse], backIn, pointers, i, backOut, j, left, adjust, done);
      assert add[..n][..nextUse] == add[..nextUse];
      backIn, backOut := backOut, backIn;
      i := i + 1;
      adjust := adjust + ret.prob;
    }
    back := backIn;
  }

  /** Extends all pointers of the fragment `j.b` by the right state in front of it. While the outer left state is
      open (`writing`), the new pointers are appended to `pointersOut` behind `writeAt`. */
  method ExtendLoop(model: GenericModel, add: seq<Word>, backoffStart: array<Backoff>,
                    pointers: array<Gram>, length: nat, writing: bool, pointersOut: array<Gram>, writeAt: nat,
                    ghost j: Join)
    returns (value: ExtendReturn, writeEnd: nat, backoffs: array<Backoff>, ghost left: seq<Gram>)
    requires j.Valid() && j.g == Grammar(model.search, model.begin)
    requires |add| <= backoffStart.Length && RightState(add, backoffStart[..|add|]) == j.g.Right(j.r, j.bos)
    requires length <= pointers.Length && pointers[..length] == j.Pointers()
    requires writing == !j.g.Full(j.r, j.bos)
    requires writing ==> writeAt <= pointersOut.Length && pointersOut[..writeAt] == j.g.Pointers(j.r, j.bos)
    requires j.g.lm.order - 1 <= pointersOut.Length && pointersOut != pointers
    modifies pointersOut
    ensures value.nextUse <= |add| && value.nextUse <= backoffs.Length && fresh(backoffs)
    ensures writing ==> writeEnd <= pointersOut.Length && pointersOut[..writeEnd] == left
    ensures !writing ==> pointersOut[..] == old(pointersOut[..]) && left == j.g.Pointers(j.r, j.bos)
    ensures j.Outcome(left, value.adjust, !writing || value.makeFull, value.nextUse, backoffs[..])
  {
    hide Grammar.Pointers, Grammar.Full, Grammar.Right, Grammar.Cost, Grammar.Carries, Grammar.Joins, Grammar.Builds;
    hide Join.Extended, Lm.NextUse, Lm.UnRestSum, Join.Outcome;
    ghost var done := j.g.Full(j.r, j.bos);
    left := j.g.Pointers(j.r, j.bos);
    var backIn := new Backoff[backoffStart.Length](_ => NoExtension);
    var backOut := new Backoff[backoffStart.Length](_ => NoExtension);
    CopyRange(backoffStart, |add|, backIn, 0);
    assert backIn[0..0 + |add|] <= backIn[..];
    j.Start(backIn[..]);
    var adjust, makeFull, nextUse, i := 0.0, false, |add|, 0;
    writeEnd := writeAt;
    assert add[..nextUse] == add;
    if writing {
      // Using full context, writing to new left state.
      while i < length
        invariant i <= length && nextUse <= |add| <= backIn.Length == backOut.Length
        invariant backIn != backOut && fresh(backIn) && fresh(backOut)
        invariant done == makeFull == false
        invariant writeEnd == |left| <= pointersOut.Length && pointersOut[..writeEnd] == left
        invariant j.Extended(left, adjust, false, i, add[..nextUse], backIn[..])
        invariant nextUse == |add|
      {
        var ret;
        nextUse, ret := ExtendOne(model, add[..nextUse], backIn, pointers, i, backOut, j, left, adjust, false);
        backIn, backOut := backOut, backIn;
        i := i + 1;
        assert add[..nextUse] == add[..|add|][..nextUse];
        if ret.independentLeft {
          adjust := adjust + ret.prob;
          makeFull, done := true, true;
          break;
        }
        adjust := adjust + ret.rest;
        pointersOut[writeEnd] := ret.extendLeft;
        writeEnd := writeEnd + 1;
        left := left + [ret.extendLeft];
        if nextUse != |add| {
          makeFull, done := true, true;
          break;
        }
      }
    }
    // Using some of the new context.
    adjust, nextUse, i, backoffs := ExtendPart(model, add, nextUse, backIn, backOut, pointers, length, i, adjust, j, left, done);
    j.Conclude(left, adjust, done, i, nextUse, backoffs[..]);
    var unRest := model.UnRest(pointers, i, length);
    // Using none of the new context.
    assert pointers[i..length] == j.Pointers()[i..];
    value := ExtendReturn(adjust + unRest, makeFull, nextUse);
  }

  /** Appends n words and their back-offs to a right state. */
  method AppendState(right: State, words: array<Word>, backoffs: array<Backoff>, n: nat)
    requires right.Valid() && right.words != words && right.backoff != backoffs
    requires n <= words.Length && n <= backoffs.Length && right.length + n <= right.words.Length
    modifies right, right.words, right.backoff
    ensures right.Valid()
    ensures right.Value() == RightState(old(right.Value().words) + words[..n], old(right.Value().backoff) + backoffs[..n])
  {
    var at := right.length;
    CopyRange(backoffs, n, right.backoff, at);
    CopyRange(words, n, right.words, at);
    right.length := at + n;
    SplitPrefix(right.words[..], at, n);
    SplitPrefix(right.backoff[..], at, n);
    assert right.words[..][..at + n] == right.words[..at + n];
    assert right.backoff[..][..at + n] == right.backoff[..at + n];
  }

  /** Joins the fragment on the right into the one on the left: afterwards `firstLeft` and `secondRight` are the two
      ends of the joined fragment. Returns what the join changes in the sum of the scores. */
  method Subsume(model: GenericModel, firstLeft: Left, firstRight: State, secondLeft: Left, secondRight: State,
                 ghost j: Join)
    returns (adjust: real)
    requires j.Valid() && j.g == Grammar(model.search, model.begin)
    requires firstLeft.Valid() && firstRight.Valid() && secondLeft.Valid() && secondRight.Valid()
    requires firstLeft.Value() == j.g.Pointers(j.r, j.bos) && firstLeft.full == j.g.Full(j.r, j.bos)
    requires firstRight.Value() == j.g.Right(j.r, j.bos)
    requires secondLeft.Value() == j.Pointers() && secondLeft.full == j.g.Full(j.b, false)
    requires secondRight.Value() == j.g.Right(j.b, false)
    requires firstLeft != secondLeft && firstLeft.pointers != secondLeft.pointers
    requires firstRight != secondRight && firstRight.words != secondRight.words
    requires firstRight.backoff != secondRight.backoff
    requires j.g.lm.order - 1 <= firstLeft.pointers.Length && j.g.lm.order - 1 <= secondRight.words.Length
    modifies firstLeft, firstLeft.pointers, secondRight, secondRight.words, secondRight.backoff
    ensures firstLeft.Valid() && secondRight.Valid()
    ensures firstLeft.Value() == j.g.Pointers(j.b + j.r, j.bos)
    ensures firstLeft.full == j.g.Full(j.b + j.r, j.bos)
    ensures secondRight.Value() == j.g.Right(j.b + j.r, j.bos)
    ensures adjust == j.g.Gain(j.b, j.r, j.bos)
  {
    hide Grammar.Pointers, Grammar.Full, Grammar.Right, Grammar.Cost, Grammar.Gain, Grammar.DoneFlag, Join.Outcome;
    ghost var right, part := firstRight.Value(), secondRight.Value();
    assert firstRight.words[..firstRight.length] == right.words;
    var value, writeEnd, backoffs;
    ghost var left;
    value, writeEnd, backoffs, left := ExtendLoop(model, firstRight.words[..firstRight.length], firstRight.backoff,
                                                  secondLeft.pointers, secondLeft.length,
                                                  !firstLeft.full, firstLeft.pointers, firstLeft.length, j);
    j.Complete(left, value.adjust, firstLeft.full || value.makeFull, value.nextUse, backoffs[..]);
    adjust := value.adjust;
    var makeFull := value.makeFull;
    if secondLeft.full {
      adjust := model.Charge(adjust, backoffs, 0, value.nextUse);
      assert backoffs[0..value.nextUse] == backoffs[..][..value.nextUse];
    } else {
      AppendState(secondRight, firstRight.words, backoffs, value.nextUse);
      makeFull := makeFull || secondRight.length == model.search.order - 1;
    }
    if !firstLeft.full {
      firstLeft.length := writeEnd;
      firstLeft.full := makeFull || secondLeft.full || firstLeft.length == model.search.order - 1;
    }
  }
}
