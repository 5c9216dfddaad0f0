/** Scoring sentence fragments whose left context is not known yet, and gluing them together. */
module LeftState {
  import opened NGrams
  import opened Model
  import opened Fragments
  import opened Buffers

  /** The left half of a chart state in its fixed-size buffer. */
  class Left {
    const pointers: array<Gram>
    var length: nat
    var full: bool

    constructor (capacity: nat)
      ensures Valid() && pointers.Length == capacity && length == 0 && !full
      ensures fresh(pointers)
    {
      pointers := new Gram[capacity](_ => []);
      length, full := 0, false;
    }

    ghost predicate Valid()
      reads this
    {
      length <= pointers.Length
    }

    ghost function Value(): seq<Gram>
      reads this, pointers
      requires Valid()
    {
      pointers[..length]
    }

    /** Plain assignment of the structure. */
    method Assign(from: Left)
      requires Valid() && from.Valid() && from.length <= pointers.Length
      requires this != from && pointers != from.pointers
      modifies this, pointers
      ensures Valid() && Value() == from.Value() && full == from.full
    {
      length, full := from.length, from.full;
      CopyRange(from.pointers, from.length, pointers, 0);
      assert pointers[..length] == pointers[0..0 + from.length];
    }
  }

  class ChartState {
    const left: Left
    const right: State

    constructor (capacity: nat)
      ensures Valid() && left.pointers.Length == right.words.Length == capacity
      ensures left.length == 0 && !left.full && right.length == 0
      ensures fresh(Repr())
    {
      left := new Left(capacity);
      right := new State(capacity);
    }

    ghost function Repr(): set<object> {
      {this, left, left.pointers, right, right.words, right.backoff}
    }

    ghost predicate Valid()
      reads left, right
    {
      left.Valid() && right.Valid()
    }

    /** No buffer is shared with another chart state. */
    ghost predicate Apart(other: ChartState) {
      && left != other.left && left.pointers != other.left.pointers
      && right != other.right && right.words != other.right.words && right.backoff != other.right.backoff
    }

    /** Room for the states of an N-gram model. */
    ghost predicate Fits(order: nat) {
      order - 1 <= left.pointers.Length && order - 1 <= right.words.Length
    }

    /** The chart state of a finished fragment. */
    ghost predicate Describes(g: Grammar, words: seq<Word>, bos: bool)
      reads left, left.pointers, right, right.words, right.backoff
    {
      && Valid()
      && left.Value() == g.Pointers(words, bos)
      && left.full == g.Full(words, bos)
      && right.Value() == g.Right(words, bos)
    }
  }

  /** Builds the chart state of a rule application from left to right. */
  class RuleScore {
    const model: GenericModel
    var out: ChartState
    var leftDone: bool
    var prob: real
    ghost const g: Grammar
    ghost var words: seq<Word>
    ghost var bos: bool

    /** `words` have been added, newest first, after the sentence start if `bos`. */
    ghost predicate Valid()
      reads this, out.left, out.left.pointers, out.right, out.right.words, out.right.backoff
    {
      && g.Valid() && g == Grammar(model.search, model.begin) && out.Valid() && out.Fits(g.lm.order)
      && g.Builds(out.left.Value(), out.right.Value(), leftDone, words, bos)
    }

    constructor (m: GenericModel, result: ChartState, ghost grammar: Grammar)
      requires grammar.Valid() && grammar == Grammar(m.search, m.begin)
      requires result.Valid() && result.Fits(grammar.lm.order)
      modifies result.left, result.right
      ensures Valid() && words == [] && !bos && prob == 0.0
      ensures model == m && out == result && g == grammar
    {
      model, out, g := m, result, grammar;
      leftDone, prob := false, 0.0;
      words, bos := [], false;
      new;
      out.left.length := 0;
      out.right.length := 0;
    }

    /** Only as the first call. */
    method BeginSentence()
      requires Valid() && words == [] && !bos
      modifies this, out.right, out.right.words, out.right.backoff
      ensures Valid() && words == [] && bos && prob == old(prob) && out == old(out)
    {
      model.BeginSentenceState(out.right);
      leftDone := true;
      bos := true;
    }

    /** Books one scored word: its rest cost and a pointer while the left is open, its probability afterwards. */
    method ProcessRet(ret: FullScoreReturn)
      requires out.left.Valid()
      requires !leftDone && !ret.independentLeft ==> out.left.length < out.left.pointers.Length
      modifies this`leftDone, this`prob, out.left, out.left.pointers
      ensures out.left.Valid()
      ensures leftDone == (old(leftDone) || ret.independentLeft)
      ensures leftDone ==> prob == old(prob) + ret.prob && out.left.Value() == old(out.left.Value())
      ensures !leftDone ==> prob == old(prob) + ret.rest && out.left.Value() == old(out.left.Value()) + [ret.extendLeft]
    {
      if leftDone {
        prob := prob + ret.prob;
        return;
      }
      if ret.independentLeft {
        prob := prob + ret.prob;
        leftDone := true;
        return;
      }
      out.left.pointers[out.left.length] := ret.extendLeft;
      out.left.length := out.left.length + 1;
      prob := prob + ret.rest;
    }

    method Terminal(word: Word)
      requires Valid() && word < g.lm.bound
      modifies this, out.left, out.left.pointers, out.right, out.right.words, out.right.backoff
      ensures Valid() && words == [word] + old(words) && bos == old(bos) && out == old(out)
      ensures prob == old(prob) + g.Cost(words, bos) - g.Cost(old(words), bos)
    {
      hide Grammar.Cost, Grammar.Pointers, Grammar.Full, Grammar.AllOpen;
      hide Lm.Textbook, Lm.Minimal, Lm.Represents, Lm.StateLength, Lm.WellFormed, Lm.ValidWords;
      hide Grammar.Builds, Grammar.History, Lm.Open, Lm.Has, Lm.MatchLength, Lm.FlagsClosed, GenericModel.Matched;
      var copy := new State.Copy(out.right);
      ghost var r, left, right := words, out.left.Value(), copy.Value();
      g.TerminalStep(left, right, leftDone, r, bos, word);
      assert left + [] == left;
      var ret := model.FullScore(copy, word, out.right, g.History(r, bos));
      ProcessRet(ret);
      if out.right.length != copy.length + 1 {
        leftDone := true;
      }
      words := [word] + r;
    }

    /** Starts a rule with an already built fragment `part`, which describes `b`. */
    method BeginNonTerminal(part: ChartState, score: real, ghost b: seq<Word>, ghost partBos: bool)
      requires Valid() && words == [] && !bos
      requires part.Describes(g, b, partBos) && g.lm.ValidWords(b)
      requires part.Apart(out)
      modifies this, out.left, out.left.pointers, out.right, out.right.words, out.right.backoff
      ensures Valid() && words == b && bos == partBos && prob == score && out == old(out)
    {
      hide Grammar.Right, Grammar.Pointers, Grammar.Full, Grammar.Cost, Grammar.Builds, Lm.WellFormed, Lm.ValidWords;
      prob := score;
      g.WholePart(b, partBos);
      out.left.Assign(part.left);
      out.right.Assign(part.right);
      leftDone := part.left.full;
      words, bos := b, partBos;
    }

    /** The first j words of the fragment `b` have been joined; `before` is the score without joining. */
    ghost predicate Joining(b: seq<Word>, j: nat, before: real)
      reads this, out.left, out.left.pointers, out.right, out.right.words, out.right.backoff
    {
      && g.Valid() && g == Grammar(model.search, model.begin) && out.Valid() && out.Fits(g.lm.order)
      && g.lm.ValidWords(b) && g.lm.ValidWords(words) && j <= |b|
      && out.right.Value() == g.Right(words, bos) && 0 < out.right.length
      && g.Joins(out.left.Value(), prob - before, leftDone, b, j, words, bos)
      && (!leftDone ==> words != [])
    }

    /** Takes over the rest of `part` when nothing to the left matters after its first j words. */
    method Settle(part: ChartState, j: nat, ghost b: seq<Word>, ghost before: real)
      requires 0 < j <= part.left.length && Joining(b, j, before) && leftDone
      requires part.Describes(g, b, false) && part.Apart(out)
      requires g.lm.StateLength(b[|b| - j..] + g.History(words, bos)) <= j
      modifies this`prob, this`words, out.right, out.right.words, out.right.backoff
      ensures Valid() && words == b + old(words) && prob == before + g.Gain(b, old(words), bos)
    {
      hide Grammar.Cost, Grammar.Pointers, Grammar.Full, Grammar.Right, Grammar.DoneFlag, Grammar.Gain;
      g.ExitPlan(out.left.Value(), prob - before, b, j, words, bos, part.left.Value());
      out.right.Assign(part.right);
      var unRest := model.UnRest(part.left.pointers, j, part.left.length);
      assert part.left.Value()[j..] == part.left.pointers[j..part.left.length];
      prob := prob + unRest;
      words := b + words;
    }

    /** Scores the next word of `part` with the first `nextUse` words of the right state as its left context. */
    method ScorePointer(part: ChartState, nextUse: nat, extendLength: nat, backIn: array<Backoff>,
                        backOut: array<Backoff>, ghost b: seq<Word>, ghost before: real)
      returns (next: nat)
      requires 1 <= extendLength <= part.left.length && Joining(b, extendLength - 1, before)
      requires part.Describes(g, b, false) && part.Apart(out)
      requires nextUse <= out.right.length && nextUse <= backIn.Length
      requires g.Carries(b[|b| - (extendLength - 1)..], out.right.words[..nextUse], backIn[..], g.History(words, bos))
      requires backIn != backOut && backOut != out.right.backoff && g.lm.order - 1 <= backOut.Length
      requires backOut != part.right.backoff
      modifies this`leftDone, this`prob, backOut, out.left, out.left.pointers
      ensures extendLength <= |b| && next <= nextUse && out.Valid()
      ensures g.Joins(out.left.Value(), prob - before, leftDone || next != out.right.length, b, extendLength, words, bos)
      ensures !leftDone ==> words != []
      ensures g.Carries(b[|b| - extendLength..], out.right.words[..next], backOut[..], g.History(words, bos))
      ensures next == g.lm.NextUse(b[|b| - extendLength..], g.History(words, bos))
    {
      hide Grammar.Cost, Grammar.Pointers, Grammar.Full, Grammar.Right, Grammar.DoneFlag, Grammar.Joins, Grammar.Carries;
      hide Grammar.History, Lm.WellFormed, Lm.ValidWords, Lm.NextUse, Lm.ExtendedScore, Lm.ExtendedRest, Lm.MatchLength;
      ghost var left, gain, done := out.left.Value(), prob - before, leftDone;
      ghost var add, back := out.right.words[..nextUse], backIn[..];
      g.ExtendReady(left, gain, done, b, extendLength - 1, words, bos, add, back);
      var pointer := part.left.pointers[extendLength - 1];
      assert pointer == part.left.Value()[extendLength - 1];
      var ret;
      next, ret := model.ExtendLeft(out.right.words[..nextUse], backIn, pointer, extendLength, backOut);
      g.ExtendResult(left, gain, done, b, extendLength - 1, words, bos, add, back,
                     ret.prob, ret.rest, ret.independentLeft, ret.extendLeft, next, backOut[..]);
      assert add[..next] == out.right.words[..next];
      ProcessRet(ret);
    }

    /** Joins one more word of `part`. True when nothing further to the left matters, in which case the whole of
        `part` has been joined. */
    method ExtendLeft(part: ChartState, nextUse: nat, extendLength: nat, backIn: array<Backoff>,
                      backOut: array<Backoff>, ghost b: seq<Word>, ghost before: real)
      returns (finished: bool, next: nat)
      requires 1 <= extendLength <= part.left.length && Joining(b, extendLength - 1, before)
      requires part.Describes(g, b, false) && part.Apart(out)
      requires nextUse <= out.right.length && nextUse <= backIn.Length
      requires g.Carries(b[|b| - (extendLength - 1)..], out.right.words[..nextUse], backIn[..], g.History(words, bos))
      requires backIn != backOut && backOut != out.right.backoff && g.lm.order - 1 <= backOut.Length
      requires backOut != part.right.backoff
      modifies this`leftDone, this`prob, this`words, backOut
      modifies out.left, out.left.pointers, out.right, out.right.words, out.right.backoff
      ensures finished ==> Valid() && words == b + old(words) && prob == before + g.Gain(b, old(words), bos)
      ensures !finished ==> words == old(words) && Joining(b, extendLength, before)
      ensures !finished ==> 0 < next <= nextUse && out.right.length == old(out.right.length)
      ensures !finished ==>
                && g.Carries(b[|b| - extendLength..], out.right.words[..next], backOut[..], g.History(words, bos))
                && next == g.lm.NextUse(b[|b| - extendLength..], g.History(words, bos))
    {
      hide Grammar.Right, Grammar.Pointers, Grammar.Full, Grammar.Cost, Grammar.Joins, Grammar.Gain, Grammar.Carries;
      next := ScorePointer(part, nextUse, extendLength, backIn, backOut, b, before);
      finished := false;
      if next != out.right.length {
        leftDone := true;
        if next == 0 {
          Settle(part, extendLength, b, before);
          finished := true;
        }
      }
    }

    /** Appends the part's fragment `b` after the words so far; `score` is the part's own score if the caller wants
        totals, or zero. The states end up as if the words of `b` had been added one by one, and the score changes
        by what that would have cost, less what `b` cost on its own. */
    method NonTerminal(part: ChartState, score: real, ghost b: seq<Word>)
      requires Valid() && g.lm.ValidWords(b)
      requires part.Describes(g, b, false) && part.Apart(out)
      modifies this, out.left, out.left.pointers, out.right, out.right.words, out.right.backoff
      ensures Valid() && words == b + old(words) && bos == old(bos) && out == old(out)
      ensures prob == old(prob) + score + g.Gain(b, old(words), bos)
    {
      prob := prob + score;
      if part.left.length == 0 {
        if part.left.full {
          JoinIndependent(part, b);
        } else {
          g.EmptyJoin(b, words, bos);
        }
        return;
      }
      if out.right.length == 0 {
        JoinWithoutContext(part, b);
        return;
      }
      JoinPointers(part, b);
    }

    /** A part whose first word is independent of everything to its left. */
    method JoinIndependent(part: ChartState, ghost b: seq<Word>)
      requires Valid() && g.lm.ValidWords(b)
      requires part.Describes(g, b, false) && part.Apart(out)
      requires part.left.length == 0 && part.left.full
      modifies this, out.right, out.right.words, out.right.backoff
      ensures Valid() && words == b + old(words) && bos == old(bos) && out == old(out)
      ensures prob == old(prob) + g.Gain(b, old(words), bos)
    {
      hide Grammar.Right, Grammar.Pointers, Grammar.Full, Grammar.Cost, Grammar.Gain, Grammar.DoneFlag, Grammar.Builds;
      g.IndependentStart(out.left.Value(), out.right.Value(), leftDone, b, words, bos);
      prob := model.Charge(prob, out.right.backoff, 0, out.right.length);
      assert out.right.backoff[0..out.right.length] == out.right.Value().backoff;
      leftDone := true;
      out.right.Assign(part.right);
      words := b + words;
    }

    /** A part that starts with pointers, joined to an empty right state. */
    method JoinWithoutContext(part: ChartState, ghost b: seq<Word>)
      requires Valid() && g.lm.ValidWords(b)
      requires part.Describes(g, b, false) && part.Apart(out)
      requires part.left.length != 0 && out.right.length == 0
      modifies this, out.left, out.left.pointers, out.right, out.right.words, out.right.backoff
      ensures Valid() && words == b + old(words) && bos == old(bos) && out == old(out)
      ensures prob == old(prob) + g.Gain(b, old(words), bos)
    {
      hide Grammar.Right, Grammar.Pointers, Grammar.Full, Grammar.Cost, Grammar.Gain, Grammar.DoneFlag, Lm.UnRestSum;
      g.NoContext(out.left.Value(), out.right.Value(), leftDone, b, words, bos);
      out.right.Assign(part.right);
      if leftDone {
        var unRest := model.UnRest(part.left.pointers, 0, part.left.length);
        assert part.left.pointers[0..part.left.length] == part.left.Value();
        prob := prob + unRest;
      } else {
        leftDone := if out.left.length != 0 then true else part.left.full;
        if out.left.length == 0 {
          out.left.Assign(part.left);
        }
      }
      words := b + words;
    }

    /** A part that starts with pointers, joined to a right state with words in it. */
    method JoinPointers(part: ChartState, ghost b: seq<Word>)
      requires Valid() && g.lm.ValidWords(b)
      requires part.Describes(g, b, false) && part.Apart(out)
      requires part.left.length != 0 && out.right.length != 0
      modifies this, out.left, out.left.pointers, out.right, out.right.words, out.right.backoff
      ensures Valid() && words == b + old(words) && bos == old(bos) && out == old(out)
      ensures prob == old(prob) + g.Gain(b, old(words), bos)
    {
      hide Grammar.Right, Grammar.Pointers, Grammar.Full, Grammar.Cost, Grammar.Gain, Grammar.DoneFlag, Grammar.Joins;
      hide Grammar.History, Grammar.Carries, Lm.WellFormed, Lm.ValidWords, Lm.NextUse;
      ghost var before, r, right := prob, words, out.right.Value();
      g.NothingJoined(out.left.Value(), right, leftDone, b, r, bos);
      g.CarriesInBuffer([], right.words, right.backoff, g.History(r, bos), out.right.backoff[..]);
      var back := new Backoff[out.right.words.Length](_ => NoExtension);
      var back2 := new Backoff[out.right.words.Length](_ => NoExtension);
      // First word
      var finished, nextUse := ExtendLeft(part, out.right.length, 1, out.right.backoff, back, b, before);
      if finished {
        return;
      }
      JoinMore(part, nextUse, back, back2, b, before);
    }

    /** The pointers after the first, when the first `nextUse0` words of the right state still matter. */
    method JoinMore(part: ChartState, nextUse0: nat, back0: array<Backoff>, back1: array<Backoff>,
                    ghost b: seq<Word>, ghost before: real)
      requires 0 < part.left.length && Joining(b, 1, before)
      requires part.Describes(g, b, false) && part.Apart(out)
      requires 0 < nextUse0 <= out.right.length && nextUse0 <= back0.Length
      requires back0 != back1 && back0 != out.right.backoff && back1 != out.right.backoff
      requires back0 != part.right.backoff && back1 != part.right.backoff
      requires back0.Length == back1.Length && g.lm.order - 1 <= back0.Length
      requires g.Carries(b[|b| - 1..], out.right.words[..nextUse0], back0[..], g.History(words, bos))
      requires nextUse0 == g.lm.NextUse(b[|b| - 1..], g.History(words, bos))
      modifies this, out.left, out.left.pointers, out.right, out.right.words, out.right.backoff, back0, back1
      ensures Valid() && words == b + old(words) && bos == old(bos) && out == old(out)
      ensures prob == before + g.Gain(b, old(words), bos)
    {
      hide Grammar.Right, Grammar.Pointers, Grammar.Full, Grammar.Cost, Grammar.Gain, Grammar.DoneFlag, Grammar.Joins;
      hide Grammar.Carries, Lm.NextUse, Grammar.Builds;
      ghost var r := words;
      var nextUse, back, back2 := nextUse0, back0, back1;
      // Words after the first, so extending a bigram to begin with
      var extendLength := 2;
      while extendLength <= part.left.length
        invariant 2 <= extendLength <= part.left.length + 1
        invariant words == r && bos == old(bos) && out == old(out)
        invariant Joining(b, extendLength - 1, before) && part.Describes(g, b, false)
        invariant 0 < nextUse <= out.right.length && nextUse <= back.Length
        invariant (back == back0 && back2 == back1) || (back == back1 && back2 == back0)
        invariant g.Carries(b[|b| - (extendLength - 1)..], out.right.words[..nextUse], back[..], g.History(r, bos))
        invariant nextUse == g.lm.NextUse(b[|b| - (extendLength - 1)..], g.History(r, bos))
      {
        var finished;
        finished, nextUse := ExtendLeft(part, nextUse, extendLength, back, back2, b, before);
        if finished {
          return;
        }
        back, back2 := back2, back;
        extendLength := extendLength + 1;
      }
      FinishJoin(part, nextUse, back, b, before);
    }

    /** All pointers of the part are joined and the first `nextUse` words of the right state still matter. */
    method FinishJoin(part: ChartState, nextUse: nat, back: array<Backoff>, ghost b: seq<Word>, ghost before: real)
      requires 0 < part.left.length && Joining(b, part.left.length, before)
      requires part.Describes(g, b, false) && part.Apart(out)
      requires 0 < nextUse <= out.right.length && nextUse <= back.Length
      requires back != out.right.backoff
      requires g.Carries(b[|b| - part.left.length..], out.right.words[..nextUse], back[..], g.History(words, bos))
      requires nextUse == g.lm.NextUse(b[|b| - part.left.length..], g.History(words, bos))
      modifies this, out.right, out.right.words, out.right.backoff
      ensures Valid() && words == b + old(words) && bos == old(bos) && out == old(out)
      ensures prob == before + g.Gain(b, old(words), bos)
    {
      hide Grammar.Right, Grammar.Pointers, Grammar.Full, Grammar.Cost, Grammar.Gain, Grammar.DoneFlag, Grammar.Joins;
      hide Grammar.Carries, Lm.NextUse, Grammar.History;
      hide Grammar.Builds, Lm.ValidWords, Lm.WellFormed;
      ghost var r, add := words, out.right.words[..nextUse];
      g.LoopEnd(out.left.Value(), prob - before, leftDone, b, part.left.length, r, bos, add, back[..]);
      assert back[..][..nextUse] == back[..nextUse];
      TakeRight(part, nextUse, back);
      words := b + r;
    }

    /** The right state of all the words: the part's, if it is full, otherwise the part's words before those that still matter. */
    method TakeRight(part: ChartState, nextUse: nat, back: array<Backoff>)
      requires out.Valid() && part.Valid() && part.Apart(out) && back != out.right.backoff
      requires nextUse <= out.right.length && nextUse <= back.Length
      requires part.right.length + (if part.left.full then 0 else nextUse) <= out.right.words.Length
      // Only a full part can have its right state minimised below its left state.
      requires part.left.full || part.left.length <= part.right.length
      modifies this`prob, this`leftDone, out.right, out.right.words, out.right.backoff
      ensures out.Valid() && leftDone == (old(leftDone) || part.left.full)
      ensures prob == old(prob) + if part.left.full then Total(back[..nextUse]) else 0.0
      ensures out.right.Value() ==
              if part.left.full then part.right.Value()
              else RightState(part.right.Value().words + old(out.right.words[..nextUse]),
                              part.right.Value().backoff + back[..nextUse])
    {
      if part.left.full {
        prob := model.Charge(prob, back, 0, nextUse);
        leftDone := true;
        out.right.Assign(part.right);
      } else if part.right.length < part.left.length {
        assert false;
      } else {
        AppendRight(part.right, nextUse, back);
      }
    }

    /** Puts the part's words and back-offs in front of the first `nextUse` words, with their new back-offs. */
    method AppendRight(from: State, nextUse: nat, back: array<Backoff>)
      requires from.Valid() && out.right.Valid()
      requires from != out.right && from.words != out.right.words && from.backoff != out.right.backoff
      requires back != out.right.backoff
      requires nextUse <= out.right.length && nextUse <= back.Length
      requires from.length + nextUse <= out.right.words.Length
      modifies out.right, out.right.words, out.right.backoff
      ensures out.right.Valid()
      ensures out.right.Value() == RightState(from.Value().words + old(out.right.words[..nextUse]),
                                              from.Value().backoff + back[..nextUse])
    {
      var right, n := out.right, from.length;
      // Shift existing words down.
      ShiftDown(right.words, nextUse, n);
      SplitPrefix(right.words[..], n, nextUse);
      // Add words and back-offs in front, then the back-offs composed on the existing words.
      CopyRange(from.words, n, right.words, 0);
      CopyRange(from.backoff, n, right.backoff, 0);
      CopyRange(back, nextUse, right.backoff, n);
      right.length := n + nextUse;
      SplitPrefix(right.words[..], n, nextUse);
      SplitPrefix(right.backoff[..], n, nextUse);
      assert right.words[..][..n + nextUse] == right.words[..n + nextUse];
      assert right.backoff[..][..n + nextUse] == right.backoff[..n + nextUse];
    }

    /** Completes the chart state and returns the score. */
    method Finish() returns (score: real)
      requires Valid()
      modifies out.left
      ensures Valid() && score == prob && out.Describes(g, words, bos)
    {
      if !leftDone {
        g.OpenIsNotFull(words);
        g.OpenPointersLength(words);
      } else {
        g.PointersLength(words, bos);
      }
      out.left.full := leftDone || out.left.length == model.search.order - 1;
      return prob;
    }

    /** Starts over with another result. */
    method Reset(replacement: ChartState)
      requires Valid() && replacement.Valid() && replacement.Fits(g.lm.order)
      modifies this, replacement.left, replacement.right
      ensures Valid() && words == [] && !bos && prob == 0.0 && out == replacement
    {
      out := replacement;
      prob := 0.0;
      leftDone := false;
      out.left.length := 0;
      out.right.length := 0;
      words, bos := [], false;
    }

    /** Feeds a rule's words and parts, building the parts first. */
    method Add(d: Derivation)
      requires Valid() && words == [] && g.lm.ValidWords(d.Yield())
      modifies this, out.left, out.left.pointers, out.right, out.right.words, out.right.backoff
      ensures Valid() && words == d.Yield() && bos == old(bos) && out == old(out)
      ensures prob == old(prob) + g.Cost(words, bos)
      decreases d, 0
    {
      match d
      case Empty =>
      case AddWord(before, word) =>
        assert d.Yield()[1..] == before.Yield() && d.Yield()[0] == word;
        Add(before);
        Terminal(word);
      case AddPart(before, part) =>
        assert d.Yield()[..|part.Yield()|] == part.Yield() && d.Yield()[|part.Yield()|..] == before.Yield();
        Add(before);
        var chart, score := ScoreDerivation(model, part, false, out.right.words.Length, g);
        NonTerminal(chart, score, part.Yield());
    }
  }

  /** Scores a derivation bottom-up. The chart state and the score depend on the words derived and on nothing
      else: any other nesting of the same words gives the same. */
  method ScoreDerivation(model: GenericModel, d: Derivation, bos: bool, capacity: nat, ghost g: Grammar)
    returns (chart: ChartState, score: real)
    requires g.Valid() && g == Grammar(model.search, model.begin) && g.lm.order - 1 <= capacity
    requires g.lm.ValidWords(d.Yield())
    ensures fresh(chart.Repr()) && chart.Fits(g.lm.order)
    ensures chart.Describes(g, d.Yield(), bos)
    ensures score == g.Cost(d.Yield(), bos)
    decreases d, 1
  {
    chart := new ChartState(capacity);
    var scorer := new RuleScore(model, chart, g);
    if bos {
      scorer.BeginSentence();
    }
    scorer.Add(d);
    score := scorer.Finish();
  }

  /** Scores a text word by word, from the sentence start or from nothing, as the query tool does. */
  method ScoreText(model: GenericModel, text: seq<Word>, bos: bool, capacity: nat, ghost g: Grammar)
    returns (state: State, total: real)
    requires g.lm.WellFormed() && g.begin < g.lm.bound
    requires g == Grammar(model.search, model.begin) && g.lm.order - 1 <= capacity
    requires g.lm.ValidWords(text)
    ensures fresh(state) && fresh(state.words) && fresh(state.backoff) && state.Valid()
    ensures g.lm.ValidWords(NewestFirst(text))
    ensures state.Value() == g.Right(NewestFirst(text), bos)
    ensures total == g.SentenceScore(NewestFirst(text), bos)
  {
    hide Grammar.Right, Lm.Minimal, Lm.Represents, Lm.Textbook, Lm.StateLength;
    hide NewestFirst, Lm.WellFormed, Lm.ValidWords, Grammar.SentenceScore, Grammar.History;
    state := new State(capacity);
    var next := new State(capacity);
    StartOfText(g, text, bos);
    if bos {
      model.BeginSentenceState(state);
    }
    total := 0.0;
    NewestFirstWords(text, g.lm);
    for i := 0 to |text|
      invariant state.Valid() && next.Valid()
      invariant g.lm.ValidWords(NewestFirst(text[..i]))
      invariant state.Value() == g.Right(NewestFirst(text[..i]), bos)
      invariant total == g.SentenceScore(NewestFirst(text[..i]), bos)
    {
      ghost var r := NewestFirst(text[..i]);
      g.RightRepresents(r, bos);
      TextStep(g, text, i, bos);
      var ret := model.FullScore(state, text[i], next, g.History(r, bos));
      total := total + ret.prob;
      g.RightRepresents(NewestFirst(text[..i + 1]), bos);
      state.Assign(next);
    }
    assert text[..|text|] == text;
  }

  lemma StartOfText(g: Grammar, text: seq<Word>, bos: bool)
    requires g.lm.WellFormed() && g.begin < g.lm.bound
    ensures 2 <= g.lm.order
    ensures NewestFirst(text[..0]) == [] && g.lm.ValidWords([]) && g.SentenceScore([], bos) == 0.0
    ensures g.Right([], bos) == if bos then RightState([g.begin], [g.lm.EntryBackoff([g.begin])]) else RightState([], [])
  {
    g.lm.StateLengthIs([]);
  }

  lemma TextStep(g: Grammar, text: seq<Word>, i: nat, bos: bool)
    requires g.lm.WellFormed() && g.lm.ValidWords(text) && i < |text|
    requires g.lm.ValidWords(NewestFirst(text[..i]))
    ensures text[i] < g.lm.bound && g.lm.ValidWords(NewestFirst(text[..i + 1]))
    ensures var r, m := NewestFirst(text[..i]), NewestFirst(text[..i + 1]);
            && g.Right(m, bos) == g.lm.Minimal([text[i]] + g.History(r, bos))
            && g.SentenceScore(m, bos) == g.SentenceScore(r, bos) + g.lm.Textbook(text[i], g.History(r, bos))
  {
    var r, m := NewestFirst(text[..i]), NewestFirst(text[..i + 1]);
    assert text[..i + 1][..i] == text[..i];
    assert m == [text[i]] + r && m[1..] == r;
    assert [text[i]] + g.History(r, bos) == g.History(m, bos);
  }

  function NewestFirst(text: seq<Word>): (r: seq<Word>)
    ensures |r| == |text| && forall k :: 0 <= k < |r| ==> r[k] == text[|text| - 1 - k]
  {
    if text == [] then [] else [text[|text| - 1]] + NewestFirst(text[..|text| - 1])
  }

  lemma NewestFirstConcat(a: seq<Word>, b: seq<Word>)
    ensures NewestFirst(a + b) == NewestFirst(b) + NewestFirst(a)
  {
  }

  /** Building a text from parts and feeding it word by word score the same words. */
  lemma {:induction false} DerivesText(d: Derivation)
    ensures d.Yield() == NewestFirst(d.Text())
  {
    hide NewestFirst;
    match d
    case Empty => NothingFirst();
    case AddWord(before, word) =>
      DerivesText(before);
      NewestFirstConcat(before.Text(), [word]);
      OneFirst(word);
    case AddPart(before, part) =>
      DerivesText(before);
      DerivesText(part);
      NewestFirstConcat(before.Text(), part.Text());
  }

  lemma NothingFirst()
    ensures NewestFirst([]) == []
  {
  }

  lemma OneFirst(word: Word)
    ensures NewestFirst([word]) == [word]
  {
  }

  lemma {:induction false} NewestFirstWords(text: seq<Word>, lm: Lm)
    requires lm.ValidWords(text)
    ensures lm.ValidWords(NewestFirst(text))
  {
    if text != [] {
      NewestFirstWords(text[..|text| - 1], lm);
    }
  }
}
