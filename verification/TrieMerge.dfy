/** The merge that drives the trie builder: n-grams of all orders in lexicographic order, and a blank for every missing
    prefix. N-grams are newest word first, so a prefix is the n-gram with its oldest words dropped. */
module TrieMerge {
  import opened NGrams
  import opened HashedBuild

  // ----- lexicographic order -----

  /** Word by word; a prefix comes before what it is a prefix of. */
  predicate Less(a: Gram, b: Gram) {
    if b == [] then false
    else if a == [] then true
    else a[0] < b[0] || (a[0] == b[0] && Less(a[1..], b[1..]))
  }

  lemma {:induction false} LessTransitive(a: Gram, b: Gram, c: Gram)
    requires Less(a, b) && Less(b, c)
    ensures Less(a, c)
  {
    if a != [] && b[0] == a[0] && c[0] == a[0] {
      LessTransitive(a[1..], b[1..], c[1..]);
    }
  }

  lemma {:induction false} LessTotal(a: Gram, b: Gram)
    ensures Less(a, b) || Less(b, a) || a == b
  {
    if a != [] && b != [] && a[0] == b[0] {
      LessTotal(a[1..], b[1..]);
      assert a == [a[0]] + a[1..] && b == [b[0]] + b[1..];
    }
  }

  lemma {:induction false} LessIrreflexive(a: Gram)
    ensures !Less(a, a)
  {
    if a != [] {
      LessIrreflexive(a[1..]);
    }
  }

  lemma {:induction false} PrefixIsLess(a: Gram, b: Gram)
    requires a <= b && a != b
    ensures Less(a, b)
  {
    if a != [] {
      assert a[1..] <= b[1..];
      assert a == [a[0]] + a[1..] && b == [b[0]] + b[1..];
      PrefixIsLess(a[1..], b[1..]);
    }
  }

  /** Whatever comes between an n-gram and one that extends it extends it as well. */
  lemma {:induction false} BetweenExtends(p: Gram, q: Gram, g: Gram)
    requires p <= g && (p == q || Less(p, q)) && (q == g || Less(q, g))
    ensures p <= q
  {
    if p != [] && p != q && q != g {
      assert p[0] == g[0] && p[1..] <= g[1..];
      assert q[0] == p[0];
      BetweenExtends(p[1..], q[1..], g[1..]);
      assert p == [p[0]] + p[1..] && q == [q[0]] + q[1..];
    }
  }

  lemma {:induction false} LessSameContext(p: Gram, v: Word, w: Word)
    ensures Less(p + [v], p + [w]) <==> v < w
  {
    if p == [] {
      assert [v][1..] == [w][1..] == [];
    } else {
      assert (p + [v])[1..] == p[1..] + [v] && (p + [w])[1..] == p[1..] + [w];
      LessSameContext(p[1..], v, w);
    }
  }

  ghost predicate Sorted(s: seq<Gram>) {
    forall i, j :: 0 <= i < j < |s| ==> Less(s[i], s[j])
  }

  lemma LessWords(v: Word, w: Word)
    ensures Less([v], [w]) <==> v < w
  {
  }

  /** Sorted one-word n-grams, none missing, lie in the places of their words. */
  lemma {:induction false} WordPlace(s: seq<Gram>, w: Word)
    requires Sorted(s) && (forall i :: 0 <= i < |s| ==> |s[i]| == 1) && forall v: Word :: v <= w ==> [v] in s
    ensures w < |s| && s[w] == [w]
  {
    assert [w] in s;
    var i :| 0 <= i < |s| && s[i] == [w];
    if 0 < w {
      WordPlace(s, w - 1);
      LessWords(w, w - 1);
    }
    assert w <= i;
    var v := s[w][0];
    assert s[w] == [v];
    LessWords(v, w);
    if 0 < w {
      LessWords(w - 1, v);
    }
  }

  // ----- what is emitted -----

  /** The calls made while merging: an n-gram of the file, or a blank with the order and the probability it is based on. */
  datatype Emission = Real(gram: Gram) | Blank(gram: Gram, lower: nat, basis: real)

  /** The file's n-grams, and every prefix of one. */
  ghost predicate InClosure(a: Lm, g: Gram) {
    g != [] && exists x :: a.Has(x) && g <= x
  }

  /** The longest prefix of g in the file. */
  function LongestReal(a: Lm, g: Gram): nat
    decreases |g|
  {
    if g == [] || a.Has(g) then |g| else LongestReal(a, g[..|g| - 1])
  }

  ghost predicate EmissionOk(a: Lm, e: Emission) {
    match e
    case Real(g) => a.Has(g) || g == [a.bound]
    case Blank(g, lower, basis) =>
      && !a.Has(g) && 1 < |g| < a.order && lower == LongestReal(a, g) && 1 <= lower < |g|
      && a.Has(g[..lower]) && basis == a.table[g[..lower]].prob
  }

  ghost predicate Ascending(out: seq<Emission>) {
    forall i, j :: 0 <= i < j < |out| ==> Less(out[i].gram, out[j].gram)
  }

  ghost predicate Emitted(out: seq<Emission>, g: Gram) {
    exists k :: 0 <= k < |out| && out[k].gram == g
  }

  // ----- the manager of blanks -----

  datatype Basis = Bad | Prob(prob: real)

  function CommonPrefix(a: Gram, b: Gram): (n: nat)
    ensures n <= |a| && n <= |b|
  {
    if a == [] || b == [] || a[0] != b[0] then 0 else 1 + CommonPrefix(a[1..], b[1..])
  }

  lemma {:induction false} CommonPrefixFacts(a: Gram, b: Gram)
    ensures var n := CommonPrefix(a, b);
            a[..n] == b[..n] && (n < |a| && n < |b| ==> a[n] != b[n])
  {
    var n := CommonPrefix(a, b);
    if 0 < n {
      CommonPrefixFacts(a[1..], b[1..]);
      assert a[..n] == [a[0]] + a[1..][..n - 1] && b[..n] == [b[0]] + b[1..][..n - 1];
    }
  }

  lemma SameWords(a: Gram, b: Gram, n: nat)
    requires n <= |a| && n <= |b| && a[..n] == b[..n]
    ensures forall j :: 0 <= j < n ==> a[j] == b[j]
  {
    assert forall j :: 0 <= j < n ==> a[..n][j] == a[j] && b[..n][j] == b[j];
  }

  lemma CommonPrefixIs(a: Gram, b: Gram, n: nat)
    requires n <= |a| && n <= |b| && a[..n] == b[..n] && (n < |a| && n < |b| ==> a[n] != b[n])
    ensures CommonPrefix(a, b) == n
  {
    CommonPrefixFacts(a, b);
    SameWords(a, b, n);
    SameWords(a, b, CommonPrefix(a, b));
  }

  lemma {:induction false} LongestRealPrefix(a: Lm, g: Gram, k: nat)
    requires k <= |g| && forall j :: k < j <= |g| ==> !a.Has(g[..j])
    ensures LongestReal(a, g) == LongestReal(a, g[..k])
    decreases |g|
  {
    if k < |g| {
      assert g[..|g|] == g;
      var h := g[..|g| - 1];
      forall j | k < j <= |h|
        ensures !a.Has(h[..j])
      {
        assert h[..j] == g[..j];
      }
      LongestRealPrefix(a, h, k);
      assert h[..k] == g[..k];
    } else {
      assert g[..k] == g;
    }
  }

  lemma {:induction false} LongestRealIs(a: Lm, g: Gram, l: nat)
    requires l <= |g| && (a.Has(g[..l]) || l == 0) && forall j :: l < j <= |g| ==> !a.Has(g[..j])
    ensures LongestReal(a, g) == l
  {
    LongestRealPrefix(a, g, l);
  }

  function ProbOf(a: Lm, g: Gram): real {
    if a.Has(g) then a.table[g].prob else 0.0
  }

  /** Blanks for the proper prefixes of g of k words and more, based on the prefix of `lower` words. */
  function BlanksFrom(a: Lm, g: Gram, k: nat, lower: nat): seq<Emission>
    decreases |g| - k
  {
    if |g| <= k then []
    else [Blank(g[..k], lower, ProbOf(a, g[..NGrams.Min(lower, |g|)]))] + BlanksFrom(a, g, k + 1, lower)
  }

  /** The blanks between the n-gram visited last and `to`: the prefixes of `to` that the two do not share. */
  function NewBlanks(a: Lm, last: Gram, to: Gram): seq<Emission> {
    if to == [] then [] else BlanksFrom(a, to, CommonPrefix(last, to) + 1, LongestReal(a, to[..|to| - 1]))
  }

  function BasisOf(a: Lm, g: Gram): Basis {
    if a.Has(g) then Prob(a.table[g].prob) else Bad
  }

  /** The probabilities of the prefixes of g in the file. */
  ghost predicate BasesFit(a: Lm, g: Gram, b: seq<Basis>, n: nat) {
    n <= |g| && n <= |b| && forall m :: 0 <= m < n ==> b[m] == BasisOf(a, g[..m + 1])
  }

  lemma PrefixesAgree(a: Gram, b: Gram, n: nat)
    requires n <= |a| && n <= |b| && a[..n] == b[..n]
    ensures forall j :: 0 <= j <= n ==> a[..j] == b[..j]
  {
    forall j | 0 <= j <= n
      ensures a[..j] == b[..j]
    {
      assert a[..j] == a[..n][..j] && b[..j] == b[..n][..j];
    }
  }

  class BlankManager {
    /** The n-gram visited last, in the first `beenLength` places. */
    const been: array<Word>
    var beenLength: nat

    /** The probabilities of its prefixes in the file, Bad for blanks. */
    const basis: array<Basis>

    ghost predicate Valid(a: Lm)
      reads this, been, basis
    {
      && been.Length == basis.Length == a.order && beenLength <= a.order
      && BasesFit(a, been[..beenLength], basis[..], beenLength)
    }

    function Been(): Gram
      requires beenLength <= been.Length
      reads this, been
    {
      been[..beenLength]
    }

    constructor (totalOrder: nat)
      ensures beenLength == 0 && been.Length == basis.Length == totalOrder && fresh(been) && fresh(basis)
    {
      been := new Word[totalOrder];
      basis := new Basis[totalOrder](_ => Bad);
      beenLength := 0;
    }

    /** The order of the longest prefix of `to`, of at most `blank` - 1 words, that is not itself a blank. */
    method FindBasis(ghost a: Lm, to: Gram, blank: nat) returns (basedOn: nat)
      requires 2 <= blank <= |to| <= basis.Length && a.Has([to[0]]) && BasesFit(a, to, basis[..], blank - 1)
      ensures 1 <= basedOn < blank && a.Has(to[..basedOn]) && basis[basedOn - 1] == Prob(a.table[to[..basedOn]].prob)
      ensures forall j :: basedOn < j < blank ==> !a.Has(to[..j])
    {
      var lowerBasis := blank - 2;
      assert to[..1] == [to[0]] && basis[0] == BasisOf(a, to[..1]);
      while basis[lowerBasis] == Bad
        invariant 0 <= lowerBasis <= blank - 2
        invariant forall j :: lowerBasis + 1 < j < blank ==> !a.Has(to[..j])
        decreases lowerBasis
      {
        assert basis[lowerBasis] == BasisOf(a, to[..lowerBasis + 1]);
        lowerBasis := lowerBasis - 1;
      }
      assert basis[lowerBasis] == BasisOf(a, to[..lowerBasis + 1]);
      basedOn := lowerBasis + 1;
    }

    /** The number of words shared with the n-gram visited last, not counting the last word of `to`. */
    method Overlap(to: Gram) returns (cur: nat)
      requires beenLength <= been.Length && to != []
      ensures cur == NGrams.Min(|to| - 1, CommonPrefix(Been(), to)) <= beenLength
    {
      var overlap := if |to| - 1 < beenLength then |to| - 1 else beenLength;
      cur := 0;
      while cur != overlap && been[cur] == to[cur]
        invariant cur <= overlap && Been()[..cur] == to[..cur]
      {
        cur := cur + 1;
      }
      if cur < overlap || (cur == beenLength && cur < |to|) {
        CommonPrefixIs(Been(), to, cur);
      } else {
        SharedAtLeast(Been(), to, cur);
      }
    }

    /** Emit blanks for the prefixes of `to` from `blank` words on, copying `to` on the way. */
    method EmitBlanks(ghost a: Lm, to: Gram, blank: nat, basedOn: nat) returns (calls: seq<Emission>)
      requires 2 <= blank <= |to| <= been.Length == basis.Length == a.order
      requires been[..blank - 1] == to[..blank - 1] && BasesFit(a, to, basis[..], blank - 1)
      requires 1 <= basedOn < blank && a.Has(to[..basedOn]) && basis[basedOn - 1] == Prob(a.table[to[..basedOn]].prob)
      requires forall j :: blank <= j < |to| ==> !a.Has(to[..j])
      modifies been, basis
      ensures calls == BlanksFrom(a, to, blank, basedOn)
      ensures been[..|to| - 1] == to[..|to| - 1] && BasesFit(a, to, basis[..], |to| - 1)
      ensures basis[|to| - 1] == old(basis[|to| - 1])
    {
      calls := [];
      var cur := blank - 1;
      while cur != |to| - 1
        invariant blank - 1 <= cur <= |to| - 1
        invariant been[..cur] == to[..cur] && BasesFit(a, to, basis[..], cur)
        invariant basis[basedOn - 1] == old(basis[basedOn - 1]) && basis[|to| - 1] == old(basis[|to| - 1])
        invariant calls + BlanksFrom(a, to, cur + 1, basedOn) == BlanksFrom(a, to, blank, basedOn)
      {
        calls := calls + [Blank(to[..cur + 1], basedOn, basis[basedOn - 1].prob)];
        been[cur] := to[cur];
        basis[cur] := Bad;
        cur := cur + 1;
      }
    }

    /** Blanks for the prefixes of `to` of more than `cur` words. */
    method InsertBlanks(ghost a: Lm, to: Gram, cur: nat) returns (calls: seq<Emission>)
      requires been.Length == basis.Length == a.order && 1 <= cur < |to| - 1 < a.order && a.Has([to[0]])
      requires been[..cur] == to[..cur] && BasesFit(a, to, basis[..], cur)
      requires forall k :: cur < k < |to| ==> !a.Has(to[..k])
      modifies been, basis
      ensures been[..|to| - 1] == to[..|to| - 1] && BasesFit(a, to, basis[..], |to| - 1)
      ensures basis[|to| - 1] == old(basis[|to| - 1])
      ensures calls == BlanksFrom(a, to, cur + 1, LongestReal(a, to[..|to| - 1]))
    {
      var basedOn := FindBasis(a, to, cur + 1);
      PrefixOfPrefix(to, |to| - 1);
      LongestRealIs(a, to[..|to| - 1], basedOn);
      calls := EmitBlanks(a, to, cur + 1, basedOn);
    }

    /** Visit the next n-gram of the file: emit blanks for those of its prefixes that are missing. */
    method Visit(ghost a: Lm, to: Gram, prob: real) returns (calls: seq<Emission>)
      requires Valid(a) && 1 <= |to| <= a.order && (a.Has(to) ==> prob == a.table[to].prob)
      requires 1 < |to| ==> a.Has([to[0]]) && 1 <= CommonPrefix(Been(), to)
      requires forall k :: CommonPrefix(Been(), to) < k < |to| ==> !a.Has(to[..k])
      modifies this`beenLength, been, basis
      ensures been.Length == basis.Length == a.order && beenLength <= a.order && Been() == to && (a.Has(to) ==> Valid(a))
      ensures calls == NewBlanks(a, old(Been()), to)
    {
      ghost var was, bases := Been(), basis[..];
      basis[|to| - 1] := Prob(prob);
      assert basis[..] == bases[|to| - 1 := Prob(prob)];
      var cur := Overlap(to);
      SharedBases(a, was, to, bases, Prob(prob), cur);
      hide CommonPrefix, BasesFit, NGrams.Min, LongestReal;
      calls := [];
      if cur < |to| - 1 {
        calls := InsertBlanks(a, to, cur);
      }
      been[|to| - 1] := to[|to| - 1];
      beenLength := |to|;
      LastBase(a, to, basis[..], prob);
      OneWordMore(been[..], to);
    }
  }

  lemma SharedBases(a: Lm, was: Gram, to: Gram, bases: seq<Basis>, last: Basis, cur: nat)
    requires BasesFit(a, was, bases, |was|) && 1 <= |to| <= |bases| && cur == NGrams.Min(|to| - 1, CommonPrefix(was, to))
    ensures cur <= |was| && was[..cur] == to[..cur] && BasesFit(a, to, bases[|to| - 1 := last], cur)
    ensures cur < |to| - 1 ==> cur == CommonPrefix(was, to)
  {
    CommonPrefixFacts(was, to);
    PrefixesAgree(was, to, CommonPrefix(was, to));
  }

  lemma LastBase(a: Lm, to: Gram, bases: seq<Basis>, prob: real)
    requires 1 <= |to| <= |bases| && BasesFit(a, to, bases, |to| - 1) && bases[|to| - 1] == Prob(prob)
    requires a.Has(to) ==> prob == a.table[to].prob
    ensures a.Has(to) ==> BasesFit(a, to, bases, |to|)
  {
    assert to[..|to|] == to;
  }

  lemma OneWordMore(s: Gram, to: Gram)
    requires 1 <= |to| <= |s| && s[..|to| - 1] == to[..|to| - 1] && s[|to| - 1] == to[|to| - 1]
    ensures s[..|to|] == to
  {
    SameWords(s, to, |to| - 1);
  }

  lemma PrefixOfPrefix(g: Gram, n: nat)
    requires n <= |g|
    ensures forall j :: 0 <= j <= n ==> g[..n][..j] == g[..j]
  {
  }

  lemma SharedAtLeast(a: Gram, b: Gram, n: nat)
    requires n <= |a| && n <= |b| && a[..n] == b[..n]
    ensures n <= CommonPrefix(a, b)
  {
    CommonPrefixFacts(a, b);
    SameWords(a, b, n);
  }

  // ----- the merge, as sets and sequences -----

  function LastGram(out: seq<Emission>): Gram {
    if out == [] then [] else out[|out| - 1].gram
  }

  ghost predicate PrefixesEmitted(out: seq<Emission>, g: Gram) {
    forall m :: 1 <= m <= |g| ==> Emitted(out, g[..m])
  }

  ghost predicate Waits(out: seq<Emission>, todo: set<Gram>, g: Gram) {
    g in todo ==> Less(LastGram(out), g)
  }

  ghost predicate VisitedOrWaiting(a: Lm, out: seq<Emission>, todo: set<Gram>, g: Gram) {
    a.Has(g) ==> g in todo || Emitted(out, g)
  }

  /** The calls made so far, when the n-grams `todo` of the file are still to be visited. */
  ghost predicate Merged(a: Lm, out: seq<Emission>, todo: set<Gram>) {
    && Ascending(out)
    && (forall k :: 0 <= k < |out| ==> EmissionOk(a, out[k]) && InClosure(a, out[k].gram) && PrefixesEmitted(out, out[k].gram))
    && (forall g :: g in todo ==> a.Has(g))
    && (forall g :: Waits(out, todo, g))
    && (forall g :: VisitedOrWaiting(a, out, todo, g))
  }

  ghost predicate IsLeast(to: Gram, todo: set<Gram>) {
    to in todo && forall g :: g in todo && g != to ==> Less(to, g)
  }

  function NewCalls(a: Lm, last: Gram, to: Gram): seq<Emission> {
    NewBlanks(a, last, to) + [Real(to)]
  }

  lemma {:induction false} BlanksFromAt(a: Lm, g: Gram, k: nat, lower: nat)
    ensures |BlanksFrom(a, g, k, lower)| == if k < |g| then |g| - k else 0
    ensures forall i :: 0 <= i < |BlanksFrom(a, g, k, lower)| ==>
              BlanksFrom(a, g, k, lower)[i] == Blank(g[..k + i], lower, ProbOf(a, g[..NGrams.Min(lower, |g|)]))
    decreases |g| - k
  {
    if k < |g| {
      BlanksFromAt(a, g, k + 1, lower);
    }
  }

  /** The prefixes of the next n-gram that are in the file have been visited, and are prefixes of the last one. */
  lemma RealPrefixShared(a: Lm, out: seq<Emission>, todo: set<Gram>, to: Gram, k: nat)
    requires Merged(a, out, todo) && IsLeast(to, todo) && 1 <= k < |to| && a.Has(to[..k])
    ensures k <= CommonPrefix(LastGram(out), to)
  {
    var p := to[..k];
    PrefixIsLess(p, to);
    if p in todo {
      LessTransitive(p, to, p);
      LessIrreflexive(p);
      assert false;
    }
    assert VisitedOrWaiting(a, out, todo, p);
    var i :| 0 <= i < |out| && out[i].gram == p;
    assert Waits(out, todo, to);
    BetweenExtends(p, LastGram(out), to);
    assert LastGram(out)[..k] == p;
    SharedAtLeast(LastGram(out), to, k);
  }

  /** What `to` needs to be visited next. */
  lemma VisitPossible(a: Lm, out: seq<Emission>, todo: set<Gram>, to: Gram)
    requires ValidArpa(a) && Merged(a, out, todo) && IsLeast(to, todo)
    ensures 1 <= |to| <= a.order && a.Has([to[0]]) && a.Has(to)
    ensures 1 < |to| ==> 1 <= CommonPrefix(LastGram(out), to)
    ensures CommonPrefix(LastGram(out), to) < |to|
    ensures forall k :: CommonPrefix(LastGram(out), to) < k < |to| ==> !a.Has(to[..k])
  {
    assert LineOk(a, to);
    if 1 < |to| {
      assert to[..1] == [to[0]];
      RealPrefixShared(a, out, todo, to, 1);
    }
    forall k | CommonPrefix(LastGram(out), to) < k < |to|
      ensures !a.Has(to[..k])
    {
      if a.Has(to[..k]) {
        RealPrefixShared(a, out, todo, to, k);
        assert false;
      }
    }
    assert Waits(out, todo, to);
    if CommonPrefix(LastGram(out), to) == |to| {
      NotLessThanPrefix(LastGram(out), to);
      assert false;
    }
  }

  lemma {:induction false} NotLessThanPrefix(g: Gram, p: Gram)
    requires CommonPrefix(g, p) == |p|
    ensures !Less(g, p)
  {
    CommonPrefixFacts(g, p);
    assert g[..|p|] == p[..|p|] == p;
    if p != g {
      PrefixIsLess(p, g);
      if Less(g, p) {
        LessTransitive(p, g, p);
        LessIrreflexive(p);
        assert false;
      }
    } else {
      LessIrreflexive(g);
    }
  }

  lemma NewCallsAt(a: Lm, last: Gram, to: Gram)
    requires to != [] && CommonPrefix(last, to) < |to|
    ensures |NewCalls(a, last, to)| == |to| - CommonPrefix(last, to)
    ensures forall i :: 0 <= i < |NewCalls(a, last, to)| ==> NewCalls(a, last, to)[i].gram == to[..CommonPrefix(last, to) + 1 + i]
    ensures forall i :: 0 <= i < |NewCalls(a, last, to)| - 1 ==>
              var lower := LongestReal(a, to[..|to| - 1]);
              NewCalls(a, last, to)[i]
              == Blank(to[..CommonPrefix(last, to) + 1 + i], lower, ProbOf(a, to[..NGrams.Min(lower, |to|)]))
    ensures NewCalls(a, last, to)[|to| - CommonPrefix(last, to) - 1] == Real(to)
  {
    BlanksFromAt(a, to, CommonPrefix(last, to) + 1, LongestReal(a, to[..|to| - 1]));
  }

  lemma {:induction false} LessAtFork(g: Gram, h: Gram, k: nat)
    requires Less(g, h) && CommonPrefix(g, h) < k <= |h|
    ensures Less(g, h[..k])
  {
    if g != [] && g[0] == h[0] {
      assert h[..k][1..] == h[1..][..k - 1];
      LessAtFork(g[1..], h[1..], k - 1);
    }
  }

  /** An earlier call and one of the calls for the prefixes of `to`. */
  lemma OldBeforeNew(out: seq<Emission>, to: Gram, i: nat, k: nat)
    requires Ascending(out) && Less(LastGram(out), to) && i < |out| && CommonPrefix(LastGram(out), to) < k <= |to|
    ensures Less(out[i].gram, to[..k])
  {
    LessAtFork(LastGram(out), to, k);
    if i < |out| - 1 {
      LessTransitive(out[i].gram, LastGram(out), to[..k]);
    }
  }

  lemma PrefixesAscend(g: Gram, i: nat, j: nat)
    requires i < j <= |g|
    ensures Less(g[..i], g[..j])
  {
    assert g[..i] <= g[..j];
    PrefixIsLess(g[..i], g[..j]);
  }

  lemma NewCallsAscend(a: Lm, last: Gram, to: Gram)
    requires to != [] && CommonPrefix(last, to) < |to|
    ensures Ascending(NewCalls(a, last, to))
  {
    hide Less, NewCalls, CommonPrefix, LongestReal, ProbOf, NGrams.Min;
    var calls, c := NewCalls(a, last, to), CommonPrefix(last, to);
    NewCallsAt(a, last, to);
    forall i, j | 0 <= i < j < |calls|
      ensures Less(calls[i].gram, calls[j].gram)
    {
      assert calls[i].gram == to[..c + 1 + i] && calls[j].gram == to[..c + 1 + j];
      PrefixesAscend(to, c + 1 + i, c + 1 + j);
    }
  }

  lemma AscendingConcat(s: seq<Emission>, s': seq<Emission>)
    requires Ascending(s) && Ascending(s')
    requires forall i, j :: 0 <= i < |s| && 0 <= j < |s'| ==> Less(s[i].gram, s'[j].gram)
    ensures Ascending(s + s')
  {
    hide Less;
  }

  lemma AscendingAppend(a: Lm, out: seq<Emission>, to: Gram)
    requires Ascending(out) && Less(LastGram(out), to) && CommonPrefix(LastGram(out), to) < |to|
    ensures Ascending(out + NewCalls(a, LastGram(out), to))
  {
    hide Less, NewCalls, CommonPrefix, Ascending, LastGram, LongestReal, ProbOf;
    var calls, c := NewCalls(a, LastGram(out), to), CommonPrefix(LastGram(out), to);
    NewCallsAt(a, LastGram(out), to);
    NewCallsAscend(a, LastGram(out), to);
    forall i, j | 0 <= i < |out| && 0 <= j < |calls|
      ensures Less(out[i].gram, calls[j].gram)
    {
      OldBeforeNew(out, to, i, c + 1 + j);
    }
    AscendingConcat(out, calls);
  }

  lemma {:induction false} LongestRealFacts(a: Lm, g: Gram)
    ensures LongestReal(a, g) <= |g| && (a.Has(g[..LongestReal(a, g)]) || LongestReal(a, g) == 0)
    ensures forall j :: LongestReal(a, g) < j <= |g| ==> !a.Has(g[..j])
    decreases |g|
  {
    assert g[..|g|] == g;
    if g != [] && !a.Has(g) {
      LongestRealFacts(a, g[..|g| - 1]);
      PrefixOfPrefix(g, |g| - 1);
    }
  }

  lemma NewCallsOk(a: Lm, out: seq<Emission>, todo: set<Gram>, to: Gram, i: nat)
    requires ValidArpa(a) && Merged(a, out, todo) && IsLeast(to, todo)
    requires i < |NewCalls(a, LastGram(out), to)|
    ensures EmissionOk(a, NewCalls(a, LastGram(out), to)[i]) && InClosure(a, NewCalls(a, LastGram(out), to)[i].gram)
  {
    hide Merged, IsLeast, ValidArpa, NewCalls, CommonPrefix, LongestReal, ProbOf, EmissionOk, LastGram;
    VisitPossible(a, out, todo, to);
    NewCallsAt(a, LastGram(out), to);
    var c := CommonPrefix(LastGram(out), to);
    var k := c + 1 + i;
    assert to[..k] <= to && a.Has(to);
    if k < |to| {
      NewBlankOk(a, to, c, k);
    } else {
      RealIsOk(a, to);
    }
  }

  lemma RealIsOk(a: Lm, g: Gram)
    requires a.Has(g)
    ensures EmissionOk(a, Real(g))
  {
  }

  /** The blanks between the c words shared with the previous n-gram and the next one in the file. */
  lemma NewBlankOk(a: Lm, to: Gram, c: nat, k: nat)
    requires ValidArpa(a) && 1 <= c < k < |to| <= a.order && a.Has([to[0]])
    requires forall m :: c < m < |to| ==> !a.Has(to[..m])
    ensures var lower := LongestReal(a, to[..|to| - 1]);
            EmissionOk(a, Blank(to[..k], lower, ProbOf(a, to[..NGrams.Min(lower, |to|)])))
  {
    hide ValidArpa;
    var h := to[..|to| - 1];
    LongestRealFacts(a, h);
    PrefixOfPrefix(to, |to| - 1);
    var lower := LongestReal(a, h);
    assert to[..1] == [to[0]] && a.Has(to[..1]);
    assert 1 <= lower <= c;
    PrefixOfPrefix(to, k);
    LongestRealIs(a, to[..k], lower);
  }

  lemma NewPrefixesEmitted(a: Lm, out: seq<Emission>, todo: set<Gram>, to: Gram, k: nat)
    requires ValidArpa(a) && Merged(a, out, todo) && IsLeast(to, todo) && 1 <= k <= |to|
    ensures PrefixesEmitted(out + NewCalls(a, LastGram(out), to), to[..k])
  {
    VisitPossible(a, out, todo, to);
    NewCallsAt(a, LastGram(out), to);
    var calls, last := NewCalls(a, LastGram(out), to), LastGram(out);
    var c := CommonPrefix(last, to);
    PrefixOfPrefix(to, k);
    CommonPrefixFacts(last, to);
    forall m | 1 <= m <= k
      ensures Emitted(out + calls, to[..k][..m])
    {
      if m <= c {
        PrefixesAgree(last, to, c);
        assert PrefixesEmitted(out, last);
        var j :| 0 <= j < |out| && out[j].gram == last[..m];
        assert (out + calls)[j].gram == to[..m];
      } else {
        assert (out + calls)[|out| + (m - c - 1)].gram == to[..m];
      }
    }
  }

  lemma EmittedLater(out: seq<Emission>, calls: seq<Emission>, g: Gram)
    requires Emitted(out, g)
    ensures Emitted(out + calls, g)
  {
    var k :| 0 <= k < |out| && out[k].gram == g;
    assert (out + calls)[k].gram == g;
  }

  lemma CallOk(a: Lm, out: seq<Emission>, todo: set<Gram>, to: Gram, k: nat)
    requires ValidArpa(a) && Merged(a, out, todo) && IsLeast(to, todo)
    requires k < |out + NewCalls(a, LastGram(out), to)|
    ensures var all := out + NewCalls(a, LastGram(out), to);
            EmissionOk(a, all[k]) && InClosure(a, all[k].gram) && PrefixesEmitted(all, all[k].gram)
  {
    hide NewCalls, CommonPrefix, IsLeast, ValidArpa, EmissionOk, InClosure, Ascending, Waits, VisitedOrWaiting, Emitted;
    VisitPossible(a, out, todo, to);
    NewCallsAt(a, LastGram(out), to);
    var calls := NewCalls(a, LastGram(out), to);
    if |out| <= k {
      NewCallsOk(a, out, todo, to, k - |out|);
      NewPrefixesEmitted(a, out, todo, to, CommonPrefix(LastGram(out), to) + 1 + (k - |out|));
    } else {
      assert PrefixesEmitted(out, out[k].gram);
      forall m | 1 <= m <= |out[k].gram|
        ensures Emitted(out + calls, out[k].gram[..m])
      {
        EmittedLater(out, calls, out[k].gram[..m]);
      }
    }
  }

  /** Visiting the least n-gram that waits. */
  lemma MergeStep(a: Lm, out: seq<Emission>, todo: set<Gram>, to: Gram)
    requires ValidArpa(a) && Merged(a, out, todo) && IsLeast(to, todo)
    ensures Merged(a, out + NewCalls(a, LastGram(out), to), todo - {to})
    ensures LastGram(out + NewCalls(a, LastGram(out), to)) == to
  {
    VisitPossible(a, out, todo, to);
    NewCallsAt(a, LastGram(out), to);
    assert Waits(out, todo, to);
    AscendingAppend(a, out, to);
    var calls := NewCalls(a, LastGram(out), to);
    var all := out + calls;
    assert all[|all| - 1].gram == to;
    hide EmissionOk, InClosure, PrefixesEmitted, Ascending, NewCalls, Less, CommonPrefix, ValidArpa;
    forall k | 0 <= k < |all|
      ensures EmissionOk(a, all[k]) && InClosure(a, all[k].gram) && PrefixesEmitted(all, all[k].gram)
    {
      CallOk(a, out, todo, to, k);
    }
    forall g
      ensures VisitedOrWaiting(a, all, todo - {to}, g)
    {
      assert VisitedOrWaiting(a, out, todo, g);
      if g != to && Emitted(out, g) {
        EmittedLater(out, calls, g);
      }
    }
  }

  // ----- the sorted streams -----

  ghost predicate InStream(s: seq<Record>, from: nat, g: Gram) {
    exists j :: from <= j < |s| && s[j].gram == g
  }

  ghost predicate RecordOk(a: Lm, r: Record, n: nat) {
    |r.gram| == n && a.Has(r.gram) && r.prob == a.table[r.gram].prob && r.backoff == a.table[r.gram].backoff
  }

  /** The n-grams of order n, in order. */
  ghost predicate StreamOk(a: Lm, s: seq<Record>, n: nat) {
    && (forall i, j :: 0 <= i < j < |s| ==> Less(s[i].gram, s[j].gram))
    && (forall j :: 0 <= j < |s| ==> RecordOk(a, s[j], n))
    && (forall g :: a.Has(g) && |g| == n ==> InStream(s, 0, g))
  }

  ghost predicate StreamsOk(a: Lm, streams: seq<seq<Record>>) {
    |streams| == a.order - 1 && forall n :: 0 <= n < |streams| ==> StreamOk(a, streams[n], n + 2)
  }

  ghost predicate PositionsOk(streams: seq<seq<Record>>, pos: seq<nat>) {
    |pos| == |streams| && forall n :: 0 <= n < |pos| ==> pos[n] <= |streams[n]|
  }

  ghost predicate InTodo(a: Lm, streams: seq<seq<Record>>, pos: seq<nat>, unigram: nat, g: Gram)
    requires |pos| == |streams|
  {
    && a.Has(g)
    && if |g| == 1 then unigram <= g[0] else 2 <= |g| < |streams| + 2 && InStream(streams[|g| - 2], pos[|g| - 2], g)
  }

  ghost function Todo(a: Lm, streams: seq<seq<Record>>, pos: seq<nat>, unigram: nat): set<Gram>
    requires |pos| == |streams|
  {
    set g | g in a.table.Keys && InTodo(a, streams, pos, unigram, g)
  }

  predicate HasHead(streams: seq<seq<Record>>, pos: seq<nat>, order: nat)
    requires |pos| == |streams|
  {
    order == 1 || (2 <= order < |streams| + 2 && pos[order - 2] < |streams[order - 2]|)
  }

  function HeadOf(streams: seq<seq<Record>>, pos: seq<nat>, unigram: nat, order: nat): Gram
    requires |pos| == |streams| && HasHead(streams, pos, order)
  {
    if order == 1 then [unigram] else streams[order - 2][pos[order - 2]].gram
  }

  ghost predicate NotAfter(a: Gram, b: Gram) {
    a == b || Less(a, b)
  }

  /** The order whose next n-gram comes first. */
  method LeastHead(streams: seq<seq<Record>>, pos: seq<nat>, unigram: nat) returns (order: nat)
    requires |pos| == |streams|
    ensures HasHead(streams, pos, order)
    ensures forall n :: HasHead(streams, pos, n) ==> NotAfter(HeadOf(streams, pos, unigram, order), HeadOf(streams, pos, unigram, n))
  {
    order := 1;
    for n := 2 to |streams| + 2
      invariant HasHead(streams, pos, order)
      invariant forall m: nat :: m < n && HasHead(streams, pos, m) ==>
                  NotAfter(HeadOf(streams, pos, unigram, order), HeadOf(streams, pos, unigram, m))
    {
      if HasHead(streams, pos, n) {
        var head, top := HeadOf(streams, pos, unigram, n), HeadOf(streams, pos, unigram, order);
        LessTotal(head, top);
        if Less(head, top) {
          forall m: nat | m < n && HasHead(streams, pos, m)
            ensures NotAfter(head, HeadOf(streams, pos, unigram, m))
          {
            NotAfterTransitive(head, top, HeadOf(streams, pos, unigram, m));
          }
          order := n;
        }
      }
    }
  }

  lemma NotAfterTransitive(a: Gram, b: Gram, c: Gram)
    requires NotAfter(a, b) && NotAfter(b, c)
    ensures NotAfter(a, c)
  {
    if Less(a, b) && Less(b, c) {
      LessTransitive(a, b, c);
    }
  }

  /** A head that comes before all other heads comes before everything that waits. */
  lemma HeadIsFirst(a: Lm, streams: seq<seq<Record>>, pos: seq<nat>, unigram: nat, to: Gram, g: Gram)
    requires StreamsOk(a, streams) && PositionsOk(streams, pos)
    requires forall n :: HasHead(streams, pos, n) ==> NotAfter(to, HeadOf(streams, pos, unigram, n))
    requires g in Todo(a, streams, pos, unigram)
    ensures NotAfter(to, g)
  {
    if |g| == 1 {
      assert HasHead(streams, pos, 1) && HeadOf(streams, pos, unigram, 1) == [unigram];
      assert g == [g[0]];
      NotAfterTransitive(to, [unigram], g);
    } else {
      var s, p := streams[|g| - 2], pos[|g| - 2];
      var j :| p <= j < |s| && s[j].gram == g;
      assert StreamOk(a, s, |g|);
      assert HasHead(streams, pos, |g|) && HeadOf(streams, pos, unigram, |g|) == s[p].gram;
      NotAfterTransitive(to, s[p].gram, g);
    }
  }

  /** The next n-gram is the least that waits; taking it leaves the others. */
  lemma HeadIsLeast(a: Lm, streams: seq<seq<Record>>, pos: seq<nat>, unigram: nat, order: nat)
    requires ValidArpa(a) && StreamsOk(a, streams) && PositionsOk(streams, pos) && HasHead(streams, pos, order)
    requires forall n :: HasHead(streams, pos, n) ==> NotAfter(HeadOf(streams, pos, unigram, order), HeadOf(streams, pos, unigram, n))
    requires order != 1 || unigram < a.bound
    ensures IsLeast(HeadOf(streams, pos, unigram, order), Todo(a, streams, pos, unigram))
    ensures order == 1 ==> Todo(a, streams, pos, unigram + 1) == Todo(a, streams, pos, unigram) - {[unigram]}
    ensures order != 1 ==>
              Todo(a, streams, pos[order - 2 := pos[order - 2] + 1], unigram)
              == Todo(a, streams, pos, unigram) - {HeadOf(streams, pos, unigram, order)}
  {
    hide StreamOk, InStream, Less, InTodo;
    HeadInTodo(a, streams, pos, unigram, order);
    var to, todo := HeadOf(streams, pos, unigram, order), Todo(a, streams, pos, unigram);
    forall g | g in todo && g != to
      ensures Less(to, g)
    {
      HeadIsFirst(a, streams, pos, unigram, to, g);
    }
    if order == 1 {
      UnigramTaken(a, streams, pos, unigram);
    } else {
      HeadTaken(a, streams, pos, unigram, order);
    }
  }

  lemma HeadInTodo(a: Lm, streams: seq<seq<Record>>, pos: seq<nat>, unigram: nat, order: nat)
    requires ValidArpa(a) && StreamsOk(a, streams) && PositionsOk(streams, pos) && HasHead(streams, pos, order)
    requires order != 1 || unigram < a.bound
    ensures HeadOf(streams, pos, unigram, order) in Todo(a, streams, pos, unigram)
  {
    if order != 1 {
      assert StreamOk(a, streams[order - 2], order);
      var to := HeadOf(streams, pos, unigram, order);
      assert RecordOk(a, streams[order - 2][pos[order - 2]], order);
      assert InStream(streams[order - 2], pos[order - 2], to);
    }
  }

  lemma UnigramTaken(a: Lm, streams: seq<seq<Record>>, pos: seq<nat>, unigram: nat)
    requires |pos| == |streams|
    ensures Todo(a, streams, pos, unigram + 1) == Todo(a, streams, pos, unigram) - {[unigram]}
  {
    hide InStream;
    forall g
      ensures g in Todo(a, streams, pos, unigram + 1) <==> g in Todo(a, streams, pos, unigram) && g != [unigram]
    {
      if |g| == 1 {
        assert g == [g[0]];
      }
    }
  }

  lemma HeadTaken(a: Lm, streams: seq<seq<Record>>, pos: seq<nat>, unigram: nat, order: nat)
    requires StreamsOk(a, streams) && PositionsOk(streams, pos) && HasHead(streams, pos, order) && 2 <= order
    ensures Todo(a, streams, pos[order - 2 := pos[order - 2] + 1], unigram)
            == Todo(a, streams, pos, unigram) - {HeadOf(streams, pos, unigram, order)}
  {
    hide InStream, Less;
    var to, todo := HeadOf(streams, pos, unigram, order), Todo(a, streams, pos, unigram);
    var s, p := streams[order - 2], pos[order - 2];
    var pos' := pos[order - 2 := p + 1];
    assert StreamOk(a, s, order) && RecordOk(a, s[p], order);
    forall g
      ensures g in Todo(a, streams, pos', unigram) <==> g in todo && g != to
    {
      if |g| == order {
        StreamMoves(s, p, g);
      }
    }
  }

  lemma StreamMoves(s: seq<Record>, p: nat, g: Gram)
    requires p < |s| && forall i, j :: 0 <= i < j < |s| ==> Less(s[i].gram, s[j].gram)
    ensures InStream(s, p + 1, g) <==> InStream(s, p, g) && g != s[p].gram
  {
    hide Less;
    LessIrreflexive(s[p].gram);
    if InStream(s, p + 1, g) {
      var j :| p + 1 <= j < |s| && s[j].gram == g;
      assert Less(s[p].gram, s[j].gram);
    }
  }

  /** When the unigram past the last comes first, nothing waits any more. */
  lemma NothingWaits(a: Lm, streams: seq<seq<Record>>, pos: seq<nat>)
    requires ValidArpa(a) && StreamsOk(a, streams) && PositionsOk(streams, pos)
    requires forall n :: HasHead(streams, pos, n) ==> NotAfter([a.bound], HeadOf(streams, pos, a.bound, n))
    ensures Todo(a, streams, pos, a.bound) == {}
  {
    forall g
      ensures g !in Todo(a, streams, pos, a.bound)
    {
      if g in Todo(a, streams, pos, a.bound) {
        FileBeforeEnd(a, g);
        HeadIsFirst(a, streams, pos, a.bound, [a.bound], g);
        assert false;
      }
    }
  }

  lemma FileBeforeEnd(a: Lm, g: Gram)
    requires ValidArpa(a) && a.Has(g)
    ensures !NotAfter([a.bound], g)
  {
    assert LineOk(a, g);
    assert g[0] < a.bound == [a.bound][0];
  }

  /** All calls of a complete merge: the closure of the file, and the unigram past the last. */
  ghost predicate Finished(a: Lm, out: seq<Emission>) {
    out != [] && out[|out| - 1] == Real([a.bound]) && Merged(a, out[..|out| - 1], {})
  }

  lemma NothingYet(a: Lm, streams: seq<seq<Record>>, pos: seq<nat>)
    requires ValidArpa(a) && StreamsOk(a, streams) && |pos| == |streams| && forall n :: 0 <= n < |pos| ==> pos[n] == 0
    ensures Merged(a, [], Todo(a, streams, pos, 0)) && |streams| + 1 == a.order
  {
    forall g
      ensures Waits([], Todo(a, streams, pos, 0), g)
    {
      assert LineOk(a, g);
    }
    forall g
      ensures VisitedOrWaiting(a, [], Todo(a, streams, pos, 0), g)
    {
      if a.Has(g) {
        assert LineOk(a, g);
        if |g| != 1 {
          assert StreamOk(a, streams[|g| - 2], |g|);
          assert InStream(streams[|g| - 2], pos[|g| - 2], g);
        }
        assert InTodo(a, streams, pos, 0, g);
      }
    }
  }

  function NextPositions(pos: seq<nat>, order: nat): seq<nat>
    requires order == 1 || 2 <= order < |pos| + 2
  {
    if order == 1 then pos else pos[order - 2 := pos[order - 2] + 1]
  }

  function NextUnigram(unigram: nat, order: nat): nat {
    if order == 1 then unigram + 1 else unigram
  }

  function ProbAt(streams: seq<seq<Record>>, pos: seq<nat>, unigramProbs: seq<real>, unigram: nat, order: nat): real
    requires |pos| == |streams| && HasHead(streams, pos, order) && unigram < |unigramProbs|
  {
    if order == 1 then unigramProbs[unigram] else streams[order - 2][pos[order - 2]].prob
  }

  lemma HeadFacts(a: Lm, streams: seq<seq<Record>>, pos: seq<nat>, unigramProbs: seq<real>, unigram: nat, order: nat)
    requires ValidArpa(a) && StreamsOk(a, streams) && PositionsOk(streams, pos) && HasHead(streams, pos, order)
    requires unigram < |unigramProbs| && (order == 1 ==> unigram < a.bound)
    requires forall w :: 0 <= w < a.bound && w < |unigramProbs| && a.Has([w]) ==> unigramProbs[w] == a.table[[w]].prob
    ensures var to := HeadOf(streams, pos, unigram, order);
            a.Has(to) && ProbAt(streams, pos, unigramProbs, unigram, order) == a.table[to].prob
    ensures PositionsOk(streams, NextPositions(pos, order))
  {
    hide ValidArpa, Less, InStream;
    if order != 1 {
      assert StreamOk(a, streams[order - 2], order);
    } else {
      WordsIn(a, unigram);
    }
  }

  lemma WordsIn(a: Lm, w: Word)
    requires ValidArpa(a) && w < a.bound
    ensures a.Has([w])
  {
  }

  /** One round of the merge. */
  lemma TakeHead(a: Lm, streams: seq<seq<Record>>, pos: seq<nat>, unigram: nat, order: nat, out: seq<Emission>)
    requires ValidArpa(a) && StreamsOk(a, streams) && PositionsOk(streams, pos) && HasHead(streams, pos, order)
    requires forall n :: HasHead(streams, pos, n) ==> NotAfter(HeadOf(streams, pos, unigram, order), HeadOf(streams, pos, unigram, n))
    requires order == 1 ==> unigram < a.bound
    requires Merged(a, out, Todo(a, streams, pos, unigram))
    ensures var to := HeadOf(streams, pos, unigram, order);
            && 1 <= |to| <= a.order && (1 < |to| ==> a.Has([to[0]]) && 1 <= CommonPrefix(LastGram(out), to))
            && (forall k :: CommonPrefix(LastGram(out), to) < k < |to| ==> !a.Has(to[..k]))
            && Merged(a, out + NewCalls(a, LastGram(out), to), Todo(a, streams, NextPositions(pos, order), NextUnigram(unigram, order)))
            && LastGram(out + NewCalls(a, LastGram(out), to)) == to
    ensures Todo(a, streams, NextPositions(pos, order), NextUnigram(unigram, order)) < Todo(a, streams, pos, unigram)
  {
    hide Todo, Merged, CommonPrefix, NewCalls, LastGram, ValidArpa, StreamsOk, NotAfter;
    var to := HeadOf(streams, pos, unigram, order);
    HeadIsLeast(a, streams, pos, unigram, order);
    MergeStep(a, out, Todo(a, streams, pos, unigram), to);
    VisitPossible(a, out, Todo(a, streams, pos, unigram), to);
  }

  /** Visit the next n-gram; the calls are those for its missing prefixes and for itself. */
  method VisitHead(ghost a: Lm, streams: seq<seq<Record>>, pos: seq<nat>, unigramProbs: seq<real>, unigram: nat, order: nat,
                   blank: BlankManager, ghost out: seq<Emission>)
    returns (calls: seq<Emission>)
    requires ValidArpa(a) && StreamsOk(a, streams) && PositionsOk(streams, pos) && HasHead(streams, pos, order)
    requires forall n :: HasHead(streams, pos, n) ==> NotAfter(HeadOf(streams, pos, unigram, order), HeadOf(streams, pos, unigram, n))
    requires unigram < |unigramProbs| && (order == 1 ==> unigram < a.bound)
    requires forall w :: 0 <= w < a.bound && w < |unigramProbs| && a.Has([w]) ==> unigramProbs[w] == a.table[[w]].prob
    requires Merged(a, out, Todo(a, streams, pos, unigram)) && blank.Valid(a) && blank.Been() == LastGram(out)
    modifies blank, blank.been, blank.basis
    ensures PositionsOk(streams, NextPositions(pos, order))
    ensures Merged(a, out + calls, Todo(a, streams, NextPositions(pos, order), NextUnigram(unigram, order)))
    ensures Todo(a, streams, NextPositions(pos, order), NextUnigram(unigram, order)) < Todo(a, streams, pos, unigram)
    ensures blank.Valid(a) && blank.Been() == LastGram(out + calls)
  {
    var to := HeadOf(streams, pos, unigram, order);
    HeadFacts(a, streams, pos, unigramProbs, unigram, order);
    TakeHead(a, streams, pos, unigram, order, out);
    hide ValidArpa, StreamsOk, Merged, Todo, NewBlanks, CommonPrefix, NotAfter, Less, ProbAt, BasesFit, LongestReal;
    calls := blank.Visit(a, to, ProbAt(streams, pos, unigramProbs, unigram, order));
    calls := calls + [Real(to)];
  }

  method RecursiveInsert(ghost a: Lm, streams: seq<seq<Record>>, unigramProbs: seq<real>) returns (out: seq<Emission>)
    requires ValidArpa(a) && StreamsOk(a, streams)
    requires |unigramProbs| == a.bound + 1
    requires forall w :: 0 <= w < a.bound && w < |unigramProbs| && a.Has([w]) ==> unigramProbs[w] == a.table[[w]].prob
    ensures Finished(a, out)
  {
    var unigram: nat := 0;
    var unigramCount := |unigramProbs| - 1;
    var pos := seq(|streams|, _ => 0);
    var blank := new BlankManager(|streams| + 1);
    out := [];
    NothingYet(a, streams, pos);
    hide ValidArpa, StreamsOk, Merged, Todo, NotAfter, Less, LastGram;
    while true
      invariant unigram <= a.bound && PositionsOk(streams, pos) && fresh(blank) && fresh(blank.been) && fresh(blank.basis)
      invariant Merged(a, out, Todo(a, streams, pos, unigram))
      invariant blank.Valid(a) && blank.Been() == LastGram(out)
      decreases Todo(a, streams, pos, unigram)
    {
      var order := LeastHead(streams, pos, unigram);
      if order == 1 && unigram == unigramCount {
        NothingWaits(a, streams, pos);
        out := out + [Real([unigram])];
        break;
      }
      var calls := VisitHead(a, streams, pos, unigramProbs, unigram, order, blank, out);
      out := out + calls;
      pos, unigram := NextPositions(pos, order), NextUnigram(unigram, order);
    }
  }

  // ----- what a complete merge has emitted -----

  lemma EmittedIffClosure(a: Lm, out: seq<Emission>, g: Gram)
    requires Finished(a, out)
    ensures Emitted(out, g) <==> InClosure(a, g) || g == [a.bound]
  {
    var body := out[..|out| - 1];
    assert out == body + [Real([a.bound])] && out[|out| - 1].gram == [a.bound];
    if Emitted(out, g) {
      var k :| 0 <= k < |out| && out[k].gram == g;
      assert k < |body| ==> body[k] == out[k];
    }
    if InClosure(a, g) {
      var x :| a.Has(x) && g <= x;
      assert VisitedOrWaiting(a, body, {}, x);
      var k :| 0 <= k < |body| && body[k].gram == x;
      assert PrefixesEmitted(body, body[k].gram);
      assert g == x[..|g|];
      EmittedLater(body, [Real([a.bound])], g);
    }
  }

  lemma FinishedAscends(a: Lm, out: seq<Emission>)
    requires ValidArpa(a) && Finished(a, out)
    ensures Ascending(out)
  {
    var body := out[..|out| - 1];
    forall i | 0 <= i < |body|
      ensures Less(body[i].gram, [a.bound])
    {
      assert InClosure(a, body[i].gram);
      var x :| a.Has(x) && body[i].gram <= x;
      assert LineOk(a, x);
      assert body[i].gram[0] == x[0] < a.bound;
    }
    assert out == body + [Real([a.bound])];
    hide Less;
    AscendingConcat(body, [Real([a.bound])]);
  }

  /** The parent of every n-gram is emitted before it. */
  ghost predicate ParentBefore(out: seq<Emission>, k: nat)
    requires k < |out|
  {
    && 1 <= |out[k].gram|
    && (1 < |out[k].gram| ==> exists j :: 0 <= j < k && out[j].gram == out[k].gram[..|out[k].gram| - 1])
  }

  /** Parents first, and in lexicographic order. */
  ghost predicate PreOrder(out: seq<Emission>) {
    Ascending(out) && forall k :: 0 <= k < |out| ==> ParentBefore(out, k)
  }

  lemma FinishedIsPreOrder(a: Lm, out: seq<Emission>)
    requires ValidArpa(a) && Finished(a, out)
    ensures PreOrder(out)
  {
    FinishedAscends(a, out);
    var body := out[..|out| - 1];
    forall k | 0 <= k < |out|
      ensures ParentBefore(out, k)
    {
      if k < |body| {
        var g := body[k].gram;
        assert InClosure(a, g) && PrefixesEmitted(body, g);
        if 1 < |g| {
          var p := g[..|g| - 1];
          assert Emitted(body, p);
          var j :| 0 <= j < |body| && body[j].gram == p;
          PrefixIsLess(p, g);
          LessAsymmetric(out, k, j);
        }
      }
    }
  }

  lemma LessAsymmetric(out: seq<Emission>, k: nat, j: nat)
    requires Ascending(out) && k < |out| && j < |out| && Less(out[j].gram, out[k].gram)
    ensures j < k
  {
    LessIrreflexive(out[j].gram);
    if k < j {
      LessTransitive(out[j].gram, out[k].gram, out[j].gram);
      assert false;
    }
  }

  /** Every call is determined by its n-gram, so both passes over the file make the same calls. */
  lemma FinishedUnique(a: Lm, out: seq<Emission>, out': seq<Emission>)
    requires ValidArpa(a) && Finished(a, out) && Finished(a, out')
    ensures out == out'
  {
    FinishedAscends(a, out);
    FinishedAscends(a, out');
    forall g
      ensures Emitted(out, g) <==> Emitted(out', g)
    {
      EmittedIffClosure(a, out, g);
      EmittedIffClosure(a, out', g);
    }
    SameGrams(out, out');
    forall k | 0 <= k < |out|
      ensures out[k] == out'[k]
    {
      assert k < |out| - 1 ==> out[..|out| - 1][k] == out[k] && out'[..|out'| - 1][k] == out'[k];
    }
  }

  /** Two ascending sequences over the same n-grams. */
  lemma {:induction false} SameGrams(s: seq<Emission>, s': seq<Emission>)
    requires Ascending(s) && Ascending(s')
    requires forall g :: Emitted(s, g) <==> Emitted(s', g)
    ensures |s| == |s'| && forall k :: 0 <= k < |s| ==> s[k].gram == s'[k].gram
    decreases |s|
  {
    if s == [] {
      if s' != [] {
        assert Emitted(s', s'[0].gram);
        assert false;
      }
    } else {
      assert Emitted(s, s[|s| - 1].gram) && Emitted(s, LastGram(s)) && Emitted(s', LastGram(s));
      assert Emitted(s', LastGram(s')) by {
        assert s' != [] && s'[|s'| - 1].gram == LastGram(s');
      }
      LastIsGreatest(s, LastGram(s'));
      LastIsGreatest(s', LastGram(s));
      NotAfterAntisymmetric(LastGram(s), LastGram(s'));
      var r, r' := s[..|s| - 1], s'[..|s'| - 1];
      forall g
        ensures Emitted(r, g) <==> Emitted(r', g)
      {
        WithoutLast(s, g);
        WithoutLast(s', g);
      }
      SameGrams(r, r');
    }
  }

  lemma NotAfterAntisymmetric(a: Gram, b: Gram)
    requires NotAfter(a, b) && NotAfter(b, a)
    ensures a == b
  {
    if Less(a, b) && Less(b, a) {
      LessTransitive(a, b, a);
      LessIrreflexive(a);
      assert false;
    }
  }

  lemma LastIsGreatest(s: seq<Emission>, g: Gram)
    requires Ascending(s) && Emitted(s, g)
    ensures NotAfter(g, LastGram(s))
  {
    var k :| 0 <= k < |s| && s[k].gram == g;
  }

  lemma WithoutLast(s: seq<Emission>, g: Gram)
    requires Ascending(s) && s != []
    ensures Emitted(s[..|s| - 1], g) <==> Emitted(s, g) && g != LastGram(s)
  {
    LessIrreflexive(g);
    if Emitted(s, g) && g != LastGram(s) {
      var k :| 0 <= k < |s| && s[k].gram == g;
      assert s[..|s| - 1][k].gram == g;
    }
    if Emitted(s[..|s| - 1], g) {
      var k :| 0 <= k < |s| - 1 && s[..|s| - 1][k].gram == g;
      assert s[k].gram == g;
    }
  }
}
