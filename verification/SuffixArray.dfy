/** The suffix array of a corpus: sorting the positions by what follows them, and counting a phrase by bisection. */
module SuffixArray {

  /** Words by their place in the vocabulary's order. */
  type Word = nat

  // ----- the order of suffixes -----

  /** What follows position a comes before what follows b; the end of the corpus comes before every word. */
  ghost predicate Follows(corpus: seq<Word>, a: nat, b: nat)
    decreases |corpus| - a
  {
    a <= |corpus| && b < |corpus| && (a == |corpus| || corpus[a] < corpus[b] || (corpus[a] == corpus[b] && Follows(corpus, a + 1, b + 1)))
  }

  lemma {:induction false} FollowsTransitive(corpus: seq<Word>, a: nat, b: nat, c: nat)
    requires a <= |corpus| && b <= |corpus| && c <= |corpus| && Follows(corpus, a, b) && Follows(corpus, b, c)
    ensures Follows(corpus, a, c)
    decreases |corpus| - a
  {
    if a < |corpus| && corpus[a] == corpus[b] == corpus[c] {
      FollowsTransitive(corpus, a + 1, b + 1, c + 1);
    }
  }

  /** Different positions have different suffixes. */
  lemma {:induction false} FollowsTotal(corpus: seq<Word>, a: nat, b: nat)
    requires a <= |corpus| && b <= |corpus| && a != b
    ensures Follows(corpus, a, b) <==> !Follows(corpus, b, a)
    decreases |corpus| - a
  {
    if a < |corpus| && b < |corpus| && corpus[a] == corpus[b] {
      FollowsTotal(corpus, a + 1, b + 1);
    }
  }

  /** Skips identical words and compares the first that differ; negative if what follows a comes first. */
  method CompareIndex(corpus: seq<Word>, a: nat, b: nat) returns (c: int)
    requires a < |corpus| && b < |corpus| && a != b
    ensures c < 0 <==> Follows(corpus, a, b)
  {
    var offset := 0;
    while a + offset < |corpus| && b + offset < |corpus| && corpus[a + offset] == corpus[b + offset]
      invariant a + offset <= |corpus| && b + offset <= |corpus|
      invariant Follows(corpus, a, b) <==> Follows(corpus, a + offset, b + offset)
      decreases |corpus| - offset
    {
      offset := offset + 1;
    }
    if a + offset == |corpus| {
      return -1;
    }
    if b + offset == |corpus| {
      return 1;
    }
    c := corpus[a + offset] as int - corpus[b + offset] as int;
  }

  // ----- merge sort -----

  ghost predicate InCorpus(corpus: seq<Word>, s: seq<nat>) {
    forall i :: 0 <= i < |s| ==> s[i] < |corpus|
  }

  ghost predicate SuffixSorted(corpus: seq<Word>, s: seq<nat>) {
    forall i, j :: 0 <= i < j < |s| ==> Follows(corpus, s[i], s[j])
  }

  ghost predicate NoneTwice(s: seq<nat>) {
    forall i, j :: 0 <= i < j < |s| ==> s[i] != s[j]
  }

  ghost predicate NoneMissing(corpus: seq<Word>, s: seq<nat>) {
    forall pos :: 0 <= pos < |corpus| ==> pos in s
  }

  ghost function Merge(corpus: seq<Word>, s: seq<nat>, t: seq<nat>): seq<nat> {
    if s == [] then t else if t == [] then s
    else if Follows(corpus, s[0], t[0]) then [s[0]] + Merge(corpus, s[1..], t) else [t[0]] + Merge(corpus, s, t[1..])
  }

  lemma {:induction false} MergeMembers(corpus: seq<Word>, s: seq<nat>, t: seq<nat>)
    ensures multiset(Merge(corpus, s, t)) == multiset(s) + multiset(t) && |Merge(corpus, s, t)| == |s| + |t|
    ensures forall x :: x in Merge(corpus, s, t) <==> x in s || x in t
  {
    if s != [] && t != [] {
      assert s == [s[0]] + s[1..] && t == [t[0]] + t[1..];
      if Follows(corpus, s[0], t[0]) {
        MergeMembers(corpus, s[1..], t);
      } else {
        MergeMembers(corpus, s, t[1..]);
      }
    }
  }

  ghost predicate AllAfter(corpus: seq<Word>, a: nat, s: seq<nat>) {
    forall x :: x in s ==> Follows(corpus, a, x)
  }

  lemma {:induction false} MergeSorts(corpus: seq<Word>, s: seq<nat>, t: seq<nat>)
    requires InCorpus(corpus, s) && InCorpus(corpus, t) && SuffixSorted(corpus, s) && SuffixSorted(corpus, t)
    requires forall x :: x in s ==> x !in t
    ensures SuffixSorted(corpus, Merge(corpus, s, t))
  {
    MergeMembers(corpus, s, t);
    if s != [] && t != [] {
      assert s[0] in s && t[0] in t;
      if Follows(corpus, s[0], t[0]) {
        MergeMembers(corpus, s[1..], t);
        MergeSorts(corpus, s[1..], t);
        FirstBeforeAll(corpus, s, t);
        PrependSorted(corpus, s[0], Merge(corpus, s[1..], t));
      } else {
        FollowsTotal(corpus, s[0], t[0]);
        MergeMembers(corpus, s, t[1..]);
        MergeSorts(corpus, s, t[1..]);
        FirstBeforeAll(corpus, t, s);
        PrependSorted(corpus, t[0], Merge(corpus, s, t[1..]));
      }
    }
  }

  /** The first of s comes before the rest of s and, if before the first of t, before all of t. */
  lemma FirstBeforeAll(corpus: seq<Word>, s: seq<nat>, t: seq<nat>)
    requires InCorpus(corpus, s) && InCorpus(corpus, t) && SuffixSorted(corpus, s) && SuffixSorted(corpus, t)
    requires s != [] && t != [] && Follows(corpus, s[0], t[0])
    ensures AllAfter(corpus, s[0], s[1..]) && AllAfter(corpus, s[0], t)
  {
    forall x | x in t
      ensures Follows(corpus, s[0], x)
    {
      var j :| 0 <= j < |t| && t[j] == x;
      if 0 < j {
        FollowsTransitive(corpus, s[0], t[0], x);
      }
    }
  }

  lemma PrependSorted(corpus: seq<Word>, a: nat, s: seq<nat>)
    requires SuffixSorted(corpus, s) && AllAfter(corpus, a, s)
    ensures SuffixSorted(corpus, [a] + s)
  {
  }

  ghost function Occurrences(corpus: seq<Word>, phrase: seq<Word>): set<nat> {
    set pos | 0 <= pos < |corpus| && OccursAt(corpus, phrase, pos)
  }

  /** The positions at which the comparison finds no difference. */
  ghost function Found(corpus: seq<Word>, phrase: seq<Word>): set<nat> {
    set pos | 0 <= pos < |corpus| && Match(corpus, phrase, pos) == 0
  }

  /** They are the occurrences exactly if the corpus never ends in the middle of the phrase; otherwise there are too many. */
  lemma FoundAreOccurrencesIff(corpus: seq<Word>, phrase: seq<Word>)
    ensures Found(corpus, phrase) == Occurrences(corpus, phrase) <==> NeverRunsOut(corpus, phrase)
    ensures |Found(corpus, phrase)| == |Occurrences(corpus, phrase)| <==> NeverRunsOut(corpus, phrase)
  {
    var found, occurrences := Found(corpus, phrase), Occurrences(corpus, phrase);
    forall pos: nat | pos < |corpus|
      ensures pos in found <==> pos in occurrences || RunsOut(corpus, phrase, pos)
      ensures !(pos in occurrences && RunsOut(corpus, phrase, pos))
    {
      MatchIs(corpus, phrase, pos);
    }
    FewerInSubset(occurrences, found);
  }

  lemma FewerInSubset(a: set<nat>, b: set<nat>)
    requires a <= b
    ensures |a| == |b| <==> a == b
  {
    assert b == a + (b - a);
  }

  ghost function PlacesIn(s: seq<nat>, lo: nat, hi: nat): set<nat>
    requires lo <= hi <= |s|
  {
    set i | lo <= i < hi :: s[i]
  }

  lemma {:induction false} PlacesCount(s: seq<nat>, lo: nat, hi: nat)
    requires NoneTwice(s) && lo <= hi <= |s|
    ensures |PlacesIn(s, lo, hi)| == hi - lo
  {
    if lo < hi {
      PlacesCount(s, lo, hi - 1);
      assert PlacesIn(s, lo, hi) == PlacesIn(s, lo, hi - 1) + {s[hi - 1]};
    }
  }

  /** What the merge of two runs still has to write. */
  ghost function Rest(corpus: seq<Word>, s: seq<nat>, i: nat, mid: nat, j: nat, end: nat): seq<nat>
    requires i <= mid <= j <= end <= |s|
  {
    Merge(corpus, s[i..mid], s[j..end])
  }

  ghost predicate SortedRun(corpus: seq<Word>, s: seq<nat>, start: nat, end: nat) {
    start <= end <= |s| && SuffixSorted(corpus, s[start..end])
  }

  /** s' is s with the runs from start to mid and from mid to end merged. */
  ghost predicate MergedAt(corpus: seq<Word>, s: seq<nat>, s': seq<nat>, start: nat, mid: nat, end: nat) {
    start <= mid <= end <= |s| && s' == s[..start] + Merge(corpus, s[start..mid], s[mid..end]) + s[end..]
  }

  class Index {
    const corpus: seq<Word>
    const index: array<nat>
    const buffer: array<nat>

    constructor (corpus: seq<Word>)
      requires corpus != []
      ensures this.corpus == corpus && index.Length == buffer.Length == |corpus| && index != buffer
      ensures forall i :: 0 <= i < |corpus| ==> index[i] == i
      ensures fresh(index) && fresh(buffer)
    {
      this.corpus := corpus;
      var n := |corpus|;
      index := new nat[n](i => i);
      buffer := new nat[n](_ => 0);
    }

    ghost predicate Valid()
      reads index
    {
      && index.Length == buffer.Length == |corpus| && index != buffer
      && InCorpus(corpus, index[..]) && NoneTwice(index[..]) && NoneMissing(corpus, index[..])
    }

    /** Sorts the places from start to end by their suffixes. */
    method Sort(start: nat, end: nat)
      requires start <= end < index.Length && Valid()
      modifies index, buffer
      ensures Valid() && Rearranged(old(index[..]), index[..], start, end + 1) && SortedRun(corpus, index[..], start, end + 1)
      decreases end - start
    {
      hide Merge, SuffixSorted, SortedRun, MergedAt, Rearranged, NoneTwice, InCorpus, NoneMissing;
      if start == end {
        OneIsSorted(corpus, index[..], start);
        return;
      }
      var mid := (start + end + 1) / 2;
      ghost var s0 := index[..];
      Sort(start, mid - 1);
      ghost var s1 := index[..];
      Sort(mid, end);
      ghost var s2 := index[..];
      TwoHalves(corpus, s0, s1, s2, start, mid, end + 1);
      MergeHalves(start, mid, end);
      Merged(corpus, s0, s2, index[..], start, mid, end + 1);
    }

    /** Merges two neighbouring sorted runs through the buffer. */
    method MergeHalves(start: nat, mid: nat, end: nat)
      requires start < mid <= end < index.Length && Valid()
      modifies index, buffer
      ensures MergedAt(corpus, old(index[..]), index[..], start, mid, end + 1)
    {
      hide Merge, NoneTwice, InCorpus, NoneMissing;
      FillBuffer(start, mid, end);
      CopyBack(start, end - start + 1);
    }

    method FillBuffer(start: nat, mid: nat, end: nat)
      requires start < mid <= end < index.Length && Valid()
      modifies buffer
      ensures buffer[..end - start + 1] == Rest(corpus, index[..], start, mid, mid, end + 1)
    {
      var i, j, k := start, mid, 0;
      var length := end - start + 1;
      hide Rest, NoneTwice, InCorpus, NoneMissing;
      while k < length
        invariant start <= i <= mid <= j <= end + 1 && k == i - start + j - mid && k <= length
        invariant buffer[..k] + Rest(corpus, index[..], i, mid, j, end + 1) == Rest(corpus, index[..], start, mid, mid, end + 1)
      {
        i, j := TakeNext(k, i, mid, j, end);
        k := k + 1;
      }
      MergeNothing(corpus, index[..], mid, end + 1);
    }

    /** The next place goes to the buffer. */
    method TakeNext(k: nat, i: nat, mid: nat, j: nat, end: nat) returns (i': nat, j': nat)
      requires Valid() && i <= mid <= j <= end + 1 <= index.Length && (i < mid || j <= end) && k < buffer.Length
      modifies buffer
      ensures i <= i' <= mid && j <= j' <= end + 1 && i' + j' == i + j + 1
      ensures buffer[..k + 1] + Rest(corpus, index[..], i', mid, j', end + 1) == old(buffer[..k]) + Rest(corpus, index[..], i, mid, j, end + 1)
    {
      ghost var s, out := index[..], buffer[..k];
      var left := i < mid;
      if i < mid && j <= end {
        TwoPositions(corpus, s, i, j);
        var c := CompareIndex(corpus, index[i], index[j]);
        left := c < 0;
      }
      MergeStep(corpus, s, out, i, mid, j, end + 1, left);
      hide Rest, NoneTwice, InCorpus, NoneMissing, Follows;
      i', j' := i, j;
      if left {
        buffer[k] := index[i];
        i' := i + 1;
        assert buffer[..k + 1] == out + [s[i]];
      } else {
        buffer[k] := index[j];
        j' := j + 1;
        assert buffer[..k + 1] == out + [s[j]];
      }
    }

    method CopyBack(start: nat, length: nat)
      requires start + length <= index.Length == buffer.Length && index != buffer
      modifies index
      ensures index[..] == old(index[..start]) + buffer[..length] + old(index[start + length..])
    {
      for k := 0 to length
        invariant forall l :: 0 <= l < index.Length ==>
                    index[l] == if start <= l < start + k then buffer[l - start] else old(index[l])
      {
        index[start + k] := buffer[k];
      }
    }

    // ----- searching -----

    /** From place to place the phrase matches no better from below and no worse from above. */
    ghost predicate Searchable(phrase: seq<Word>)
      reads index
    {
      Valid() && forall i, j :: 0 <= i <= j < index.Length ==> Match(corpus, phrase, index[i]) >= Match(corpus, phrase, index[j])
    }

    /** So it is if the places are sorted by suffix and the corpus never ends in the middle of the phrase. */
    lemma SortedIsSearchable(phrase: seq<Word>)
      requires Valid() && SuffixSorted(corpus, index[..]) && NeverRunsOut(corpus, phrase)
      ensures Searchable(phrase)
    {
      forall i, j | 0 <= i <= j < index.Length
        ensures Match(corpus, phrase, index[i]) >= Match(corpus, phrase, index[j])
      {
        if i < j {
          assert index[..][i] < |corpus| && index[..][j] < |corpus| && Follows(corpus, index[..][i], index[..][j]);
          MatchFalls(corpus, phrase, index[i], index[j]);
        }
      }
    }

    /** The phrase against the suffix at a place; a place outside the array does not match. */
    method MatchAt(phrase: seq<Word>, i: int) returns (m: int)
      requires Valid()
      ensures 0 <= i < index.Length ==> m == Match(corpus, phrase, index[i])
      ensures !(0 <= i < index.Length) ==> m != 0
    {
      if 0 <= i < index.Length {
        m := Match(corpus, phrase, index[i]);
      } else {
        m := 1;
      }
    }

    ghost predicate Matches(phrase: seq<Word>, i: int)
      reads index
    {
      0 <= i < index.Length && Match(corpus, phrase, index[i]) == 0
    }

    /** A place that matches, or the size of the array when there is none. Every match lies between `start` and `end`. */
    method FindFirst(phrase: seq<Word>) returns (mid: nat, start: int, end: int)
      requires Searchable(phrase) && index.Length > 0
      ensures mid <= index.Length && (mid == index.Length <==> forall i :: !Matches(phrase, i))
      ensures mid < index.Length ==>
                0 <= start <= mid <= end < index.Length && Matches(phrase, mid) && forall i :: Matches(phrase, i) ==> start <= i <= end
    {
      start, end := 0, index.Length - 1;
      while true
        invariant 0 <= start <= end + 1 <= index.Length
        invariant forall i :: Matches(phrase, i) ==> start <= i <= end
        decreases end - start
      {
        var m := (start + end + 1) / 2;
        var match_ := MatchAt(phrase, m);
        if match_ == 0 {
          assert Matches(phrase, m);
          return m, start, end;
        }
        if start >= end {
          return index.Length, start, end;
        }
        forall i | Matches(phrase, i)
          ensures if match_ > 0 then m + 1 <= i else i <= m - 1
        {
          assert Match(corpus, phrase, index[i]) == 0;
        }
        if match_ > 0 {
          start := m + 1;
        } else {
          end := m - 1;
        }
      }
    }

    /** The first or the last match, from one that matches. */
    method FindLast(phrase: seq<Word>, start0: nat, end0: int, direction: int) returns (last: nat)
      requires Searchable(phrase) && Matches(phrase, start0) && (direction == 1 || direction == -1)
      requires if direction == 1 then start0 <= end0 < index.Length else 0 <= end0 <= start0
      requires forall i :: Matches(phrase, i) ==> if direction == 1 then i <= end0 else end0 <= i
      ensures Matches(phrase, last)
      ensures forall i :: Matches(phrase, i) ==> if direction == 1 then i <= last else last <= i
    {
      var start, end := start0 as int, end0 + direction;
      while true
        invariant Matches(phrase, start) && -1 <= end <= index.Length && !Matches(phrase, end)
        invariant if direction == 1 then start < end else end < start
        decreases if direction == 1 then end - start else start - end
      {
        var mid := (start + end + if direction > 0 then 0 else 1) / 2;
        var match_ := MatchAt(phrase, mid);
        var matchNext := MatchAt(phrase, mid + direction);
        if match_ == 0 && matchNext != 0 {
          NoneBeyond(phrase, mid, direction);
          return mid;
        }
        if match_ == 0 {
          start := mid;
        } else {
          end := mid;
        }
      }
    }

    /** The matches stand together. */
    lemma NoneBeyond(phrase: seq<Word>, mid: nat, direction: int)
      requires Searchable(phrase) && Matches(phrase, mid) && !Matches(phrase, mid + direction) && (direction == 1 || direction == -1)
      ensures forall i :: Matches(phrase, i) ==> if direction == 1 then i <= mid else mid <= i
    {
      forall i | Matches(phrase, i)
        ensures if direction == 1 then i <= mid else mid <= i
      {
        assert Match(corpus, phrase, index[i]) == 0;
      }
    }

    lemma CountPlaces(phrase: seq<Word>, lo: nat, hi: nat)
      requires Searchable(phrase) && lo <= hi <= index.Length
      requires forall i :: Matches(phrase, i) <==> lo <= i < hi
      ensures |Found(corpus, phrase)| == hi - lo
    {
      var s := index[..];
      PlacesCount(s, lo, hi);
      forall pos
        ensures pos in Found(corpus, phrase) <==> pos in PlacesIn(s, lo, hi)
      {
        if pos in Found(corpus, phrase) {
          assert pos in s;
          var i :| 0 <= i < |s| && s[i] == pos;
          assert Matches(phrase, i);
        }
        if pos in PlacesIn(s, lo, hi) {
          var i :| lo <= i < hi && s[i] == pos;
          assert Matches(phrase, i) && index[..][i] < |corpus|;
        }
      }
      assert Found(corpus, phrase) == PlacesIn(s, lo, hi);
    }

    lemma OnePlace(phrase: seq<Word>, mid: nat)
      requires Searchable(phrase) && Matches(phrase, mid)
      ensures Found(corpus, phrase) != {}
    {
      assert index[..][mid] < |corpus|;
      assert index[mid] in Found(corpus, phrase);
    }

    /** What lies between two matches matches. */
    lemma AllBetween(phrase: seq<Word>, first: nat, last: nat)
      requires Searchable(phrase) && Matches(phrase, first) && Matches(phrase, last) && first <= last
      requires forall i :: Matches(phrase, i) ==> first <= i <= last
      ensures forall i :: Matches(phrase, i) <==> first <= i <= last
    {
      forall i | first <= i <= last
        ensures Matches(phrase, i)
      {
        assert Match(corpus, phrase, index[first]) >= Match(corpus, phrase, index[i]) >= Match(corpus, phrase, index[last]);
      }
    }

    /** The number of places where the phrase matches; with `min` 1 only whether there is one. */
    method LimitedCount(phrase: seq<Word>, min: nat) returns (matchCount: nat, firstMatch: nat, lastMatch: nat)
      requires Searchable(phrase) && index.Length > 0
      ensures min != 1 ==> matchCount == |Found(corpus, phrase)|
      ensures min == 1 ==> matchCount == if Found(corpus, phrase) == {} then 0 else 1
      ensures min != 1 && matchCount != 0 ==> forall i :: Matches(phrase, i) <==> firstMatch <= i <= lastMatch
    {
      var mid, start, end := FindFirst(phrase);
      firstMatch, lastMatch := 0, 0;
      if mid == index.Length {
        CountPlaces(phrase, 0, 0);
        return 0, 0, 0;
      }
      if min == 1 {
        OnePlace(phrase, mid);
        return 1, 0, 0;
      }
      matchCount := 1;
      firstMatch := FindLast(phrase, mid, start, -1);
      assert firstMatch <= mid;
      matchCount := matchCount + mid - firstMatch;
      lastMatch := FindLast(phrase, mid, end, 1);
      assert Matches(phrase, mid);
      assert mid <= lastMatch;
      matchCount := matchCount + lastMatch - mid;
      AllBetween(phrase, firstMatch, lastMatch);
      CountPlaces(phrase, firstMatch, lastMatch + 1);
    }
  }

  lemma OneIsSorted(corpus: seq<Word>, s: seq<nat>, start: nat)
    requires start < |s|
    ensures Rearranged(s, s, start, start + 1) && SortedRun(corpus, s, start, start + 1)
  {
  }

  lemma TwoPositions(corpus: seq<Word>, s: seq<nat>, i: nat, j: nat)
    requires NoneTwice(s) && InCorpus(corpus, s) && i < j < |s|
    ensures s[i] != s[j] && s[i] < |corpus| && s[j] < |corpus|
  {
  }

  lemma MergeNothing(corpus: seq<Word>, s: seq<nat>, mid: nat, end: nat)
    requires mid <= end <= |s|
    ensures Rest(corpus, s, mid, mid, end, end) == []
  {
  }

  /** One step of the merge takes the first of the left or of the right run. */
  lemma MergeStep(corpus: seq<Word>, s: seq<nat>, out: seq<nat>, i: nat, mid: nat, j: nat, end: nat, left: bool)
    requires i <= mid <= j <= end <= |s|
    requires if left then i < mid && (j == end || Follows(corpus, s[i], s[j])) else j < end && (i == mid || !Follows(corpus, s[i], s[j]))
    ensures out + Rest(corpus, s, i, mid, j, end)
         == if left then out + [s[i]] + Rest(corpus, s, i + 1, mid, j, end) else out + [s[j]] + Rest(corpus, s, i, mid, j + 1, end)
  {
    assert i < mid ==> s[i..mid] == [s[i]] + s[i + 1..mid];
    assert j < end ==> s[j..end] == [s[j]] + s[j + 1..end];
    if left && j == end {
      MergeEmpty(corpus, s[i + 1..mid], s[j..end]);
    }
    if !left && i == mid {
      MergeEmpty(corpus, s[i..mid], s[j + 1..end]);
    }
  }

  lemma MergeEmpty(corpus: seq<Word>, s: seq<nat>, t: seq<nat>)
    ensures t == [] ==> Merge(corpus, s, t) == s
    ensures s == [] ==> Merge(corpus, s, t) == t
  {
  }

  // ----- matching a phrase -----

  /** The phrase against what follows a position, word by word: positive if the phrase comes later, 0 when either ends. */
  function Match(corpus: seq<Word>, phrase: seq<Word>, pos: nat): (m: int)
    ensures -1 <= m <= 1
    decreases |phrase|
  {
    if phrase == [] || |corpus| <= pos then 0
    else if phrase[0] < corpus[pos] then -1
    else if corpus[pos] < phrase[0] then 1
    else Match(corpus, phrase[1..], pos + 1)
  }

  predicate OccursAt(corpus: seq<Word>, phrase: seq<Word>, pos: nat) {
    pos + |phrase| <= |corpus| && corpus[pos..pos + |phrase|] == phrase
  }

  /** The corpus ends in the middle of the phrase. */
  ghost predicate RunsOut(corpus: seq<Word>, phrase: seq<Word>, pos: nat) {
    pos <= |corpus| < pos + |phrase| && corpus[pos..] == phrase[..|corpus| - pos]
  }

  /** A match is an occurrence, or the corpus runs out. */
  lemma {:induction false} MatchIs(corpus: seq<Word>, phrase: seq<Word>, pos: nat)
    requires pos <= |corpus|
    ensures Match(corpus, phrase, pos) == 0 <==> OccursAt(corpus, phrase, pos) || RunsOut(corpus, phrase, pos)
    decreases |phrase|
  {
    if phrase == [] {
      assert corpus[pos..pos] == [];
    } else if pos == |corpus| {
      assert corpus[pos..] == [] == phrase[..0];
    } else {
      var rest := phrase[1..];
      MatchIs(corpus, rest, pos + 1);
      assert phrase == [phrase[0]] + rest && corpus[pos..] == [corpus[pos]] + corpus[pos + 1..];
      if phrase[0] == corpus[pos] {
        if pos + |phrase| <= |corpus| {
          assert corpus[pos..pos + |phrase|] == [corpus[pos]] + corpus[pos + 1..pos + 1 + |rest|];
        } else {
          assert phrase[..|corpus| - pos] == [phrase[0]] + rest[..|corpus| - pos - 1];
          RunsOutOn(corpus, phrase, pos);
        }
      } else {
        assert pos + |phrase| <= |corpus| ==> corpus[pos..pos + |phrase|][0] == corpus[pos];
        assert pos + |phrase| > |corpus| ==> corpus[pos..][0] != phrase[..|corpus| - pos][0];
      }
    }
  }

  lemma RunsOutOn(corpus: seq<Word>, phrase: seq<Word>, pos: nat)
    requires phrase != [] && pos < |corpus| < pos + |phrase| && phrase[0] == corpus[pos]
    ensures RunsOut(corpus, phrase, pos) <==> RunsOut(corpus, phrase[1..], pos + 1)
  {
    var n := |corpus| - pos;
    assert corpus[pos..] == [corpus[pos]] + corpus[pos + 1..] && phrase[..n] == [phrase[0]] + phrase[1..][..n - 1];
    if RunsOut(corpus, phrase, pos) {
      assert corpus[pos..][1..] == phrase[..n][1..];
    }
  }

  /** The corpus never ends in the middle of the phrase. */
  ghost predicate NeverRunsOut(corpus: seq<Word>, phrase: seq<Word>) {
    forall pos: nat :: pos < |corpus| ==> !RunsOut(corpus, phrase, pos)
  }

  /** It does not when the phrase does not contain the mark at the end of the corpus. */
  lemma MarkKeepsApart(corpus: seq<Word>, phrase: seq<Word>)
    requires corpus != [] && corpus[|corpus| - 1] !in phrase
    ensures NeverRunsOut(corpus, phrase)
  {
    forall pos: nat | pos < |corpus|
      ensures !RunsOut(corpus, phrase, pos)
    {
      var n := |corpus| - pos;
      assert corpus[pos..][n - 1] == corpus[|corpus| - 1];
      if n < |phrase| {
        assert phrase[..n][n - 1] == phrase[n - 1] && phrase[n - 1] in phrase;
      }
    }
  }

  /** Later suffixes match no better from below and no worse from above. */
  lemma {:induction false} MatchFalls(corpus: seq<Word>, phrase: seq<Word>, a: nat, b: nat)
    requires a < |corpus| && b < |corpus| && Follows(corpus, a, b)
    requires !RunsOut(corpus, phrase, a) && !RunsOut(corpus, phrase, b)
    ensures Match(corpus, phrase, a) >= Match(corpus, phrase, b)
    decreases |phrase|
  {
    MatchIs(corpus, phrase, a);
    MatchIs(corpus, phrase, b);
    if phrase != [] && corpus[a] == corpus[b] == phrase[0] {
      if a + 1 == |corpus| {
        LastWordAlone(corpus, phrase, a);
      } else if b + 1 < |corpus| {
        if |phrase| > 1 {
          NotRunsOutNext(corpus, phrase, a);
          NotRunsOutNext(corpus, phrase, b);
          MatchFalls(corpus, phrase[1..], a + 1, b + 1);
        }
      }
    }
  }

  lemma LastWordAlone(corpus: seq<Word>, phrase: seq<Word>, a: nat)
    requires a + 1 == |corpus| && phrase != [] && phrase[0] == corpus[a] && !RunsOut(corpus, phrase, a)
    ensures |phrase| == 1
  {
    assert corpus[a..] == [corpus[a]] && phrase[..1] == [phrase[0]];
  }

  lemma NotRunsOutNext(corpus: seq<Word>, phrase: seq<Word>, a: nat)
    requires a < |corpus| && phrase != [] && phrase[0] == corpus[a] && !RunsOut(corpus, phrase, a)
    ensures !RunsOut(corpus, phrase[1..], a + 1)
  {
    if RunsOut(corpus, phrase[1..], a + 1) {
      RunsOutOn(corpus, phrase, a);
      assert false;
    }
  }

  /** The mark and a word after it, in a corpus that ends with the mark, are counted once although they occur nowhere. */
  method RunningOutIsCounted() returns (corpus: seq<Word>, phrase: seq<Word>, matchCount: nat)
    ensures corpus == [1, 0] && phrase == [0, 5]
    ensures matchCount == 1 && Occurrences(corpus, phrase) == {}
  {
    corpus, phrase := [1, 0], [0, 5];
    assert Match(corpus, phrase, 0) == -1 && Match(corpus, phrase, 1) == 0;
    var suffixes := SortCorpus(corpus);
    var s := suffixes.index[..];
    assert Follows(corpus, 1, 0) && !Follows(corpus, 0, 1);
    assert s[0] < 2 && s[1] < 2 && s[0] != s[1] && Follows(corpus, s[0], s[1]);
    assert suffixes.index[0] == 1 && suffixes.index[1] == 0;
    assert suffixes.Searchable(phrase);
    assert Found(corpus, phrase) == {1};
    var first, last;
    matchCount, first, last := suffixes.LimitedCount(phrase, 0);
  }

  // ----- rearranging a part -----

  ghost predicate Rearranged(s: seq<nat>, s': seq<nat>, start: nat, end: nat) {
    && |s| == |s'| && start <= end <= |s|
    && s'[..start] == s[..start] && s'[end..] == s[end..] && multiset(s'[start..end]) == multiset(s[start..end])
  }

  lemma SplitThree(s: seq<nat>, start: nat, end: nat)
    requires start <= end <= |s|
    ensures multiset(s) == multiset(s[..start]) + multiset(s[start..end]) + multiset(s[end..])
  {
    assert s == s[..start] + s[start..end] + s[end..];
  }

  lemma RearrangedMembers(s: seq<nat>, s': seq<nat>, start: nat, end: nat)
    requires Rearranged(s, s', start, end)
    ensures multiset(s') == multiset(s)
  {
    SplitThree(s, start, end);
    SplitThree(s', start, end);
  }

  lemma {:induction false} OnceEach(s: seq<nat>, x: nat)
    requires NoneTwice(s)
    ensures multiset(s)[x] <= 1
  {
    if s != [] {
      assert s == s[..|s| - 1] + [s[|s| - 1]];
      OnceEach(s[..|s| - 1], x);
    }
  }

  lemma SameMembers(corpus: seq<Word>, s: seq<nat>, s': seq<nat>)
    requires multiset(s') == multiset(s) && NoneTwice(s) && InCorpus(corpus, s) && NoneMissing(corpus, s)
    ensures NoneTwice(s') && InCorpus(corpus, s') && NoneMissing(corpus, s')
  {
    forall pos | 0 <= pos < |corpus|
      ensures pos in s'
    {
      assert pos in s && pos in multiset(s');
    }
    forall i | 0 <= i < |s'|
      ensures s'[i] < |corpus|
    {
      assert s'[i] in multiset(s);
    }
    forall i, j | 0 <= i < j < |s'|
      ensures s'[i] != s'[j]
    {
      if s'[i] == s'[j] {
        assert s' == s'[..j] + s'[j..] && s'[..j][i] == s'[i] && s'[j..][0] == s'[i];
        assert s'[i] in s'[..j] && s'[i] in s'[j..];
        OnceEach(s, s'[i]);
        assert false;
      }
    }
  }

  lemma TwoHalves(corpus: seq<Word>, s0: seq<nat>, s1: seq<nat>, s2: seq<nat>, start: nat, mid: nat, end: nat)
    requires Rearranged(s0, s1, start, mid) && Rearranged(s1, s2, mid, end) && SortedRun(corpus, s1, start, mid)
    ensures Rearranged(s0, s2, start, end) && SortedRun(corpus, s2, start, mid)
  {
    hide SuffixSorted;
    assert s2[..mid][..start] == s1[..mid][..start] == s1[..start] == s0[..start] && s2[..mid][..start] == s2[..start];
    assert s2[..mid][start..] == s1[..mid][start..] && s2[..mid][start..] == s2[start..mid] && s1[..mid][start..] == s1[start..mid];
    assert s1[mid..][end - mid..] == s1[end..] && s0[mid..][end - mid..] == s0[end..];
    assert s1[mid..][..end - mid] == s1[mid..end] && s0[mid..][..end - mid] == s0[mid..end];
    assert s2[start..end] == s2[start..mid] + s2[mid..end] && s0[start..end] == s0[start..mid] + s0[mid..end];
  }

  lemma HalvesDiffer(s: seq<nat>, start: nat, mid: nat, end: nat)
    requires NoneTwice(s) && start <= mid <= end <= |s|
    ensures forall x :: x in s[start..mid] ==> x !in s[mid..end]
  {
  }

  lemma Replaced(s: seq<nat>, s': seq<nat>, m: seq<nat>, start: nat, end: nat)
    requires start <= end <= |s| && |m| == end - start && s' == s[..start] + m + s[end..]
    ensures |s'| == |s| && s'[start..end] == m && s'[..start] == s[..start] && s'[end..] == s[end..]
  {
  }

  lemma MergedRun(corpus: seq<Word>, s: seq<nat>, start: nat, mid: nat, end: nat)
    requires NoneTwice(s) && InCorpus(corpus, s) && SortedRun(corpus, s, start, mid) && SortedRun(corpus, s, mid, end)
    ensures var m := Merge(corpus, s[start..mid], s[mid..end]);
            |m| == end - start && multiset(m) == multiset(s[start..end]) && SuffixSorted(corpus, m)
  {
    HalvesDiffer(s, start, mid, end);
    MergeMembers(corpus, s[start..mid], s[mid..end]);
    MergeSorts(corpus, s[start..mid], s[mid..end]);
    hide Merge, SuffixSorted, NoneTwice, InCorpus;
    assert s[start..end] == s[start..mid] + s[mid..end];
  }

  lemma Merged(corpus: seq<Word>, s0: seq<nat>, s: seq<nat>, s': seq<nat>, start: nat, mid: nat, end: nat)
    requires Rearranged(s0, s, start, end) && NoneTwice(s) && InCorpus(corpus, s) && NoneMissing(corpus, s)
    requires SortedRun(corpus, s, start, mid) && SortedRun(corpus, s, mid, end) && MergedAt(corpus, s, s', start, mid, end)
    ensures Rearranged(s0, s', start, end) && NoneTwice(s') && InCorpus(corpus, s') && NoneMissing(corpus, s')
    ensures SortedRun(corpus, s', start, end)
  {
    hide Merge, SuffixSorted, NoneTwice, InCorpus, NoneMissing;
    MergedRun(corpus, s, start, mid, end);
    Replaced(s, s', Merge(corpus, s[start..mid], s[mid..end]), start, end);
    RearrangedMembers(s, s', start, end);
    SameMembers(corpus, s, s');
  }

  method SortCorpus(corpus: seq<Word>) returns (suffixes: Index)
    requires corpus != []
    ensures suffixes.corpus == corpus && suffixes.index.Length == |corpus|
    ensures suffixes.Valid() && SuffixSorted(corpus, suffixes.index[..])
  {
    suffixes := new Index(corpus);
    StartsValid(corpus, suffixes.index[..]);
    suffixes.Sort(0, |corpus| - 1);
    assert suffixes.index[..][0..|corpus|] == suffixes.index[..];
  }

  /** Builds the suffix array of a corpus and counts a phrase in it. */
  method CountInCorpus(corpus: seq<Word>, phrase: seq<Word>, min: nat) returns (matchCount: nat)
    requires corpus != [] && corpus[|corpus| - 1] !in phrase && min != 1
    ensures matchCount == |Occurrences(corpus, phrase)|
  {
    var suffixes := SortCorpus(corpus);
    MarkKeepsApart(corpus, phrase);
    suffixes.SortedIsSearchable(phrase);
    FoundAreOccurrencesIff(corpus, phrase);
    var first, last;
    matchCount, first, last := suffixes.LimitedCount(phrase, min);
  }

  lemma StartsValid(corpus: seq<Word>, s: seq<nat>)
    requires |s| == |corpus| && forall i :: 0 <= i < |s| ==> s[i] == i
    ensures InCorpus(corpus, s) && NoneTwice(s) && NoneMissing(corpus, s)
  {
    forall pos | 0 <= pos < |corpus|
      ensures pos in s
    {
      assert s[pos] == pos;
    }
  }
}
