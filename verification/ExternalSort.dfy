/** The external merge sort that prepares the trie builder's files: sorted batches, merged two by two, with the contexts of
    the n-grams sorted alongside. */
module ExternalSort {
  import opened NGrams
  import opened HashedBuild
  import opened TrieMerge

  /** In order of their n-grams, equal ones next to each other. */
  ghost predicate RecordsSorted(s: seq<Record>) {
    forall i, j :: 0 <= i < j < |s| ==> NotAfter(s[i].gram, s[j].gram)
  }

  ghost predicate Holds(s: seq<Record>, g: Gram) {
    exists i :: 0 <= i < |s| && s[i].gram == g
  }

  // ----- one batch -----

  function Insert(r: Record, s: seq<Record>): seq<Record> {
    if s == [] then [r] else if !Less(s[0].gram, r.gram) then [r] + s else [s[0]] + Insert(r, s[1..])
  }

  function SortBatch(s: seq<Record>): seq<Record> {
    if s == [] then [] else Insert(s[0], SortBatch(s[1..]))
  }

  lemma {:induction false} InsertMembers(r: Record, s: seq<Record>)
    ensures forall x :: x in Insert(r, s) <==> x == r || x in s
  {
    if s != [] {
      InsertMembers(r, s[1..]);
      assert s == [s[0]] + s[1..];
    }
  }

  lemma {:induction false} InsertIsSorted(r: Record, s: seq<Record>)
    requires RecordsSorted(s)
    ensures RecordsSorted(Insert(r, s)) && multiset(Insert(r, s)) == multiset(s) + multiset{r}
  {
    hide Less, RecordsSorted;
    if s != [] {
      assert s == [s[0]] + s[1..];
      TailSorted(s);
      if !Less(s[0].gram, r.gram) {
        InFront(r, s);
      } else {
        InsertIsSorted(r, s[1..]);
        InsertedBehind(r, s);
      }
    } else {
      OneIsSorted(r);
    }
  }

  lemma OneIsSorted(r: Record)
    ensures RecordsSorted([r])
  {
  }

  lemma TailSorted(s: seq<Record>)
    requires RecordsSorted(s) && s != []
    ensures RecordsSorted(s[1..]) && forall j :: 1 <= j < |s| ==> NotAfter(s[0].gram, s[j].gram)
  {
    hide Less;
  }

  lemma InFront(r: Record, s: seq<Record>)
    requires RecordsSorted(s) && s != [] && !Less(s[0].gram, r.gram)
    ensures RecordsSorted([r] + s)
  {
    hide Less;
    LessTotal(s[0].gram, r.gram);
    forall j | 0 <= j < |s|
      ensures NotAfter(r.gram, s[j].gram)
    {
      assert j == 0 || NotAfter(s[0].gram, s[j].gram);
      NotAfterTransitive(r.gram, s[0].gram, s[j].gram);
    }
  }

  lemma InsertedBehind(r: Record, s: seq<Record>)
    requires RecordsSorted(s) && s != [] && Less(s[0].gram, r.gram) && RecordsSorted(Insert(r, s[1..]))
    ensures RecordsSorted([s[0]] + Insert(r, s[1..]))
  {
    hide Less;
    TailSorted(s);
    var t := Insert(r, s[1..]);
    InsertMembers(r, s[1..]);
    forall j | 0 <= j < |t|
      ensures NotAfter(s[0].gram, t[j].gram)
    {
      assert t[j] in s[1..] || t[j] == r;
    }
  }

  lemma {:induction false} SortIsSorted(s: seq<Record>)
    ensures RecordsSorted(SortBatch(s)) && multiset(SortBatch(s)) == multiset(s)
  {
    if s != [] {
      SortIsSorted(s[1..]);
      InsertIsSorted(s[0], SortBatch(s[1..]));
      assert s == [s[0]] + s[1..];
    }
  }

  // ----- merging two files -----

  /** Some n-gram is in both files. */
  ghost predicate Clash(s: seq<Record>, t: seq<Record>) {
    exists g :: Holds(s, g) && Holds(t, g)
  }

  /** What has been written so far comes before everything still to be read. */
  ghost predicate Before(out: seq<Record>, s: seq<Record>, i: nat) {
    forall k, j :: 0 <= k < |out| && i <= j < |s| ==> NotAfter(out[k].gram, s[j].gram)
  }

  lemma AppendSorted(out: seq<Record>, r: Record)
    requires RecordsSorted(out) && forall k :: 0 <= k < |out| ==> NotAfter(out[k].gram, r.gram)
    ensures RecordsSorted(out + [r])
  {
  }

  /** Taking the next record of s, which comes before all that is left of both files. */
  lemma TakeFirst(out: seq<Record>, s: seq<Record>, i: nat, t: seq<Record>, j: nat)
    requires RecordsSorted(out) && RecordsSorted(s) && RecordsSorted(t) && i < |s| && j <= |t|
    requires Before(out, s, i) && Before(out, t, j) && (j < |t| ==> NotAfter(s[i].gram, t[j].gram))
    ensures RecordsSorted(out + [s[i]]) && Before(out + [s[i]], s, i + 1) && Before(out + [s[i]], t, j)
  {
    AppendSorted(out, s[i]);
    forall k | j <= k < |t|
      ensures NotAfter(s[i].gram, t[k].gram)
    {
      if j < k {
        NotAfterTransitive(s[i].gram, t[j].gram, t[k].gram);
      }
    }
  }

  /** Records already passed come before the other file's next one. */
  ghost predicate Passed(s: seq<Record>, i: nat, t: seq<Record>, j: nat) {
    forall k, l :: 0 <= k < i && k < |s| && j <= l < |t| ==> Less(s[k].gram, t[l].gram)
  }

  lemma PassFirst(s: seq<Record>, i: nat, t: seq<Record>, j: nat)
    requires RecordsSorted(t) && i < |s| && j < |t| && Passed(s, i, t, j) && Less(s[i].gram, t[j].gram)
    ensures Passed(s, i + 1, t, j)
  {
    forall l | j <= l < |t|
      ensures Less(s[i].gram, t[l].gram)
    {
      if j < l && Less(t[j].gram, t[l].gram) {
        LessTransitive(s[i].gram, t[j].gram, t[l].gram);
      }
    }
  }

  /** Two sorted files have been merged up to i and j, and nothing was in both. */
  ghost predicate Merging(out: seq<Record>, s: seq<Record>, i: nat, t: seq<Record>, j: nat) {
    && i <= |s| && j <= |t| && RecordsSorted(out) && Before(out, s, i) && Before(out, t, j)
    && multiset(out) == multiset(s[..i]) + multiset(t[..j])
    && Passed(s, i, t, j) && Passed(t, j, s, i) && Distinct(s, i, t, j)
  }

  ghost predicate Distinct(s: seq<Record>, i: nat, t: seq<Record>, j: nat)
    requires i <= |s| && j <= |t|
  {
    forall k, l :: 0 <= k < i && 0 <= l < j ==> s[k].gram != t[l].gram
  }

  lemma NothingMerged(s: seq<Record>, t: seq<Record>)
    ensures Merging([], s, 0, t, 0)
  {
  }

  lemma MergingEitherWay(out: seq<Record>, s: seq<Record>, i: nat, t: seq<Record>, j: nat)
    requires Merging(out, s, i, t, j)
    ensures Merging(out, t, j, s, i)
  {
    hide RecordsSorted, Before, Passed;
  }

  lemma MergeOne(out: seq<Record>, s: seq<Record>, i: nat, t: seq<Record>, j: nat)
    requires Merging(out, s, i, t, j) && RecordsSorted(s) && RecordsSorted(t)
    requires i < |s| && j < |t| && Less(s[i].gram, t[j].gram)
    ensures Merging(out + [s[i]], s, i + 1, t, j)
  {
    hide Less, RecordsSorted, Before, Passed;
    LessTotal(s[i].gram, t[j].gram);
    OneMore(s, i);
    TakeFirst(out, s, i, t, j);
    PassFirst(s, i, t, j);
    PassedStays(t, j, s, i);
    PassedDiffer(t, j, s, i);
  }

  lemma PassedStays(t: seq<Record>, j: nat, s: seq<Record>, i: nat)
    requires Passed(t, j, s, i)
    ensures Passed(t, j, s, i + 1)
  {
  }

  lemma MergeOneOfOther(out: seq<Record>, s: seq<Record>, i: nat, t: seq<Record>, j: nat)
    requires Merging(out, s, i, t, j) && RecordsSorted(s) && RecordsSorted(t)
    requires i < |s| && j < |t| && Less(t[j].gram, s[i].gram)
    ensures Merging(out + [t[j]], s, i, t, j + 1)
  {
    hide Less, RecordsSorted, Merging;
    MergingEitherWay(out, s, i, t, j);
    MergeOne(out, t, j, s, i);
    MergingEitherWay(out + [t[j]], t, j + 1, s, i);
  }

  lemma SameIsClash(s: seq<Record>, i: nat, t: seq<Record>, j: nat)
    requires i < |s| && j < |t| && !Less(s[i].gram, t[j].gram) && !Less(t[j].gram, s[i].gram)
    ensures Clash(s, t)
  {
    hide Less;
    LessTotal(s[i].gram, t[j].gram);
    assert Holds(s, s[i].gram) && Holds(t, s[i].gram);
  }

  /** When one file has been read to its end without a clash, there is none. */
  lemma NoClash(out: seq<Record>, s: seq<Record>, i: nat, t: seq<Record>, j: nat)
    requires Merging(out, s, i, t, j) && (i == |s| || j == |t|)
    ensures !Clash(s, t)
  {
    hide RecordsSorted, Before;
    forall g | Holds(s, g)
      ensures !Holds(t, g)
    {
      LessIrreflexive(g);
      var k :| 0 <= k < |s| && s[k].gram == g;
    }
  }

  datatype Merged = Merged(records: seq<Record>) | Duplicate

  /** Merges two sorted files; an n-gram in both is an error. */
  method MergeSortedFiles(first: seq<Record>, second: seq<Record>) returns (r: Merged)
    requires RecordsSorted(first) && RecordsSorted(second)
    ensures r.Duplicate? <==> Clash(first, second)
    ensures r.Merged? ==> RecordsSorted(r.records) && multiset(r.records) == multiset(first) + multiset(second)
  {
    hide Less, RecordsSorted, Merging, Clash;
    var out := [];
    var i, j := 0, 0;
    NothingMerged(first, second);
    while i < |first| && j < |second|
      invariant i <= |first| && j <= |second| && Merging(out, first, i, second, j)
      decreases |first| - i + |second| - j
    {
      if Less(first[i].gram, second[j].gram) {
        MergeOne(out, first, i, second, j);
        out, i := out + [first[i]], i + 1;
      } else if Less(second[j].gram, first[i].gram) {
        MergeOneOfOther(out, first, i, second, j);
        out, j := out + [second[j]], j + 1;
      } else {
        SameIsClash(first, i, second, j);
        return Duplicate;
      }
    }
    NoClash(out, first, i, second, j);
    RestIsSorted(out, first, i, second, j);
    AllMerged(out, first, i, second, j);
    // What is left of the file that has not ended.
    out := out + first[i..] + second[j..];
    r := Merged(out);
  }

  lemma OneMore(s: seq<Record>, i: nat)
    requires i < |s|
    ensures multiset(s[..i + 1]) == multiset(s[..i]) + multiset{s[i]}
  {
    assert s[..i + 1] == s[..i] + [s[i]];
  }

  lemma PassedDiffer(t: seq<Record>, j: nat, s: seq<Record>, i: nat)
    requires i < |s| && j <= |t| && Passed(t, j, s, i)
    ensures forall l :: 0 <= l < j ==> t[l].gram != s[i].gram
  {
    LessIrreflexive(s[i].gram);
  }

  lemma RestIsSorted(out: seq<Record>, s: seq<Record>, i: nat, t: seq<Record>, j: nat)
    requires Merging(out, s, i, t, j) && RecordsSorted(s) && RecordsSorted(t) && (i == |s| || j == |t|)
    ensures RecordsSorted(out + s[i..] + t[j..])
  {
    hide Less, Passed;
    if i == |s| {
      Joined(out, t, j);
      assert out + s[i..] + t[j..] == out + t[j..];
    } else {
      Joined(out, s, i);
      assert out + s[i..] + t[j..] == out + s[i..];
    }
  }

  lemma Joined(out: seq<Record>, s: seq<Record>, i: nat)
    requires RecordsSorted(out) && RecordsSorted(s) && i <= |s| && Before(out, s, i)
    ensures RecordsSorted(out + s[i..])
  {
    hide Less;
  }

  lemma AllMerged(out: seq<Record>, s: seq<Record>, i: nat, t: seq<Record>, j: nat)
    requires Merging(out, s, i, t, j)
    ensures multiset(out + s[i..] + t[j..]) == multiset(s) + multiset(t)
  {
    hide RecordsSorted, Before, Passed, Distinct;
    assert s == s[..i] + s[i..] && t == t[..j] + t[j..];
  }

  // ----- contexts -----

  /** Context files hold n-grams without weights, each once. */
  method MergeContexts(first: seq<Gram>, second: seq<Gram>) returns (out: seq<Gram>)
    requires Sorted(first) && Sorted(second)
    ensures Sorted(out) && forall g :: g in out <==> g in first || g in second
  {
    out := [];
    var i, j := 0, 0;
    while i < |first| && j < |second|
      invariant i <= |first| && j <= |second| && Sorted(out) && Ahead(out, first, i) && Ahead(out, second, j)
      invariant forall g :: g in out <==> g in first[..i] || g in second[..j]
      decreases |first| - i + |second| - j
    {
      LessTotal(first[i], second[j]);
      assert first[..i + 1] == first[..i] + [first[i]] && second[..j + 1] == second[..j] + [second[j]];
      if Less(first[i], second[j]) {
        TakeContext(out, first, i, second, j);
        out, i := out + [first[i]], i + 1;
      } else if Less(second[j], first[i]) {
        TakeContext(out, second, j, first, i);
        out, j := out + [second[j]], j + 1;
      } else {
        TakeBoth(out, first, i, second, j);
        out, i, j := out + [first[i]], i + 1, j + 1;
      }
    }
    assert first == first[..i] + first[i..] && second == second[..j] + second[j..];
    out := out + first[i..] + second[j..];
  }

  ghost predicate Ahead(out: seq<Gram>, s: seq<Gram>, i: nat) {
    forall k, j :: 0 <= k < |out| && i <= j < |s| ==> Less(out[k], s[j])
  }

  lemma TakeContext(out: seq<Gram>, s: seq<Gram>, i: nat, t: seq<Gram>, j: nat)
    requires Sorted(out) && Sorted(s) && Sorted(t) && i < |s| && j < |t| && Less(s[i], t[j])
    requires Ahead(out, s, i) && Ahead(out, t, j)
    ensures Sorted(out + [s[i]]) && Ahead(out + [s[i]], s, i + 1) && Ahead(out + [s[i]], t, j)
  {
    forall k | j <= k < |t|
      ensures Less(s[i], t[k])
    {
      if j < k {
        LessTransitive(s[i], t[j], t[k]);
      }
    }
  }

  lemma TakeBoth(out: seq<Gram>, s: seq<Gram>, i: nat, t: seq<Gram>, j: nat)
    requires Sorted(out) && Sorted(s) && Sorted(t) && i < |s| && j < |t| && s[i] == t[j]
    requires Ahead(out, s, i) && Ahead(out, t, j)
    ensures Sorted(out + [s[i]]) && Ahead(out + [s[i]], s, i + 1) && Ahead(out + [s[i]], t, j + 1)
  {
  }

  /** The contexts of a batch, as records without weights. */
  function ContextsOf(s: seq<Record>): seq<Record>
    requires forall i :: 0 <= i < |s| ==> s[i].gram != []
  {
    seq(|s|, i requires 0 <= i < |s| => Record(s[i].gram[1..], 0.0, NoExtension))
  }

  ghost predicate HasContext(s: seq<Record>, g: Gram) {
    exists i :: 0 <= i < |s| && s[i].gram != [] && s[i].gram[1..] == g
  }

  /** Sorts the contexts of a batch and writes each once. */
  method WriteContextFile(batch: seq<Record>) returns (out: seq<Gram>)
    requires forall i :: 0 <= i < |batch| ==> batch[i].gram != []
    ensures Sorted(out) && forall g :: g in out <==> HasContext(batch, g)
  {
    var contexts := ContextsOf(batch);
    var s := SortBatch(contexts);
    SortIsSorted(contexts);
    hide SortBatch, Less, ContextsOf;
    out := [];
    for i := 0 to |s|
      invariant Sorted(out) && (out == [] <==> i == 0) && (0 < i ==> out[|out| - 1] == s[i - 1].gram)
      invariant forall g :: g in out <==> Holds(s[..i], g)
    {
      HoldsMore(s, i);
      if i == 0 || s[i].gram != s[i - 1].gram {
        if 0 < i {
          assert NotAfter(s[i - 1].gram, s[i].gram);
          AppendContext(out, s[i].gram);
        }
        out := out + [s[i].gram];
      }
    }
    assert s[..|s|] == s;
    forall g
      ensures g in out <==> HasContext(batch, g)
    {
      SortHolds(contexts, g);
      ContextsHold(batch, g);
    }
  }

  lemma ContextsHold(s: seq<Record>, g: Gram)
    requires forall i :: 0 <= i < |s| ==> s[i].gram != []
    ensures Holds(ContextsOf(s), g) <==> HasContext(s, g)
  {
    if HasContext(s, g) {
      var i :| 0 <= i < |s| && s[i].gram != [] && s[i].gram[1..] == g;
      assert ContextsOf(s)[i].gram == g;
    }
  }

  lemma HoldsMore(s: seq<Record>, i: nat)
    requires i < |s|
    ensures forall g :: Holds(s[..i + 1], g) <==> Holds(s[..i], g) || g == s[i].gram
  {
    assert s[..i + 1] == s[..i] + [s[i]];
    forall g
      ensures Holds(s[..i + 1], g) <==> Holds(s[..i], g) || g == s[i].gram
    {
      if Holds(s[..i], g) {
        var k :| 0 <= k < i && s[..i][k].gram == g;
        assert s[..i + 1][k].gram == g;
      }
      assert s[..i + 1][i].gram == s[i].gram;
    }
  }

  lemma AppendContext(out: seq<Gram>, g: Gram)
    requires Sorted(out) && out != [] && Less(out[|out| - 1], g)
    ensures Sorted(out + [g])
  {
    forall k | 0 <= k < |out|
      ensures Less(out[k], g)
    {
      if k < |out| - 1 {
        LessTransitive(out[k], out[|out| - 1], g);
      }
    }
  }

  lemma SortHolds(s: seq<Record>, g: Gram)
    ensures Holds(SortBatch(s), g) <==> Holds(s, g)
  {
    SortIsSorted(s);
    SameHolds(SortBatch(s), s, g);
  }

  lemma SameHolds(s: seq<Record>, t: seq<Record>, g: Gram)
    requires multiset(s) == multiset(t)
    ensures Holds(s, g) <==> Holds(t, g)
  {
    if Holds(s, g) {
      var i :| 0 <= i < |s| && s[i].gram == g;
      assert s[i] in multiset(t);
    }
    if Holds(t, g) {
      var i :| 0 <= i < |t| && t[i].gram == g;
      assert t[i] in multiset(s);
    }
  }

  // ----- the queue of files -----

  function Flatten(files: seq<seq<Record>>): seq<Record> {
    if files == [] then [] else files[0] + Flatten(files[1..])
  }

  /** An n-gram is in two of the files. */
  ghost predicate CrossClash(files: seq<seq<Record>>) {
    exists i, j :: 0 <= i < j < |files| && Clash(files[i], files[j])
  }

  lemma {:induction false} FlattenConcat(a: seq<seq<Record>>, b: seq<seq<Record>>)
    ensures Flatten(a + b) == Flatten(a) + Flatten(b)
  {
    if a == [] {
      assert a + b == b;
    } else {
      assert (a + b)[1..] == a[1..] + b;
      FlattenConcat(a[1..], b);
    }
  }

  /** Merging the first two files into one at the end keeps the records... */
  lemma MergedFlatten(files: seq<seq<Record>>, m: seq<Record>)
    requires 2 <= |files| && multiset(m) == multiset(files[0]) + multiset(files[1])
    ensures multiset(Flatten(files[2..] + [m])) == multiset(Flatten(files))
  {
    var rest := files[2..];
    FlattenConcat(rest, [m]);
    assert Flatten([m]) == m;
    assert files[1..][1..] == rest && files[1..][0] == files[1];
    assert Flatten(files) == files[0] + (files[1] + Flatten(rest));
  }

  /** ... and hides no clash. */
  lemma MergedClash(files: seq<seq<Record>>, m: seq<Record>)
    requires 2 <= |files| && multiset(m) == multiset(files[0]) + multiset(files[1]) && !Clash(files[0], files[1])
    ensures CrossClash(files[2..] + [m]) <==> CrossClash(files)
  {
    var rest := files[2..];
    var files' := rest + [m];
    forall t
      ensures Clash(t, m) <==> Clash(t, files[0]) || Clash(t, files[1])
      ensures Clash(files[0], t) == Clash(t, files[0]) && Clash(files[1], t) == Clash(t, files[1])
    {
      ClashMerged(files[0], files[1], m, t);
    }
    hide Clash;
    if CrossClash(files') {
      var i, j :| 0 <= i < j < |files'| && Clash(files'[i], files'[j]);
      if j < |rest| {
        assert Clash(files[i + 2], files[j + 2]);
      } else {
        assert Clash(files[0], files[i + 2]) || Clash(files[1], files[i + 2]);
      }
    }
    if CrossClash(files) {
      var i, j :| 0 <= i < j < |files| && Clash(files[i], files[j]);
      assert 2 <= j;
      if 2 <= i {
        assert Clash(files'[i - 2], files'[j - 2]);
      } else {
        assert files'[j - 2] == files[j] && files'[|rest|] == m;
        assert Clash(files'[j - 2], files'[|rest|]);
      }
    }
  }

  lemma ClashMerged(s: seq<Record>, t: seq<Record>, m: seq<Record>, u: seq<Record>)
    requires multiset(m) == multiset(s) + multiset(t)
    ensures Clash(u, m) <==> Clash(u, s) || Clash(u, t)
    ensures Clash(s, u) == Clash(u, s) && Clash(t, u) == Clash(u, t)
  {
    forall g
      ensures Holds(m, g) <==> Holds(s, g) || Holds(t, g)
    {
      SameHolds(m, s + t, g);
      ConcatHolds(s, t, g);
    }
  }

  lemma ConcatHolds(s: seq<Record>, t: seq<Record>, g: Gram)
    ensures Holds(s + t, g) <==> Holds(s, g) || Holds(t, g)
  {
    if Holds(s, g) {
      var i :| 0 <= i < |s| && s[i].gram == g;
      assert (s + t)[i].gram == g;
    }
    if Holds(t, g) {
      var i :| 0 <= i < |t| && t[i].gram == g;
      assert (s + t)[|s| + i].gram == g;
    }
  }

  /** The batches in which the lines are read. */
  function Batches(lines: seq<Record>, size: nat): seq<seq<Record>>
    requires 0 < size
    decreases |lines|
  {
    if |lines| <= size then if lines == [] then [] else [lines] else [lines[..size]] + Batches(lines[size..], size)
  }

  /** All batches are full, except that the last one may be shorter. */
  lemma {:induction false} BatchesAreFull(lines: seq<Record>, size: nat)
    requires 0 < size
    ensures forall k :: 0 <= k < |Batches(lines, size)| ==>
              0 < |Batches(lines, size)[k]| <= size && (k < |Batches(lines, size)| - 1 ==> |Batches(lines, size)[k]| == size)
    decreases |lines|
  {
    if size < |lines| {
      BatchesAreFull(lines[size..], size);
    }
  }

  ghost predicate AllSorted(files: seq<seq<Record>>) {
    forall k :: 0 <= k < |files| ==> RecordsSorted(files[k])
  }

  ghost predicate InSomeContext(contexts: seq<seq<Gram>>, g: Gram) {
    exists k :: 0 <= k < |contexts| && g in contexts[k]
  }

  ghost predicate ContextsSorted(contexts: seq<seq<Gram>>) {
    forall k :: 0 <= k < |contexts| ==> Sorted(contexts[k])
  }

  lemma MergedContexts(contexts: seq<seq<Gram>>, m: seq<Gram>, g: Gram)
    requires 2 <= |contexts| && (g in m <==> g in contexts[0] || g in contexts[1])
    ensures InSomeContext(contexts[2..] + [m], g) <==> InSomeContext(contexts, g)
  {
    var contexts' := contexts[2..] + [m];
    if InSomeContext(contexts, g) {
      var k :| 0 <= k < |contexts| && g in contexts[k];
      assert if 2 <= k then g in contexts'[k - 2] else g in contexts'[|contexts| - 2];
    }
    if InSomeContext(contexts', g) {
      var k :| 0 <= k < |contexts'| && g in contexts'[k];
      assert k < |contexts| - 2 ==> g in contexts[k + 2];
    }
  }

  /** A clash between sorted batches is one between the batches. */
  ghost predicate SortedOf(files: seq<seq<Record>>, batches: seq<seq<Record>>) {
    |files| == |batches| && forall k :: 0 <= k < |files| ==> files[k] == SortBatch(batches[k])
  }

  lemma SameClashes(files: seq<seq<Record>>, batches: seq<seq<Record>>)
    requires SortedOf(files, batches)
    ensures CrossClash(files) <==> CrossClash(batches)
  {
    forall i, j | 0 <= i < j < |files|
      ensures Clash(files[i], files[j]) <==> Clash(batches[i], batches[j])
    {
      forall g
        ensures Holds(files[i], g) <==> Holds(batches[i], g)
        ensures Holds(files[j], g) <==> Holds(batches[j], g)
      {
        SortHolds(batches[i], g);
        SortHolds(batches[j], g);
      }
    }
  }

  lemma {:induction false} SortedFlatten(files: seq<seq<Record>>, batches: seq<seq<Record>>)
    requires SortedOf(files, batches)
    ensures multiset(Flatten(files)) == multiset(Flatten(batches)) && AllSorted(files)
  {
    if files != [] {
      SortIsSorted(batches[0]);
      SortedFlatten(files[1..], batches[1..]);
    }
  }

  lemma {:induction false} BatchesFlatten(lines: seq<Record>, size: nat)
    requires 0 < size
    ensures Flatten(Batches(lines, size)) == lines
    decreases |lines|
  {
    if size < |lines| {
      BatchesFlatten(lines[size..], size);
      assert lines == lines[..size] + lines[size..];
    }
  }

  datatype SortResult = SortedFiles(full: seq<Record>, contexts: seq<Gram>) | NoFiles | DuplicateNGram

  class Sorter {
    var files: seq<seq<Record>>
    var contexts: seq<seq<Gram>>

    constructor ()
      ensures files == [] && contexts == []
    {
      files, contexts := [], [];
    }

    /** Reads batch after batch, sorting each and its contexts. */
    method ReadBatches(lines: seq<Record>, batchSize: nat)
      requires 0 < batchSize && files == [] && contexts == [] && forall i :: 0 <= i < |lines| ==> lines[i].gram != []
      modifies this
      ensures SortedOf(files, Batches(lines, batchSize)) && |contexts| == |files| && ContextsSorted(contexts)
      ensures forall g :: InSomeContext(contexts, g) <==> HasContext(lines, g)
    {
      hide ReadSoFar, SortedOf, ContextsSorted, InSomeContext, HasContext, Batches, Sorted;
      var done := 0;
      NothingRead(lines, batchSize);
      while done < |lines|
        invariant done <= |lines| && ReadSoFar(lines, batchSize, done, files, contexts)
      {
        var n := if |lines| - done < batchSize then |lines| - done else batchSize;
        var batch := lines[done..done + n];
        var c := WriteContextFile(batch);
        NextRead(lines, batchSize, done, files, contexts, c);
        files := files + [SortBatch(batch)];
        contexts := contexts + [c];
        done := done + n;
      }
      AllRead(lines, batchSize, files, contexts);
    }

    /** Merges the first two files until one is left; an n-gram in two batches is an error. */
    method MergeAll(ghost batches: seq<seq<Record>>, ghost lines: seq<Record>) returns (ok: bool)
      requires QueueOk(files, contexts, batches, lines)
      modifies this
      ensures ok <==> !CrossClash(batches)
      ensures |old(files)| <= 1 ==> files == old(files)
      ensures ok ==> |files| <= 1 && QueueOk(files, contexts, batches, lines)
    {
      hide CrossClash, Clash, Less, RecordsSorted, Sorted, Flatten;
      while |files| > 1
        invariant QueueOk(files, contexts, batches, lines)
        invariant |old(files)| <= 1 ==> files == old(files)
        decreases |files|
      {
        var m := MergeSortedFiles(files[0], files[1]);
        if m.Duplicate? {
          ClashIsCross(files);
          return false;
        }
        var c := MergeContexts(contexts[0], contexts[1]);
        QueueStep(files, contexts, batches, lines, m.records, c);
        files := files[2..] + [m.records];
        contexts := contexts[2..] + [c];
      }
      NoCrossClash(files);
      ok := true;
    }
  }

  /** The first `done` lines have been read and sorted in batches. */
  ghost predicate ReadSoFar(lines: seq<Record>, size: nat, done: nat, files: seq<seq<Record>>, contexts: seq<seq<Gram>>)
    requires 0 < size && done <= |lines|
  {
    && |contexts| == |files| && ContextsSorted(contexts)
    && |files| <= |Batches(lines, size)| && SortedOf(files, Batches(lines, size)[..|files|])
    && Batches(lines[done..], size) == Batches(lines, size)[|files|..]
    && forall g :: InSomeContext(contexts, g) <==> HasContext(lines[..done], g)
  }

  lemma NothingRead(lines: seq<Record>, size: nat)
    requires 0 < size
    ensures ReadSoFar(lines, size, 0, [], [])
  {
    hide Batches;
    assert lines[0..] == lines;
  }

  lemma NextRead(lines: seq<Record>, size: nat, done: nat, files: seq<seq<Record>>, contexts: seq<seq<Gram>>, c: seq<Gram>)
    requires 0 < size && done < |lines| && ReadSoFar(lines, size, done, files, contexts) && Sorted(c)
    requires var n := if |lines| - done < size then |lines| - done else size;
             forall g :: g in c <==> HasContext(lines[done..done + n], g)
    ensures var n := if |lines| - done < size then |lines| - done else size;
            ReadSoFar(lines, size, done + n, files + [SortBatch(lines[done..done + n])], contexts + [c])
  {
    hide Batches, SortBatch, SortedOf, InSomeContext, HasContext, Sorted;
    var n := if |lines| - done < size then |lines| - done else size;
    var batch := lines[done..done + n];
    assert lines[done..][..n] == batch && lines[done..][n..] == lines[done + n..];
    NextBatch(Batches(lines, size), lines[done..], size, files, batch);
    NewContexts(lines, done, n, contexts, c);
  }

  lemma AllRead(lines: seq<Record>, size: nat, files: seq<seq<Record>>, contexts: seq<seq<Gram>>)
    requires 0 < size && ReadSoFar(lines, size, |lines|, files, contexts)
    ensures SortedOf(files, Batches(lines, size)) && |contexts| == |files| && ContextsSorted(contexts)
    ensures forall g :: InSomeContext(contexts, g) <==> HasContext(lines, g)
  {
    assert Batches(lines[|lines|..], size) == [];
    hide SortedOf, InSomeContext, HasContext, ContextsSorted;
    var all := Batches(lines, size);
    assert all[|files|..] == [] && all[..|files|] == all;
    assert lines[..|lines|] == lines;
  }

  /** The files in the queue are sorted and together hold the lines; their contexts are those of the lines. */
  ghost predicate QueueOk(files: seq<seq<Record>>, contexts: seq<seq<Gram>>, batches: seq<seq<Record>>, lines: seq<Record>) {
    && |contexts| == |files| && AllSorted(files) && ContextsSorted(contexts)
    && multiset(Flatten(files)) == multiset(lines) && (CrossClash(files) <==> CrossClash(batches))
    && forall g :: InSomeContext(contexts, g) <==> HasContext(lines, g)
  }

  lemma QueueStarts(files: seq<seq<Record>>, contexts: seq<seq<Gram>>, batches: seq<seq<Record>>, lines: seq<Record>)
    requires SortedOf(files, batches) && |contexts| == |files| && ContextsSorted(contexts)
    requires multiset(Flatten(batches)) == multiset(lines)
    requires forall g :: InSomeContext(contexts, g) <==> HasContext(lines, g)
    ensures QueueOk(files, contexts, batches, lines) && |files| == |batches|
  {
    SameClashes(files, batches);
    SortedFlatten(files, batches);
  }

  lemma QueueStep(files: seq<seq<Record>>, contexts: seq<seq<Gram>>, batches: seq<seq<Record>>, lines: seq<Record>, m: seq<Record>, c: seq<Gram>)
    requires QueueOk(files, contexts, batches, lines) && 2 <= |files| && !Clash(files[0], files[1])
    requires RecordsSorted(m) && multiset(m) == multiset(files[0]) + multiset(files[1])
    requires Sorted(c) && forall g :: g in c <==> g in contexts[0] || g in contexts[1]
    ensures QueueOk(files[2..] + [m], contexts[2..] + [c], batches, lines)
  {
    MergedFlatten(files, m);
    MergedClash(files, m);
    forall g
      ensures InSomeContext(contexts[2..] + [c], g) <==> HasContext(lines, g)
    {
      MergedContexts(contexts, c, g);
    }
  }

  lemma ClashIsCross(files: seq<seq<Record>>)
    requires 2 <= |files| && Clash(files[0], files[1])
    ensures CrossClash(files)
  {
  }

  lemma NoCrossClash(files: seq<seq<Record>>)
    requires |files| <= 1
    ensures !CrossClash(files)
  {
  }

  /** Sorts the n-grams of one order and their contexts. Fails if and only if two batches share an n-gram. */
  method ConvertToSorted(lines: seq<Record>, batchSize: nat) returns (r: SortResult)
    requires 0 < batchSize && forall i :: 0 <= i < |lines| ==> lines[i].gram != []
    ensures r.DuplicateNGram? <==> CrossClash(Batches(lines, batchSize))
    ensures r.NoFiles? <==> lines == []
    ensures r.SortedFiles? ==>
              && RecordsSorted(r.full) && multiset(r.full) == multiset(lines)
              && Sorted(r.contexts) && forall g :: g in r.contexts <==> HasContext(lines, g)
  {
    hide Clash, CrossClash, SortedOf, Batches, QueueOk, RecordsSorted, Sorted, HasContext, Flatten;
    var sorter := new Sorter();
    sorter.ReadBatches(lines, batchSize);
    BatchesFlatten(lines, batchSize);
    QueueStarts(sorter.files, sorter.contexts, Batches(lines, batchSize), lines);
    var ok := sorter.MergeAll(Batches(lines, batchSize), lines);
    NoBatches(batchSize);
    if !ok {
      return DuplicateNGram;
    }
    QueueEnds(sorter.files, sorter.contexts, Batches(lines, batchSize), lines);
    r := if sorter.files == [] then NoFiles else SortedFiles(sorter.files[0], sorter.contexts[0]);
  }

  lemma NoBatches(size: nat)
    requires 0 < size
    ensures Batches([], size) == [] && !CrossClash([])
  {
  }

  lemma OneContext(c: seq<Gram>, g: Gram)
    ensures InSomeContext([c], g) <==> g in c
  {
    assert [c][0] == c;
  }

  lemma QueueEnds(files: seq<seq<Record>>, contexts: seq<seq<Gram>>, batches: seq<seq<Record>>, lines: seq<Record>)
    requires QueueOk(files, contexts, batches, lines) && |files| <= 1
    ensures |contexts| == |files| && (files == [] ==> lines == [])
    ensures files != [] ==>
              && RecordsSorted(files[0]) && multiset(files[0]) == multiset(lines)
              && Sorted(contexts[0]) && forall g :: g in contexts[0] <==> HasContext(lines, g)
  {
    hide CrossClash, RecordsSorted, Sorted, HasContext;
    assert |multiset(lines)| == |lines|;
    if files != [] {
      assert files == [files[0]] && Flatten(files) == files[0];
      forall g
        ensures g in contexts[0] <==> HasContext(lines, g)
      {
        assert contexts == [contexts[0]];
        OneContext(contexts[0], g);
      }
    }
  }

  lemma NextBatch(all: seq<seq<Record>>, rest: seq<Record>, size: nat, files: seq<seq<Record>>, batch: seq<Record>)
    requires 0 < size && rest != [] && |files| <= |all| && SortedOf(files, all[..|files|])
    requires Batches(rest, size) == all[|files|..] && |batch| == (if |rest| < size then |rest| else size) && batch == rest[..|batch|]
    ensures |files| < |all| && SortedOf(files + [SortBatch(batch)], all[..|files| + 1])
    ensures Batches(rest[|batch|..], size) == all[|files| + 1..]
  {
    hide Batches, SortBatch;
    BatchesStep(rest, size);
    assert all[|files|..][0] == all[|files|] && all[|files|..][1..] == all[|files| + 1..];
    assert all[..|files| + 1] == all[..|files|] + [batch];
  }

  lemma BatchesStep(lines: seq<Record>, size: nat)
    requires 0 < size && lines != []
    ensures var n := if |lines| < size then |lines| else size;
            Batches(lines, size) == [lines[..n]] + Batches(lines[n..], size)
  {
    if |lines| <= size {
      assert lines[..|lines|] == lines;
    }
  }

  lemma NewContexts(lines: seq<Record>, done: nat, n: nat, contexts: seq<seq<Gram>>, c: seq<Gram>)
    requires done + n <= |lines| && forall g :: g in c <==> HasContext(lines[done..done + n], g)
    requires forall g :: InSomeContext(contexts, g) <==> HasContext(lines[..done], g)
    ensures forall g :: InSomeContext(contexts + [c], g) <==> HasContext(lines[..done + n], g)
  {
    assert lines[..done + n] == lines[..done] + lines[done..done + n];
    forall g
      ensures InSomeContext(contexts + [c], g) <==> HasContext(lines[..done + n], g)
    {
      ConcatHasContext(lines[..done], lines[done..done + n], g);
      if InSomeContext(contexts, g) {
        var k :| 0 <= k < |contexts| && g in contexts[k];
        assert g in (contexts + [c])[k];
      }
      assert (contexts + [c])[|contexts|] == c;
    }
  }

  lemma ConcatHasContext(s: seq<Record>, t: seq<Record>, g: Gram)
    ensures HasContext(s + t, g) <==> HasContext(s, g) || HasContext(t, g)
  {
    if HasContext(s, g) {
      var i :| 0 <= i < |s| && s[i].gram != [] && s[i].gram[1..] == g;
      assert (s + t)[i] == s[i];
    }
    if HasContext(t, g) {
      var i :| 0 <= i < |t| && t[i].gram != [] && t[i].gram[1..] == g;
      assert (s + t)[|s| + i] == t[i];
    }
  }
}
