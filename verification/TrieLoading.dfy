/** From the lines of a file to a finished trie. */
module TrieLoading {
  import opened NGrams
  import opened HashedBuild
  import opened TrieMerge
  import opened TrieSearch
  import opened TrieLookup
  import opened TrieMessages
  import opened TrieBuild
  import Sort = ExternalSort

  lemma {:induction false} ClashInFlatten(files: seq<seq<Record>>) returns (i: nat, j: nat)
    requires Sort.CrossClash(files)
    ensures i < j < |Sort.Flatten(files)| && Sort.Flatten(files)[i].gram == Sort.Flatten(files)[j].gram
  {
    var k, l :| 0 <= k < l < |files| && Sort.Clash(files[k], files[l]);
    if k == 0 {
      var g :| Sort.Holds(files[0], g) && Sort.Holds(files[l], g);
      i :| 0 <= i < |files[0]| && files[0][i].gram == g;
      assert files[1..][l - 1] == files[l];
      j := InFlatten(files[1..], l - 1, g);
      j := j + |files[0]|;
    } else {
      assert files[1..][k - 1] == files[k] && files[1..][l - 1] == files[l];
      i, j := ClashInFlatten(files[1..]);
      i, j := i + |files[0]|, j + |files[0]|;
    }
  }

  lemma {:induction false} InFlatten(files: seq<seq<Record>>, k: nat, g: Gram) returns (i: nat)
    requires k < |files| && Sort.Holds(files[k], g)
    ensures i < |Sort.Flatten(files)| && Sort.Flatten(files)[i].gram == g
  {
    if k == 0 {
      i :| 0 <= i < |files[0]| && files[0][i].gram == g;
    } else {
      i := InFlatten(files[1..], k - 1, g);
      i := i + |files[0]|;
    }
  }

  /** Lines that list every n-gram once are never taken for duplicates. */
  lemma NoDuplicates(a: Lm, n: nat, lines: seq<Record>, size: nat)
    requires Lists(a, n, lines) && 0 < size
    ensures !Sort.CrossClash(Sort.Batches(lines, size))
  {
    if Sort.CrossClash(Sort.Batches(lines, size)) {
      Sort.BatchesFlatten(lines, size);
      var i, j := ClashInFlatten(Sort.Batches(lines, size));
      assert false;
    }
  }

  /** Sorted, the lines of one order are what the builder reads. */
  lemma SortedIsStream(a: Lm, n: nat, lines: seq<Record>, full: seq<Record>)
    requires ValidArpa(a) && Lists(a, n, lines) && Sort.RecordsSorted(full) && multiset(full) == multiset(lines)
    ensures StreamOk(a, full, n)
  {
    forall r
      ensures r in full <==> r in lines
    {
      assert r in full <==> r in multiset(full);
      assert r in lines <==> r in multiset(lines);
    }
    forall i, j | 0 <= i < j < |full|
      ensures Less(full[i].gram, full[j].gram)
    {
      assert NotAfter(full[i].gram, full[j].gram);
      if full[i].gram == full[j].gram {
        OnceEach(lines, full, i, j);
        assert false;
      }
    }
    forall j | 0 <= j < |full|
      ensures RecordOk(a, full[j], n)
    {
      assert full[j] in lines;
      var k :| 0 <= k < |lines| && lines[k] == full[j];
      assert LineMatches(a, n, lines[k]);
    }
    forall g | a.Has(g) && |g| == n
      ensures InStream(full, 0, g)
    {
      assert g in UpTo(a, n);
      var k :| 0 <= k < |lines| && lines[k].gram == g;
      assert lines[k] in full;
    }
  }

  lemma OnceEach(lines: seq<Record>, full: seq<Record>, i: nat, j: nat)
    requires multiset(full) == multiset(lines) && i < j < |full|
    requires forall i, j :: 0 <= i < j < |lines| ==> lines[i].gram != lines[j].gram
    ensures full[i].gram != full[j].gram
  {
    assert full[i] in multiset(lines) && full[j] in multiset(lines);
    if full[i] == full[j] {
      TwiceThere(full, i, j);
      AtMostOnce(lines, full[i]);
      assert false;
    }
  }

  lemma TwiceThere(s: seq<Record>, i: nat, j: nat)
    requires i < j < |s| && s[i] == s[j]
    ensures 2 <= multiset(s)[s[i]]
  {
    assert s == s[..j] + s[j..];
    assert s[..j][i] == s[i] && s[j..][0] == s[i];
    assert s[i] in s[..j] && s[i] in s[j..];
  }

  lemma {:induction false} AtMostOnce(s: seq<Record>, r: Record)
    requires forall i, j :: 0 <= i < j < |s| ==> s[i].gram != s[j].gram
    ensures multiset(s)[r] <= 1
  {
    if s != [] {
      var rest, last := s[..|s| - 1], s[|s| - 1];
      assert s == rest + [last];
      AtMostOnce(rest, r);
      assert forall x :: x in rest ==> x.gram != last.gram;
    }
  }

  /** The contexts gathered from the lines of order n+1 are those of the file. */
  lemma ContextsOfLines(a: Lm, n: nat, lines: seq<Record>, g: Gram)
    requires ValidArpa(a) && 1 <= n && Lists(a, n + 1, lines)
    ensures Sort.HasContext(lines, g) <==> |g| == n && IsContext(g, a.table)
  {
    if Sort.HasContext(lines, g) {
      var i :| 0 <= i < |lines| && lines[i].gram != [] && lines[i].gram[1..] == g;
      assert LineMatches(a, n + 1, lines[i]);
      assert [lines[i].gram[0]] + g == lines[i].gram;
    }
    if |g| == n && IsContext(g, a.table) {
      var w: Word :| [w] + g in a.table;
      var x := [w] + g;
      assert x in UpTo(a, n + 1);
      var i :| 0 <= i < |lines| && lines[i].gram == x;
      assert x[1..] == g;
    }
  }

  /** The sorted n-grams and contexts of the orders up to n. */
  ghost predicate SortedUpTo(a: Lm, records: seq<seq<Record>>, contexts: seq<seq<Gram>>, n: nat) {
    && |records| == n + 1 && |contexts| == n && (n != 0 ==> contexts[0] == [])
    && (forall i :: 1 <= i <= n ==> StreamOk(a, records[i], i))
    && (forall i :: 1 <= i < n ==> ContextsOk(a, contexts[i], i))
  }

  ghost predicate ContextsOk(a: Lm, contexts: seq<Gram>, n: nat) {
    Sorted(contexts) && forall g :: g in contexts <==> |g| == n && IsContext(g, a.table)
  }

  lemma SortedIsReady(a: Lm, records: seq<seq<Record>>, contexts: seq<seq<Gram>>)
    requires ValidArpa(a) && SortedUpTo(a, records, contexts, a.order)
    ensures RecordsOk(a, records) && ContextsListed(a, contexts + [[]])
  {
    var all := contexts + [[]];
    forall n | 0 <= n < |all|
      ensures Sorted(all[n]) && forall j :: 0 <= j < |all[n]| ==> |all[n][j]| == n
    {
      if 1 <= n < a.order {
        assert ContextsOk(a, contexts[n], n);
      }
    }
    forall g: Gram | 1 <= |g| < a.order
      ensures g in all[|g|] <==> IsContext(g, a.table)
    {
      assert ContextsOk(a, contexts[|g|], |g|);
    }
  }

  lemma UnigramStream(a: Lm, unigrams: seq<Record>)
    requires ValidArpa(a) && |unigrams| == a.bound
    requires forall w :: 0 <= w < a.bound ==> a.Has([w]) && unigrams[w] == Record([w], a.table[[w]].prob, a.table[[w]].backoff)
    ensures StreamOk(a, unigrams, 1)
  {
    forall i, j | 0 <= i < j < |unigrams|
      ensures Less(unigrams[i].gram, unigrams[j].gram)
    {
      LessWords(i, j);
    }
    forall g | a.Has(g) && |g| == 1
      ensures InStream(unigrams, 0, g)
    {
      assert LineOk(a, g) && g == [g[0]];
      assert unigrams[g[0]].gram == g;
    }
  }

  /** One more order, sorted with a buffer of `batchSize` records. */
  method SortOrder(a: Lm, n: nat, lines: seq<Record>, batchSize: nat) returns (records: seq<Record>, contexts: seq<Gram>)
    requires ValidArpa(a) && 2 <= n && Lists(a, n, lines) && 0 < batchSize
    ensures StreamOk(a, records, n) && ContextsOk(a, contexts, n - 1)
  {
    forall i | 0 <= i < |lines|
      ensures lines[i].gram != []
    {
      assert LineMatches(a, n, lines[i]);
    }
    NoDuplicates(a, n, lines, batchSize);
    forall g
      ensures Sort.HasContext(lines, g) <==> |g| == n - 1 && IsContext(g, a.table)
    {
      ContextsOfLines(a, n - 1, lines, g);
    }
    var r := Sort.ConvertToSorted(lines, batchSize);
    hide ValidArpa, Lists, IsContext, Less;
    records, contexts := if r.SortedFiles? then r.full else [], if r.SortedFiles? then r.contexts else [];
    SortedIsStream(a, n, lines, records);
  }

  /** The trie of a file, with what it was written from. */
  ghost predicate TrieFor(file: Lm, src: Sources, out: seq<Emission>, records: seq<seq<Record>>, levels: seq<Level>) {
    && TrieOk(src, out, levels) && SameFile(file, src.file) && Finished(file, out)
    && RecordsOk(file, records) && ContextsListed(file, src.contexts)
    && AllKept(file, out, records, src.kept) && AllFlagged(file, src.file, out)
  }

  /** Sorts the n-grams of a file and builds its trie. */
  method LoadTrie(file: Lm, lines: seq<seq<Record>>, batchSize: nat)
    returns (ok: bool, trie: Trie, ghost src: Sources, ghost out: seq<Emission>, ghost sorted: seq<seq<Record>>)
    requires ValidArpa(file) && |lines| == file.order && (forall i :: 0 <= i < file.order ==> Lists(file, i + 1, lines[i]))
    requires 0 < batchSize
    ensures ok <==> ContextsIn(file)
    ensures ok ==> trie.order == file.order && TrieFor(file, src, out, sorted, trie.levels)
  {
    forall w | 0 <= w < file.bound
      ensures file.Has([w])
    {
      WordsIn(file, w);
    }
    var unigrams := seq(file.bound, w requires 0 <= w < file.bound => Record([w], file.table[[w]].prob, file.table[[w]].backoff));
    UnigramStream(file, unigrams);
    var records, contexts := [[], unigrams], [[]];
    hide StreamOk, ContextsOk, Lists, ValidArpa, RecordsOk, ContextsListed, AllKept, AllFlagged, TrieOk, Finished, SameFile;
    for n := 2 to file.order + 1
      invariant SortedUpTo(file, records, contexts, n - 1)
    {
      assert Lists(file, n, lines[n - 1]);
      var r, c := SortOrder(file, n, lines[n - 1], batchSize);
      records, contexts := records + [r], contexts + [c];
    }
    SortedIsReady(file, records, contexts);
    sorted := records;
    ok, trie, src, out := BuildTrie(file, records, contexts + [[]]);
  }

  /** The log-probability that chained lookups find for a stored n-gram is the file's, blanks included. */
  lemma LoadedWeights(file: Lm, src: Sources, out: seq<Emission>, g: Gram, w: ProbBackoff)
    requires ValidArpa(file) && SameFile(file, src.file) && src.Valid() && Finished(src.file, out)
    requires g != [] && InClosure(file, g) && HasWeights(src, out, g, w)
    ensures file.Has([g[0]]) && w.prob == file.Textbook(g[0], g[1..]) && w.backoff.Value() == file.BackoffOf(g)
  {
    var x :| file.Has(x) && g <= x;
    assert src.file.Has(x);
    assert LineOk(file, x) && g[0] == x[0];
    WordsIn(file, g[0]);
    WeightsAreTextbook(src, out, g, w);
    SameTextbookFile(file, src.file, g[0], g[1..]);
    SameBackoffOf(file, src.file, g);
  }
}
