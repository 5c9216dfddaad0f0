/** Building the trie from the sorted n-grams: one pass to find the blanks and their probabilities, one to write. */
module TrieBuild {
  import opened NGrams
  import opened HashedBuild
  import opened TrieMerge
  import opened TrieLayout
  import opened TrieSearch
  import opened TrieLookup
  import opened TrieMessages

  /** The file after the passing of messages: the n-grams that got one carry the extension flag. */
  function Rewritten(a: Lm, got: set<Gram>): Lm {
    a.(table := map g | g in a.table ::
         if g in got && |g| < a.order then a.table[g].(backoff := a.table[g].backoff.SetExtension()) else a.table[g])
  }

  /** The same n-grams with the same weights; extension flags may differ. */
  ghost predicate SameFile(a: Lm, a': Lm) {
    && a.order == a'.order && a.bound == a'.bound && a.table.Keys == a'.table.Keys
    && forall g :: g in a.table ==> SameEntry(a.table[g], a'.table[g], |g| == a.order)
  }

  predicate SameEntry(e: Entry, e': Entry, longest: bool) {
    e'.prob == e.prob && e'.backoff.Value() == e.backoff.Value() && (longest ==> e' == e)
  }

  lemma RewrittenIsSame(a: Lm, got: set<Gram>)
    ensures SameFile(a, Rewritten(a, got))
  {
  }

  lemma SameIsValid(a: Lm, a': Lm)
    requires ValidArpa(a) && SameFile(a, a')
    ensures ValidArpa(a')
  {
    forall g
      ensures LineOk(a', g)
    {
      assert LineOk(a, g);
      assert a'.Has(g) ==> SameEntry(a.table[g], a'.table[g], |g| == a.order);
    }
    forall w: Word | w < a'.bound
      ensures a'.Has([w])
    {
      WordsIn(a, w);
    }
  }

  lemma {:induction false} SameLongestReal(a: Lm, a': Lm, g: Gram)
    requires SameFile(a, a')
    ensures LongestReal(a', g) == LongestReal(a, g)
    decreases |g|
  {
    if g != [] && !a.Has(g) {
      SameLongestReal(a, a', g[..|g| - 1]);
    }
  }

  lemma {:induction false} SameTextbookFile(a: Lm, a': Lm, w: Word, h: seq<Word>)
    requires SameFile(a, a') && a.Has([w])
    ensures a'.Has([w]) && a'.Textbook(w, h) == a.Textbook(w, h)
    decreases |h|
  {
    assert SameEntry(a.table[[w]], a'.table[[w]], |[w]| == a.order);
    if h != [] {
      if a.Has([w] + h) {
        assert SameEntry(a.table[[w] + h], a'.table[[w] + h], |[w] + h| == a.order);
      } else {
        SameTextbookFile(a, a', w, h[..|h| - 1]);
        SameBackoffOf(a, a', h);
      }
    }
  }

  lemma SameBackoffOf(a: Lm, a': Lm, h: Gram)
    requires SameFile(a, a')
    ensures a'.BackoffOf(h) == a.BackoffOf(h)
  {
    assert a.Has(h) ==> SameEntry(a.table[h], a'.table[h], |h| == a.order);
  }

  lemma SameEmission(a: Lm, a': Lm, e: Emission)
    requires SameFile(a, a') && EmissionOk(a, e)
    ensures EmissionOk(a', e)
  {
    if e.Blank? {
      SameLongestReal(a, a', e.gram);
      var p := e.gram[..e.lower];
      assert SameEntry(a.table[p], a'.table[p], |p| == a.order);
    }
  }

  /** Merging the rewritten file makes the same calls. */
  lemma SameCalls(a: Lm, a': Lm, out: seq<Emission>, out': seq<Emission>)
    requires ValidArpa(a) && SameFile(a, a') && Finished(a, out) && Finished(a', out')
    ensures out' == out
  {
    SameIsValid(a, a');
    var body := out[..|out| - 1];
    forall k | 0 <= k < |body|
      ensures EmissionOk(a', body[k]) && InClosure(a', body[k].gram)
    {
      SameEmission(a, a', body[k]);
      assert InClosure(a, body[k].gram);
      var x :| a.Has(x) && body[k].gram <= x;
      assert a'.Has(x);
    }
    forall g
      ensures VisitedOrWaiting(a', body, {}, g)
    {
      assert VisitedOrWaiting(a, body, {}, g);
    }
    assert Merged(a', body, {}) by {
      assert forall g :: Waits(body, {}, g);
    }
    FinishedUnique(a', out, out');
  }

  lemma RewrittenStream(a: Lm, got: set<Gram>, records: seq<Record>, records': seq<Record>, s: seq<Message>, i: nat)
    requires StreamOk(a, records, i) && i < a.order && RecordsNow(records, records', s, |s|)
    requires forall g: Gram :: |g| == i ==> (g in got <==> Sent(s, |s|, g))
    ensures StreamOk(Rewritten(a, got), records', i)
  {
    var a' := Rewritten(a, got);
    forall j | 0 <= j < |records|
      ensures records'[j].gram == records[j].gram && RecordOk(a', records'[j], i)
    {
      assert RecordOk(a, records[j], i) && RecordNow(records[j], records'[j], Sent(s, |s|, records[j].gram));
    }
    forall g | a'.Has(g) && |g| == i
      ensures InStream(records', 0, g)
    {
      assert InStream(records, 0, g);
      var j :| 0 <= j < |records| && records[j].gram == g;
      assert records'[j].gram == g;
    }
  }

  /** The longest n-grams get no messages. */
  lemma LongestStream(a: Lm, got: set<Gram>, records: seq<Record>)
    requires StreamOk(a, records, a.order)
    ensures StreamOk(Rewritten(a, got), records, a.order)
  {
    var a' := Rewritten(a, got);
    forall j | 0 <= j < |records|
      ensures RecordOk(a', records[j], a.order)
    {
      assert RecordOk(a, records[j], a.order);
    }
    forall g | a'.Has(g) && |g| == a.order
      ensures InStream(records, 0, g)
    {
      assert a.Has(g);
    }
  }

  // ----- the builder -----

  /** The contexts of the n-grams of the next order, sorted, each once. */
  ghost predicate ContextsListed(a: Lm, contexts: seq<seq<Gram>>) {
    && |contexts| == a.order + 1 && contexts[0] == contexts[a.order] == []
    && (forall n :: 0 <= n < |contexts| ==> Sorted(contexts[n]) && forall j :: 0 <= j < |contexts[n]| ==> |contexts[n][j]| == n)
    && (forall g: Gram :: 1 <= |g| < a.order ==> (g in contexts[|g|] <==> IsContext(g, a.table)))
  }

  /** The contexts listed are in the file if and only if the file lists the context of every n-gram. */
  lemma ContextsRealIff(a: Lm, src: Sources)
    requires ValidArpa(a) && ContextsListed(a, src.contexts) && SameFile(a, src.file)
    ensures ContextsReal(src) <==> ContextsIn(a)
  {
    if ContextsReal(src) {
      forall g | a.Has(g) && 1 < |g|
        ensures a.Has(g[1..])
      {
        assert LineOk(a, g) && g == [g[0]] + g[1..];
        assert g[1..] in src.contexts[|g[1..]|];
        var j :| 0 <= j < |src.contexts[|g| - 1]| && src.contexts[|g| - 1][j] == g[1..];
        assert src.file.Has(src.contexts[|g| - 1][j]);
      }
    }
    if ContextsIn(a) {
      forall n, j | 1 <= n < src.file.order && n < |src.contexts| && 0 <= j < |src.contexts[n]|
        ensures src.file.Has(src.contexts[n][j])
      {
        var g := src.contexts[n][j];
        assert g in src.contexts[|g|];
        var w: Word :| [w] + g in a.table;
        assert ([w] + g)[1..] == g;
      }
    }
  }

  /** The n-grams that messages went to. */
  function Recipients(messages: seq<seq<Message>>, order: nat): set<Gram> {
    set i, m | 1 <= i < order && i < |messages| && m in messages[i] :: m.to
  }

  lemma RecipientsAre(a: Lm, out: seq<Emission>, messages: seq<seq<Message>>, i: nat)
    requires BlanksOk(a, out) && 1 <= i < a.order && |messages| == a.order + 1
    requires forall n :: 0 <= n <= a.order ==> messages[n] == Messages(out, n)
    ensures var s := SortMessages(Messages(out, i));
            forall g: Gram :: |g| == i ==> (g in Recipients(messages, a.order) <==> Sent(s, |s|, g))
  {
    var s := SortMessages(Messages(out, i));
    SortSorts(Messages(out, i));
    SameMembers(s, Messages(out, i));
    forall g: Gram | |g| == i
      ensures g in Recipients(messages, a.order) <==> Sent(s, |s|, g)
    {
      if g in Recipients(messages, a.order) {
        var j, m :| 1 <= j < a.order && m in messages[j] && m.to == g;
        MessagesHaveOrder(a, out, j);
        assert m in s;
      }
      if Sent(s, |s|, g) {
        var k :| 0 <= k < |s| && s[k].to == g;
        assert s[k] in messages[i];
      }
    }
  }

  lemma FinishedBlanksOk(a: Lm, out: seq<Emission>)
    requires Finished(a, out)
    ensures BlanksOk(a, out)
  {
    var body := out[..|out| - 1];
    forall k | 0 <= k < |out| && out[k].Blank?
      ensures EmissionOk(a, out[k])
    {
      assert EmissionOk(a, body[k]) && body[k] == out[k];
    }
  }

  lemma ValuesAreReady(a: Lm, src: Sources, out: seq<Emission>, n: nat)
    requires ValidArpa(a) && SameFile(a, src.file) && n < a.order && ValuesNow(a, out, src.values, a.order - 1, n)
    ensures src.ValuesFit(out, n)
  {
    BlanksHaveOrder(out, n);
    forall k | 0 <= k < |src.values[n]|
      ensures src.BlankValue(Blanks(out, n)[k], src.values[n][k])
    {
      var g := Blanks(out, n)[k];
      LongestRealFacts(a, g);
      SameTextbookFile(a, src.file, g[0], g[1..]);
      assert g[1..|g|] == g[1..];
    }
  }

  lemma SourcesValid(a: Lm, src: Sources, out: seq<Emission>, records: seq<seq<Record>>, records': seq<seq<Record>>)
    requires ValidArpa(a) && SameFile(a, src.file) && ContextsListed(a, src.contexts)
    requires |src.values| == |src.kept| == |records| == |records'| == a.order + 1 && src.kept[0] == src.kept[a.order] == []
    requires forall i :: 1 <= i < a.order ==> Delivered(a, out, i, records[i], records'[i], src.kept[i])
    ensures src.Valid()
  {
    SameIsValid(a, src.file);
    forall n | 0 <= n < |src.kept|
      ensures InOrder(src.kept[n])
    {
      assert 1 <= n < a.order ==> Delivered(a, out, n, records[n], records'[n], src.kept[n]);
    }
  }

  lemma RewrittenRecords(a: Lm, out: seq<Emission>, messages: seq<seq<Message>>, records: seq<seq<Record>>,
                         records': seq<seq<Record>>, kept: seq<seq<Gram>>)
    requires BlanksOk(a, out) && RecordsOk(a, records) && |messages| == |records'| == |kept| == a.order + 1
    requires forall n :: 0 <= n <= a.order ==> messages[n] == Messages(out, n)
    requires forall i :: 1 <= i < a.order ==> Delivered(a, out, i, records[i], records'[i], kept[i])
    requires records'[a.order] == records[a.order]
    ensures RecordsOk(Rewritten(a, Recipients(messages, a.order)), records')
  {
    var got := Recipients(messages, a.order);
    forall i | 1 <= i <= a.order
      ensures StreamOk(Rewritten(a, got), records'[i], i)
    {
      if i < a.order {
        RecipientsAre(a, out, messages, i);
        assert Delivered(a, out, i, records[i], records'[i], kept[i]);
        RewrittenStream(a, got, records[i], records'[i], SortMessages(Messages(out, i)), i);
      } else {
        LongestStream(a, got, records[i]);
      }
    }
  }

  /** The unigram records lie in the places of their words. */
  lemma UnigramRecords(a: Lm, s: seq<Record>)
    requires ValidArpa(a) && StreamOk(a, s, 1)
    ensures |s| == a.bound && forall w :: 0 <= w < |s| ==> s[w].prob == ProbOf(a, [w])
  {
    var grams := seq(|s|, i requires 0 <= i < |s| => s[i].gram);
    assert Sorted(grams);
    forall v: Word | v < a.bound
      ensures [v] in grams
    {
      WordsIn(a, v);
      assert InStream(s, 0, [v]);
      var i :| 0 <= i < |s| && s[i].gram == [v];
      assert grams[i] == [v];
    }
    forall i | 0 <= i < |s|
      ensures |grams[i]| == 1 && grams[i][0] < a.bound && RecordOk(a, s[i], 1)
    {
      assert RecordOk(a, s[i], 1) && LineOk(a, s[i].gram);
    }
    hide Less;
    forall v: Word | v < a.bound
      ensures v < |s| && grams[v] == [v]
    {
      WordPlace(grams, v);
    }
    if a.bound < |s| {
      BeyondTheWords(grams, a.bound);
      assert false;
    }
    if 0 < a.bound {
      WordPlace(grams, a.bound - 1);
    }
    forall w | 0 <= w < |s|
      ensures s[w].prob == ProbOf(a, [w])
    {
      assert grams[w] == [w] && RecordOk(a, s[w], 1);
    }
  }

  lemma BeyondTheWords(s: seq<Gram>, n: nat)
    requires Sorted(s) && n < |s| && forall v: Word :: v < n ==> s[v] == [v]
    ensures s[n] != [] && s[n][0] < n ==> s[n] != [s[n][0]]
  {
    if s[n] != [] && s[n][0] < n {
      LessIrreflexive(s[n]);
    }
  }

  method Merge(ghost a: Lm, records: seq<seq<Record>>) returns (out: seq<Emission>)
    requires ValidArpa(a) && RecordsOk(a, records)
    ensures Finished(a, out)
  {
    assert StreamOk(a, records[1], 1);
    UnigramRecords(a, records[1]);
    var probs := seq(|records[1]|, w requires 0 <= w < |records[1]| => records[1][w].prob);
    forall n | 0 <= n < |records[2..]|
      ensures StreamOk(a, records[2..][n], n + 2)
    {
      assert StreamOk(a, records[n + 2], n + 2);
    }
    out := RecursiveInsert(a, records[2..], probs + [0.0]);
  }

  ghost predicate AllKept(a: Lm, out: seq<Emission>, records: seq<seq<Record>>, kept: seq<seq<Gram>>) {
    |records| == |kept| == a.order + 1 && forall i :: 1 <= i < a.order ==> KeptFor(a, out, i, records[i], kept[i])
  }

  ghost predicate AllFlagged(a: Lm, a': Lm, out: seq<Emission>) {
    forall g :: FlaggedFor(a, a', out, g)
  }

  ghost predicate AllValuesFit(src: Sources, out: seq<Emission>) {
    forall n :: 1 <= n < src.file.order ==> src.ValuesFit(out, n)
  }

  /** The first pass finds the blanks, and the messages give them their probabilities. */
  method PrepareSources(file: Lm, records: seq<seq<Record>>, contexts: seq<seq<Gram>>, calls: seq<Emission>)
    returns (sources: Sources, records': seq<seq<Record>>)
    requires ValidArpa(file) && RecordsOk(file, records) && ContextsListed(file, contexts) && BlanksOk(file, calls)
    ensures SameFile(file, sources.file) && sources.contexts == contexts && sources.Valid()
    ensures RecordsOk(sources.file, records')
    ensures AllValuesFit(sources, calls) && AllKept(file, calls, records, sources.kept) && AllFlagged(file, sources.file, calls)
  {
    hide ValidArpa, RecordsOk, BlanksOk, AllDeliveredTo, SameFile, ContextsListed, Rewritten, Recipients, Delivered, AllValuesNow;
    hide AllValuesFit, AllKept, AllFlagged, AllMessages, AllBases, Messages, Bases, StreamOk, Sources.Valid;
    var sri := new SRISucks(file.order);
    sri.FindBlanks(calls, file);
    var kept;
    records', kept := sri.ObtainBackoffs(records, file, calls);
    sources := Sources(Rewritten(file, Recipients(sri.messages, file.order)), contexts, sri.values, kept);
    Prepared(file, records, records', calls, sri.messages, sources);
  }

  lemma Prepared(a: Lm, records: seq<seq<Record>>, records': seq<seq<Record>>, calls: seq<Emission>, messages: seq<seq<Message>>, src: Sources)
    requires ValidArpa(a) && RecordsOk(a, records) && ContextsListed(a, src.contexts) && BlanksOk(a, calls)
    requires |src.values| == a.order + 1
    requires AllMessages(calls, messages, a.order)
    requires AllDeliveredTo(a, calls, records, records', src.kept) && AllValuesNow(a, calls, src.values, a.order - 1, a.order)
    requires src.file == Rewritten(a, Recipients(messages, a.order))
    ensures SameFile(a, src.file) && src.Valid() && RecordsOk(src.file, records')
    ensures AllValuesFit(src, calls) && AllKept(a, calls, records, src.kept) && AllFlagged(a, src.file, calls)
  {
    RecordsCount(a, records);
    hide ValidArpa, RecordsOk, BlanksOk, SameFile, ContextsListed, Rewritten, Recipients, Delivered, AllValuesNow, FlaggedFor, KeptFor,
      Messages;
    RewrittenIsSame(a, Recipients(messages, a.order));
    RewrittenRecords(a, calls, messages, records, records', src.kept);
    SourcesValid(a, src, calls, records, records');
    AllValuesReady(a, src, calls);
    RewrittenFlags(a, calls, messages);
    assert AllFlagged(a, src.file, calls);
    forall i | 1 <= i < a.order
      ensures KeptFor(a, calls, i, records[i], src.kept[i])
    {
      DeliveredKept(a, calls, i, records[i], records'[i], src.kept[i]);
    }
  }

  lemma AllValuesReady(a: Lm, src: Sources, out: seq<Emission>)
    requires ValidArpa(a) && SameFile(a, src.file) && AllValuesNow(a, out, src.values, a.order - 1, a.order)
    ensures AllValuesFit(src, out)
  {
    forall n | 1 <= n < a.order
      ensures src.ValuesFit(out, n)
    {
      ValuesAreReady(a, src, out, n);
    }
  }

  /** Builds the trie of a file from its sorted n-grams and the sorted contexts of every order. Fails if and only if the
      context of some n-gram is missing. */
  method BuildTrie(file: Lm, records: seq<seq<Record>>, contexts: seq<seq<Gram>>)
    returns (ok: bool, trie: Trie, ghost src: Sources, ghost out: seq<Emission>)
    requires ValidArpa(file) && RecordsOk(file, records) && ContextsListed(file, contexts)
    ensures ok <==> ContextsIn(file)
    ensures SameFile(file, src.file) && src.contexts == contexts && Finished(file, out)
    ensures ok ==> trie.order == file.order && TrieOk(src, out, trie.levels)
    ensures AllKept(file, out, records, src.kept) && AllFlagged(file, src.file, out)
  {
    var calls := Merge(file, records);
    out := calls;
    FinishedBlanksOk(file, calls);
    var sources, records' := PrepareSources(file, records, contexts, calls);
    src := sources;
    SameIsValid(file, sources.file);
    var calls' := Merge(sources.file, records');
    SameCalls(file, sources.file, calls, calls');
    SameOrder(file, sources.file);
    hide ValidArpa, Finished, RecordsOk, SameFile, ContextsListed, LevelDone, Sources.Valid, Sources.ValuesFit, AllKept, AllFlagged;
    var writer := new WriteEntries(sources);
    ok := writer.Write(calls');
    ContextsRealIff(file, sources);
    trie := new Trie(file.order, writer.levels);
  }

  lemma SameOrder(a: Lm, a': Lm)
    requires SameFile(a, a')
    ensures a'.order == a.order
  {
  }

  /** An n-gram of the file carries a new flag if and only if a message went to it. */
  ghost predicate FlaggedFor(a: Lm, a': Lm, out: seq<Emission>, g: Gram) {
    a.Has(g) && 1 <= |g| < a.order ==>
      && a'.Has(g)
      && var s := SortMessages(Messages(out, |g|));
         a'.table[g].backoff == if Sent(s, |s|, g) then a.table[g].backoff.SetExtension() else a.table[g].backoff
  }

  lemma RewrittenFlags(a: Lm, out: seq<Emission>, messages: seq<seq<Message>>)
    requires BlanksOk(a, out) && |messages| == a.order + 1
    requires forall n :: 0 <= n <= a.order ==> messages[n] == Messages(out, n)
    ensures forall g :: FlaggedFor(a, Rewritten(a, Recipients(messages, a.order)), out, g)
  {
    forall g
      ensures FlaggedFor(a, Rewritten(a, Recipients(messages, a.order)), out, g)
    {
      if a.Has(g) && 1 <= |g| < a.order {
        RecipientsAre(a, out, messages, |g|);
      }
    }
  }

  // ----- extension flags -----

  /** Some stored n-gram has g as its context. */
  ghost predicate ContextInClosure(a: Lm, g: Gram) {
    exists w: Word :: InClosure(a, [w] + g)
  }

  lemma {:induction false} BlankListed(out: seq<Emission>, e: Emission) returns (k: nat)
    requires e in out && e.Blank?
    ensures k < |Blanks(out, |e.gram|)| && Blanks(out, |e.gram|)[k] == e.gram
  {
    var rest := out[..|out| - 1];
    if e == out[|out| - 1] {
      k := |Blanks(rest, |e.gram|)|;
    } else {
      k := BlankListed(rest, e);
    }
  }

  lemma {:induction false} ListedBlank(out: seq<Emission>, n: nat, k: nat)
    requires k < |Blanks(out, n)|
    ensures Emitted(out, Blanks(out, n)[k])
  {
    var rest := out[..|out| - 1];
    if k < |Blanks(rest, n)| {
      ListedBlank(rest, n, k);
      EmittedLater(rest, [out[|out| - 1]], Blanks(rest, n)[k]);
      assert out == rest + [out[|out| - 1]];
    } else {
      assert out[|out| - 1].gram == Blanks(out, n)[k];
    }
  }

  ghost predicate MessageCame(out: seq<Emission>, g: Gram) {
    Sent(SortMessages(Messages(out, |g|)), |SortMessages(Messages(out, |g|))|, g)
  }

  lemma MessageIffRequest(a: Lm, out: seq<Emission>, g: Gram)
    requires BlanksOk(a, out)
    ensures MessageCame(out, g) <==> exists m :: IsRequest(a, out, |g|, m) && m.to == g
  {
    var s := SortMessages(Messages(out, |g|));
    MessagesAre(a, out, |g|);
    SortSorts(Messages(out, |g|));
    SameMembers(s, Messages(out, |g|));
    if MessageCame(out, g) {
      var k :| 0 <= k < |s| && s[k].to == g;
      assert IsRequest(a, out, |g|, s[k]);
    }
    if m :| IsRequest(a, out, |g|, m) && m.to == g {
      assert m in s;
    }
  }

  /** A message comes only for a context... */
  lemma MessageToContext(a: Lm, out: seq<Emission>, g: Gram)
    requires ValidArpa(a) && Finished(a, out) && 1 <= |g| < a.order && MessageCame(out, g)
    ensures ContextInClosure(a, g)
  {
    hide ValidArpa, Finished, BlanksOk, Messages, MessageCame, InClosure, Emitted, Blanks;
    FinishedBlanksOk(a, out);
    MessageIffRequest(a, out, g);
    var m :| IsRequest(a, out, |g|, m) && m.to == g;
    var b := Blanks(out, m.order)[m.index];
    ListedBlank(out, m.order, m.index);
    EmittedIffClosure(a, out, b);
    PrefixInClosure(a, b, |g| + 1);
    assert b[..|g| + 1] == [b[0]] + g;
  }

  /** ... and for every context of a blank. */
  lemma ContextGetsMessage(a: Lm, out: seq<Emission>, w: Word, g: Gram)
    requires ValidArpa(a) && Finished(a, out) && 1 <= |g| < a.order && InClosure(a, [w] + g) && !a.Has([w] + g)
    ensures MessageCame(out, g)
  {
    hide ValidArpa, Finished, BlanksOk, Messages, InClosure, Blanks;
    FinishedBlanksOk(a, out);
    var e := BlankOf(a, out, [w] + g);
    var k := BlankListed(out, e);
    RequestOf(a, out, w, g, k);
    MessageIffRequest(a, out, g);
  }

  lemma RequestOf(a: Lm, out: seq<Emission>, w: Word, g: Gram, k: nat)
    requires k < |Blanks(out, |g| + 1)| && Blanks(out, |g| + 1)[k] == [w] + g && !a.Has([w] + g)
    ensures IsRequest(a, out, |g|, Message(g, |g| + 1, k))
  {
    var y := [w] + g;
    LongestRealFacts(a, y);
    assert y[..|y|] == y && y[1..|g| + 1] == g;
  }

  lemma RealInClosure(a: Lm, g: Gram)
    requires a.Has(g) && g != []
    ensures InClosure(a, g)
  {
    assert g <= g;
  }

  lemma BlankOf(a: Lm, out: seq<Emission>, y: Gram) returns (e: Emission)
    requires ValidArpa(a) && Finished(a, out) && InClosure(a, y) && !a.Has(y)
    ensures e in out && e.Blank? && e.gram == y
  {
    EmittedIffClosure(a, out, y);
    var k :| 0 <= k < |out| && out[k].gram == y;
    e := out[k];
    var x :| a.Has(x) && y <= x;
    assert LineOk(a, x) && y[0] == x[0] < a.bound;
    assert k < |out| - 1 ==> EmissionOk(a, out[..|out| - 1][k]);
  }

  /** An n-gram of the file is flagged exactly when it has a back-off to flag or is the context of a stored n-gram. */
  lemma RealFlags(a: Lm, src: Sources, out: seq<Emission>, g: Gram, w: ProbBackoff)
    requires ValidArpa(a) && Finished(a, out) && ContextsListed(a, src.contexts) && src.file.order == a.order
    requires FlaggedFor(a, src.file, out, g) && a.Has(g) && |g| < a.order
    requires src.Stored(Real(g), src.contexts[|g|], w)
    ensures w.backoff.HasExtension() <==> a.Ext(g) || ContextInClosure(a, g)
  {
    assert LineOk(a, g);
    if MessageCame(out, g) {
      MessageToContext(a, out, g);
    }
    if IsContext(g, a.table) {
      var v: Word :| [v] + g in a.table;
      RealInClosure(a, [v] + g);
    }
    if ContextInClosure(a, g) {
      var v: Word :| InClosure(a, [v] + g);
      if !a.Has([v] + g) {
        ContextGetsMessage(a, out, v, g);
      }
    }
  }

  /** A blank that is the context of a stored n-gram is flagged exactly when the file has a later n-gram of its order:
      the messages left when the reader ends are dropped. */
  lemma BlankFlags(a: Lm, src: Sources, out: seq<Emission>, records: seq<Record>, g: Gram, lower: nat, basis: real, w: ProbBackoff)
    requires ValidArpa(a) && ContextsIn(a) && Finished(a, out) && 1 <= |g| < a.order
    requires |g| < |src.kept| && KeptFor(a, out, |g|, records, src.kept[|g|]) && !a.Has(g)
    requires |g| < |src.contexts| && src.Stored(Blank(g, lower, basis), src.contexts[|g|], w)
    ensures w.backoff.HasExtension() <==> ContextInClosure(a, g) && HasLater(records, g)
  {
    if MessageCame(out, g) {
      MessageToContext(a, out, g);
    }
    if ContextInClosure(a, g) {
      var v: Word :| InClosure(a, [v] + g);
      assert ([v] + g)[1..] == g;
      ContextGetsMessage(a, out, v, g);
    }
  }

  lemma RecordsCount(a: Lm, records: seq<seq<Record>>)
    requires RecordsOk(a, records)
    ensures |records| == a.order + 1 && forall i :: 1 <= i <= a.order ==> StreamOk(a, records[i], i)
  {
  }

  lemma DeliveredKept(a: Lm, out: seq<Emission>, i: nat, records: seq<Record>, records': seq<Record>, kept: seq<Gram>)
    requires Delivered(a, out, i, records, records', kept)
    ensures KeptFor(a, out, i, records, kept)
  {
  }

  /** The blanks of order i known to extend to the right. */
  ghost predicate KeptFor(a: Lm, out: seq<Emission>, i: nat, records: seq<Record>, kept: seq<Gram>) {
    var s := SortMessages(Messages(out, i));
    forall g :: g in kept <==> Sent(s, |s|, g) && !a.Has(g) && HasLater(records, g)
  }
}
