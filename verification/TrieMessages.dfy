/** The probabilities of blanks: every blank asks the contexts that its basis does not cover for their back-offs, the
    requests are sorted, and each order is read once alongside them. */
module TrieMessages {
  import opened NGrams
  import opened HashedBuild
  import opened TrieMerge
  import opened TrieSearch

  /** A request to the n-gram `to`, from the blank at place `index` of order `order`. */
  datatype Message = Message(to: Gram, order: nat, index: nat)

  predicate Precedes(m: Message, m': Message) {
    m.to == m'.to || Less(m.to, m'.to)
  }

  ghost predicate MessagesSorted(s: seq<Message>) {
    forall i, j :: 0 <= i < j < |s| ==> Precedes(s[i], s[j])
  }

  // ----- sorting -----

  function InsertMessage(m: Message, s: seq<Message>): seq<Message> {
    if s == [] then [m] else if Precedes(m, s[0]) then [m] + s else [s[0]] + InsertMessage(m, s[1..])
  }

  function SortMessages(s: seq<Message>): seq<Message> {
    if s == [] then [] else InsertMessage(s[0], SortMessages(s[1..]))
  }

  lemma {:induction false} InsertSorts(m: Message, s: seq<Message>)
    requires MessagesSorted(s)
    ensures MessagesSorted(InsertMessage(m, s)) && multiset(InsertMessage(m, s)) == multiset(s) + multiset{m}
  {
    if s != [] {
      assert s == [s[0]] + s[1..];
      if Precedes(m, s[0]) {
        forall j | 0 <= j < |s|
          ensures Precedes(m, s[j])
        {
          assert j == 0 || Precedes(s[0], s[j]);
          NotAfterTransitive(m.to, s[0].to, s[j].to);
        }
      } else {
        LessTotal(m.to, s[0].to);
        InsertSorts(m, s[1..]);
        var r := InsertMessage(m, s[1..]);
        hide Less;
        forall j | 0 <= j < |r|
          ensures Precedes(s[0], r[j])
        {
          assert r[j] in multiset(r);
          assert r[j] in multiset(s[1..]) || r[j] == m;
        }
      }
    }
  }

  lemma {:induction false} SortSorts(s: seq<Message>)
    ensures MessagesSorted(SortMessages(s)) && multiset(SortMessages(s)) == multiset(s)
  {
    if s != [] {
      SortSorts(s[1..]);
      InsertSorts(s[0], SortMessages(s[1..]));
      assert s == [s[0]] + s[1..];
    }
  }

  // ----- what is asked -----

  /** The messages to n-grams of order i. */
  function Messages(out: seq<Emission>, i: nat): seq<Message> {
    if out == [] then []
    else
      var rest, e := out[..|out| - 1], out[|out| - 1];
      Messages(rest, i) + if e.Blank? && e.lower <= i < |e.gram| then [Message(e.gram[1..i + 1], |e.gram|, |Blanks(rest, |e.gram|)|)]
                          else []
  }

  function Bases(out: seq<Emission>, n: nat): seq<real> {
    if out == [] then []
    else
      var e := out[|out| - 1];
      Bases(out[..|out| - 1], n) + if e.Blank? && |e.gram| == n then [e.basis] else []
  }

  /** Lower orders and bases are those of the file, and blanks are not in it. */
  ghost predicate BlanksOk(a: Lm, out: seq<Emission>) {
    forall k :: 0 <= k < |out| && out[k].Blank? ==> EmissionOk(a, out[k])
  }

  /** The blank at place k of order n asks n-grams of order i if its basis is no longer than that. */
  ghost predicate Asks(a: Lm, out: seq<Emission>, n: nat, k: nat, i: nat) {
    k < |Blanks(out, n)| && LongestReal(a, Blanks(out, n)[k]) <= i < n <= |Blanks(out, n)[k]|
  }

  ghost predicate IsRequest(a: Lm, out: seq<Emission>, i: nat, m: Message) {
    Asks(a, out, m.order, m.index, i) && m.to == Blanks(out, m.order)[m.index][1..i + 1]
  }

  ghost predicate SamePlace(m: Message, m': Message) {
    m.order == m'.order && m.index == m'.index
  }

  ghost predicate PlacesDiffer(s: seq<Message>) {
    forall i, j :: 0 <= i < j < |s| ==> !SamePlace(s[i], s[j])
  }

  lemma {:induction false} BlanksHaveOrder(out: seq<Emission>, n: nat)
    ensures forall k :: 0 <= k < |Blanks(out, n)| ==> |Blanks(out, n)[k]| == n
  {
    if out != [] {
      BlanksHaveOrder(out[..|out| - 1], n);
    }
  }

  /** The messages to order i are the requests of the blanks, one from each that asks. */
  lemma {:induction false} MessagesAre(a: Lm, out: seq<Emission>, i: nat)
    requires BlanksOk(a, out)
    ensures forall m :: m in Messages(out, i) <==> IsRequest(a, out, i, m)
    ensures PlacesDiffer(Messages(out, i))
  {
    if out != [] {
      var rest, e := out[..|out| - 1], out[|out| - 1];
      MessagesAre(a, rest, i);
      BlanksHaveOrder(out, |e.gram|);
      BlanksHaveOrder(rest, |e.gram|);
      if e.Blank? {
        assert EmissionOk(a, out[|out| - 1]);
        OneMoreBlank(a, rest, e, i);
        assert out == rest + [e];
        if e.lower <= i < |e.gram| {
          var new_ := Message(e.gram[1..i + 1], |e.gram|, |Blanks(rest, |e.gram|)|);
          assert Messages(out, i) == Messages(rest, i) + [new_];
          forall m | m in Messages(rest, i)
            ensures !SamePlace(m, new_)
          {
            assert IsRequest(a, rest, i, m);
          }
        }
      } else {
        forall m
          ensures IsRequest(a, out, i, m) <==> IsRequest(a, rest, i, m)
        {
        }
      }
    } else {
      forall m: Message
        ensures !IsRequest(a, out, i, m)
      {
      }
    }
  }

  lemma OneMoreBlank(a: Lm, rest: seq<Emission>, e: Emission, i: nat)
    requires e.Blank? && EmissionOk(a, e)
    ensures forall m :: IsRequest(a, rest + [e], i, m) <==>
              IsRequest(a, rest, i, m)
              || (e.lower <= i < |e.gram| && m == Message(e.gram[1..i + 1], |e.gram|, |Blanks(rest, |e.gram|)|))
  {
    assert (rest + [e])[..|rest|] == rest;
    BlanksHaveOrder(rest, |e.gram|);
  }

  // ----- passing the back-offs on -----

  /** A table of probabilities by order and place. */
  function AddTo(values: seq<seq<real>>, n: nat, k: nat, x: real): seq<seq<real>> {
    if n < |values| && k < |values[n]| then values[n := values[n][k := values[n][k] + x]] else values
  }

  function ApplyAll(a: Lm, values: seq<seq<real>>, s: seq<Message>): seq<seq<real>> {
    if s == [] then values
    else
      var m := s[|s| - 1];
      AddTo(ApplyAll(a, values, s[..|s| - 1]), m.order, m.index, a.BackoffOf(m.to))
  }

  ghost predicate SameShape(values: seq<seq<real>>, values': seq<seq<real>>) {
    |values| == |values'| && forall n :: 0 <= n < |values| ==> |values[n]| == |values'[n]|
  }

  /** A place changes by the back-off it asked for, and not at all if it asked for none. */
  lemma {:induction false} ApplyAllAt(a: Lm, values: seq<seq<real>>, s: seq<Message>, n: nat, k: nat)
    requires PlacesDiffer(s) && n < |values| && k < |values[n]|
    ensures SameShape(values, ApplyAll(a, values, s))
    ensures forall m :: m in s && m.order == n && m.index == k ==> ApplyAll(a, values, s)[n][k] == values[n][k] + a.BackoffOf(m.to)
    ensures (forall m :: m in s ==> !(m.order == n && m.index == k)) ==> ApplyAll(a, values, s)[n][k] == values[n][k]
  {
    if s != [] {
      var rest, last := s[..|s| - 1], s[|s| - 1];
      ApplyAllAt(a, values, rest, n, k);
      assert forall m :: m in rest ==> !SamePlace(m, last);
    }
  }

  /** Requests to n-grams that the file does not have change nothing. */
  lemma {:induction false} NobodyThere(a: Lm, values: seq<seq<real>>, s: seq<Message>, c: nat)
    requires c <= |s| && forall j :: c <= j < |s| ==> !a.Has(s[j].to)
    ensures ApplyAll(a, values, s) == ApplyAll(a, values, s[..c])
    decreases |s| - c
  {
    if c < |s| {
      var rest, last := s[..|s| - 1], s[|s| - 1];
      assert rest[..c] == s[..c];
      NobodyThere(a, values, rest, c);
      AddNothing(ApplyAll(a, values, rest), last.order, last.index);
    } else {
      assert s[..c] == s;
    }
  }

  lemma AddNothing(values: seq<seq<real>>, n: nat, k: nat)
    ensures AddTo(values, n, k, 0.0) == values
  {
    if n < |values| && k < |values[n]| {
      assert values[n][k := values[n][k] + 0.0] == values[n];
    }
  }

  // ----- reading one order alongside its messages -----

  /** Some message up to `c` went to g. */
  ghost predicate Sent(s: seq<Message>, c: nat, g: Gram) {
    exists k :: 0 <= k < c && k < |s| && s[k].to == g
  }

  /** The record as the file has it, with the extension flag if a message has come for it. */
  ghost predicate RecordNow(r: Record, r': Record, sent: bool) {
    r' == if sent then r.(backoff := r.backoff.SetExtension()) else r
  }

  ghost predicate RecordsNow(records: seq<Record>, records': seq<Record>, s: seq<Message>, c: nat) {
    |records'| == |records| && forall j :: 0 <= j < |records| ==> RecordNow(records[j], records'[j], Sent(s, c, records[j].gram))
  }

  /** The messages to come go to n-grams after the records that have been read. */
  ghost predicate Behind(records: seq<Record>, r: nat, s: seq<Message>, c: nat) {
    forall j, k :: 0 <= j < r && j < |records| && c <= k < |s| ==> Less(records[j].gram, s[k].to)
  }

  ghost predicate HasLater(records: seq<Record>, g: Gram) {
    exists j :: 0 <= j < |records| && Less(g, records[j].gram)
  }

  /** The n-grams that got a message but are not in the file, unless no record comes after them. */
  ghost predicate KeptAre(a: Lm, records: seq<Record>, s: seq<Message>, c: nat, kept: seq<Gram>) {
    && InOrder(kept)
    && (forall g :: g in kept <==> Sent(s, c, g) && !a.Has(g) && HasLater(records, g))
    && (forall g, k :: g in kept && c <= k < |s| ==> NotAfter(g, s[k].to))
  }

  /** Skipping a record that comes before the next message. */
  lemma SkipRecord(records: seq<Record>, r: nat, s: seq<Message>, c: nat)
    requires MessagesSorted(s) && r < |records| && c < |s| && Behind(records, r, s, c) && Less(records[r].gram, s[c].to)
    ensures Behind(records, r + 1, s, c)
  {
    forall k | c <= k < |s|
      ensures Less(records[r].gram, s[k].to)
    {
      if c < k {
        assert Precedes(s[c], s[k]);
        if Less(s[c].to, s[k].to) {
          LessTransitive(records[r].gram, s[c].to, s[k].to);
        }
      }
    }
  }

  /** A message to an n-gram before the next record goes to nobody, and is kept. */
  lemma KeepMessage(a: Lm, records: seq<Record>, records': seq<Record>, r: nat, s: seq<Message>, c: nat, i: nat, kept: seq<Gram>)
    requires StreamOk(a, records, i) && MessagesSorted(s) && r < |records| && c < |s| && |s[c].to| == i
    requires Behind(records, r, s, c) && Less(s[c].to, records[r].gram)
    requires RecordsNow(records, records', s, c) && KeptAre(a, records, s, c, kept)
    ensures !a.Has(s[c].to) && RecordsNow(records, records', s, c + 1) && KeptAre(a, records, s, c + 1, kept + [s[c].to])
  {
    hide InOrder, Sent, HasLater, StreamOk, Less, Precedes;
    var g := s[c].to;
    NotInFile(a, records, r, s, c, i);
    forall x
      ensures Sent(s, c + 1, x) <==> Sent(s, c, x) || x == g
    {
      OneMoreSent(s, c, x);
    }
    forall j | 0 <= j < |records|
      ensures RecordNow(records[j], records'[j], Sent(s, c + 1, records[j].gram))
    {
      RecordsIn(a, records, i, j);
    }
    LaterIs(records, r, g);
    KeepOne(kept, g, s, c);
    LastIsEnd(s, c);
  }

  lemma NothingApplied(a: Lm, records: seq<Record>, s: seq<Message>)
    ensures Behind(records, 0, s, 0) && RecordsNow(records, records, s, 0) && KeptAre(a, records, s, 0, [])
  {
  }

  lemma RecordsIn(a: Lm, records: seq<Record>, i: nat, j: nat)
    requires StreamOk(a, records, i) && j < |records|
    ensures a.Has(records[j].gram)
  {
    assert RecordOk(a, records[j], i);
  }

  lemma NotInFile(a: Lm, records: seq<Record>, r: nat, s: seq<Message>, c: nat, i: nat)
    requires StreamOk(a, records, i) && r < |records| && c < |s| && |s[c].to| == i
    requires Behind(records, r, s, c) && Less(s[c].to, records[r].gram)
    ensures !a.Has(s[c].to)
  {
    hide Less;
    var g := s[c].to;
    if a.Has(g) {
      var j :| 0 <= j < |records| && records[j].gram == g;
      NotBetween(records, r, j, g);
      LessIrreflexive(g);
      assert false;
    }
  }

  lemma OneMoreSent(s: seq<Message>, c: nat, x: Gram)
    requires c < |s|
    ensures Sent(s, c + 1, x) <==> Sent(s, c, x) || x == s[c].to
  {
  }

  lemma LaterIs(records: seq<Record>, r: nat, g: Gram)
    requires r < |records| && Less(g, records[r].gram)
    ensures HasLater(records, g)
  {
  }

  lemma KeepOne(kept: seq<Gram>, g: Gram, s: seq<Message>, c: nat)
    requires InOrder(kept) && c < |s| && s[c].to == g && forall x, k :: x in kept && c <= k < |s| ==> NotAfter(x, s[k].to)
    ensures InOrder(kept + [g])
  {
    forall j | 0 <= j < |kept|
      ensures NotAfter(kept[j], g)
    {
      assert kept[j] in kept;
    }
  }

  lemma LastIsEnd(s: seq<Message>, c: nat)
    requires MessagesSorted(s) && c < |s|
    ensures forall k :: c + 1 <= k < |s| ==> NotAfter(s[c].to, s[k].to)
  {
    forall k | c + 1 <= k < |s|
      ensures NotAfter(s[c].to, s[k].to)
    {
      assert Precedes(s[c], s[k]);
    }
  }

  lemma NotBetween(records: seq<Record>, r: nat, j: nat, g: Gram)
    requires (forall i, j :: 0 <= i < j < |records| ==> Less(records[i].gram, records[j].gram))
    requires r < |records| && j < |records| && records[j].gram == g && Less(g, records[r].gram)
    ensures j < r
  {
    LessIrreflexive(g);
    if r < j {
      LessTransitive(g, records[r].gram, g);
      assert false;
    }
  }

  /** A message to the next record. */
  lemma DeliverMessage(a: Lm, records: seq<Record>, records': seq<Record>, r: nat, s: seq<Message>, c: nat, i: nat, kept: seq<Gram>)
    requires StreamOk(a, records, i) && MessagesSorted(s) && r < |records| && c < |s| && s[c].to == records[r].gram
    requires Behind(records, r, s, c) && RecordsNow(records, records', s, c) && KeptAre(a, records, s, c, kept)
    ensures a.Has(s[c].to) && KeptAre(a, records, s, c + 1, kept) && Behind(records, r, s, c + 1)
    ensures RecordsNow(records, records'[r := records'[r].(backoff := records'[r].backoff.SetExtension())], s, c + 1)
    ensures records'[r].backoff.Value() == a.table[s[c].to].backoff.Value()
  {
    var g := s[c].to;
    assert RecordOk(a, records[r], i);
    var records'' := records'[r := records'[r].(backoff := records'[r].backoff.SetExtension())];
    forall j | 0 <= j < |records|
      ensures RecordNow(records[j], records''[j], Sent(s, c + 1, records[j].gram))
    {
      assert RecordNow(records[j], records'[j], Sent(s, c, records[j].gram));
      if j == r {
        assert Sent(s, c + 1, g);
      } else {
        SameRecord(records, r, j);
        assert Sent(s, c + 1, records[j].gram) <==> Sent(s, c, records[j].gram);
      }
    }
    forall x
      ensures x in kept <==> Sent(s, c + 1, x) && !a.Has(x) && HasLater(records, x)
    {
      assert Sent(s, c + 1, x) <==> Sent(s, c, x) || x == g;
    }
  }

  lemma SameRecord(records: seq<Record>, i: nat, j: nat)
    requires forall i, j :: 0 <= i < j < |records| ==> Less(records[i].gram, records[j].gram)
    requires i < |records| && j < |records| && i != j
    ensures records[i].gram != records[j].gram
  {
    LessIrreflexive(records[i].gram);
  }

  /** When the records end, the messages left go to n-grams that are not in the file; they are dropped. */
  lemma MessagesLeft(a: Lm, records: seq<Record>, records': seq<Record>, s: seq<Message>, c: nat, i: nat, kept: seq<Gram>)
    requires StreamOk(a, records, i) && c <= |s| && (forall k :: 0 <= k < |s| ==> |s[k].to| == i)
    requires Behind(records, |records|, s, c) || c == |s|
    requires RecordsNow(records, records', s, c) && KeptAre(a, records, s, c, kept)
    ensures forall k :: c <= k < |s| ==> !a.Has(s[k].to)
    ensures RecordsNow(records, records', s, |s|) && KeptAre(a, records, s, |s|, kept)
  {
    forall k | c <= k < |s|
      ensures !a.Has(s[k].to) && !HasLater(records, s[k].to)
    {
      LessIrreflexive(s[k].to);
      assert a.Has(s[k].to) ==> InStream(records, 0, s[k].to);
      if a.Has(s[k].to) {
        assert false;
      }
      if j :| 0 <= j < |records| && Less(s[k].to, records[j].gram) {
        LessTransitive(s[k].to, records[j].gram, s[k].to);
        assert false;
      }
    }
    forall j | 0 <= j < |records|
      ensures RecordNow(records[j], records'[j], Sent(s, |s|, records[j].gram))
    {
      assert RecordOk(a, records[j], i) && RecordNow(records[j], records'[j], Sent(s, c, records[j].gram));
      SentLater(a, s, c, records[j].gram);
    }
    forall x
      ensures x in kept <==> Sent(s, |s|, x) && !a.Has(x) && HasLater(records, x)
    {
      assert Sent(s, c, x) ==> Sent(s, |s|, x);
      assert Sent(s, |s|, x) && HasLater(records, x) ==> Sent(s, c, x);
    }
  }

  lemma SentLater(a: Lm, s: seq<Message>, c: nat, g: Gram)
    requires c <= |s| && a.Has(g) && forall k :: c <= k < |s| ==> !a.Has(s[k].to)
    ensures Sent(s, |s|, g) <==> Sent(s, c, g)
  {
  }

  /** The unigrams and the sorted n-grams of every order. */
  ghost predicate RecordsOk(a: Lm, records: seq<seq<Record>>) {
    |records| == a.order + 1 && forall i :: 1 <= i <= a.order ==> StreamOk(a, records[i], i)
  }

  ghost predicate AllMessages(out: seq<Emission>, messages: seq<seq<Message>>, order: nat) {
    |messages| == order + 1 && forall n :: 0 <= n <= order ==> messages[n] == Messages(out, n)
  }

  ghost predicate AllBases(out: seq<Emission>, values: seq<seq<real>>, order: nat) {
    |values| == order + 1 && forall n :: 0 <= n <= order ==> values[n] == Bases(out, n)
  }

  /** Everything has been delivered; the longest n-grams get no messages. */
  ghost predicate AllDeliveredTo(a: Lm, out: seq<Emission>, records: seq<seq<Record>>, records': seq<seq<Record>>, kept: seq<seq<Gram>>) {
    && |records| == |records'| == |kept| == a.order + 1 && kept[0] == kept[a.order] == [] && records'[a.order] == records[a.order]
    && forall i :: 1 <= i < a.order ==> Delivered(a, out, i, records[i], records'[i], kept[i])
  }

  class SRISucks {
    const order: nat
    var values: seq<seq<real>>
    var messages: seq<seq<Message>>

    constructor (order: nat)
      ensures this.order == order && |values| == |messages| == order + 1
      ensures Recorded([])
    {
      this.order := order;
      values := seq(order + 1, _ => []);
      messages := seq(order + 1, _ => []);
    }

    /** The blank `to`, behind its newest word, asks its contexts of `begin` to n - 1 words. */
    method Send(begin: nat, n: nat, to: Gram, probBasis: real)
      requires 1 <= begin < n <= order && |to| == n - 1 && |values| == |messages| == order + 1
      modifies this`values, this`messages
      ensures |values| == |messages| == order + 1
      ensures values == old(values)[n := old(values[n]) + [probBasis]]
      ensures forall i :: 0 <= i <= order ==>
                messages[i] == old(messages[i]) + if begin <= i < n then [Message(to[..i], n, |old(values[n])|)] else []
    {
      for i := begin to n
        invariant values == old(values) && |messages| == order + 1
        invariant forall j :: 0 <= j <= order ==>
                    messages[j] == old(messages[j]) + if begin <= j < i then [Message(to[..j], n, |values[n]|)] else []
      {
        messages := messages[i := messages[i] + [Message(to[..i], n, |values[n]|)]];
      }
      values := values[n := values[n] + [probBasis]];
    }

    ghost predicate Recorded(out: seq<Emission>)
      reads this
    {
      AllBases(out, values, order) && AllMessages(out, messages, order)
    }

    /** The first pass: every blank sends its messages. */
    method FindBlanks(out: seq<Emission>, ghost a: Lm)
      requires a.order == order && BlanksOk(a, out) && Recorded([])
      modifies this`values, this`messages
      ensures Recorded(out)
    {
      assert out[..0] == [];
      for k := 0 to |out|
        invariant Recorded(out[..k])
      {
        var e := out[k];
        assert out[..k + 1][..k] == out[..k] && out[..k + 1][k] == e;
        if e.Blank? {
          assert EmissionOk(a, out[k]);
          BasesCount(out[..k], |e.gram|);
          assert forall i :: e.lower <= i < |e.gram| ==> e.gram[1..][..i] == e.gram[1..i + 1];
          Send(e.lower, |e.gram|, e.gram[1..], e.basis);
        }
      }
      assert out[..|out|] == out;
    }

    /** Deliver the messages to order i: add back-offs to the blanks that asked, flag the records that got messages, and
        note the n-grams that got messages but are not in the file. */
    method Apply(i: nat, records: seq<Record>, ghost a: Lm) returns (records': seq<Record>, kept: seq<Gram>)
      requires i < |messages| && i < a.order && StreamOk(a, records, i) && forall m :: m in messages[i] ==> |m.to| == i
      modifies this`values
      ensures values == ApplyAll(a, old(values), SortMessages(messages[i]))
      ensures RecordsNow(records, records', SortMessages(messages[i]), |messages[i]|)
      ensures KeptAre(a, records, SortMessages(messages[i]), |messages[i]|, kept)
    {
      hide Sent, KeptAre, StreamOk, Less, RecordNow, SortMessages, MessagesSorted, InOrder;
      var s := SortMessages(messages[i]);
      SortSorts(messages[i]);
      SameMembers(s, messages[i]);
      NothingApplied(a, records, s);
      records', kept := records, [];
      var r, c := 0, 0;
      while r < |records| && c < |s|
        invariant r <= |records| && c <= |s|
        invariant Behind(records, r, s, c) && RecordsNow(records, records', s, c) && KeptAre(a, records, s, c, kept)
        invariant values == ApplyAll(a, old(values), s[..c])
        decreases |records| - r + |s| - c
      {
        var m := s[c];
        if Less(records[r].gram, m.to) {
          SkipRecord(records, r, s, c);
          r := r + 1;
        } else if Less(m.to, records[r].gram) {
          KeepMessage(a, records, records', r, s, c, i, kept);
          kept := kept + [m.to];
          OneMoreApplied(a, old(values), s, c);
          c := c + 1;
        } else {
          LessTotal(records[r].gram, m.to);
          DeliverMessage(a, records, records', r, s, c, i, kept);
          var backoff := records'[r].backoff;
          OneMoreApplied(a, old(values), s, c);
          if !backoff.HasExtension() {
            records' := records'[r := records'[r].(backoff := Charged(0.0))];
          } else {
            values := AddTo(values, m.order, m.index, backoff.Value());
          }
          c := c + 1;
        }
      }
      MessagesLeft(a, records, records', s, c, i, kept);
      NobodyThere(a, old(values), s, c);
    }

    /** One order: its messages take the blanks one step of backing off further. */
    method ApplyOrder(i: nat, records: seq<Record>, ghost a: Lm, ghost out: seq<Emission>)
      returns (records': seq<Record>, kept: seq<Gram>)
      requires ValidArpa(a) && 1 <= i < a.order == order && StreamOk(a, records, i) && BlanksOk(a, out) && AllMessages(out, messages, order)
      requires |values| == order + 1 && AllValuesNow(a, out, values, i - 1, order)
      modifies this`values
      ensures |values| == order + 1 && AllValuesNow(a, out, values, i, order) && Delivered(a, out, i, records, records', kept)
    {
      ghost var was := values;
      MessagesHaveOrder(a, out, i);
      records', kept := Apply(i, records, a);
      DeliveredIs(a, out, i, records, records', kept);
      AllDelivered(a, out, was, i, order);
      ApplyShape(a, was, SortMessages(Messages(out, i)));
    }

    /** Every order in turn; afterwards each blank has the probability that backing off gives it. */
    method ObtainBackoffs(records: seq<seq<Record>>, ghost a: Lm, ghost out: seq<Emission>)
      returns (records': seq<seq<Record>>, kept: seq<seq<Gram>>)
      requires ValidArpa(a) && a.order == order && BlanksOk(a, out) && Recorded(out) && RecordsOk(a, records)
      modifies this`values
      ensures AllDeliveredTo(a, out, records, records', kept)
      ensures |values| == order + 1 && AllValuesNow(a, out, values, order - 1, order)
    {
      records', kept := records, seq(order + 1, _ => []);
      BasesAreAllValues(a, out, values, order);
      hide AllValuesNow, StreamOk, Delivered, ValidArpa, BlanksOk, Messages, AllMessages, AllBases;
      for i := 1 to order
        invariant |records'| == |kept| == order + 1 && kept[0] == kept[order] == [] && messages == old(messages)
        invariant forall j :: i <= j <= order ==> records'[j] == records[j]
        invariant forall j :: 1 <= j < i ==> Delivered(a, out, j, records[j], records'[j], kept[j])
        invariant |values| == order + 1 && AllValuesNow(a, out, values, i - 1, order)
      {
        var rewritten, left := ApplyOrder(i, records[i], a, out);
        records', kept := records'[i := rewritten], kept[i := left];
      }
    }
  }

  lemma DeliveredIs(a: Lm, out: seq<Emission>, i: nat, records: seq<Record>, records': seq<Record>, kept: seq<Gram>)
    requires RecordsNow(records, records', SortMessages(Messages(out, i)), |Messages(out, i)|)
    requires KeptAre(a, records, SortMessages(Messages(out, i)), |Messages(out, i)|, kept)
    ensures Delivered(a, out, i, records, records', kept)
  {
    SortSorts(Messages(out, i));
    SameMembers(SortMessages(Messages(out, i)), Messages(out, i));
  }

  /** What has been delivered for order i. */
  ghost predicate Delivered(a: Lm, out: seq<Emission>, i: nat, records: seq<Record>, records': seq<Record>, kept: seq<Gram>) {
    var s := SortMessages(Messages(out, i));
    RecordsNow(records, records', s, |s|) && KeptAre(a, records, s, |s|, kept)
  }

  lemma MessagesHaveOrder(a: Lm, out: seq<Emission>, i: nat)
    requires BlanksOk(a, out)
    ensures forall m :: m in Messages(out, i) ==> |m.to| == i
  {
    MessagesAre(a, out, i);
    forall m | m in Messages(out, i)
      ensures |m.to| == i
    {
      assert IsRequest(a, out, i, m);
      BlanksHaveOrder(out, m.order);
    }
  }

  lemma SameMembers(s: seq<Message>, s': seq<Message>)
    requires multiset(s) == multiset(s')
    ensures |s| == |s'| && forall m :: m in s <==> m in s'
  {
    assert |multiset(s)| == |s| && |multiset(s')| == |s'|;
    forall m
      ensures m in s <==> m in s'
    {
      assert m in s <==> m in multiset(s);
      assert m in s' <==> m in multiset(s');
    }
  }

  lemma OneMoreApplied(a: Lm, values: seq<seq<real>>, s: seq<Message>, c: nat)
    requires c < |s|
    ensures ApplyAll(a, values, s[..c + 1]) == AddTo(ApplyAll(a, values, s[..c]), s[c].order, s[c].index, a.BackoffOf(s[c].to))
    ensures a.BackoffOf(s[c].to) == 0.0 ==> ApplyAll(a, values, s[..c + 1]) == ApplyAll(a, values, s[..c])
  {
    assert s[..c + 1][..c] == s[..c];
    AddNothing(ApplyAll(a, values, s[..c]), s[c].order, s[c].index);
  }

  lemma {:induction false} BasesCount(out: seq<Emission>, n: nat)
    ensures |Bases(out, n)| == |Blanks(out, n)|
  {
    if out != [] {
      BasesCount(out[..|out| - 1], n);
    }
  }

  // ----- the probability that a blank ends up with -----

  /** How many words of g the contexts up to order i account for. */
  function Reach(a: Lm, g: Gram, i: nat): nat {
    if i < LongestReal(a, g) then LongestReal(a, g) else if |g| <= i then |g| else i + 1
  }

  /** After the messages up to order i, a blank has the probability of as many of its words. */
  ghost predicate ValueNow(a: Lm, g: Gram, i: nat, value: real) {
    g != [] && Reach(a, g, i) <= |g| && a.Has([g[0]]) && 1 <= Reach(a, g, i) && value == a.Textbook(g[0], g[1..Reach(a, g, i)])
  }

  ghost predicate ValuesNow(a: Lm, out: seq<Emission>, values: seq<seq<real>>, i: nat, n: nat) {
    n < |values| && |values[n]| == |Blanks(out, n)|
    && forall k :: 0 <= k < |values[n]| ==> ValueNow(a, Blanks(out, n)[k], i, values[n][k])
  }

  lemma {:induction false} BasesAreValues(a: Lm, out: seq<Emission>, n: nat)
    requires ValidArpa(a) && BlanksOk(a, out)
    ensures |Bases(out, n)| == |Blanks(out, n)|
    ensures forall k :: 0 <= k < |Bases(out, n)| ==> ValueNow(a, Blanks(out, n)[k], 0, Bases(out, n)[k])
  {
    if out != [] {
      var rest, e := out[..|out| - 1], out[|out| - 1];
      BasesAreValues(a, rest, n);
      if e.Blank? && |e.gram| == n {
        assert EmissionOk(a, out[|out| - 1]);
        BasisIsValue(a, e);
      }
    }
  }

  lemma BasisIsValue(a: Lm, e: Emission)
    requires ValidArpa(a) && e.Blank? && EmissionOk(a, e)
    ensures ValueNow(a, e.gram, 0, e.basis)
  {
    var g, l := e.gram, e.lower;
    var p := g[..l];
    assert LineOk(a, p);
    assert p[0] == g[0];
    WordsIn(a, g[0]);
    assert [g[0]] + g[1..l] == p;
    assert g[1..l] == [] ==> p == [g[0]];
  }

  /** What the message of order i adds is the next step of backing off. */
  lemma OneStepFurther(a: Lm, g: Gram, i: nat, value: real)
    requires 1 <= i && ValueNow(a, g, i - 1, value)
    ensures LongestReal(a, g) <= i < |g| ==> ValueNow(a, g, i, value + a.BackoffOf(g[1..i + 1]))
    ensures !(LongestReal(a, g) <= i < |g|) ==> ValueNow(a, g, i, value)
  {
    LongestRealFacts(a, g);
    if LongestReal(a, g) <= i < |g| {
      var h := g[1..i + 1];
      assert [g[0]] + h == g[..i + 1];
      assert h[..|h| - 1] == g[1..i];
    }
  }

  /** Delivering the messages of order i. */
  lemma DeliveredValues(a: Lm, out: seq<Emission>, values: seq<seq<real>>, i: nat, n: nat)
    requires ValidArpa(a) && BlanksOk(a, out) && 1 <= i
    requires ValuesNow(a, out, values, i - 1, n)
    ensures ValuesNow(a, out, ApplyAll(a, values, SortMessages(Messages(out, i))), i, n)
  {
    var s := SortMessages(Messages(out, i));
    var values' := ApplyAll(a, values, s);
    MessagesAre(a, out, i);
    SortSorts(Messages(out, i));
    SameMembers(s, Messages(out, i));
    SortedPlacesDiffer(Messages(out, i), s);
    BlanksHaveOrder(out, n);
    ApplyShape(a, values, s);
    forall k | 0 <= k < |values[n]|
      ensures ValueNow(a, Blanks(out, n)[k], i, values'[n][k])
    {
      DeliveredValue(a, out, values, i, n, k, s);
    }
  }

  ghost predicate AllValuesNow(a: Lm, out: seq<Emission>, values: seq<seq<real>>, i: nat, order: nat) {
    forall n :: 0 <= n <= order ==> ValuesNow(a, out, values, i, n)
  }

  lemma BasesAreAllValues(a: Lm, out: seq<Emission>, values: seq<seq<real>>, order: nat)
    requires ValidArpa(a) && BlanksOk(a, out) && AllBases(out, values, order)
    ensures AllValuesNow(a, out, values, 0, order)
  {
    forall n | 0 <= n <= order
      ensures ValuesNow(a, out, values, 0, n)
    {
      BasesAreValues(a, out, n);
    }
  }

  lemma AllDelivered(a: Lm, out: seq<Emission>, values: seq<seq<real>>, i: nat, order: nat)
    requires ValidArpa(a) && BlanksOk(a, out) && 1 <= i && AllValuesNow(a, out, values, i - 1, order)
    ensures AllValuesNow(a, out, ApplyAll(a, values, SortMessages(Messages(out, i))), i, order)
  {
    forall n | 0 <= n <= order
      ensures ValuesNow(a, out, ApplyAll(a, values, SortMessages(Messages(out, i))), i, n)
    {
      DeliveredValues(a, out, values, i, n);
    }
  }

  lemma DeliveredValue(a: Lm, out: seq<Emission>, values: seq<seq<real>>, i: nat, n: nat, k: nat, s: seq<Message>)
    requires 1 <= i && n < |values| && k < |values[n]| == |Blanks(out, n)| && |Blanks(out, n)[k]| == n
    requires PlacesDiffer(s) && forall m :: m in s <==> IsRequest(a, out, i, m)
    requires ValueNow(a, Blanks(out, n)[k], i - 1, values[n][k])
    ensures SameShape(values, ApplyAll(a, values, s))
    ensures ValueNow(a, Blanks(out, n)[k], i, ApplyAll(a, values, s)[n][k])
  {
    var g := Blanks(out, n)[k];
    OneStepFurther(a, g, i, values[n][k]);
    ApplyAllAt(a, values, s, n, k);
    if LongestReal(a, g) <= i < n {
      var m := Message(g[1..i + 1], n, k);
      assert IsRequest(a, out, i, m);
    } else {
      forall m | m in s
        ensures !(m.order == n && m.index == k)
      {
        assert IsRequest(a, out, i, m);
      }
    }
  }

  lemma {:induction false} ApplyShape(a: Lm, values: seq<seq<real>>, s: seq<Message>)
    ensures SameShape(values, ApplyAll(a, values, s))
  {
    if s != [] {
      ApplyShape(a, values, s[..|s| - 1]);
    }
  }

  lemma {:induction false} NoRepeats(s: seq<Message>, m: Message)
    requires PlacesDiffer(s)
    ensures multiset(s)[m] <= 1
  {
    if s != [] {
      var rest, last := s[..|s| - 1], s[|s| - 1];
      assert s == rest + [last];
      NoRepeats(rest, m);
      assert forall x :: x in rest ==> !SamePlace(x, last);
    }
  }

  lemma Twice(s: seq<Message>, i: nat, j: nat)
    requires i < j < |s| && s[i] == s[j]
    ensures 2 <= multiset(s)[s[i]]
  {
    assert s == s[..j] + s[j..];
    assert s[..j][i] == s[i] && s[j..][0] == s[i];
    assert s[i] in s[..j] && s[i] in s[j..];
  }

  /** A rearrangement of messages from different places is one. */
  lemma SortedPlacesDiffer(s: seq<Message>, s': seq<Message>)
    requires PlacesDiffer(s) && multiset(s) == multiset(s')
    ensures PlacesDiffer(s')
  {
    SameMembers(s, s');
    forall i, j | 0 <= i < j < |s'|
      ensures !SamePlace(s'[i], s'[j])
    {
      assert s'[i] in s && s'[j] in s;
      if s'[i] == s'[j] {
        NoRepeats(s, s'[i]);
        Twice(s', i, j);
        assert false;
      }
    }
  }
}
