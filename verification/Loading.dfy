/** From the file to the score of a text: the model loaded from an ARPA file predicts what the file says. */
module Loading {
  import opened NGrams
  import opened Model
  import opened Fragments
  import opened LeftState
  import opened HashedBuild

  /** Textbook log-probability of a text under the n-grams of the file itself; `r` newest word first. */
  function FileScore(a: Lm, begin: Word, r: seq<Word>, bos: bool): real
    requires forall i :: 0 <= i < |r| ==> a.Has([r[i]])
  {
    if r == [] then 0.0
    else FileScore(a, begin, r[1..], bos) + a.Textbook(r[0], Grammar(a, begin).History(r[1..], bos))
  }

  lemma {:induction false} SameSentenceScore(g: Grammar, a: Lm, r: seq<Word>, bos: bool)
    requires g.lm.WellFormed() && g.lm.ValidWords(r) && g.lm.bound == a.bound
    requires forall i :: 0 <= i < |r| ==> a.Has([r[i]])
    requires forall w: Word, h: seq<Word> :: SamePrediction(g.lm, a, w, h)
    ensures g.SentenceScore(r, bos) == FileScore(a, g.begin, r, bos)
  {
    if r != [] {
      SameSentenceScore(g, a, r[1..], bos);
      assert SamePrediction(g.lm, a, r[0], g.History(r[1..], bos));
    }
  }

  /** Loads a file, builds the probing model and scores a text word by word. The total is the textbook
      log-probability under the file, although the model adds the n-grams the file has left out. */
  method LoadAndScore(file: seq<seq<Record>>, order: nat, bound: nat, maxRest: bool, begin: Word,
                      text: seq<Word>, bos: bool, ghost a: Lm)
    returns (ok: bool, total: real)
    requires ValidArpa(a) && a.order == order && a.bound == bound && begin < bound
    requires |file| == order && (forall i :: 0 <= i < order ==> Lists(a, i + 1, file[i]))
    requires NonPositive(a)
    requires forall i :: 0 <= i < |text| ==> text[i] < bound
    ensures ok <==> FileLoads(a, file)
    ensures forall i :: 0 <= i < |text| ==> a.Has([NewestFirst(text)[i]])
    ensures ok ==> total == FileScore(a, begin, NewestFirst(text), bos)
  {
    var builder := new HashedSearch(order, maxRest);
    ok := builder.InitializeFromARPA(file, a);
    total := 0.0;
    NewestFirstWords(text, a);
    if ok {
      var lm := AsLm(builder.table, order, bound, maxRest);
      FinishedIsWellFormed(builder.table, a, maxRest);
      BlanksPreserveMeaning(builder.table, a, maxRest);
      var model := new GenericModel(lm, begin);
      ghost var g := Grammar(lm, begin);
      var state;
      state, total := ScoreText(model, text, bos, order - 1, g);
      SameSentenceScore(g, a, NewestFirst(text), bos);
    }
  }
}
