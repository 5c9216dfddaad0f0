/** How the calls of the merge lie in the trie: one row per order, each n-gram with the place in the next row where its
    children begin. The children of an n-gram are exactly the places up to where those of its successor begin. */
module TrieLayout {
  import opened NGrams
  import opened TrieMerge

  /** The calls for n-grams of order n. */
  function Row(out: seq<Emission>, n: nat): seq<Emission> {
    if out == [] then []
    else
      var e := out[|out| - 1];
      Row(out[..|out| - 1], n) + if |e.gram| == n then [e] else []
  }

  /** For each of them, the number of calls of order n+1 made before it. */
  function Nexts(out: seq<Emission>, n: nat): seq<nat> {
    if out == [] then []
    else
      var rest := out[..|out| - 1];
      Nexts(rest, n) + if |out[|out| - 1].gram| == n then [|Row(rest, n + 1)|] else []
  }

  /** Where the children of place i in row n begin and end. */
  function Begin(out: seq<Emission>, n: nat, i: nat): nat
    requires i < |Nexts(out, n)|
  {
    Nexts(out, n)[i]
  }

  function End(out: seq<Emission>, n: nat, i: nat): nat
    requires i < |Nexts(out, n)|
  {
    if i + 1 < |Nexts(out, n)| then Nexts(out, n)[i + 1] else |Row(out, n + 1)|
  }

  lemma {:induction false} RowFacts(out: seq<Emission>, n: nat)
    ensures |Nexts(out, n)| == |Row(out, n)|
    ensures forall i :: 0 <= i < |Nexts(out, n)| ==> Nexts(out, n)[i] <= |Row(out, n + 1)|
    ensures forall i :: 0 <= i < |Row(out, n)| ==> |Row(out, n)[i].gram| == n && Row(out, n)[i] in out
  {
    if out != [] {
      RowFacts(out[..|out| - 1], n);
    }
  }

  lemma PreOrderInit(out: seq<Emission>)
    requires PreOrder(out) && out != []
    ensures PreOrder(out[..|out| - 1])
  {
    var rest := out[..|out| - 1];
    forall k | 0 <= k < |rest|
      ensures ParentBefore(rest, k)
    {
      assert ParentBefore(out, k);
      if 1 < |rest[k].gram| {
        var j :| 0 <= j < k && out[j].gram == out[k].gram[..|out[k].gram| - 1];
        assert rest[j].gram == rest[k].gram[..|rest[k].gram| - 1];
      }
    }
  }

  /** Rows are in order. */
  lemma {:induction false} RowAscends(out: seq<Emission>, n: nat)
    requires Ascending(out)
    ensures Ascending(Row(out, n))
  {
    if out != [] {
      var rest, e := out[..|out| - 1], out[|out| - 1];
      RowAscends(rest, n);
      RowFacts(rest, n);
      forall i | 0 <= i < |Row(rest, n)|
        ensures Less(Row(rest, n)[i].gram, e.gram)
      {
        var k :| 0 <= k < |rest| && rest[k] == Row(rest, n)[i];
        assert out[k] == rest[k];
      }
    }
  }

  /** A call is not after the last of its order. */
  lemma {:induction false} LastInRow(out: seq<Emission>, k: nat)
    requires Ascending(out) && k < |out|
    ensures var row := Row(out, |out[k].gram|);
            row != [] && NotAfter(out[k].gram, LastGram(row)) && row[|row| - 1] in out
  {
    var n := |out[k].gram|;
    var rest, e := out[..|out| - 1], out[|out| - 1];
    if |e.gram| == n {
      assert Row(out, n)[|Row(out, n)| - 1] == e;
    } else {
      assert rest[k] == out[k];
      LastInRow(rest, k);
      var row := Row(rest, n);
      var j :| 0 <= j < |rest| && rest[j] == row[|row| - 1];
      assert out[j] == rest[j];
    }
  }

  /** When a call is made, its parent is the last of its row. */
  lemma ParentIsLast(out: seq<Emission>)
    requires PreOrder(out) && out != [] && 1 < |LastGram(out)|
    ensures var row := Row(out[..|out| - 1], |LastGram(out)| - 1);
            row != [] && LastGram(row) == LastGram(out)[..|LastGram(out)| - 1]
  {
    var rest, g := out[..|out| - 1], LastGram(out);
    var n := |g| - 1;
    PreOrderInit(out);
    assert ParentBefore(out, |out| - 1);
    var j :| 0 <= j < |out| - 1 && out[j].gram == g[..n];
    assert rest[j] == out[j];
    LastInRow(rest, j);
    RowFacts(rest, n);
    var row := Row(rest, n);
    assert row[|row| - 1] in rest;
    var k :| 0 <= k < |rest| && rest[k] == row[|row| - 1];
    assert out[k] == rest[k];
    assert g[..n] <= g;
    BetweenExtends(g[..n], LastGram(row), g);
    assert |LastGram(row)| == n;
  }

  /** Place j of row n+1 is a child of place i of row n. */
  ghost predicate IsChild(out: seq<Emission>, n: nat, i: nat, j: nat)
    requires i < |Row(out, n)| && j < |Row(out, n + 1)|
  {
    n <= |Row(out, n + 1)[j].gram| && Row(out, n + 1)[j].gram[..n] == Row(out, n)[i].gram
  }

  /** The children of an n-gram are one range of the next row. */
  lemma {:induction false} ChildrenAreRange(out: seq<Emission>, n: nat, i: nat, j: nat)
    requires PreOrder(out) && 1 <= n && i < |Row(out, n)| && j < |Row(out, n + 1)|
    ensures i < |Nexts(out, n)| && (IsChild(out, n, i, j) <==> Begin(out, n, i) <= j < End(out, n, i))
  {
    hide Row, Nexts, PreOrder;
    if out != [] {
      var rest, g := out[..|out| - 1], LastGram(out);
      RowFacts(out, n);
      RowFacts(rest, n);
      RowFacts(rest, n + 1);
      PreOrderInit(out);
      OneCallMore(out, n);
      if i < |Row(rest, n)| && j < |Row(rest, n + 1)| {
        ChildrenAreRange(rest, n, i, j);
      } else if |g| == n {
        NoChildYet(out, j);
      } else {
        OnlyLastIsParent(out, n, i);
      }
    } else {
      NoCalls(n);
    }
  }

  lemma NoCalls(n: nat)
    ensures Row([], n) == []
  {
  }

  lemma OneCallMore(out: seq<Emission>, n: nat)
    requires out != []
    ensures var rest, e := out[..|out| - 1], out[|out| - 1];
            && Row(out, n) == Row(rest, n) + (if |e.gram| == n then [e] else [])
            && Row(out, n + 1) == Row(rest, n + 1) + (if |e.gram| == n + 1 then [e] else [])
            && Nexts(out, n) == Nexts(rest, n) + (if |e.gram| == n then [|Row(rest, n + 1)|] else [])
  {
  }

  /** Of the n-grams called so far only the last of its order is the parent of the next one. */
  lemma OnlyLastIsParent(out: seq<Emission>, n: nat, i: nat)
    requires PreOrder(out) && out != [] && 1 <= n && |LastGram(out)| == n + 1 && i < |Row(out[..|out| - 1], n)|
    ensures Row(out[..|out| - 1], n)[i].gram == LastGram(out)[..n] <==> i == |Row(out[..|out| - 1], n)| - 1
  {
    hide Row;
    var row := Row(out[..|out| - 1], n);
    PreOrderInit(out);
    ParentIsLast(out);
    RowAscends(out[..|out| - 1], n);
    if i < |row| - 1 {
      LessIrreflexive(row[i].gram);
      assert row[i].gram != LastGram(row);
    }
  }

  /** What was emitted before an n-gram does not extend it. */
  lemma NoChildYet(out: seq<Emission>, j: nat)
    requires PreOrder(out) && out != [] && j < |Row(out[..|out| - 1], |LastGram(out)| + 1)|
    ensures !(LastGram(out) <= Row(out[..|out| - 1], |LastGram(out)| + 1)[j].gram)
  {
    var rest, g := out[..|out| - 1], LastGram(out);
    RowFacts(rest, |g| + 1);
    var c := Row(rest, |g| + 1)[j];
    var k :| 0 <= k < |rest| && rest[k] == c;
    assert out[k] == c;
    if g <= c.gram {
      PrefixIsLess(g, c.gram);
      LessTransitive(g, c.gram, g);
      LessIrreflexive(g);
      assert false;
    }
  }
}
