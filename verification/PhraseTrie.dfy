/** The on-disk phrase table: a tree of source phrases whose finished branches are appended to a file while later phrases
    are still being added, and the walk that finds a phrase again. */
module PhraseTrie {

  datatype Option<T> = None | Some(value: T)

  datatype Word = Word(nonTerminal: bool, id: nat) {
    /** Non-terminals first, then by number. */
    predicate Before(that: Word) {
      if nonTerminal != that.nonTerminal then nonTerminal else id < that.id
    }
  }

  type Phrase = seq<Word>

  /** A translation; `size` is the number of bytes it takes in the file. */
  datatype Target = Target(text: nat, score: real, size: nat)

  /** A source phrase with one of its translations. */
  datatype Rule = Rule(source: Phrase, target: Target)

  datatype Child = Child(word: Word, node: Node)

  /** A node in memory. A saved node is only its place in the file. */
  datatype Node = Open(children: seq<Child>, current: Option<Word>, targets: seq<Target>) | Saved(filePos: nat)

  const EmptyNode := Open([], None, [])

  /** A node in the file: the place of its translations, and the words and places of its children. */
  datatype Stored = Stored(value: nat, children: seq<(Word, nat)>)

  /** The two files as far as they have been written, by place. */
  datatype Disk = Disk(nodes: map<nat, Stored>, sourceEnd: nat, colls: map<nat, seq<Target>>, collEnd: nat) {
    /** Place 0 is reserved; nothing lies behind the end. */
    predicate Valid() {
      && 0 < sourceEnd && 0 < collEnd
      && (forall p :: p in nodes ==> 0 < p < sourceEnd)
      && (forall p :: p in colls ==> 0 < p < collEnd)
    }
  }

  ghost predicate Extends(d: Disk, d': Disk) {
    && d.sourceEnd <= d'.sourceEnd && d.collEnd <= d'.collEnd
    && (forall p :: p in d.nodes ==> p in d'.nodes && d'.nodes[p] == d.nodes[p])
    && (forall p :: p in d.colls ==> p in d'.colls && d'.colls[p] == d.colls[p])
  }

  // ----- what a set of rules looks like from a node -----

  /** The translations of the phrase that ends here. */
  function Here(rules: seq<Rule>): seq<Target> {
    if rules == [] then []
    else Here(rules[..|rules| - 1]) + if rules[|rules| - 1].source == [] then [rules[|rules| - 1].target] else []
  }

  predicate StartsWith(r: Rule, w: Word) {
    r.source != [] && r.source[0] == w
  }

  /** The rules whose phrase goes on with w, without that word. */
  function Under(rules: seq<Rule>, w: Word): seq<Rule> {
    if rules == [] then []
    else
      var r := rules[|rules| - 1];
      Under(rules[..|rules| - 1], w) + if StartsWith(r, w) then [Rule(r.source[1..], r.target)] else []
  }

  ghost predicate HasFirst(rules: seq<Rule>, w: Word) {
    exists i :: 0 <= i < |rules| && StartsWith(rules[i], w)
  }

  /** The first word of the last phrase that goes on. */
  function LastFirst(rules: seq<Rule>): Option<Word> {
    if rules == [] then None
    else if rules[|rules| - 1].source != [] then Some(rules[|rules| - 1].source[0])
    else LastFirst(rules[..|rules| - 1])
  }

  // ----- translations -----

  function InsertTarget(t: Target, s: seq<Target>): seq<Target> {
    if s == [] || t.score > s[0].score then [t] + s else [s[0]] + InsertTarget(t, s[1..])
  }

  function SortTargets(s: seq<Target>): seq<Target> {
    if s == [] then [] else InsertTarget(s[|s| - 1], SortTargets(s[..|s| - 1]))
  }

  function Cut(s: seq<Target>, tableLimit: nat): seq<Target> {
    if tableLimit != 0 && tableLimit < |s| then s[..tableLimit] else s
  }

  ghost predicate BestFirst(s: seq<Target>) {
    forall i, j :: 0 <= i < j < |s| ==> s[i].score >= s[j].score
  }

  lemma {:induction false} InsertedMembers(t: Target, s: seq<Target>)
    ensures multiset(InsertTarget(t, s)) == multiset(s) + multiset{t}
    ensures forall x :: x in InsertTarget(t, s) <==> x == t || x in s
  {
    if s != [] {
      InsertedMembers(t, s[1..]);
      assert s == [s[0]] + s[1..];
    }
  }

  lemma {:induction false} InsertedBestFirst(t: Target, s: seq<Target>)
    requires BestFirst(s)
    ensures BestFirst(InsertTarget(t, s))
  {
    if s != [] && t.score <= s[0].score {
      InsertedBestFirst(t, s[1..]);
      InsertedMembers(t, s[1..]);
      var r := InsertTarget(t, s[1..]);
      forall j | 0 <= j < |r|
        ensures s[0].score >= r[j].score
      {
        assert r[j] in s[1..] || r[j] == t;
      }
    }
  }

  /** Sorting puts the best translations first and loses none. */
  lemma {:induction false} SortedBestFirst(s: seq<Target>)
    ensures BestFirst(SortTargets(s)) && multiset(SortTargets(s)) == multiset(s)
  {
    if s != [] {
      SortedBestFirst(s[..|s| - 1]);
      InsertedBestFirst(s[|s| - 1], SortTargets(s[..|s| - 1]));
      InsertedMembers(s[|s| - 1], SortTargets(s[..|s| - 1]));
      assert s == s[..|s| - 1] + [s[|s| - 1]];
    }
  }

  /** The `best` are as many of `all` as the limit allows, best first, and none is worse than one left out. */
  ghost predicate BestOf(best: seq<Target>, all: seq<Target>, tableLimit: nat) {
    && |best| == (if tableLimit == 0 || |all| < tableLimit then |all| else tableLimit)
    && (forall i, j :: 0 <= i < j < |best| ==> best[i].score >= best[j].score)
    && multiset(best) <= multiset(all)
    && forall t, i :: t in multiset(all) - multiset(best) && 0 <= i < |best| ==> best[i].score >= t.score
  }

  lemma CutKeepsBest(s: seq<Target>, tableLimit: nat)
    ensures BestOf(Cut(SortTargets(s), tableLimit), s, tableLimit)
  {
    hide SortTargets;
    var sorted := SortTargets(s);
    SortedBestFirst(s);
    SameSize(sorted, s);
    KeptAreBest(sorted, s, if tableLimit == 0 || |s| < tableLimit then |s| else tableLimit);
    assert sorted[..|s|] == sorted;
  }

  lemma SameSize(s: seq<Target>, s': seq<Target>)
    requires multiset(s) == multiset(s')
    ensures |s| == |s'|
  {
    assert |s| == |multiset(s)| && |s'| == |multiset(s')|;
  }

  lemma KeptAreBest(sorted: seq<Target>, s: seq<Target>, n: nat)
    requires BestFirst(sorted) && multiset(sorted) == multiset(s) && n <= |sorted|
    ensures multiset(sorted[..n]) <= multiset(s) && BestFirst(sorted[..n])
    ensures forall t, i :: t in multiset(s) - multiset(sorted[..n]) && 0 <= i < n ==> sorted[..n][i].score >= t.score
  {
    var kept, rest := sorted[..n], sorted[n..];
    assert sorted == kept + rest;
    assert multiset(s) - multiset(kept) == multiset(rest);
    forall t, i | t in multiset(s) - multiset(kept) && 0 <= i < n
      ensures kept[i].score >= t.score
    {
      Behind(sorted, n, t, i);
    }
  }

  lemma Behind(sorted: seq<Target>, n: nat, t: Target, i: nat)
    requires BestFirst(sorted) && i < n <= |sorted| && t in sorted[n..]
    ensures sorted[i].score >= t.score
  {
    var j :| 0 <= j < |sorted[n..]| && sorted[n..][j] == t;
    assert sorted[n + j] == t;
  }

  // ----- a node in the file -----

  ghost predicate Ascending(children: seq<(Word, nat)>) {
    forall i, j :: 0 <= i < j < |children| ==> children[i].0.Before(children[j].0)
  }

  /** The node at `pos` holds the rules: its own translations, sorted and cut, and for every next word a child that holds
      the rules going on with it. */
  ghost predicate Represents(d: Disk, tableLimit: nat, pos: nat, rules: seq<Rule>)
    decreases pos
  {
    && pos in d.nodes
    && d.nodes[pos].value in d.colls && d.nodes[pos].value != 0
    && d.colls[d.nodes[pos].value] == Cut(SortTargets(Here(rules)), tableLimit)
    && Ascending(d.nodes[pos].children)
    && (forall i :: 0 <= i < |d.nodes[pos].children| ==>
          ChildRepresents(d, tableLimit, pos, d.nodes[pos].children[i], rules))
    && (forall w :: HasFirst(rules, w) ==> Listed(d.nodes[pos].children, w))
  }

  ghost predicate ChildRepresents(d: Disk, tableLimit: nat, pos: nat, child: (Word, nat), rules: seq<Rule>)
    decreases pos, 0
  {
    child.1 < pos && HasFirst(rules, child.0) && Represents(d, tableLimit, child.1, Under(rules, child.0))
  }

  ghost predicate Listed(children: seq<(Word, nat)>, w: Word) {
    exists i :: 0 <= i < |children| && children[i].0 == w
  }

  // ----- a node in memory -----

  ghost predicate ChildrenAscend(children: seq<Child>) {
    forall i, j :: 0 <= i < j < |children| ==> children[i].word.Before(children[j].word)
  }

  ghost predicate HasChild(children: seq<Child>, w: Word) {
    exists i :: 0 <= i < |children| && children[i].word == w
  }

  /** The node holds the rules. Only the branch that was added to last is still open; the others are in the file. */
  ghost predicate Holds(d: Disk, tableLimit: nat, node: Node, rules: seq<Rule>)
    decreases node
  {
    match node
    case Saved(pos) => pos < d.sourceEnd && Represents(d, tableLimit, pos, rules)
    case Open(children, current, targets) =>
      && targets == Here(rules) && current == LastFirst(rules) && ChildrenAscend(children)
      && (forall i :: 0 <= i < |children| ==>
            && HasFirst(rules, children[i].word) && (children[i].node.Open? <==> current == Some(children[i].word))
            && Holds(d, tableLimit, children[i].node, Under(rules, children[i].word)))
      && (forall w :: HasFirst(rules, w) ==> HasChild(children, w))
  }

  lemma {:induction false} RepresentsLater(d: Disk, d': Disk, tableLimit: nat, pos: nat, rules: seq<Rule>)
    requires Extends(d, d') && Represents(d, tableLimit, pos, rules)
    ensures Represents(d', tableLimit, pos, rules)
    decreases pos
  {
    var children := d.nodes[pos].children;
    forall i | 0 <= i < |children|
      ensures ChildRepresents(d', tableLimit, pos, children[i], rules)
    {
      assert ChildRepresents(d, tableLimit, pos, children[i], rules);
      RepresentsLater(d, d', tableLimit, children[i].1, Under(rules, children[i].0));
    }
  }

  lemma {:induction false} HoldsLater(d: Disk, d': Disk, tableLimit: nat, node: Node, rules: seq<Rule>)
    requires Extends(d, d') && Holds(d, tableLimit, node, rules)
    ensures Holds(d', tableLimit, node, rules)
    decreases node
  {
    match node
    case Saved(pos) => RepresentsLater(d, d', tableLimit, pos, rules);
    case Open(children, current, targets) =>
      forall i | 0 <= i < |children|
        ensures Holds(d', tableLimit, children[i].node, Under(rules, children[i].word))
      {
        HoldsLater(d, d', tableLimit, children[i].node, Under(rules, children[i].word));
      }
  }

  // ----- one more rule -----

  /** At every node on its way, the phrase goes on in a new branch or in the one added to last. */
  ghost predicate CanAdd(rules: seq<Rule>, p: Phrase)
    decreases |p|
  {
    p != [] ==> (HasFirst(rules, p[0]) ==> LastFirst(rules) == Some(p[0])) && CanAdd(Under(rules, p[0]), p[1..])
  }

  lemma OneMoreRule(rules: seq<Rule>, r: Rule, w: Word)
    ensures Here(rules + [r]) == if r.source == [] then Here(rules) + [r.target] else Here(rules)
    ensures LastFirst(rules + [r]) == if r.source != [] then Some(r.source[0]) else LastFirst(rules)
    ensures Under(rules + [r], w) == if StartsWith(r, w) then Under(rules, w) + [Rule(r.source[1..], r.target)] else Under(rules, w)
    ensures HasFirst(rules + [r], w) <==> HasFirst(rules, w) || StartsWith(r, w)
  {
    assert (rules + [r])[..|rules|] == rules;
    if HasFirst(rules, w) {
      var i :| 0 <= i < |rules| && StartsWith(rules[i], w);
      assert (rules + [r])[i] == rules[i];
    }
    assert (rules + [r])[|rules|] == r;
  }

  /** Equal prefixes stand together. */
  ghost predicate Contiguous(rules: seq<Rule>) {
    forall u, i, k, j :: 0 <= i < k < j < |rules| ==> Between(rules, u, i, k, j)
  }

  ghost predicate Between(rules: seq<Rule>, u: Phrase, i: nat, k: nat, j: nat)
    requires i < |rules| && k < |rules| && j < |rules|
  {
    u <= rules[i].source && u <= rules[j].source ==> u <= rules[k].source
  }

  lemma {:induction false} LastFirstIs(rules: seq<Rule>, w: Word) returns (j: nat)
    requires HasFirst(rules, w)
    ensures j < |rules| && rules[j].source != [] && LastFirst(rules) == Some(rules[j].source[0])
    ensures forall i :: 0 <= i < |rules| && rules[i].source != [] ==> i <= j
  {
    var last := |rules| - 1;
    if rules[last].source != [] {
      j := last;
    } else {
      var i :| 0 <= i < |rules| && StartsWith(rules[i], w);
      assert rules[..last][i] == rules[i];
      j := LastFirstIs(rules[..last], w);
      assert forall k :: 0 <= k < last ==> rules[..last][k] == rules[k];
    }
  }

  /** The place in `rules` of a rule under w. */
  function UnderAt(rules: seq<Rule>, w: Word, i: nat): nat
    requires i < |Under(rules, w)|
  {
    var rest := rules[..|rules| - 1];
    if i < |Under(rest, w)| then UnderAt(rest, w, i) else |rules| - 1
  }

  lemma {:induction false} UnderPlace(rules: seq<Rule>, w: Word, i: nat)
    requires i < |Under(rules, w)|
    ensures UnderAt(rules, w, i) < |rules| && rules[UnderAt(rules, w, i)].source == [w] + Under(rules, w)[i].source
    ensures forall j :: 0 <= j < i ==> UnderAt(rules, w, j) < UnderAt(rules, w, i)
  {
    var rest := rules[..|rules| - 1];
    if i < |Under(rest, w)| {
      UnderPlace(rest, w, i);
    } else {
      forall j | 0 <= j < i
        ensures UnderAt(rules, w, j) < UnderAt(rules, w, i)
      {
        UnderPlace(rest, w, j);
      }
      var r := rules[|rules| - 1];
      assert r.source == [w] + r.source[1..];
    }
  }

  lemma ContiguousUnder(rules: seq<Rule>, w: Word)
    requires Contiguous(rules)
    ensures Contiguous(Under(rules, w))
  {
    var under := Under(rules, w);
    forall u, i, k, j | 0 <= i < k < j < |under|
      ensures Between(under, u, i, k, j)
    {
      UnderPlace(rules, w, i);
      UnderPlace(rules, w, k);
      UnderPlace(rules, w, j);
      assert Between(rules, [w] + u, UnderAt(rules, w, i), UnderAt(rules, w, k), UnderAt(rules, w, j));
      PrefixUnder(w, u, under[i].source);
      PrefixUnder(w, u, under[k].source);
      PrefixUnder(w, u, under[j].source);
    }
  }

  lemma PrefixUnder(w: Word, u: Phrase, p: Phrase)
    ensures [w] + u <= [w] + p <==> u <= p
  {
    assert ([w] + p)[1..] == p;
    if u <= p {
      assert p[..|u|] == u;
      assert ([w] + p)[..1 + |u|] == [w] + u;
    }
    if [w] + u <= [w] + p {
      assert ([w] + p)[..1 + |u|] == [w] + u;
      assert p[..|u|] == ([w] + p)[..1 + |u|][1..];
    }
  }

  /** When equal prefixes stand together, every next phrase can be added. */
  lemma {:induction false} ContiguousCanAdd(rules: seq<Rule>, r: Rule)
    requires Contiguous(rules + [r])
    ensures CanAdd(rules, r.source)
    decreases |r.source|
  {
    if r.source != [] {
      var w := r.source[0];
      var all := rules + [r];
      if HasFirst(rules, w) {
        var i :| 0 <= i < |rules| && StartsWith(rules[i], w);
        var j := LastFirstIs(rules, w);
        if i < j {
          assert Between(all, [w], i, j, |rules|);
          assert [w] <= all[i].source && [w] <= all[|rules|].source;
        }
      }
      OneMoreRule(rules, r, w);
      ContiguousUnder(all, w);
      ContiguousCanAdd(Under(rules, w), Rule(r.source[1..], r.target));
    }
  }

  // ----- adding -----

  /** One branch gets the new rule; the others are in the file. */
  lemma BranchAdded(d: Disk, tableLimit: nat, rules: seq<Rule>, r: Rule, children: seq<Child>, targets: seq<Target>)
    requires r.source != [] && targets == Here(rules) && ChildrenAscend(children)
    requires forall i :: 0 <= i < |children| ==> BranchOk(d, tableLimit, rules, r, children[i])
    requires forall w :: HasFirst(rules, w) || w == r.source[0] ==> HasChild(children, w)
    ensures Holds(d, tableLimit, Open(children, Some(r.source[0]), targets), rules + [r])
  {
    var w0 := r.source[0];
    OneMoreRule(rules, r, w0);
    forall i | 0 <= i < |children|
      ensures HasFirst(rules + [r], children[i].word)
      ensures children[i].node.Open? <==> w0 == children[i].word
      ensures Holds(d, tableLimit, children[i].node, Under(rules + [r], children[i].word))
    {
      OneMoreRule(rules, r, children[i].word);
      assert BranchOk(d, tableLimit, rules, r, children[i]);
    }
    forall w
      ensures HasFirst(rules + [r], w) ==> HasChild(children, w)
    {
      OneMoreRule(rules, r, w);
    }
  }

  ghost predicate BranchOk(d: Disk, tableLimit: nat, rules: seq<Rule>, r: Rule, child: Child)
    requires r.source != []
  {
    if child.word == r.source[0] then
      child.node.Open? && Holds(d, tableLimit, child.node, Under(rules, child.word) + [Rule(r.source[1..], r.target)])
    else
      child.node.Saved? && HasFirst(rules, child.word) && Holds(d, tableLimit, child.node, Under(rules, child.word))
  }

  /** Where w is among the children, or would be. */
  method FindChild(children: seq<Child>, w: Word) returns (i: nat, found: bool)
    requires ChildrenAscend(children)
    ensures i <= |children| && (found <==> HasChild(children, w)) && (found ==> i < |children| && children[i].word == w)
    ensures forall j :: 0 <= j < i ==> children[j].word.Before(w)
    ensures forall j :: i <= j < |children| && children[j].word != w ==> w.Before(children[j].word)
  {
    i := 0;
    while i < |children| && children[i].word.Before(w)
      invariant i <= |children| && forall j :: 0 <= j < i ==> children[j].word.Before(w)
    {
      i := i + 1;
    }
    found := i < |children| && children[i].word == w;
  }

  function Places(children: seq<Child>): seq<(Word, nat)>
    requires forall i :: 0 <= i < |children| ==> children[i].node.Saved?
  {
    seq(|children|, i requires 0 <= i < |children| => (children[i].word, children[i].node.filePos))
  }

  /** The bytes a node takes: number of children and value, a count, and a word and a place for every child. */
  function NodeSize(numChildren: nat): nat {
    2 * 8 + 4 + (8 + 1 + 8) * numChildren
  }

  function CollSize(s: seq<Target>): nat {
    if s == [] then 8 else CollSize(s[..|s| - 1]) + s[|s| - 1].size
  }

  /** The file after a node and its translations have been appended. */
  function Appended(d: Disk, targets: seq<Target>, children: seq<(Word, nat)>): Disk {
    Disk(d.nodes[d.sourceEnd := Stored(d.collEnd, children)], d.sourceEnd + NodeSize(|children|),
         d.colls[d.collEnd := targets], d.collEnd + CollSize(targets))
  }

  lemma {:induction false} CollSizePositive(s: seq<Target>)
    ensures 0 < CollSize(s)
  {
    if s != [] {
      CollSizePositive(s[..|s| - 1]);
    }
  }

  lemma AppendedExtends(d: Disk, targets: seq<Target>, children: seq<(Word, nat)>)
    requires d.Valid()
    ensures Appended(d, targets, children).Valid() && Extends(d, Appended(d, targets, children))
    ensures d.sourceEnd < Appended(d, targets, children).sourceEnd
  {
    CollSizePositive(targets);
  }

  ghost predicate InFile(d: Disk, tableLimit: nat, child: Child, rules: seq<Rule>) {
    child.node.Saved? && HasFirst(rules, child.word) && Holds(d, tableLimit, child.node, Under(rules, child.word))
  }

  /** A node whose children are all in the file. */
  lemma NodeStored(d: Disk, tableLimit: nat, node: Node, children: seq<Child>, rules: seq<Rule>)
    requires d.Valid() && node.Open? && node.targets == Here(rules) && ChildrenAscend(children)
    requires forall i :: 0 <= i < |children| ==> children[i].node.Saved? && InFile(d, tableLimit, children[i], rules)
    requires forall w :: HasFirst(rules, w) ==> HasChild(children, w)
    ensures Represents(Appended(d, Cut(SortTargets(node.targets), tableLimit), Places(children)), tableLimit, d.sourceEnd, rules)
  {
    var places := Places(children);
    var d' := Appended(d, Cut(SortTargets(node.targets), tableLimit), places);
    AppendedExtends(d, Cut(SortTargets(node.targets), tableLimit), places);
    forall i | 0 <= i < |places|
      ensures ChildRepresents(d', tableLimit, d.sourceEnd, places[i], rules)
    {
      assert InFile(d, tableLimit, children[i], rules);
      RepresentsLater(d, d', tableLimit, places[i].1, Under(rules, places[i].0));
    }
    forall w | HasFirst(rules, w)
      ensures Listed(places, w)
    {
      var i :| 0 <= i < |children| && children[i].word == w;
      assert places[i].0 == w;
    }
  }

  // ----- saving -----

  /** The first i children have been saved; all still hold their rules. */
  ghost predicate Saving(d: Disk, tableLimit: nat, node: Node, children: seq<Child>, i: nat, rules: seq<Rule>) {
    && node.Open? && node.targets == Here(rules) && |children| == |node.children|
    && (forall j :: 0 <= j < i && j < |children| ==> children[j].node.Saved?)
    && (forall j :: i <= j < |children| ==> children[j] == node.children[j])
    && (forall j :: 0 <= j < |children| ==> KeptChild(d, tableLimit, children[j], node.children[j], rules))
    && ChildrenAscend(node.children) && forall w :: HasFirst(rules, w) ==> HasChild(node.children, w)
  }

  ghost predicate KeptChild(d: Disk, tableLimit: nat, child: Child, was: Child, rules: seq<Rule>) {
    child.word == was.word && HasFirst(rules, child.word) && Holds(d, tableLimit, child.node, Under(rules, child.word))
  }

  lemma SavingStarts(d: Disk, tableLimit: nat, node: Node, rules: seq<Rule>)
    requires node.Open? && Holds(d, tableLimit, node, rules)
    ensures Saving(d, tableLimit, node, node.children, 0, rules)
  {
  }

  lemma ExtendsTransitive(d: Disk, d': Disk, d'': Disk)
    requires Extends(d, d') && Extends(d', d'')
    ensures Extends(d, d'')
  {
  }

  lemma ChildSaved(d: Disk, d': Disk, tableLimit: nat, node: Node, children: seq<Child>, i: nat, pos: nat, rules: seq<Rule>)
    requires Saving(d, tableLimit, node, children, i, rules) && i < |children| && Extends(d, d')
    requires pos < d'.sourceEnd && Represents(d', tableLimit, pos, Under(rules, children[i].word))
    ensures Saving(d', tableLimit, node, children[i := Child(children[i].word, Saved(pos))], i + 1, rules)
  {
    var children' := children[i := Child(children[i].word, Saved(pos))];
    forall j | 0 <= j < |children|
      ensures KeptChild(d', tableLimit, children'[j], node.children[j], rules)
    {
      assert KeptChild(d, tableLimit, children[j], node.children[j], rules);
      if j != i {
        HoldsLater(d, d', tableLimit, children[j].node, Under(rules, children[j].word));
      }
    }
  }

  lemma ChildWasSaved(d: Disk, tableLimit: nat, node: Node, children: seq<Child>, i: nat, rules: seq<Rule>)
    requires Saving(d, tableLimit, node, children, i, rules) && i < |children| && children[i].node.Saved?
    ensures Saving(d, tableLimit, node, children, i + 1, rules)
  {
  }

  lemma AllSaved(d: Disk, tableLimit: nat, node: Node, children: seq<Child>, rules: seq<Rule>)
    requires d.Valid() && Saving(d, tableLimit, node, children, |children|, rules)
    ensures forall i :: 0 <= i < |children| ==> children[i].node.Saved?
    ensures Represents(Appended(d, Cut(SortTargets(node.targets), tableLimit), Places(children)), tableLimit, d.sourceEnd, rules)
  {
    SameChildren(node.children, children, rules);
    forall i | 0 <= i < |children|
      ensures InFile(d, tableLimit, children[i], rules)
    {
      assert KeptChild(d, tableLimit, children[i], node.children[i], rules);
    }
    NodeStored(d, tableLimit, node, children, rules);
  }

  class OnDiskWrapper {
    const tableLimit: nat
    var disk: Disk

    constructor (tableLimit: nat)
      ensures this.tableLimit == tableLimit && disk.Valid() && disk.nodes == map[] && disk.colls == map[]
    {
      this.tableLimit := tableLimit;
      disk := Disk(map[], 1, map[], 1);
    }

    /** Append a branch to the file, children first. What was written before does not change. */
    method Save(node: Node, ghost rules: seq<Rule>) returns (filePos: nat)
      requires disk.Valid() && node.Open? && Holds(disk, tableLimit, node, rules)
      modifies this
      ensures disk.Valid() && Extends(old(disk), disk)
      ensures filePos < disk.sourceEnd && Represents(disk, tableLimit, filePos, rules)
      decreases node
    {
      var children := node.children;
      hide Holds, Represents, Disk.Valid, Extends;
      SavingStarts(disk, tableLimit, node, rules);
      for i := 0 to |children|
        invariant disk.Valid() && Extends(old(disk), disk) && Saving(disk, tableLimit, node, children, i, rules)
      {
        ghost var before := disk;
        if children[i].node.Open? {
          var pos := Save(children[i].node, Under(rules, children[i].word));
          ChildSaved(before, disk, tableLimit, node, children, i, pos, rules);
          ExtendsTransitive(old(disk), before, disk);
          children := children[i := Child(children[i].word, Saved(pos))];
        } else {
          ChildWasSaved(disk, tableLimit, node, children, i, rules);
        }
      }
      AllSaved(disk, tableLimit, node, children, rules);
      filePos := disk.sourceEnd;
      AppendedExtends(disk, Cut(SortTargets(node.targets), tableLimit), Places(children));
      ExtendsTransitive(old(disk), disk, Appended(disk, Cut(SortTargets(node.targets), tableLimit), Places(children)));
      disk := Appended(disk, Cut(SortTargets(node.targets), tableLimit), Places(children));
    }

    /** Add a rule below a node. A branch that is left is saved. */
    method AddTargetPhrase(node: Node, p: Phrase, target: Target, ghost rules: seq<Rule>) returns (node': Node)
      requires disk.Valid() && node.Open? && Holds(disk, tableLimit, node, rules) && CanAdd(rules, p)
      modifies this
      ensures disk.Valid() && Extends(old(disk), disk)
      ensures node'.Open? && Holds(disk, tableLimit, node', rules + [Rule(p, target)])
      decreases |p|
    {
      ghost var r := Rule(p, target);
      if p == [] {
        EndAdded(disk, tableLimit, node, rules, r);
        return Open(node.children, node.current, node.targets + [target]);
      }
      var w := p[0];
      var children := LeaveBranch(node, w, rules);
      var i, found := FindChild(children, w);
      ghost var before := disk;
      var below := EmptyNode;
      if found {
        below := AddTargetPhrase(children[i].node, p[1..], target, Under(rules, w));
      } else {
        NothingUnder(rules, w);
        below := AddTargetPhrase(EmptyNode, p[1..], target, []);
      }
      GrowBranch(before, disk, tableLimit, rules, r, children, i, found, below);
      node' := Open(Grown(children, w, below, i, found), Some(w), node.targets);
    }

    /** Save the branch added to last, unless it is that of w. */
    method LeaveBranch(node: Node, w: Word, ghost rules: seq<Rule>) returns (children: seq<Child>)
      requires disk.Valid() && node.Open? && Holds(disk, tableLimit, node, rules)
      requires HasFirst(rules, w) ==> LastFirst(rules) == Some(w)
      modifies this
      ensures disk.Valid() && Extends(old(disk), disk) && Ready(disk, tableLimit, children, w, rules)
    {
      children := node.children;
      if node.current != Some(w) && node.current != None {
        var v := node.current.value;
        LastIsFirst(rules);
        var i, found := FindChild(children, v);
        ghost var before := disk;
        var pos := Save(children[i].node, Under(rules, v));
        children := children[i := Child(v, Saved(pos))];
        BranchLeft(before, disk, tableLimit, node, rules, i, pos, w);
      }
    }
  }

  /** All branches but that of w are in the file. */
  ghost predicate Ready(d: Disk, tableLimit: nat, children: seq<Child>, w: Word, rules: seq<Rule>) {
    && ChildrenAscend(children)
    && (forall i :: 0 <= i < |children| ==>
          if children[i].word == w then children[i].node.Open? && Holds(d, tableLimit, children[i].node, Under(rules, w))
          else InFile(d, tableLimit, children[i], rules))
    && (forall x :: HasFirst(rules, x) ==> HasChild(children, x))
  }

  lemma {:induction false} LastIsFirst(rules: seq<Rule>)
    requires LastFirst(rules).Some?
    ensures HasFirst(rules, LastFirst(rules).value)
  {
    var rest := rules[..|rules| - 1];
    if rules[|rules| - 1].source != [] {
      assert StartsWith(rules[|rules| - 1], LastFirst(rules).value);
    } else {
      LastIsFirst(rest);
      var i :| 0 <= i < |rest| && StartsWith(rest[i], LastFirst(rest).value);
      assert rules[i] == rest[i];
    }
  }

  lemma {:induction false} NothingUnder(rules: seq<Rule>, w: Word)
    requires !HasFirst(rules, w)
    ensures Under(rules, w) == []
  {
    if rules != [] {
      var rest := rules[..|rules| - 1];
      assert forall i :: 0 <= i < |rest| ==> rest[i] == rules[i];
      NothingUnder(rest, w);
    }
  }

  lemma BranchLeft(d: Disk, d': Disk, tableLimit: nat, node: Node, rules: seq<Rule>, i: nat, pos: nat, w: Word)
    requires node.Open? && Holds(d, tableLimit, node, rules) && Extends(d, d') && i < |node.children|
    requires node.current == Some(node.children[i].word) && node.children[i].word != w && !HasFirst(rules, w)
    requires Holds(d', tableLimit, Saved(pos), Under(rules, node.children[i].word))
    ensures Ready(d', tableLimit, node.children[i := Child(node.children[i].word, Saved(pos))], w, rules)
  {
    var children := node.children[i := Child(node.children[i].word, Saved(pos))];
    SameChildren(node.children, children, rules);
    forall j | 0 <= j < |children|
      ensures InFile(d', tableLimit, children[j], rules) && children[j].word != w
    {
      if j != i {
        assert node.children[j].word != node.children[i].word by {
          assert if j < i then node.children[j].word.Before(node.children[i].word) else node.children[i].word.Before(node.children[j].word);
        }
        HoldsLater(d, d', tableLimit, node.children[j].node, Under(rules, node.children[j].word));
      }
    }
  }

  /** The branch of w has grown, or is new. */
  lemma GrowBranch(d: Disk, d': Disk, tableLimit: nat, rules: seq<Rule>, r: Rule, children: seq<Child>, i: nat, found: bool, below: Node)
    requires r.source != [] && Ready(d, tableLimit, children, r.source[0], rules) && Extends(d, d')
    requires i <= |children| && (found ==> i < |children| && children[i].word == r.source[0])
    requires !found ==> !HasChild(children, r.source[0])
    requires forall j :: 0 <= j < i ==> children[j].word.Before(r.source[0])
    requires forall j :: i <= j < |children| && children[j].word != r.source[0] ==> r.source[0].Before(children[j].word)
    requires below.Open?
    requires Holds(d', tableLimit, below, Under(rules, r.source[0]) + [Rule(r.source[1..], r.target)])
    ensures var w := r.source[0];
            Holds(d', tableLimit, Open(Grown(children, w, below, i, found), Some(w), Here(rules)), rules + [r])
  {
    var w := r.source[0];
    GrownAscends(children, w, below, i, found);
    GrownBranches(d, d', tableLimit, rules, r, children, i, found, below);
    GrownWords(children, w, below, i, found, rules);
    hide Grown, ChildrenAscend, Holds, BranchOk, Under, HasFirst;
    BranchAdded(d', tableLimit, rules, r, Grown(children, w, below, i, found), Here(rules));
  }

  /** The children with the branch of w in its place. */
  function Grown(children: seq<Child>, w: Word, below: Node, i: nat, found: bool): seq<Child>
    requires i <= |children| && (found ==> i < |children|)
  {
    if found then children[i := Child(w, below)] else children[..i] + [Child(w, below)] + children[i..]
  }

  lemma GrownBranches(d: Disk, d': Disk, tableLimit: nat, rules: seq<Rule>, r: Rule, children: seq<Child>, i: nat, found: bool, below: Node)
    requires r.source != [] && Ready(d, tableLimit, children, r.source[0], rules) && Extends(d, d')
    requires i <= |children| && (found ==> i < |children| && children[i].word == r.source[0])
    requires !found ==> !HasChild(children, r.source[0])
    requires below.Open?
    requires Holds(d', tableLimit, below, Under(rules, r.source[0]) + [Rule(r.source[1..], r.target)])
    ensures var children' := Grown(children, r.source[0], below, i, found);
            forall j :: 0 <= j < |children'| ==> BranchOk(d', tableLimit, rules, r, children'[j])
  {
    var children' := Grown(children, r.source[0], below, i, found);
    assert BranchOk(d', tableLimit, rules, r, Child(r.source[0], below));
    hide BranchOk, Ready, Holds;
    forall j | 0 <= j < |children'|
      ensures BranchOk(d', tableLimit, rules, r, children'[j])
    {
      if j != i {
        var k := if found || j < i then j else j - 1;
        StillInFile(d, d', tableLimit, rules, r, children, i, found, k);
      }
    }
  }

  lemma GrownWords(children: seq<Child>, w: Word, below: Node, i: nat, found: bool, rules: seq<Rule>)
    requires i <= |children| && (found ==> i < |children| && children[i].word == w)
    requires forall x :: HasFirst(rules, x) ==> HasChild(children, x)
    ensures forall x :: HasFirst(rules, x) || x == w ==> HasChild(Grown(children, w, below, i, found), x)
  {
    var children' := Grown(children, w, below, i, found);
    forall x | HasFirst(rules, x) || x == w
      ensures HasChild(children', x)
    {
      if x == w {
        assert children'[i].word == w;
      } else {
        var k :| 0 <= k < |children| && children[k].word == x;
        assert children'[if found || k < i then k else k + 1].word == x;
      }
    }
  }

  lemma StillInFile(d: Disk, d': Disk, tableLimit: nat, rules: seq<Rule>, r: Rule, children: seq<Child>, i: nat, found: bool, k: nat)
    requires r.source != [] && Ready(d, tableLimit, children, r.source[0], rules) && Extends(d, d')
    requires i <= |children| && (found ==> i < |children| && children[i].word == r.source[0])
    requires !found ==> !HasChild(children, r.source[0])
    requires k < |children| && (found ==> k != i)
    ensures BranchOk(d', tableLimit, rules, r, children[k])
  {
    assert children[k].word != r.source[0] by {
      if found {
        assert if k < i then children[k].word.Before(children[i].word) else children[i].word.Before(children[k].word);
      }
    }
    assert InFile(d, tableLimit, children[k], rules);
    HoldsLater(d, d', tableLimit, children[k].node, Under(rules, children[k].word));
  }

  lemma GrownAscends(children: seq<Child>, w: Word, below: Node, i: nat, found: bool)
    requires ChildrenAscend(children) && i <= |children| && (found ==> i < |children| && children[i].word == w)
    requires !found ==> !HasChild(children, w)
    requires forall j :: 0 <= j < i ==> children[j].word.Before(w)
    requires forall j :: i <= j < |children| && children[j].word != w ==> w.Before(children[j].word)
    ensures ChildrenAscend(Grown(children, w, below, i, found))
  {
    hide Word.Before;
    if found {
      assert forall j :: 0 <= j < |children| ==> children[i := Child(w, below)][j].word == children[j].word;
    } else {
      assert forall j :: 0 <= j < |children| ==> children[j].word != w;
    }
  }

  lemma EndAdded(d: Disk, tableLimit: nat, node: Node, rules: seq<Rule>, r: Rule)
    requires node.Open? && Holds(d, tableLimit, node, rules) && r.source == []
    ensures Holds(d, tableLimit, Open(node.children, node.current, node.targets + [r.target]), rules + [r])
  {
    forall w
      ensures Under(rules + [r], w) == Under(rules, w) && (HasFirst(rules + [r], w) <==> HasFirst(rules, w))
      ensures Here(rules + [r]) == Here(rules) + [r.target] && LastFirst(rules + [r]) == LastFirst(rules)
    {
      OneMoreRule(rules, r, w);
    }
    OneMoreRule(rules, r, Word(false, 0));
  }

  lemma SameChildren(children: seq<Child>, children': seq<Child>, rules: seq<Rule>)
    requires |children'| == |children| && forall j :: 0 <= j < |children| ==> children'[j].word == children[j].word
    requires ChildrenAscend(children) && forall w :: HasFirst(rules, w) ==> HasChild(children, w)
    ensures ChildrenAscend(children') && forall w :: HasFirst(rules, w) ==> HasChild(children', w)
  {
    forall w | HasFirst(rules, w)
      ensures HasChild(children', w)
    {
      var i :| 0 <= i < |children| && children[i].word == w;
      assert children'[i].word == w;
    }
  }

  // ----- finding a phrase again -----

  /** The rules whose phrase goes on with p, without it. */
  function UnderAll(rules: seq<Rule>, p: Phrase): seq<Rule>
    decreases |p|
  {
    if p == [] then rules else UnderAll(Under(rules, p[0]), p[1..])
  }

  ghost predicate SomePrefix(rules: seq<Rule>, p: Phrase) {
    p == [] || exists i :: 0 <= i < |rules| && p <= rules[i].source
  }

  /** The translations of p, in the order in which they were added. */
  function TranslationsOf(rules: seq<Rule>, p: Phrase): seq<Target> {
    if rules == [] then []
    else
      var r := rules[|rules| - 1];
      TranslationsOf(rules[..|rules| - 1], p) + if r.source == p then [r.target] else []
  }

  /** They stand at exactly the places where p was added. */
  lemma {:induction false} TranslationsArePlaces(rules: seq<Rule>, p: Phrase) returns (places: seq<nat>)
    ensures |places| == |TranslationsOf(rules, p)| && forall j, k :: 0 <= j < k < |places| ==> places[j] < places[k]
    ensures forall k :: 0 <= k < |places| ==> places[k] < |rules| && rules[places[k]] == Rule(p, TranslationsOf(rules, p)[k])
    ensures forall i :: 0 <= i < |rules| && rules[i].source == p ==> i in places
  {
    if rules == [] {
      places := [];
    } else {
      var n := |rules| - 1;
      places := TranslationsArePlaces(rules[..n], p);
      if rules[n].source == p {
        places := places + [n];
      }
      forall i | 0 <= i < |rules| && rules[i].source == p
        ensures i in places
      {
        assert i < n ==> rules[..n][i] == rules[i];
        assert i == n ==> places[|places| - 1] == n;
      }
    }
  }

  lemma {:induction false} UnderHas(rules: seq<Rule>, w: Word, q: Phrase)
    ensures (exists i :: 0 <= i < |rules| && [w] + q <= rules[i].source)
            <==> exists i :: 0 <= i < |Under(rules, w)| && q <= Under(rules, w)[i].source
  {
    var under := Under(rules, w);
    if j :| 0 <= j < |under| && q <= under[j].source {
      UnderPlace(rules, w, j);
      PrefixUnder(w, q, under[j].source);
    }
    if i :| 0 <= i < |rules| && [w] + q <= rules[i].source {
      var j := PlaceUnder(rules, w, i);
      PrefixUnder(w, q, under[j].source);
      assert rules[i].source == [w] + under[j].source;
    }
  }

  lemma {:induction false} PlaceUnder(rules: seq<Rule>, w: Word, i: nat) returns (j: nat)
    requires i < |rules| && StartsWith(rules[i], w)
    ensures j < |Under(rules, w)| && rules[i].source == [w] + Under(rules, w)[j].source
  {
    var rest := rules[..|rules| - 1];
    if i < |rest| {
      assert rest[i] == rules[i];
      j := PlaceUnder(rest, w, i);
    } else {
      j := |Under(rest, w)|;
      assert rules[i].source == [w] + rules[i].source[1..];
    }
  }

  lemma FirstIffPrefix(rules: seq<Rule>, p: Phrase)
    requires p != []
    ensures SomePrefix(rules, p) ==> HasFirst(rules, p[0])
    ensures HasFirst(rules, p[0]) ==> (SomePrefix(rules, p) <==> SomePrefix(Under(rules, p[0]), p[1..]))
  {
    assert p == [p[0]] + p[1..];
    UnderHas(rules, p[0], p[1..]);
    if HasFirst(rules, p[0]) && p[1..] == [] {
      var i :| 0 <= i < |rules| && StartsWith(rules[i], p[0]);
      assert rules[i].source == [p[0]] + rules[i].source[1..];
    }
  }

  lemma {:induction false} HereIsTranslations(rules: seq<Rule>, p: Phrase)
    ensures Here(UnderAll(rules, p)) == TranslationsOf(rules, p)
    decreases |p|
  {
    if p == [] {
      HereIsEmpty(rules);
    } else {
      HereIsTranslations(Under(rules, p[0]), p[1..]);
      TranslationsUnder(rules, p);
    }
  }

  lemma {:induction false} HereIsEmpty(rules: seq<Rule>)
    ensures Here(rules) == TranslationsOf(rules, [])
  {
    if rules != [] {
      HereIsEmpty(rules[..|rules| - 1]);
    }
  }

  lemma {:induction false} TranslationsUnder(rules: seq<Rule>, p: Phrase)
    requires p != []
    ensures TranslationsOf(Under(rules, p[0]), p[1..]) == TranslationsOf(rules, p)
  {
    if rules != [] {
      var rest, r := rules[..|rules| - 1], rules[|rules| - 1];
      TranslationsUnder(rest, p);
      assert p == [p[0]] + p[1..];
      var under := Under(rest, p[0]);
      if StartsWith(r, p[0]) {
        assert r.source == [r.source[0]] + r.source[1..];
        assert r.source == p <==> r.source[1..] == p[1..];
        assert (under + [Rule(r.source[1..], r.target)])[..|under|] == under;
      } else {
        assert Under(rules, p[0]) == under;
      }
    }
  }

  /** The child with the word, by bisection. */
  method GetChild(node: Stored, w: Word) returns (found: bool, filePos: nat)
    requires Ascending(node.children)
    ensures found ==> exists i :: 0 <= i < |node.children| && node.children[i] == (w, filePos)
    ensures !found ==> !Listed(node.children, w)
  {
    var l, r := 0, |node.children| - 1;
    filePos := 0;
    while r >= l
      invariant 0 <= l && r < |node.children| && l <= r + 1
      invariant forall i :: 0 <= i < l ==> node.children[i].0.Before(w)
      invariant forall i :: r < i < |node.children| ==> w.Before(node.children[i].0)
    {
      var x := (l + r) / 2;
      var (wordFound, childFilePos) := node.children[x];
      if w == wordFound {
        return true, childFilePos;
      }
      if w.Before(wordFound) {
        r := x - 1;
      } else {
        l := x + 1;
      }
    }
    found := false;
  }

  /** Walks down from the root. Finds a node if and only if the phrase begins some phrase added, and with it exactly the
      best translations of the phrase. */
  method Query(d: Disk, tableLimit: nat, root: nat, p: Phrase, ghost rules: seq<Rule>) returns (found: bool, targets: seq<Target>)
    requires Represents(d, tableLimit, root, rules)
    ensures found <==> SomePrefix(rules, p)
    ensures found ==> targets == Cut(SortTargets(TranslationsOf(rules, p)), tableLimit)
    ensures found ==> BestOf(targets, TranslationsOf(rules, p), tableLimit)
  {
    hide BestOf;
    CutKeepsBest(TranslationsOf(rules, p), tableLimit);
    var node := root;
    ghost var here := rules;
    for pos := 0 to |p|
      invariant Represents(d, tableLimit, node, here) && here == UnderAll(rules, p[..pos])
      invariant SomePrefix(rules, p) <==> SomePrefix(here, p[pos..])
    {
      var word := p[pos];
      assert p[pos..][0] == word && p[pos..][1..] == p[pos + 1..];
      FirstIffPrefix(here, p[pos..]);
      var ok, child := GetChild(d.nodes[node], word);
      if !ok {
        return false, [];
      }
      var i :| 0 <= i < |d.nodes[node].children| && d.nodes[node].children[i] == (word, child);
      assert ChildRepresents(d, tableLimit, node, d.nodes[node].children[i], here);
      UnderOneMore(rules, p[..pos], word);
      assert p[..pos + 1] == p[..pos] + [word];
      node := child;
      here := Under(here, word);
    }
    assert p[..|p|] == p;
    HereIsTranslations(rules, p);
    found, targets := true, d.colls[d.nodes[node].value];
  }

  lemma {:induction false} UnderOneMore(rules: seq<Rule>, p: Phrase, w: Word)
    ensures UnderAll(rules, p + [w]) == Under(UnderAll(rules, p), w)
    decreases |p|
  {
    if p != [] {
      assert (p + [w])[1..] == p[1..] + [w];
      UnderOneMore(Under(rules, p[0]), p[1..], w);
    }
  }

  // ----- the whole table -----

  /** Adds all rules and saves the root. */
  method BuildTable(rules: seq<Rule>, tableLimit: nat) returns (d: Disk, root: nat)
    requires Contiguous(rules)
    ensures d.Valid() && Represents(d, tableLimit, root, rules)
  {
    var wrapper := new OnDiskWrapper(tableLimit);
    var node := EmptyNode;
    for i := 0 to |rules|
      invariant wrapper.disk.Valid() && wrapper.tableLimit == tableLimit
      invariant node.Open? && Holds(wrapper.disk, tableLimit, node, rules[..i])
    {
      assert rules[..i] + [rules[i]] == rules[..i + 1];
      ContiguousPrefix(rules, i + 1);
      ContiguousCanAdd(rules[..i], rules[i]);
      node := wrapper.AddTargetPhrase(node, rules[i].source, rules[i].target, rules[..i]);
      assert Rule(rules[i].source, rules[i].target) == rules[i];
    }
    assert rules[..|rules|] == rules;
    root := wrapper.Save(node, rules);
    d := wrapper.disk;
  }

  lemma ContiguousPrefix(rules: seq<Rule>, n: nat)
    requires Contiguous(rules) && n <= |rules|
    ensures Contiguous(rules[..n])
  {
    forall u, i, k, j | 0 <= i < k < j < n
      ensures Between(rules[..n], u, i, k, j)
    {
      assert Between(rules, u, i, k, j);
    }
  }
}
