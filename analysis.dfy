/**
 * The two queries over a mention graph: the journal that mentions the most
 * distinct drugs (get_top_journal) and the drugs sharing a PubMed journal
 * with a given drug (get_co_mentioned_drugs).
 */
module Analysis {
  import opened Records
  import GraphBuilder

  /** The answer of get_top_journal: {"journal": ..., "unique_drugs": ...}. */
  datatype TopJournal = TopJournal(journal: string, uniqueDrugs: nat)

  /** `max()` of an empty sequence: no mention names any journal. */
  datatype Error = NoJournals

  datatype Result<T> = Ok(value: T) | Err(error: Error)

  // ---------------------------------------------------------------------
  // get_top_journal: the journal -> drug-name-set aggregation
  // ---------------------------------------------------------------------

  /** The (drug name, journal) pairs of one node, in mention order. */
  function NodePairs(node: DrugNode): seq<(string, string)>
  {
    seq(|node.mentions|, k requires 0 <= k < |node.mentions| => (node.drug, node.mentions[k].journal))
  }

  /** Every (drug name, journal) pair the aggregation visits, in visiting order. */
  function Pairs(graph: seq<DrugNode>): seq<(string, string)>
  {
    if |graph| == 0 then [] else Pairs(graph[..|graph| - 1]) + NodePairs(graph[|graph| - 1])
  }

  /** The journals of `visited` in first-seen order: the key order of the
      insertion-ordered journal dictionary after visiting those pairs. */
  function Journals(visited: seq<(string, string)>): seq<string>
  {
    if |visited| == 0 then []
    else
      var seen := Journals(visited[..|visited| - 1]);
      var journal := visited[|visited| - 1].1;
      if journal in seen then seen else seen + [journal]
  }

  /** The set the dictionary holds for `journal` after visiting those pairs. */
  function DrugSet(visited: seq<(string, string)>, journal: string): set<string>
  {
    set p | p in visited && p.1 == journal :: p.0
  }

  /** The journals of a graph, in the order the aggregation first meets them. */
  function JournalOrder(graph: seq<DrugNode>): seq<string>
  {
    Journals(Pairs(graph))
  }

  /** The distinct names of the drugs with a mention in `journal`. */
  function DrugsIn(graph: seq<DrugNode>, journal: string): set<string>
  {
    DrugSet(Pairs(graph), journal)
  }

  /** No node of the graph has a mention. */
  predicate NoMentions(graph: seq<DrugNode>)
  {
    forall i :: 0 <= i < |graph| ==> |graph[i].mentions| == 0
  }

  /** The aggregation loop of get_top_journal: for every mention of every node,
      add the node's drug name to the set of the mention's journal, creating
      an empty set the first time a journal is met. */
  method CollectJournalDrugs(graph: seq<DrugNode>)
    returns (order: seq<string>, journalDrugs: map<string, set<string>>)
    ensures order == JournalOrder(graph)
    ensures forall j :: j in journalDrugs <==> j in order
    ensures forall j :: j in journalDrugs ==> journalDrugs[j] == DrugsIn(graph, j)
  {
    order := [];
    journalDrugs := map[];
    ghost var visited: seq<(string, string)> := [];
    for i := 0 to |graph|
      invariant visited == Pairs(graph[..i])
      invariant order == Journals(visited)
      invariant forall j :: j in journalDrugs <==> j in order
      invariant forall j :: j in journalDrugs ==> journalDrugs[j] == DrugSet(visited, j)
    {
      var drug := graph[i];
      ghost var before := visited;
      assert NodePairs(drug)[..0] == [];
      for k := 0 to |drug.mentions|
        invariant visited == before + NodePairs(drug)[..k]
        invariant order == Journals(visited)
        invariant forall j :: j in journalDrugs <==> j in order
        invariant forall j :: j in journalDrugs ==> journalDrugs[j] == DrugSet(visited, j)
      {
        var journal := drug.mentions[k].journal;
        VisitOne(visited, (drug.drug, journal));
        if journal !in journalDrugs {
          order := order + [journal];
          journalDrugs := journalDrugs[journal := {}];
        }
        journalDrugs := journalDrugs[journal := journalDrugs[journal] + {drug.drug}];
        NodePairsStep(drug, k);
        visited := visited + [(drug.drug, journal)];
      }
      assert NodePairs(drug)[..|drug.mentions|] == NodePairs(drug);
      assert graph[..i + 1][..i] == graph[..i];
    }
    assert graph[..|graph|] == graph;
  }

  /** The journal whose drug set is largest, the first one met among ties;
      fails exactly when there is no journal at all. */
  method GetTopJournal(graph: seq<DrugNode>) returns (r: Result<TopJournal>)
    ensures r.Err? <==> NoMentions(graph)
    ensures r.Ok? ==> r.value.journal in JournalOrder(graph)
    ensures r.Ok? ==> r.value.uniqueDrugs == |DrugsIn(graph, r.value.journal)|
    ensures r.Ok? ==> forall j :: j in JournalOrder(graph) ==> |DrugsIn(graph, j)| <= r.value.uniqueDrugs
    ensures r.Ok? ==>
              forall t :: 0 <= t < |JournalOrder(graph)| ==>
                (|DrugsIn(graph, JournalOrder(graph)[t])| == r.value.uniqueDrugs ==>
                   r.value.journal in JournalOrder(graph)[..t + 1])
  {
    var order, journalDrugs := CollectJournalDrugs(graph);
    NoJournalsIffNoMentions(graph);
    if |order| == 0 {
      return Err(NoJournals);
    }
    // max() keeps the first item whose key is largest
    var best := 0;
    for t := 1 to |order|
      invariant 0 <= best < t
      invariant forall u :: 0 <= u < t ==> |journalDrugs[order[u]]| <= |journalDrugs[order[best]]|
      invariant forall u :: 0 <= u < best ==> |journalDrugs[order[u]]| < |journalDrugs[order[best]]|
    {
      if |journalDrugs[order[t]]| > |journalDrugs[order[best]]| {
        best := t;
      }
    }
    r := Ok(TopJournal(order[best], |journalDrugs[order[best]]|));
    forall t | 0 <= t < |order| && |journalDrugs[order[t]]| == |journalDrugs[order[best]]|
      ensures order[best] in order[..t + 1]
    {
      assert best <= t;
      assert order[..t + 1][best] == order[best];
    }
  }

  /** One more mention of a node visits one more pair. */
  lemma NodePairsStep(node: DrugNode, k: nat)
    requires k < |node.mentions|
    ensures NodePairs(node)[..k + 1] == NodePairs(node)[..k] + [(node.drug, node.mentions[k].journal)]
  {
  }

  /** Visiting one more pair: its journal is appended if new, and its drug is
      added to that journal's set and no other. */
  lemma VisitOne(visited: seq<(string, string)>, p: (string, string))
    ensures Journals(visited + [p]) == if p.1 in Journals(visited) then Journals(visited) else Journals(visited) + [p.1]
    ensures p.1 !in Journals(visited) ==> DrugSet(visited, p.1) == {}
    ensures forall j :: DrugSet(visited + [p], j) == DrugSet(visited, j) + (if p.1 == j then {p.0} else {})
  {
    assert (visited + [p])[..|visited|] == visited;
    JournalsMembership(visited);
    forall j ensures DrugSet(visited + [p], j) == DrugSet(visited, j) + (if p.1 == j then {p.0} else {}) {
      forall d | d in DrugSet(visited + [p], j)
        ensures d in DrugSet(visited, j) + (if p.1 == j then {p.0} else {})
      {
        var q :| q in visited + [p] && q.1 == j && q.0 == d;
      }
    }
  }

  /** A journal is listed iff some visited pair names it. */
  lemma {:induction false} JournalsMembership(visited: seq<(string, string)>)
    ensures forall j :: j in Journals(visited) <==> exists p :: p in visited && p.1 == j
  {
    if |visited| > 0 {
      var init := visited[..|visited| - 1];
      JournalsMembership(init);
      assert visited == init + [visited[|visited| - 1]];
    }
  }

  /** Each journal is listed once. */
  lemma {:induction false} JournalsDistinct(visited: seq<(string, string)>)
    ensures forall a, b :: 0 <= a < b < |Journals(visited)| ==> Journals(visited)[a] != Journals(visited)[b]
  {
    if |visited| > 0 {
      JournalsDistinct(visited[..|visited| - 1]);
    }
  }

  /** The journals met in a prefix of the visit lead the journals of the whole visit. */
  lemma {:induction false} JournalsPrefix(visited: seq<(string, string)>, q: nat)
    requires q <= |visited|
    ensures Journals(visited[..q]) <= Journals(visited)
    decreases |visited|
  {
    if q < |visited| {
      var init := visited[..|visited| - 1];
      JournalsPrefix(init, q);
      assert init[..q] == visited[..q];
    } else {
      assert visited[..q] == visited;
    }
  }

  /** First-seen order: a journal listed before another was met before every
      visit of the other. */
  lemma JournalsFirstSeen(visited: seq<(string, string)>, a: nat, b: nat, q: nat)
    requires a < b < |Journals(visited)|
    requires q < |visited| && visited[q].1 == Journals(visited)[b]
    ensures exists q' :: 0 <= q' < q && visited[q'].1 == Journals(visited)[a]
  {
    var order := Journals(visited);
    var before := Journals(visited[..q]);
    var upTo := Journals(visited[..q + 1]);
    assert visited[..q + 1][..q] == visited[..q];
    assert upTo == if visited[q].1 in before then before else before + [visited[q].1];
    JournalsPrefix(visited, q + 1);
    JournalsDistinct(visited);
    JournalsMembership(visited[..q + 1]);
    assert visited[q] in visited[..q + 1];
    var idx :| 0 <= idx < |upTo| && upTo[idx] == order[b];
    assert idx == b;
    assert order[a] in before by {
      if visited[q].1 !in before {
        assert upTo[a] == before[a];
      }
    }
    JournalsMembership(visited[..q]);
    var p :| p in visited[..q] && p.1 == order[a];
    var q' :| 0 <= q' < q && visited[..q][q'] == p;
    assert visited[q'].1 == order[a];
  }

  /** A pair is visited iff it is (name of node i, journal of its k-th mention). */
  lemma {:induction false} PairsMembership(graph: seq<DrugNode>)
    ensures forall p :: p in Pairs(graph) <==>
              exists i, k :: 0 <= i < |graph| && 0 <= k < |graph[i].mentions| &&
                             p == (graph[i].drug, graph[i].mentions[k].journal)
  {
    if |graph| > 0 {
      var init := graph[..|graph| - 1];
      var last := graph[|graph| - 1];
      PairsMembership(init);
      forall p | p in Pairs(graph)
        ensures exists i, k :: 0 <= i < |graph| && 0 <= k < |graph[i].mentions| &&
                               p == (graph[i].drug, graph[i].mentions[k].journal)
      {
        if p in Pairs(init) {
          var i, k :| 0 <= i < |init| && 0 <= k < |init[i].mentions| &&
                      p == (init[i].drug, init[i].mentions[k].journal);
          assert graph[i] == init[i];
        } else {
          var k :| 0 <= k < |last.mentions| && NodePairs(last)[k] == p;
          assert graph[|graph| - 1] == last;
        }
      }
      forall i, k | 0 <= i < |graph| && 0 <= k < |graph[i].mentions|
        ensures (graph[i].drug, graph[i].mentions[k].journal) in Pairs(graph)
      {
        if i < |graph| - 1 {
          assert graph[i] == init[i];
          assert (init[i].drug, init[i].mentions[k].journal) in Pairs(init);
        } else {
          assert NodePairs(last)[k] == (graph[i].drug, graph[i].mentions[k].journal);
        }
      }
    }
  }

  /** Visiting a concatenation of graphs visits one after the other. */
  lemma {:induction false} PairsAppend(front: seq<DrugNode>, back: seq<DrugNode>)
    ensures Pairs(front + back) == Pairs(front) + Pairs(back)
    decreases |back|
  {
    if |back| == 0 {
      assert front + back == front;
    } else {
      var init, last := back[..|back| - 1], back[|back| - 1];
      var whole := front + back;
      PairsAppend(front, init);
      assert whole[..|whole| - 1] == front + init;
      assert whole[|whole| - 1] == last;
      calc {
        Pairs(whole);
        Pairs(front + init) + NodePairs(last);
        (Pairs(front) + Pairs(init)) + NodePairs(last);
        Pairs(front) + (Pairs(init) + NodePairs(last));
        Pairs(front) + Pairs(back);
      }
    }
  }

  /** There is no journal to choose exactly when no node has a mention. */
  lemma NoJournalsIffNoMentions(graph: seq<DrugNode>)
    ensures JournalOrder(graph) == [] <==> NoMentions(graph)
  {
    PairsMembership(graph);
    JournalsMembership(Pairs(graph));
    if !NoMentions(graph) {
      var i :| 0 <= i < |graph| && |graph[i].mentions| != 0;
      assert (graph[i].drug, graph[i].mentions[0].journal) in Pairs(graph);
    } else if |Pairs(graph)| > 0 {
      assert Pairs(graph)[0] in Pairs(graph);
    }
  }

  /** A journal is in the order iff some mention names it. */
  lemma JournalOrderMembership(graph: seq<DrugNode>, journal: string)
    ensures journal in JournalOrder(graph) <==>
            exists i, k :: 0 <= i < |graph| && 0 <= k < |graph[i].mentions| &&
                           graph[i].mentions[k].journal == journal
  {
    PairsMembership(graph);
    JournalsMembership(Pairs(graph));
    if i, k :| 0 <= i < |graph| && 0 <= k < |graph[i].mentions| && graph[i].mentions[k].journal == journal {
      assert (graph[i].drug, journal) in Pairs(graph);
    }
  }

  /** A drug name is counted for a journal iff some node with that name has a
      mention (of either source) in that journal. */
  lemma DrugsInMembership(graph: seq<DrugNode>, journal: string, name: string)
    ensures name in DrugsIn(graph, journal) <==>
            exists i, k :: 0 <= i < |graph| && 0 <= k < |graph[i].mentions| &&
                           graph[i].drug == name && graph[i].mentions[k].journal == journal
  {
    PairsMembership(graph);
    if i, k :| 0 <= i < |graph| && 0 <= k < |graph[i].mentions| &&
               graph[i].drug == name && graph[i].mentions[k].journal == journal {
      assert (name, journal) in Pairs(graph);
    }
  }

  /** Names, not nodes, are counted: a journal's count never exceeds the
      number of distinct drug names in the graph. */
  lemma DrugsInBound(graph: seq<DrugNode>, journal: string)
    ensures DrugsIn(graph, journal) <= set i | 0 <= i < |graph| :: graph[i].drug
    ensures |DrugsIn(graph, journal)| <= |set i | 0 <= i < |graph| :: graph[i].drug|
  {
    forall name | name in DrugsIn(graph, journal)
      ensures name in set i | 0 <= i < |graph| :: graph[i].drug
    {
      DrugsInMembership(graph, journal, name);
    }
    SubsetCardinality(DrugsIn(graph, journal), set i | 0 <= i < |graph| :: graph[i].drug);
  }

  lemma SubsetCardinality<T>(small: set<T>, big: set<T>)
    requires small <= big
    ensures |small| <= |big|
  {
    assert big == small + (big - small);
  }

  /** The journal order lists each journal once, in the order of its first mention. */
  lemma JournalOrderFirstSeen(graph: seq<DrugNode>, a: nat, b: nat, q: nat)
    requires a < b < |JournalOrder(graph)|
    requires q < |Pairs(graph)| && Pairs(graph)[q].1 == JournalOrder(graph)[b]
    ensures JournalOrder(graph)[a] != JournalOrder(graph)[b]
    ensures exists q' :: 0 <= q' < q && Pairs(graph)[q'].1 == JournalOrder(graph)[a]
  {
    JournalsDistinct(Pairs(graph));
    JournalsFirstSeen(Pairs(graph), a, b, q);
  }

  /** A node without mentions contributes nothing: removing it changes
      neither the journals nor any journal's drug set. */
  lemma MentionlessNodeIgnored(graph: seq<DrugNode>, i: nat, journal: string)
    requires i < |graph| && graph[i].mentions == []
    ensures JournalOrder(graph[..i] + graph[i + 1..]) == JournalOrder(graph)
    ensures DrugsIn(graph[..i] + graph[i + 1..], journal) == DrugsIn(graph, journal)
  {
    var front, back := graph[..i], graph[i + 1..];
    assert graph == (front + [graph[i]]) + back;
    PairsAppend(front + [graph[i]], back);
    PairsAppend(front, [graph[i]]);
    PairsAppend(front, back);
    assert Pairs([graph[i]]) == Pairs([]) + NodePairs(graph[i]);
    assert Pairs(graph) == Pairs(front + back);
  }

  // ---------------------------------------------------------------------
  // get_co_mentioned_drugs: overlap of PubMed journal sets
  // ---------------------------------------------------------------------

  /** The journals in which a node has at least one PubMed mention. */
  function PubMedJournals(node: DrugNode): set<string>
  {
    set m | m in node.mentions && m.source == PubMed :: m.journal
  }

  /** The PubMed journals of the first node named `name`; none when no node is. */
  function QueryJournals(graph: seq<DrugNode>, name: string): set<string>
  {
    if |graph| == 0 then {}
    else if graph[0].drug == name then PubMedJournals(graph[0])
    else QueryJournals(graph[1..], name)
  }

  /** Node `f` is the first node named `name`. */
  predicate FirstNamed(graph: seq<DrugNode>, name: string, f: int)
  {
    0 <= f < |graph| && graph[f].drug == name && forall t :: 0 <= t < f ==> graph[t].drug != name
  }

  /** Names of the other nodes whose PubMed journals meet the query's. */
  function CoMentioned(graph: seq<DrugNode>, name: string): set<string>
  {
    set i | 0 <= i < |graph| && graph[i].drug != name &&
            PubMedJournals(graph[i]) * QueryJournals(graph, name) != {} :: graph[i].drug
  }

  /** The drugs sharing a PubMed journal with `drugName`; every node named
      `drugName` is skipped, not only the first. */
  method GetCoMentionedDrugs(graph: seq<DrugNode>, drugName: string) returns (coDrugs: set<string>)
    ensures coDrugs == CoMentioned(graph, drugName)
    ensures drugName !in coDrugs
  {
    var pubmedJournals: set<string> := {};
    for i := 0 to |graph|
      invariant QueryJournals(graph[i..], drugName) == QueryJournals(graph, drugName)
      invariant pubmedJournals == {}
    {
      if graph[i].drug == drugName {
        pubmedJournals := PubMedJournals(graph[i]);
        break;
      }
      assert graph[i..][1..] == graph[i + 1..];
    }
    assert pubmedJournals == QueryJournals(graph, drugName);
    coDrugs := {};
    for i := 0 to |graph|
      invariant forall b :: b in coDrugs <==>
                  exists t :: 0 <= t < i && graph[t].drug == b && b != drugName &&
                              PubMedJournals(graph[t]) * pubmedJournals != {}
    {
      if graph[i].drug == drugName {
        continue;
      }
      var journals := PubMedJournals(graph[i]);
      if journals * pubmedJournals != {} {
        coDrugs := coDrugs + {graph[i].drug};
      }
    }
  }

  /** The query's journal set is that of the first node with the name, or
      empty when no node has it. */
  lemma {:induction false} QueryJournalsCases(graph: seq<DrugNode>, name: string)
    ensures forall f :: FirstNamed(graph, name, f) ==> QueryJournals(graph, name) == PubMedJournals(graph[f])
    ensures (forall t :: 0 <= t < |graph| ==> graph[t].drug != name) ==> QueryJournals(graph, name) == {}
    ensures QueryJournals(graph, name) != {} ==> exists f :: FirstNamed(graph, name, f)
  {
    if |graph| > 0 && graph[0].drug != name {
      var tail := graph[1..];
      QueryJournalsCases(tail, name);
      forall f | FirstNamed(graph, name, f)
        ensures QueryJournals(graph, name) == PubMedJournals(graph[f])
      {
        assert FirstNamed(tail, name, f - 1);
      }
      if QueryJournals(graph, name) != {} {
        var f :| FirstNamed(tail, name, f);
        assert FirstNamed(graph, name, f + 1);
      }
    } else if |graph| > 0 {
      assert FirstNamed(graph, name, 0);
      forall f | FirstNamed(graph, name, f) ensures f == 0 { }
    }
  }

  /** B is co-mentioned with A iff B is not A and some node named B has a
      PubMed journal that is also a PubMed journal of the first node named A. */
  lemma CoMentionedIff(graph: seq<DrugNode>, a: string, b: string)
    ensures b in CoMentioned(graph, a) <==>
            b != a && exists f, i :: FirstNamed(graph, a, f) && 0 <= i < |graph| && graph[i].drug == b &&
                                     PubMedJournals(graph[i]) * PubMedJournals(graph[f]) != {}
  {
    QueryJournalsCases(graph, a);
    if b in CoMentioned(graph, a) {
      var i :| 0 <= i < |graph| && graph[i].drug == b && b != a &&
               PubMedJournals(graph[i]) * QueryJournals(graph, a) != {};
      var f :| FirstNamed(graph, a, f);
      assert PubMedJournals(graph[i]) * PubMedJournals(graph[f]) != {};
    }
  }

  /** A lookup miss: a name no node has is co-mentioned with nothing. */
  lemma UnknownNameHasNoCoMentions(graph: seq<DrugNode>, name: string)
    requires forall t :: 0 <= t < |graph| ==> graph[t].drug != name
    ensures CoMentioned(graph, name) == {}
  {
    QueryJournalsCases(graph, name);
  }

  /** Only names and PubMed journal sets matter: two graphs that agree on
      them, node by node, give the same co-mentions. */
  lemma {:induction false} CoMentionedSeesOnlyPubMed(g: seq<DrugNode>, h: seq<DrugNode>, name: string)
    requires |g| == |h|
    requires forall i :: 0 <= i < |g| ==> g[i].drug == h[i].drug && PubMedJournals(g[i]) == PubMedJournals(h[i])
    ensures QueryJournals(g, name) == QueryJournals(h, name)
    ensures CoMentioned(g, name) == CoMentioned(h, name)
    decreases |g|
  {
    if |g| > 0 {
      CoMentionedSeesOnlyPubMed(g[1..], h[1..], name);
    }
  }

  /** A clinical-trial mention, wherever it is added, changes no co-mention result. */
  lemma TrialMentionIgnored(graph: seq<DrugNode>, i: nat, k: nat, m: Mention, name: string)
    requires i < |graph| && k <= |graph[i].mentions| && m.source == ClinicalTrials
    ensures CoMentioned(graph[i := graph[i].(mentions := graph[i].mentions[..k] + [m] + graph[i].mentions[k..])], name)
            == CoMentioned(graph, name)
  {
    var node := graph[i];
    var node' := node.(mentions := node.mentions[..k] + [m] + node.mentions[k..]);
    assert node.mentions == node.mentions[..k] + node.mentions[k..];
    assert PubMedJournals(node') == PubMedJournals(node);
    CoMentionedSeesOnlyPubMed(graph[i := node'], graph, name);
  }

  /** Every node name occurs once. */
  predicate UniqueNames(graph: seq<DrugNode>)
  {
    forall i, j :: 0 <= i < j < |graph| ==> graph[i].drug != graph[j].drug
  }

  /** With unique names the co-mention relation is symmetric. */
  lemma CoMentionedSymmetric(graph: seq<DrugNode>, a: string, b: string)
    requires UniqueNames(graph)
    ensures b in CoMentioned(graph, a) <==> a in CoMentioned(graph, b)
  {
    forall x, y | y in CoMentioned(graph, x)
      ensures x in CoMentioned(graph, y)
    {
      CoMentionedIff(graph, x, y);
      var f, i :| FirstNamed(graph, x, f) && 0 <= i < |graph| && graph[i].drug == y &&
                  PubMedJournals(graph[i]) * PubMedJournals(graph[f]) != {};
      assert FirstNamed(graph, y, i);
      assert PubMedJournals(graph[f]) * PubMedJournals(graph[i]) != {};
      CoMentionedIff(graph, y, x);
    }
  }

  /** With a repeated name the relation is not symmetric: "b" shares a journal
      with the second "a" node, which the query for "a" never looks at. */
  lemma RepeatedNameBreaksSymmetry()
    ensures var pm1 := Mention(PubMed, "j1", "2020-01-01", "a");
            var pm2 := Mention(PubMed, "j2", "2020-01-01", "a b");
            var graph := [DrugNode("a", "x1", [pm1]), DrugNode("a", "x2", [pm2]), DrugNode("b", "y", [pm2])];
            "b" !in CoMentioned(graph, "a") && "a" in CoMentioned(graph, "b")
  {
    var pm1 := Mention(PubMed, "j1", "2020-01-01", "a");
    var pm2 := Mention(PubMed, "j2", "2020-01-01", "a b");
    var graph := [DrugNode("a", "x1", [pm1]), DrugNode("a", "x2", [pm2]), DrugNode("b", "y", [pm2])];
    assert PubMedJournals(graph[0]) == {"j1"};
    assert PubMedJournals(graph[1]) == {"j2"};
    assert PubMedJournals(graph[2]) == {"j2"};
    assert QueryJournals(graph, "a") == {"j1"};
    assert QueryJournals(graph, "b") == {"j2"} by {
      assert graph[1..][1..] == [graph[2]];
      assert QueryJournals([graph[2]], "b") == {"j2"};
      assert QueryJournals(graph[1..], "b") == QueryJournals([graph[2]], "b");
    }
    assert "j2" in PubMedJournals(graph[1]) * QueryJournals(graph, "b");
  }

  /** The two-drug graph: "aspirin" has two PubMed mentions in "j1",
      "ibuprofen" one; with `source` for ibuprofen's mention. */
  function ScenarioGraph(source: Source): seq<DrugNode>
  {
    var first := Mention(PubMed, "j1", "2020-01-01", "aspirin helps");
    var second := Mention(PubMed, "j1", "2020-02-01", "ibuprofen and " + "aspirin or aspirin");
    [DrugNode("aspirin", "a1", [first, second]),
     DrugNode("ibuprofen", "a2", [second.(source := source)])]
  }

  /** In the two-drug graph "j1" is mentioned by both drugs, and is the only journal. */
  lemma ScenarioTopJournal()
    ensures JournalOrder(ScenarioGraph(PubMed)) == ["j1"]
    ensures DrugsIn(ScenarioGraph(PubMed), "j1") == {"aspirin", "ibuprofen"}
  {
    var graph := ScenarioGraph(PubMed);
    var visited := [("aspirin", "j1"), ("aspirin", "j1"), ("ibuprofen", "j1")];
    assert NodePairs(graph[0]) == visited[..2];
    assert NodePairs(graph[1]) == visited[2..];
    assert graph[..1] == [graph[0]];
    assert Pairs([graph[0]]) == Pairs([]) + NodePairs(graph[0]);
    assert Pairs(graph) == visited;
    assert visited[..2][..1] == [("aspirin", "j1")];
    assert Journals(visited[..1]) == ["j1"];
    assert Journals(visited[..2]) == ["j1"];
    assert visited[..3] == visited;
    assert DrugSet(visited, "j1") == {"aspirin", "ibuprofen"};
  }

  /** "ibuprofen" is co-mentioned with "aspirin" through "j1" when its mention
      is a PubMed one, and not when it is a clinical-trial one. */
  lemma ScenarioCoMentions()
    ensures CoMentioned(ScenarioGraph(PubMed), "aspirin") == {"ibuprofen"}
    ensures CoMentioned(ScenarioGraph(ClinicalTrials), "aspirin") == {}
  {
    var pm := ScenarioGraph(PubMed);
    var ct := ScenarioGraph(ClinicalTrials);
    assert PubMedJournals(pm[0]) == {"j1"};
    assert PubMedJournals(pm[1]) == {"j1"};
    assert PubMedJournals(ct[1]) == {};
    assert QueryJournals(pm, "aspirin") == {"j1"};
    assert QueryJournals(ct, "aspirin") == {"j1"};
    assert "j1" in PubMedJournals(pm[1]) * QueryJournals(pm, "aspirin");
  }

  /** The two-drug graph is what the builder makes of the two-row PubMed
      table of its own scenario and an empty trial table. */
  lemma ScenarioGraphIsBuilt()
    ensures var rows := [Publication("1", "aspirin helps", "j1", "2020-01-01"),
                         Publication("2", "ibuprofen and " + "aspirin or aspirin", "j1", "2020-02-01")];
            [GraphBuilder.NodeFor(Drug("aspirin", "a1"), rows, []),
             GraphBuilder.NodeFor(Drug("ibuprofen", "a2"), rows, [])] == ScenarioGraph(PubMed)
  {
    GraphBuilder.AspirinScenario();
    GraphBuilder.IbuprofenScenario();
  }

  /** get_top_journal on the two-drug graph: "j1", with two distinct drugs. */
  method ScenarioTopJournalResult() returns (r: Result<TopJournal>)
    ensures r == Ok(TopJournal("j1", 2))
  {
    var graph := ScenarioGraph(PubMed);
    r := GetTopJournal(graph);
    ScenarioTopJournal();
    assert !NoMentions(graph) by {
      assert |graph[0].mentions| != 0;
    }
    assert r.value.journal == "j1";
    assert |{"aspirin", "ibuprofen"}| == 2;
  }
}
