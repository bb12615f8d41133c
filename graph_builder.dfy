/**
 * build_mentions_graph: for every drug row, in order, scan every PubMed row
 * and then every clinical-trial row, appending one mention per row whose
 * title contains the drug's name.
 */
module GraphBuilder {
  import opened Text
  import opened Records

  /** The mention a matched row produces: journal, date and title copied verbatim. */
  function MentionOf(row: Publication, source: Source): Mention
  {
    Mention(source, row.journal, row.date, row.title)
  }

  /** The positions, in increasing order, of the rows whose title contains `name`. */
  function MatchIndices(name: string, rows: seq<Publication>): seq<nat>
  {
    if |rows| == 0 then []
    else
      MatchIndices(name, rows[..|rows| - 1]) +
      (if Contains(name, rows[|rows| - 1].title) then [|rows| - 1] else [])
  }

  /** The mentions one scan over `rows` appends for a drug named `name`. */
  function Matches(name: string, rows: seq<Publication>, source: Source): seq<Mention>
  {
    if |rows| == 0 then []
    else
      Matches(name, rows[..|rows| - 1], source) +
      (if Contains(name, rows[|rows| - 1].title) then [MentionOf(rows[|rows| - 1], source)] else [])
  }

  /** The node built for one drug row: PubMed matches, then clinical-trial matches. */
  function NodeFor(drug: Drug, pubmed: seq<Publication>, clinicalTrials: seq<Publication>): DrugNode
  {
    DrugNode(drug.name, drug.atc,
             Matches(drug.name, pubmed, PubMed) + Matches(drug.name, clinicalTrials, ClinicalTrials))
  }

  /** One node per drug row, in input order, each with its drug, ATC code and mentions. */
  method BuildMentionsGraph(drugs: seq<Drug>, pubmed: seq<Publication>, clinicalTrials: seq<Publication>)
    returns (graph: seq<DrugNode>)
    ensures |graph| == |drugs|
    ensures forall i :: 0 <= i < |drugs| ==> graph[i] == NodeFor(drugs[i], pubmed, clinicalTrials)
  {
    graph := [];
    for d := 0 to |drugs|
      invariant |graph| == d
      invariant forall i :: 0 <= i < d ==> graph[i] == NodeFor(drugs[i], pubmed, clinicalTrials)
    {
      var drugName := drugs[d].name;
      var atccode := drugs[d].atc;
      var mentions: seq<Mention> := [];
      // PubMed
      for k := 0 to |pubmed|
        invariant mentions == Matches(drugName, pubmed[..k], PubMed)
      {
        var row := pubmed[k];
        assert pubmed[..k + 1][..k] == pubmed[..k];
        if Contains(drugName, row.title) {
          mentions := mentions + [Mention(PubMed, row.journal, row.date, row.title)];
        }
      }
      assert pubmed[..|pubmed|] == pubmed;
      // Clinical trials
      for k := 0 to |clinicalTrials|
        invariant mentions == Matches(drugName, pubmed, PubMed)
                              + Matches(drugName, clinicalTrials[..k], ClinicalTrials)
      {
        var row := clinicalTrials[k];
        assert clinicalTrials[..k + 1][..k] == clinicalTrials[..k];
        if Contains(drugName, row.title) {
          mentions := mentions + [Mention(ClinicalTrials, row.journal, row.date, row.title)];
        }
      }
      assert clinicalTrials[..|clinicalTrials|] == clinicalTrials;
      graph := graph + [DrugNode(drugs[d].name, atccode, mentions)];
    }
  }

  /** The match positions are in bounds, strictly increasing, and are exactly
      the rows whose title contains the name. */
  lemma {:induction false} MatchIndicesExact(name: string, rows: seq<Publication>)
    ensures forall j :: 0 <= j < |MatchIndices(name, rows)| ==> MatchIndices(name, rows)[j] < |rows|
    ensures forall j, j' :: 0 <= j < j' < |MatchIndices(name, rows)| ==>
              MatchIndices(name, rows)[j] < MatchIndices(name, rows)[j']
    ensures forall k :: 0 <= k < |rows| ==> (k in MatchIndices(name, rows) <==> Contains(name, rows[k].title))
  {
    if |rows| > 0 {
      var init := rows[..|rows| - 1];
      MatchIndicesExact(name, init);
      forall k | 0 <= k < |init| ensures rows[k] == init[k] { }
    }
  }

  /** The j-th mention of a scan comes from the j-th matching row. */
  lemma {:induction false} MatchesFollowIndices(name: string, rows: seq<Publication>, source: Source)
    ensures |Matches(name, rows, source)| == |MatchIndices(name, rows)|
    ensures forall j :: 0 <= j < |Matches(name, rows, source)| ==>
              MatchIndices(name, rows)[j] < |rows| &&
              Matches(name, rows, source)[j] == MentionOf(rows[MatchIndices(name, rows)[j]], source)
  {
    if |rows| > 0 {
      var init := rows[..|rows| - 1];
      MatchesFollowIndices(name, init, source);
      MatchIndicesExact(name, init);
      forall k | 0 <= k < |init| ensures rows[k] == init[k] { }
    }
  }

  /** A scan appends at most one mention per row. */
  lemma {:induction false} MatchesBound(name: string, rows: seq<Publication>, source: Source)
    ensures |Matches(name, rows, source)| <= |rows|
  {
    if |rows| > 0 {
      MatchesBound(name, rows[..|rows| - 1], source);
    }
  }

  /** A drug whose name normalized to "" is mentioned by every row. */
  lemma {:induction false} EmptyNameMatchesEveryRow(rows: seq<Publication>, source: Source)
    ensures Matches("", rows, source) == seq(|rows|, k requires 0 <= k < |rows| => MentionOf(rows[k], source))
  {
    if |rows| > 0 {
      var init := rows[..|rows| - 1];
      EmptyNameMatchesEveryRow(init, source);
      assert Contains("", rows[|rows| - 1].title);
    }
  }

  /** Layout of a node: its drug and ATC code come from the drug row; its
      mentions are the PubMed matches in PubMed row order, then the
      clinical-trial matches in trial row order, one per matching row. */
  lemma NodeLayout(drug: Drug, pubmed: seq<Publication>, clinicalTrials: seq<Publication>)
    ensures NodeFor(drug, pubmed, clinicalTrials).drug == drug.name
    ensures NodeFor(drug, pubmed, clinicalTrials).atccode == drug.atc
    ensures |NodeFor(drug, pubmed, clinicalTrials).mentions|
            == |MatchIndices(drug.name, pubmed)| + |MatchIndices(drug.name, clinicalTrials)|
    ensures forall j :: 0 <= j < |MatchIndices(drug.name, pubmed)| ==>
              MatchIndices(drug.name, pubmed)[j] < |pubmed| &&
              NodeFor(drug, pubmed, clinicalTrials).mentions[j]
              == MentionOf(pubmed[MatchIndices(drug.name, pubmed)[j]], PubMed)
    ensures forall j :: 0 <= j < |MatchIndices(drug.name, clinicalTrials)| ==>
              MatchIndices(drug.name, clinicalTrials)[j] < |clinicalTrials| &&
              NodeFor(drug, pubmed, clinicalTrials).mentions[|MatchIndices(drug.name, pubmed)| + j]
              == MentionOf(clinicalTrials[MatchIndices(drug.name, clinicalTrials)[j]], ClinicalTrials)
  {
    MatchesFollowIndices(drug.name, pubmed, PubMed);
    MatchesFollowIndices(drug.name, clinicalTrials, ClinicalTrials);
  }

  /** Where the j-th mention of a node comes from. */
  lemma MentionAt(drug: Drug, pubmed: seq<Publication>, clinicalTrials: seq<Publication>, j: int)
    requires 0 <= j < |NodeFor(drug, pubmed, clinicalTrials).mentions|
    ensures j < |MatchIndices(drug.name, pubmed)| ==>
              MatchIndices(drug.name, pubmed)[j] < |pubmed| &&
              Contains(drug.name, pubmed[MatchIndices(drug.name, pubmed)[j]].title) &&
              NodeFor(drug, pubmed, clinicalTrials).mentions[j]
              == MentionOf(pubmed[MatchIndices(drug.name, pubmed)[j]], PubMed)
    ensures j >= |MatchIndices(drug.name, pubmed)| ==>
              j - |MatchIndices(drug.name, pubmed)| < |MatchIndices(drug.name, clinicalTrials)| &&
              MatchIndices(drug.name, clinicalTrials)[j - |MatchIndices(drug.name, pubmed)|] < |clinicalTrials| &&
              Contains(drug.name, clinicalTrials[MatchIndices(drug.name, clinicalTrials)[j - |MatchIndices(drug.name, pubmed)|]].title) &&
              NodeFor(drug, pubmed, clinicalTrials).mentions[j]
              == MentionOf(clinicalTrials[MatchIndices(drug.name, clinicalTrials)[j - |MatchIndices(drug.name, pubmed)|]],
                           ClinicalTrials)
  {
    var p := MatchIndices(drug.name, pubmed);
    var c := MatchIndices(drug.name, clinicalTrials);
    NodeLayout(drug, pubmed, clinicalTrials);
    MatchIndicesExact(drug.name, pubmed);
    MatchIndicesExact(drug.name, clinicalTrials);
    if j < |p| {
      assert p[j] in p;
    } else {
      assert NodeFor(drug, pubmed, clinicalTrials).mentions[|p| + (j - |p|)]
             == MentionOf(clinicalTrials[c[j - |p|]], ClinicalTrials);
      assert c[j - |p|] in c;
    }
  }

  /** The sources of a node's mentions: "pubmed" exactly on the leading PubMed part. */
  lemma NodeSources(drug: Drug, pubmed: seq<Publication>, clinicalTrials: seq<Publication>)
    ensures forall j :: 0 <= j < |NodeFor(drug, pubmed, clinicalTrials).mentions| ==>
              (NodeFor(drug, pubmed, clinicalTrials).mentions[j].source == PubMed
               <==> j < |MatchIndices(drug.name, pubmed)|)
  {
    var node := NodeFor(drug, pubmed, clinicalTrials);
    forall j | 0 <= j < |node.mentions|
      ensures node.mentions[j].source == PubMed <==> j < |MatchIndices(drug.name, pubmed)|
    {
      MentionAt(drug, pubmed, clinicalTrials, j);
    }
  }

  /** A node never has more mentions than there are publication rows. */
  lemma NodeMentionBound(drug: Drug, pubmed: seq<Publication>, clinicalTrials: seq<Publication>)
    ensures |NodeFor(drug, pubmed, clinicalTrials).mentions| <= |pubmed| + |clinicalTrials|
  {
    MatchesBound(drug.name, pubmed, PubMed);
    MatchesBound(drug.name, clinicalTrials, ClinicalTrials);
  }

  /** A PubMed row gives the drug's node a mention iff the drug's name is a
      substring of the row's title. */
  lemma PubMedMentionedIff(drug: Drug, pubmed: seq<Publication>, clinicalTrials: seq<Publication>, k: int)
    requires 0 <= k < |pubmed|
    ensures MentionOf(pubmed[k], PubMed) in NodeFor(drug, pubmed, clinicalTrials).mentions
            <==> Contains(drug.name, pubmed[k].title)
  {
    var node := NodeFor(drug, pubmed, clinicalTrials);
    var p := MatchIndices(drug.name, pubmed);
    MatchIndicesExact(drug.name, pubmed);
    if Contains(drug.name, pubmed[k].title) {
      var j :| 0 <= j < |p| && p[j] == k;
      NodeLayout(drug, pubmed, clinicalTrials);
      assert node.mentions[j] == MentionOf(pubmed[k], PubMed);
    }
    if MentionOf(pubmed[k], PubMed) in node.mentions {
      var j :| 0 <= j < |node.mentions| && node.mentions[j] == MentionOf(pubmed[k], PubMed);
      MentionAt(drug, pubmed, clinicalTrials, j);
    }
  }

  /** A clinical-trial row gives the drug's node a mention iff the drug's name
      is a substring of the row's title. */
  lemma TrialMentionedIff(drug: Drug, pubmed: seq<Publication>, clinicalTrials: seq<Publication>, k: int)
    requires 0 <= k < |clinicalTrials|
    ensures MentionOf(clinicalTrials[k], ClinicalTrials) in NodeFor(drug, pubmed, clinicalTrials).mentions
            <==> Contains(drug.name, clinicalTrials[k].title)
  {
    var node := NodeFor(drug, pubmed, clinicalTrials);
    var p := MatchIndices(drug.name, pubmed);
    var c := MatchIndices(drug.name, clinicalTrials);
    MatchIndicesExact(drug.name, clinicalTrials);
    if Contains(drug.name, clinicalTrials[k].title) {
      var j :| 0 <= j < |c| && c[j] == k;
      NodeLayout(drug, pubmed, clinicalTrials);
      assert node.mentions[|p| + j] == MentionOf(clinicalTrials[k], ClinicalTrials);
    }
    if MentionOf(clinicalTrials[k], ClinicalTrials) in node.mentions {
      var j :| 0 <= j < |node.mentions| && node.mentions[j] == MentionOf(clinicalTrials[k], ClinicalTrials);
      MentionAt(drug, pubmed, clinicalTrials, j);
    }
  }

  /** Substring over-matching: a drug whose name is a substring of another
      drug's name is mentioned by every publication that mentions the other. */
  lemma ShorterNameOverMatches(short: Drug, long: Drug, pubmed: seq<Publication>, clinicalTrials: seq<Publication>)
    requires Contains(short.name, long.name)
    ensures forall m :: m in NodeFor(long, pubmed, clinicalTrials).mentions ==>
              m in NodeFor(short, pubmed, clinicalTrials).mentions
  {
    var longNode := NodeFor(long, pubmed, clinicalTrials);
    var p := MatchIndices(long.name, pubmed);
    var c := MatchIndices(long.name, clinicalTrials);
    forall m | m in longNode.mentions
      ensures m in NodeFor(short, pubmed, clinicalTrials).mentions
    {
      var j :| 0 <= j < |longNode.mentions| && longNode.mentions[j] == m;
      MentionAt(long, pubmed, clinicalTrials, j);
      if j < |p| {
        ContainsTransitive(short.name, long.name, pubmed[p[j]].title);
        PubMedMentionedIff(short, pubmed, clinicalTrials, p[j]);
      } else {
        ContainsTransitive(short.name, long.name, clinicalTrials[c[j - |p|]].title);
        TrialMentionedIff(short, pubmed, clinicalTrials, c[j - |p|]);
      }
    }
  }

  /** A scan over two rows keeps each matching row once, first row first. */
  lemma MatchesTwoRows(name: string, first: Publication, second: Publication, source: Source)
    ensures Matches(name, [first, second], source)
            == (if Contains(name, first.title) then [MentionOf(first, source)] else [])
               + (if Contains(name, second.title) then [MentionOf(second, source)] else [])
  {
    assert [first, second][..1] == [first];
    assert [first][..0] == [];
    assert Matches(name, [first], source)
           == (if Contains(name, first.title) then [MentionOf(first, source)] else []);
  }

  /** "aspirin" is in both titles of the scenario below, the second one twice. */
  lemma AspirinInScenarioTitles()
    ensures Contains("aspirin", "aspirin helps")
    ensures Contains("aspirin", "ibuprofen and " + "aspirin or aspirin")
  {
    assert Contains("aspirin", "aspirin or aspirin");
    ContainedInSuffix("aspirin", "ibuprofen and ", "aspirin or aspirin");
  }

  /** "ibuprofen" is not in the first title of the scenario below. */
  lemma IbuprofenNotInFirstTitle()
    ensures !Contains("ibuprofen", "aspirin helps")
  {
    assert 'b' in "ibuprofen";
    MissingCharNotContained("ibuprofen", "aspirin helps", 'b');
  }

  /** "ibuprofen" opens the second title of the scenario below. */
  lemma IbuprofenInSecondTitle()
    ensures Contains("ibuprofen", "ibuprofen and " + "aspirin or aspirin")
  {
    assert "ibuprofen" <= "ibuprofen and " + "aspirin or aspirin";
  }

  /** Two PubMed rows that both mention "aspirin", the second twice in its
      title: one mention per row, in row order. */
  lemma AspirinScenario()
    ensures var first := Publication("1", "aspirin helps", "j1", "2020-01-01");
            var second := Publication("2", "ibuprofen and " + "aspirin or aspirin", "j1", "2020-02-01");
            NodeFor(Drug("aspirin", "a1"), [first, second], []).mentions
            == [MentionOf(first, PubMed), MentionOf(second, PubMed)]
  {
    var first := Publication("1", "aspirin helps", "j1", "2020-01-01");
    var second := Publication("2", "ibuprofen and " + "aspirin or aspirin", "j1", "2020-02-01");
    AspirinInScenarioTitles();
    MatchesTwoRows("aspirin", first, second, PubMed);
  }

  /** The same rows give "ibuprofen" the second row only. */
  lemma IbuprofenScenario()
    ensures var first := Publication("1", "aspirin helps", "j1", "2020-01-01");
            var second := Publication("2", "ibuprofen and " + "aspirin or aspirin", "j1", "2020-02-01");
            NodeFor(Drug("ibuprofen", "a2"), [first, second], []).mentions == [MentionOf(second, PubMed)]
  {
    var first := Publication("1", "aspirin helps", "j1", "2020-01-01");
    var second := Publication("2", "ibuprofen and " + "aspirin or aspirin", "j1", "2020-02-01");
    IbuprofenNotInFirstTitle();
    IbuprofenInSecondTitle();
    MatchesTwoRows("ibuprofen", first, second, PubMed);
  }
}
