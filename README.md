# Drug-mention graph: a verified model

This project models the mention-graph engine of a small drug/publication data
pipeline in Dafny and proves what it computes. The pipeline does three things:

- **`build_mentions_graph`** takes cleaned drug rows and two cleaned publication tables (PubMed and clinical trials).
  It produces one node per drug row. Each node carries the drug's name, its ATC code and the list of publications whose title contains the drug's name as a substring.
- **`get_top_journal`** groups every mention by journal into the set of distinct drug names.
  It reports the journal with the largest set. Ties go to the journal met first.
- **`get_co_mentioned_drugs`** takes the PubMed journals of the first node with a given name.
  It returns the names of every other drug that has a PubMed mention in one of those journals.

Files:

- `text.dfy` (module `Text`): Python's `needle in haystack` on strings. It is a recursive scan, proved equal to the positional definition of a substring.
- `records.dfy` (module `Records`): the input rows (`Drug`, `Publication`), the `Source` of a mention, `Mention` and `DrugNode`.
- `graph_builder.dfy` (module `GraphBuilder`): the builder as a method with an outer loop over the drugs, with the PubMed scan and then the trial scan inside it.
  The method is proved against the specification functions `Matches`, `MatchIndices` and `NodeFor`. Lemmas prove what those functions mean.
- `analysis.dfy` (module `Analysis`): both queries as methods with the source's loops.
  - The journal dictionary is an insertion-ordered key sequence plus a `map` from journal to drug-name set, because Python dictionaries keep insertion order.
  - `max` is a loop that replaces its candidate only on a strictly larger set, as Python's `max` does.
  - `max` of an empty sequence raises in Python. Here it is the error result `Err(NoJournals)`.

Two behaviours of the code are worth stating:

- Every node whose name equals the query is skipped (`src/analysis.py:30-31`), so the queried name is never in the result.
- `get_top_journal` fails inside `max` whenever no node has a mention, even when the graph has nodes. `GetTopJournal` returns `Err(NoJournals)` in exactly that case.

## Model

| member | source | states |
|---|---|---|
| `Text.ContainsIffOccurs` | src/graph_builder.py:14 | the substring test holds iff the name occurs at some position of the title |
| `Text.ContainsTransitive` | src/graph_builder.py:14 | a substring of a substring of a title is a substring of the title |
| `Text.MissingCharNotContained` | src/graph_builder.py:14 | a name with a character the title lacks is not contained in it |
| `Text.ContainedInSuffix` | src/graph_builder.py:14 | what is contained in the end of a title is contained in the title |
| `GraphBuilder.BuildMentionsGraph` | src/graph_builder.py:1-35 | one node per drug row, in input order; node i is the node built for drug row i (its name, its ATC code, its PubMed matches then its trial matches) |
| `GraphBuilder.MatchIndicesExact` | src/graph_builder.py:13-14 | the matched row positions are in bounds and strictly increasing, and a row is matched iff the drug name is a substring of its title |
| `GraphBuilder.MatchesFollowIndices` | src/graph_builder.py:13-20 | one scan yields exactly one mention per matched row, in row order, copying journal, date and title and tagging the scan's source |
| `GraphBuilder.MatchesBound` | src/graph_builder.py:13-20 | a scan yields no more mentions than it has rows |
| `GraphBuilder.EmptyNameMatchesEveryRow` | src/graph_builder.py:13-20 | a drug name that is the empty string gets a mention from every row |
| `GraphBuilder.NodeLayout` | src/graph_builder.py:8-34 | a node copies drug and ATC code from its row; its mentions are the PubMed matches in PubMed row order, followed by the trial matches in trial row order |
| `GraphBuilder.MentionAt` | src/graph_builder.py:13-29 | the j-th mention of a node is the mention of a matching PubMed row if j is below the PubMed match count, otherwise of a matching trial row |
| `GraphBuilder.NodeSources` | src/graph_builder.py:15-16 | a node's mention has source "pubmed" exactly on the leading PubMed part and "clinical_trials" after it |
| `GraphBuilder.NodeMentionBound` | src/graph_builder.py:11-29 | a node has at most as many mentions as there are PubMed rows plus trial rows |
| `GraphBuilder.PubMedMentionedIff` | src/graph_builder.py:13-20 | a PubMed row's mention is in a node iff the drug name is a substring of the row's title |
| `GraphBuilder.TrialMentionedIff` | src/graph_builder.py:22-29 | a clinical-trial row's mention is in a node iff the drug name is a substring of the row's title |
| `GraphBuilder.ShorterNameOverMatches` | src/graph_builder.py:14-23 | a drug whose name is a substring of another drug's name gets every mention the other gets |
| `GraphBuilder.MatchesTwoRows` | src/graph_builder.py:13-20 | a scan over two rows keeps each matching row once, the first row first |
| `GraphBuilder.AspirinInScenarioTitles` | src/graph_builder.py:14 | "aspirin" is in "aspirin helps" and in a title holding it twice |
| `GraphBuilder.IbuprofenNotInFirstTitle` | src/graph_builder.py:14 | "ibuprofen" is not in "aspirin helps" |
| `GraphBuilder.IbuprofenInSecondTitle` | src/graph_builder.py:14 | "ibuprofen" is in a title that starts with it |
| `GraphBuilder.AspirinScenario` | src/graph_builder.py:13-20 | "aspirin" gets exactly one mention per row, including the row whose title names it twice |
| `GraphBuilder.IbuprofenScenario` | src/graph_builder.py:13-20 | "ibuprofen" gets the second row's mention only |
| `Analysis.CollectJournalDrugs` | src/analysis.py:7-13 | the dictionary's keys are the journals in first-seen order, and each key maps to the distinct drug names with a mention in that journal |
| `Analysis.GetTopJournal` | src/analysis.py:1-15 | fails iff no node has a mention; otherwise the journal has a mention, the count is its number of distinct drug names, no journal has more, and every journal tied with it comes at or after it in first-seen order |
| `Analysis.VisitOne` | src/analysis.py:10-13 | visiting one mention appends its journal if the journal is new, and adds the drug name to that journal's set and to no other set |
| `Analysis.JournalsMembership` | src/analysis.py:11-12 | a journal is a key iff some visited mention names it |
| `Analysis.JournalsDistinct` | src/analysis.py:11-12 | each journal is a key once |
| `Analysis.JournalsPrefix` | src/analysis.py:8-12 | the keys after part of the visit lead the keys after the whole visit |
| `Analysis.JournalsFirstSeen` | src/analysis.py:8-12 | a key listed before another was met before every visit of the other |
| `Analysis.PairsMembership` | src/analysis.py:8-10 | the visit meets (name, journal) iff some node with that name has a mention in that journal |
| `Analysis.PairsAppend` | src/analysis.py:8-9 | visiting two graphs one after the other is visiting their concatenation |
| `Analysis.NoJournalsIffNoMentions` | src/analysis.py:8-14 | there is no journal iff no node has a mention |
| `Analysis.JournalOrderMembership` | src/analysis.py:8-12 | a journal is considered iff some mention, of either source, names it |
| `Analysis.DrugsInMembership` | src/analysis.py:8-13 | a name is counted for a journal iff a node with that name has a mention in that journal |
| `Analysis.DrugsInBound` | src/analysis.py:12-13 | each journal's set holds only node names, so a repeated name is counted once and the count is at most the number of distinct names |
| `Analysis.JournalOrderFirstSeen` | src/analysis.py:8-14 | the tie-break order lists journals by their first mention in graph order |
| `Analysis.MentionlessNodeIgnored` | src/analysis.py:8-9 | removing a node without mentions changes neither the journals nor any journal's set |
| `Analysis.GetCoMentionedDrugs` | src/analysis.py:17-35 | the result is the set of names of nodes not named like the query whose PubMed journals meet the PubMed journals of the first node with the query name; the query name is never in it |
| `Analysis.QueryJournalsCases` | src/analysis.py:23-27 | the query's journal set is that of the first node with the name, or empty when no node has the name |
| `Analysis.CoMentionedIff` | src/analysis.py:23-34 | B is in the result for A iff B differs from A and a node named B shares a PubMed journal with the first node named A |
| `Analysis.UnknownNameHasNoCoMentions` | src/analysis.py:23-33 | a name that no node has yields the empty result |
| `Analysis.CoMentionedSeesOnlyPubMed` | src/analysis.py:26-33 | two graphs that agree on names and PubMed journal sets give the same result |
| `Analysis.TrialMentionIgnored` | src/analysis.py:26-33 | adding a clinical-trial mention anywhere changes no result |
| `Analysis.CoMentionedSymmetric` | src/analysis.py:24-34 | with unique node names, B is in the result for A iff A is in the result for B |
| `Analysis.RepeatedNameBreaksSymmetry` | src/analysis.py:24-33 | with a repeated name the relation is not symmetric: in a graph with two "a" nodes, "a" is in the result for "b" while "b" is not in the result for "a" |
| `Analysis.ScenarioTopJournal` | src/analysis.py:7-15 | in the two-drug graph the only journal is "j1", and it counts both drugs |
| `Analysis.ScenarioGraphIsBuilt` | src/graph_builder.py:7-35 | the two-drug graph used below is exactly what the builder makes of the two-row PubMed table and an empty trial table |
| `Analysis.ScenarioTopJournalResult` | src/analysis.py:1-15 | on the two-drug graph the top journal is "j1" with two distinct drugs |
| `Analysis.ScenarioCoMentions` | src/analysis.py:23-34 | "ibuprofen" is co-mentioned with "aspirin" when its mention is a PubMed one, and the result is empty when it is a clinical-trial one |

## Left out

- Reading the CSV and JSON files (`src/data_loader.py`) is I/O. The model takes the rows as sequences.
- Cleaning (`src/data_cleaning.py`) is left out: deduplication, dropping incomplete rows, lowercasing, NFKD accent stripping and date parsing all run through pandas and `unicodedata`. The model takes already-normalized strings. The only trace kept is that a missing drug name normalizes to the empty string, which `EmptyNameMatchesEveryRow` covers.
- Rendering the date with `strftime('%Y-%m-%d')` is left out. A row's date is an opaque, already-formatted string that is copied into the mention.
- Orchestration, writing the graph as JSON and printing (`src/pipeline.py`), the path constants (`src/config.py`) and the JSON-repair test (`tests/test_json_validity.py`) are left out. They are I/O or configuration.
- The order of the list returned by `get_co_mentioned_drugs` is left out. It is the iteration order of a Python set, which is unspecified, so the result is modelled as a set.
- Rows and nodes are dictionaries in the source. Here they are immutable datatypes: no node is changed after it is appended, so nothing depends on aliasing.
- The publication row's `id` is kept in `Publication` and, as in the source, never read.
