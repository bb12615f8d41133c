/**
 * The records the mention-graph engine consumes and produces: cleaned drug
 * and publication rows in, drug nodes with their mentions out.
 */
module Records {

  /** A cleaned row of the drug table; `name` is already normalized. */
  datatype Drug = Drug(name: string, atc: string)

  /** A cleaned row of the PubMed or clinical-trial table. `date` is the
      calendar date already rendered as "YYYY-MM-DD". */
  datatype Publication = Publication(id: string, title: string, journal: string, date: string)

  /** The table a mention was found in: "pubmed" or "clinical_trials". */
  datatype Source = PubMed | ClinicalTrials

  /** One publication whose title contains a drug's name. */
  datatype Mention = Mention(source: Source, journal: string, date: string, title: string)

  /** One node of the graph: a drug row and the mentions found for it. */
  datatype DrugNode = DrugNode(drug: string, atccode: string, mentions: seq<Mention>)
}
