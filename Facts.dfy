/**
  The company-facts payload and the tag extractor. A fact record carries the
  accession number of the filing, the period end, the value, the filing form
  and the optional standardized calendar frame.
 */
module Facts {
  import opened Wrappers

  datatype Fact = Fact(accn: string, end: string, val: real, form: string, frame: Option<string>)

  /** unit name -> fact list (`"USD"` -> [...]) */
  type Units = map<string, seq<Fact>>
  /** field of one concept entry (`"units"` -> ...) */
  type ConceptEntry = map<string, Units>
  /** concept name -> entry (`"Revenues"` -> ...) */
  type Taxonomy = map<string, ConceptEntry>
  /** taxonomy name -> concepts (`"us-gaap"` -> ...) */
  type FactSection = map<string, Taxonomy>
  /** the decoded document (`"facts"` -> ...) */
  type Payload = map<string, FactSection>

  /** The key-path `facts -> us-gaap -> tag -> units -> USD` exists. */
  predicate HasUsdFacts(p: Payload, tag: string)
  {
    "facts" in p && "us-gaap" in p["facts"] && tag in p["facts"]["us-gaap"]
    && "units" in p["facts"]["us-gaap"][tag] && "USD" in p["facts"]["us-gaap"][tag]["units"]
  }

  /**
    The nested lookup as a sum type: `None` where indexing would raise `KeyError`.
   */
  function LookupUsdFacts(p: Payload, tag: string): (r: Option<seq<Fact>>)
    ensures r.Some? <==> HasUsdFacts(p, tag)
    ensures r.Some? ==> r.value == p["facts"]["us-gaap"][tag]["units"]["USD"]
  {
    if "facts" !in p then None
    else if "us-gaap" !in p["facts"] then None
    else if tag !in p["facts"]["us-gaap"] then None
    else if "units" !in p["facts"]["us-gaap"][tag] then None
    else if "USD" !in p["facts"]["us-gaap"][tag]["units"] then None
    else Some(p["facts"]["us-gaap"][tag]["units"]["USD"])
  }

  /** `get_tag_df(tag)`: the USD facts, or an empty table on a missing key. */
  function GetTagDf(p: Payload, tag: string): (t: seq<Fact>)
    ensures !HasUsdFacts(p, tag) ==> t == []
    ensures HasUsdFacts(p, tag) ==> t == p["facts"]["us-gaap"][tag]["units"]["USD"]
  {
    match LookupUsdFacts(p, tag)
    case None => []
    case Some(facts) => facts
  }

  /** Builds a payload that stores `facts` as the USD list of `tag`, keeping everything else. */
  function PutUsdFacts(p: Payload, tag: string, facts: seq<Fact>): (q: Payload)
    ensures HasUsdFacts(q, tag)
  {
    var section := if "facts" in p then p["facts"] else map[];
    var gaap := if "us-gaap" in section then section["us-gaap"] else map[];
    var entry := if tag in gaap then gaap[tag] else map[];
    var units := if "units" in entry then entry["units"] else map[];
    p["facts" := section["us-gaap" := gaap[tag := entry["units" := units["USD" := facts]]]]]
  }

  /** Extraction returns exactly the stored list. */
  lemma GetAfterPut(p: Payload, tag: string, facts: seq<Fact>)
    ensures GetTagDf(PutUsdFacts(p, tag, facts), tag) == facts
  {
  }

  /** Storing one concept leaves extraction of every other concept unchanged. */
  lemma GetAfterPutOther(p: Payload, tag: string, other: string, facts: seq<Fact>)
    requires other != tag
    ensures GetTagDf(PutUsdFacts(p, tag, facts), other) == GetTagDf(p, other)
  {
  }
}
