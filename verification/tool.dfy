/** The agent tools around the store and the peer search: the tool-level
    `upsert_esg_report`, the document the extractor hands to it, and the
    peer-count defaulting of `get_peer_companies`. */
module Tool {
  import opened Results
  import opened PyValues
  import opened ReportStore
  import MongoDbService
  import Extraction
  import SystemPrompts

  datatype ToolReply =
    | MissingKeys(missing: set<string>)  // status "error" with `missing_keys`; nothing written
    | Written(status: Status, companyId: Value, year: string, reportKeys: set<string>)
    | Raised(companyId: Value, year: string)  // status "error" from the except branch
    | Crashed  // the except branch itself raises: the document is None

  /** The tool-level `upsert_esg_report(document)`.  The write happens before
      the report's keys are listed, so a report that is not a dict is stored
      and then answered with an error. */
  function UpsertTool(store: Store, document: Option<Object>, repr: Value -> string): (r: (Store, ToolReply))
    ensures document.None? <==> r.1 == Crashed
    ensures document.None? ==> r.0 == store
    ensures document.Some? ==> r.0 == MongoDbService.UpsertEsgReport(store, document.value, repr).0
    ensures document.Some? ==> (r.1.MissingKeys? <==> !(RequiredKeys <= document.value.Keys))
    ensures r.1.MissingKeys? ==> r.0 == store && r.1.missing == RequiredKeys - document.value.Keys
    ensures r.1.Raised? <==> document.Some? && RequiredKeys <= document.value.Keys && !document.value["esg_report"].Obj?
    ensures r.1.Raised? ==> r.1.companyId == Get(document.value, "company_id") && r.1.year == PyStr(document.value["year"], repr)
    ensures r.1.Written? ==>
      var service := MongoDbService.UpsertEsgReport(store, document.value, repr).1;
      && service == MongoDbService.Stored(r.1.status, r.1.companyId, r.1.year)
      && r.1.reportKeys == document.value["esg_report"].fields.Keys
  {
    if document.None? then (store, Crashed)
    else
      var doc := document.value;
      if !(RequiredKeys <= doc.Keys) then (store, MissingKeys(RequiredKeys - doc.Keys))
      else
        var id := doc["_id"];
        var year := PyStr(doc["year"], repr);
        var report := doc["esg_report"];
        var (after, ack) := SetYearSlot(store, id, year, report);
        if report.Obj? then (after, Written(StatusOf(ack), id, year, report.fields.Keys))
        else (after, Raised(Get(doc, "company_id"), PyStr(GetOr(doc, "year", Str("")), repr)))
  }

  /** The dictionary the extractor returns, as the upsert receives it. */
  function ToDocument(e: Extraction.Extracted): (d: Object)
    ensures RequiredKeys <= d.Keys && "token_usage" in d
  {
    map[
      "_id" := e.companyId,
      "year" := Str(e.year),
      "esg_report" := Obj(e.report),
      "token_usage" := Obj(map[
        "total_prompt_tokens" := Int(e.usage.prompt),
        "total_output_tokens" := Int(e.usage.output),
        "total_tokens" := Int(e.usage.total)])
    ]
  }

  /** An extracted document is always accepted by the upsert: its report is
      stored under the company's name and the extracted year, and the reply
      lists exactly the report's keys. */
  lemma ExtractedDocumentStored(store: Store, e: Extraction.Extracted, repr: Value -> string)
    ensures var r := UpsertTool(store, Some(ToDocument(e)), repr);
      && r.1.Written? && r.1.companyId == e.companyId && r.1.year == e.year && r.1.reportKeys == e.report.Keys
      && e.year in r.0[e.companyId] && r.0[e.companyId][e.year] == Obj(e.report)
  {
  }

  /** Persisting the same document twice: the second call writes nothing new
      and reports "unchanged". */
  lemma {:induction false} UpsertTwiceUnchanged(store: Store, document: Object, repr: Value -> string)
    requires RequiredKeys <= document.Keys && document["esg_report"].Obj?
    ensures var once := UpsertTool(store, Some(document), repr).0;
      var again := UpsertTool(once, Some(document), repr);
      again.0 == once && again.1.Written? && again.1.status == Unchanged
  {
    var id := document["_id"];
    var year := PyStr(document["year"], repr);
    var report := document["esg_report"];
    SetYearSlotIdempotent(store, id, year, report);
  }

  /** Reports for two different years of one company live side by side:
      writing the second leaves the first in place. */
  lemma {:induction false} YearsCoexist(store: Store, first: Object, second: Object, repr: Value -> string)
    requires RequiredKeys <= first.Keys && RequiredKeys <= second.Keys
    requires first["_id"] == second["_id"]
    requires PyStr(first["year"], repr) != PyStr(second["year"], repr)
    ensures var once := UpsertTool(store, Some(first), repr).0;
      var twice := UpsertTool(once, Some(second), repr).0;
      var id := first["_id"];
      && PyStr(first["year"], repr) in twice[id] && twice[id][PyStr(first["year"], repr)] == first["esg_report"]
      && PyStr(second["year"], repr) in twice[id] && twice[id][PyStr(second["year"], repr)] == second["esg_report"]
  {
    var id := first["_id"];
    var once := SetYearSlot(store, id, PyStr(first["year"], repr), first["esg_report"]).0;
    assert id in once;
  }

  /** A new company with a truthy name is inserted; a different report for
      the same year afterwards is an update. */
  lemma {:induction false} InsertThenUpdate(store: Store, first: Object, second: Object, repr: Value -> string)
    requires RequiredKeys <= first.Keys && RequiredKeys <= second.Keys
    requires first["esg_report"].Obj? && second["esg_report"].Obj?
    requires first["_id"] == second["_id"] && first["_id"] !in store && Truthy(first["_id"])
    requires PyStr(first["year"], repr) == PyStr(second["year"], repr)
    requires first["esg_report"] != second["esg_report"]
    ensures var r1 := UpsertTool(store, Some(first), repr);
      var r2 := UpsertTool(r1.0, Some(second), repr);
      r1.1.Written? && r1.1.status == Inserted && r2.1.Written? && r2.1.status == Updated
  {
    var id := first["_id"];
    var year := PyStr(first["year"], repr);
    WriteStatus(store, id, year, first["esg_report"]);
    var once := SetYearSlot(store, id, year, first["esg_report"]).0;
    WriteStatus(once, id, year, second["esg_report"]);
  }

  datatype PeerCountError = NoneComparedWithInt  // `None <= 0` raises TypeError

  /** Python truthiness of an optional count. */
  predicate CountTruthy(n: Option<int>) {
    n.Some? && n.value != 0
  }

  /** The defaulting of `num_country_peers` and `num_region_peers` at the top
      of `get_peer_companies`, as written: the last branch compares both with
      0, which raises when exactly one is None and the other is 0. */
  function DefaultPeerCounts(country: Option<int>, region: Option<int>): (r: Result<(int, int), PeerCountError>)
    ensures country.None? && region.None? ==> r == Ok((5, 5))
    ensures CountTruthy(country) && !CountTruthy(region) ==> r == Ok((country.value, 0))
    ensures CountTruthy(region) && !CountTruthy(country) ==> r == Ok((0, region.value))
    ensures r.Err? <==> (country.None? && region == Some(0)) || (country == Some(0) && region.None?)
    ensures country.Some? && region.Some? && (country.value == 0 <==> region.value == 0) ==>
      r == Ok(if country.value <= 0 && region.value <= 0 then (5, 5) else (country.value, region.value))
  {
    if country.None? && region.None? then Ok((5, 5))
    else if CountTruthy(country) && !CountTruthy(region) then Ok((country.value, 0))
    else if CountTruthy(region) && !CountTruthy(country) then Ok((0, region.value))
    else if country.None? || region.None? then Err(NoneComparedWithInt)
    else if country.value <= 0 && region.value <= 0 then Ok((5, 5))
    else Ok((country.value, region.value))
  }

  /** The input that shows the defect: a country count of 0 with no region
      count raises instead of falling back to 5 and 5. */
  lemma ZeroCountryNoRegionRaises()
    ensures DefaultPeerCounts(Some(0), None) == Err(NoneComparedWithInt)
    ensures DefaultPeerCounts(None, Some(0)) == Err(NoneComparedWithInt)
  {
  }

  /** The defaulting as evidently intended: a missing count compares as 0 in
      the last branch, so "both counts are 0" falls back to 5 and 5. */
  function DefaultPeerCountsIntended(country: Option<int>, region: Option<int>): (r: (int, int))
    ensures DefaultPeerCounts(country, region).Ok? ==> r == DefaultPeerCounts(country, region).value
    ensures DefaultPeerCounts(country, region).Err? ==> r == (5, 5)
  {
    if country.None? && region.None? then (5, 5)
    else if CountTruthy(country) && !CountTruthy(region) then (country.value, 0)
    else if CountTruthy(region) && !CountTruthy(country) then (0, region.value)
    else if country.GetOr(0) <= 0 && region.GetOr(0) <= 0 then (5, 5)
    else (country.GetOr(0), region.GetOr(0))
  }

  /** With counts that are absent or non-negative, at least one peer search
      is always asked for. */
  lemma IntendedCountsAskForPeers(country: Option<int>, region: Option<int>)
    requires country.Some? ==> country.value >= 0
    requires region.Some? ==> region.value >= 0
    ensures var (c, r) := DefaultPeerCountsIntended(country, region);
      c > 0 || r > 0
  {
  }

  /** Defaulting is a fixed point: feeding the chosen counts back in keeps
      them. */
  lemma DefaultPeerCountsIdempotent(country: Option<int>, region: Option<int>)
    ensures var (c, r) := DefaultPeerCountsIntended(country, region);
      DefaultPeerCounts(Some(c), Some(r)) == Ok((c, r))
  {
  }

  /** The sections of the peer prompt `get_peer_companies` sends, with the
      intended defaulting applied to the requested counts. */
  function PeerPlan(country: Option<int>, region: Option<int>): (steps: seq<SystemPrompts.PeerStep>)
    ensures steps != [] && steps[|steps| - 1] == SystemPrompts.FallbackStrategy
    ensures (country.Some? ==> country.value >= 0) && (region.Some? ==> region.value >= 0) ==> |steps| >= 2
    ensures country.Some? && country.value > 0 ==> SystemPrompts.CountryPeers(country.value) in steps
    ensures region.Some? && region.value > 0 ==> SystemPrompts.RegionPeers(region.value) in steps
  {
    var (c, r) := DefaultPeerCountsIntended(country, region);
    var steps := SystemPrompts.PeerSteps(c, r);
    assert c > 0 ==> SystemPrompts.CountryPeers(c) in steps;
    assert r > 0 ==> SystemPrompts.RegionPeers(r) in steps;
    if (country.Some? ==> country.value >= 0) && (region.Some? ==> region.value >= 0) then
      (IntendedCountsAskForPeers(country, region); steps)
    else steps
  }

  /** The sections as written: where the defaulting raises, no prompt is
      built; everywhere else the plan is the one above. */
  function PeerPlanAsWritten(country: Option<int>, region: Option<int>): (r: Result<seq<SystemPrompts.PeerStep>, PeerCountError>)
    ensures r.Err? <==> (country.None? && region == Some(0)) || (country == Some(0) && region.None?)
    ensures r.Ok? ==> r.value == PeerPlan(country, region)
  {
    match DefaultPeerCounts(country, region)
    case Err(e) => Err(e)
    case Ok(counts) => Ok(SystemPrompts.PeerSteps(counts.0, counts.1))
  }
}
