/** The MongoDB service: collection-name sanitising, the service-level
    year-slot upsert, and the filter and projection `retrieve_documents`
    builds before querying. */
module MongoDbService {
  import opened Results
  import opened PyValues
  import Text
  import opened ReportStore

  predicate IsNulOrDollar(c: char) {
    c == '\0' || c == '$'
  }

  /** The trailing characters the second substitution removes: '.' and `\s`. */
  predicate IsDotOrSpace(c: char) {
    c == '.' || Text.IsSpace(c)
  }

  /** `re.sub(r'[\0$]', '', s)` */
  function DropNulDollar(s: string): (r: string)
    ensures |r| <= |s|
    ensures forall k :: 0 <= k < |r| ==> !IsNulOrDollar(r[k])
    ensures (forall k :: 0 <= k < |s| ==> !IsNulOrDollar(s[k])) ==> r == s
    ensures |s| == 1 ==> r == if IsNulOrDollar(s[0]) then [] else s
    decreases |s|
  {
    if s == [] then []
    else
      var rest := DropNulDollar(s[1..]);
      if IsNulOrDollar(s[0]) then rest else [s[0]] + rest
  }

  /** The substitution works character by character: the kept characters
      of two pieces stay in their order. */
  lemma {:induction false} DropNulDollarAppend(a: string, b: string)
    ensures DropNulDollar(a + b) == DropNulDollar(a) + DropNulDollar(b)
    decreases |a|
  {
    if a == [] {
      assert a + b == b;
    } else {
      assert (a + b)[1..] == a[1..] + b;
      DropNulDollarAppend(a[1..], b);
    }
  }

  /** An occurrence of "system." ends at position `k` of `s`. */
  predicate SystemDotAt(s: string, k: int)
    requires 0 <= k < |s|
  {
    k >= 6 && s[k - 6] == 's' && s[k - 5] == 'y' && s[k - 4] == 's' && s[k - 3] == 't'
    && s[k - 2] == 'e' && s[k - 1] == 'm' && s[k] == '.'
  }

  /** Reference for `s.replace("system.", "system_")`, one position at a
      time: a '.' that ends an occurrence of "system." becomes '_', and
      every other character stays. */
  function UnderscoreSystemDots(s: string): (r: string)
    ensures |r| == |s|
  {
    seq(|s|, k requires 0 <= k < |s| => if SystemDotAt(s, k) then '_' else s[k])
  }

  lemma SystemPrefix(s: string)
    requires |s| >= 7
    ensures s[..7] == "system." <==> SystemDotAt(s, 6)
  {
    if SystemDotAt(s, 6) {
      assert s[..7] == "system.";
    }
  }

  /** After a leading "system.", the reference continues as on the rest,
      because "system." cannot overlap itself. */
  lemma UnderscoreAfterPrefix(s: string)
    requires |s| >= 7 && SystemDotAt(s, 6)
    ensures UnderscoreSystemDots(s) == "system_" + UnderscoreSystemDots(s[7..])
  {
    var rest := s[7..];
    var ref := UnderscoreSystemDots(s);
    var tail := UnderscoreSystemDots(rest);
    forall k | 7 <= k < |s|
      ensures ref[k] == tail[k - 7]
    {
      assert SystemDotAt(s, k) <==> k >= 13 && SystemDotAt(rest, k - 7);
    }
    forall k | 0 <= k < 7
      ensures ref[k] == "system_"[k]
    {
    }
    assert ref == "system_" + tail;
  }

  /** Without a leading "system.", the reference keeps the first character
      and continues as on the rest. */
  lemma UnderscoreAfterFirst(s: string)
    requires |s| >= 7 && !SystemDotAt(s, 6)
    ensures UnderscoreSystemDots(s) == [s[0]] + UnderscoreSystemDots(s[1..])
  {
    var rest := s[1..];
    var ref := UnderscoreSystemDots(s);
    var tail := UnderscoreSystemDots(rest);
    forall k | 1 <= k < |s|
      ensures ref[k] == tail[k - 1]
    {
      assert SystemDotAt(s, k) <==> k >= 7 && SystemDotAt(rest, k - 1);
    }
    assert ref == [s[0]] + tail;
  }

  /** The left-to-right replacement agrees with the position-wise reference. */
  lemma {:induction false} ReplaceSystemDots(s: string)
    ensures Text.ReplaceAll(s, "system.", "system_") == UnderscoreSystemDots(s)
    decreases |s|
  {
    if |s| < 7 {
      assert UnderscoreSystemDots(s) == s;
    } else {
      SystemPrefix(s);
      if SystemDotAt(s, 6) {
        ReplaceSystemDots(s[7..]);
        UnderscoreAfterPrefix(s);
      } else {
        ReplaceSystemDots(s[1..]);
        UnderscoreAfterFirst(s);
      }
    }
  }

  /** `sanitize_collection_name(name)`: drop NUL and '$', drop a trailing run
      of dots and whitespace, and if the result starts with "system." turn
      every "system." in it into "system_". */
  function SanitizeCollectionName(name: string): (r: string)
    ensures forall k :: 0 <= k < |r| ==> !IsNulOrDollar(r[k])
    ensures r == [] || !IsDotOrSpace(r[|r| - 1])
    ensures !Text.StartsWith(r, "system.")
    ensures |r| <= |name|
    ensures var cleaned := Text.TrimEnd(DropNulDollar(name), IsDotOrSpace);
      Text.StartsWith(cleaned, "system.") ==> r == UnderscoreSystemDots(cleaned)
    ensures var cleaned := Text.TrimEnd(DropNulDollar(name), IsDotOrSpace);
      !Text.StartsWith(cleaned, "system.") ==> r == cleaned
  {
    var cleaned := Text.TrimEnd(DropNulDollar(name), IsDotOrSpace);
    if Text.StartsWith(cleaned, "system.") then
      ReplaceSystemDots(cleaned);
      var replaced := Text.ReplaceAll(cleaned, "system.", "system_");
      assert cleaned[..7] == "system.";
      assert replaced[6] == '_';
      assert replaced[|replaced| - 1] == '_' || replaced[|replaced| - 1] == cleaned[|cleaned| - 1];
      assert forall k :: 0 <= k < |replaced| ==> replaced[k] == '_' || replaced[k] == cleaned[k];
      replaced
    else cleaned
  }

  /** Sanitising a sanitised collection name changes nothing. */
  lemma SanitizeCollectionNameIdempotent(name: string)
    ensures SanitizeCollectionName(SanitizeCollectionName(name)) == SanitizeCollectionName(name)
  {
    var once := SanitizeCollectionName(name);
    assert DropNulDollar(once) == once;
    assert Text.TrimEnd(once, IsDotOrSpace) == once;
  }

  /** The reply of the service-level `upsert_esg_report`. */
  datatype ServiceReply =
    | Rejected(missing: set<string>)                      // status "error"; the message names the missing keys
    | Stored(status: Status, companyId: Value, year: string)

  /** The service-level `upsert_esg_report(document)`.  `repr` renders a
      list or dict year, as in `PyValues.PyStr`. */
  function UpsertEsgReport(store: Store, document: Object, repr: Value -> string): (r: (Store, ServiceReply))
    ensures r.1.Rejected? <==> !(RequiredKeys <= document.Keys)
    ensures r.1.Rejected? ==> r.0 == store && r.1.missing == RequiredKeys - document.Keys
    ensures r.1.Stored? ==>
      var id := document["_id"];
      var year := PyStr(document["year"], repr);
      var report := document["esg_report"];
      && r.1.companyId == id && r.1.year == year
      && r.0.Keys == store.Keys + {id}
      && year in r.0[id] && r.0[id][year] == report
      && (id in store ==> r.0[id].Keys == store[id].Keys + {year})
      && (id !in store ==> r.0[id].Keys == {year})
      && (forall y :: id in store && y in store[id] && y != year ==> r.0[id][y] == store[id][y])
      && (forall other :: other in store && other != id ==> r.0[other] == store[other])
      && (r.1.status == Inserted <==> id !in store && Truthy(id))
      && (r.1.status == Updated <==> id in store && !(year in store[id] && store[id][year] == report))
  {
    if !(RequiredKeys <= document.Keys) then (store, Rejected(RequiredKeys - document.Keys))
    else
      var id := document["_id"];
      var year := PyStr(document["year"], repr);
      var report := document["esg_report"];
      var (after, ack) := SetYearSlot(store, id, year, report);
      WriteStatus(store, id, year, report);
      (after, Stored(StatusOf(ack), id, year))
  }

  const CompanyNameField: string := "report_metadata.company_legal_name"
  const ReportYearField: string := "esg_report.year"

  /** The filter and projection handed to `find`/`find_one`. */
  datatype FindSpec = FindSpec(filter: Object, projection: Option<Object>)

  /** The query building of `retrieve_documents`: start from `query` (or an
      empty filter), add the company filter when the name is truthy and the
      year filter whenever a year is given, and project onto `_id` alone when
      only ids are asked for. */
  function RetrieveQuery(query: Option<Object>, onlyIds: bool, companyLegalName: Option<string>, reportingYear: Option<int>): (r: FindSpec)
    ensures var base := query.GetOr(map[]);
      && (forall k :: k != CompanyNameField && k != ReportYearField ==>
            (k in r.filter <==> k in base) && (k in base ==> r.filter[k] == base[k]))
      && (companyLegalName.Some? && companyLegalName.value != [] ==>
            CompanyNameField in r.filter && r.filter[CompanyNameField] == Str(companyLegalName.value))
      && (!(companyLegalName.Some? && companyLegalName.value != []) ==>
            (CompanyNameField in r.filter <==> CompanyNameField in base)
            && (CompanyNameField in base ==> r.filter[CompanyNameField] == base[CompanyNameField]))
      && (reportingYear.Some? ==> ReportYearField in r.filter && r.filter[ReportYearField] == Int(reportingYear.value))
      && (reportingYear.None? ==>
            (ReportYearField in r.filter <==> ReportYearField in base)
            && (ReportYearField in base ==> r.filter[ReportYearField] == base[ReportYearField]))
    ensures r.projection.Some? <==> onlyIds
    ensures onlyIds ==> r.projection.value == map["_id" := Int(1)]
  {
    var base := if query.Some? && query.value != map[] then query.value else map[];
    var withName := if companyLegalName.Some? && companyLegalName.value != [] then base[CompanyNameField := Str(companyLegalName.value)] else base;
    var withYear := if reportingYear.Some? then withName[ReportYearField := Int(reportingYear.value)] else withName;
    FindSpec(withYear, if onlyIds then Some(map["_id" := Int(1)]) else None)
  }
}
