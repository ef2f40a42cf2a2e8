/** The document store behind both upsert operations, reduced to what they
    use: one document per company `_id`, holding `esg_reports` as a map from
    year text to the report stored under it.  The `update_one` call with a
    single `$set` path and `upsert=True` becomes a pure function returning the
    new store and the write acknowledgement. */
module ReportStore {
  import opened Results
  import opened PyValues

  /** The `esg_reports` field of one company document. */
  type Slots = map<string, Value>

  /** Company `_id` to that company's year slots. */
  type Store = map<Value, Slots>

  /** What `update_one` reports: the `_id` of a document it created, and how
      many documents it changed. */
  datatype Ack = Ack(upsertedId: Option<Value>, modifiedCount: nat)

  /** The keys both upsert operations insist on. */
  const RequiredKeys: set<string> := {"_id", "year", "esg_report"}

  /** `update_one({"_id": id}, {"$set": {"esg_reports.<year>": report}}, upsert=True)`.
      A missing document is created holding just this slot; an existing one
      gets the slot set.  Writing a value equal to the one already stored
      changes nothing and is acknowledged with a modified count of 0, as the
      store promises. */
  function SetYearSlot(store: Store, id: Value, year: string, report: Value): (r: (Store, Ack))
    ensures r.0.Keys == store.Keys + {id}
    ensures year in r.0[id] && r.0[id][year] == report
    ensures id in store ==> r.0[id].Keys == store[id].Keys + {year}
    ensures id !in store ==> r.0[id].Keys == {year}
    ensures forall y :: id in store && y in store[id] && y != year ==> r.0[id][y] == store[id][y]
    ensures forall other :: other in store && other != id ==> r.0[other] == store[other]
    ensures r.1.upsertedId == (if id in store then None else Some(id))
    ensures r.1.modifiedCount == (if id in store && !(year in store[id] && store[id][year] == report) then 1 else 0)
  {
    if id in store then
      var changed := !(year in store[id] && store[id][year] == report);
      (store[id := store[id][year := report]], Ack(None, if changed then 1 else 0))
    else
      (store[id := map[year := report]], Ack(Some(id), 0))
  }

  datatype Status = Inserted | Updated | Unchanged

  /** The status both upserts derive from the acknowledgement: "inserted" when
      `upserted_id` is truthy, else "updated" when something changed, else
      "unchanged". */
  function StatusOf(ack: Ack): (s: Status)
    ensures s == Inserted <==> ack.upsertedId.Some? && Truthy(ack.upsertedId.value)
    ensures s == Updated <==> !(ack.upsertedId.Some? && Truthy(ack.upsertedId.value)) && ack.modifiedCount > 0
  {
    if ack.upsertedId.Some? && Truthy(ack.upsertedId.value) then Inserted
    else if ack.modifiedCount > 0 then Updated
    else Unchanged
  }

  /** The status of a year-slot write, read off the store it was applied to. */
  lemma WriteStatus(store: Store, id: Value, year: string, report: Value)
    ensures var s := StatusOf(SetYearSlot(store, id, year, report).1);
      && (s == Inserted <==> id !in store && Truthy(id))
      && (s == Updated <==> id in store && !(year in store[id] && store[id][year] == report))
      && (s == Unchanged <==> (id !in store && !Truthy(id)) || (id in store && year in store[id] && store[id][year] == report))
  {
  }

  /** Writing the same slot twice: the second write leaves the store as the
      first left it and reports "unchanged". */
  lemma {:induction false} SetYearSlotIdempotent(store: Store, id: Value, year: string, report: Value)
    ensures var once := SetYearSlot(store, id, year, report).0;
      && SetYearSlot(once, id, year, report).0 == once
      && StatusOf(SetYearSlot(once, id, year, report).1) == Unchanged
  {
    var once := SetYearSlot(store, id, year, report).0;
    assert once[id][year := report] == once[id];
    assert once[id := once[id]] == once;
  }
}
