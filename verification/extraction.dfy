/** `extract_emission_data_as_json`: upload a report, ask the model for each
    response schema in turn with bounded retries and linear back-off, merge
    the JSON objects it returns, total the token usage, and build the
    report document from the merged metadata.

    The model backend is an oracle `backend: nat -> Response` indexed by the
    global number of the call (0 for the first call of the run), so every
    retry sees whatever the backend answers at that point.  Sleeping is
    recorded as an event instead of being performed. */
module Extraction {
  import opened Results
  import opened PyValues
  import GeminiService
  import Text

  /** `config.MAX_RETRIES` and `config.RETRY_DELAY_SECONDS`. */
  const MaxRetries: nat := 3
  const RetryDelaySeconds: nat := 60

  /** `RESPONSE_SCHEMA`, by class name, in the order they are requested. */
  const ResponseSchemas: seq<string> := [
    "ReportMetadata",
    "EnvironmentalEmissionsEnergy",
    "EnvironmentalWaterWaste",
    "SocialTrainingAndCSR",
    "SocialWorkforceAndWellBeing",
    "GovernanceEthicsAndComplaints",
    "GovernanceStructureAndOpenness",
    "MaterialityAssessment"
  ]

  /** `usage_metadata`; each count may be absent (None). */
  datatype Usage = Usage(promptTokens: Option<nat>, candidatesTokens: Option<nat>, totalTokens: Option<nat>)

  /** What the response text turns out to be. */
  datatype TextOutcome =
    | EmptyText            // no text and no candidate text
    | Unparsable           // `json.loads` raises
    | NonObject            // valid JSON that is not an object
    | JsonObject(fields: Object)

  datatype Response =
    | TransportError       // `generate_content` raises
    | Reply(usage: Option<Usage>, outcome: TextOutcome)

  /** A reply whose fields are merged and end the retry loop. */
  predicate Accepted(resp: Response) {
    resp.Reply? && resp.outcome.JsonObject?
  }

  datatype Tally = Tally(prompt: nat, output: nat, total: nat)

  const NoTokens := Tally(0, 0, 0)

  /** Adding one response's usage; an absent count counts as 0, and a call
      that raised reports nothing. */
  function AddUsage(t: Tally, resp: Response): (r: Tally)
    ensures t.prompt <= r.prompt && t.output <= r.output && t.total <= r.total
    ensures !resp.Reply? || resp.usage.None? ==> r == t
    ensures resp.Reply? && resp.usage.Some? ==>
      && r.prompt == t.prompt + resp.usage.value.promptTokens.GetOr(0)
      && r.output == t.output + resp.usage.value.candidatesTokens.GetOr(0)
      && r.total == t.total + resp.usage.value.totalTokens.GetOr(0)
  {
    if resp.Reply? && resp.usage.Some? then
      var u := resp.usage.value;
      Tally(t.prompt + u.promptTokens.GetOr(0), t.output + u.candidatesTokens.GetOr(0), t.total + u.totalTokens.GetOr(0))
    else t
  }

  /** `merged_result.update(...)` for an accepted reply; nothing otherwise. */
  function Absorb(merged: Object, resp: Response): Object {
    if Accepted(resp) then merged + resp.outcome.fields else merged
  }

  /** Reference: the usage of calls `from` up to `until`, added in call order. */
  function TallyFrom(t: Tally, backend: nat -> Response, from: nat, until: nat): Tally
    requires from <= until
    decreases (until as int) - (from as int)
  {
    if from == until then t else TallyFrom(AddUsage(t, backend(from)), backend, from + 1, until)
  }

  /** Reference: the accepted replies of calls `from` up to `until`, merged in
      call order. */
  function MergeFrom(merged: Object, backend: nat -> Response, from: nat, until: nat): Object
    requires from <= until
    decreases (until as int) - (from as int)
  {
    if from == until then merged else MergeFrom(Absorb(merged, backend(from)), backend, from + 1, until)
  }

  /** How many of calls `from` up to `until` were accepted. */
  function CountAccepted(backend: nat -> Response, from: nat, until: nat): nat
    requires from <= until
    decreases (until as int) - (from as int)
  {
    if from == until then 0 else (if Accepted(backend(from)) then 1 else 0) + CountAccepted(backend, from + 1, until)
  }

  lemma {:induction false} TallyFromCompose(t: Tally, backend: nat -> Response, a: nat, b: nat, c: nat)
    requires a <= b <= c
    ensures TallyFrom(TallyFrom(t, backend, a, b), backend, b, c) == TallyFrom(t, backend, a, c)
    decreases b - a
  {
    if a < b {
      TallyFromCompose(AddUsage(t, backend(a)), backend, a + 1, b, c);
    }
  }

  lemma {:induction false} MergeFromCompose(m: Object, backend: nat -> Response, a: nat, b: nat, c: nat)
    requires a <= b <= c
    ensures MergeFrom(MergeFrom(m, backend, a, b), backend, b, c) == MergeFrom(m, backend, a, c)
    decreases b - a
  {
    if a < b {
      MergeFromCompose(Absorb(m, backend(a)), backend, a + 1, b, c);
    }
  }

  lemma {:induction false} CountAcceptedCompose(backend: nat -> Response, a: nat, b: nat, c: nat)
    requires a <= b <= c
    ensures CountAccepted(backend, a, b) + CountAccepted(backend, b, c) == CountAccepted(backend, a, c)
    decreases b - a
  {
    if a < b {
      CountAcceptedCompose(backend, a + 1, b, c);
    }
  }

  /** Token totals never decrease over a run. */
  lemma {:induction false} TallyMonotone(t: Tally, backend: nat -> Response, from: nat, until: nat)
    requires from <= until
    ensures t.prompt <= TallyFrom(t, backend, from, until).prompt
    ensures t.output <= TallyFrom(t, backend, from, until).output
    ensures t.total <= TallyFrom(t, backend, from, until).total
    decreases until - from
  {
    if from < until {
      TallyMonotone(AddUsage(t, backend(from)), backend, from + 1, until);
    }
  }

  /** Later replies win: a key holds the value of the last accepted reply
      that carries it. */
  lemma {:induction false} MergeLastWriterWins(m: Object, backend: nat -> Response, from: nat, until: nat, j: nat, key: string)
    requires from <= j < until
    requires Accepted(backend(j)) && key in backend(j).outcome.fields
    requires forall c :: j < c < until && Accepted(backend(c)) ==> key !in backend(c).outcome.fields
    ensures key in MergeFrom(m, backend, from, until)
    ensures MergeFrom(m, backend, from, until)[key] == backend(j).outcome.fields[key]
    decreases until - from
  {
    if from < j {
      MergeLastWriterWins(Absorb(m, backend(from)), backend, from + 1, until, j, key);
    } else {
      MergeUntouched(Absorb(m, backend(from)), backend, from + 1, until, key);
    }
  }

  /** A key no accepted reply carries keeps its earlier value, or stays
      absent. */
  lemma {:induction false} MergeUntouched(m: Object, backend: nat -> Response, from: nat, until: nat, key: string)
    requires from <= until
    requires forall c :: from <= c < until && Accepted(backend(c)) ==> key !in backend(c).outcome.fields
    ensures key in MergeFrom(m, backend, from, until) <==> key in m
    ensures key in m ==> MergeFrom(m, backend, from, until)[key] == m[key]
    decreases until - from
  {
    if from < until {
      MergeUntouched(Absorb(m, backend(from)), backend, from + 1, until, key);
    }
  }

  /** One entry of the log of a run. */
  datatype Event =
    | Call(schema: nat, attempt: nat, accepted: bool)  // attempt counts from 1
    | Sleep(seconds: nat)

  /** Reference: the log of `n` attempts at one schema after `done` failed
      ones: each failed attempt is followed by a back-off of `delay` times its
      number, and only the last attempt may be accepted. */
  function RetryTrace(schema: nat, done: nat, n: nat, lastAccepted: bool, delay: nat): seq<Event>
    requires n >= 1
    decreases n
  {
    if n == 1 then [Call(schema, done + 1, lastAccepted)]
    else [Call(schema, done + 1, false), Sleep(delay * (done + 1))] + RetryTrace(schema, done + 1, n - 1, lastAccepted, delay)
  }

  /** The same log, position by position: calls at even positions, sleeps
      at odd ones, the back-off growing linearly. */
  lemma {:induction false} RetryTraceShape(schema: nat, done: nat, n: nat, lastAccepted: bool, delay: nat)
    requires n >= 1
    ensures |RetryTrace(schema, done, n, lastAccepted, delay)| == 2 * n - 1
    ensures forall i :: 0 <= i < 2 * n - 1 && i % 2 == 0 ==>
      RetryTrace(schema, done, n, lastAccepted, delay)[i] == Call(schema, done + i / 2 + 1, lastAccepted && i == 2 * n - 2)
    ensures forall i :: 0 <= i < 2 * n - 1 && i % 2 == 1 ==>
      RetryTrace(schema, done, n, lastAccepted, delay)[i] == Sleep(delay * (done + i / 2 + 1))
    decreases n
  {
    if n > 1 {
      var tail := RetryTrace(schema, done + 1, n - 1, lastAccepted, delay);
      var head := [Call(schema, done + 1, false), Sleep(delay * (done + 1))];
      RetryTraceShape(schema, done + 1, n - 1, lastAccepted, delay);
      assert RetryTrace(schema, done, n, lastAccepted, delay) == head + tail;
      forall i | 2 <= i < 2 * n - 1
        ensures (head + tail)[i] == tail[i - 2]
        ensures i / 2 == (i - 2) / 2 + 1
      {
      }
    }
  }

  /** An entry a run with these settings can log: a call until one of the
      `count` schemas with attempt number 1 until `maxRetries`, or a back-off of
      at most `delay * (maxRetries - 1)` seconds. */
  predicate EventWithin(e: Event, maxRetries: nat, delay: nat, count: nat) {
    match e
    case Call(schema, attempt, _) => schema < count && 1 <= attempt <= maxRetries
    case Sleep(seconds) => seconds <= delay * (maxRetries - 1)
  }

  lemma MulMonotone(d: nat, a: nat, b: nat)
    requires a <= b
    ensures d * a <= d * b
  {
    assert d * b == d * a + d * (b - a);
  }

  lemma MulStep(d: nat, k: nat)
    requires k >= 1
    ensures d * k == d + d * (k - 1)
  {
  }

  lemma {:induction false} RetryTraceWithin(schema: nat, done: nat, n: nat, lastAccepted: bool, delay: nat, maxRetries: nat, count: nat)
    requires n >= 1 && done + n <= maxRetries && schema < count
    ensures forall k :: 0 <= k < |RetryTrace(schema, done, n, lastAccepted, delay)| ==>
      EventWithin(RetryTrace(schema, done, n, lastAccepted, delay)[k], maxRetries, delay, count)
    decreases n
  {
    if n > 1 {
      RetryTraceWithin(schema, done + 1, n - 1, lastAccepted, delay, maxRetries, count);
      MulMonotone(delay, done + 1, maxRetries - 1);
      var tail := RetryTrace(schema, done + 1, n - 1, lastAccepted, delay);
      var head := [Call(schema, done + 1, false), Sleep(delay * (done + 1))];
      assert RetryTrace(schema, done, n, lastAccepted, delay) == head + tail;
      assert forall k :: 2 <= k < |head + tail| ==> (head + tail)[k] == tail[k - 2];
    }
  }

  /** The state threaded through the schema loop. */
  datatype Run = Run(merged: Object, tally: Tally, calls: nat, events: seq<Event>)

  const StartRun := Run(map[], NoTokens, 0, [])

  datatype Attempt =
    | Succeeded(run: Run)  // the `break`
    | Exhausted(run: Run)  // `attempt == MAX_RETRIES`: the tool returns None

  /** The `while attempt < MAX_RETRIES` loop for one schema, entered after
      `failures` failed attempts.  Usage is counted before the text is
      inspected, so failed attempts still cost tokens. */
  function TrySchema(maxRetries: nat, delay: nat, schema: nat, failures: nat, run: Run, backend: nat -> Response): (r: Attempt)
    requires failures < maxRetries
    ensures run.calls < r.run.calls <= run.calls + (maxRetries - failures)
    ensures r.Succeeded? <==> Accepted(backend(r.run.calls - 1))
    ensures r.Exhausted? ==> r.run.calls == run.calls + (maxRetries - failures)
    decreases maxRetries - failures
  {
    var resp := backend(run.calls);
    var tally := AddUsage(run.tally, resp);
    if Accepted(resp) then
      Succeeded(Run(run.merged + resp.outcome.fields, tally, run.calls + 1, run.events + [Call(schema, failures + 1, true)]))
    else if failures + 1 == maxRetries then
      Exhausted(Run(run.merged, tally, run.calls + 1, run.events + [Call(schema, failures + 1, false)]))
    else TrySchema(maxRetries, delay, schema, failures + 1, Retried(run, resp, schema, failures, delay), backend)
  }

  /** The run after a failed attempt that will be retried: its usage is
      counted, and the failed call and the back-off are logged. */
  function Retried(run: Run, resp: Response, schema: nat, failures: nat, delay: nat): (r: Run)
    ensures r.calls == run.calls + 1 && r.merged == run.merged && r.tally == AddUsage(run.tally, resp)
  {
    Run(run.merged, AddUsage(run.tally, resp), run.calls + 1,
        run.events + [Call(schema, failures + 1, false), Sleep(delay * (failures + 1))])
  }

  /** A failed attempt with attempts left is followed by the rest of the
      loop on the retried run. */
  lemma TrySchemaRetries(maxRetries: nat, delay: nat, schema: nat, failures: nat, run: Run, backend: nat -> Response)
    requires failures + 1 < maxRetries && !Accepted(backend(run.calls))
    ensures TrySchema(maxRetries, delay, schema, failures, run, backend)
      == TrySchema(maxRetries, delay, schema, failures + 1, Retried(run, backend(run.calls), schema, failures, delay), backend)
  {
  }

  /** The attempts at one schema add the usage of exactly the calls they
      make, and merge exactly the replies they accept. */
  lemma {:induction false} TrySchemaFolds(maxRetries: nat, delay: nat, schema: nat, failures: nat, run: Run, backend: nat -> Response)
    requires failures < maxRetries
    ensures var r := TrySchema(maxRetries, delay, schema, failures, run, backend);
      && r.run.tally == TallyFrom(run.tally, backend, run.calls, r.run.calls)
      && r.run.merged == MergeFrom(run.merged, backend, run.calls, r.run.calls)
    decreases maxRetries - failures
  {
    var resp := backend(run.calls);
    if !Accepted(resp) && failures + 1 < maxRetries {
      TrySchemaRetries(maxRetries, delay, schema, failures, run, backend);
      TrySchemaFolds(maxRetries, delay, schema, failures + 1, Retried(run, resp, schema, failures, delay), backend);
    }
  }

  /** Only the last call of the attempts at one schema can be accepted, so
      exactly one is when they succeed and none when they are exhausted. */
  lemma {:induction false} TrySchemaOutcome(maxRetries: nat, delay: nat, schema: nat, failures: nat, run: Run, backend: nat -> Response)
    requires failures < maxRetries
    ensures var r := TrySchema(maxRetries, delay, schema, failures, run, backend);
      && (forall c :: run.calls <= c < r.run.calls - 1 ==> !Accepted(backend(c)))
      && CountAccepted(backend, run.calls, r.run.calls) == if r.Succeeded? then 1 else 0
    decreases maxRetries - failures
  {
    var resp := backend(run.calls);
    if !Accepted(resp) && failures + 1 < maxRetries {
      TrySchemaRetries(maxRetries, delay, schema, failures, run, backend);
      TrySchemaOutcome(maxRetries, delay, schema, failures + 1, Retried(run, resp, schema, failures, delay), backend);
    }
  }

  /** One failed attempt followed by more attempts: the log of the rest,
      behind the failed call and its back-off, is the log of the whole. */
  lemma TrySchemaEventsStep(maxRetries: nat, delay: nat, schema: nat, failures: nat, run: Run, backend: nat -> Response)
    requires failures + 1 < maxRetries && !Accepted(backend(run.calls))
    requires var next := Retried(run, backend(run.calls), schema, failures, delay);
      var r := TrySchema(maxRetries, delay, schema, failures + 1, next, backend);
      r.run.events == next.events + RetryTrace(schema, failures + 1, r.run.calls - next.calls, r.Succeeded?, delay)
    ensures var r := TrySchema(maxRetries, delay, schema, failures, run, backend);
      r.run.events == run.events + RetryTrace(schema, failures, r.run.calls - run.calls, r.Succeeded?, delay)
  {
    var head := [Call(schema, failures + 1, false), Sleep(delay * (failures + 1))];
    var next := Retried(run, backend(run.calls), schema, failures, delay);
    TrySchemaRetries(maxRetries, delay, schema, failures, run, backend);
    var r := TrySchema(maxRetries, delay, schema, failures + 1, next, backend);
    var n: nat := r.run.calls - run.calls;
    var tail := RetryTrace(schema, failures + 1, n - 1, r.Succeeded?, delay);
    assert next.events == run.events + head;
    Text.AppendAssociates(run.events, head, tail);
    assert RetryTrace(schema, failures, n, r.Succeeded?, delay) == head + tail;
  }

  /** The attempts at one schema append their retry log to the run's log. */
  lemma {:induction false} TrySchemaEvents(maxRetries: nat, delay: nat, schema: nat, failures: nat, run: Run, backend: nat -> Response)
    requires failures < maxRetries
    ensures var r := TrySchema(maxRetries, delay, schema, failures, run, backend);
      r.run.events == run.events + RetryTrace(schema, failures, r.run.calls - run.calls, r.Succeeded?, delay)
    decreases maxRetries - failures
  {
    var resp := backend(run.calls);
    if !Accepted(resp) && failures + 1 < maxRetries {
      TrySchemaEvents(maxRetries, delay, schema, failures + 1, Retried(run, resp, schema, failures, delay), backend);
      TrySchemaEventsStep(maxRetries, delay, schema, failures, run, backend);
    }
  }

  datatype Progress =
    | Completed(run: Run)                // every schema was extracted
    | Abandoned(schema: nat, run: Run)   // this schema ran out of attempts

  /** The `for schema in RESPONSE_SCHEMA` loop over schemas `next` up to
      `count`.  With no attempts allowed the inner loop never runs and every
      schema is passed over. */
  function RunCatalogue(maxRetries: nat, delay: nat, count: nat, next: nat, run: Run, backend: nat -> Response): (r: Progress)
    requires next <= count
    ensures run.calls <= r.run.calls <= run.calls + maxRetries * (count - next)
    ensures r.run.tally == TallyFrom(run.tally, backend, run.calls, r.run.calls)
    ensures r.run.merged == MergeFrom(run.merged, backend, run.calls, r.run.calls)
    ensures maxRetries == 0 ==> r == Completed(run)
    ensures r.Abandoned? ==> next <= r.schema < count && run.calls + maxRetries <= r.run.calls
    decreases count - next
  {
    if next == count || maxRetries == 0 then Completed(run)
    else
      MulMonotone(maxRetries, 1, count - next);
      MulStep(maxRetries, count - next);
      TrySchemaFolds(maxRetries, delay, next, 0, run, backend);
      match TrySchema(maxRetries, delay, next, 0, run, backend)
      case Exhausted(after) => Abandoned(next, after)
      case Succeeded(after) =>
        var r := RunCatalogue(maxRetries, delay, count, next + 1, after, backend);
        TallyFromCompose(run.tally, backend, run.calls, after.calls, r.run.calls);
        MergeFromCompose(run.merged, backend, run.calls, after.calls, r.run.calls);
        r
  }

  /** A completed run has exactly one accepted reply per schema; an
      abandoned one has one per schema before the abandoned schema, which
      failed its last `maxRetries` calls in a row. */
  lemma {:induction false} RunCatalogueOutcome(maxRetries: nat, delay: nat, count: nat, next: nat, run: Run, backend: nat -> Response)
    requires next <= count
    ensures var r := RunCatalogue(maxRetries, delay, count, next, run, backend);
      && (r.Completed? ==> CountAccepted(backend, run.calls, r.run.calls) == if maxRetries == 0 then 0 else count - next)
      && (r.Abandoned? ==> CountAccepted(backend, run.calls, r.run.calls) == r.schema - next)
      && (r.Abandoned? ==> forall c :: r.run.calls - maxRetries <= c < r.run.calls ==> !Accepted(backend(c)))
    decreases count - next
  {
    if next < count && maxRetries > 0 {
      var tried := TrySchema(maxRetries, delay, next, 0, run, backend);
      TrySchemaOutcome(maxRetries, delay, next, 0, run, backend);
      if tried.Succeeded? {
        var after := tried.run;
        RunCatalogueOutcome(maxRetries, delay, count, next + 1, after, backend);
        var r := RunCatalogue(maxRetries, delay, count, next + 1, after, backend);
        assert RunCatalogue(maxRetries, delay, count, next, run, backend) == r;
        CountAcceptedCompose(backend, run.calls, after.calls, r.run.calls);
      }
    }
  }

  /** Appending a log whose entries are all within the settings keeps the
      old log as a prefix and adds only entries within the settings. */
  lemma AppendWithin(log: seq<Event>, more: seq<Event>, maxRetries: nat, delay: nat, count: nat)
    requires forall k :: 0 <= k < |more| ==> EventWithin(more[k], maxRetries, delay, count)
    ensures (log + more)[..|log|] == log
    ensures forall k :: |log| <= k < |log + more| ==> EventWithin((log + more)[k], maxRetries, delay, count)
  {
    assert forall k :: |log| <= k < |log + more| ==> (log + more)[k] == more[k - |log|];
  }

  /** The attempts at one schema only extend the log, with entries within
      the settings. */
  lemma TrySchemaLog(maxRetries: nat, delay: nat, count: nat, next: nat, run: Run, backend: nat -> Response)
    requires next < count && maxRetries > 0
    ensures var after := TrySchema(maxRetries, delay, next, 0, run, backend).run;
      && |run.events| <= |after.events| && after.events[..|run.events|] == run.events
      && forall k :: |run.events| <= k < |after.events| ==> EventWithin(after.events[k], maxRetries, delay, count)
  {
    var tried := TrySchema(maxRetries, delay, next, 0, run, backend);
    TrySchemaEvents(maxRetries, delay, next, 0, run, backend);
    var trace := RetryTrace(next, 0, tried.run.calls - run.calls, tried.Succeeded?, delay);
    RetryTraceWithin(next, 0, tried.run.calls - run.calls, tried.Succeeded?, delay, maxRetries, count);
    AppendWithin(run.events, trace, maxRetries, delay, count);
  }

  /** The log of a run only grows, and every entry it gains is within the
      retry budget and back-off of the settings. */
  lemma {:induction false} RunCatalogueLog(maxRetries: nat, delay: nat, count: nat, next: nat, run: Run, backend: nat -> Response)
    requires next <= count
    ensures var r := RunCatalogue(maxRetries, delay, count, next, run, backend);
      && |run.events| <= |r.run.events| && r.run.events[..|run.events|] == run.events
      && forall k :: |run.events| <= k < |r.run.events| ==> EventWithin(r.run.events[k], maxRetries, delay, count)
    decreases count - next
  {
    if next < count && maxRetries > 0 {
      var tried := TrySchema(maxRetries, delay, next, 0, run, backend);
      TrySchemaLog(maxRetries, delay, count, next, run, backend);
      if tried.Succeeded? {
        var after := tried.run;
        RunCatalogueLog(maxRetries, delay, count, next + 1, after, backend);
        var r := RunCatalogue(maxRetries, delay, count, next + 1, after, backend);
        assert RunCatalogue(maxRetries, delay, count, next, run, backend) == r;
        PrefixWithin(run.events, after.events, r.run.events, maxRetries, delay, count);
      } else {
        assert RunCatalogue(maxRetries, delay, count, next, run, backend).run == tried.run;
      }
    }
  }

  /** Two extensions of a log chain into one. */
  lemma PrefixWithin(a: seq<Event>, b: seq<Event>, c: seq<Event>, maxRetries: nat, delay: nat, count: nat)
    requires |a| <= |b| && b[..|a|] == a && |b| <= |c| && c[..|b|] == b
    requires forall k :: |a| <= k < |b| ==> EventWithin(b[k], maxRetries, delay, count)
    requires forall k :: |b| <= k < |c| ==> EventWithin(c[k], maxRetries, delay, count)
    ensures c[..|a|] == a
    ensures forall k :: |a| <= k < |c| ==> EventWithin(c[k], maxRetries, delay, count)
  {
    assert forall k :: 0 <= k < |b| ==> c[k] == b[k];
  }

  /** Every call in `log` names a schema from `lo` up to (not including)
      `hi`, and the schemas named never decrease along the log. */
  predicate CallsInOrder(log: seq<Event>, lo: nat, hi: nat) {
    && (forall k :: 0 <= k < |log| && log[k].Call? ==> lo <= log[k].schema < hi)
    && (forall i, j :: 0 <= i < j < |log| && log[i].Call? && log[j].Call? ==> log[i].schema <= log[j].schema)
  }

  /** The attempts at one schema call that schema only. */
  lemma {:induction false} RetryTraceCallsOne(schema: nat, done: nat, n: nat, lastAccepted: bool, delay: nat)
    requires n >= 1
    ensures forall k :: 0 <= k < |RetryTrace(schema, done, n, lastAccepted, delay)| && RetryTrace(schema, done, n, lastAccepted, delay)[k].Call? ==>
      RetryTrace(schema, done, n, lastAccepted, delay)[k].schema == schema
    decreases n
  {
    if n > 1 {
      RetryTraceCallsOne(schema, done + 1, n - 1, lastAccepted, delay);
      var tail := RetryTrace(schema, done + 1, n - 1, lastAccepted, delay);
      var head := [Call(schema, done + 1, false), Sleep(delay * (done + 1))];
      assert RetryTrace(schema, done, n, lastAccepted, delay) == head + tail;
      assert forall k :: 2 <= k < |head + tail| ==> (head + tail)[k] == tail[k - 2];
    }
  }

  /** A log of calls at schemas before `mid` followed by a log of calls at
      schemas from `mid` on is in order. */
  lemma CallsInOrderAppend(a: seq<Event>, b: seq<Event>, lo: nat, mid: nat, hi: nat)
    requires lo <= mid <= hi
    requires CallsInOrder(a, lo, mid) && CallsInOrder(b, mid, hi)
    ensures CallsInOrder(a + b, lo, hi)
  {
    var ab := a + b;
    forall k | 0 <= k < |ab| && ab[k].Call?
      ensures lo <= ab[k].schema < hi
    {
      if k >= |a| {
        assert ab[k] == b[k - |a|];
      }
    }
    forall i, j | 0 <= i < j < |ab| && ab[i].Call? && ab[j].Call?
      ensures ab[i].schema <= ab[j].schema
    {
      if j < |a| {
        assert ab[i] == a[i] && ab[j] == a[j];
      } else if i >= |a| {
        assert ab[i] == b[i - |a|] && ab[j] == b[j - |a|];
      } else {
        assert ab[i] == a[i] && ab[j] == b[j - |a|];
      }
    }
  }

  /** The attempts at one schema add calls to that schema only. */
  lemma TrySchemaOrder(maxRetries: nat, delay: nat, schema: nat, run: Run, backend: nat -> Response)
    requires 0 < maxRetries
    ensures var after := TrySchema(maxRetries, delay, schema, 0, run, backend).run;
      && |run.events| <= |after.events| && after.events[..|run.events|] == run.events
      && CallsInOrder(after.events[|run.events|..], schema, schema + 1)
  {
    var tried := TrySchema(maxRetries, delay, schema, 0, run, backend);
    TrySchemaEvents(maxRetries, delay, schema, 0, run, backend);
    var trace := RetryTrace(schema, 0, tried.run.calls - run.calls, tried.Succeeded?, delay);
    RetryTraceCallsOne(schema, 0, tried.run.calls - run.calls, tried.Succeeded?, delay);
    assert tried.run.events[|run.events|..] == trace;
  }

  /** Two extensions of a log, each in order, chain into one in order. */
  lemma CallsInOrderChain(a: seq<Event>, b: seq<Event>, c: seq<Event>, lo: nat, mid: nat, hi: nat)
    requires lo <= mid <= hi
    requires |a| <= |b| && b[..|a|] == a && |b| <= |c| && c[..|b|] == b
    requires CallsInOrder(b[|a|..], lo, mid) && CallsInOrder(c[|b|..], mid, hi)
    ensures CallsInOrder(c[|a|..], lo, hi)
  {
    assert c == b + c[|b|..];
    assert c[|a|..] == b[|a|..] + c[|b|..];
    CallsInOrderAppend(b[|a|..], c[|b|..], lo, mid, hi);
  }

  /** The schemas are run in catalogue order, and once one is abandoned no
      later schema is called: the calls a run adds name the schemas from
      `next` on, never going back, and stop at the abandoned schema. */
  lemma {:induction false} RunCatalogueOrder(maxRetries: nat, delay: nat, count: nat, next: nat, run: Run, backend: nat -> Response)
    requires next <= count
    ensures var r := RunCatalogue(maxRetries, delay, count, next, run, backend);
      && |run.events| <= |r.run.events|
      && CallsInOrder(r.run.events[|run.events|..], next, if r.Abandoned? then r.schema + 1 else count)
    decreases count - next
  {
    var r := RunCatalogue(maxRetries, delay, count, next, run, backend);
    if next < count && maxRetries > 0 {
      var tried := TrySchema(maxRetries, delay, next, 0, run, backend);
      TrySchemaOrder(maxRetries, delay, next, run, backend);
      if tried.Succeeded? {
        var after := tried.run;
        RunCatalogueOrder(maxRetries, delay, count, next + 1, after, backend);
        RunCatalogueLog(maxRetries, delay, count, next + 1, after, backend);
        assert r == RunCatalogue(maxRetries, delay, count, next + 1, after, backend);
        CallsInOrderChain(run.events, after.events, r.run.events, next, next + 1, if r.Abandoned? then r.schema + 1 else count);
      } else {
        assert r.run == tried.run;
      }
    } else {
      assert r.run.events[|run.events|..] == [];
    }
  }

  datatype ExtractError =
    | NoInput                                      // falsy `file_input`
    | UploadFailed(reason: GeminiService.UploadError)
    | SchemaExhausted(schema: string)              // a schema failed every attempt
    | MissingIdentity                              // falsy company name or reporting year
    | MetadataNotObject                            // `report_metadata` is not a dict: `.get` raises

  /** The document the tool returns: "_id", "year", "esg_report" and
      "token_usage". */
  datatype Extracted = Extracted(companyId: Value, year: string, report: Object, usage: Tally)

  /** The tail of the tool: read the company's legal name and reporting year
      out of the merged "report_metadata" and build the document. */
  function IdentityGate(merged: Object, usage: Tally, repr: Value -> string): (r: Result<Extracted, ExtractError>)
    ensures r == Err(MetadataNotObject) <==> "report_metadata" in merged && !merged["report_metadata"].Obj?
    ensures r.Ok? ==> "report_metadata" in merged && merged["report_metadata"].Obj?
    ensures r.Ok? ==> var meta := merged["report_metadata"].fields;
      && "company_legal_name" in meta && Truthy(meta["company_legal_name"])
      && "reporting_year" in meta && Truthy(meta["reporting_year"])
      && r.value == Extracted(meta["company_legal_name"], PyStr(meta["reporting_year"], repr), merged, usage)
    ensures r.Err? && r.error != MetadataNotObject ==> r.error == MissingIdentity
    ensures ("report_metadata" in merged && merged["report_metadata"].Obj?
      && var meta := merged["report_metadata"].fields;
      && "company_legal_name" in meta && Truthy(meta["company_legal_name"])
      && "reporting_year" in meta && Truthy(meta["reporting_year"])) ==> r.Ok?
  {
    match GetOr(merged, "report_metadata", Obj(map[]))
    case Obj(meta) =>
      var name := Get(meta, "company_legal_name");
      var year := Get(meta, "reporting_year");
      if !Truthy(name) || !Truthy(year) then Err(MissingIdentity)
      else Ok(Extracted(name, PyStr(year, repr), merged, usage))
    case _ => Err(MetadataNotObject)
  }

  /** Everything after a successful upload: the schema loop, then the
      identity gate on what it merged. */
  function ExtractUploaded(maxRetries: nat, delay: nat, catalogue: seq<string>, backend: nat -> Response, repr: Value -> string): (r: (Result<Extracted, ExtractError>, Run))
    ensures r.0.Err? ==> !r.0.error.NoInput? && !r.0.error.UploadFailed?
    ensures r.1.calls <= maxRetries * |catalogue|
    ensures r.1.tally == TallyFrom(NoTokens, backend, 0, r.1.calls)
    ensures r.0.Ok? ==> r.0.value.usage == r.1.tally && r.0.value.report == MergeFrom(map[], backend, 0, r.1.calls)
    ensures r.0.Ok? && maxRetries > 0 ==> CountAccepted(backend, 0, r.1.calls) == |catalogue|
    ensures r.0.Err? && r.0.error.SchemaExhausted? ==> r.0.error.schema in catalogue && maxRetries <= r.1.calls
    ensures forall k :: 0 <= k < |r.1.events| ==> EventWithin(r.1.events[k], maxRetries, delay, |catalogue|)
    ensures r.1 == RunCatalogue(maxRetries, delay, |catalogue|, 0, StartRun, backend).run
    ensures !(r.0.Err? && r.0.error.SchemaExhausted?) ==>
      r.0 == IdentityGate(MergeFrom(map[], backend, 0, r.1.calls), r.1.tally, repr)
    ensures !(r.0.Err? && r.0.error.SchemaExhausted?) && maxRetries > 0 ==> CountAccepted(backend, 0, r.1.calls) == |catalogue|
    ensures r.0.Err? && r.0.error.SchemaExhausted? ==>
      forall c :: r.1.calls - maxRetries <= c < r.1.calls ==> !Accepted(backend(c))
  {
    RunCatalogueLog(maxRetries, delay, |catalogue|, 0, StartRun, backend);
    RunCatalogueOutcome(maxRetries, delay, |catalogue|, 0, StartRun, backend);
    match RunCatalogue(maxRetries, delay, |catalogue|, 0, StartRun, backend)
    case Abandoned(i, run) => (Err(SchemaExhausted(catalogue[i])), run)
    case Completed(run) => (IdentityGate(run.merged, run.tally, repr), run)
  }

  /** A truthy input whose upload succeeded, so the schema loop runs. */
  predicate Uploaded(input: GeminiService.FileInput, remote: set<string>, transferOk: bool) {
    GeminiService.InputTruthy(input) && GeminiService.UploadFile(input, None, remote, transferOk).Ok?
  }

  /** The whole tool for a given retry budget and schema list.  The uploaded
      file is looked up in (or added to) `remote`; `transferOk` says whether
      a fresh upload succeeds.  The run that was performed comes back with
      the verdict. */
  function ExtractWith(maxRetries: nat, delay: nat, catalogue: seq<string>, input: GeminiService.FileInput,
                       remote: set<string>, transferOk: bool, backend: nat -> Response, repr: Value -> string): (r: (Result<Extracted, ExtractError>, Run))
    ensures r.0 == Err(NoInput) <==> !GeminiService.InputTruthy(input)
    ensures (r.0.Err? && r.0.error.UploadFailed?) <==>
      GeminiService.InputTruthy(input) && GeminiService.UploadFile(input, None, remote, transferOk).Err?
    ensures r.0.Err? && (r.0.error.NoInput? || r.0.error.UploadFailed?) ==> r.1 == StartRun
    ensures r.1.calls <= maxRetries * |catalogue|
    ensures r.1.tally == TallyFrom(NoTokens, backend, 0, r.1.calls)
    ensures r.0.Ok? ==> r.0.value.usage == r.1.tally && r.0.value.report == MergeFrom(map[], backend, 0, r.1.calls)
    ensures r.0.Ok? && maxRetries > 0 ==> CountAccepted(backend, 0, r.1.calls) == |catalogue|
    ensures r.0.Err? && r.0.error.SchemaExhausted? ==> r.0.error.schema in catalogue && maxRetries <= r.1.calls
    ensures forall k :: 0 <= k < |r.1.events| ==> EventWithin(r.1.events[k], maxRetries, delay, |catalogue|)
    ensures Uploaded(input, remote, transferOk) ==> r.1 == RunCatalogue(maxRetries, delay, |catalogue|, 0, StartRun, backend).run
    ensures Uploaded(input, remote, transferOk) && !(r.0.Err? && r.0.error.SchemaExhausted?) ==>
      r.0 == IdentityGate(MergeFrom(map[], backend, 0, r.1.calls), r.1.tally, repr)
    ensures Uploaded(input, remote, transferOk) && !(r.0.Err? && r.0.error.SchemaExhausted?) && maxRetries > 0 ==>
      CountAccepted(backend, 0, r.1.calls) == |catalogue|
    ensures r.0.Err? && r.0.error.SchemaExhausted? ==>
      forall c :: r.1.calls - maxRetries <= c < r.1.calls ==> !Accepted(backend(c))
  {
    MulMonotone(maxRetries, 0, |catalogue|);
    if !GeminiService.InputTruthy(input) then (Err(NoInput), StartRun)
    else if GeminiService.UploadFile(input, None, remote, transferOk).Err? then
      (Err(UploadFailed(GeminiService.UploadFile(input, None, remote, transferOk).error)), StartRun)
    else ExtractUploaded(maxRetries, delay, catalogue, backend, repr)
  }

  function ExtractEmissionData(input: GeminiService.FileInput, remote: set<string>, transferOk: bool,
                               backend: nat -> Response, repr: Value -> string): (r: (Result<Extracted, ExtractError>, Run))
    ensures r.1.calls <= 24
    ensures forall k :: 0 <= k < |r.1.events| && r.1.events[k].Sleep? ==> r.1.events[k].seconds <= 120
    ensures r.0.Ok? ==> CountAccepted(backend, 0, r.1.calls) == 8
    ensures r.0.Err? && r.0.error.SchemaExhausted? ==> r.0.error.schema in ResponseSchemas && 3 <= r.1.calls
  {
    ExtractWith(MaxRetries, RetryDelaySeconds, ResponseSchemas, input, remote, transferOk, backend, repr)
  }

  /** With the configured settings, an uploaded report is answered by the
      identity gate on the merged replies unless one of the eight schemas
      failed its last 3 attempts. */
  lemma ExtractEmissionDataRunsLoop(input: GeminiService.FileInput, remote: set<string>, transferOk: bool,
                                    backend: nat -> Response, repr: Value -> string)
    ensures var r := ExtractEmissionData(input, remote, transferOk, backend, repr);
      Uploaded(input, remote, transferOk) && !(r.0.Err? && r.0.error.SchemaExhausted?) ==>
        r.0 == IdentityGate(MergeFrom(map[], backend, 0, r.1.calls), r.1.tally, repr)
    ensures var r := ExtractEmissionData(input, remote, transferOk, backend, repr);
      r.0.Err? && r.0.error.SchemaExhausted? ==> forall c :: r.1.calls - 3 <= c < r.1.calls ==> !Accepted(backend(c))
  {
  }

  /** A backend that never yields a JSON object makes the first schema use up
      its attempts, and nothing after it is asked. */
  lemma NeverAcceptedExhaustsFirstSchema(maxRetries: nat, delay: nat, catalogue: seq<string>, input: GeminiService.FileInput,
                                         remote: set<string>, transferOk: bool, backend: nat -> Response, repr: Value -> string)
    requires maxRetries > 0 && catalogue != []
    requires GeminiService.InputTruthy(input) && GeminiService.UploadFile(input, None, remote, transferOk).Ok?
    requires forall c :: !Accepted(backend(c))
    ensures var r := ExtractWith(maxRetries, delay, catalogue, input, remote, transferOk, backend, repr);
      r.0 == Err(SchemaExhausted(catalogue[0])) && r.1.calls == maxRetries
  {
    var tried := TrySchema(maxRetries, delay, 0, 0, StartRun, backend);
    assert tried.Exhausted?;
  }

  /** A backend that always yields a JSON object is asked once per schema,
      and the run never sleeps. */
  lemma AlwaysAcceptedOneCallPerSchema(maxRetries: nat, delay: nat, count: nat, next: nat, run: Run, backend: nat -> Response)
    requires maxRetries > 0 && next <= count
    requires forall c :: Accepted(backend(c))
    ensures var r := RunCatalogue(maxRetries, delay, count, next, run, backend);
      r.Completed? && r.run.calls == run.calls + (count - next)
      && forall k :: |run.events| <= k < |r.run.events| ==> !r.run.events[k].Sleep?
    decreases count - next
  {
    if next < count {
      var tried := TrySchema(maxRetries, delay, next, 0, run, backend);
      TrySchemaEvents(maxRetries, delay, next, 0, run, backend);
      assert tried.Succeeded? && tried.run.calls == run.calls + 1;
      assert tried.run.events == run.events + [Call(next, 1, true)];
      AlwaysAcceptedOneCallPerSchema(maxRetries, delay, count, next + 1, tried.run, backend);
      RunCatalogueLog(maxRetries, delay, count, next + 1, tried.run, backend);
      var r := RunCatalogue(maxRetries, delay, count, next + 1, tried.run, backend);
      assert RunCatalogue(maxRetries, delay, count, next, run, backend) == r;
      forall k | |run.events| <= k < |r.run.events|
        ensures !r.run.events[k].Sleep?
      {
        if k < |tried.run.events| {
          assert r.run.events[k] == tried.run.events[k];
        }
      }
    }
  }
}
