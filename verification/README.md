# ESG data extraction agent — a Dafny model of its deterministic core

The ESG Data Extraction Agent turns a company's sustainability report (a PDF) into
structured ESG data. It uploads the report to Gemini and asks for eight response
schemas one after another, retrying with a linear back-off. It merges the JSON
objects that come back and totals the token usage. It then stores the merged report
in MongoDB under `esg_reports.<year>` of the company's document. Around this sit
name sanitisers, a GICS taxonomy flattener, the classification and peer-search
prompt builders, and two small validators.

This project models that core as pure functions over immutable values:

- **Values.** A decoded JSON or Python value is `PyValues.Value`, with Python
  truthiness and `str()`.
- **Gemini.** The model backend is an oracle `nat -> Response`, indexed by the
  global call number. Each call yields a transport failure, or an optional usage
  triple plus a text outcome: empty, unparsable, a non-object, or an object.
  Sleeping becomes a `Sleep` entry in the run's log.
- **Uploads.** The remote file list is a set of names. Whether a fresh transfer
  succeeds is a parameter.
- **MongoDB.** The store is a map from company `_id` to that company's year slots.
  `update_one` with one `$set` path and `upsert=True` is `ReportStore.SetYearSlot`.
  One store behaviour is stated as part of that function's contract: setting a value
  equal to the stored one acknowledges a modified count of 0.

Modules follow the source files:

| module | models |
|---|---|
| `Results`, `PyValues`, `Text` | Option/Result; Python values, truthiness, `str()`; `strip`, `join`, `replace` |
| `CommonFunctions` | `src/backend/utils/common_functions.py` |
| `GeminiService` | `sanitize_file_name` and the naming and reuse logic of `upload_file` |
| `ReportStore` | the abstract document store and the status derived from a write |
| `MongoDbService` | `sanitize_collection_name`, `upsert_esg_report`, the query built by `retrieve_documents` |
| `SystemPrompts` | `flatten_gics_schema`, `build_company_classification_prompt`, the sections of `build_peer_prompt` |
| `Extraction` | `extract_emission_data_as_json` |
| `Tool` | the tool-level `upsert_esg_report` and the peer-count defaulting of `get_peer_companies` |

## Model

| member | source | states |
|---|---|---|
| PyValues.NatToDecimal | src/backend/services/mongo_db_service.py:373 | `str()` of a non-negative integer is a non-empty string of digits with no leading zero unless the number is 0 |
| PyValues.DecimalRoundTrip | src/backend/services/mongo_db_service.py:373 | reading the decimal text of `str(n)` back gives `n`, so the year text loses nothing |
| PyValues.IntToDecimalInjective | src/backend/tools/tool.py:216 | two integer years with the same `str()` text are equal, so distinct integer years get distinct slots |
| Text.TrimStart | src/backend/services/gemini_service.py:76 | `lstrip`: the result is a suffix, every dropped character is in the strip set, and the first kept one is not |
| Text.TrimEnd | src/backend/services/mongo_db_service.py:36 | `rstrip`: the result is a prefix, every dropped character is in the strip set, and the last kept one is not |
| Text.Trim | src/backend/utils/system_prompts.py:271 | `strip`: the result is a slice of the input whose ends are kept characters (or it is empty), with every character before and after the slice in the strip set |
| Text.StripOfUnique | src/backend/utils/common_functions.py:15 | at most one text is such a stripped slice of a given input, so the slice description determines `strip` |
| Text.TrimUnchanged | src/backend/utils/common_functions.py:15 | stripping a string with no strippable character at either end returns it unchanged |
| Text.LastIndexOf | src/backend/services/gemini_service.py:142-146 | the position of the last occurrence, or -1; no later position holds the character |
| Text.BeforeFirst | src/backend/services/gemini_service.py:142 | `s.split("?")[0]`: the longest prefix without the separator, ending where the separator occurs |
| Text.JoinSuffix | src/backend/utils/system_prompts.py:152 | from the offset of part k on, `sep.join(parts)` is the join of the parts from k on |
| Text.JoinOffsetStep | src/backend/utils/system_prompts.py:152 | the offset of part k+1 is the offset of part k plus its length plus one separator |
| Text.JoinPart | src/backend/utils/system_prompts.py:152 | part k sits at its offset, followed by the separator unless it is the last part, which ends the join |
| Text.JoinEmbedsParts | src/backend/utils/system_prompts.py:152 | every part sits at its offset in the join, and consecutive offsets are one part and one separator apart |
| CommonFunctions.IsValidMetadata | src/backend/utils/common_functions.py:3-9 | true exactly for a dict holding all six fields company_name, sector, industry, headquarters, country and region; any non-dict is rejected |
| CommonFunctions.ExtraFieldsKeepMetadataValid | src/backend/utils/common_functions.py:8 | adding keys to valid metadata never makes it invalid |
| CommonFunctions.RemoveFences | src/backend/utils/common_functions.py:15 | ``re.sub(r"```(?:json)?", "", s)`` leaves no triple backtick, never lengthens the text, and keeps a leading character that does not start a fence |
| CommonFunctions.RemoveFencesKeepsText | src/backend/utils/common_functions.py:15 | fence-free text not ending in a backtick passes the substitution unchanged in front of whatever follows it |
| CommonFunctions.FencesAroundBody | src/backend/utils/common_functions.py:15 | for a fence-free body not ending in a backtick, removing an opening fence (tagged json or bare) and the closing fence leaves the body between the newline after the opening and the one before the closing |
| CommonFunctions.StripDebris | src/backend/utils/common_functions.py:15 | ``strip("` \n")`` of fence-free text stays fence-free and is the one slice that has no backtick, space or newline at its ends and only those characters outside it |
| CommonFunctions.CleanJsonOutput | src/backend/utils/common_functions.py:11-16 | the output has no triple backtick, no backtick, space or newline at either end, and is exactly the stripped slice of the fence-removed text |
| CommonFunctions.RemoveFencesUnchanged | src/backend/utils/common_functions.py:15 | text with no triple backtick passes the fence removal unchanged |
| CommonFunctions.CleanJsonOutputUnchanged | src/backend/utils/common_functions.py:15 | text with no fence and no backtick, space or newline at its ends is returned unchanged |
| CommonFunctions.CleanJsonOutputIdempotent | src/backend/utils/common_functions.py:11-16 | cleaning twice equals cleaning once |
| CommonFunctions.CleanFencedReply | src/backend/utils/common_functions.py:11-16 | a fenced JSON reply, tagged `json` or bare, comes back as exactly the text inside the fences when that text has no fence and no debris at its ends |
| GeminiService.LowerAscii | src/backend/services/gemini_service.py:74 | a lowered character is a slug character exactly when the original is an ASCII letter or digit |
| GeminiService.Lower | src/backend/services/gemini_service.py:74 | `name.lower()` keeps the length and lowers character by character |
| GeminiService.DashRuns | src/backend/services/gemini_service.py:74 | the substitution leaves only [a-z0-9-], never two dashes in a row, the same letters and digits in order, and starts with the input's first character or a dash |
| GeminiService.DashRunsIsSqueeze | src/backend/services/gemini_service.py:74 | the substitution equals an independent left-to-right squeeze that writes one dash per maximal run of other characters |
| GeminiService.SqueezeSkipsRun | src/backend/services/gemini_service.py:74 | inside a run, skipping the rest of the run changes nothing in the squeeze |
| GeminiService.SlugCharsEmpty | src/backend/services/gemini_service.py:78-79 | a text has no letters or digits exactly when it holds no slug character |
| GeminiService.SlugCharsSkipRun | src/backend/services/gemini_service.py:74 | dropping a leading run of non-slug characters keeps the letters and digits |
| GeminiService.DashRunsUnchanged | src/backend/services/gemini_service.py:74 | a text already made of [a-z0-9-] with no double dash passes the substitution unchanged |
| GeminiService.PyPrefix | src/backend/services/gemini_service.py:76 | `s[:n]` is a prefix of length min(n, len) for n ≥ 0, and len + n (at least 0) for negative n |
| GeminiService.SanitizeFileName | src/backend/services/gemini_service.py:53-81 | an empty name is rejected; a result is lowercase [a-z0-9-] with no double dash, does not start or end with '-', fits max_length, is a prefix of the stripped substitution no longer than its `[:max_length]` cut (negative lengths cut from the end), and everything between its end and the cut is dashes; a non-empty name is rejected as empty after cleanup exactly when the cut is all dashes, which for max_length ≥ 1 means the name has no ASCII letter or digit |
| GeminiService.SanitizeShape | src/backend/services/gemini_service.py:76 | strip, cut and right-strip keep the slug shape and yield a prefix of the stripped text |
| GeminiService.SanitizeEmptiness | src/backend/services/gemini_service.py:78-79 | with max_length ≥ 1, the cleaned name is empty exactly when the input has no ASCII letter or digit |
| GeminiService.SanitizeFileNameIdempotent | src/backend/services/gemini_service.py:53-81 | for the same non-negative max_length, sanitising a sanitised name returns it unchanged |
| GeminiService.WellFormedNameKept | src/backend/services/gemini_service.py:53-81 | a lowercase [a-z0-9-] name with no double dash and no dash at either end that fits max_length is returned unchanged |
| GeminiService.Basename | src/backend/services/gemini_service.py:144 | `os.path.basename`: the longest suffix without '/' |
| GeminiService.SplitExtRoot | src/backend/services/gemini_service.py:150 | `os.path.splitext(p)[0]`: a prefix that, when shorter, ends at a dot of the last component not preceded only by dots; when a non-dot character of the last component precedes its last dot, the root ends exactly at that dot |
| GeminiService.SourceName | src/backend/services/gemini_service.py:138-148 | an explicit truthy name is used as given; otherwise a URL gives the basename of its text before '?', another path string its basename, a named file object the basename of its name; raw bytes or an unnamed object is an error |
| GeminiService.RemoteKey | src/backend/services/gemini_service.py:150-154 | the key is "files/" followed by the sanitised extension-less source name, a well-formed stem of at most 40 characters; a naming or sanitising error propagates |
| GeminiService.RemoteKeyStemReused | src/backend/services/gemini_service.py:150-154 | passing a derived key's stem back as the file name yields the same key |
| GeminiService.UploadFile | src/backend/services/gemini_service.py:137-158 | a key already among the remote files returns that file with no transfer; otherwise the file is uploaded under the key, or the upload fails |
| GeminiService.UploadIdempotent | src/backend/services/gemini_service.py:154-158 | uploading the same reference again returns the same handle and transfers nothing, whatever the transfer would do |
| ReportStore.SetYearSlot | src/backend/tools/tool.py:219-228 | `$set esg_reports.<year>` with upsert touches only that slot of that company: other years and other companies are unchanged; a new document is created with just that slot; an equal value is acknowledged with modified count 0 |
| ReportStore.StatusOf | src/backend/tools/tool.py:230-235 | "inserted" iff `upserted_id` is truthy, else "updated" iff the modified count is positive, else "unchanged" |
| ReportStore.WriteStatus | src/backend/tools/tool.py:224-235 | in store terms: inserted iff the company was absent and its id truthy; updated iff it was present with a different or missing value for the year; unchanged otherwise |
| ReportStore.SetYearSlotIdempotent | src/backend/tools/tool.py:224-235 | writing the same slot twice leaves the store as the first write left it and reports "unchanged" |
| MongoDbService.DropNulDollar | src/backend/services/mongo_db_service.py:35 | the output has no NUL or '$' and is the input when it had none; one character is dropped exactly when it is NUL or '$' |
| MongoDbService.DropNulDollarAppend | src/backend/services/mongo_db_service.py:35 | the removal works character by character: removing from a concatenation concatenates the removals, so the kept characters stay in order |
| MongoDbService.ReplaceSystemDots | src/backend/services/mongo_db_service.py:38 | `str.replace("system.", "system_")` equals the position-wise reference |
| MongoDbService.SanitizeCollectionName | src/backend/services/mongo_db_service.py:26-39 | the output has no NUL or '$', does not end in '.' or whitespace, does not start with "system.", and is no longer than the input; it is exactly the cleaned name when that does not start with "system.", and has every "system." replaced when it does |
| MongoDbService.SanitizeCollectionNameIdempotent | src/backend/services/mongo_db_service.py:26-39 | sanitising twice equals sanitising once |
| MongoDbService.UpsertEsgReport | src/backend/services/mongo_db_service.py:350-414 | a document missing any of _id, year, esg_report is rejected with exactly the missing keys and no write; otherwise only `esg_reports.<str(year)>` of that company is set, and the status is inserted, updated or unchanged as in `ReportStore.WriteStatus` |
| MongoDbService.RetrieveQuery | src/backend/services/mongo_db_service.py:229-237 | the company filter is added iff the name is truthy, the year filter iff a year is given (so year 0 filters), other query keys are kept, and the projection is `{_id: 1}` iff only ids are asked for |
| SystemPrompts.FlattenNodes | src/backend/utils/system_prompts.py:104-121 | the lines form a pre-order walk (first at the current depth, never shallower, at most one level deeper per step) with exactly one line per item at the current depth, the first being the first node's; an item that is not a dict fails |
| SystemPrompts.NodeLines | src/backend/utils/system_prompts.py:105-121 | one node's lines start with its own line at its depth and form a walk with exactly one line at that depth |
| SystemPrompts.FlattenNodesAppend | src/backend/utils/system_prompts.py:104-121 | the lines of two sibling lists are the lines of the first followed by those of the second, and fail when either fails |
| SystemPrompts.FlattenNodesSingle | src/backend/utils/system_prompts.py:105-121 | a sub-industry node gives its own line only; a higher node gives its own line followed by the lines of its child list one level deeper, and fails when they fail |
| SystemPrompts.NodeLinesNames | src/backend/utils/system_prompts.py:105-121 | a node contributes exactly one line at its own depth, carrying its name |
| SystemPrompts.FlattenNodesNames | src/backend/utils/system_prompts.py:104-121 | the names at the current depth are the items' names in order, "Unknown ..." where a node has no "name" |
| SystemPrompts.FlattenGicsSchema | src/backend/utils/system_prompts.py:97-123 | a schema without "Sectors" gives ""; a "Sectors" value that is not a list is the ValueError; otherwise it succeeds exactly when the sector walk does, and the text is the newline join of that walk's rendered lines |
| SystemPrompts.OtherKeysIgnored | src/backend/utils/system_prompts.py:105-118 | a key other than "name" and the level's child key does not change the output |
| SystemPrompts.BuildCompanyClassificationPrompt | src/backend/utils/system_prompts.py:125-154 | exactly a system then a user message; the system text embeds the flattened schema between the fixed opening and closing, the user text is the chunks joined by a blank line, and a flattening error propagates |
| SystemPrompts.SystemTextEmbeds | src/backend/utils/system_prompts.py:141-148 | the system text splits back into the fixed opening, the flattened schema, and the fixed closing |
| SystemPrompts.ClassificationPromptEmbeds | src/backend/utils/system_prompts.py:125-154 | the flattened schema is a contiguous slice of the system text between the fixed opening and closing; every content chunk sits in the user text at its offset, in order, one blank line after the one before |
| SystemPrompts.PeerSteps | src/backend/utils/system_prompts.py:198-269 | the country step appears iff its count is positive, the region step iff its count is positive, the fallback step always and last, in step order, each with its own count |
| SystemPrompts.BuildPeerPrompt | src/backend/utils/system_prompts.py:271-272 | the prompt is the whitespace-stripped newline join of the section texts of `PeerSteps`; when no section text has whitespace at its ends it is that join unchanged |
| SystemPrompts.SolidTextsUnstripped | src/backend/utils/system_prompts.py:271 | stripping a newline join of texts with no whitespace at their ends changes nothing |
| Extraction.AddUsage | src/backend/tools/tool.py:123-127 | a call with usage adds its prompt, candidates and total counts, an absent count as 0; a call that raised or reported no usage leaves the totals unchanged |
| Extraction.TallyMonotone | src/backend/tools/tool.py:123-127 | over any run of calls the three token totals never decrease |
| Extraction.TallyFromCompose | src/backend/tools/tool.py:107-127 | totalling calls a..b and then b..c equals totalling a..c |
| Extraction.MergeFromCompose | src/backend/tools/tool.py:107-142 | merging the replies of calls a..b and then b..c equals merging a..c |
| Extraction.CountAcceptedCompose | src/backend/tools/tool.py:107-144 | accepted replies of a..b plus those of b..c are those of a..c |
| Extraction.MergeLastWriterWins | src/backend/tools/tool.py:142 | a key holds the value of the last accepted reply that carries it |
| Extraction.MergeUntouched | src/backend/tools/tool.py:142 | a key no accepted reply carries keeps its earlier value or stays absent |
| Extraction.RetryTraceShape | src/backend/tools/tool.py:111-153 | one schema's log alternates calls and sleeps; attempt numbers count up from 1, the k-th failure sleeps delay·k, and only the last call may be accepted |
| Extraction.RetryTraceWithin | src/backend/tools/tool.py:111-153 | every entry of one schema's log has attempt number at most MAX_RETRIES and sleeps at most delay·(MAX_RETRIES − 1) |
| Extraction.TrySchema | src/backend/tools/tool.py:111-153 | one schema makes between 1 and the remaining attempts; it succeeds iff the last reply is accepted; exhaustion uses every attempt |
| Extraction.TrySchemaRetries | src/backend/tools/tool.py:145-153 | a failed attempt with attempts left is followed by the same loop on the run that counted its usage and logged the call and the back-off |
| Extraction.TrySchemaFolds | src/backend/tools/tool.py:121-142 | the totals and merged map after one schema are the call-order folds over exactly the calls it made |
| Extraction.TrySchemaOutcome | src/backend/tools/tool.py:138-153 | all calls for one schema but the last failed, so exactly one reply is accepted when it succeeds and none when it is exhausted |
| Extraction.TrySchemaEvents | src/backend/tools/tool.py:111-153 | the log of one schema's attempts is the independent retry log: failed calls each followed by a back-off of delay times their number |
| Extraction.TrySchemaLog | src/backend/tools/tool.py:111-153 | one schema's attempts only extend the log, with entries within the retry budget and back-off |
| Extraction.RunCatalogue | src/backend/tools/tool.py:107-153 | each schema costs at most MAX_RETRIES calls; the totals and merged map are the folds over all calls made; an abandoned run stops at a catalogue schema after at least MAX_RETRIES calls in all; with no attempts allowed nothing is called |
| Extraction.RunCatalogueOutcome | src/backend/tools/tool.py:107-153 | a completed run has exactly one accepted reply per schema; an abandoned run has one per schema before the exhausted one, whose last MAX_RETRIES calls all failed |
| Extraction.RunCatalogueLog | src/backend/tools/tool.py:107-153 | the log only grows, and every entry it gains names a catalogue schema and stays within the retry budget and back-off |
| Extraction.RetryTraceCallsOne | src/backend/tools/tool.py:111-153 | every call in one schema's retry log is for that schema |
| Extraction.TrySchemaOrder | src/backend/tools/tool.py:111-153 | one schema's attempts extend the log with calls for that schema only |
| Extraction.RunCatalogueOrder | src/backend/tools/tool.py:107-153 | the calls a run adds go through the schemas in catalogue order, never back to an earlier one, and none names a schema after an abandoned one |
| Extraction.IdentityGate | src/backend/tools/tool.py:155-168 | a result exists iff report_metadata is a dict with truthy company_legal_name and reporting_year; then `_id` is the name verbatim, `year` is str(reporting_year), and `esg_report` is the whole merged map; metadata that is not a dict raises |
| Extraction.ExtractUploaded | src/backend/tools/tool.py:107-168 | after a successful upload the run is the schema loop over the catalogue; unless a schema is exhausted, the result is the identity gate applied to the fold of all replies and the token totals, behind one accepted reply per schema when attempts are allowed; an exhausted schema is named and its last MAX_RETRIES calls all failed; at most MAX_RETRIES calls per schema, and every log entry is within the settings |
| Extraction.ExtractWith | src/backend/tools/tool.py:48-168 | a falsy input yields None with no upload and no call; a failed upload yields None with no call; once a truthy input is uploaded, the run is the schema loop over the catalogue and, unless a schema is exhausted, the answer is the identity gate on the merged replies and the token totals, behind one accepted reply per schema when attempts are allowed; an exhausted schema is named and its last MAX_RETRIES calls all failed; the calls never exceed MAX_RETRIES per schema and the usage reported is the fold of all calls |
| Extraction.ExtractEmissionData | src/backend/tools/tool.py:32-41 | with the configured 3 attempts, 60 s delay and eight schemas: at most 24 calls, no sleep above 120 s, eight accepted replies behind every result, and an exhausted schema is one of the eight after at least 3 calls |
| Extraction.ExtractEmissionDataRunsLoop | src/backend/tools/tool.py:32-168 | with the configured settings, an uploaded report is answered by the identity gate on the merged replies unless a schema is exhausted, and an exhausted schema's last 3 calls all failed |
| Extraction.NeverAcceptedExhaustsFirstSchema | src/backend/tools/tool.py:150-152 | a backend that never yields an object exhausts the first schema after exactly MAX_RETRIES calls, and no later schema is tried |
| Extraction.AlwaysAcceptedOneCallPerSchema | src/backend/tools/tool.py:142-144 | a backend that always yields an object is called once per schema, and nothing sleeps |
| Tool.UpsertTool | src/backend/tools/tool.py:170-254 | missing keys are reported exactly, with no write; otherwise the write is the same as the service upsert's, the reply carries the service's status, id and year, and lists the report's keys; a report that is not a dict is still written and then answered with the error reply |
| Tool.ToDocument | src/backend/tools/tool.py:163-168 | the extracted document carries the three keys the upsert requires, plus token_usage |
| Tool.ExtractedDocumentStored | src/backend/tools/tool.py:163-244 | an extracted document is always written under its company name and year, and the reply lists exactly the report's keys |
| Tool.UpsertTwiceUnchanged | src/backend/tools/tool.py:224-244 | upserting the same document twice leaves the store as the first call left it, and the second reply is "unchanged" |
| Tool.YearsCoexist | src/backend/tools/tool.py:215-228 | reports of two different years of one company sit side by side after both writes |
| Tool.InsertThenUpdate | src/backend/tools/tool.py:224-235 | a new company with a truthy id is inserted; a different report for the same year afterwards is an update |
| Tool.DefaultPeerCounts | src/backend/tools/tool.py:346-355 | both absent gives (5, 5); a truthy count with a falsy other sets the other to 0; two given counts, both zero or both non-zero, become (5, 5) when both are ≤ 0 and are kept otherwise; a 0 paired with an absent count raises |
| Tool.ZeroCountryNoRegionRaises | src/backend/tools/tool.py:353 | (0, None) and (None, 0) reach `None <= 0` and raise |
| Tool.DefaultPeerCountsIntended | src/backend/tools/tool.py:346-355 | agrees with the source wherever it does not raise, and gives (5, 5) where it raises |
| Tool.IntendedCountsAskForPeers | src/backend/tools/tool.py:346-355 | with absent or non-negative counts, at least one count ends up positive |
| Tool.DefaultPeerCountsIdempotent | src/backend/tools/tool.py:346-355 | feeding the chosen counts back in keeps them |
| Tool.PeerPlan | src/backend/tools/tool.py:346-373 | with the corrected defaulting: the peer prompt always ends with the fallback step, holds the country and region steps for positive counts, and for absent or non-negative counts asks for country or region peers |
| Tool.PeerPlanAsWritten | src/backend/tools/tool.py:346-373 | as written: (0, None) and (None, 0) raise before any prompt exists, and every other pair gives the plan of the corrected defaulting |

## Findings

| source | as written | input that shows it | evidently intended | confidence | as-written member | corrected member |
|---|---|---|---|---|---|---|
| src/backend/tools/tool.py:353 | `num_country_peers <= 0 and num_region_peers <= 0` is reached with one count None and the other 0, and Python 3 raises TypeError on `None <= 0` before the try block | `get_peer_companies(metadata, num_country_peers=0)` (or `num_region_peers=0` alone) | a missing count compares as 0, so "both counts are 0" falls back to 5 and 5, as the log message says | not executed; high | Tool.ZeroCountryNoRegionRaises | Tool.DefaultPeerCountsIntended |

## Left out

- I/O and foreign services. The Gemini, OpenAI, Tavily and MongoDB clients, file downloads and local file reads, logging, and `time.sleep` are not modelled. Each becomes an oracle, a set, a store map or a log entry as described above.
- JSON parsing. `json.loads` is an oracle outcome, and no parser is modelled.
- Floating-point values. `Value` has no float case, so a float year or token count is not modelled.
- Extraction.TrySchema: a valid JSON value that is not an object counts as a failed attempt. In the source, `dict.update` raises for scalars, null and most strings. It merges a list of key/value pairs, and silently accepts `[]` or `""` as a success that adds nothing.
- Extraction.ExtractWith: the fallback from `response.text` to the first candidate's text is folded into the oracle's text outcome.
- Extraction.ExtractWith: the per-thread client cache (src/backend/tools/tool.py:46, 93-96) is not modelled, because it only reuses one client object.
- Extraction.ExtractWith: `upload_file` returning a falsy value without raising is not modelled, because the upload model either returns a file or fails.
- GeminiService.SanitizeFileName: lowercasing is ASCII-only. Python's `str.lower()` needs the Unicode case tables.
- GeminiService.SanitizeFileName: the non-string input check is covered by typing.
- PyValues.PyStr: `str()` of a list or dict (Python's repr, which depends on key order) is a parameter `repr`.
- ReportStore.SetYearSlot: a year text containing '.' is one slot here. MongoDB would read it as a deeper path.
- ReportStore.SetYearSlot: store errors (the except branches) are not modelled.
- ReportStore.SetYearSlot: two reports are equal when they hold the same keys and values in any order. MongoDB compares embedded documents field by field in order, so a re-extracted report with the same content in a different key order is a modification there, with modified count 1, and a no-op here.
- ReportStore.WriteStatus: for the same reason, such a reordered but equal report is "unchanged" here, while the source reports "updated".
- MongoDbService.UpsertEsgReport: the message texts are omitted, and so is the except-branch reply.
- Tool.UpsertTool: the missing and report key lists are sets, because their order follows Python set and dict iteration.
- Tool.UpsertTool: the error reply keeps only the id read from "company_id" and the year text.
- SystemPrompts.BuildPeerPrompt: the section texts are an opaque `template`, and `output_keys` is never used in the prompt.
- SystemPrompts.BuildCompanyClassificationPrompt: the GICS data itself (src/backend/models/gics_schema.py) is not part of this model, and any schema value is accepted.
- Tool.DefaultPeerCounts: negative counts are kept as written. For example, (−1, None) gives (−1, 0), which asks for no peers.
- Tool.PeerPlan: it uses the corrected defaulting, so it gives a plan for (0, None) and (None, 0), where the source raises. The as-written behaviour is Tool.PeerPlanAsWritten.
- Tool.PeerPlan: a falsy `metadata` returning `{}` is not modelled. The OpenAI call and its reply are not modelled either.
- `fetch_company_metadata` and `get_company_sustainability_report` are not modelled. They are search and classification calls with no logic beyond filtering the service's reply.
- `slugify_company` is not modelled, because it depends on transliteration tables.
- `upsert_document` and `store_document` are not modelled: one stamps the clock, the other matches whole documents.
- The rest of `retrieve_documents` (the `find` call and the `single` switch) is not modelled. `query or {}` is modelled as a fresh map; the source mutates the caller's dict.
