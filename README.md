# pydc_mem core, modelled in Dafny

pydc_mem keeps long-term "memory" facts about a user in a Data Cloud table of
attribute rows (`attribute__c`, `value__c`, `id__c`, ...). A language model
proposes candidate facts `(entity, attribute, value)`. The client reconciles
them with what is stored: it fetches the user's rows through the query
service, normalises the tabular reply into named rows, dedupes the candidates
by attribute key (last write wins), and for each one skips it, sends a create
or sends an update through the ingestion service. Every outcome goes into an
`UpsertReport`.

The project models that core in seven modules:

- `Common` (common.dfy): `Option`, `Result`, the JSON cell values, and a row
  as a map from column name to value.
- `Text` (text.dfy): the Python string operations used (`strip`, `lower`,
  `upper`, `in`, `endswith`, `join`, `split`), with their laws, and the
  narrower trim pydantic applies to `str` fields. `strip` removes what
  Python's `isspace` accepts: Unicode White_Space and the controls
  U+001C to U+001F. Pydantic's trim removes White_Space only.
- `Timestamps` (timestamps.dfy): the TIMESTAMP branch of the value coercion.
  It reads the `strptime` formats and ISO text, and writes the canonical
  `...Z` form.
- `ResultsParser` (results_parser.dfy): `_columns_from_metadata` (a stable
  sort by `placeInOrder`), `_coerce_value` and `parse_tabular_payload`.
  The loops of the latter are methods proved against `NamedRow`.
- `MemoryExtractor` (extractor.dfy): validation of `MemoryCandidate`, the
  `_to_pydantic_list` filter, `_format_dialogue`, `_format_bullets`,
  `_render_user_prompt` with the default template, and `_pick`.
- `MemoryClient` (memory_client.dfy): `_norm`, `_equal`, `_filter_eq`,
  `_status_err`, `fetch_user_attributes` and the last-write-wins dedupe.
- `Upsert` (upsert.dfy): the `UpsertReport` class, and the
  `UserAttributeClient` class whose `UpsertFromCandidates` runs the work loop.
  The loop is specified by the value functions `Step` and `Run`. The methods
  are proved to compute exactly `Run`, and lemmas state what `Run`
  guarantees.

The outside world is passed in as parameters indexed by the request number:
- `ingest(n)`: the ingestion reply;
- `ids(n)`: the `uuid7` row id;
- `clock(n)`: the `datetime.now()` text.

An exception that escapes the loop is an explicit `Failure`. The model has four:
- `IndexError`: rows were fetched but none carries the key.
- `KeyError`: the matched row has no `id__c`.
- `AttributeError`: the stored value is not a string, or an update got no reply.
- `JsonDecodeError`: an update's reply is not JSON.

`StepFailsExactly` proves that these are the only ways a step raises. Every
other reply, whatever its status, is recorded in the report.
`RunFailsAtFirst` lifts this to the whole loop.

The model follows the code where the code and its tests or docstrings part ways:
- `_filter_eq(...)[0]` raises `IndexError` when rows were fetched but none
  matches (src/pydc_mem/core/memory_client.py:157). The test at
  tests/test_memory_client.py:146-174 expects such an attribute to be
  added. `StepNoMatchRaises` states what the code does.
- An `INTEGER` column is not coerced (src/pydc_mem/util/memory_results_parser.py:73).
  The test at tests/test_utilities.py:236-237 expects `42.0`.
  `IntegerPassesThrough` states what the code does.
- After a successful create, line 176 writes `current[attr_key]` into the
  matched stored row (the same dict object), not into `value__c`. When no
  rows were fetched it writes into a throwaway `{}`. `CreateRepeats` states
  the consequence: the same candidate met again is created again.
- The update path calls `response.json()` before `_status_err` (line 244).
  A missing reply or a non-JSON body therefore raises instead of being
  reported.

## Model

| member | source | states |
|---|---|---|
| Text.StripTrims | src/pydc_mem/core/memory_client.py:306 | `strip` leaves no blank at either end and returns a slice of its input |
| Text.StripIdentity | src/pydc_mem/core/memory_client.py:306 | `strip` is the identity exactly on strings with no blank at either end |
| Text.StripIdempotent | src/pydc_mem/core/memory_client.py:306 | stripping twice is stripping once |
| Text.TrimTrims | src/pydc_mem/core/memory_extractor.py:27 | pydantic's trim leaves no White_Space at either end and returns a slice of its input |
| Text.TrimKeepsSeparators | src/pydc_mem/core/memory_extractor.py:27 | Python's `strip` removes a lone U+001F and pydantic's trim keeps it; both remove U+0020, U+00A0 and U+3000 |
| Text.SplitJoin | src/pydc_mem/core/memory_extractor.py:238 | splitting a `"\n".join` on newlines gives the parts back when no part holds a newline |
| Text.JoinContainsParts | src/pydc_mem/core/memory_extractor.py:244 | every part is contained in the joined string |
| Timestamps.PadValue | src/pydc_mem/util/memory_results_parser.py:57 | a zero-padded field reads back as the number written |
| Timestamps.ParseNaive | src/pydc_mem/util/memory_results_parser.py:54-56 | whatever parses is a datetime within the ranges `datetime` accepts |
| Timestamps.Strptime | src/pydc_mem/util/memory_results_parser.py:54-56 | a successful `strptime` reading is a valid datetime |
| Timestamps.FromIsoFormat | src/pydc_mem/util/memory_results_parser.py:62-63 | a successful `fromisoformat` reading is a valid datetime |
| Timestamps.CoerceTimestamp | src/pydc_mem/util/memory_results_parser.py:48-71 | a coerced timestamp is always the canonical `...Z` text of some valid datetime |
| Timestamps.ReplaceZNoZ | src/pydc_mem/util/memory_results_parser.py:62 | `replace("Z", "+00:00")` leaves text without `Z` unchanged |
| Timestamps.NaiveHasNoZ | src/pydc_mem/util/memory_results_parser.py:69 | the naive ISO text never contains `Z` |
| Timestamps.FracRoundTrip | src/pydc_mem/util/memory_results_parser.py:57 | the fraction `isoformat` writes reads back as the same microseconds |
| Timestamps.ParseWritten | src/pydc_mem/util/memory_results_parser.py:54-63 | date, separator, clock and a fraction denoting the microseconds parse back to the same datetime |
| Timestamps.ParseFormatNaive | src/pydc_mem/util/memory_results_parser.py:63-69 | reading what `isoformat` wrote gives the same datetime |
| Timestamps.CanonicalUnchanged | src/pydc_mem/util/memory_results_parser.py:61-69 | canonical `...Z` text coerces to itself |
| Timestamps.NaiveGetsZ | src/pydc_mem/util/memory_results_parser.py:65-69 | naive ISO text is read as UTC and comes back with `Z` appended |
| Timestamps.CoerceUtcReading | src/pydc_mem/util/memory_results_parser.py:52-57 | when the `" UTC"` form parses, its reading is the result |
| Timestamps.UtcSuffixForm | src/pydc_mem/util/memory_results_parser.py:49-57 | `YYYY-MM-DD HH:MM:SS[.f] UTC` becomes the canonical ISO text of that instant |
| Timestamps.CoerceIdempotent | src/pydc_mem/util/memory_results_parser.py:48-71 | coercing a coerced timestamp changes nothing |
| Timestamps.ExampleUtc | src/pydc_mem/util/memory_results_parser.py:49 | `2024-01-01 12:00:00.000 UTC` becomes `2024-01-01T12:00:00Z` |
| ResultsParser.SortByOrder | src/pydc_mem/util/memory_results_parser.py:39 | the sorted columns are a permutation of the input, ordered by `placeInOrder` |
| ResultsParser.SortStable | src/pydc_mem/util/memory_results_parser.py:39 | the sort is stable: columns with equal order keep their input sequence |
| ResultsParser.ColumnConversion | src/pydc_mem/util/memory_results_parser.py:36-37 | an absent order is 0 and an absent type "VARCHAR"; a null order raises; a null type reads "None"; a string type is kept; the name is the entry's key |
| ResultsParser.ColumnsFromMetadata | src/pydc_mem/util/memory_results_parser.py:32-40 | fails exactly when some entry's order does not convert; otherwise one column per entry, sorted stably by order, a permutation of the entries |
| ResultsParser.ColumnNamesDistinct | src/pydc_mem/util/memory_results_parser.py:32-40 | distinct metadata keys give distinct column names after sorting |
| ResultsParser.CoerceValue | src/pydc_mem/util/memory_results_parser.py:43-80 | null stays null; a TIMESTAMP string stays as is or becomes canonical `...Z` text; non-strings under TIMESTAMP and other non-numeric types pass through |
| ResultsParser.TimestampFallback | src/pydc_mem/util/memory_results_parser.py:48-71 | an unparseable timestamp is kept unchanged and nothing is raised |
| ResultsParser.IntegerPassesThrough | src/pydc_mem/util/memory_results_parser.py:73-80 | an INTEGER column is not coerced: `"42"` stays `"42"` |
| ResultsParser.NameRow | src/pydc_mem/util/memory_results_parser.py:115-121 | the named row has exactly one key per column, holding the (coerced) value at that position, or null past the end of a short row |
| ResultsParser.NameRows | src/pydc_mem/util/memory_results_parser.py:112-122 | one named row per positional row, in order |
| ResultsParser.CopyPresent | src/pydc_mem/util/memory_results_parser.py:129-131 | exactly the listed keys the payload has are copied; every other entry is kept |
| ResultsParser.ParseTabularPayload | src/pydc_mem/util/memory_results_parser.py:83-133 | fails exactly when the metadata does not convert; otherwise the result holds `columns` (names in sorted order), `rows` (one named row per data row) and the listed top-level keys the object has, `data` and `metadata` included, and nothing else |
| ResultsParser.RawCellsWithoutCoercion | src/pydc_mem/util/memory_results_parser.py:120-121 | with coercion off every cell is the raw positional value |
| MemoryExtractor.Validate | src/pydc_mem/core/memory_extractor.py:23-37 | a candidate validates only from an object with exactly the three string fields, each trimmed of White_Space and non-empty; a failure carries at least one issue |
| MemoryExtractor.ValidateExactly | src/pydc_mem/core/memory_extractor.py:27-37 | a row validates if and only if it has no issue |
| MemoryExtractor.BlankFieldRejected | src/pydc_mem/core/memory_extractor.py:27-36 | a field that is empty after pydantic's trim is refused with "must be non-empty" |
| MemoryExtractor.ExtraKeyRejected | src/pydc_mem/core/memory_extractor.py:27 | an undeclared key is refused (`extra="forbid"`) |
| MemoryExtractor.FieldsAreStripped | src/pydc_mem/core/memory_extractor.py:27 | surrounding White_Space is removed from every field |
| MemoryExtractor.SeparatorFieldKept | src/pydc_mem/core/memory_extractor.py:27-36 | a field holding only U+001F validates and keeps it, though Python's `strip` would empty it |
| MemoryExtractor.ValidCandidates | src/pydc_mem/core/memory_extractor.py:264-273 | the kept candidates are never more than the input rows |
| MemoryExtractor.ToCandidateList | src/pydc_mem/core/memory_extractor.py:264-273 | the loop keeps exactly the rows that validate, in input order |
| MemoryExtractor.ValidCandidatesAppend | src/pydc_mem/core/memory_extractor.py:266-272 | filtering distributes over concatenation, so input order is kept |
| MemoryExtractor.ValidCandidatesMembers | src/pydc_mem/core/memory_extractor.py:267-272 | a candidate is kept if and only if some input row validates to it |
| MemoryExtractor.ValidCandidatesSource | src/pydc_mem/core/memory_extractor.py:267-272 | every kept candidate comes from an input row that validates to it |
| MemoryExtractor.ValidCandidatesKeeps | src/pydc_mem/core/memory_extractor.py:267-272 | every row that validates reaches the output |
| MemoryExtractor.AllValidKept | src/pydc_mem/core/memory_extractor.py:267-272 | nothing is dropped when every row is valid |
| MemoryExtractor.FormatDialogue | src/pydc_mem/core/memory_extractor.py:224-238 | the loop returns the dialogue text, or the unpacking error, exactly as `DialogueText` defines them |
| MemoryExtractor.StringModeNeverFails | src/pydc_mem/core/memory_extractor.py:235-237 | when the first turn is not a tuple, formatting never fails |
| MemoryExtractor.OneLinePerTurn | src/pydc_mem/core/memory_extractor.py:232-238 | the dialogue text splits back into one rendered line per turn |
| MemoryExtractor.FormatBullets | src/pydc_mem/core/memory_extractor.py:240-244 | no items give the empty text; otherwise the text is non-empty |
| MemoryExtractor.BulletLines | src/pydc_mem/core/memory_extractor.py:240-244 | the bullet text splits back into one `- `-prefixed line per item, in order |
| MemoryExtractor.OrNone | src/pydc_mem/core/memory_extractor.py:213-215 | `x or "(none)"` is never empty and keeps a non-empty `x` |
| MemoryExtractor.SessionText | src/pydc_mem/core/memory_extractor.py:213 | the session text is empty exactly when there are no session variables |
| MemoryExtractor.RenderFailsOnlyOnDialogue | src/pydc_mem/core/memory_extractor.py:205-222 | rendering the prompt fails if and only if the dialogue cannot be formatted |
| MemoryExtractor.PromptVarsSection | src/pydc_mem/core/memory_extractor.py:213-222 | the session variables, or "(none)", sit between their header and the dialogue header |
| MemoryExtractor.PromptDialogueSection | src/pydc_mem/core/memory_extractor.py:214-222 | the dialogue lines, or "(none)", sit between their header and the facts header |
| MemoryExtractor.PromptFactsSection | src/pydc_mem/core/memory_extractor.py:215-222 | the fact bullets, or "(none)", sit between their header and the instruction |
| MemoryExtractor.PromptUtterance | src/pydc_mem/core/memory_extractor.py:217-222 | the trimmed utterance closes the instruction, in double quotes |
| MemoryExtractor.PromptShowsSessionVar | src/pydc_mem/core/memory_extractor.py:213 | every session variable appears in the prompt as `key=value` |
| MemoryExtractor.PromptShowsTurn | src/pydc_mem/core/memory_extractor.py:214 | every dialogue line appears in the prompt |
| MemoryExtractor.PromptShowsFact | src/pydc_mem/core/memory_extractor.py:215 | every past fact appears in the prompt as a bullet |
| MemoryExtractor.UtteranceTrimmed | src/pydc_mem/core/memory_extractor.py:221 | surrounding whitespace of the utterance never reaches the prompt |
| MemoryExtractor.Pick | src/pydc_mem/core/memory_extractor.py:275-277 | the default replaces only a missing value |
| MemoryExtractor.Or | src/pydc_mem/core/memory_extractor.py:141 | `model or self.model` is the default or a truthy given value |
| MemoryExtractor.PickVersusOr | src/pydc_mem/core/memory_extractor.py:141-143 | `_pick` and `or` differ exactly on a present falsy value other than the default |
| MemoryExtractor.ZeroOverrideKept | src/pydc_mem/core/memory_extractor.py:141-143 | a temperature of 0 is kept by `_pick` where `or` would replace it; an empty model name falls back to the configured one |
| MemoryClient.NormShape | src/pydc_mem/core/memory_client.py:300-302 | a normalised key has no space, no upper-case letter and no blank at either end, and keeps every other character, lower-cased |
| MemoryClient.NormIdempotent | src/pydc_mem/core/memory_client.py:300-302 | normalising twice is normalising once |
| MemoryClient.NormFixes | src/pydc_mem/core/memory_client.py:300-302 | a trimmed key with no upper-case letter and no space is already normal |
| MemoryClient.NormExampleSpaces | src/pydc_mem/core/memory_client.py:302 | `Preferred Airline` becomes `preferred_airline` |
| MemoryClient.NormExampleDash | src/pydc_mem/core/memory_client.py:302 | `meal-preference` is unchanged |
| MemoryClient.EqualIsEquivalence | src/pydc_mem/core/memory_client.py:304-306 | value comparison is reflexive, symmetric and transitive in either mode |
| MemoryClient.SensitiveImpliesInsensitive | src/pydc_mem/core/memory_client.py:304-306 | case-sensitive equality implies case-insensitive equality |
| MemoryClient.EqualIgnoresSurroundingSpace | src/pydc_mem/core/memory_client.py:306 | surrounding whitespace never affects the comparison |
| MemoryClient.EqualExample | src/pydc_mem/core/memory_client.py:306 | `"  Delta  "` equals `"DELTA"` case-insensitively, and `"Delta"` does not equal it case-sensitively |
| MemoryClient.FilteredSubset | src/pydc_mem/core/memory_client.py:203-220 | the filter keeps a sub-multiset of its input |
| MemoryClient.FilterEq | src/pydc_mem/core/memory_client.py:203-220 | the loop keeps exactly the matching rows, in input order |
| MemoryClient.FilteredMembers | src/pydc_mem/core/memory_client.py:216-219 | a row is kept if and only if it is in the input and matches |
| MemoryClient.FilteredAppend | src/pydc_mem/core/memory_client.py:215-220 | filtering distributes over concatenation |
| MemoryClient.MissingNeverMatches | src/pydc_mem/core/memory_client.py:209 | a row missing the field, or holding null, never matches a string target |
| MemoryClient.CaseFoldedMatch | src/pydc_mem/core/memory_client.py:211-214 | a string field matches if and only if the case-folded strings are equal |
| MemoryClient.FirstMatch | src/pydc_mem/core/memory_client.py:157 | the index found matches, no earlier row matches, and None means no row matches |
| MemoryClient.FirstMatchIsHead | src/pydc_mem/core/memory_client.py:157 | `[0]` of the filter raises exactly when there is no first match; otherwise it is the row at the first match |
| MemoryClient.FirstMatchFrame | src/pydc_mem/core/memory_client.py:184 | writing another field of a row does not move the first match |
| MemoryClient.StatusErr | src/pydc_mem/core/memory_client.py:287-298 | no reply gives no status and "request failed (no response)"; a reply gives its own status |
| MemoryClient.StatusErrConsistent | src/pydc_mem/core/memory_client.py:287-298 | success, a 2xx reply and the absence of an error text coincide |
| MemoryClient.StatusErrUsesErrorEntry | src/pydc_mem/core/memory_client.py:293-298 | a failed reply reports its JSON object's "error" entry ("None" without one), the rendering of any other JSON value, or the raw text of a non-JSON body |
| MemoryClient.FetchUserAttributes | src/pydc_mem/core/memory_client.py:111-118 | no reply, an undecodable one, or metadata whose order does not convert gives `[]`; otherwise one named, coerced row per data row |
| MemoryClient.KeysInOrder | src/pydc_mem/core/memory_client.py:143-147 | the dict's keys are distinct and are exactly the candidates' keys |
| MemoryClient.LastWith | src/pydc_mem/core/memory_client.py:144-146 | the value held under a key is the last candidate filed under it, and None means no candidate has the key |
| MemoryClient.Deduped | src/pydc_mem/core/memory_client.py:141-147 | one work item per distinct key |
| MemoryClient.DedupeLastWriteWins | src/pydc_mem/core/memory_client.py:141-147 | the dedupe loop yields the dict's values in first-appearance key order, each the last candidate for its key |
| MemoryClient.DedupedShape | src/pydc_mem/core/memory_client.py:141-147 | no two work items share a key, every input key is represented, each item is the last candidate with its key, and the list is never longer |
| MemoryClient.KeysPrefix | src/pydc_mem/core/memory_client.py:143-147 | keys keep their place of first appearance as more candidates are filed |
| MemoryClient.KeyCountBound | src/pydc_mem/core/memory_client.py:147 | there are never more keys than candidates |
| MemoryClient.NoDedupeKeepsAll | src/pydc_mem/core/memory_client.py:148-149 | without dedupe the work list is the input unchanged |
| Upsert.CountsSum | src/pydc_mem/core/memory_client.py:53-60 | the four tallies of a detail list add up to its length |
| Upsert.ReportTotals | src/pydc_mem/core/memory_client.py:53-60 | in a valid report `added + updated + skipped + errors == len(details)` |
| Upsert.UpsertReport.constructor | src/pydc_mem/core/memory_client.py:136 | a new report has the user id, zero counters and no details |
| Upsert.UpsertReport.Record | src/pydc_mem/core/memory_client.py:162-199 | appending a detail bumps exactly the counter of its kind, so every counter still counts its details |
| Upsert.StepAppends | src/pydc_mem/core/memory_client.py:151-200 | a completed pass appends exactly one detail, naming the item's key and trimmed value |
| Upsert.StepEffects | src/pydc_mem/core/memory_client.py:161-200 | a skip sends nothing and changes no row; an add sends one create with the user, tenant, key, trimmed value, id and time; an update sends one update with the new value; the reply's status and error are recorded |
| Upsert.StepDecision | src/pydc_mem/core/memory_client.py:157-190 | with a matched row: no stored value means add, an equal one means skip, a different one means update keyed by the row's `id__c` (each an if-and-only-if) |
| Upsert.StepEmptyStore | src/pydc_mem/core/memory_client.py:154-176 | with no rows fetched, every item is added and no row is written |
| Upsert.StepNoMatchRaises | src/pydc_mem/core/memory_client.py:156-157 | with rows fetched but none carrying the key, the pass raises IndexError before sending anything |
| Upsert.StepFailsExactly | src/pydc_mem/core/memory_client.py:151-200 | a step raises exactly on: no row carrying the key (IndexError); a non-string stored value (AttributeError); an update without `id__c` (KeyError), with no reply (AttributeError) or with a non-JSON body (JSONDecodeError). A create completes whatever the reply, and an update completes for any status of a JSON reply |
| Upsert.RunFailsAtFirst | src/pydc_mem/core/memory_client.py:151-200 | the items before the first raising step complete, that step's exception ends the run, and a run with no raising step completes |
| Upsert.RunDetails | src/pydc_mem/core/memory_client.py:151-200 | a completed run appends one detail per work item, in work-list order, each naming the item's key and trimmed value |
| Upsert.RunRequests | src/pydc_mem/core/memory_client.py:151-200 | every item that is not skipped sends exactly one request |
| Upsert.RunEmptyStore | src/pydc_mem/core/memory_client.py:154-181 | with no rows fetched the run completes, sends one create per item and reports every item as added |
| Upsert.RunAllCurrent | src/pydc_mem/core/memory_client.py:161-166 | when every value is already stored, everything is skipped and no request is sent |
| Upsert.StepSkipsCurrent | src/pydc_mem/core/memory_client.py:161-166 | an item whose value is already stored is skipped without sending or changing anything |
| Upsert.UpdateWritesThrough | src/pydc_mem/core/memory_client.py:184 | after an update the stored row holds the new value |
| Upsert.WriteThroughSkipsRepeat | src/pydc_mem/core/memory_client.py:184 | after an update, the same candidate met again is skipped and sends nothing |
| Upsert.CreateRepeats | src/pydc_mem/core/memory_client.py:176 | after an add on fetched rows, the same candidate met again is added again and sends another request |
| Upsert.UserAttributeClient.constructor | src/pydc_mem/core/memory_client.py:87-98 | the client keeps the tenant id |
| Upsert.UserAttributeClient.UpsertFromCandidates | src/pydc_mem/core/memory_client.py:120-201 | the report is fresh and valid for the user; its details, the requests sent and the escaping exception are those of `Run` over the work list |
| Upsert.UserAttributeClient.ProcessAll | src/pydc_mem/core/memory_client.py:151-200 | the loop computes `Run`: the same details, requests and exception, with the counters kept valid |
| Upsert.UserAttributeClient.ProcessCandidate | src/pydc_mem/core/memory_client.py:152-200 | one pass computes `Step`: lookup, comparison, then skip, create or update |
| Upsert.UserAttributeClient.CreateBranch | src/pydc_mem/core/memory_client.py:168-181 | the create branch sends the create, records it as added or as an error, and on success writes the value into the matched row |
| Upsert.UserAttributeClient.UpdateBranch | src/pydc_mem/core/memory_client.py:182-200 | the update branch writes the value into the row, raises KeyError without `id__c`, sends the update, raises on no reply or a non-JSON reply, and otherwise records it |

## Left out

- Transport: the query service and ingestion clients (util/query_svc.py, util/ingestion_client.py), HTTP and authentication are not part of this model. Replies are parameters (`QueryReply`, `Reply`). Those clients call `raise_for_status` and re-raise `httpx.HTTPStatusError` and `httpx.RequestError` (src/pydc_mem/util/ingestion_client.py:73-81, src/pydc_mem/util/query_svc.py:63-82). The code lets these escape from the query at src/pydc_mem/core/memory_client.py:112, ahead of the `try`, and from the ingestion calls at lines 236 and 243. The model has no such failure: a non-2xx reply reaches `_status_err`.
- `_search_all_memories` and `_search_relevant_memories`: SQL text building only. The fetch takes the reply to the query as given.
- `fetch_relevant_attributes`: it calls `resp.json()` before its `None` check and otherwise repeats `fetch_user_attributes`. It is not modelled.
- `uuid7()` and `datetime.now()`: modelled as the parameters `ids` and `clock`, indexed by request number. The two `now()` calls of one create are taken as one instant.
- The `print` calls are output only and are not modelled. The exception from `response.json()` at line 244 is modelled.
- `_parse_input`, `_parse_json_array` and the regex fallback: JSON and Python-literal decoding. Payloads and model rows are taken as already decoded.
- `_call_llm`, `extract`, `extract_dicts`, `extract_json` and the `MemoryExtractor` constructor: calls into the OpenAI client and `json.dumps`.
- `float(value)` in `_coerce_value` is the parameter `toFloat`; floating point is not modelled.
- `int(...)` and `str(...)` of a metadata entry's non-null, non-string values are the parameters `Casts.toInt` and `Casts.toStr`. The model fixes only what the code fixes: the defaults, `int(None)` raising and `str(None)` being "None". Truncation of floats and parsing of numeric strings are left to `toInt`.
- Timestamps.CoerceTimestamp: reads only four-digit years, two-digit fields, a one-to-six-digit fraction and a `+00:00` offset. Other `fromisoformat` forms are read as failures: non-UTC offsets, week dates, and a date without a time.
- Timestamps.Strptime: needs exactly one space between date and time, and two digits for month, day, hour, minute and second. `strptime` turns the format's space into a run of one or more whitespace characters and accepts one-digit fields, so `2024-01-01  12:00:00 UTC` or `2024-1-1 9:05:00 UTC` convert in the code but are a failed reading here (the value is then kept as it is).
- ResultsParser.CoerceValue: a non-string value under a TIMESTAMP type is kept as it is. The code parses `str(value)`, and within the accepted grammar the text of a JSON number, boolean, array or object never reads as a timestamp.
- Text.Lower, Text.Upper: case mapping is ASCII only; `casefold` and `lower` agree there. `Upper` stands for `col_type.upper()` (src/pydc_mem/util/memory_results_parser.py:47), so a type name with non-ASCII letters is compared unmapped.
- MemoryExtractor.PairRepr: `str((speaker, text))` is rendered without Python's quote escaping.
- `str()` of session-variable values and of non-string dialogue items is taken as already rendered text.
- Custom user templates and system instructions: only `DEFAULT_USER_TEMPLATE` is modelled.
- src/pydc_mem/dcmem.py, the orchestration around extraction and upsert, is not part of this model.
- Upsert.UserAttributeClient.UpsertFromCandidates: row aliasing is modelled by writing the updated row back at its index. The fetched list is not shared with the caller.
- Upsert.UserAttributeClient.UpsertFromCandidates: when an exception escapes, Python's caller never sees the report. The model still returns it, with an `outcome` naming the exception.
- ResultsParser.ParseTabularPayload: a pass-through key named `columns` or `rows` overwrites that entry, as in the code. The contract then says only that the copied value is present.
- ResultsParser.Payload: `top` holds every top-level entry, `data` and `metadata` included. The model does not tie `top["data"]` and `top["metadata"]` to their decoded forms; a copied entry is the value in `top`.
- MemoryExtractor.Validate: Pydantic's error list is a set of issues; its order and exact wording beyond the messages are not modelled.
- Environment variables, `load_dotenv` and the other client fields (`dlo`, `connector`, index names) only address requests. The model keeps the tenant id.
