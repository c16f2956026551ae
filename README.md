# Self-healing actions and CSV ↔ remote reconciliation, in Dafny

This project models two engines of a football-betting automation toolkit and proves properties
of them.

**The self-healing action executor** is `execute_smart_action`. A browser action needs a CSS
selector. The executor reads it from a shared two-level knowledge map (context → element →
selector). When the selector is missing it asks a visual discovery service to fill the map.
It then runs the caller's action with the selector. When the action raises, it asks for a
"healing" discovery and tries again, for at most `max_retries + 1` attempts. When every
attempt fails it re-raises the last action error. When no selector was ever found it raises a
distinct not-found error.

**The bidirectional reconciliation** is the `SyncManager` class. It runs once per configured
table and compares the local CSV store with the remote database:

- It reads every remote key with its `last_updated` timestamp, 1000 rows per page.
- It classifies each key as push, pull or neither by comparing timestamp strings.
- Pulled rows are fetched in batches of 200 and normalised to the CSV's conventions. They are
  merged into the local rows and the CSV file is rewritten under a computed column order.
- Rows to push pass a cleaning and data-quality pipeline, then go in a single upsert call. The
  pipeline applies a column whitelist and turns empty and `N/A` values into null. It rewrites
  `DD.MM.YYYY` dates as ISO dates, strips whitespace, drops an empty `id`, and checks the
  timestamp columns against a strict ISO-8601 pattern. Then come the gates: rows with an
  unusable conflict key are dropped, duplicates keep the first row, and NUL characters are
  removed.

Modules, one to a file:

- `Interaction`: the executor. There is a pure specification (`Attempt`, `Attempts`,
  `Execute`) and the imperative class `Session`, whose `ExecuteSmartAction` loop is proved to
  follow that specification. The discovery service and the action are an `Environment`. Each
  is a function of the history of calls made so far, so the environment may answer
  differently on every call.
  - Both receive the knowledge map and leave a map behind, whether they answer or raise. The
    action can reach the module-level `knowledge_db` as well, so it may rewrite the map too.
  - The knowledge map and the call history are fields of the session.
  - The call history is what the call-count bounds are stated on.
- `SyncTypes`: `TABLE_CONFIG`, rows and remote values.
- `Text`: the string primitives the code relies on: `str.strip`, `split`, `replace`, string
  `<`, and the two date patterns and the timestamp pattern written as character predicates.
- `OrderedMaps`: Python's insertion-ordered `dict`.
- `Classify`: the key maps and the push/pull classification.
- `Metadata`: the paged metadata fetch.
- `Pull`: fetching, normalising, merging and writing pulled rows.
- `Upsert`: row cleaning, the gates and the upsert request.
- `Sync`: one table's sync and the start-up run over all tables.

## Notes on the code's behaviour

- **Discovery calls per run.** One attempt can make both a missing-selector discovery (lines
  43-51) and a healing discovery (lines 65-72). So a run makes up to `2 * max_retries + 1`
  discovery calls, not `max_retries + 1`. `Interaction.CallBounds` proves that bound and
  `Interaction.DiscoveryBoundReached` shows it is reached.
- **Discovery errors.** Neither discovery call is inside the `try` of lines 54-61. An
  exception from discovery therefore ends `execute_smart_action` at once and reaches the
  caller unchanged, without a further attempt. The model returns `DiscoveryFailed(e)`, with the
  knowledge map the failed call left (`Interaction.DiscoveryErrorPropagates`).
- **Dates that come back as "now".** A pulled `date`, `date_updated` or `last_extracted` value
  that starts with an ISO date is stored as a bare `DD.MM.YYYY` date (lines 207-210). On the next
  push it turns back into `YYYY-MM-DD` (lines 280-284). For `date` that is the original date
  (`Sync.DateRoundTrip`). `date_updated` and `last_extracted` are timestamp columns, and a bare
  date fails the timestamp pattern of line 297, so they are sent as "now" instead
  (`Sync.DateTimestampIsReplaced`).
- **Shared row dicts.** `_pull_updates` indexes the same row dicts that `local_data_map` holds
  (lines 94 and 194) and updates them in place (line 215). Line 130 reads `local_data_map`
  after that, so a key that is both fetched and pushed would be pushed with the merged values.
  The model follows the code: `Sync.SyncTable` pushes the rows of `Sync.PushSource`. A key
  classified for pushing is never pulled (`Sync.PushAndPullAreDisjoint`). So when the database
  answers `in_(key, batch)` only with rows of that batch's keys, the rows pushed are the rows as
  read (`Sync.PulledRowsLeavePushedAlone`).

## Model

| member | source | states |
|---|---|---|
| Interaction.Lookup | Core/Intelligence/interaction_engine.py:40-43 | Definition: `knowledge_db.get(context, {}).get(element)`, with a missing or empty selector read as absent (`if not selector`). `Session.Get` states it as a contract. |
| Interaction.Heal | Core/Intelligence/interaction_engine.py:63-74 | Definition: when healing is allowed, one healing discovery, which ends the run if it raises and otherwise installs the map it answered. Its properties are `HealFacts`. |
| Interaction.TryAction | Core/Intelligence/interaction_engine.py:53-61 | Definition: with a selector, one action call, which may rewrite the map. A returned value ends the run, and a raised error becomes the last error before the healing step. Its properties are `TryActionFacts`. |
| Interaction.Attempt | Core/Intelligence/interaction_engine.py:38-74 | Definition: one pass of the loop body. Without a selector, a missing-selector discovery first, then `TryAction`. Its properties are `AttemptFacts`. |
| Interaction.ExhaustedWith | Core/Intelligence/interaction_engine.py:76-80 | Definition: re-raising the last error, or the not-found error when there is none. Its properties are `ExhaustionError`. |
| Interaction.Attempts | Core/Intelligence/interaction_engine.py:37-80 | Definition, by recursion over the attempts: each attempt either ends the run or hands its map, calls and last error to the next one. Its properties are `AttemptsFacts`. |
| Interaction.Execute | Core/Intelligence/interaction_engine.py:35-80 | Definition: `Attempts` from attempt 0 with no calls made and no last error. Its properties are `ExecuteFacts` and the lemmas after it, and `Session.ExecuteSmartAction` is proved to compute it. |
| Interaction.HealFacts | Core/Intelligence/interaction_engine.py:63-74 | The healing step adds at most one call, a healing discovery, and only when this is not the last attempt. A raised discovery ends the run as the last call, with the map it left. Otherwise the loop invariant holds again: the map is the one the last call left, every call is about this element and the last error is the latest action error. |
| Interaction.TryActionFacts | Core/Intelligence/interaction_engine.py:53-61 | The action step adds at most one action call, made with the selector the map holds. A returned value ends the run as the last call. A raised error becomes the last error and is followed by the healing step, and the loop invariant is kept. |
| Interaction.AttemptFacts | Core/Intelligence/interaction_engine.py:38-74 | One attempt makes at most one missing-selector discovery, at most one action call, and a healing discovery only when it is not the last attempt. Every action uses the map's current selector, and every call is about the given context and element. |
| Interaction.AttemptsFacts | Core/Intelligence/interaction_engine.py:37-80 | By induction over the attempts left: the per-attempt bounds add up over the remaining attempts. The knowledge map is the one the last call, discovery or action, left. A run that ends otherwise than by success or a discovery error saw only raised actions and answered discoveries. |
| Interaction.ExecuteFacts | Core/Intelligence/interaction_engine.py:35-80 | The same facts for a whole call, counted from the start. A negative `max_retries` makes no call and raises the not-found error. |
| Interaction.CallBounds | Core/Intelligence/interaction_engine.py:37-74 | The action runs at most `max_retries + 1` times and the healing discovery at most `max_retries` times. The missing-selector discovery runs at most once per attempt. In all there are at most `2 * max_retries + 1` discovery calls. |
| Interaction.SingleAttempt | Core/Intelligence/interaction_engine.py:37-65 | With `max_retries = 0` there is no healing discovery, at most one action call and at most one missing-selector discovery. With a negative value nothing is called and the not-found error results. |
| Interaction.SuccessIsFinal | Core/Intelligence/interaction_engine.py:53-57 | A successful run returns the value of its last call, which is the successful action. Every earlier action call raised. |
| Interaction.LastActionErrorIsLatest | Core/Intelligence/interaction_engine.py:58-59 | In a history where every action raised: a last error exists exactly when some action was called, and it is the error of the most recent action call. |
| Interaction.ExhaustionError | Core/Intelligence/interaction_engine.py:76-80 | An exhausted run saw only raised actions and answered discoveries. It ends with the not-found error exactly when no action was called. Otherwise it re-raises the error of the most recent action call, unwrapped. |
| Interaction.DiscoveryErrorPropagates | Core/Intelligence/interaction_engine.py:43-72 | A discovery exception ends the run: the raised discovery is the last call and its error is the outcome. Every earlier discovery was answered. The map afterwards is the one the failed call left. |
| Interaction.SelectorsComeFromMap | Core/Intelligence/interaction_engine.py:40-57 | Each action call uses the non-empty selector the map held right before that call, so a selector written by a discovery or by the action is the one used next. The final map is the one the last call left, or the starting map when no call was made. |
| Interaction.FlakyFirstAttempt | Core/Intelligence/interaction_engine.py:38-74 | First attempt on an empty map: discovery fills the map, the action times out, and a healing discovery follows. |
| Interaction.FlakySecondAttempt | Core/Intelligence/interaction_engine.py:53-57 | Second attempt: the stored selector is used and the action's value ends the run. |
| Interaction.FlakyButtonScenario | Core/Intelligence/interaction_engine.py:37-74 | Empty map, action failing once then succeeding, two retries: two discovery calls, two action calls, the action's value returned, and the map the discovery wrote. |
| Interaction.NeverFoundAttempts | Core/Intelligence/interaction_engine.py:43-74 | With a discovery that never finds the element, each attempt asks for the missing selector, and all but the last also ask for healing. |
| Interaction.DiscoveryBoundReached | Core/Intelligence/interaction_engine.py:37-80 | With one retry and an element that is never found: three discovery calls (missing, healing, missing), no action call, and the not-found error. So the `2 * max_retries + 1` bound is tight. |
| Interaction.ActionWritesMap | Core/Intelligence/interaction_engine.py:37-59 | With one retry, a known selector and an action that wipes the map and raises: the second attempt reads the wiped map, asks for the selector and calls the action no more. The action's error is re-raised, and the final map is the one the action left. |
| Interaction.Session.Get | Core/Intelligence/interaction_engine.py:40 | Returns a selector exactly when the map holds a non-empty one for the context and element, and then it is that one. |
| Interaction.Session.Discover | Core/Intelligence/interaction_engine.py:45-50 | Records the call, and the map becomes the one the call left. An answer returns no failure; a raised discovery returns its error. |
| Interaction.Session.Act | Core/Intelligence/interaction_engine.py:57 | Calls the action with the selector and the current map, and records the call and its result. The map becomes the one the action left, whether it returned or raised. |
| Interaction.Session.AttemptOnce | Core/Intelligence/interaction_engine.py:38-74 | One pass of the loop body. The outcome, the new map and the calls appended agree with the specification `Attempt`. |
| Interaction.Session.ExecuteSmartAction | Core/Intelligence/interaction_engine.py:9-80 | The outcome, the final map and the calls made are those of `Execute`, so every lemma above holds of the method. |
| Classify.Index | Data/Access/sync_manager.py:94 | A valid ordered dict. Definition: the CSV rows with a filled key, by key, a later row replacing an earlier one. `IndexKeys` states its keys and the row stored under each. |
| Classify.LocalTimestamps | Data/Access/sync_manager.py:93 | Definition: `local_map`, the `last_updated` of each keyed row (`''` when absent). It is taken from `Index`, since the comprehension runs over the same rows with the same filter. |
| Classify.AllIds | Data/Access/sync_manager.py:101 | Definition: the keys on either side, as `set(local_map.keys()) | set(remote_map.keys())`. |
| Classify.Decide | Data/Access/sync_manager.py:107-120 | Definition: the decision for one key. `DecideCases` states each outcome as the condition that produces it. |
| Classify.IndexKeys | Data/Access/sync_manager.py:93-94 | The key maps hold exactly the filled key values of the CSV rows, and each row is filed under its own key. The row stored under a key is the last CSV row with that key. |
| Classify.IndexFromMembers | Data/Access/sync_manager.py:94 | The comprehension continued from a dict holds the dict's keys and the filled keys of the remaining rows, and no others. |
| Classify.IndexFromFiled | Data/Access/sync_manager.py:94 | Each stored row is filed under its own key value. |
| Classify.IndexFromLastWins | Data/Access/sync_manager.py:94 | Under each key, the comprehension continued from a dict stores one of two rows. If some remaining row has the key, it is the last such row. Otherwise it is the dict's own row, and no remaining row has the key. |
| Classify.LastKeyedShift | Data/Access/sync_manager.py:94 | The last row keyed `u` among the rows after the first is also the last row keyed `u` among all the rows. |
| Classify.NoneKeyedShift | Data/Access/sync_manager.py:94 | No row is keyed `u` exactly when the first row is not and no later row is. |
| Classify.IndexHoldsLast | Data/Access/sync_manager.py:94 | A CSV row with a filled key has that key in the index. When no later row has the key, it is the row stored under it. |
| Classify.DecideCases | Data/Access/sync_manager.py:107-120 | Each of push, pull and neither, stated as an if-and-only-if. Push: the remote timestamp is empty or absent, or both are filled and the remote one is smaller. Pull: the remote one is filled and the local one is empty, absent or smaller. Neither: both are filled and equal. |
| Classify.ClassifyKeys | Data/Access/sync_manager.py:101-120 | Push and pull lists without repeats. A key is in a list exactly when it is a local or remote key and its decision names that list. |
| Classify.ClassificationIsExclusive | Data/Access/sync_manager.py:107-120 | No key is both pushed and pulled. A key goes neither way exactly when both sides hold it with the same non-empty timestamp. |
| Classify.SecondRunIsIdle | Data/Access/sync_manager.py:101-120 | When both maps are equal and every timestamp is non-empty, no key is pushed or pulled. |
| Classify.OneSidedKeys | Data/Access/sync_manager.py:107-112 | A key missing remotely is pushed. A key held only remotely, with a timestamp, is pulled. |
| Classify.NewerLocalScenario | Data/Access/sync_manager.py:101-120 | With A newer locally and B local-only, both are pushed and nothing is pulled. |
| Classify.OneMonthLater | Data/Access/sync_manager.py:117 | `2024-02-01T00:00:00` compares as later than `2024-01-01T00:00:00`, so it is pushed. |
| Text.Strip | Data/Access/sync_manager.py:287 | The result is no longer than the input, begins and ends with a non-blank character, and is the input when that already holds. |
| Text.StripIdempotent | Data/Access/sync_manager.py:287 | Stripping twice is stripping once. |
| Text.StripKeepsInfix | Data/Access/sync_manager.py:287 | The stripped text is a contiguous piece of the input, and everything around it is whitespace. |
| Text.RemoveChar | Data/Access/sync_manager.py:334 | The result has no NUL. The other characters present are unchanged, and a string without NUL is unchanged. |
| Text.RemoveCharCounts | Data/Access/sync_manager.py:334 | Every NUL goes and every other character stays exactly as often as it was there. |
| Text.RemoveCharAppend | Data/Access/sync_manager.py:334 | Removal works piece by piece: removing from a concatenation is the concatenation of the removals, so the characters kept stay in order. |
| Text.Split | Data/Access/sync_manager.py:314 | At least one piece, no piece holds the separator, and joining the pieces gives back the input. |
| Text.SplitWithoutSeparator | Data/Access/sync_manager.py:314 | A string without the separator splits into itself alone. |
| Text.SplitJoin | Data/Access/sync_manager.py:209 | Splitting a join of separator-free pieces gives back the pieces (the other direction of the round trip). |
| Text.LexLessTrichotomy | Data/Access/sync_manager.py:117-120 | String `<` is a strict total order: exactly one of `a < b`, `a == b`, `b < a`. |
| Text.LexLessTransitive | Data/Access/sync_manager.py:117-120 | String `<` is transitive. |
| Text.DateIsNotTimestamp | Data/Access/sync_manager.py:297 | A ten-character value never matches the full timestamp pattern. |
| Metadata.Page | Data/Access/sync_manager.py:152 | A page holds at most 1000 rows. |
| Metadata.Consumed | Data/Access/sync_manager.py:140-169 | The number of rows taken in lies between the starting offset and the table size. |
| Metadata.MetaMap | Data/Access/sync_manager.py:158-161 | Definition: `remote_map` after the first `n` rows. Its keys are `MetaMapKeys` and its values `MetaMapLastWins`. |
| Metadata.MetaMapKeys | Data/Access/sync_manager.py:158-161 | `remote_map` holds exactly the keys `str(k)` of the rows whose key `k` is truthy. |
| Metadata.MetaMapLastWins | Data/Access/sync_manager.py:158-161 | For a repeated key, `remote_map` holds the timestamp of the last row with that key. |
| Metadata.TakeInPage | Data/Access/sync_manager.py:158-161 | After taking in one page, the map is the map of all rows up to the end of that page. |
| Metadata.PageStep | Data/Access/sync_manager.py:152-165 | An error or an empty page stops the loop with the rows before it. A short page stops it after that page. A full page goes on at the next offset. |
| Metadata.FetchRemoteMetadata | Data/Access/sync_manager.py:134-171 | The map returned holds the first `Consumed` rows of the table, and the offsets requested are `Requests`. |
| Metadata.Requests | Data/Access/sync_manager.py:140-165 | Definition: the offsets the paging loop asks for, going on only after a full page that did not raise. `RequestsArePages` states what they are. |
| Metadata.RequestsArePages | Data/Access/sync_manager.py:137-165 | Page `i` asks for offset `1000 i`. Every page but the last was full and answered. The last one raised, or was short or empty. |
| Metadata.ConsumedAtStop | Data/Access/sync_manager.py:140-169 | The whole table is read, unless the last request raised. In that case exactly the rows before the failing page are read. |
| Metadata.NoErrorsReadsAll | Data/Access/sync_manager.py:140-169 | With no failing request, every row is read. |
| Metadata.ThreePages | Data/Access/sync_manager.py:137-165 | 2500 rows are read with three requests, at offsets 0, 1000 and 2000. |
| OrderedMaps.ODict.Put | Data/Access/sync_manager.py:189 | Assignment stores the value. A new key goes to the end of the key order and an existing key keeps its place. |
| OrderedMaps.ODict.Items | Data/Access/sync_manager.py:240 | `values()` lists one value per key, in key order. |
| Pull.Batches | Data/Access/sync_manager.py:184-185 | Non-empty batches of at most 200 keys whose concatenation is the key list, in order. Every batch but the last holds exactly 200 keys. |
| Pull.AddRows | Data/Access/sync_manager.py:188-190 | A valid ordered dict. Definition: the rows of one answered batch stored under `str(row[key])`, stopping at a row without the key field. `TakeInBatch` states it. |
| Pull.Collect | Data/Access/sync_manager.py:184-191 | A valid ordered dict. Definition: the batch loop, where a batch whose request raises adds nothing. `FetchUpdates` states it. |
| Pull.Fetched | Data/Access/sync_manager.py:180-191 | A valid ordered dict. Definition: `upserted_rows`, the batch loop over `Batches(ids)` from an empty dict. `FetchedIsFiledByKey` states its contents. |
| Pull.FetchedIsFiledByKey | Data/Access/sync_manager.py:188-189 | Every fetched row is stored under `str()` of its own key value. |
| Pull.FetchedOnlyAsked | Data/Access/sync_manager.py:184-189 | If the database answers each `in_(key, batch)` only with rows of that batch's keys (`Answers`), every fetched key is one of the keys asked for. |
| Pull.InConcat | Data/Access/sync_manager.py:184-185 | A key of one batch is a key of the whole list. |
| Pull.AddRowsAsked | Data/Access/sync_manager.py:188-189 | Storing one answer's rows adds only keys of the asked set. |
| Pull.CollectAsked | Data/Access/sync_manager.py:184-191 | The batch loop adds only keys of the asked set. |
| Pull.TakeInBatch | Data/Access/sync_manager.py:188-190 | The rows of one answered batch are taken in until a row without the key field raises. |
| Pull.FetchUpdates | Data/Access/sync_manager.py:180-191 | `upserted_rows` is the fold of the batches, in order. A batch whose request raises adds nothing. |
| Pull.DateParts | Data/Access/sync_manager.py:208-209 | Splitting the first ten characters of a value starting `YYYY-MM-DD` at `-` gives exactly year, month and day, so the unpacking cannot fail. |
| Pull.NormalizeValue | Data/Access/sync_manager.py:199-212 | Definition: the CSV text of one remote value. `NormalizeValueCases` states each case. |
| Pull.NormalizeRow | Data/Access/sync_manager.py:198-212 | Definition: `cleaned_remote`, every remote field normalised. `CleanRemoteRow` states it. |
| Pull.NormalizeValueCases | Data/Access/sync_manager.py:198-212 | Null becomes empty and a boolean becomes `true`/`false`. A date column starting with an ISO date becomes `DD.MM.YYYY` and is a well-formed dotted date. Anything else becomes its `str()`. |
| Pull.NormalizeExample | Data/Access/sync_manager.py:207-210 | `2024-02-12T10:00:00` in the `date` column becomes `12.02.2024`. |
| Pull.CleanRemoteRow | Data/Access/sync_manager.py:198-212 | `cleaned_remote` has the remote row's keys, each value normalised. |
| Pull.MergeFrom | Data/Access/sync_manager.py:197-217 | A valid ordered dict. Definition: the merge loop over the fetched keys, each putting the local row updated by the normalised remote row. `MergeFromKeys` and `MergeFromValues` state it. |
| Pull.Merged | Data/Access/sync_manager.py:194-217 | A valid ordered dict. Definition: `local_map` after the merge, starting from the indexed local rows. `OneRecordPerKey` states it. |
| Pull.MergeOneKeys | Data/Access/sync_manager.py:214-217 | One merge step keeps the existing keys in place and appends a new key. |
| Pull.MergeFromKeys | Data/Access/sync_manager.py:197-217 | After the merge loop, the local keys keep their places and the new keys follow in fetch order. The keys are exactly the local and the fetched ones. |
| Pull.MergeFromValues | Data/Access/sync_manager.py:197-217 | A fetched key's row is the local row (or an empty one) updated by the normalised remote row. Every other local row is unchanged. |
| Pull.MergeOneIsPut | Data/Access/sync_manager.py:214-217 | The `update` branch and the insertion branch both store the local row overlaid with the remote fields. |
| Pull.MergeRemote | Data/Access/sync_manager.py:197-218 | The merge loop computes `MergeFrom` over the fetched keys, in order. |
| Pull.RemoveFirst | Data/Access/sync_manager.py:229 | `list.remove` shortens the list by one. On a list without repeats it removes exactly that element and keeps the last element when that is a different one. |
| Pull.FinalFieldnames | Data/Access/sync_manager.py:220-234 | The header names each column once: exactly the prior header and every row's columns. The key column is first and `last_updated` is last. |
| Pull.Render | Data/Access/sync_manager.py:236-240 | Definition: the file `DictWriter` writes, a header and one record per row, with an empty cell for each missing or null field. |
| Pull.Wrote | Data/Access/sync_manager.py:220-240 | Definition: the file holds the merged rows, in merge order, under a header ordered as `FinalFieldnames` states. `PullUpdates` ensures it. |
| Pull.HeaderCoversRows | Data/Access/sync_manager.py:236-240 | Every field of every row is in the header, so the writer cannot reject a row. |
| Pull.PullUpdates | Data/Access/sync_manager.py:173-243 | No keys means nothing is written and no row changes. Otherwise the file holds the merged rows in merge order, under a header as `FinalFieldnames` states. The returned `local_map` is `Merged`; its local rows are the caller's dicts, updated in place. |
| Pull.OneRecordPerKey | Data/Access/sync_manager.py:194-217 | The rewritten file has one record per filled local key and per newly fetched key, and no others. Empty keys are dropped, duplicate keys collapse, and the local keys come first. Each record's values are as the merge states. Every local row merged into is the last CSV row with its key. |
| Pull.UpdateKeepsLocalFields | Data/Access/sync_manager.py:215 | `update` keeps every local-only field and takes every remote field. The columns are the union. |
| Upsert.Whitelist | Data/Access/sync_manager.py:259-265 | The whitelist is exactly the table's CSV header plus the audit columns, so it is never empty. |
| Upsert.IsoFromDotted | Data/Access/sync_manager.py:281-284 | A `DD.MM.YYYY` value becomes a ten-character ISO date, with year, month and day taken from the groups. |
| Upsert.CleanValue | Data/Access/sync_manager.py:276-289 | Definition: one cleaned value. `CleanValueCases` states each case. |
| Upsert.CleanValueCases | Data/Access/sync_manager.py:276-289 | Null stays null and empty or `N/A` becomes null. A date column in `DD.MM.YYYY` is sent as the ISO date. Other text is sent stripped. Every value sent is already stripped. |
| Upsert.IsoDateIsStripped | Data/Access/sync_manager.py:284-287 | An ISO date has no surrounding blanks. |
| Upsert.CleanFields | Data/Access/sync_manager.py:269-289 | Definition: `clean` before the `id` and timestamp steps, the whitelisted columns each cleaned. `CleanColumns` computes it. |
| Upsert.DropEmptyId | Data/Access/sync_manager.py:291-293 | Definition: a null or empty `id` is removed. `CleanedFacts` states the result. |
| Upsert.CleanColumns | Data/Access/sync_manager.py:269-289 | `clean` holds exactly the whitelisted columns of the row, each cleaned. |
| Upsert.SanitizeColumn | Data/Access/sync_manager.py:300-304 | Definition: one timestamp column checked. `SanitizeColumnFacts` states it. |
| Upsert.Sanitize | Data/Access/sync_manager.py:299-304 | Definition: the columns checked in order. `SanitizeFacts` states it. |
| Upsert.SanitizeFacts | Data/Access/sync_manager.py:299-304 | No column is added or removed and unchecked columns are unchanged. A checked column whose stripped text is a full timestamp is unchanged. Any other checked column is "now". |
| Upsert.SanitizeKeeps | Data/Access/sync_manager.py:299-304 | The same columns, and unchecked columns unchanged. |
| Upsert.SanitizeChecks | Data/Access/sync_manager.py:299-304 | Each checked column is "now", or unchanged with a full timestamp as its stripped text. A checked column whose stripped text is a full timestamp is unchanged. |
| Upsert.SanitizeKeepsStamps | Data/Access/sync_manager.py:299-304 | A checked column whose stripped text is a full timestamp is never replaced. |
| Upsert.SanitizeColumnFacts | Data/Access/sync_manager.py:300-304 | Checking one column changes only that column. It becomes "now" unless its stripped text is a full timestamp, and then it is unchanged. |
| Upsert.Cleaned | Data/Access/sync_manager.py:269-310 | Definition: one row as appended to `cleaned_data`. `CleanedFacts` states what it holds. |
| Upsert.CleanedFacts | Data/Access/sync_manager.py:269-310 | A cleaned row holds exactly the whitelisted columns (less a null or empty `id`) and `last_updated`. Non-timestamp columns hold their cleaned value. Timestamp columns hold their cleaned value when it is a full timestamp, and "now" otherwise (`StampsChecked`). |
| Upsert.CleanedStamps | Data/Access/sync_manager.py:299-308 | In a cleaned row, a whitelisted timestamp column whose cleaned value is a full timestamp holds that value. Every other timestamp column present holds "now". |
| Upsert.CleanedStamp | Data/Access/sync_manager.py:299-308 | The same, for one timestamp column. |
| Upsert.CleanRow | Data/Access/sync_manager.py:269-310 | The loop body computes `Cleaned` for one row. |
| Upsert.CleanBatch | Data/Access/sync_manager.py:268-310 | `cleaned_data` is every row of the batch, cleaned, in order. |
| Upsert.ConflictKeys | Data/Access/sync_manager.py:314 | There is at least one conflict key. |
| Upsert.PlainConflictKey | Data/Access/sync_manager.py:314 | A key without commas or blanks is its own single conflict key. |
| Upsert.TableConflictKeys | Data/Access/sync_manager.py:314 | Every configured table has a single-column conflict key. |
| Upsert.Gate | Data/Access/sync_manager.py:315-318 | The rows kept are exactly the given rows with a usable value (not null, `''` or `'null'`) in every conflict column. None are added. `GateOne` and `GateAppend` pin down the order. |
| Upsert.GateOne | Data/Access/sync_manager.py:315-318 | A single row is kept exactly when it passes. |
| Upsert.GateAppend | Data/Access/sync_manager.py:315-318 | The filter of `a + b` is the filter of `a` followed by the filter of `b`. With `GateOne`, passing rows are kept in order, each once. |
| Upsert.KeepFirst | Data/Access/sync_manager.py:320-328 | Definition: the de-duplication loop carried on from the key tuples already seen. `KeepFirstSound` and `KeepFirstComplete` state it. |
| Upsert.KeepFirstSound | Data/Access/sync_manager.py:320-328 | De-duplication keeps at most the given rows, only given rows, and no two rows with the same key tuple. |
| Upsert.KeepFirstComplete | Data/Access/sync_manager.py:320-328 | The first row of every key tuple is kept. |
| Upsert.Dedup | Data/Access/sync_manager.py:320-328 | The `seen`/`deduped` loop keeps the first row of each key tuple, in order. |
| Upsert.StripNul | Data/Access/sync_manager.py:330-334 | The same columns and the same nulls. Each text value becomes `RemoveChar` of it, so it holds no NUL and keeps its other characters in order. A value without NUL is unchanged. |
| Upsert.StripNulRow | Data/Access/sync_manager.py:331-334 | The in-place loop over a row's values computes `StripNul`. |
| Upsert.StripNulBatch | Data/Access/sync_manager.py:331-334 | Every row of the batch has its NULs removed, in place. |
| Upsert.GatesAsWritten | Data/Access/sync_manager.py:315-334 | Definition: the gates in the code's order, where the filter and the de-duplication see values before their NULs are removed. `NulKeysCollide` shows the collision and `GatesAgree` when it cannot happen. |
| Upsert.NulKeysCollide | Data/Access/sync_manager.py:315-334 | As written: keys `7\0` and `7` both pass the gates, and after NUL removal two rows share conflict key `7`. A key of a lone NUL passes the filter and is sent as the empty string. |
| Upsert.Gates | Data/Access/sync_manager.py:315-334 | Definition: the gates with NUL removal first. `GatesFacts` states them. |
| Upsert.GatesFacts | Data/Access/sync_manager.py:315-334 | With NULs removed first: no more rows than given, each a given row less its NULs. Each has usable conflict values and no NUL. No two share a key tuple. Every key tuple that passes the filter appears. Each row sent is `StripNul(rows[j])` for the least `j` whose stripped row passes with that key tuple. |
| Upsert.GatesFirst | Data/Access/sync_manager.py:315-328 | Each row the gates send is the first given row, less its NULs, that passes with its key tuple. |
| Upsert.KeepFirstFirst | Data/Access/sync_manager.py:321-327 | Each row kept by de-duplication stands at a position where it is the first row with its key tuple, and that tuple was not already seen. |
| Upsert.FirstOfTupleShift | Data/Access/sync_manager.py:321-327 | A first position among the later rows stays first, one place on, once the head's tuple has been seen. |
| Upsert.GateFirst | Data/Access/sync_manager.py:315-318 | In the filtered rows, the first row with a key tuple is the first given row that passes with it. |
| Upsert.FirstInTail | Data/Access/sync_manager.py:315-318 | For a first passing row after the head, the head does not pass with that tuple, and the row is first among the later rows. |
| Upsert.FirstAtShift | Data/Access/sync_manager.py:315-318 | Behind a row with another key tuple, the first row with `t` moves one place on. |
| Upsert.FirstAtUnique | Data/Access/sync_manager.py:321-327 | There is only one first position for a key tuple. |
| Upsert.FirstIndex | Data/Access/sync_manager.py:315-318 | When some row passes with key tuple `t`, there is a first such row. |
| Upsert.FirstInStripped | Data/Access/sync_manager.py:315-334 | The first passing row of the stripped rows is the first given row that passes once stripped. |
| Upsert.FirstKeptIsFirstGiven | Data/Access/sync_manager.py:315-328 | A filtered row first with its key tuple is the first given row that passes with it, less its NULs. |
| Upsert.GatesSound | Data/Access/sync_manager.py:315-334 | Each row sent passes the filter and is a given row less its NULs. |
| Upsert.GatesComplete | Data/Access/sync_manager.py:315-334 | Every key tuple of a given row that passes the filter appears among the rows sent. |
| Upsert.GatesAgree | Data/Access/sync_manager.py:315-334 | When no conflict-key value holds a NUL, the corrected gates and the gates as written send the same rows. |
| Upsert.GateAgrees | Data/Access/sync_manager.py:315-318 | Under the same condition, the conflict-key filter commutes with NUL removal. |
| Upsert.KeepFirstAgrees | Data/Access/sync_manager.py:320-328 | Under the same condition, de-duplication commutes with NUL removal. |
| Upsert.StripNulKeepsKey | Data/Access/sync_manager.py:317-334 | A row whose conflict-key values hold no NUL keeps its key tuple and its filter result when NULs are removed. |
| Upsert.UpsertRequest | Data/Access/sync_manager.py:245-344 | Definition: the request `batch_upsert` sends, or none. `UpsertFacts` states it and `BatchUpsert` computes it. |
| Upsert.UpsertFacts | Data/Access/sync_manager.py:245-344 | No call without a connection, for an empty batch or for an unknown table. A call sent goes to the configured table and conflict key, with between one row and the number given. Each row has only whitelisted columns, a `last_updated`, a usable conflict key and no NUL. Timestamp columns hold a timestamp or "now". Conflict keys are distinct. Each row sent is one of the given rows, cleaned and rid of NULs (`SentFrom`). Its timestamp columns keep the cleaned value when that is a full timestamp and hold "now" otherwise. |
| Upsert.SentBatchFacts | Data/Access/sync_manager.py:268-334 | The same, for the rows the gates let through with a single conflict column. |
| Upsert.SentBatchRows | Data/Access/sync_manager.py:268-334 | Each row sent: whitelisted columns, `last_updated`, a usable key, and timestamp columns valid or "now". It is a given row, cleaned and rid of NULs, with each full timestamp kept and every other timestamp column "now". |
| Upsert.SentBatchKeys | Data/Access/sync_manager.py:320-328 | No two rows sent share a conflict key value. |
| Upsert.SentRowFacts | Data/Access/sync_manager.py:269-334 | A cleaned row less its NULs has only whitelisted columns and `last_updated`. Its timestamp columns are valid or "now": each full timestamp is kept as cleaned, and every other one is "now". |
| Upsert.SentRowStamps | Data/Access/sync_manager.py:299-334 | NUL removal leaves the timestamp columns of a cleaned row as the cleaning left them, since neither a timestamp nor "now" holds a NUL. |
| Upsert.TimestampHasNoNul | Data/Access/sync_manager.py:297 | A value matching the timestamp pattern contains no NUL, so NUL removal cannot break a checked timestamp. |
| Upsert.BatchUpsert | Data/Access/sync_manager.py:245-344 | The method sends exactly `UpsertRequest`, about which `UpsertFacts` is proved. |
| Sync.RemoteOnlyKeyCrashes | Data/Access/sync_manager.py:107-130 | As written: a remote-only key with an empty timestamp is classified for pushing, and building the rows to push then fails. |
| Sync.PushRowsAsWritten | Data/Access/sync_manager.py:130 | Definition: the comprehension as written, where a key without a local row raises `KeyError`. `AsWrittenFailsOnMissing` and `PushRowsAgree` state it. |
| Sync.AsWrittenFailsOnMissing | Data/Access/sync_manager.py:130 | The comprehension as written fails as soon as one key to push has no local row. |
| Sync.Present | Data/Access/sync_manager.py:130 | The keys to push that have a local row: all of them, and only them. |
| Sync.PushRows | Data/Access/sync_manager.py:130 | No more rows than keys to push. |
| Sync.PushRowsFacts | Data/Access/sync_manager.py:130 | Corrected: each row pushed is the local row of a key to push, and every key to push that has a local row has its row pushed. |
| Sync.PushRowsAgree | Data/Access/sync_manager.py:130 | When every key to push has a local row, the corrected rows are exactly what the code as written computes. |
| Sync.AfterPull | Data/Access/sync_manager.py:194-217 | Definition: `local_data_map` (line 94) after the merge. Each local key holds the merged row, because both maps hold the same dicts. Rows new from the remote are not in it. `PulledRowsLeavePushedAlone` states it. |
| Sync.PushSource | Data/Access/sync_manager.py:125-130 | Definition: `local_data_map` as line 130 reads it. It is the map as read when nothing was pulled, and `AfterPull` of the merge otherwise. |
| Sync.SyncedAs | Data/Access/sync_manager.py:56-131 | Definition: what `_sync_table` does for a table. A missing file is skipped and an unreadable one stops the sync. Otherwise the keys are classified and the pulled ones are written as `Wrote` states. The rows of `PushSource` for the pushed keys are upserted as `UpsertRequest`. |
| Sync.SyncTable | Data/Access/sync_manager.py:56-131 | A missing file is skipped and an unreadable one stops the sync. Otherwise: the keys are classified against the remote map that was read. The file is rewritten exactly when something is pulled, as `PullUpdates` states. The upsert is exactly `UpsertRequest` of the rows to push, read from `local_data_map` after any pull's in-place merge, or none when nothing is pushed. |
| Sync.PushAndPullAreDisjoint | Data/Access/sync_manager.py:103-120 | No key is both pushed and pulled. |
| Sync.PushRowsReads | Data/Access/sync_manager.py:130 | The rows pushed depend only on which keys the map holds and on the rows of the keys to push. |
| Sync.PulledRowsLeavePushedAlone | Data/Access/sync_manager.py:184-217 | Suppose the database answers each batch only with rows of its keys. Then no fetched key is pushed, and the rows line 130 pushes after the in-place merge are the rows as read. |
| Sync.PushedRowsAreLocal | Data/Access/sync_manager.py:128-131 | Every row pushed from `local_data_map` (line 94) is a CSV row: the last one with its filled key, and that key was classified for pushing. |
| Sync.OfflineSyncChangesNothing | Data/Access/sync_manager.py:56-131 | Without a client nothing is pulled, no file is written and no upsert is sent. |
| Sync.OfflineRemoteIsEmpty | Data/Access/sync_manager.py:149-169 | Without a client the metadata fetch returns an empty map. |
| Sync.NothingToPullFromEmpty | Data/Access/sync_manager.py:107-112 | Against an empty remote map nothing is pulled. |
| Sync.DateRoundTrip | Data/Access/sync_manager.py:280-284 | A remote `date` starting `YYYY-MM-DD` is stored as `DD.MM.YYYY` and is sent back as the original date. |
| Sync.DateColumnTravels | Data/Access/sync_manager.py:280-289 | For every date column, the stored text of a remote ISO date cleans back into that date. |
| Sync.DateTimestampIsReplaced | Data/Access/sync_manager.py:297-304 | A pulled `date_updated` or `last_extracted` is sent as "now" on the next push. |
| Sync.DateColumnIsKept | Data/Access/sync_manager.py:299 | The `date` column is sent cleaned and is not checked as a timestamp. |
| Sync.TableOrderIsConfig | Data/Access/sync_manager.py:18-28 | The start-up order visits every configured table exactly once. |
| Sync.SyncOnStartup | Data/Access/sync_manager.py:39-54 | Nothing happens without a client. Otherwise every configured table is synced once, in configuration order, each as `SyncTable` states. |

## Left out

- Browser page, `asyncio.sleep`, `async`/`await`, logging and `print`: timing and output only. The model treats `asyncio.sleep` and the awaits themselves as never raising.
- Interaction.ActionResult: every raised action error is caught, as `except Exception` does at line 58. A `BaseException` that is not an `Exception`, such as `asyncio.CancelledError` or `KeyboardInterrupt`, escapes the awaits of lines 45, 57, 67 and 74 and ends the run at once. That path is not modelled.
- Interaction.Execute: `max_retries` is always passed explicitly. The default `max_retries = 3` of line 14 is not modelled separately; it is the call with `maxRetries == 3`.
- The discovery service (`VisualAnalyzer.analyze_page_and_update_selectors`), the caller's `action_fn` and the internals of `knowledge_db`: foreign code. They are the `Environment` parameter. Discovery and the action each leave a whole map behind (possibly partly updated), whether they answer or raise.
- The remote database client and CSV file I/O. The remote side is a `RemoteTable` (rows in server order, plus which page requests raise) and a `Query` function. The CSV file is its rows, `Missing` or `Unreadable`. The written file is a header and records. CSV quoting, `DictReader` extra-column keys and a failed write (lines 242-243) are not modelled.
- `datetime.utcnow()`: a single `now` parameter. The source reads the clock again for each replaced column, so two replaced columns of one row could differ.
- Classify.ClassifyKeys: the order of `all_ids` iteration is unspecified, so the lists are stated as sets without repeats and not in a particular order.
- Classify.IndexKeys: states which keys the index holds and which row each key holds. It does not state that the key order is first-seen order.
- Pull.FinalFieldnames: `list(all_keys)` has no specified order, so only the position of the key column and of `last_updated` is stated.
- Regular-expression `\d` matches only ASCII digits here, and `str.isspace` is an enumerated character set. Unicode digits are not modelled.
- A remote `last_updated` that is not a string (a number, say) would raise in the string comparison. Remote timestamps are modelled as text or null.
- A server cap on rows per page below 1000 would end the paging early. Pages are modelled as exactly the requested range.
- Upsert.BatchUpsert: models the corrected order (NUL removal ahead of the gates). That order sends the same rows as the code whenever no conflict-key value contains a NUL (`Upsert.GatesAgree`). The as-written order is `Upsert.GatesAsWritten`.
- Sync.SyncTable: pushes only the rows of keys that have a local row (the correction below). With the code as written, such a key ends `sync_on_startup` with a `KeyError` for this and every later table.
- Sync.SyncTable: the `except` of lines 79-81 cannot fire, because the metadata fetch catches every error itself, so it is not modelled.
- Interaction: the executor's `page` argument is not modelled. The discovery's `info` text is modelled as the request kind and the last error.
- Sites/football_com/booker/booking_code.py, withdrawal.py and `__init__.py` are not part of this model. They are browser navigation glue, floating-point withdrawal limits and re-exports.

## Findings

| source | as written | input that shows it | evidently intended | confidence | as-written member | corrected member |
|---|---|---|---|---|---|---|
| Data/Access/sync_manager.py:107-130 | A key whose remote row has an empty `last_updated` is classified for pushing even when no local row has that key. Line 130 then indexes `local_data_map` with it and raises `KeyError`, which aborts the sync of this and every later table. | Remote metadata `{A: ""}` and a CSV file with no row keyed `A`. | Push only keys that have a local row. | not executed | Sync.RemoteOnlyKeyCrashes | Sync.PushRowsFacts |
| Data/Access/sync_manager.py:315-334 | The conflict-key filter and the de-duplication look at values before NUL characters are removed. Rows whose keys differ only by NUL pass both gates and then collide, and a key `"\0"` passes the filter but is sent as `""` (both shown by `Upsert.NulKeysCollide`). | Two rows with `team_id` `"7\0"` and `"7"`. | Remove NULs first, so that the gates see the values that are sent. | not executed | Upsert.NulKeysCollide | Upsert.GatesFacts |
