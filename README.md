# Log analysis services, modelled in Dafny

This project models the four services of the log-analysis API
(`api/src/services/`). Together they form a batch pipeline:

- **Parser** (`parser.ts`). `parseLine` turns one access-log line
  `TS SRC_IP METHOD HOST PATH STATUS BYTES` into an event, or rejects it.
  `parseLog` splits a text on `\r?\n`, skips blank lines and keeps the
  events of the lines that parse, in order.
- **Anomaly detector** (`anomaly.ts`). It groups the events by source
  address and reports a `burst_requests` finding for every source with at
  least four events. It then reports an `error_response` finding for every
  event with status 400 or more.
- **Timeline** (`timeline.ts`). It puts the events into one-minute windows,
  skipping events whose timestamp does not parse. For each window it gives
  the number of events and the most frequent source. The windows come back
  in ascending key order.
- **Summary** (`summary.ts`). It gives the number of events, the three most
  frequent sources and paths, and the share of error responses.

Each file takes the form of its source:

- `parseLine` is a pure function.
- `parseLog`, `detectAnomalies`, `buildTimeline` and `buildSummary` are
  methods with loops.
- Each method is proved equal to a specification function: `CollectEvents`,
  `Findings`, `Buckets` and `Summarize`.
- The meaning of each specification function is proved in lemmas.

Modules:

- `Wrappers` (`wrappers.dfy`): `Option`.
- `JsText` (`jstext.dfy`): the JavaScript string built-ins the parser uses.
  These are `trim`, `split(/\s+/)`, `split(/\r?\n/)`, `Number` on decimal
  digits, `${n}` and string comparison.
- `Parser` (`parser.dfy`): `LogEvent`, `parseLine`, `parseLog` and the lines
  of `parser.test.ts`.
- `Ranking` (`ranking.dfy`): the counting pattern that the anomaly, timeline
  and summary services share. A record is used as a counter, enumerated
  with `Object.entries` in key insertion order, then sorted stably by
  count, highest first.
- `Anomalies` (`anomaly.dfy`), `Timeline` (`timeline.dfy`) and `Summary`
  (`summary.dfy`): one module per service.

Conventions:

- A JavaScript record or `Map` that a loop fills is a Dafny `map`, paired
  with a `seq` of its keys in insertion order.
- `null` is `Option.None`.
- Numbers that count things are `nat`. Confidences and the error rate are
  `real`.

## Model

| member | source | states |
|---|---|---|
| Parser.IsError | api/src/services/anomaly.ts:33 | an event is an error response when its status is at least 400, the test both `anomaly.ts:33` and `summary.ts:19` apply |
| Parser.ErrorEvents | api/src/services/summary.ts:19 | the error responses of a log in input order, at most as many as the events; `ErrorEventsAppend` and `ErrorEventsMembers` characterise it |
| Parser.ParseLine | api/src/services/parser.ts:13-33 | an accepted line keeps the untrimmed input as `raw` |
| Parser.ParseLineRejectsShort | api/src/services/parser.ts:14-15 | a line with fewer than seven whitespace-separated fields is rejected |
| Parser.ParseLineAccepts | api/src/services/parser.ts:14-21 | a line is accepted exactly when it has at least seven fields and fields 6 and 7 are numbers; the empty-field guard never rejects anything |
| Parser.ParseLineFields | api/src/services/parser.ts:17-31 | ts, srcIp, method, destHost and path are fields 1 to 5 in that order (method before host); status and bytes are the values of fields 6 and 7; raw is the line |
| Parser.BlankLineRejected | api/src/services/parser.ts:14-15 | a blank or whitespace-only line is rejected |
| Parser.ParseLineIgnoresExtraField | api/src/services/parser.ts:17 | appending whitespace and another field to an accepted line changes only `raw` |
| Parser.ParseLineOfFields | api/src/services/parser.ts:13-33 | seven or more fields joined by spaces, with decimal fields 6 and 7, parse to an event holding exactly those fields |
| Parser.IsBlank | api/src/services/parser.ts:39 | `!line.trim()`: the line trims to the empty string |
| Parser.CollectEvents | api/src/services/parser.ts:36-43 | the events `parseLog` keeps from its lines: for each line in order, nothing when it is blank or `parseLine` rejects it, else its event |
| Parser.ParseLog | api/src/services/parser.ts:35-44 | the loop returns `CollectEvents` of the lines of the text |
| Parser.CollectEventsAppend | api/src/services/parser.ts:38-42 | the events of two runs of lines are those of the first followed by those of the second: line by line, in input order |
| Parser.CollectEventsOfLine | api/src/services/parser.ts:39-41 | a single line contributes its event when it parses and nothing otherwise; blank lines are skipped |
| Parser.CollectEventsBound | api/src/services/parser.ts:36-43 | there are no more events than non-blank lines |
| Parser.CollectEventsSound | api/src/services/parser.ts:39-41 | every event comes from a non-blank input line that parses to exactly that event |
| Parser.CollectEventsComplete | api/src/services/parser.ts:40-41 | every line that parses has its event collected |
| Parser.CollectEventsAllAccepted | api/src/services/parser.ts:38-42 | when every line parses there is one event per line |
| Parser.ValidLineParses | api/src/services/parser.test.ts:4-10 | the valid test line parses with srcIp "10.0.0.1" and status 200 |
| Parser.NotATimestampLineAccepted | api/src/services/parser.test.ts:5-13 | the line the test expects to be rejected is accepted, with ts "not-a-timestamp" |
| Parser.TestLogGivesThreeEvents | api/src/services/parser.test.ts:15-17 | the test's three-line log gives three events, not the two the test expects |
| Parser.ErrorEventsOfOne | api/src/services/summary.ts:19 | a single event counts as an error exactly when its status is at least 400 |
| Parser.ErrorEventsAppend | api/src/services/anomaly.ts:32-33 | the error events of a concatenation are those of each part, in order |
| Parser.ErrorEventsMembers | api/src/services/anomaly.ts:32-33 | an event is among the errors exactly when it is an event with status at least 400 |
| JsText.IsSpace | api/src/services/parser.ts:14 | the characters `\s` matches and `trim` removes: ECMAScript white space and line terminators |
| JsText.Trim | api/src/services/parser.ts:14 | `String.prototype.trim`: `TrimStart` then `TrimEnd`; `TrimSlice`, `TrimEmpty` and `TrimParts` characterise it |
| JsText.TrimStart | api/src/services/parser.ts:14 | the result is no longer than the input and does not start with whitespace |
| JsText.TrimEnd | api/src/services/parser.ts:14 | the result is no longer than the input and does not end with whitespace |
| JsText.TrimSlice | api/src/services/parser.ts:14 | `trim` keeps a contiguous part of the line and drops only whitespace before and after it |
| JsText.TrimEmpty | api/src/services/parser.ts:39 | a line trims to the empty string exactly when it is all whitespace |
| JsText.TrimParts | api/src/services/parser.ts:14 | the trimmed line has no whitespace at either end, and is empty exactly when the line is all whitespace |
| JsText.TrimOfTrimmed | api/src/services/parser.ts:14 | trimming a trimmed string changes nothing |
| JsText.SplitWs | api/src/services/parser.ts:14 | `split(/\s+/)`: the pieces between maximal whitespace runs, at least one; `SplitTrimmedIsWords` and `SplitJoinWords` characterise it |
| JsText.Tokens | api/src/services/parser.ts:14 | the fields of a line, `line.trim().split(/\s+/)` |
| JsText.WordEnd | api/src/services/parser.ts:14 | the first field ends at the first whitespace character |
| JsText.SplitTrimmedIsWords | api/src/services/parser.ts:14 | splitting a trimmed non-empty string on whitespace gives non-empty fields without whitespace |
| JsText.SplitJoinWords | api/src/services/parser.ts:14 | splitting fields joined by single spaces gives the fields back |
| JsText.TokensAppendWord | api/src/services/parser.ts:14 | appending whitespace and a field to a non-blank line appends that field to its fields |
| JsText.SplitLines | api/src/services/parser.ts:36 | at least one line, none holding a newline |
| JsText.SplitJoinLines | api/src/services/parser.ts:36 | splitting lines joined with "\n" gives them back, when none ends in "\r" |
| JsText.JoinedWordsAreOneLine | api/src/services/parser.test.ts:15 | fields joined by spaces hold no newline and do not end in "\r" |
| JsText.ToNumber | api/src/services/parser.ts:18-21 | a field converts exactly when it is a non-empty string of decimal digits |
| JsText.NumberToString | api/src/services/anomaly.ts:36 | `${n}` for n < 10^21 is a non-empty digit string without a leading zero |
| JsText.NumberRoundTrip | api/src/services/anomaly.ts:36 | converting `${n}` back with `Number` gives n |
| JsText.LexLeq | api/src/services/timeline.ts:31 | `localeCompare(...) <= 0` on the window keys, as lexicographic order by character |
| JsText.LexAntisymmetric | api/src/services/timeline.ts:31 | two keys that each sort no later than the other are equal |
| JsText.LexTransitive | api/src/services/timeline.ts:31 | comparing keys is transitive |
| Ranking.Count | api/src/services/summary.ts:17-18 | the number of occurrences of a key in a list: the value `(counts[k] ?? 0) + 1` reaches after the loop |
| Ranking.Distinct | api/src/services/summary.ts:17-18 | the keys of a record filled from a list are exactly the list's elements |
| Ranking.DistinctNoDups | api/src/services/summary.ts:17-18 | no key of such a record is listed twice |
| Ranking.DistinctAppend | api/src/services/summary.ts:17 | one more element adds its key at the end when it is new, and nothing otherwise |
| Ranking.FirstIndex | api/src/services/summary.ts:17 | the position of the first occurrence, or the length when absent |
| Ranking.DistinctFirstOccurrenceOrder | api/src/services/summary.ts:17-18 | record keys are in the order of their first occurrence |
| Ranking.CountPositive | api/src/services/summary.ts:17 | an element is counted at least once exactly when it occurs |
| Ranking.Increment | api/src/services/summary.ts:17-18 | `counts[x] = (counts[x] ?? 0) + 1` keeps the record equal to the counts of the list with x appended, new keys going last |
| Ranking.CountsEntries | api/src/services/summary.ts:22 | `Object.entries` of the filled record is the tally of the list |
| Ranking.Entries | api/src/services/summary.ts:22 | `Object.entries` of a record: one `[key, value]` pair per key, in key insertion order |
| Ranking.Tally | api/src/services/summary.ts:16-22 | the entries of the record that counts a list: each key once, in first-occurrence order, with its count |
| Ranking.TallyOf | api/src/services/summary.ts:22-23 | each listed key carries its number of occurrences |
| Ranking.TallyEntries | api/src/services/summary.ts:22-23 | each entry is a key of the list with its true count, each key of the list has its entry, and keys are distinct |
| Ranking.SumTally | api/src/services/timeline.ts:23-26 | the counts of the record add up to the length of the list |
| Ranking.InsertByCount | api/src/services/summary.ts:24 | insertion adds exactly one entry |
| Ranking.SortByCount | api/src/services/summary.ts:24 | the sort is a permutation |
| Ranking.SortByCountSorted | api/src/services/summary.ts:24 | sorted entries are in non-increasing order of count |
| Ranking.SortByCountDistinctKeys | api/src/services/summary.ts:24 | sorting keeps keys distinct |
| Ranking.SortByCountStable | api/src/services/summary.ts:24 | entries with equal counts stay in the order of their keys' first occurrence |
| Ranking.TallyInFirstOccurrenceOrder | api/src/services/summary.ts:22 | entries are in the order of their keys' first occurrence |
| Ranking.RankedTally | api/src/services/summary.ts:22-25 | the ranked tally has one entry per distinct key with its true count, non-increasing, ties in first-occurrence order |
| Ranking.TopOfRanked | api/src/services/timeline.ts:27 | for a non-empty list the first ranked key occurs, has the highest count, and occurs first among keys with that count |
| Ranking.Take | api/src/services/summary.ts:25 | `slice(0, n)` keeps the first min(n, length) entries |
| Anomalies.FromSource | api/src/services/anomaly.ts:14-18 | the list `byIp[ip]`: the events from `ip` in input order |
| Anomalies.Sources | api/src/services/anomaly.ts:14-20 | the keys of `byIp` in insertion order: each source once, in first-occurrence order |
| Anomalies.Burst | api/src/services/anomaly.ts:22-27 | the `burst_requests` finding for a source: its explanation, confidence 0.7 and the last event of its list |
| Anomalies.Bursts | api/src/services/anomaly.ts:20-29 | the burst loop: for each source in key order, its burst finding when its list holds at least four events |
| Anomalies.ErrorFinding | api/src/services/anomaly.ts:34-39 | the `error_response` finding for an event: its explanation, confidence 0.5 and the event |
| Anomalies.ErrorFindings | api/src/services/anomaly.ts:32-41 | the error loop: one error finding per event with status at least 400, in input order |
| Anomalies.Findings | api/src/services/anomaly.ts:10-43 | what `detectAnomalies` returns: the burst findings followed by the error findings |
| Anomalies.DetectAnomalies | api/src/services/anomaly.ts:10-44 | the grouping loop and the two rule loops return `Findings(events)` |
| Anomalies.GroupBySource | api/src/services/anomaly.ts:14-18 | `byIp` maps each source, in first-occurrence order, to its events in input order |
| Anomalies.FromSourceAppend | api/src/services/anomaly.ts:16-17 | one more event joins the list of its own source only |
| Anomalies.FromSourceCount | api/src/services/anomaly.ts:14-18 | a source's list holds only its events, as many as the source has requests |
| Anomalies.LastFromSource | api/src/services/anomaly.ts:16-17 | the last event in the list is the source's last event in input order |
| Anomalies.OneBurstPerBusySource | api/src/services/anomaly.ts:20-29 | exactly one burst finding per source with at least four events, and none for any other source |
| Anomalies.BurstsOfBusy | api/src/services/anomaly.ts:20-29 | one burst finding per busy source, in order, each carrying the last event of its list |
| Anomalies.BusyOf | api/src/services/anomaly.ts:21 | no more busy sources than sources |
| Anomalies.BusyOfMembers | api/src/services/anomaly.ts:20-21 | busy sources are listed once each, and are exactly the listed sources with at least four events |
| Anomalies.BusySources | api/src/services/anomaly.ts:20-21 | the busy sources of the log are exactly the sources with at least four requests, listed once each |
| Anomalies.BurstSource | api/src/services/anomaly.ts:26 | a burst finding's event comes from the finding's source |
| Anomalies.NoEventsNoFindings | api/src/services/anomaly.ts:10-43 | `detectAnomalies([])` returns no findings |
| Anomalies.FindingsShape | api/src/services/anomaly.ts:20-41 | all bursts come first, then one error finding per error event in input order; length = busy sources + error events |
| Anomalies.BurstEventIsLast | api/src/services/anomaly.ts:26 | every burst finding carries the last event, in input order, from its source |
| Anomalies.ErrorFindingsOfErrors | api/src/services/anomaly.ts:32-41 | error findings correspond one to one, in order, to the events with status at least 400, each carrying its event |
| Anomalies.BurstCountAppend | api/src/services/anomaly.ts:20-41 | burst findings about a source add up over concatenation |
| Anomalies.BurstCountOfBursts | api/src/services/anomaly.ts:20-29 | the burst loop reports a listed source once when it has at least four events, and otherwise not at all |
| Anomalies.ErrorFindingsAreErrors | api/src/services/anomaly.ts:32-41 | the error loop reports no bursts |
| Anomalies.BurstConfidences | api/src/services/anomaly.ts:22-27 | bursts have rule `burst_requests` and confidence 0.7 |
| Anomalies.ErrorConfidences | api/src/services/anomaly.ts:34-39 | errors have rule `error_response` and confidence 0.5 |
| Anomalies.Confidences | api/src/services/anomaly.ts:22-39 | every finding has one of the two rules with its constant confidence, which lies between 0 and 1 |
| Timeline.Stamped | api/src/services/timeline.ts:12-13 | the events whose timestamp parses, in input order |
| Timeline.Windows | api/src/services/timeline.ts:12-17 | the window key of each event whose timestamp parses, in input order |
| Timeline.InWindow | api/src/services/timeline.ts:17-18 | the list `buckets.get(w)`: the events keyed to window `w`, in input order |
| Timeline.TopSource | api/src/services/timeline.ts:23-27 | the first key of the source tally ranked by count, or "-" when there is none |
| Timeline.Bucket | api/src/services/timeline.ts:22-28 | the bucket pushed for a window: the window, the length of its list and its top source |
| Timeline.Buckets | api/src/services/timeline.ts:9-31 | what `buildTimeline` returns: one bucket per window in first-occurrence order, then sorted by window |
| Timeline.BuildTimeline | api/src/services/timeline.ts:9-32 | the loops and the sort return `Buckets(events, key)`, whatever `windowMinutes` is |
| Timeline.GroupByWindow | api/src/services/timeline.ts:10-19 | `buckets` maps each window, in first-occurrence order, to its events in input order |
| Timeline.TopSrcIp | api/src/services/timeline.ts:23-27 | the counting loop and the pick of the first ranked entry give `TopSource` |
| Timeline.WindowsStep | api/src/services/timeline.ts:12-16 | one more event adds its window key exactly when its timestamp parses |
| Timeline.InWindowStep | api/src/services/timeline.ts:17-18 | one more event joins its own window only |
| Timeline.InWindowMembers | api/src/services/timeline.ts:12-18 | a window holds exactly the events whose key is that window, as many as there are such keys |
| Timeline.WindowsMembers | api/src/services/timeline.ts:12-16 | a key occurs exactly when some event maps to it; one key per parseable event |
| Timeline.StampedWindows | api/src/services/timeline.ts:12-13 | dropping the events whose timestamp does not parse keeps every window's contents |
| Timeline.UnstampedIgnored | api/src/services/timeline.ts:12-13 | events whose timestamp does not parse affect no bucket |
| Timeline.SameKeysSameWindows | api/src/services/timeline.ts:14-16 | windows depend only on each timestamp's key |
| Timeline.OnlyKeysMatter | api/src/services/timeline.ts:14-16 | the buckets depend on the timestamps only through their minute keys |
| Timeline.BucketsOf | api/src/services/timeline.ts:22-28 | one bucket per window |
| Timeline.BucketsOfAppend | api/src/services/timeline.ts:28 | pushing a bucket adds it at the end |
| Timeline.MemberOfBucketsOf | api/src/services/timeline.ts:22-28 | every bucket is the bucket of one of the windows |
| Timeline.InsertByWindow | api/src/services/timeline.ts:31 | insertion adds exactly one bucket |
| Timeline.SortByWindow | api/src/services/timeline.ts:31 | the sort is a permutation |
| Timeline.InsertKeepsSortedByWindow | api/src/services/timeline.ts:31 | insertion keeps buckets sorted by window |
| Timeline.SortByWindowSorted | api/src/services/timeline.ts:31 | sorted buckets are in ascending window order |
| Timeline.SortByWindowDistinct | api/src/services/timeline.ts:31 | sorting keeps windows distinct |
| Timeline.SortKeepsSum | api/src/services/timeline.ts:31 | sorting keeps the total count |
| Timeline.WindowsAscending | api/src/services/timeline.ts:10-31 | window keys are unique and strictly ascending |
| Timeline.BucketCounts | api/src/services/timeline.ts:17-28 | each bucket's count is the number of events in its window, at least one |
| Timeline.BucketWindows | api/src/services/timeline.ts:10-22 | there is a bucket for a key exactly when some event's timestamp maps to it |
| Timeline.CountsAddUp | api/src/services/timeline.ts:17-28 | the counts add up to the number of events whose timestamp parses |
| Timeline.TopSourceOfBucket | api/src/services/timeline.ts:23-28 | the top source occurs in the window with the highest count there, comes first among equals, and is never the "-" fallback (for sources that are not inherited record keys) |
| Summary.TopThree | api/src/services/summary.ts:22-30 | `Object.entries(counts).map(...).sort(...).slice(0, 3)` for the record that counts a list |
| Summary.ErrorRate | api/src/services/summary.ts:32 | `errorCount / totalEvents` for a non-empty log, and 0 otherwise |
| Summary.Summarize | api/src/services/summary.ts:10-35 | what `buildSummary` returns: the number of events, the top three sources and paths, and the error rate |
| Summary.BuildSummary | api/src/services/summary.ts:10-35 | the counting loop and the pipelines return `Summarize(events)` |
| Summary.TopThreeRanked | api/src/services/summary.ts:22-30 | min(3, distinct keys) entries with distinct keys, non-increasing counts, ties in first-insertion order, each with its true frequency |
| Summary.OmittedKeysRankLower | api/src/services/summary.ts:22-30 | a key not reported occurs no more often than the last reported one, and then three are reported |
| Summary.ReportedCounts | api/src/services/summary.ts:16-18 | every reported source and path occurs, with its true number of events |
| Summary.ErrorRateShare | api/src/services/summary.ts:14-32 | errorRate is errorCount / totalEvents with errorCount the events with status at least 400; it is 0 for no events and lies in [0, 1] |

## Left out

- `Number`: the model converts only non-empty strings of decimal digits, giving a `nat`. The source also accepts signs, decimals, exponents, hexadecimal, `Infinity` and surrounding whitespace. A line with such a status or bytes field is accepted by the source and rejected by the model.
- Date handling: `new Date(ts)`, the local-time `setSeconds(0, 0)` and `toISOString().slice(0, 16)`. Together they are the `MinuteKey` parameter of the timeline. The model states what the timeline does for any such key function. It does not model JavaScript date parsing or time zones.
- `localeCompare`: modelled as lexicographic comparison by character. For the fixed-shape `YYYY-MM-DDTHH:MM` keys the two give the same order.
- Record key order: when JavaScript enumerates a record, integer-like keys such as "123" come first in numeric order. The model enumerates keys in plain insertion order.
- Inherited record keys: a source or path equal to a key of `Object.prototype` is not modelled; the model treats it as an ordinary key. In the source:
  - Keys whose inherited value is a function, such as "constructor" or "toString":
    - `byIp[k]` at `anomaly.ts:16` is that function, so no list is created. The `push` at `anomaly.ts:17` then throws a `TypeError`, so `detectAnomalies` fails where the model returns ordinary findings.
    - `(counts[k] ?? 0) + 1` at `summary.ts:17-18` and `timeline.ts:25` concatenates the function's source text with "1". That key's count becomes a string rather than a number.
  - The key "__proto__":
    - `byIp[k]` at `anomaly.ts:16` is `Object.prototype`, an object. No list is created, and the `push` at `anomaly.ts:17` throws a `TypeError`.
    - `(counts[k] ?? 0) + 1` at `summary.ts:17-18` and `timeline.ts:25` gives the string "[object Object]1". The `__proto__` setter ignores that non-object value, so the key never becomes an own key and `Object.entries` skips it.
    - That source or path therefore drops out of `topSrcIps` and `topPaths` in `summary.ts`, and out of the ranking at `timeline.ts:27`.
    - A window whose events all come from source "__proto__" gets `topSrcIp` "-" in the source. The model gives "__proto__", so `Timeline.TopSourceOfBucket`'s "never the '-' fallback" holds only for sources that are not inherited keys.
- Floating point: confidences and the error rate are exact reals, not IEEE doubles.
- JsText.ToNumber: `status` and `bytes` are exact naturals. In the source they are IEEE doubles, so a digit string above 2^53 rounds to the nearest double: "9007199254740993" gives 9007199254740992. A digit string whose value exceeds the largest double (about 1.8 × 10^308; every string of 310 or more digits without leading zeros) converts to `Infinity`, which the `Number.isNaN` guard at `parser.ts:21` accepts. Decisions on `status >= 400` are not affected, because rounding keeps the order of numbers, 400 is exact and `Infinity` is above it.
- JsText.NumberToString: gives the plain digit string for every n. From 10^21 up JavaScript prints exponent form, so a status of 10^21 gives the explanation "Error response 1e+21 for /p" in the source and a 22-digit number in the model. A status that converted to `Infinity` gives "Error response Infinity for /p" in the source and its digits in the model.
- Sorting in place: `Array.prototype.sort` is modelled as an insertion sort on values. Any stable sort gives the same order as an insertion sort, and the in-place update of the array is not modelled.
- `LogEvent.method`: the field is named `httpMethod`, because `method` is a Dafny keyword.
- `Anomaly.event`: it is an `Option`, matching the optional field of the record type. Both rules always set it.
- The `{ ip, count }` and `{ path, count }` records are both the `KeyCount` datatype.
- Behaviour that the test file expects but the code does not have:
  - `parseLogWithStats`, which `parser.test.ts` imports, is not defined in `parser.ts` and is not modelled.
  - The test expects the `not-a-timestamp` line to be rejected, but the code never validates the timestamp. The model follows the code: see `Parser.NotATimestampLineAccepted` and `Parser.TestLogGivesThreeEvents`.
- Behaviour described for the system but absent from these files is not modelled. This covers a multi-dialect parser, timestamp validation, and z-score, rare-destination and large-transfer rules.
- The HTTP routes, authentication, the database layer and the web front end are not part of this model. They are I/O, hashing, token signing and UI state.
