# Docker Hub rate-limit exporter, modelled in Dafny

The exporter publishes Docker Hub's pull rate limits as Prometheus gauges.
On each scrape, `DockerHubLimitCollector.collect` does four things:

1. It gets a bearer token from the Docker Hub auth endpoint. In LOGIN mode it uses basic auth; in ANONYMOUS mode it does not.
2. It sends a `HEAD` probe for a manifest. The probe returns the `ratelimit-limit` and `ratelimit-remaining` headers without using up a pull.
3. It parses each header value of the form `<count>;w=<seconds>`.
4. It yields one gauge per tracked header. The interval entries become labels shared by all the gauges.

Right after a real pull, the registry sometimes reports `remaining == limit`, which looks like a fresh quota. To filter this out, the collector remembers the last `remaining` it saw. When the new reading differs from it, the collector re-probes while `remaining == limit`, at most `MAX_FALSE_POSITIVE` (10) times.

The model is split by concern:

- `base.dfy`: `Option`, the Python exceptions the core can raise, and `Outcome`. An `Outcome` is a value, a raised exception, or `Exit(code)` for `os._exit`.
- `pystr.dfy`: the Python `str` operations the core relies on: `lower`, `split` and `replace`.
- `pyint.dfy`: Python's `int(str)`.
- `ordered_dict.dfy`: Python's insertion-ordered `dict`.
- `settings.dfy`: the credentials and the exporter name, passed in as a value.
- `token_provider.dfy`: `_get_token`.
- `limits.dfy`: `HEADERS`, `_parse_limit`, and the header scan of `get_limits`.
- `metrics.dfy`: the label and metric shaping of `collect`, as a method with its loop, proved against the function `Shape`.
- `collector.dfy`: the `DockerHubLimitCollector` class.
  - It has one mutable field, `lastRatelimitRemaining`.
  - `GetLimits` and `Collect` are written as loops. They are proved against the functions `FetchLimits`, `Probe` and `Settle`, and the lemmas about the retry behaviour are stated on those functions.
- `wsgi_app.dfy`: the path routing of `make_wsgi_app`'s `prometheus_app`.

The network is an oracle. A `collect` takes a sequence `exs` of `Exchange` values. Each `Exchange` holds the token endpoint's reply and the probe's reply for one call of `get_limits`; the `i`-th call reads `exs[i]`. `Collect` also returns how many of these calls it made.

`last_ratelimit_remaining` is either the int 200 or 100 stored by `__init__`, or a header text stored later. It is modelled as `Remembered = Initial(int) | Seen(string)`. In Python an int never equals a str, so on the first `collect` the value always counts as changed.

## Model

| member | source | states |
|---|---|---|
| PyStr.Lower | dockerhub_limit_exporter.py:202 | lower-casing keeps the length, leaves no upper-case letter, and keeps every other character |
| PyStr.Split | dockerhub_limit_exporter.py:253 | `split(";")` gives one more piece than there are separators, and no piece contains the separator |
| PyStr.JoinSplit | dockerhub_limit_exporter.py:253 | re-joining the pieces with the separator gives back the original text |
| PyStr.SplitJoin | dockerhub_limit_exporter.py:253 | splitting undoes a join of pieces that contain no separator |
| PyStr.SplitAtFirst | dockerhub_limit_exporter.py:253 | splitting `a;b`, where `a` has no separator, gives `a` followed by the pieces of `b` |
| PyStr.Replace | dockerhub_limit_exporter.py:217 | replacing a pattern by a text of the same length keeps the length |
| PyStr.ReplaceKeepsChars | dockerhub_limit_exporter.py:254 | every character of the result comes from the input or from the replacement |
| PyStr.ReplaceAbsent | dockerhub_limit_exporter.py:254 | text in which the pattern never occurs is left unchanged |
| PyStr.ReplaceKeepsPrefix | dockerhub_limit_exporter.py:254 | a prefix at none of whose positions the pattern starts is kept, and the pass goes on after it |
| PyStr.ReplaceKeepsBefore | dockerhub_limit_exporter.py:254 | the text before the first occurrence of the pattern is kept, and the pass goes on from there |
| PyStr.ReplaceAt | dockerhub_limit_exporter.py:254 | at an occurrence, the pattern becomes the replacement and the pass resumes after the whole occurrence |
| PyStr.ReplaceLeftmost | dockerhub_limit_exporter.py:254 | the leftmost occurrence is replaced first, and the scan resumes after it (non-overlapping, left to right) |
| PyStr.ReplaceChar | dockerhub_limit_exporter.py:217 | replacing `-` with `_` changes exactly the hyphens, position by position |
| PyInt.DecimalRoundTrip | dockerhub_limit_exporter.py:218 | `int(str(n)) == n` for every count |
| PyInt.ParseNegative | dockerhub_limit_exporter.py:218 | a minus sign before well-formed digits gives the negated value of the digits |
| PyInt.ParseInt | dockerhub_limit_exporter.py:218 | `int()` fails on text without a digit, the empty string included, and a negative value needs a minus sign in the text |
| OrderedDict.Put | dockerhub_limit_exporter.py:181-182 | `d[k] = v` stores the entry `(k, v)` and grows the dict by at most one entry |
| OrderedDict.GetPresent | dockerhub_limit_exporter.py:190-192 | `d[k]` finds a value, rather than raising `KeyError`, exactly when `k` is a key |
| OrderedDict.GetStored | dockerhub_limit_exporter.py:190-192 | a value found under `k` is one stored under `k` |
| OrderedDict.GetDistinct | dockerhub_limit_exporter.py:190-192 | with distinct keys, looking up `k` finds the value of the entry stored under `k` |
| OrderedDict.GetPut | dockerhub_limit_exporter.py:181-182 | after `d[k] = v`, `k` maps to `v` and every other key keeps its value |
| OrderedDict.PutKeys | dockerhub_limit_exporter.py:181-182 | `d[k] = v` keeps the key order and appends `k` only when it is new |
| OrderedDict.PutKeySet | dockerhub_limit_exporter.py:181-182 | `d[k] = v` adds `k` to the set of keys and nothing else |
| OrderedDict.PutDistinct | dockerhub_limit_exporter.py:181-182 | assignment never duplicates a key |
| TokenProvider.BasicAuth | dockerhub_limit_exporter.py:239-240 | basic auth is sent exactly in LOGIN mode, with the lower-cased user name and the password |
| TokenProvider.GetToken | dockerhub_limit_exporter.py:236-248 | the process exits, with status 1, exactly on a 401 in LOGIN mode; a token is returned only from a JSON object with a `token` field |
| TokenProvider.AnonymousNeverExits | dockerhub_limit_exporter.py:244-245 | in ANONYMOUS mode no reply ends the process |
| TokenProvider.StatusIgnoredBesidesLoginUnauthorized | dockerhub_limit_exporter.py:241-247 | apart from a 401 in LOGIN mode, two replies with the same body but different statuses give the same result |
| TokenProvider.TokenFromBody | dockerhub_limit_exporter.py:246-248 | a body with a `token` field yields that token, whatever the status, unless the process exits |
| Limits.TrackedNamesAre | dockerhub_limit_exporter.py:30-41 | the tracked names are exactly `ratelimit-limit` and `ratelimit-remaining` |
| Limits.ParseLimit | dockerhub_limit_exporter.py:251-254 | the value parses exactly when it holds one `;`; otherwise an unpacking error reports the number of pieces; neither part contains `;` |
| Limits.ParseLimitOf | dockerhub_limit_exporter.py:251-254 | `count;raw` parses to `count` and `raw` with every `w=` removed |
| Limits.ParseLimitShape | dockerhub_limit_exporter.py:251-254 | every accepted value has the form `count;raw` |
| Limits.ParseLimitRoundTrip | dockerhub_limit_exporter.py:251-254 | `count;w=window` parses back to `count` and `window` |
| Limits.ParseLimitExample | dockerhub_limit_exporter.py:251-254 | `100;w=21600` parses to `100` and `21600` |
| Limits.ScanHeaders | dockerhub_limit_exporter.py:178-182 | the header scan never exits, and it fails only with the unpacking error of some tracked header's value |
| Limits.ScanHeadersFailureSticks | dockerhub_limit_exporter.py:178-180 | a value that fails to parse ends the scan with that failure |
| Limits.ScanHeadersOk | dockerhub_limit_exporter.py:178-182 | the scan succeeds exactly when every tracked header's value has one `;`, and it never exits |
| Limits.ScanHeadersRecords | dockerhub_limit_exporter.py:178-182 | each tracked header's count and interval are those of its value, or are absent when the header is absent; untracked headers leave no trace. The lemma is stated for any sequence of headers, where a repeated name would leave its last value |
| Limits.LastValueMerged | dockerhub_limit_exporter.py:178 | for headers as `requests` hands them over, with no name repeated, the value the scan records for a header is that header's one value |
| Limits.ScanHeadersKeys | dockerhub_limit_exporter.py:178-182 | the table's keys are exactly each tracked header present plus its `-interval` key |
| Limits.ScanHeadersDistinct | dockerhub_limit_exporter.py:178-182 | no key occurs twice in the table |
| Limits.ScanHeadersSpec | dockerhub_limit_exporter.py:172-184 | the four facts above together |
| Metrics.Mangle | dockerhub_limit_exporter.py:217 | `key.lower().replace("-", "_")` keeps the length, leaves no hyphen or upper-case letter, turns each hyphen into `_`, and keeps the other characters |
| Metrics.MangleJoin | dockerhub_limit_exporter.py:217 | mangling `a-b` gives the mangled `a`, then `_`, then the mangled `b` |
| Metrics.MetricName | dockerhub_limit_exporter.py:217 | a gauge name is `dockerhub_` followed by as many characters as the key, none of them a hyphen or upper-case |
| Metrics.LimitMetricName | dockerhub_limit_exporter.py:217 | the limit gauge is named `dockerhub_ratelimit_limit` |
| Metrics.RemainingMetricName | dockerhub_limit_exporter.py:217 | the remaining gauge is named `dockerhub_ratelimit_remaining` |
| Metrics.UsernameLabel | dockerhub_limit_exporter.py:199-208 | the `dockerhub_username` label is the lower-cased user name in LOGIN mode and `anonymous` otherwise |
| Metrics.BaseLabels | dockerhub_limit_exporter.py:199-208 | the base labels map `job` to the exporter name and `dockerhub_username` to the user label, without duplicate keys |
| Metrics.FirstSpec | dockerhub_limit_exporter.py:212-213 | the lookup in `HEADERS` finds a row with that name, or there is none |
| Metrics.Descriptor | dockerhub_limit_exporter.py:212-214 | a tracked key's row is in `HEADERS`, carries its name, and is a gauge |
| Metrics.ShapeStep | dockerhub_limit_exporter.py:211-224 | one pass keeps the drafts made so far and adds at most one; it can only raise the `ValueError` of `int()` on that value |
| Metrics.ShapeStepSpec | dockerhub_limit_exporter.py:210-224 | one pass of the loop fails exactly on a tracked key whose value is not an integer; otherwise it drafts the gauge, or sets the label for an untracked key |
| Metrics.YieldMetrics | dockerhub_limit_exporter.py:226-234 | the yield loop produces one metric per draft, in order, with that draft's name, description, kind and value, every one carrying the same labels |
| Metrics.BuildMetrics | dockerhub_limit_exporter.py:209-234 | the loop and the yield produce exactly `Shape` of the table |
| Metrics.TrackedItems | dockerhub_limit_exporter.py:211 | each element is a tracked entry of the table |
| Metrics.TrackedItemsComplete | dockerhub_limit_exporter.py:211 | every tracked entry of the table is among them |
| Metrics.TrackedItemsConcat | dockerhub_limit_exporter.py:210-211 | the tracked entries of two tables in a row are those of the first followed by those of the second, so table order is kept |
| Metrics.ShapeLoop | dockerhub_limit_exporter.py:210-224 | the loop makes at most one draft per entry, and it can only raise the `ValueError` of `int()` |
| Metrics.ShapeLoopFailureSticks | dockerhub_limit_exporter.py:218 | once `int()` raises, the whole loop raises the same error |
| Metrics.ShapeLoopOk | dockerhub_limit_exporter.py:210-224 | the loop succeeds exactly when every tracked value is an integer, and it never exits |
| Metrics.ShapeLoopResult | dockerhub_limit_exporter.py:210-224 | one draft per tracked entry, in table order; the labels are the base labels with each untracked entry put under its mangled key |
| Metrics.ShapeLoopLabels | dockerhub_limit_exporter.py:210-224 | the loop's labels are the base labels with each untracked entry put under its mangled key, in order |
| Metrics.ShapeLoopDrafts | dockerhub_limit_exporter.py:210-224 | the loop drafts one gauge per tracked entry, in table order, from that entry's name and integer value |
| Metrics.FoldLabelsGet | dockerhub_limit_exporter.py:224 | a label holds the value of the last untracked entry that mangles to it, or else its base value |
| Metrics.Shape | dockerhub_limit_exporter.py:209-234 | at most one gauge per entry, all carrying the same labels; the only failure is the `ValueError` of `int()` |
| Metrics.ShapeSpec | dockerhub_limit_exporter.py:199-234 | `collect` fails exactly on a non-integer tracked value; otherwise one gauge per tracked entry, in order, named `dockerhub_<mangled key>`, valued `int(value)`, described from `HEADERS`, all with the same labels, holding `job` and `dockerhub_username` unless an untracked key overwrites them |
| Metrics.LastLabelFrom | dockerhub_limit_exporter.py:223-224 | a label that the table sets comes from an untracked key that mangles to its name |
| Metrics.ScanBaseLabels | dockerhub_limit_exporter.py:178-182 | a table built by the header scan never overwrites the `job` or `dockerhub_username` label |
| Metrics.ScanShapeLabels | dockerhub_limit_exporter.py:199-234 | every gauge shaped from a scanned table has `job` set to the exporter name and `dockerhub_username` set to the user label |
| Metrics.LastLabelOfKey | dockerhub_limit_exporter.py:224 | with distinct keys and no other key mangling to the same name, an untracked key's label holds its value |
| Metrics.IntervalLabelNames | dockerhub_limit_exporter.py:182 | the interval entries become the labels `ratelimit_limit_interval` and `ratelimit_remaining_interval` |
| Metrics.IntervalLabels | dockerhub_limit_exporter.py:178-182 | after a scan, each tracked header's interval, with `w=` removed from its last value, is the value of its interval label |
| Collector.Differs | dockerhub_limit_exporter.py:190 | the new `remaining` counts as changed exactly when it is not the remembered text, so an int remembered from `__init__` always differs |
| Collector.LooksResetStored | dockerhub_limit_exporter.py:192 | with distinct keys, a reading looks reset exactly when `remaining` and `limit` are both stored with the same value |
| Collector.NextRemembered | dockerhub_limit_exporter.py:197 | after a successful probe the remembered value is the text of the final `remaining`; after a failure it is unchanged |
| Collector.FetchLimits | dockerhub_limit_exporter.py:172-184 | `get_limits` exits exactly when the token request exits; on success the table is the header scan of the probe's response |
| Collector.Settle | dockerhub_limit_exporter.py:191-196 | the loop makes at most 10 re-probes; every reading it re-probes past has `remaining == limit`; a successful end holds both headers, and either they differ or 10 re-probes were made; the result is the last reading |
| Collector.Probe | dockerhub_limit_exporter.py:188-196 | 1 to 11 calls of `get_limits`; on success the result is the last reading and holds `remaining` |
| Collector.DockerHubLimitCollector.constructor | dockerhub_limit_exporter.py:166-170 | the remembered value starts as the int 200 in LOGIN mode and 100 otherwise |
| Collector.DockerHubLimitCollector.GetLimits | dockerhub_limit_exporter.py:172-184 | the header loop computes exactly `FetchLimits` |
| Collector.DockerHubLimitCollector.Collect | dockerhub_limit_exporter.py:186-234 | uses `Probe`'s number of calls; on success it remembers the final `remaining` and yields `Shape` of the final table; when probing raises, the remembered value is kept |
| Collector.CollectLabels | dockerhub_limit_exporter.py:186-234 | every gauge of a successful `collect` has `job` set to the exporter name and `dockerhub_username` set to the lower-cased user name, or `anonymous` |
| Collector.SettleStops | dockerhub_limit_exporter.py:191-194 | the loop ends with `KeyError` for a missing `remaining`, then for a missing `limit`, and ends on the current reading once `remaining != limit` or 10 re-probes were made |
| Collector.SettleStep | dockerhub_limit_exporter.py:191-196 | while `remaining == limit` and fewer than 10 re-probes were made, the loop goes on with the next reading, or ends with the failure of that `get_limits` call |
| Collector.ProbeStarts | dockerhub_limit_exporter.py:188-190 | a failing first `get_limits` call or a missing `remaining` ends the probing after one call; otherwise the loop is entered exactly when `remaining` differs from the remembered value |
| Collector.SettleReaches | dockerhub_limit_exporter.py:191-196 | when every reading before call `k` looks reset and call `k` succeeds, the loop carries on from call `k` |
| Collector.SettleThrough | dockerhub_limit_exporter.py:191-196 | the loop passes over readings that look reset, and stops with the failure of a re-probe that fails |
| Collector.ProbeOnlyWhileReset | dockerhub_limit_exporter.py:190-196 | re-probing happens only when the first `remaining` differs from the remembered one, and every reading before the last had `remaining == limit` |
| Collector.ProbeSettled | dockerhub_limit_exporter.py:191-194 | once the loop runs, a success ends with both headers present and either `remaining != limit` or exactly 10 re-probes |
| Collector.UnchangedNoReprobe | dockerhub_limit_exporter.py:190 | a reading whose `remaining` equals the remembered value is taken after one call |
| Collector.FirstCollectReprobes | dockerhub_limit_exporter.py:166-170 | on the first `collect` a reading with `remaining == limit` is always re-probed, because the int never equals the text |
| Collector.ProbeSettlesOnChange | dockerhub_limit_exporter.py:191-196 | after `k` readings that look reset, the first reading with `remaining != limit` is the result, after `k` re-probes |
| Collector.ProbePersistentReset | dockerhub_limit_exporter.py:154 | a registry that keeps answering `remaining == limit` is probed exactly 11 times, and its last answer is kept |
| Collector.ProbeFailsOnReprobe | dockerhub_limit_exporter.py:196 | a failing re-probe ends `collect` with that failure |
| Collector.MissingHeaders | dockerhub_limit_exporter.py:190-193 | a missing `remaining` raises `KeyError`; a missing `limit` raises only when `remaining` differs from the remembered value |
| Collector.ResponseWithoutLimit | dockerhub_limit_exporter.py:178-190 | a response with no `ratelimit-limit` whose `remaining` count equals the remembered one is accepted as a table without a limit |
| WsgiApp.PrometheusApp | dockerhub_limit_exporter.py:49-84 | a missing `PATH_INFO` raises `KeyError`. Otherwise every response starts with the 8 security headers and returns one body chunk. `/` gives 301 with `Location: /metrics` and an empty body. `/favicon.ico` gives 200 with an empty body. `/metrics` passes on a raise or an exit of `_bake_output`, which are those of `collect`; otherwise it gives the rendered status, headers and body. Any other path gives 404 with an empty body |

## Where the model follows the code over its documented intent

- The token request's status is checked only for a 401 in LOGIN mode. A 500 whose JSON body still carries a token yields that token (`TokenProvider.StatusIgnoredBesidesLoginUnauthorized`).
- A missing `ratelimit-limit` header does not always fail the collection. When `remaining` equals the remembered value, the loop condition is never evaluated. The table is then accepted, and only the `remaining` gauge is published (`Collector.MissingHeaders`, `Collector.ResponseWithoutLimit`).
- The state is updated before `int()` runs on the values. A collection that then fails on a non-integer count has already replaced the remembered value (`Collector.DockerHubLimitCollector.Collect`).
- Consider readings of `remaining/limit` of `100/200`, then `200/200`, then `150/200`. The code settles on `100` after one call, because the first reading does not look reset. It re-probes only past readings with `remaining == limit` (`Collector.ProbeSettlesOnChange` with `k = 0`). A reading of `200/200` followed by `150/200` settles on `150` after one re-probe (`k = 1`).
- The loop condition looks up both headers before it tests the retry bound. A missing header therefore raises even on the last allowed iteration.

## Left out

- Real HTTP is not modelled: `requests.get`, `requests.head`, timeouts, and the request URLs and auth headers. Each call's answer is an oracle parameter (`Exchange`), and the oracle does not see what was sent.
- JSON decoding is reduced to three cases: not JSON, not an object, or an object with string values.
- `os._exit(1)` is the result `Exit(1)`; the process is not terminated.
- Several parts of the process are not modelled: the WSGI server, the daemon thread of `start_wsgi_server`, the `while True: sleep` main loop, and the `REGISTRY.unregister` calls.
- Logging, the timezone setup and the environment parsing are not modelled. The credentials and the exporter name are the `Config` passed to the constructor.
- The internals of `prometheus_client` are not modelled. A metric is a plain record. The outcome of `_bake_output`, the rendered page or the failure of `collect`, is a parameter of `PrometheusApp`.
- Collector.DockerHubLimitCollector.Collect: `collect` is a generator, so in Python its body (and the state update) runs only when the first metric is requested. The model runs it to completion in one call.
- The race on `last_ratelimit_remaining` between overlapping scrapes is not modelled; it is a matter of concurrency.
- Header lookup in `requests` is case-insensitive, but the scan uses the header names as the response gives them. The model matches names exactly and case-sensitively, as the scan's membership test does.
- The response headers are `request.headers.items()`, in which `requests` has already joined repeated header lines with `", "` and merged names that differ only in case. That joining is not modelled: the headers are a plain sequence, and the scan lemmas also cover sequences that repeat a name, which `requests` never delivers (`Limits.MergedNames`, `Limits.LastValueMerged`). Two `ratelimit-limit` lines therefore reach the program as one value with two `;`, which fails to unpack.
- PyStr.Lower: only the Latin-1 upper-case letters are lowered. The rest of Unicode case mapping is not modelled.
- PyInt.ParseInt: only Latin-1 whitespace and ASCII digits are recognised. Python's limit of 4300 digits is not modelled.
- The oracle is finite: `Collect` requires at least 11 exchanges, the most one collection can use.
