# go-stats: a verified model of the crawler's core

go-stats builds a dependency graph of the Go module ecosystem. It reads module
paths and repository URLs and asks the Go module proxy (`proxy.golang.org`) and
the module index (`index.golang.org`) about them. It writes module nodes and
`DEPENDS_ON` edges to a graph store, and CSV files in between. This project
models the decision logic of its commands in Dafny and proves what each one
promises:

- `Semver` (`semver/semver.go`) covers the version splitter `Parse`: one leading
  `v` is stripped, then a label is cut at the first `-` (or, if there is no `-`,
  at the first `+`), then the core is split into exactly three dot-separated
  tokens.
- `GoProxy` (`goproxy/goproxy.go`) covers the proxy client:
  - the URLs of the latest-info, info and go.mod requests, with and without
    `/cached-only`;
  - how an HTTP exchange becomes a value or one of the client's errors;
  - the query of the index request and its decode loop.
- `ProcessModules` (`cmd/process-modules.go`) covers the frontier crawler:
  - seed loading with lower-cased paths;
  - admission of a path to the queue the first time it is seen;
  - the two-tier lookup of one module: cached-only first, then authoritative
    only when the cache does not know the module;
  - the direct-requirement filter and the dependency rows it writes;
  - the `extractOrg` organisation label;
  - a sequential run of the handler over a bounded number of modules.
- `ListGoProxyLatest` (`cmd/list-goproxy-latest.go`) covers the latest-version
  policy (backoff over the cached lookup, then one authoritative lookup) and the
  dispatcher, which looks each distinct name up once.
- `EnrichLatest` (`cmd/enrich-latest.go`) covers the CSV reader and the batched
  graph update: records whose version does not parse are skipped, batches hold
  at most 1000 updates, and a final flush writes the rest.
- `ListGoProxyModules` (`cmd/list-goproxy-modules.go`) covers the index producer
  and its stop-after-`until` rule, plus the `path@version` dedup of the consumer.
- `RepositoriesToModules` (`cmd/repositories-to-modules.go`) covers
  `normalizeRepository`, its GitHub URL pattern, and the input filter.

Helper modules:

- `Wrappers`: `Option` and `Result`.
- `Strings`: models of the Go `strings` functions the core calls.
- `Sequences`: a filter-map over sequences.
- `Dedup`: first occurrence by key, which admission, the index consumer and the
  name dispatcher all share.
- `Mod`: the `golang.org/x/mod` values.

External systems are parameters of the model:

- Every HTTP exchange, decoded JSON body and parsed go.mod file is an *oracle*,
  a function argument that stands for what the real service returned.
- Every graph-store write is an oracle answering whether that write succeeded.

Code that changes state in place is imperative Dafny:

- the admission set and queue form the class `ProcessModules.Frontier`;
- the batch and the write session are the classes `EnrichLatest.Batch` and
  `EnrichLatest.Session`;
- the loops of the source are `while`/`for` loops with their invariants.

Each such method is proved against a specification function. The Dedup
functions, `Chunks`, `Produced` and the others are those specification
functions, and the lemmas about them state what the source promises.

The node written for a module is keyed by the `module` line of the fetched
go.mod file, both path and version (cmd/process-modules.go:244-251 and 270-272),
not by the version the lookup resolved. `ProcessModules.ProcessedWritesNodeThenRows`
states that key. The node and its dependency rows are two separate writes, the
node first (lines 245-251, then 281-297), and the model makes the same two
writes.

## Model

| member | source | states |
|---|---|---|
| Semver.Parse | semver/semver.go:24-25 | A failed parse returns the zero `SemanticVersion` along with its error |
| Semver.ParseFailsIff | semver/semver.go:16-26 | Parse fails exactly when the part before the label does not split on `.` into three tokens, and the error names that part |
| Semver.ParseSuccessShape | semver/semver.go:16-28 | On success, the three tokens joined by `.` give back the core, no token contains `.`, and the label is what follows the first `-` (or the first `+` when there is no `-`) |
| Semver.ParseRoundTrip | semver/semver.go:15-29 | For dot- and dash-free tokens, `v`+a.b.c+`-`+l parses to (a, b, c, l) with no error |
| Semver.ParseRoundTripPlus | semver/semver.go:15-29 | For tokens free of `.`, `-`, `+` and a label free of `-`, `v`+a.b.c+`+`+l parses to (a, b, c, l) |
| Semver.ParseRoundTripBare | semver/semver.go:15-29 | For tokens free of `.`, `-`, `+`, `v`+a.b.c parses to (a, b, c) with an empty label |
| Semver.ParseDashLabel | semver/semver.go:16-28 | Whatever tag was stripped, a core a.b.c followed by `-`+l parses to (a, b, c, l) |
| Semver.ParsePlusLabel | semver/semver.go:18-28 | With no `-` anywhere, the label is cut at `+` |
| Semver.ParseNoLabel | semver/semver.go:18-28 | With neither `-` nor `+`, the label is empty and the tokens are the core's |
| Semver.ParseKeepsSecondTag | semver/semver.go:16 | Only one leading `v` is stripped: `vv1.2.3` has major `v1` |
| Semver.ParseRejectsTwoTokens | semver/semver.go:23-25 | `1.2` is rejected with the zero value and an error naming `1.2` |
| Semver.ParseCutsDashFirst | semver/semver.go:18-23 | `-` is tried before `+`: `1.2.3+m-x` has patch `3+m` and label `x` |
| Semver.ParseExampleDash | semver/semver.go:15-29 | `v1.2.3-beta.1` parses to (1, 2, 3, beta.1) |
| GoProxy.CachedOnlyPath | goproxy/goproxy.go:106-108 | The `/cached-only` segment is present exactly when `cachedOnly` holds |
| GoProxy.LatestInfoURLCachedOnly | goproxy/goproxy.go:105-110 | The two latest-info URLs of a module differ exactly in the flag, and the cached one is the proxy URL, then `/cached-only`, then the rest of the uncached URL |
| GoProxy.InfoURLCachedOnly | goproxy/goproxy.go:138-143 | The same for the `.info` URL |
| GoProxy.ModFileURLCachedOnly | goproxy/goproxy.go:167-172 | The same for the `.mod` URL |
| GoProxy.URLsDistinguishModules | goproxy/goproxy.go:105-110 | Different module paths give different latest-info, info and go.mod URLs |
| GoProxy.InfoAndModFileURLsDiffer | goproxy/goproxy.go:138-143 | The info and go.mod URLs of one module version never coincide |
| GoProxy.CachedOnlySegmentIsAmbiguous | goproxy/goproxy.go:105-110 | The path is not escaped: the uncached URL of a path `cached-only/p` is the cached URL of `p` |
| GoProxy.TransportError | goproxy/goproxy.go:110-118 | An exchange gets no status exactly when the request could not be built or sent, and each case yields its own error |
| GoProxy.LatestInfoOutcomeSpec | goproxy/goproxy.go:121-132 | A value comes only from a 200 with a decodable body; `ErrModuleNotFound` exactly for a 404; any other status is its own error; a timeout error exactly when the transport or the decoder timed out |
| GoProxy.InfoOutcomeNeverNotFound | goproxy/goproxy.go:154-156 | `GetModuleInfo` never reports `ErrModuleNotFound`; a 404 is an unexpected status; otherwise it agrees with the latest-info mapping |
| GoProxy.ModFileOutcomeSpec | goproxy/goproxy.go:183-199 | A file comes only from a 200 whose body parses; `ErrModuleNotFound` exactly for a 404; `ErrInvalidModFile` exactly for a 200 body that does not parse; a timeout exactly when the transport or the body read timed out |
| GoProxy.Decimal | goproxy/goproxy.go:71 | The decimal rendering of the limit is a non-empty digit string |
| GoProxy.DecimalRoundTrip | goproxy/goproxy.go:71 | The decimal rendering reads back to the number |
| GoProxy.ListIndexRequest | goproxy/goproxy.go:61-73 | The index request goes to `/index` with exactly `since`, `limit` and `include`; the limit reads back as 2000 |
| GoProxy.DecodeAllSpec | goproxy/goproxy.go:88-99 | Decoding succeeds exactly when every streamed item decodes, and then yields the entries in stream order; a failure is a decode error |
| GoProxy.DecodeAllPrefix | goproxy/goproxy.go:88-99 | A clean prefix stays clean when the next item decodes |
| GoProxy.DecodeAllFirstError | goproxy/goproxy.go:91-93 | The first malformed item decides the error, and everything decoded before it is dropped |
| GoProxy.ListIndex | goproxy/goproxy.go:63-102 | The method returns the transport error, an unexpected status for a non-200, or the result of decoding the stream |
| ProcessModules.Seeds | cmd/process-modules.go:142-147 | One seed per line, with the path lower-cased and the version empty |
| ProcessModules.LoadInitialModules | cmd/process-modules.go:141-147 | The scanner loop yields the seeds, and no seed path holds an upper-case letter |
| ProcessModules.SeedsIdentifyCaseVariants | cmd/process-modules.go:145 | Two seed lines get the same path exactly when they are equal up to ASCII case |
| Strings.ToLowerIdempotent | cmd/process-modules.go:145 | Lower-casing twice is lower-casing once |
| ProcessModules.Frontier.constructor | cmd/process-modules.go:43-44 | The admission set and queue start empty |
| ProcessModules.Frontier.Admit | cmd/process-modules.go:85-87 | `LoadOrStore` on the path: the module is enqueued exactly when its path was not pending, the path is pending afterwards, and the frontier invariant (admitted paths distinct, pending = admitted paths, queue = unprocessed suffix) is kept |
| ProcessModules.Frontier.AdmitAll | cmd/process-modules.go:46-57 | The seed loop enqueues the first occurrence of each path not yet pending, in order, and makes all their paths pending |
| ProcessModules.Frontier.Take | cmd/process-modules.go:62 | The head of the queue is taken; nothing is un-admitted |
| ProcessModules.AdmissionInRounds | cmd/process-modules.go:85-88 | Admitting two batches in turn enqueues what one pass over both would; the result has distinct paths covering every new path |
| ProcessModules.AdmissionIgnoresVersion | cmd/process-modules.go:47 | A module whose path was already admitted is never enqueued, whatever its version |
| ProcessModules.ExtractOrgGitHub | cmd/process-modules.go:304-305 | A `github.com/` path is labelled with its second `/`-segment |
| ProcessModules.ExtractOrgGitHubOwner | cmd/process-modules.go:304-305 | `github.com/owner` and `github.com/owner/...` are labelled `owner` |
| ProcessModules.PkgRuleUnreachable | cmd/process-modules.go:310-312 | The `github.com/pkg/` rule is shadowed: such paths are labelled `pkg`, never `golang` |
| ProcessModules.ExtractOrgFixedLabels | cmd/process-modules.go:307-328 | Outside GitHub, each fixed label is returned exactly for its host prefixes: `google`, `golang` (only `golang.org/`), `kubernetes` (`k8s.io/` or `sigs.k8s.io/`), `uber-go`, `go-gorm`, `open-telemetry`, `mongodb` |
| ProcessModules.ExtractOrgUnmatched | cmd/process-modules.go:331 | A path matching no rule is labelled `""` |
| ProcessModules.KnownVersionIsKept | cmd/process-modules.go:161-162 | A module with a version makes no latest-version call |
| ProcessModules.ResolveVersionTwoTier | cmd/process-modules.go:161-196 | The cached call comes first; exactly a cached `ErrModuleNotFound` leads to one authoritative call; the version comes from the call that succeeded; a failure is a skip |
| ProcessModules.FetchModFileTwoTier | cmd/process-modules.go:198-237 | The same two tiers for the go.mod file; a cached invalid file is a skip with no fallback |
| ProcessModules.AuthoritativeRequestIffCached404 | cmd/process-modules.go:176 | Over the real client, the authoritative requests are sent exactly when the cached-only request got a 404 |
| ProcessModules.DirectRequirements | cmd/process-modules.go:258-264 | The dependencies are no more than the requirements, and hold no upper-case letter |
| ProcessModules.DirectRequirementsMembers | cmd/process-modules.go:258-264 | A module is a dependency exactly when some requirement not marked `// indirect` lower-cases to it |
| ProcessModules.DirectRequirementsAppend | cmd/process-modules.go:258-264 | The filter keeps file order |
| ProcessModules.AllIndirectNoDependencies | cmd/process-modules.go:259-261 | A file of indirect requirements only has no dependencies |
| ProcessModules.DependencyRows | cmd/process-modules.go:266-273 | One row per dependency, index by index: the dependency's name, version and organisation, then the go.mod file's own module path, version and organisation |
| ProcessModules.BuildDependencies | cmd/process-modules.go:255-274 | The loop builds exactly the direct requirements and their rows |
| ProcessModules.ProcessModule | cmd/process-modules.go:158-300 | The method makes the calls, writes and return of `processModule` as its specification function describes them |
| ProcessModules.OnlyWritesFail | cmd/process-modules.go:168-297 | A failed version lookup, a failed go.mod fetch and a go.mod without a `module` line each end in a skip carrying that reason, with nothing written; only a write the store refuses is an error, it is the last write attempted, every write before it succeeded, and it happens only after both lookups succeeded and the `module` line was present |
| ProcessModules.ProcessedWritesNodeThenRows | cmd/process-modules.go:244-299 | A processed module wrote its node under the go.mod's own `module` line, then its dependency rows, and returns its direct requirements |
| ProcessModules.ProcessAndHandBack | cmd/process-modules.go:75-99 | A worker hands back the dependencies of a processed module, and none otherwise |
| ProcessModules.Crawl | cmd/process-modules.go:45-107 | No path is processed twice; the distinct seeds are processed first; every later module is a direct dependency handed back by a module processed before it; when the queue empties before the budget, every seed path and every path handed back by a processed module has been processed |
| ProcessModules.ProvenanceAdmit | cmd/process-modules.go:81-99 | Admitting the last module's dependencies keeps every admission traceable to an earlier module |
| ListGoProxyLatest.RetryFromSpec | cmd/list-goproxy-latest.go:176-183 | Backoff: every try before the last was retryable; the last decides the result; a retryable last try means the tries ran out |
| ListGoProxyLatest.RetryWithoutRetryableErrors | cmd/list-goproxy-latest.go:176-183 | An operation that never returns a retryable error is tried once |
| ListGoProxyLatest.GetLatestModuleInfoAsWritten | cmd/list-goproxy-latest.go:171-211 | As written: one cached try; the authoritative call happens exactly after a cached `ErrModuleNotFound`; any other cached error comes back as a success with the zero `ModuleInfo` |
| ListGoProxyLatest.TimeoutBecomesEmptyVersion | cmd/list-goproxy-latest.go:176-187 | A cached timeout is never reported: the lookup succeeds with an empty version |
| ListGoProxyLatest.GetLatestModuleInfoRetryingSpec | cmd/list-goproxy-latest.go:176-210 | Corrected: at most three cached tries, each one but the last failed with an error other than NotFound; the authoritative call happens exactly after a cached NotFound; the result is always a reply the proxy gave |
| ListGoProxyLatest.RetryingReportsTimeouts | cmd/list-goproxy-latest.go:185-189 | Corrected: three cached timeouts end as a timeout error, without the authoritative call |
| ListGoProxyLatest.LatestRowsSpec | cmd/list-goproxy-latest.go:116-135 | A row is written exactly for a looked-up name whose lookup succeeded, with the version found |
| ListGoProxyLatest.ListLatest | cmd/list-goproxy-latest.go:69-139 | The names are looked up at their first occurrence; the output is the header and then the rows of the successful lookups |
| ListGoProxyLatest.LookedUpOnce | cmd/list-goproxy-latest.go:103-107 | Each distinct name is looked up exactly once |
| ListGoProxyLatest.NamesStep | cmd/list-goproxy-latest.go:72-84 | A record without a string `name` is skipped |
| ListGoProxyLatest.TimedOutModuleRow | cmd/list-goproxy-latest.go:109-119 | A module whose cached lookups all time out gets a row with an empty version as written, and no row with the corrected lookup |
| EnrichLatest.UpdateOf | cmd/enrich-latest.go:117-130 | A record gives an update exactly when its version parses, and it carries the record's name and raw version |
| EnrichLatest.UpdateOfParts | cmd/enrich-latest.go:123-130 | The update carries the major, minor, patch and label that `Parse` found |
| EnrichLatest.UpdatesSpec | cmd/enrich-latest.go:109-131 | An update is batched exactly when some record gives it |
| EnrichLatest.ChunksSpec | cmd/enrich-latest.go:132-143 | The batches hold every update once, in order; none is empty or larger than 1000; all but the last are full |
| EnrichLatest.Session.Run | cmd/enrich-latest.go:90-103 | A batch update commits the batch exactly when the store accepts it |
| EnrichLatest.Batch.Add | cmd/enrich-latest.go:123-130 | The update is appended to the batch |
| EnrichLatest.Batch.Flush | cmd/enrich-latest.go:73-107 | An empty batch is a no-op success; otherwise the batch is committed and reset on success, and kept, with nothing committed, on failure |
| EnrichLatest.ReadRecords | cmd/enrich-latest.go:41-52 | The read loop yields every record, or fails at an unreadable line |
| EnrichLatest.ReadInput | cmd/enrich-latest.go:35-52 | The header is skipped (an empty file is fine); an unreadable header or record stops the run |
| EnrichLatest.AddAndMaybeFlush | cmd/enrich-latest.go:123-137 | Adding keeps the batching invariant, or leaves a full batch that the store refused |
| EnrichLatest.RecordStep | cmd/enrich-latest.go:109-138 | One record keeps the invariant, or the run stops with the committed batches a prefix of the chunks and the next one refused |
| EnrichLatest.FinalFlush | cmd/enrich-latest.go:140-145 | The final flush completes the chunks or reports the refused one |
| EnrichLatest.WriteBatches | cmd/enrich-latest.go:109-145 | The committed batches are a prefix of the 1000-chunks of the parseable updates; all of them on success; on failure the next chunk was refused |
| EnrichLatest.FlushFailedMidway | cmd/enrich-latest.go:132-136 | A full batch that fails to flush is exactly the next chunk after those committed |
| EnrichLatest.EnrichLatest | cmd/enrich-latest.go:35-145 | Exit 1 with nothing written on unreadable input; otherwise the batches as above, with exit 0 exactly when all were committed |
| ListGoProxyModules.ProduceIndex | cmd/list-goproxy-modules.go:53-74 | The producer loop sends exactly `Produced` |
| ListGoProxyModules.ProducedSpec | cmd/list-goproxy-modules.go:56-72 | The entries before the stop point are sent in order with cursors not after `until`; an error there sends nothing more; a progress failure or an entry past `until` is sent and is the last one |
| ListGoProxyModules.PastUntilIsLast | cmd/list-goproxy-modules.go:62-72 | The entry whose cursor passes `until` is still sent, and is the last one |
| ListGoProxyModules.ErrorStopsProduction | cmd/list-goproxy-modules.go:57-60 | An iteration error after n clean entries ends production with exactly those n |
| ListGoProxyModules.WriteModules | cmd/list-goproxy-modules.go:76-88 | The header, then one row per first occurrence of each `path@version` |
| ListGoProxyModules.ListGoProxyModules | cmd/list-goproxy-modules.go:47-88 | The rows written are the header and the deduplicated produced entries |
| ListGoProxyModules.WrittenOncePerKey | cmd/list-goproxy-modules.go:76-88 | The written entries have distinct keys and cover every key produced |
| ListGoProxyModules.IndexKeyInjective | cmd/list-goproxy-modules.go:78 | For paths without `@`, two entries share a key exactly when they share path and version |
| ListGoProxyModules.RepeatedVersionWrittenOnce | cmd/list-goproxy-modules.go:79-81 | A module version seen twice is written once, with its first timestamp |
| ListGoProxyModules.Row | cmd/list-goproxy-modules.go:84 | A row is timestamp, path, version |
| RepositoriesToModules.NormalizeRepository | cmd/repositories-to-modules.go:209-213 | An accepted URL matches the GitHub repository pattern |
| RepositoriesToModules.NormalizeRepositorySpec | cmd/repositories-to-modules.go:200-213 | Acceptance is exactly the pattern matching the trimmed string, which is returned unchanged; a rejection carries the trimmed string |
| RepositoriesToModules.MatchesParts | cmd/repositories-to-modules.go:198 | A match is `https://github`, one character, `com/`, a non-empty owner, `/`, a non-empty repository, neither holding `/` |
| RepositoriesToModules.MatchesRepository | cmd/repositories-to-modules.go:198 | Every `https://github.com/owner/repo` with non-empty, slash-free parts matches |
| RepositoriesToModules.DotMatchesAnyCharacter | cmd/repositories-to-modules.go:198-209 | The unescaped `.` accepts any host character between `github` and `com` except a newline |
| RepositoriesToModules.UpgradeSchemeSpec | cmd/repositories-to-modules.go:201-204 | Exactly the `http://github.com/` prefix is rewritten to `https://`; anything else is untouched |
| RepositoriesToModules.HttpUpgraded | cmd/repositories-to-modules.go:201-213 | An `http://github.com/owner/repo` URL is accepted as its `https` form |
| RepositoriesToModules.GitSuffixTrimmed | cmd/repositories-to-modules.go:206-213 | `https://github.com/owner/repo.git` is accepted without its `.git` |
| RepositoriesToModules.TrailingSlashKeepsGit | cmd/repositories-to-modules.go:206-207 | `.git` is trimmed before `/`, so `owner/repo.git/` keeps its `.git` |
| RepositoriesToModules.NormalizeNotIdempotent | cmd/repositories-to-modules.go:206-207 | Normalising `owner/repo.git/` twice trims further than once |
| RepositoriesToModules.NormalizeFixes | cmd/repositories-to-modules.go:206-213 | An accepted URL without `.git` normalises to itself |
| RepositoriesToModules.OwnerOnlyRejected | cmd/repositories-to-modules.go:209-211 | A URL naming only an owner is rejected, with the URL in the error |
| RepositoriesToModules.AcceptedRepository | cmd/repositories-to-modules.go:48-53 | A line is kept exactly when it normalises, in its normalised form |
| RepositoriesToModules.ReadRepositories | cmd/repositories-to-modules.go:46-54 | The scanner loop keeps the accepted lines, normalised, in order |
| RepositoriesToModules.AcceptedSpec | cmd/repositories-to-modules.go:46-54 | A repository is kept exactly when some line normalises to it, and every kept one matches the pattern |

## Left out

- Files, the graph store (Neo4j and its Cypher queries) and HTTP are not
  modelled. They appear as oracles: a function from the request to the exchange
  that came back, and a flag saying whether each write succeeded.
- JSON decoding, `modfile.Parse` and `io.ReadAll` are not modelled. Their
  results are inputs: a decoded value or an undecodable body, a parsed file or
  an unparsable one, a read that failed.
- Goroutines, channels, the semaphore, errgroup cancellation and progress bars
  are not modelled. Each command runs sequentially.
  - The `process-modules` handler takes modules from its queue in order,
    through `ProcessModules.Crawl`.
  - `ListGoProxyLatest.ListLatest` writes rows in lookup order. The source
    writes them in the order the concurrent lookups finish.
- `ProcessModules.Crawl` does not model the handler's non-termination. Its
  channel is never closed (cmd/process-modules.go:114), so `Crawl` takes an
  explicit `budget` on the number of modules.
- `ProcessModules.Crawl` does not model cancellation after a failed write. When
  a write fails, the source's errgroup cancels the shared context. `Crawl`
  treats that module as handing back no dependencies and goes on with the
  queue.
- Backoff waits and the exponential schedule are not modelled. Only the
  three-try limit and permanent errors are.
- `ListGoProxyLatest.LatestRows` writes what the lookups return and does not
  model CSV write errors. The source logs and skips a row it fails to write,
  and the same holds for list-goproxy-modules.
- Timestamps are integers. RFC 3339 formatting is a parameter, and the `since`
  date rendering and the float-based `nbDays` progress count are not modelled.
- `scanner.Err` and the file open errors are not modelled. Those errors end the
  command before any result is used.
- `IterIndex` is not part of this model, because its definition is not in the
  shown client. Its stream is an input: entries, each with the cursor after it,
  or an error.
- `ListIndex` is modelled with its query parameters and decode loop. The
  producer of list-goproxy-modules consumes `IterIndex`, not `ListIndex`.
- `Strings.ToLower` lower-cases ASCII only. Go's `strings.ToLower` maps all of
  Unicode.
- `GoProxy.GetModuleLatestInfo`, `GoProxy.GetModuleInfo` and
  `GoProxy.GetModuleModFile` get the URL and the outcome mapping, but not the
  error messages or the wrapping chain. Each error is one of the client's error
  values, with a flag saying whether it is a network timeout.
- URL escaping is not modelled. Module paths and versions are concatenated as
  the source does, which `GoProxy.CachedOnlySegmentIsAmbiguous` exhibits.
- `main.go`, `listSeedModules` and the repository-cloning handler are not part
  of this model. They hold filesystem, git and concurrency glue.

## Findings

| source | as written | input that shows it | evidently intended | confidence | as-written member | corrected member |
|---|---|---|---|---|---|---|
| cmd/list-goproxy-latest.go:176-183 | The backoff operation returns `res, nil` for every error other than `ErrModuleNotFound`. Such errors are never retried, and the error branches at lines 185-193 see nothing. `getLatestModuleInfo` succeeds with the zero `ModuleInfo`, and an empty-version row is written | A module whose cached-only latest lookup times out | Retry the cached lookup up to three times with the error, then report the timeout or the failure | not executed | ListGoProxyLatest.GetLatestModuleInfo (exhibited by ListGoProxyLatest.TimeoutBecomesEmptyVersion) | ListGoProxyLatest.GetLatestModuleInfoRetrying (proved by ListGoProxyLatest.GetLatestModuleInfoRetryingSpec) |
