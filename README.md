# go-server-skeleton: a verified model of its sequential core

This project models three pieces of sequential logic from the go-server-skeleton
service skeleton, in Dafny. They are separated from the goroutines, signals and
SDK calls around them.

- **The batched log sink** `LogStoreHook` (pkg/ext/hook.go), in module `LogHook`.
  A logrus hook that turns each entry into a record and appends it to a buffer.
  It sends the buffer to an Aliyun log store in one batch when a flush is due.
  A flush is due when the buffer is not empty and the flush is forced, the
  buffer holds 100 records, or at least 3000 ms have passed since the last
  flush (or since the hook was made). The age of the records themselves plays
  no part. When the batch put fails, the hook retries record by record and
  discards each record whose own put fails. After a flush it always empties
  the buffer and restarts the interval. The remote store is the class `LogStore`.
  Its oracle `accepts(k)` says whether the put call numbered `k` succeeds.
  The clock is read as parameters in milliseconds. A flush reads it twice:
  `now` when it decides whether to send, and `done`, after the puts, for the
  start of the next interval.
- **The shutdown registry** (pkg/ext/shutdown.go), in module `Shutdown`.
  An append-only list of hooks, and a drain that runs once, on the first
  signal. The drain runs the hooks one at a time, last registered first, and
  then closes the quit channel. The class `Registry` records an event trace
  (`Started(h)`, `Finished(h)`, `QuitClosed`). The trace shows both the order
  of the hooks and their sequencing.
- **The endpoint helpers** (pkg/endpoint/endpoint.go), in module `Endpoints`.
  They are:
  - the `Name()` formats;
  - the gRPC `Stop` result;
  - the health-endpoint matcher;
  - the span-name formatter;
  - the loop of `Run` that registers one stop hook per endpoint with the registry.

Module `Strconv` renders integers as `strconv.Itoa` does and reads them back.
The `level` field of a record is written with it. Module `Wrappers` holds the
`Option` type; `None` stands for Go's `nil` error.

Two behaviours one might expect of a batching sink are not in the code, and the
model follows the code:
- `Flush` on an empty buffer does nothing, even when forced (pkg/ext/hook.go:116).
- No timer flushes the buffer. The interval is only checked when `Fire` or
  `Flush` is called, so an idle buffer stays buffered.

## Model

| member | source | states |
|---|---|---|
| `Strconv.NatToDecimal` | pkg/ext/hook.go:95 | the decimal rendering of a natural is a non-empty run of digits with no leading zero |
| `Strconv.Itoa` | pkg/ext/hook.go:95 | `strconv.Itoa`: non-empty, and starting with `-` exactly when the number is negative |
| `Strconv.DecimalRoundTrip` | pkg/ext/hook.go:95 | the digits of `n` read back as `n` |
| `Strconv.ItoaRoundTrip` | pkg/ext/hook.go:95 | reading `Itoa(n)` back gives `n` |
| `Strconv.ItoaInjective` | pkg/ext/hook.go:95 | distinct severity codes are written as distinct strings |
| `LogHook.Levels` | pkg/ext/hook.go:25-31 | the hooked levels are exactly those at least as severe as Info, most severe first (returned by `Levels()` at line 162) |
| `LogHook.LogrusToSyslog` | pkg/ext/hook.go:173-191 | the code is -1 exactly for a level outside Panic..Trace, and every code lies in -1..8 |
| `LogHook.SyslogKeepsSeverityOrder` | pkg/ext/hook.go:173-191 | a more severe defined level gets a strictly smaller, non-negative code |
| `LogHook.ToString` | pkg/ext/hook.go:164-171 | a string value is written as it is |
| `LogHook.Stringify` | pkg/ext/hook.go:97-102 | rendering a field map keeps its keys and renders each value |
| `LogHook.BaseContents` | pkg/ext/hook.go:94-95 | every record starts with exactly the fields `message`, holding the entry's message, and `level`, which parses back to the syslog code of the entry's level |
| `LogHook.MessageOf` | pkg/ext/hook.go:89-102 | the record's keys are `message`, `level`, the extra keys and the data keys; data wins over extra, and both win over `message` and `level` |
| `LogHook.LevelFieldReadsBack` | pkg/ext/hook.go:95 | an unshadowed `level` field parses back to the syslog code of the entry's level |
| `LogHook.NewMessage` | pkg/ext/hook.go:89-102 | the two loops over Go maps build `MessageOf(e, extra)`, whatever order the maps yield their keys in |
| `LogHook.UnixStamp` | pkg/ext/hook.go:131 | `uint32(t.Unix())`: the whole seconds rounded down, wrapped to 32 bits (equal to them modulo 2^32, and below 2^32) |
| `LogHook.ContentsMap` | pkg/ext/hook.go:123-129 | the map a list of key/value pairs stands for has exactly the listed keys |
| `LogHook.ContentsMapAt` | pkg/ext/hook.go:123-129 | with distinct keys, every listed pair is an entry of that map |
| `LogHook.EncodeContents` | pkg/ext/hook.go:123-129 | the pair list lists every field of the record exactly once |
| `LogHook.EncodeBatch` | pkg/ext/hook.go:120-134 | one wire record per buffered record, in buffer order, each with its Unix-second time and its fields |
| `LogHook.RetryEach` | pkg/ext/hook.go:143-152 | the fallback loop, one single put per record: every record is stored or discarded |
| `LogHook.WithOutcome` | pkg/ext/hook.go:143-152 | the records whose own put was accepted (or rejected), in batch order, drawn from the batch |
| `LogHook.RetryOrder` | pkg/ext/hook.go:143-152 | after any pattern of failures, the stored groups hold the accepted records and the discard list the rejected ones, each in batch order |
| `LogHook.RetryCounts` | pkg/ext/hook.go:143-152 | the fallback discards as many records as single puts failed and stores the rest |
| `LogHook.RetryStoresSingles` | pkg/ext/hook.go:144-148 | every group the fallback stores carries the hook's topic and source and exactly one record |
| `LogHook.RetryKeepsEveryRecord` | pkg/ext/hook.go:143-152 | the stored and discarded records together are the batch, as a multiset |
| `LogHook.RetryKeepsOrder` | pkg/ext/hook.go:143-152 | the special case where every single put succeeds: the stored records are the batch in order and nothing is discarded |
| `LogHook.Send` | pkg/ext/hook.go:142-153 | an accepted batch is stored as one group, tagged with topic and source, after one call; a rejected one costs one more call per record, and every record is stored or discarded |
| `LogHook.FiveRecordsOneRejected` | pkg/ext/hook.go:142-153 | a rejected batch of five whose third single put fails stores four records, discards the third, and makes six calls |
| `LogHook.ShouldFlush` | pkg/ext/hook.go:116 | the flush condition: never for an empty buffer, even when forced; always for a non-empty buffer that is forced, full, or 3000 ms past the last flush; otherwise not |
| `LogHook.FireStep` | pkg/ext/hook.go:107-116 | after `Fire` the buffer is below the batch size; it is empty, with the flush time set to the reading after the puts, exactly when a flush is due for the grown buffer, and otherwise the old buffer with the new record appended and the flush time kept |
| `LogHook.NoFlushBelowBatchSize` | pkg/ext/hook.go:107-116 | entries that neither fill the buffer nor arrive after the interval are all kept, in firing order, and the flush time stays |
| `LogHook.FlushAtBatchSize` | pkg/ext/hook.go:17 | the entry that brings the buffer to 100 records flushes it, even within the interval, and the interval restarts when its flush ends |
| `LogHook.FlushAfterInterval` | pkg/ext/hook.go:116 | once 3000 ms have passed since the last flush, the next entry flushes the buffer together with itself, however new the buffered records are |
| `LogHook.LogStore.PutLogs` | pkg/ext/hook.go:142-148 | a put succeeds as the oracle says for this call number, counts one call, and stores the group only on success |
| `LogHook.WrapFlushError` | pkg/ext/hook.go:109-112 | `Fire` reports an error exactly when `Flush` did |
| `LogHook.LogStoreHook.constructor` | pkg/ext/hook.go:77-85 | a new hook has an empty buffer and the creation time as its flush time |
| `LogHook.LogStoreHook.RetryEachRecord` | pkg/ext/hook.go:143-152 | one put per record, in order; the store and the discard list grow as `RetryEach` says, and the buffer is untouched |
| `LogHook.LogStoreHook.Flush` | pkg/ext/hook.go:115-160 | always returns nil; when no flush is due nothing changes; otherwise the batch encodes the whole buffer, the store changes as `Send` says, the buffer is empty and the flush time is `done`, the clock reading after the puts (line 157) |
| `LogHook.LogStoreHook.Fire` | pkg/ext/hook.go:88-113 | always returns nil; the buffer follows `FireStep` for the entry's record; the store changes as `Send` says when a flush is due, and not at all otherwise |
| `Shutdown.Reverse` | pkg/ext/shutdown.go:34-36 | the drain order: element `k` is the `k`-th from the end |
| `Shutdown.ReversePermutes` | pkg/ext/shutdown.go:34-36 | the drain order loses and duplicates no hook |
| `Shutdown.ReverseAppend` | pkg/ext/shutdown.go:34-36 | hooks registered later are drained before hooks registered earlier |
| `Shutdown.RunTrace` | pkg/ext/shutdown.go:34-36 | sequential running: each hook starts and finishes before the next one starts |
| `Shutdown.RunTraceOrder` | pkg/ext/shutdown.go:34-36 | a sequential run starts exactly the given hooks in the given order |
| `Shutdown.DrainClosesOnce` | pkg/ext/shutdown.go:34-40 | the quit channel is closed once, after the last hook has finished |
| `Shutdown.Registry.constructor` | pkg/ext/shutdown.go:19-20 | no hooks, no events, signal not yet received |
| `Shutdown.Registry.OnShutdown` | pkg/ext/shutdown.go:44-48 | appends the hook at the end; earlier hooks, the phase and the trace are unchanged |
| `Shutdown.Registry.RunHook` | pkg/ext/shutdown.go:35 | during the drain, running a hook adds its start and then its finish to the trace and keeps the registry valid |
| `Shutdown.Registry.Signal` | pkg/ext/shutdown.go:28-41 | the first signal runs every registered hook in reverse, then closes the quit channel; any later signal changes nothing |
| `Shutdown.Registry.WaitShutdown` | pkg/ext/shutdown.go:50-52 | completes exactly in the Done state and changes nothing; then the trace ends with the one closing, and the hooks ran once each, in reverse registration order |
| `Endpoints.Name` | pkg/endpoint/endpoint.go:59-61 | the whole format, part by part: `Http (addr), name` for the fiber and rest adapters (also lines 119-121), and `GRPC (addr), name` for grpc (lines 150-152) |
| `Endpoints.NameInjective` | pkg/endpoint/endpoint.go:59-61 | when no address contains `)`, the name determines the protocol, address and name |
| `Endpoints.NamesCanCollide` | pkg/endpoint/endpoint.go:59-61 | with a `)` in an address, two different endpoints can share a name |
| `Endpoints.StopResult` | pkg/endpoint/endpoint.go:162-165 | gRPC `Stop` always returns nil; the other adapters return their server's shutdown error |
| `Endpoints.StopHookLog` | pkg/endpoint/endpoint.go:37-44 | the stop hook logs a debug line, then a warning exactly when `Stop` failed; the error goes no further |
| `Endpoints.StopHooks` | pkg/endpoint/endpoint.go:28-45 | one stop hook per endpoint, in argument order |
| `Endpoints.RegisterStopHooks` | pkg/endpoint/endpoint.go:28-45 | `Run` appends exactly the endpoints' stop hooks, in argument order, to the registry and changes nothing else |
| `Endpoints.EndpointsStopFirstInReverse` | pkg/endpoint/endpoint.go:28-45 | the endpoints of `Run` are drained last to first, before any hook registered earlier |
| `Endpoints.StopOrder` | pkg/endpoint/endpoint.go:28-45 | `Run` on a fresh registry and then the signal stop the endpoints in reverse argument order |
| `Endpoints.HasSuffix` | pkg/endpoint/endpoint.go:96 | `strings.HasSuffix`: the suffix is no longer than the string and matches its last characters one by one |
| `Endpoints.TrimSuffix` | pkg/endpoint/endpoint.go:94 | `strings.TrimSuffix` drops one copy of the suffix when it is there and nothing otherwise |
| `Endpoints.IsHealthPath` | pkg/endpoint/endpoint.go:94-100 | the matcher's condition; a path that ends with `/metrics` or `/debug/pprof` satisfies it (the exact set is `HealthPathEndings`) |
| `Endpoints.IsHealthEndpoint` | pkg/endpoint/endpoint.go:91-102 | the early-return search is true exactly when the trimmed path ends with `/metrics` or `/debug/pprof` |
| `Endpoints.TrimmedSuffix` | pkg/endpoint/endpoint.go:94-97 | after one trailing slash is dropped, `x` ends the path exactly when `x` or `x/` ended it |
| `Endpoints.HealthPathEndings` | pkg/endpoint/endpoint.go:92-100 | healthy exactly when the path ends with `/metrics`, `/metrics/`, `/debug/pprof` or `/debug/pprof/` |
| `Endpoints.HealthPathExamples` | pkg/endpoint/endpoint.go:92-100 | `/x/metrics/` and `/debug/pprof` are health paths; `/metrics//` and `/debug/pprof/heap` are not |
| `Endpoints.SkipDigits` | pkg/endpoint/endpoint.go:109 | `\d+` is greedy: what is left after the run does not start with a digit |
| `Endpoints.SkipDigitsDropsRun` | pkg/endpoint/endpoint.go:109 | only the leading run of digits is dropped; what is left is the rest of the string, unchanged |
| `Endpoints.SkipAllDigits` | pkg/endpoint/endpoint.go:109 | a string of digits is consumed entirely |
| `Endpoints.ReplaceDigitSegments` | pkg/endpoint/endpoint.go:109-112 | the replacement never lengthens the path and keeps its first character |
| `Endpoints.ReplacedHasNoDigitSegment` | pkg/endpoint/endpoint.go:109-112 | after the replacement no slash is followed by a digit |
| `Endpoints.ReplaceFixpoint` | pkg/endpoint/endpoint.go:109-112 | a path is left unchanged exactly when no slash in it is followed by a digit |
| `Endpoints.ReplaceIdempotent` | pkg/endpoint/endpoint.go:109-112 | formatting a span name twice gives the same as once |
| `Endpoints.ReplaceSegmentRule` | pkg/endpoint/endpoint.go:109-112 | a slash followed by a whole run of digits becomes `/-`, and the formatting goes on after the run |
| `Endpoints.CopyUnfold` | pkg/endpoint/endpoint.go:109-112 | any character that does not start a numeric segment is copied, and the formatting goes on after it |
| `Endpoints.ReplaceAppend` | pkg/endpoint/endpoint.go:109-112 | the replacement works piece by piece across a cut that no match can span |
| `Endpoints.ReplaceExample` | pkg/endpoint/endpoint.go:109-112 | `/u/123/x45` becomes `/u/-/x45` |
| `Endpoints.SpanName` | pkg/endpoint/endpoint.go:111-115 | never empty; `/` for the empty path, and the replaced path otherwise |

## Left out

- Goroutines and the `errgroup` join in `Run` (pkg/endpoint/endpoint.go:27, 32-35, 46): which error wins depends on scheduling. Only the hook-registration loop is modelled.
- Signal handling, mutexes and channel blocking (pkg/ext/shutdown.go:15-29, 45-47; pkg/ext/hook.go:104-105) are concurrency. The registry and the sink are single-threaded state machines, and the arrival of the signal is the method `Signal`.
- Shutdown.Registry.WaitShutdown: a blocking receive becomes a poll that says whether it would return now; the blocking itself is not modelled.
- The Aliyun log SDK: the client, project and store lookup of `NewLogStoreHook` (pkg/ext/hook.go:60-75) and the network behaviour of `PutLogs`. The store is the class `LogStore` with an oracle of which calls succeed.
- `time.Now` and `time.Since`: the clock is a millisecond parameter, so time below a millisecond is not modelled. The unused constant `flushTimeout` (pkg/ext/hook.go:19) is left out.
- LogHook.Levels: `HookedLevels` is an exported package variable in the source (pkg/ext/hook.go:24-31) that other packages could reassign; the model takes it as the constant it is initialised to.
- Go strings are bytes while Dafny strings are characters. Every character the matcher, the formatter and `Name` examine is ASCII, so their results agree; the lengths in `Endpoints.Name`'s contract count characters, not the bytes Go's `len` would count.
- LogHook.ToString: the `fmt.Sprintf("%v")` rendering of non-string values (pkg/ext/hook.go:169) is foreign formatting; such a value carries its rendered text.
- The order in which Go maps yield their keys is not modelled. The record-building loops choose keys non-deterministically, and the pair list of a wire record is specified up to order.
- The local `log.Println` and `log.Printf` lines of `Flush` (pkg/ext/hook.go:149, 155) are not modelled, except that the discarded records are kept in `LogStoreHook.discarded`. The logging and timing in the drain (pkg/ext/shutdown.go:26, 31-32, 38-39) are observability only.
- What a hook does when it runs: a hook is an identifier, and running it is a start event followed by a finish event.
- The concrete servers (`Listen`, `ListenAndServe`, `Shutdown`, `net.Listen`, `Serve`) and the `ochttp` tracing wiring (pkg/endpoint/endpoint.go:63-89, 123-128, 154-160) are I/O. The shutdown error of the HTTP adapters is a parameter.
- pkg/ext/consts.go (host name and environment lookups) and internal/example/cmd/server/main.go (the composition root) are not part of this model.
- `shutdown.AddHook` (pkg/endpoint/endpoint.go:37) is taken to be the registry's `OnShutdown` (pkg/ext/shutdown.go:44); the package that defines `AddHook` is not part of this model.
