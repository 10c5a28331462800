# zoe event pipeline in Dafny

zoe is a small web-analytics server written in Go. A browser beacon posts
one event per page load, page unload or time-on-page report. The server
does four things:

- It validates the event's headers into an `ev.Ev` protobuf record.
- It appends the record to a file, in one of two storage formats:
  - varint-prefixed records (`app/app.go`, `main.go`, read by
    `report/runner.go`);
  - gzipped blocks followed by a 4-byte big-endian length (`app/post.go`,
    read backwards by `report/read.go`).
- It keeps a per-client rate-limiter table and sweeps it.
- It turns the stream of stored events into reports: views per content
  id, the top N content ids, a filtered subset, and human-readable
  counts. The reports assume the stream is newest first and stop at the
  first event older than their bound. The readers do not deliver that
  order:
  - the block reader sends the blocks last first, but each block's events
    oldest first;
  - the record reader sends the whole file oldest first.

  The record reader also hands each event to every report job over an
  unbuffered channel. A report that has stopped reading never takes the
  next event, so the reader blocks there for good.

This project models that pipeline and proves its properties. One module
covers each concern:

| module | file | what it covers |
|---|---|---|
| `Wrappers`, `Ints` | `wrappers.dfy` | Go's fixed-width integers and their wrap-around |
| `Ev` | `ev.dfy` | the event record, its type enum and its getters |
| `Decimal` | `decimal.dfy` | base-10 text of unsigned integers |
| `Ingest` | `ingest.dfy` | header validation, in the three header spellings, and routing |
| `Uvarint`, `RecordFile` | `uvarint.dfy`, `record_file.dfy` | the per-event record format, its writer and its reader with the fan-out to report jobs |
| `BlockFile` | `block_file.dfy` | the block format: batching, block writing and the backward reader with its counters |
| `EventStream` | `event_stream.dfy` | how reports read the stream |
| `ReadOrder` | `read_order.dfy` | the order the block reader delivers, and what the reports' stop makes of it |
| `ChannelDelivery` | `channel_delivery.dfy` | the record reader's sends to report jobs that stop reading early |
| `ItemHeaps`, `TopReport` | `item_heap.dfy`, `top_report.dfy` | the min-heap and the top-N report |
| `ViewsReport` | `views.dfy` | both versions of the views report |
| `SubsetReport` | `subset.dfy` | the subset report |
| `Fmt` | `fmt.dfy` | count and size formatting |
| `Window` | `window.dfy` | `YoungerThan` |
| `RateLimits` | `rate_limits.dfy` | the rate-limiter tables |

How the model is written:

- State the Go code updates in place is a `class` whose methods are proved
  against specification functions. This covers the heap slice, the output
  files, the report runner's counters and the client tables.
- Loops become `while` loops with invariants.
- Straight-line validation and getters become functions.
- Clocks are parameters.
- Channels become sequences: the events a report reads, and the log of
  deliveries to jobs.
- gzip and protobuf are opaque functions passed in. They may fail.
- A Go panic is an explicit outcome.
- Whether each file write succeeds is an input, so failed writes, what
  they leave in the file and the panics they cause are modelled.
- Go's `uint32` and `int64` are ranges of `int`. Each conversion or
  increment that can wrap is written out (`ToUint32`, `Inc32`).

## Model

| member | source | states |
|---|---|---|
| Ev.TypeByName | ev/ev.pb.go:38-42 | a type name is found exactly when it is "LOAD", "UNLOAD" or "TIME", and the number found maps back to that name in `EvType_name` |
| Ev.NameValueInverse | ev/ev.pb.go:26-43 | `EvType_name` and `EvType_value` are inverse bijections between exactly {0,1,2} and {"LOAD","UNLOAD","TIME"} |
| Ev.GetEvType | ev/ev.pb.go:124-129 | a nil message reads as LOAD (the zero enum), any other message gives its stored type |
| Ev.GetTime | ev/ev.pb.go:131-136 | 0 for a nil message, the stored time otherwise |
| Ev.GetUsr | ev/ev.pb.go:138-143 | 0 for a nil message, the stored user id otherwise |
| Ev.GetSess | ev/ev.pb.go:145-150 | 0 for a nil message, the stored session id otherwise |
| Ev.GetCid | ev/ev.pb.go:152-157 | 0 for a nil message, the stored content id otherwise |
| Ev.GetPageSeconds | ev/ev.pb.go:159-164 | the stored value only when the optional field is present; 0 when it is absent or the message is nil |
| Ev.NilReadsAsZero | ev/ev.pb.go:124-164 | every getter reads a nil message exactly as it reads the zero message |
| Decimal.ParseUint32 | app/post.go:25-39 | a header is accepted exactly when it is a non-empty run of decimal digits whose value is below 2^32, and the result is that value |
| Decimal.ParseRejectsEmpty | app/post.go:25-29 | a missing header (Go's "") is rejected |
| Decimal.ValueOfFormat | report/fmt.go:8 | the decimal text of n denotes n |
| Decimal.ParseFormatRoundTrip | app/post.go:25-39 | the decimal text of every uint32 is accepted and parses back to the same number |
| Decimal.Format | report/fmt.go:8 | non-empty, all digits, no leading zero |
| Decimal.FormatInt | report/fmt.go:22 | non-empty, with a leading minus exactly for negative numbers |
| Ingest.ChecksFor | app/post.go:20-64 | every type runs the TYPE, USR, SESS and CID checks first, in that order; UNLOAD adds SCROLLED and TIME adds PAGE_SECONDS |
| Ingest.FirstFailureDecides | app/post.go:19-66 | for any header spelling: the answer is 400 for field f exactly when every earlier check passed and f's check failed; an event is accepted exactly when all checks for its type pass |
| Ingest.AcceptedEvent | app/post.go:40-64 | an accepted event carries exactly the parsed type, usr, sess and cid and the clock's time as uint32; only UNLOAD sets `Scrolled` and only TIME sets `PageSeconds`, each from its header |
| Ingest.BeaconRoundTrip | app/app.go:78-125 | for distinct header names (as in all three spellings), the headers a beacon sends for a well-formed event validate back to that event, stamped with the server's time |
| Ingest.HandleRequest | app/app.go:61-75 | GET /data and GET /js go to their handlers, other GET paths get 404, every POST goes to the event handler, and other methods have no handler |
| Ingest.MainHandleRequest | main.go:47-94 | the LSTN_ handler answers 400 for the type exactly when LSTN_T is not a known name, and an accepted event's user id is the parsed LSTN_USR |
| Uvarint.Encode | app/app.go:178-179 | every byte but the last has its continuation bit set and the last has it clear |
| Uvarint.ReadAt | report/runner.go:48-54 | `io.EOF` exactly when no byte is left before a number; a value is read from at most ten bytes, every byte before its last with the continuation bit set |
| Uvarint.ReadEncode | report/runner.go:48 | every uint64 is read back from its encoding, in one to ten bytes, whatever follows it |
| RecordFile.Frame | app/app.go:178-182 | a record is longer than its payload by one to ten bytes |
| RecordFile.EventFile.WriteEvent | app/app.go:173-188 | the write succeeds exactly when marshalling and writing succeed; then the file grows by the prefix and the payload, and otherwise it is unchanged |
| RecordFile.EventFile.WriteEventsToFile | main.go:117-133 | the file grows by the records of exactly the events whose marshal and write succeeded, in order; a failure skips only its own event |
| RecordFile.NextRecord | report/runner.go:48-59 | a record read at a position ends after it and holds exactly the payload that ends at its end |
| RecordFile.DecodeFrames | report/runner.go:47-67 | decoding a concatenation of records gives back the payloads, in order, and ends without a panic |
| RecordFile.ReadFollowsFraming | report/runner.go:55-63 | when every payload unmarshals, the reader yields one event per decoded payload, in order, and stops the way the decoding stops |
| RecordFile.ReadEvents | report/runner.go:40-71 | the deliveries are every event read, sent to every job in job order, followed by closing every job when no panic occurred; this assumes every job reads its stream to the close (see `ChannelDelivery` for reports that stop early) |
| RecordFile.ReadRecord | report/runner.go:48-63 | one read step advances past exactly one record and gives its unmarshalled event, or the panic, or the end |
| RecordFile.EachJobGetsEveryEvent | report/runner.go:64-70 | in the log of `ReadEvents`, each job receives every event in file order, then exactly one close; this holds when every job reads to the close |
| ChannelDelivery.BoundedReading | report/views.go:24-28 | a report with a time bound takes exactly the events up to and including the first one older than its bound |
| ChannelDelivery.Taking | report/runner.go:64-66 | the jobs before the first job that does not take the event all take it, and that job does not |
| ChannelDelivery.DeliverWhenAllTake | report/runner.go:47-70 | when every job takes every event, the sends to unbuffered channels complete and the deliveries are the full fan-out followed by one close per job |
| ChannelDelivery.DeliverWhenOneStops | report/runner.go:64-66 | when some job stops before the last event, the reader blocks: the deliveries are a prefix of the fan-out and hold no close |
| ChannelDelivery.DeliverBlocksIffEarlyStop | report/runner.go:64-70 | the reader blocks exactly when some job stops before the last event; otherwise it sends everything and closes every job, and if it blocks no job is closed |
| ChannelDelivery.EarlyStopBlocksReader | report/runner.go:27 | two records with times 10 and 20, a views report with bound 15 and a second job: the second job receives only the first event and no close |
| ChannelDelivery.DrainingJobsGetEverything | report/runner.go:64-70 | when every job reads to the close, the reader never blocks, its deliveries are those of `ReadEvents` and each job gets every event and one close |
| BlockFile.PutUint32 | app/post.go:125-126 | the length is four bytes |
| BlockFile.Uint32At | report/read.go:48 | the length decoded from four bytes is below 2^32 |
| BlockFile.Uint32AtPut | report/read.go:42-48 | the reader's big-endian decoding inverts `PutUint32` |
| BlockFile.BlockFrame | app/post.go:119-131 | a block is its payload followed by four more bytes |
| BlockFile.WrittenBytes | app/post.go:97-134 | what one `writeBlock` call leaves in the file: nothing when packing or the data write fails, the bare payload when only the length write fails, the payload followed by four length bytes otherwise |
| BlockFile.DataFile.WriteBlock | app/post.go:97-134 | fails exactly when packing or one of the two writes fails, naming which; nothing is written when packing or the data write fails; only the payload is written when the length write fails; payload and length are written otherwise; the file grows by `WrittenBytes` |
| BlockFile.BatchInvariant | app/post.go:82-89 | the written blocks followed by the pending one are the events in arrival order; each written block has max(blockSize,1) events and the pending one has fewer |
| BlockFile.FramesPack | app/post.go:82-88 | the frames of a run of blocks exist exactly when every block packs, and are then the frames of their payloads in order |
| BlockFile.BatchGrows | app/post.go:81-89 | a block, once written, stays: the blocks completed after a prefix of the events are a prefix of those completed after all of them |
| BlockFile.BlockWriter.Append | app/post.go:81-89 | the event joins the pending block; while the block is short of `blockSize` nothing is written; once it reaches it the block is written and emptied, the file grows by exactly what `writeBlock` left for it, and the call panics unless packing and both writes succeeded; without a panic the file holds its earlier contents followed by the frames of every written block |
| BlockFile.BlockWriter.WriteEvents | app/post.go:70-94 | a negative block size panics before anything is written; without a panic the writer has taken every event before the cancellation and the file holds its earlier contents followed by the frames of the full blocks, the partial block being dropped; after a panic the last completed block failed to pack or to be written, every earlier block was written whole after the earlier contents, and the file ends with what the failed `writeBlock` left; no panic happens when every write succeeds and every block of the received events packs |
| BlockFile.FailedCause | app/post.go:83-87 | a block panics only when one of its writes fails or it is a block of the received events that does not pack |
| BlockFile.StepBack | report/read.go:34-99 | every step that goes on leaves a strictly smaller unread region, so the loop ends |
| BlockFile.Runner.ReadEventsFromFile | report/read.go:14-107 | sends what the backward reading defines; `fileSize` is the file's size; the running count is the number of events sent, as a wrapping uint32; `lastReportEventCount` takes it unless the reader panics; the negative-offset panic is unreachable |
| BlockFile.ReadBackFollowsScan | report/read.go:74-93 | the events sent are the unpacked blocks in scan order, each block's events in stored order, and the run ends where the scan stops |
| BlockFile.ScanBackFrames | report/read.go:34-99 | scanning a concatenation of blocks back from its end visits every payload exactly once, last first, and ends cleanly |
| BlockFile.WriteThenRead | report/read.go:14-107 | for blocks whose payloads are non-empty and shorter than 2^32 bytes, reading the blocks `writeBlock` wrote gives all their events, last block first and each block's events in stored order, and ends cleanly; a longer payload's `uint32` length wraps (app/post.go:126) and an empty one reads as an invalid length (report/read.go:51) |
| ReadOrder.BreakIsExact | report/views.go:25-27 | on a newest-first stream, the events before the reports' stop are exactly those inside the window |
| ReadOrder.BlockOrderDropsWindow | report/read.go:91-93 | one block holding a LOAD at time 10 and one at time 20 is read back oldest first, so a views report with bound 15 counts nothing although the second LOAD is inside its window |
| ReadOrder.CorrectedReadIsNewestFirst | report/read.go:91-93 | with each block's events sent last first, reading back what was written oldest first gives exactly the reverse of the written order, newest first, and the reports' stop keeps exactly the events inside the window |
| EventStream.FirstOlder | report/top.go:49-53 | the reports read exactly the events before the first one with `Time < minEvTime` |
| EventStream.LoadedIgnoresTail | report/views.go:24-28 | events after the first too-old one do not change what is counted |
| EventStream.LoadCidsSound | report/views.go:29-31 | each counted content id comes from a LOAD event read before the stop |
| Ints.Inc32 | report/views.go:30 | `x++` on a uint32 is the successor reduced to 32 bits, so 2^32 - 1 wraps to 0 |
| Ints.AddUint32 | report/read.go:96 | adding wrapped counts wraps the total |
| ItemHeaps.RootIsMin | report/top.go:24 | in a min-heap under `Less` the root has the fewest views |
| ItemHeaps.SiftUpSpec | report/top.go:65 | sifting up an appended item restores heap order and keeps the items and their distinct content ids |
| ItemHeaps.PushedSpec | report/top.go:27-29 | `heap.Push` leaves a min-heap holding the old items plus the new one, with distinct content ids when the new one is new |
| ItemHeaps.PoppedSpec | report/top.go:31-37 | `heap.Pop` returns the root, which has no more views than any remaining item, and leaves a min-heap of the others |
| ItemHeaps.FixedSpec | report/top.go:62 | `heap.Fix` after changing one item's views restores heap order and keeps the items |
| ItemHeaps.ItemHeap.Len | report/top.go:23 | the number of items |
| ItemHeaps.ItemHeap.Swap | report/top.go:25 | exchanges two items and leaves the rest alone |
| ItemHeaps.ItemHeap.PushBack | report/top.go:27-29 | appends the item |
| ItemHeaps.ItemHeap.PopBack | report/top.go:31-37 | removes and returns the last item |
| ItemHeaps.ItemHeap.Up | report/top.go:65 | sifts an item up in place, as `SiftUp` |
| ItemHeaps.ItemHeap.Down | report/top.go:62 | sifts an item down in place, as `SiftDown`, and reports whether it moved |
| ItemHeaps.ItemHeap.SetViews | report/top.go:61 | changes one item's views and nothing else |
| ItemHeaps.ItemHeap.HeapPush | report/top.go:65 | pushes in place, as `Pushed` |
| ItemHeaps.ItemHeap.HeapPop | report/top.go:70 | pops in place, as `Popped` |
| ItemHeaps.ItemHeap.Fix | report/top.go:62 | re-establishes order in place, as `Fixed` |
| TopReport.ObserveKeepsInv | report/top.go:57-77 | one LOAD panics exactly when N <= 0. Otherwise it keeps the invariants: min-heap order, at most N items, distinct content ids, `inHeap` true exactly for heap members, stored indexes in bounds, and `cidViews` equal to the wrapped load counts |
| TopReport.RunKeepsInv | report/top.go:49-78 | the loop panics exactly when N <= 0 and some LOAD is counted, and otherwise ends with the invariants above |
| TopReport.EntersFullHeap | report/top.go:68-77 | a content id not in a full heap enters only with strictly more views than the root, and then it replaces the root |
| TopReport.CountLoad | report/top.go:57-77 | the loop body on one LOAD event does what the specification step does, in place on the heap, and fails exactly where it panics |
| TopReport.DrainTop | report/top.go:81-85 | `topN` is the heap drained by repeated pops, filled from its end, and the heap ends empty |
| TopReport.DrainedSorted | report/top.go:81-85 | the drained slice is a permutation of the heap, in non-increasing order of views |
| TopReport.DrainedDistinct | report/top.go:81-85 | the drained slice keeps the heap's distinct content ids |
| TopReport.ResultMap | report/top.go:88-91 | the result map is filled from `topN` in order |
| TopReport.Generate | report/top.go:40-94 | the report the specification defines, or the panic |
| TopReport.PanicReported | report/top.go:61-68 | a panic on a counted LOAD makes the whole report a panic |
| TopReport.ReportSpec | report/top.go:40-94 | panics exactly when N <= 0 and some LOAD is counted; otherwise it holds at most N content ids, all loaded, each with at most as many views as loads counted, and either N content ids or every loaded one |
| TopReport.ReportIgnoresTail | report/top.go:49-53 | events after the first one older than the bound do not affect the report |
| TopReport.StaleIndexMiscounts | report/top.go:58-77 | as written, N=2 and the loads 7, 7, 9, 9 report content id 9 with one view although it was loaded twice |
| TopReport.RunKeepsRank | report/top.go:58-77 | when the heap slot is looked up where the item really is, every heap item's views equal its content id's count, and no content id outside the heap has more |
| TopReport.SearchedReportIsTop | report/top.go:40-94 | with that lookup, the report gives each reported content id its number of loads, and no unreported loaded content id has more loads than a reported one |
| ViewsReport.CountViews | report/views.go:24-32 | counts exactly the content ids of LOAD events before the first too-old event, each with its wrapped number of loads |
| ViewsReport.DropBelow | report/views.go:35-39 | keeps exactly the entries with views >= uint32(Cutoff), unchanged |
| ViewsReport.Generate | report/views.go:19-50 | the wrapped counts of the content ids that meet the cutoff, tagged `application/json` |
| ViewsReport.GenerateFixed | report/loads.go:18-36 | the same report, with the fixed time bound |
| ViewsReport.ViewCountsSpec | report/views.go:24-39 | for a cutoff and a count that fit in a uint32, a content id is reported exactly when it was loaded at least once and at least Cutoff times, and it is reported with its number of loads |
| ViewsReport.MinusOneCutoffDropsAll | report/views.go:36 | a cutoff of -1 becomes the largest uint32, so nothing is reported |
| ViewsReport.CutoffMonotone | report/views.go:35-39 | a higher cutoff reports a subset, with the same counts |
| ViewsReport.ViewsIgnoreTail | report/views.go:24-28 | events after the first too-old one do not change the report |
| SubsetReport.Matching | report/subset.go:19-21 | every event kept passes the filter, and no more are kept than were read |
| SubsetReport.Cap | report/subset.go:22-24 | the loop stops at max(Limit, 1) matches |
| SubsetReport.Generate | report/subset.go:15-28 | the report is the matches read, in order. Input is consumed only up to the match that reaches the cap. A negative limit panics |
| SubsetReport.CapReached | report/subset.go:22-24 | once the matches read so far reach the cap, reading more cannot change the report |
| SubsetReport.SubsetSpec | report/subset.go:15-28 | every reported event passes the filter; the report is a prefix of all matches with at most max(Limit,1) events, and is all of them when there are fewer than Limit |
| SubsetReport.ZeroLimitKeepsOne | report/subset.go:22-24 | with Limit 0 the first match still gets through |
| Fmt.FmtCount | report/fmt.go:5-17 | a count below 1000 is printed whole; otherwise div = 1000^(exp+1) with div <= count < 1000·div, exp <= 2, and the suffix is "KMGTPE"[exp] |
| Fmt.FmtFileSize | report/fmt.go:19-31 | a size below 1024, negative ones included, is printed whole with "B"; otherwise div = 1024^(exp+1) with div <= size < 1024·div, exp <= 5, and the suffix is "KMGTPE"[exp] then "B" |
| Fmt.ScaleUnique | report/fmt.go:10-14 | the divisor and exponent the loop finds are the only ones that bracket the number |
| Window.YoungerMeansAfter | report/report.go:13-15 | while now − d fits in uint32 seconds, an event is younger exactly when its second starts after now − d |
| Window.AtCutoffNotYounger | report/report.go:14 | an event stamped with the cutoff second itself is not younger |
| Window.YoungerMonotone | report/report.go:14 | a later event than a younger one is younger too |
| Window.YoungerOnlyTime | report/report.go:14 | only the event's time matters |
| Window.LongerWindowContains | report/report.go:13-15 | without wrap-around, what is younger than d1 is younger than any d2 >= d1 |
| RateLimits.Sweep | app/app.go:237-241 | one pass deletes exactly the entries idle for more than ten seconds and leaves the others unchanged |
| RateLimits.RateKey | app/app.go:211-217 | the key is the method followed by Fly-Client-IP, or by the remote address when that header is empty |
| RateLimits.PostAndGetApart | app/app.go:217 | POST and GET from one address are limited separately |
| RateLimits.SeenNotIdle | app/app.go:238 | an entry seen within the last ten seconds survives a sweep |
| RateLimits.App.GetRateLimiter | app/app.go:210-231 | a new key gets a fresh limiter stamped now: 1 per second with burst 4 for POST, 1 per 10 seconds with burst 2 otherwise. A known key returns its limiter, and only that entry's `lastSeen` changes |
| RateLimits.App.CleanupVisitors | app/app.go:233-244 | one sweep of the client table |
| RateLimits.HttpSvc.GetVisitor | main.go:147-158 | keyed by address alone: a new address gets a fresh limiter (1 per second, burst 4) stamped now; a known one returns its limiter, and only its `lastSeen` changes |
| RateLimits.HttpSvc.CleanupVisitors | main.go:160-171 | one sweep of the visitor table |

## Left out

- gzip and protobuf are opaque functions that may fail. So are the
  marshalled bytes of `ev.Block`, which `ev/ev.pb.go` does not define. The
  round trips assume `unpack` inverts `pack` and `unmarshal` inverts
  `marshal`.
- Float parsing of the SCROLLED headers is an opaque parser that may fail.
  `GetScrolled` is not modelled, and neither is the `%.1f` rendering in
  `report/fmt.go`. The formatters return the divisor, the exponent and the
  suffix, not the text.
- Protobuf reflection and descriptors are not modelled: `Enum`, `String`,
  `ProtoReflect`, `Descriptor`, `Reset` and `init`.
- JSON encoding is left out. The reports return the map or sequence that
  would be encoded.
- Goroutines, mutexes, channels and `ctx.Done()` are not modelled:
  - Channels are sequences: the events in, a delivery log out.
    `ChannelDelivery` models one effect of the unbuffered channels: a
    send to a job that no longer reads never completes. Goroutine
    scheduling, and the Go runtime's deadlock report once no goroutine
    can run, are not modelled.
  - Cancellation is the `Cancel` input.
  - The mutex-protected sections are single method calls.
- Closing the events channel at the end of `readEventsFromFile` is not
  modelled.
- Clocks are not read. `time.Now()` is a parameter.
- The sleeping cleanup loops are modelled as one pass with a single `now`,
  in place of `time.Since` per entry.
- Flush tickers and buffered-writer flushes are not modelled. The file is
  the bytes written.
- Open, stat, seek and read failures other than the seek before the file
  start are not modelled.
- A failed `Write` is modelled as writing none of its buffer. A short
  write that stores part of the buffer before failing is not modelled.
- The `rate.Limiter` token bucket is not modelled. A limiter is a record of
  its rate and burst, and `Allow` and the middleware that calls it are left
  out.
- `http.Header.Get` canonicalises header names. The model reads headers
  from a map under the names the handler asks for.
- `main.go` uses `ev.Type_value` and `ev.Type`, which `ev/ev.pb.go` does
  not define. The model uses the three type names of `ev/ev.pb.go`.
- `handleGetData`, `handleGetJS`, the CORS middleware and the thin
  handlers in `app/report.go`, `app/status.go`, `app/stat.go`,
  `app/root.go` and `app/static.go` are not modelled. Routing to them is
  modelled, but they only serialise or serve files.
- `worker/pool.go`, `main_test.go` and the browser beacon scripts are not
  part of this model. They hold concurrency, load generation and
  DOM/timer code only.
- `container/heap` is modelled by its sift-up and sift-down algorithms on
  `Less`. Its guard against index overflow is left out.
- TopReport.SearchedReportIsTop requires fewer than 2^32 counted loads,
  because beyond that the uint32 counts wrap and no longer rank.
- TopReport.RunKeepsRank is stated under the same bound.
- ViewsReport.ViewCountsSpec requires a cutoff in [0, 2^32) and fewer than
  2^32 loads. Outside those, `Generate` still gives the wrapped result.
- Window.YoungerMeansAfter and Window.LongerWindowContains require now − d
  to lie in [0, 2^32) seconds. Outside that range the cutoff wraps, and
  only `YoungerThan` itself describes it.
- BlockFile.Runner.ReadEventsFromFile requires the file to be shorter than
  2^63 bytes, the largest size Go's `int64` file size can hold.

## Findings

| source | as written | input that shows it | evidently intended | confidence | as-written member | corrected member |
|---|---|---|---|---|---|---|
| report/top.go:58-77 | `itemIndex[cid]` is set to `len(*h)-1` after `heap.Push` (line 67) and to 0 after a replacement (line 76). `heap.Push` then sifts the new item up, and later `heap.Fix` calls move other items, so the stored index can name a slot that holds another content id. Line 61 then writes the new count into that other item | N = 2 and LOAD events for content ids 7, 7, 9, 9: the report is {7: 2, 9: 1}, although 9 was loaded twice | the count is written into the item that holds the content id, so every reported count is that content id's number of loads and the report is the top N | not executed | TopReport.StaleIndexMiscounts | TopReport.SearchedReportIsTop |
| report/runner.go:64-66 | each event is sent on each job's unbuffered channel (line 27). The views, loads and top reports return at the first event older than their bound (report/views.go:25-27, report/loads.go:21-24, report/top.go:50-53), and the subset report at its cap (report/subset.go:22-24). The next send to such a job never completes, so later events and jobs get nothing and no channel is closed | two records, a LOAD at time 10 then a LOAD at time 20, read by a views report with bound 15 and by a second job that reads to the close: the second job receives the first event only and never sees its channel closed | every job gets every event and one close, for example because each report keeps receiving and discarding events after its break | not executed | ChannelDelivery.EarlyStopBlocksReader | ChannelDelivery.DrainingJobsGetEverything |
| report/read.go:91-93 | each block's events are sent in stored order, which is arrival order (app/post.go:82), so oldest first. The reports break at the first event older than their bound (report/views.go:25-27, report/top.go:50-53), relying on a newest-first stream | one block holding a LOAD of content id 1 at time 10 and a LOAD of content id 2 at time 20, read back and counted by the views report with bound 15: the report is empty, although content id 2 was loaded inside the window | the events of each block are sent last first, so the whole stream is newest first and the break keeps exactly the events inside the window | not executed | ReadOrder.BlockOrderDropsWindow | ReadOrder.CorrectedReadIsNewestFirst |

The reader keeps the order as written: `BlockFile.ReadBack` sends each
block in stored order. `ReadOrder.ReadNewestFirst` is the corrected
reader, which reverses each block. The reports themselves take any stream,
so they are the same under both readers. The record reader of
`report/runner.go` sends the whole file oldest first, and the same early
stop applies to it.

For the channel finding, `ChannelDelivery.Deliver` is the delivery as
written: each job's reading is a parameter, either to the close or up to a
number of events. `RecordFile.ReadEvents` is the corrected delivery, in
which every job reads its stream to the close.

For the `itemIndex` finding, the model keeps both lookups as a parameter
of the report (`IndexRule`):

- `Stored` reads `itemIndex` as the code does.
  - `TopReport.Generate` is proved equal to the report under `Stored`.
  - `TopReport.StaleIndexMiscounts` exhibits the miscount under `Stored`.
- `Searched` uses the slot where the item really is.
  - `TopReport.SearchedReportIsTop` proves the intended top-N property
    under `Searched`.
- The properties that do not depend on counts hold under both rules:
  - heap order and its size bound;
  - distinct content ids;
  - stored indexes in bounds;
  - `cidViews` equal to the wrapped load counts.
