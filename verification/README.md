# webhook-logger core in Dafny

A model of the two stateful parts of webhook-logger and proofs about them.

The **notification store** is a durable, per-topic append log kept in an ordered key/value engine (bolt). It has four operations:
- opening a volume, which loads the generation ID or creates and persists it;
- `append`, which takes the topic's next sequence number and stores the record under a key derived from it;
- `get`, which seeks to the key of `fromIndex` when the caller holds the store's generation ID and otherwise reads from the first entry;
- `gc`, which sweeps every topic and deletes entries older than a cutoff.

The **watch session manager** validates a watch request (the topic, and `fromIndex`, which defaults to 0 and must parse as a `uint64`). It then runs a polling loop: read from the cursor, send any non-empty batch whole, and move the cursor.

The in-memory **test store** that the watch test runs against is modelled as well.

The engine is modelled as follows:
- Each bucket is a key-sorted association list, and keys compare byte-lexicographically (`OrderedMap`, `Keys.Less`).
- Each transaction is a pure function from the store before to the store after.
- A stored record is either the serialised form of a notification or bytes that do not decode (`Notifications.Record`).
- Time is an `int` parameter, and the freshly generated UUID is a parameter of `Open`.

Keys come in two schemes (`BoltStore.KeyScheme`):
- `DecimalText` is the variable-length decimal text that store.go:101-103 writes.
- `FixedWidth` is a 20-digit zero-padded key. Its byte order equals numeric order.

The store as written uses `DecimalText`. The redelivery of the loop as written is shown under either scheme. The proofs that the corrected loop delivers in order are stated for `FixedWidth` (see Findings).

The watch loop is a pure step on a cursor `(genID, idx)`:
- `Watch.Step` is the loop as written.
- `Watch.StepPastLast` is the corrected loop.

A session is driven by a list of events. Each event is either a producer appending to a topic or the loop polling with a given write outcome. Two drivers run a session:
- `FakeDelivery.RunFake` runs it against the test store.
- `BoltDelivery.RunBolt` runs it against the bolt store.

Two choices shape the corrected definitions. Both rest on the source, and the as-written behaviour is modelled alongside each:
- An index is only meaningful within a generation ID (main.go:22-23), and every response carries the store's (store.go:165-167). The loop as written (watches.go:59-77) never replaces the session's generation ID. The corrected loop adopts the response's.
- keyFromIndex (store.go:101-103) writes plain decimal text. The corrected key is fixed-width, because `get` relies on byte order matching index order when it seeks (store.go:145-146).

Files:
- wrappers.dfy: `Option` and `Result`.
- keys.dfy: key order, the decimal and fixed-width encodings, and `ParseUint`.
- ordered_map.dfy: sorted buckets, `Put`, `Seek` and `Filter`.
- notifications.dfy: records and their encoding.
- store.dfy: the bolt store.
- store_properties.dfy: multi-operation store properties.
- fake_store.dfy: the test store.
- watch.dfy: request validation and the loop step.
- fake_delivery.dfy: sessions against the test store.
- bolt_delivery.dfy: sessions against the bolt store.

## Model

| member | source | states |
|---|---|---|
| Keys.Decimal | store.go:101-103 | the decimal text of an index: digits only, no leading zeros, denoting the index; its length is the index's digit count |
| BoltStore.KeyFromIndex | store.go:101-103 | every key the store derives from an index is a digit string whose value is that index |
| BoltStore.KeyOrder | store.go:101-103 | keys are injective in the index; fixed-width key order equals numeric order for all uint64 indices; decimal key order is guaranteed to agree with numeric order only for indices with the same digit count |
| Keys.DecimalOrderAcrossWidths | store.go:101-103 | across a digit-count boundary decimal key order can disagree with numeric order: "10" sorts before "2" |
| Keys.PaddedOrder | store.go:101-103 | for the corrected key, byte order equals numeric order for every pair of uint64 indices |
| Keys.ParseUint | watches.go:50-54 | strconv.ParseUint base 10: succeeds exactly on a non-empty all-digit string whose value fits 64 bits, and returns that value |
| Keys.ParseDigits | watches.go:50 | the digit scan succeeds exactly when every character is a digit and the accumulated total stays within uint64, and returns that total |
| BoltStore.Open | store.go:55-74 | opening keeps the topic buckets, reuses a persisted generation ID, persists the fresh one only when none is stored, leaves other metadata as it was, and yields a valid store |
| BoltStore.Close | store.go:203-207 | closing leaves a volume that holds the store's buckets and, for a valid store, its generation ID |
| BoltStore.ReopenKeepsStore | store.go:65-72 | closing and reopening a store gives back the same store whatever fresh ID is offered: the generation ID never changes once set |
| BoltStore.OpenEmptyVolume | store.go:55-74 | opening an empty volume creates empty buckets and adopts the fresh generation ID |
| BoltStore.AppendToBucket | store.go:112-128 | an append bumps the topic's sequence by one and adds exactly one entry, under the key of the new index, holding a notification with that index and the caller's data; no earlier entry used that key and all earlier indices are smaller |
| BoltStore.Append | store.go:105-131 | append creates the topic's bucket if missing, changes only that topic's bucket (as AppendToBucket), keeps the store valid, and leaves generation ID and metadata unchanged |
| Notifications.Marshal | store.go:117-125 | decoding a serialised notification gives back the same notification |
| Notifications.UnmarshalAll | store.go:151-158 | decoding a run of records succeeds exactly when every record decodes, keeps order and length; otherwise it fails with the error of an undecodable record |
| BoltStore.Get | store.go:133-169 | a missing topic reads as an empty list; with the store's generation ID the read returns the entries whose key is not below the key of fromIndex, otherwise every entry, in key order; it succeeds exactly when those records decode; the response carries the store's generation ID |
| BoltStore.SweepBucket | store.go:185-197 | the sweep of one bucket visits every entry, keeps exactly the unexpired ones in order, counts one per deletion, and fails exactly when some record does not decode |
| BoltStore.SweepRoot | store.go:177-198 | the sweep of the root covers every topic in order, keeps each topic's key and sequence, and fails exactly when some record anywhere does not decode |
| BoltStore.Gc | store.go:171-201 | gc deletes exactly the entries whose timestamp is strictly before the cutoff and keeps every other; the count is the number deleted; an undecodable record fails the transaction and leaves the store unchanged |
| StoreProperties.GcPerTopic | store.go:177-199 | after gc each topic keeps its bucket and its sequence counter (indices are never reused) and holds exactly its unexpired entries |
| StoreProperties.AppendAllEntries | store.go:112-128 | after a series of appends every earlier entry is still there and the j-th payload is stored with index sequence+j+1, under either key scheme |
| StoreProperties.LogAfterAppendAll | store.go:112-128 | with fixed-width keys a series of appends extends the topic's log, in key order, by exactly the appended notifications numbered consecutively |
| StoreProperties.FixedWidthGetIsIndexRange | store.go:145-158 | with fixed-width keys and the store's generation ID a read returns exactly the notifications with index at least fromIndex, in ascending index order |
| StoreProperties.StaleGenerationReadsAll | store.go:145-149 | with any other generation ID a read returns the whole log whatever fromIndex is |
| StoreProperties.FixedWidthReadsAppendsInOrder | store.go:101-103 | with the corrected key, n payloads appended to a fresh volume read back from index 0 as exactly those payloads with indices 1..n, past nine entries too |
| StoreProperties.DecimalSeekSkips | store.go:145-146 | with decimal keys a read from index 2 under the store's generation ID never returns the notification with index 10 |
| StoreProperties.DecimalKeysSkipIndexTen | store.go:101-103 | ten appends to a fresh decimal-key volume store index 10, yet the read from index 2 succeeds without it |
| TestStore.Append | watches_test.go:20-27 | the test store's append always succeeds, keeps the earlier entries and adds one with index length+1, so indices stay 1..n |
| TestStore.Get | watches_test.go:29-35 | the test store's read returns the suffix from position fromIndex, which is exactly the entries with index above fromIndex, numbered on from fromIndex+1, and echoes the caller's generation ID |
| Watch.HandleWatchRequest | watches.go:28-57 | a request without a topic is rejected; an empty fromIndex means 0; otherwise fromIndex must parse as uint64; a session starts exactly when both checks pass, with the request's topic, generation ID and index |
| Watch.Step | watches.go:62-76 | a failed read ends the session; an empty batch sends nothing and keeps the cursor; a non-empty batch is sent whole when the write succeeds and the cursor moves to its last index with the generation ID kept; a failed write ends the session |
| Watch.StepPastLast | watches.go:62-76 | the corrected step: as Step, but the cursor moves one past the last index sent and takes the response's generation ID |
| FakeDelivery.RunFake | watches.go:59-77 | the loop as written, run against the test store through any interleaving of appends and polls: the store only grows and stays numbered 1..n, the session keeps the generation ID it was started with, and a stopped loop never restarts |
| FakeDelivery.FakeDeliveryInOrder | watches.go:59-77 | against the test store the loop as written delivers, across any interleaving of appends and polls, exactly the entries between its start and end cursor with no gap, duplicate or reordering; the generation ID never changes, every message is non-empty, and a running session has caught up after a final poll |
| FakeDelivery.WatchDeliversEveryAppendInOrder | watches_test.go:100-126 | the test's check: a session opened at 0 on an empty test store receives, concatenated, exactly the appended payloads in append order with indices 1..n |
| BoltDelivery.ReadAtCursor | store.go:133-169 | on a fixed-width store a read at a cursor that holds the store's generation ID, or starts at 0, returns the topic's log from the cursor index on, in ascending order |
| BoltDelivery.RedeliversLastEntry | watches.go:68-73 | the loop as written against the bolt store, under either key scheme: after a delivery, the next poll with no new append seeks to the bucket's greatest key, reads and sends the last notification again, and leaves the cursor where it was |
| BoltDelivery.StaleCursorResendsLog | watches.go:59-73 | a session whose generation ID is not the store's is sent the whole log and keeps its generation ID, so the next poll sends the same message again |
| BoltDelivery.OneAppendSentOnEveryPoll | watches.go:62-76 | one append to a fresh store, under decimal-text keys as written or fixed-width ones: the first and the second poll send the same one-notification message |
| BoltDelivery.RunBolt | watches.go:59-77 | the corrected loop, run against the bolt store through any interleaving of appends and polls: the store stays valid with its scheme and generation ID, the session ends holding its starting generation ID or the store's, and a stopped loop never restarts |
| BoltDelivery.RunStoreIsReplay | watches.go:59-77 | the session only reads: the store a run ends with is the one its appends alone produce |
| BoltDelivery.ReplayLog | store.go:105-131 | appends on a fixed-width store grow a topic's log by exactly the payloads appended to that topic, in order, and keep it numbered 1..n |
| BoltDelivery.CorrectedDeliveryInOrder | watches.go:59-77 | the corrected loop against the fixed-width store, across any interleaving of appends and polls, delivers exactly the logged notifications between its start and end cursor with no gap, duplicate or reordering; the log only grows; every message is non-empty; a running session has caught up after a final poll |
| BoltDelivery.CorrectedWatchDeliversEveryAppendInOrder | watches_test.go:100-126 | a session opened at 0 under any generation ID on a fresh fixed-width store receives, concatenated, exactly the payloads appended to its topic, in append order with indices 1..n, and holds the store's generation ID once anything was sent |

## Left out

- HTTP routing, the websocket upgrade, `WriteJSON` and close frames (watches.go:36-41, 79-89) are left out. A write is represented only by whether it succeeded.
- The loop's `time.Sleep` pause (watches.go:75) is left out. One poll is one step.
- Goroutines are left out. A session and its producers interleave only as the order of events in a list.
- gc is not interleaved with a watch session: an event is an append or a poll, never a sweep. The delivery results (`RunFake`, `RunBolt` and the lemmas about them) assume no entry is deleted while a session runs.
- The background gc ticker and the stop/done channels of `start` and `close` (store.go:83-99, 203-207) are left out because they concern concurrency. `Close` models only the volume the store leaves behind.
- Engine failures are left out: opening the file, creating buckets, `Put` and `Delete` errors. So are `NextSequence` errors and JSON marshal errors, since the model cannot see them. The only read error modelled is a record that does not decode.
- Serialisation is abstract: a stored record either decodes to the notification or is undecodable. Timestamps are integers, and the UUID is a parameter of `Open`.
- Indices are unbounded naturals. `NextSequence` overflow at 2^64 is not modelled. The fixed-width results assume the topic's sequence stays within `uint64`, which is why the delivery lemmas require at most 2^64-1 events.
- BoltStore.Gc: the count the source returns is read in the same `return` statement as the transaction (store.go:173). Whether it reflects the deletions therefore depends on Go's operand evaluation order. The model returns the number of deletions.
- Watch.HandleWatchRequest: the source also calls `http.Error` on an already upgraded connection after a bad `fromIndex`, and leaves the connection open. Only the outcome is modelled: no session starts.
- TestStore.Get: `fromIndex` beyond the stored entries makes the source slice panic. The model requires `fromIndex` within the list instead.
- The test store's `close` does nothing, so it is not modelled.
- The test's timeout and its goroutine reading messages (watches_test.go:72-98, 113-114) are left out. Its check is stated over a session that ends with a poll.

## Findings

| source | as written | input that shows it | evidently intended | confidence | as-written member | corrected member |
|---|---|---|---|---|---|---|
| store.go:101-103 | keys are variable-length decimal text, so byte order differs from index order across a digit-count boundary | ten appends to a fresh topic, then `get(topic, G, 2)` with the store's generation ID `G`: key "10" sorts before "2", so index 10 is not returned | fixed-width keys, so that a seek from index k returns every index ≥ k in ascending order | high; not executed | StoreProperties.DecimalKeysSkipIndexTen | StoreProperties.FixedWidthReadsAppendsInOrder |
| watches.go:73 | the cursor is set to the index of the last notification sent, but the bolt read includes the entry at `fromIndex` | one append to a fresh store with decimal keys as written, a session at `(G, 0)`: the first poll sends index 1, and every later poll sends index 1 again | move the cursor one past the last index sent | high; not executed | BoltDelivery.OneAppendSentOnEveryPoll | BoltDelivery.CorrectedDeliveryInOrder |
| watches.go:59-73 | the loop never adopts the generation ID of a response, so a session started without the store's generation ID reads from the first entry on every poll | a watch request without `generationID` on a topic with one entry: every poll sends the whole log | adopt the response's generation ID after a delivery | high; not executed | BoltDelivery.StaleCursorResendsLog | BoltDelivery.CorrectedWatchDeliversEveryAppendInOrder |
