# Key-transparency sequencer and monitor, modelled in Dafny

This project models the sequencing and monitoring core of a key-transparency server.

- The **sequencer** batches queued key/value mutations into epochs. It resolves conflicts within a batch, so the last valid mutation for each key wins. It decides on each timer tick whether an epoch must be forced. It writes the new leaves to the Trillian map, tagged with the new high-water mark, and anchors the resulting signed map root in the Trillian log.
- The **monitor** checks each published epoch. It signs the map root only when verification found no error, and stores a monitoring result in a write-once, epoch-keyed store. It then compares the root hash with one published by a witness; that comparison is only logged.

Everything is sequential and deterministic once the collaborators' answers are fixed. The collaborators are the Trillian RPCs, the mutation queue and its transactions, `entry.FromLeafValue`, `mutator.Mutate`, the verifier, the signer and the remote key/value client. Each becomes a function-typed parameter or a field of a parameter record. Operations are pure functions over immutable values. A Go method that changes a struct becomes a function that returns the new state. A function that makes RPCs returns its result together with the trace of calls it made, so lemmas can state what happens before what.

Files, one module each:

- `results.dfy`: `Option` (Go's nil) and `Result` (Go's `(value, error)`).
- `ints.dfy`: `int64`, `uint64` and byte ranges. It also holds the conversions the Go code performs: two's-complement `uint64(x)` and `int64(u)`, wrapping `int64` addition, and the saturation of `time.Time.Sub`.
- `types.dfy`: signed map root, log root, map leaf, mutation, entry, mutations response.
- `resolver.dfy`: `toArray` and `applyMutations`.
- `timing.dfy`: the `genEpochTicks` decision rule as a step function.
- `sequencer.dfy`: `newMutations`, `CreateEpoch`, `Initialize`.
- `storage_contract.dfy`: `MonitoringResult`, the error values, and the `Storage` interface's promises as predicates.
- `memory_store.dfy`: the in-memory `Storage`.
- `big_endian.dfy`: the 8-byte big-endian epoch key.
- `bftkv_store.dfy`: the remote-backed `Storage` wrapper.
- `monitor.dfy`: `Monitor.Process`, as written and corrected.

Two behaviours of the code are easy to misread:

- `LatestEpoch` returns the epoch of the most recent successful `Set` (impl/monitor/storage/storage.go:65, 79-81). That need not be the highest stored epoch.
- `Process` passes the response to `Set` on both outcomes (core/monitor/monitor.go:84). The field comment at core/monitor/storage/storage.go:44-46 says it is kept only when a check failed. See Findings.

Time values are integer nanoseconds. The `seen` value the monitor stores comes from `time.Now().Unix()`, so it is in seconds, although the storage parameter is named `seenNanos`. The model passes it through unchanged as an opaque `int64`.

## Model

| member | source | states |
|---|---|---|
| Resolver.ToArrayContents | core/sequencer/sequencer.go:215-221 | the canonical key is exactly 32 bytes: the first min(len, 32) bytes of the raw key, then zeros |
| Resolver.ToArrayCollision | core/sequencer/sequencer.go:217-221 | two raw keys get the same canonical key iff their zero-extended first 32 bytes agree (both directions) |
| Resolver.ToArrayIgnoresTailAndTrailingZeros | core/sequencer/sequencer.go:217-221 | keys that differ only after byte 32, or only by trailing zeros, collide |
| Resolver.ToArrayIdempotent | core/sequencer/sequencer.go:217-221 | canonicalising a canonical key returns it unchanged |
| Resolver.LeafMapSpec | core/sequencer/sequencer.go:228-232 | a canonical key is in the pre-batch leaf map iff some current leaf has it; it then maps to the last such leaf |
| Resolver.LastValid | core/sequencer/sequencer.go:234-256 | reference definition, scanning backwards: the position of the last mutation on a key that decodes and passes `Mutate`; no later mutation on that key applies |
| Resolver.ResolveLastValid | core/sequencer/sequencer.go:234-257 | the fold over the batch holds a leaf for a key iff the backward-scan reference finds an applying mutation on it, and that leaf is the one the found mutation produces |
| Resolver.ResolveSpec | core/sequencer/sequencer.go:234-257 | last valid mutation wins: a key gets a leaf iff at least one of its mutations applied, and that leaf is what the last applied one produced |
| Resolver.ResolvedLeafIndex | core/sequencer/sequencer.go:236-256 | each output leaf is indexed by the winning mutation's raw key, which canonicalises back to the map key |
| Resolver.EarlierMutationsIrrelevant | core/sequencer/sequencer.go:229-256 | old values come from the pre-batch leaves only: an earlier mutation in the batch never changes what a later one produces, and a skipped mutation changes nothing |
| Resolver.SupersededMutationDropped | core/sequencer/sequencer.go:223-256 | with mutations A, A', B all valid, the output is A' and B; the first mutation on A leaves no trace |
| Resolver.RejectedMutationDropped | core/sequencer/sequencer.go:238-256 | a mutation that fails decoding or `Mutate` is dropped; the valid one still yields its leaf and the batch does not fail |
| Resolver.ApplyMutations | core/sequencer/sequencer.go:227-264 | the two loops (leaf map, then one decode-and-mutate step per mutation in batch order) compute exactly the last-valid-wins fold that `ResolveSpec` characterises; at most one leaf per mutation |
| Ints.Int64ToUint64 | core/sequencer/sequencer.go:201 | `uint64(startSequence)` is congruent to the input modulo 2^64 and the identity on non-negative values |
| Ints.Uint64ToInt64 | core/sequencer/sequencer.go:212 | `int64(maxSequence)` is congruent modulo 2^64 and the identity below 2^63 |
| Ints.SaturateInt64 | core/sequencer/sequencer.go:181 | `Time.Sub` clamps to the int64 range and is exact inside it |
| Ints.WrapInt64 | core/sequencer/sequencer.go:181 | Duration addition wraps like int64 and is exact when no overflow occurs |
| EpochTiming.Tick | core/sequencer/sequencer.go:180-187 | each tick yields one decision; `true` sets `last` to `now`, `false` keeps it; without overflow the decision is `(now-last)+minElapsed ≥ maxElapsed` |
| EpochTiming.Startup | core/sequencer/sequencer.go:173-178 | start-up emits only `true` or nothing; `true` iff the same rule holds, after which `last` is the second clock reading |
| EpochTiming.LastsUnchangedWhileIdle | core/sequencer/sequencer.go:180-187 | while every decision emitted so far is `false`, `last` keeps its initial value |
| EpochTiming.ForcedOnceDue | core/sequencer/sequencer.go:170-187 | at least once per maxElapsed: if a tick arrives when `(tick - initial last) + minElapsed ≥ maxElapsed` (no overflow), some decision up to and including that tick is `true` |
| EpochTiming.GapNeverExceedsMax | core/sequencer/sequencer.go:170-187 | if ticks come at most minElapsed apart and the first is within maxElapsed of `last`, no tick sees more than maxElapsed since the last forced epoch |
| EpochTiming.StartupBoundsFirstGap | core/sequencer/sequencer.go:173-180 | the start-up check guarantees the first tick's gap premise of the previous row |
| EpochTiming.SaturatedGapSuppressesForce | core/sequencer/sequencer.go:181 | beyond the int64 range the saturated gap plus a positive minElapsed wraps negative, so no epoch is forced |
| Sequencer.NewMutations | core/sequencer/sequencer.go:195-213 | a failed transaction open makes no read; a failed `ReadAll` is always rolled back, never committed, and reported as a read failure for the start sequence; a failed commit after a good read is reported as a commit failure; the batch and the converted max sequence are returned iff the commit succeeded |
| Sequencer.CreateEpoch | core/sequencer/sequencer.go:267-348 | a cycle starts with the map-head read; it succeeds only as an unforced skip right after the commit, or after queueing a root in the log; a rollback means failure and no commit |
| Sequencer.WritesFollowCommittedRead | core/sequencer/sequencer.go:271-336 | every `GetLeaves`, `SetLeaves` or `QueueLeaf` comes after the head read, the transaction and a committed read from the head's high-water mark; no write follows a rollback |
| Sequencer.IdleCycleSkipsWrites | core/sequencer/sequencer.go:287-292 | with no pending mutations and force off, the cycle succeeds after the commit with no leaf read, map write or log write |
| Sequencer.ForcedIdleCycleWritesEmptyRevision | core/sequencer/sequencer.go:287-336 | with no pending mutations and force on, the map is still written, with no leaves, tagged with the read's sequence number |
| Sequencer.SetLeavesCarriesBatch | core/sequencer/sequencer.go:277-336 | the map write carries the resolved leaves of the batch read from the head's high-water mark and is tagged with that read's max sequence |
| Sequencer.AnchorsWrittenRoot | core/sequencer/sequencer.go:330-348 | the root queued in the log is the one `SetLeaves` returned for a write in the same cycle |
| Sequencer.HighWaterMarkMonotonic | core/sequencer/sequencer.go:277-336 | if the queue reports a max no smaller than the requested start, the new high-water mark is at least the previous one |
| Sequencer.CycleSucceedsIff | core/sequencer/sequencer.go:271-358 | a cycle succeeds iff the head read, transaction, read and commit succeed, and then either it is an unforced empty skip or `GetLeaves`, `SetLeaves` and `QueueLeaf` all succeed |
| Sequencer.Initialize | core/sequencer/sequencer.go:100-124 | the genesis root is queued iff both heads are read and the log is empty while the map is at revision 0; success iff those reads succeed and any queueing succeeds |
| MemoryStore.New | impl/monitor/storage/storage.go:40-45 | a fresh store answers not-found for every epoch and its latest epoch is 0 |
| MemoryStore.Set | impl/monitor/storage/storage.go:47-67 | an epoch already present is refused with the local already-stored error and the state, including `latest`, is unchanged; otherwise it is stored exactly as given, becomes latest, and no other epoch's entry changes |
| MemoryStore.Get | impl/monitor/storage/storage.go:69-76 | returns the stored result, or the local not-found error for an absent epoch |
| MemoryStore.ImplementsStorageInterface | core/monitor/storage/storage.go:49-58 | the in-memory store keeps the interface's promises up to error identity: Set then Get returns the data, a second Set is refused with an already-stored error, and Get of an absent epoch fails with a not-found error |
| MemoryStore.LocalErrorsAreNotCoreErrors | impl/monitor/storage/storage.go:25-31 | a refused duplicate and a missing epoch are reported with the in-memory package's own error values, which differ from the core package's (core/monitor/storage/storage.go:24-31), although the interface predicates hold |
| MemoryStore.StoredResultNeverOverwritten | impl/monitor/storage/storage.go:54-64 | once stored, an epoch's result survives any later series of `Set` calls unchanged |
| MemoryStore.SetAllEpochs | impl/monitor/storage/storage.go:54-65 | after a series of calls, the stored epochs are the original ones plus every epoch a call named |
| MemoryStore.LastSuccess | impl/monitor/storage/storage.go:54-65 | reference definition: the position of the last call in a series whose epoch was new |
| MemoryStore.LatestIsLastSuccessfulSet | impl/monitor/storage/storage.go:65-81 | `LatestEpoch` is the epoch of the most recent successful `Set`; it is unchanged when every `Set` of a series failed |
| MemoryStore.LatestIsNotMaximum | impl/monitor/storage/storage.go:65-81 | after storing 5 and then 3, the latest epoch is 3 while 5 is stored |
| BigEndian.DecodeEncodeUint | impl/monitor/storage/bftkvst/bftkvst.go:41-43 | decoding an n-byte big-endian encoding returns every value below 256^n |
| BigEndian.EncodeDecodeUint | impl/monitor/storage/bftkvst/bftkvst.go:41-43 | every byte string is the encoding of its decoded value |
| BigEndian.DecodeUintBound | impl/monitor/storage/bftkvst/bftkvst.go:41-43 | n bytes decode to a value below 256^n |
| BigEndian.Int64RoundTrip | impl/monitor/storage/bftkvst/bftkvst.go:41-43 | decoding the 8-byte two's-complement key of an epoch gives the epoch back |
| BigEndian.Int64KeyRoundTrip | impl/monitor/storage/bftkvst/bftkvst.go:41-43 | every 8-byte string is the key of exactly one epoch |
| BigEndian.Int64KeySign | impl/monitor/storage/bftkvst/bftkvst.go:41-43 | the key's leading byte is ≥ 128 iff the epoch is negative |
| BftkvStore.Read | impl/monitor/storage/bftkvst/bftkvst.go:44 | the remote read succeeds iff the key is present and the read does not fault |
| BftkvStore.Write | impl/monitor/storage/bftkvst/bftkvst.go:47 | the remote write returns its fault; on success the key holds the value; on failure the remote is unchanged |
| BftkvStore.New | impl/monitor/storage/bftkvst/bftkvst.go:21-28 | fresh local store; the client is kept iff opening it succeeded |
| BftkvStore.Set | impl/monitor/storage/bftkvst/bftkvst.go:30-50 | local `Set` first; a local error is returned with no remote call; with no client it behaves exactly like the local `Set`; a key already present remotely yields the core already-stored error without writing; otherwise the rendered response is written and the write's own error is returned (nil iff the write succeeds) |
| BftkvStore.Get | impl/monitor/storage/bftkvst/bftkvst.go:52-54 | answers from the local store and keeps the interface's `Get` promise |
| BftkvStore.ImplementsStorageInterface | core/monitor/storage/storage.go:49-58 | the wrapper keeps the interface's promises as seen through `Get`, up to error identity |
| BftkvStore.DuplicateErrorDependsOnWhereFound | impl/monitor/storage/bftkvst/bftkvst.go:36-46 | a duplicate found locally is reported with the in-memory package's already-stored value, one found only remotely with the core package's, and the two values differ |
| BftkvStore.RemoteRefusalAfterLocalStore | impl/monitor/storage/bftkvst/bftkvst.go:36-46 | on a remote refusal, the local entry and `latest` are already updated, nothing is written remotely, and the returned error differs from the local store's |
| BftkvStore.WrittenKeyNamesEpoch | impl/monitor/storage/bftkvst/bftkvst.go:41-47 | every remote key used is 8 bytes long and decodes to the epoch being stored |
| BftkvStore.ReadsMatchLocalStore | impl/monitor/storage/bftkvst/bftkvst.go:52-58 | whatever the remote does, `Get` and `LatestEpoch` through the wrapper equal those of a plain in-memory store given the same calls |
| Monitor.Process | core/monitor/monitor.go:71-104 | signs iff verification reported no error; it fails with a signing error exactly when signing a verified response failed, and then never stores; otherwise `Set` is always called, with the epoch, `seen`, the full response, the error list and a root iff no error; a store error is returned unchanged; a verified, signed response ends `Done` iff the store accepts it; it panics on a nil root exactly when verification failed and the store accepted |
| Monitor.FailedVerificationDereferencesNil | core/monitor/monitor.go:75-89 | when verification fails and the store accepts the result, `Process` dereferences a nil root |
| Monitor.ResponseStoredOnSuccess | core/monitor/monitor.go:76-84 | a fully verified response is stored together with the response, against the documented shape of `MonitoringResult` |
| Monitor.CrossCheckIsAdvisory | core/monitor/monitor.go:89-103 | the witness's answer never changes the outcome of `Process` |
| Monitor.ProcessCorrected | core/monitor/monitor.go:71-104 | never panics; fails with a signing error exactly when signing a verified response failed, and then never stores; otherwise `Set` is always called, with a root iff no error and the response iff some error; `Done` iff the store accepted |

## Left out

- Metrics: the Prometheus counters and histograms are process-wide plumbing with float observations.
- `StartSigning`: its goroutine, ticker, channel and context timeouts are concurrency and wall-clock behaviour. Only the decision rule and its start-up step are modelled. The fallback that forces an epoch when the first head read fails is part of this loop and is not modelled.
- `queueLogLeaf`: JSON marshalling, SHA-256 and the `QueueLeaf` RPC are one opaque collaborator that succeeds or fails.
- `writeToBFTKV` and `readFromBFTKV`: these are HTTP I/O. The model sees only the hash the witness returns, with an empty hash meaning unavailable. Both functions panic on a nil HTTP response. Their keys are built with `string(int64)`, which gives a one-rune string, not a decimal number. Neither behaviour is modelled.
- The foreign collaborators: Trillian RPC clients, `entry.FromLeafValue`, `mutator.Mutate`, `verifyMutationsResponse`, `signMapRoot`, the remote key/value client and the opening of that client. All are uninterpreted parameters.
- `Monitor.New`: hasher construction is foreign code.
- `response.String()`: the text serialisation stored remotely is an opaque `rendered` byte string.
- The transaction `Rollback` outcome: it is only logged, so the model records the call but not its result.
- Go's pointer identity: a monitoring result is returned by value, not as a shared pointer.
- Resolver.ApplyMutations: the output is a map from canonical key to leaf, not a list in Go map-iteration order, because that order is unspecified. The nil error result is constant, so it is not part of the type. The `err != nil` check after it in `CreateEpoch` is therefore dead and not modelled.
- EpochTiming.GapNeverExceedsMax: proved only for timestamps and durations in [0, 2^61], where no `int64` arithmetic overflows. Outside that range, see `SaturatedGapSuppressesForce`.
- EpochTiming.ForcedOnceDue: proved only when the initial `last`, the tick time and minElapsed lie in [0, 2^61], so that no `int64` arithmetic overflows.
- MemoryStore.ImplementsStorageInterface: the interface promise is checked only up to which package's error value is returned. The in-memory store returns its own `ErrAlreadyStored` and `ErrNotFound`, not the core package's; see `LocalErrorsAreNotCoreErrors`.
- BftkvStore.ImplementsStorageInterface: the interface promise is checked only up to which package's error value is returned. A duplicate yields the local or the core value depending on where it is found; see `DuplicateErrorDependsOnWhereFound`.
- Sequencer.HighWaterMarkMonotonic: holds only when the queue reports a max sequence no smaller than the requested start. The queue is not part of this model, so this is a hypothesis.

## Findings

| source | as written | input that shows it | evidently intended | confidence | as-written member | corrected member |
|---|---|---|---|---|---|---|
| core/monitor/monitor.go:89 | after a successful `store.Set`, `smr.MapId` is read even when verification failed and `smr` is nil | any response whose verification reports at least one error, with a store that accepts it | skip the witness cross-check when no root was signed | high, not executed | Monitor.FailedVerificationDereferencesNil | Monitor.ProcessCorrected |
| core/monitor/monitor.go:84 | `resp` is passed to `store.Set` on both outcomes | a response that verifies and is signed: the stored record holds a root and the response | store the response only when some verification failed, as the `MonitoringResult` field comment says | medium, not executed | Monitor.ResponseStoredOnSuccess | Monitor.ProcessCorrected |
