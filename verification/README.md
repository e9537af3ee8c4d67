# Verified core of a Cosmos SDK node

This project models the parts of a Cosmos SDK fork that carry its correctness claims, and proves
those claims for all inputs, all runs and all reachable states.

* **Transactions and blocks.** `TxExecution`, `TxProperties`, `Abci`, `BaseAppObject` and `Gas` model
  `runTx` in its four modes (deliver, check, recheck, simulate), its ante and message branches, the
  recovery of panics, the block gas charged by a deferred function, and the ABCI life cycle with
  commits and restarts. Decoder, ante handler and message handlers are arbitrary functions that may
  return, fail or panic, and may use or replace the block gas meter of their context; begin and end
  blocker and init chainer are arbitrary functions that may panic. The state machine of `Abci` is what
  the methods of the object `BaseApp` are proved to refine, with block gas meters as objects that the
  check and the deliver state share. `TxWitnesses` has concrete applications on which claims fail.
* **Branching stores.** `OrderedDb`, `CacheKv`, `BranchStack` and `CacheStoreObject` model the write
  buffer that every transaction branch is: its merge and memory iterators, its two-stage (unsorted,
  sorted) buffer and its binary searches. A branch is a branch of the bottom store or of another
  branch object, to any depth; `BranchStack` is the same as values.
* **State-sync snapshots.** `Chunks`, `SnapshotKeys`, `SnapshotStoreObject`, `SnapshotManager` and
  `SnapshotTransfer` model the chunking writer and reader, the ordered store of snapshots, and the manager's protocol of
  one operation at a time. The restoring goroutine is the environment.
* **Money.** `Decimal`, `IntArith`, `Powers`, `DecString`, `Coins`, `CoinOps`, `CoinLaws` and
  `DecCoins` model 18-digit decimals on unbounded integers with the source's bit bounds written out,
  repeated squaring, printing, parsing and the sortable encoding, and coin sets as sorted lists.
* **Codecs and indexes.** `Varint`, `AnyCodec`, `AnyFields` and `UnknownProto` model the protobuf wire
  format of `Any` and the checker of unknown fields; `PermittedFields` says what that checker should
  accept and `GroupFields` exactly when it does (the sections "Base 128 Varints" and
  "Length-Delimited Records" of the Protocol Buffers encoding specification give the format).
  `BitArray` and `BitArrayObject` model the compact bit array, `Keyring` the name and address index,
  `StoreKeys` the prefix check of store names, `Retention` the block retention height.

Go strings and byte slices are both `seq<byte>`, ordered by `Bytes.Less`. A panic or an error is an
`Option`, an `Outcome` or a `Result`. Where the source updates something in place the model does too:
a class with the source's fields, an array that is filled, or a loop with its indices; each such
method is proved against a function on values, and the properties are proved of that function.

## Where the code falls short of its documentation

The model follows the code. In these places the obvious claim is false, and the members named say
where it fails or exactly when it holds.

* Iterating a branch from a non-empty start to no end misses buffered writes, because a nil end
  becomes the empty string and then lies before the start. A branch of a branch also misses the
  unsorted writes of the branches below it (`CacheStore.Iterate`, `OpenEndedIterationMissesWrite`,
  `BranchOfBranchMissesWrite`).
* `ChunkReader` drops bytes that arrive together with the end of file (`NothingLostIff`,
  `LostByteWitness`).
* The key range of the snapshot store leaves out the greatest possible key (`RangeIsVisible`).
* Pruning snapshots removes them and then reports a failure when a pruned height has no directory or
  leftovers in it (`SnapshotStore.Prune`, `PruneWitness`).
* `QuoRoundUp` is not always the ceiling (`QuoRoundUpExactIff`, `QuoRoundUpCounterexample`).
* `SortableDecBytes` reverses the order among negative decimals (`SortableNumericOrderIff`,
  `SortableWitness`).
* `NewDecFromStr` strips one minus sign and then lets the integer parser accept another sign
  (`DocumentedIff`, `SecondSignAccepted`, `SecondSignWitness`).
* The checker of unknown fields takes the tag of the first field in a known group for a length prefix.
  It accepts groups with unknown critical fields and refuses groups with known fields only
  (`CheckerRightIff`, `UnknownInGroupAccepted`, `KnownInGroupRefused`).
* `Coins.IsEqual` panics on some unequal sets (`IsEqualMeaning`, `IsEqualWitness`).
* `NumTrueBitsBefore` runs off the array for an index at or past the end of a whole number of bytes
  (`NumTrueBitsBefore`, `CountRunsOff`).
* The JSON form of an empty bit array cannot be read back (`JsonRoundTrip`, `JsonCrashWitness`).
* `GetBlockRetentionHeight` takes a needed height of exactly 0 for no bound, and one that wraps in 64
  bits for a positive bound (`RetentionSafeIff`, `RetentionCounterexample`,
  `RetentionKeepAllCounterexample`, `RetentionSnapshotCounterexample`).
* An infinite block gas meter that overflows restarts from 0 (`BlockGasConserved`,
  `InfiniteMeterForgets`, `InfiniteMeterWitness`).
* The check state is shown the block gas meter of the block being delivered, so check handlers that
  use it change what the block commits (`MempoolNonInterference`, `MempoolStepIff`,
  `MempoolInterference`).

## Model

| member | source | states |
|---|---|---|
| `TxExecution.RecoveryAlwaysErrs` | cosmos/baseapp/recovery.go:23-77 | every panic becomes an error for every list of custom handlers: out of gas always the out-of-gas error, else the answer of the first handler that takes it, else the default |
| `TxExecution.RecoverySkipsDecliners` | cosmos/baseapp/recovery.go:23-45 | handlers that decline a panic do not change how it is handled |
| `TxProperties.TxStoreOutcome` | cosmos/baseapp/baseapp.go:591-707 | for every mode, application and failure point the mode's store ends unchanged, with exactly the ante writes, or (delivered without error) with ante and all message writes; simulation changes nothing and check modes never show message writes |
| `TxProperties.ResultXorError` | cosmos/baseapp/baseapp.go:591-707 | a result is returned exactly when there is no error, which is exactly when the transaction passed the gate and its body returned |
| `TxProperties.HandleAllConcat` | cosmos/baseapp/baseapp.go:714-785 | running a concatenation of message lists is running the first and, if it succeeded, the second from where it stopped |
| `TxProperties.BlockGasChargedOnce` | cosmos/baseapp/baseapp.go:600-633 | past the gate a delivered transaction charges the block meter of its context exactly once however it ends, on top of what the handlers did to it; all others leave it as their handlers do; message writes appear only if the charge kept the total within the limit |
| `TxProperties.BlockGasConserved` | cosmos/baseapp/baseapp.go:600-633 | over a block whose handlers leave the meter alone a limited meter ends at the sum of all charges, saturating, and the successful transactions together stay within the limit; an infinite meter ends at the sum exactly when the sum fits 64 bits |
| `TxProperties.InfiniteMeterForgets` | cosmos/baseapp/baseapp.go:616-633 | a charge that overflows an infinite block meter fails its transaction and empties the meter |
| `TxProperties.QuietBody` | cosmos/baseapp/baseapp.go:635-707 | if no handler uses or replaces the block gas meter, nothing but the one charge moves it |
| `TxWitnesses.InfiniteMeterWitness` | cosmos/baseapp/baseapp.go:616-633 | an application and a full infinite meter for which a charge of 5 leaves 0 |
| `TxProperties.ExhaustedBlockIsInert` | cosmos/baseapp/baseapp.go:600-603 | once the block meter is out of gas every further transaction fails with out of gas and changes nothing |
| `Abci.MempoolNonInterference` | cosmos/baseapp/abci.go:185-256 | with check and simulate calls interleaved anywhere, if their handlers leave the shared block gas meter alone, the same calls are accepted and the same committed store, version and deliver state are reached |
| `Abci.MempoolStepIff` | cosmos/baseapp/abci.go:228-256 | a mempool call leaves the chain alone exactly if what it runs leaves the shared block gas meter alone |
| `Abci.ReachableLinked` | cosmos/baseapp/abci.go:185-191 | in every state a run can reach the check state exists and, while there is a deliver state with a block gas meter, shares that meter |
| `TxWitnesses.MempoolInterference` | cosmos/baseapp/abci.go:185-191 | an application whose checks use the block gas meter, for which one checked transaction changes what the block commits |
| `Abci.CommittedOnlyByCommit` | cosmos/baseapp/abci.go:298-346 | a run without a commit leaves committed store and version as they were |
| `Abci.CrashRecoversLastCommit` | cosmos/baseapp/baseapp.go:313-337 | a crash at any point after a commit brings the node back to that commit |
| `Abci.CheckStateFollowsCommit` | cosmos/baseapp/abci.go:298-318 | right after a commit the check state is a branch of what was committed, and block calls do not move its store, meter and height |
| `Abci.CheckUntouched` | cosmos/baseapp/abci.go:144-289 | block calls alone never change store, meter and height of the check state |
| `Abci.RunDeliveries` | cosmos/baseapp/abci.go:263-289 | a run of deliver calls is the fold of the delivered transactions over the deliver state, and moves in the check state only the shared block gas meter |
| `Abci.RunBlock` | cosmos/baseapp/abci.go:144-318 | one block of calls is accepted exactly at the expected height and if its parts succeed, and then commits exactly the meaning of the block |
| `Abci.ChainOfBlocks` | cosmos/baseapp/abci.go:144-318 | an accepted chain of blocks commits the fold of its blocks, at consecutive heights |
| `Abci.CommittedIsFoldOfBlocks` | cosmos/baseapp/abci.go:144-318 | the same with mempool calls interleaved anywhere |
| `Abci.FoldWithRestarts` | cosmos/baseapp/abci.go:144-318 | with crashes anywhere the committed store is the fold of exactly the blocks whose commit was reached, at consecutive heights |
| `Abci.CommittedIsFoldOfReachedBlocks` | cosmos/baseapp/abci.go:144-318 | the same with mempool calls interleaved anywhere |
| `Abci.GenesisChain` | cosmos/baseapp/abci.go:28-104 | from genesis, with crashes and mempool calls anywhere, the first block runs on the stored parameters and what the init chainer wrote, at the initial height; nothing of it is committed before the first commit, and the committed store is the fold of the blocks whose commit was reached |
| `Abci.RunConcat` | cosmos/baseapp/abci.go:144-318 | runs compose |
| `BaseAppObject.ExecuteMsgs` | cosmos/baseapp/baseapp.go:714-785 | the message loop computes store, meter and outcome of handling all messages in order |
| `BaseAppObject.ValidateBasicTxMsgs` | cosmos/baseapp/baseapp.go:521-534 | rejects an empty list, else gives the verdict of the first message that fails or panics |
| `BaseAppObject.BaseApp.constructor` | cosmos/baseapp/baseapp.go:313-337 | a loaded node is the initial state of the state machine |
| `BaseAppObject.BaseApp.TxBodyInMode` | cosmos/baseapp/baseapp.go:635-707 | the body of `runTx` from decoding to the messages, with its early exits, is the body of the specification |
| `BaseAppObject.BaseApp.Settle` | cosmos/baseapp/baseapp.go:605-633 | after every kind of ending the block meter of the context is charged once if delivering, an overflow of it turns success into a recovered error, and the message branch is written exactly on what is left of success |
| `BaseAppObject.BaseApp.RunTxInMode` | cosmos/baseapp/baseapp.go:591-707 | `runTx` with gate, flag and deferred functions returns what the specification says and updates only the state of its mode |
| `BaseAppObject.BaseApp.InitChainCall` | cosmos/baseapp/abci.go:28-104 | is the InitChain step of the state machine, parameters included, and panics exactly where that step does |
| `BaseAppObject.BaseApp.ValidateHeight` | cosmos/baseapp/baseapp.go:493-518 | accepts exactly the expected height and none below 1 |
| `BaseAppObject.BaseApp.BeginBlockCall` | cosmos/baseapp/abci.go:144-200 | is the BeginBlock step with one meter for check and deliver state, and panics exactly where that step does |
| `BaseAppObject.BaseApp.CheckTxCall` | cosmos/baseapp/abci.go:228-256 | is the CheckTx step, with a result exactly when there is no error |
| `BaseAppObject.BaseApp.DeliverTxCall` | cosmos/baseapp/abci.go:263-289 | is the DeliverTx step, with a result exactly when there is no error |
| `BaseAppObject.BaseApp.EndBlockCall` | cosmos/baseapp/abci.go:203-220 | is the EndBlock step, and panics exactly where that step does |
| `BaseAppObject.BaseApp.CommitCall` | cosmos/baseapp/abci.go:298-346 | is the Commit step: deliver writes become committed, the version moves, check restarts |
| `Retention.RetentionIsLeastBound` | cosmos/baseapp/abci.go:685-749 | the height is 0 when pruning is off or no state is persisted, else the least non-zero bound, or 0 if that is negative |
| `Retention.RetentionSafeIff` | cosmos/baseapp/abci.go:691-749 | pruning below the height keeps all blocks an active constraint needs, reckoned on unbounded integers, exactly when nothing is pruned or every needed height is positive |
| `Retention.RetentionCounterexample` | cosmos/baseapp/abci.go:691-741 | a needed height of 0 is taken for no bound, and blocks that evidence needs are given up |
| `Retention.RetentionKeepAllCounterexample` | cosmos/baseapp/abci.go:740-741 | told to keep every block the node gives up all of them, up to one above the committed height |
| `Retention.RetentionSnapshotCounterexample` | cosmos/baseapp/abci.go:736-737 | the snapshots need all blocks, and 99 are given up |
| `CacheKv.MergeOverlays` | cosmos/store/cachekv/mergeiterator.go:62-251 | the merge of two ordered listings is ordered and gives each key the buffer's answer, or the parent's where the buffer has none |
| `CacheKv.MergeIterator.SkipCacheDeletes` | cosmos/store/cachekv/mergeiterator.go:194-200 | drops exactly deletions before the bound without changing the remaining iteration |
| `CacheKv.MergeIterator.SkipUntilExistsOrInvalid` | cosmos/store/cachekv/mergeiterator.go:205-251 | moves to an item that exists without changing the remaining iteration, and reports whether there is one |
| `CacheKv.MergeIterator.Valid` | cosmos/store/cachekv/mergeiterator.go:57-59 | true exactly when the remaining merge is not empty |
| `CacheKv.MergeIterator.Key` | cosmos/store/cachekv/mergeiterator.go:92-120 | the key of the first remaining item, a panic if there is none |
| `CacheKv.MergeIterator.Value` | cosmos/store/cachekv/mergeiterator.go:123-151 | the value of the first remaining item, a panic if there is none |
| `CacheKv.MergeIterator.Next` | cosmos/store/cachekv/mergeiterator.go:62-89 | removes exactly the first remaining item, a panic if there is none |
| `CacheKv.Drain` | cosmos/store/cachekv/mergeiterator.go:57-151 | looping until invalid yields the whole merge |
| `CacheStoreObject.FindStartIndex` | cosmos/store/cachekv/store.go:198-230 | the first index with a key at least the start, or -1 if there is none |
| `CacheStoreObject.FindEndIndex` | cosmos/store/cachekv/store.go:232-269 | everything after the index is at least the end, the index itself is not above it, -1 if all keys are above |
| `CacheStoreObject.KeysInRange` | cosmos/store/cachekv/store.go:279-334 | on the filtering and on the searching path, at least all buffered keys of the range are moved and no others than buffered ones |
| `CacheStoreObject.RangeCovers` | cosmos/store/cachekv/store.go:311-330 | the index range of the two searches covers every key of the domain |
| `CacheStoreObject.CacheStore.constructor` | cosmos/store/cachekv/store.go:40-48 | a new branch of a store or of another branch shows what its parent shows |
| `BranchStack.PutView` | cosmos/store/cachekv/store.go:372-386 | recording a dirty value or deletion keeps the stack consistent and updates the view as it would a map |
| `CacheStoreObject.CacheStore.Get` | cosmos/store/cachekv/store.go:56-71 | at any depth reads the view without changing it, with every level that was asked recording the answer, and panics exactly on an empty key |
| `BranchStack.FillKeepsView` | cosmos/store/cachekv/store.go:56-71 | recording a read at every level keeps the stack consistent and the view as it was |
| `CacheStoreObject.CacheStore.Set` | cosmos/store/cachekv/store.go:74-82 | updates the view at one key and changes nothing below, panics exactly on an empty key or nil value |
| `CacheStoreObject.CacheStore.Delete` | cosmos/store/cachekv/store.go:91-98 | removes one key from the view and changes nothing below, panics exactly on an empty key |
| `CacheStoreObject.CacheStore.Write` | cosmos/store/cachekv/store.go:101-150 | the parent, itself a branch or not, shows exactly what the branch showed, nothing below the parent changes, and the branch starts over on it |
| `CacheStoreObject.CacheStore.Flush` | cosmos/store/cachekv/store.go:101-130 | handing the dirty keys to the own writes and deletions of the parent makes the parent show the view |
| `CacheStoreObject.CacheStore.ClearUnsortedCacheSubset` | cosmos/store/cachekv/store.go:336-366 | exactly the moved keys leave the unsorted ones, cached values and deletions stay, and the level stays consistent |
| `CacheStoreObject.CacheStore.DirtyItems` | cosmos/store/cachekv/store.go:279-334 | afterwards no unsorted key of the level lies in the range, except that nothing happens when the end compares below the start |
| `CacheStoreObject.CacheStore.Iterate` | cosmos/store/cachekv/store.go:180-196 | at any depth panics exactly on an empty bound that is not nil; else it yields the one listing of the view over the range in order, for an open-ended range exactly when no unsorted write in it, at any level, differs from what the sorted buffers of all levels show |
| `CacheStoreObject.CacheStore.ListStack` | cosmos/store/cachekv/store.go:180-196 | the iteration as it runs, over the iteration of the parent, tidies every level, keeps the view, and yields in order what the sorted buffers of all levels then show |
| `BranchStack.ShownIsViewIff` | cosmos/store/cachekv/store.go:279-334 | what the sorted buffers show after tidying is the view over the range exactly if the range is not open-ended or its unsorted writes were in step |
| `BranchStack.ShownIsView` | cosmos/store/cachekv/store.go:180-196 | where no level has an unsorted write the sorted buffers show the view |
| `BranchStack.TidiedView` | cosmos/store/cachekv/store.go:279-334 | tidying keeps the view, does nothing when the end compares below the start, and else leaves no unsorted key in the range at any level |
| `CacheStoreObject.CacheStore.MergedItems` | cosmos/store/cachekv/store.go:180-196 | merging what the levels below show with the sorted buffer gives what the whole stack of sorted buffers shows |
| `CacheStoreObject.OpenEndedIterationMissesWrite` | cosmos/store/cachekv/store.go:279-283 | for every branch a new write inside an open-ended range is missing from, or stale in, the next iteration, and likewise in every branch of that branch, however deep |
| `CacheStoreObject.BranchOfBranchMissesWrite` | cosmos/store/cachekv/store.go:180-196 | a fresh branch of a branch reads an earlier write by its key and does not list it |
| `CacheStoreObject.MarkedAt` | cosmos/store/cachekv/memiterator.go:43-56 | an entry read once from the memory iterator is nil exactly for deleted keys |
| `CacheStoreObject.MemIterator.Value` | cosmos/store/cachekv/memiterator.go:43-56 | nil for a deleted key unless its value was given out last |
| `CacheStoreObject.ValueIsStable` | cosmos/store/cachekv/memiterator.go:43-56 | a value once given out is given out again, whatever is deleted in between |
| `CacheStoreObject.ReadMarked` | cosmos/store/cachekv/memiterator.go:43-56 | reading the memory iterator to its end marks exactly the deleted keys |
| `CacheStoreObject.OneListing` | cosmos/store/cachekv/store.go:180-196 | a listing of a range in order is the only one |
| `Chunks.SplitShape` | cosmos/snapshots/chunk.go:68-100 | the cut has no empty chunk, all chunks but the last have exactly the chunk size, and together they are the stream |
| `Chunks.SplitUnique` | cosmos/snapshots/chunk.go:68-100 | that shape determines the cut |
| `Chunks.ChunkWriter.constructor` | cosmos/snapshots/chunk.go:20-25 | starts with no chunk |
| `Chunks.ChunkWriter.WriteToChunk` | cosmos/snapshots/chunk.go:72-98 | one round takes bytes in order, keeps the cut, makes progress or fails with the reader gone |
| `Chunks.ChunkWriter.Write` | cosmos/snapshots/chunk.go:68-100 | however writes are split the chunks are the reference cut of all bytes taken; the count and the error say exactly what was taken |
| `Chunks.ChunkReader.Read` | cosmos/snapshots/chunk.go:114-156 | without an error the returned bytes and the rest are the former rest; end of file exactly at the end; an error of a chunk or of closing it comes with the last bytes before it |
| `Chunks.ReadAll` | cosmos/snapshots/chunk.go:114-156 | reading to the end gives the bytes delivered before the first error, which are all bytes without an error exactly when every chunk ends in a bare end of file |
| `Chunks.NothingLostIff` | cosmos/snapshots/chunk.go:114-156 | the whole stream comes without an error exactly when no chunk breaks and none hands over bytes together with its end of file |
| `Chunks.LostByteWitness` | cosmos/snapshots/chunk.go:146-154 | a byte that arrives with the end of file is lost without an error |
| `Chunks.WriteThenRead` | cosmos/snapshots/chunk.go:68-156 | any sequence of writes produces the cut of the concatenation, and reading it back returns the concatenation |
| `Chunks.WriteChunks` | cosmos/snapshots/chunk.go:68-100 | however a stream is written its chunks are the reference cut |
| `Chunks.ReadCut` | cosmos/snapshots/chunk.go:114-156 | chunks of a cut read back as the stream, without an error |
| `SnapshotKeys.EncodeKey` | cosmos/snapshots/store.go:335-341 | keys are 13 bytes with the snapshot prefix |
| `SnapshotKeys.BigEndianOrder` | cosmos/snapshots/store.go:335-341 | byte order of equally long big-endian numbers is numeric order |
| `SnapshotKeys.DecodeEncode` | cosmos/snapshots/store.go:322-341 | decoding inverts encoding |
| `SnapshotKeys.KeyOrder` | cosmos/snapshots/store.go:335-341 | byte order of keys is (height, format) order and keys are distinct |
| `SnapshotStoreObject.RangeIsVisible` | cosmos/snapshots/store.go:93-110 | the iteration range contains every key but the greatest possible one |
| `SnapshotStoreObject.SnapshotStore.constructor` | cosmos/snapshots/store.go:35-49 | an empty store |
| `SnapshotStoreObject.SnapshotStore.Save` | cosmos/snapshots/store.go:223-294 | succeeds exactly for a non-zero height that is neither being saved nor stored in this format and whole chunk streams; then adds exactly this metadata and one file per chunk, else leaves the database alone; which directories it makes |
| `SnapshotStoreObject.SnapshotStore.SaveChunks` | cosmos/snapshots/store.go:254-281 | one file and one hash per chunk, the hash of all bytes, other snapshots' files untouched |
| `SnapshotStoreObject.SnapshotStore.Delete` | cosmos/snapshots/store.go:52-68 | refused exactly while the height is being saved, else removes exactly this entry, its files and its format directory |
| `SnapshotStoreObject.SnapshotStore.GetLatest` | cosmos/snapshots/store.go:93-110 | the stored snapshot with the greatest visible (height, format) |
| `SnapshotStoreObject.SnapshotStore.Prune` | cosmos/snapshots/store.go:183-220 | keeps every format of the retained greatest heights, removes all others and counts them; fails exactly if a height to be removed is being saved, has no directory, or has one with anything else in it |
| `SnapshotStoreObject.SnapshotStore.DeleteDoomed` | cosmos/snapshots/store.go:183-208 | the walk deletes exactly the snapshots below the retained heights and collects their heights, and gives up exactly at one that is being saved |
| `SnapshotStoreObject.SnapshotStore.RemoveHeightDirs` | cosmos/snapshots/store.go:209-218 | succeeds exactly if each of the directories exists and is empty |
| `SnapshotStoreObject.CleanupMeaning` | cosmos/snapshots/store.go:209-218 | what is left to remove, in terms of the store before pruning |
| `SnapshotStoreObject.PruneWitness` | cosmos/snapshots/store.go:209-218 | pruning a snapshot saved without chunks removes it and reports a failure |
| `SnapshotStoreObject.SkipDecides` | cosmos/snapshots/store.go:197-210 | comparing the number of skipped heights with the limit decides whether a height is among the greatest ones |
| `SnapshotManager.StepKeepsInv` | cosmos/snapshots/manager.go:97-373 | every step of every caller keeps the protocol invariant |
| `SnapshotManager.AllReachableInv` | cosmos/snapshots/manager.go:97-373 | in every reachable state at most one operation is active, restore fields are set exactly during a restore, chunks were sent in order without gaps, each channel is closed at most once and never used after |
| `SnapshotManager.ReachableInv` | cosmos/snapshots/manager.go:97-373 | the invariant holds after any run from a state that has it |
| `SnapshotManager.RestoreChunkGuards` | cosmos/snapshots/manager.go:325-373 | in reachable states the index is below the hash count and the channel is open, a wrong hash changes nothing, and without a restore the call is refused |
| `SnapshotManager.RestoreIsExact` | cosmos/snapshots/manager.go:325-373 | whatever chunks are offered in whatever order, if none of them collides with a chunk of the snapshot, a completed restore handed over exactly the chunks of the snapshot, each once and in order |
| `SnapshotManager.RestoreCompletes` | cosmos/snapshots/manager.go:325-373 | offering the chunks in order to a healthy restorer completes |
| `SnapshotManager.SnapshotRoundTrip` | cosmos/snapshots/manager.go:238-373 | cut, described by its metadata, restored by any successful sequence of calls and read back, a stream is the original one |
| `SnapshotTransfer.Transfer` | cosmos/snapshots/manager.go:146-373 | one node writes, cuts and saves a stream, another is offered its metadata and its chunk files in any order: when the save succeeds, when the restore starts, that a completed restore reads back the stream, and that in sequence it completes |
| `SnapshotTransfer.OfferChunks` | cosmos/snapshots/manager.go:207-373 | offering chunk files in any order either completes with exactly the chunks of the snapshot, is still under way, or is over; in sequence it completes |
| `SnapshotManager.ManagerObject.constructor` | cosmos/snapshots/manager.go:64-70 | a new manager is the initial state |
| `SnapshotManager.ManagerObject.BeginLocked` | cosmos/snapshots/manager.go:104-113 | is the begin step: refused while another operation runs |
| `SnapshotManager.ManagerObject.EndLocked` | cosmos/snapshots/manager.go:123-132 | is the end step: closes an open restore channel and clears the restore fields |
| `SnapshotManager.ManagerObject.Create` | cosmos/snapshots/manager.go:146-170 | succeeds exactly when idle, above every visible stored height and saveable; then exactly that snapshot and its chunk files are added; the manager is idle again |
| `SnapshotManager.ManagerObject.Prune` | cosmos/snapshots/manager.go:227-234 | refused while another operation runs, else prunes exactly the doomed snapshots of the store with the exact failure condition of the store, and is idle again |
| `SnapshotManager.ManagerObject.RestoreCall` | cosmos/snapshots/manager.go:238-285 | is the restore step |
| `SnapshotManager.ManagerObject.RestoreChunkCall` | cosmos/snapshots/manager.go:325-373 | is the chunk step |
| `Decimal.RoundIsNearestEven` | cosmos/types/decimal.go:508-538 | rounding goes to the nearest multiple with ties to even, for all integers, and is odd |
| `Decimal.NearestEvenUnique` | cosmos/types/decimal.go:508-538 | there is only one such multiple |
| `Decimal.RoundMonotone` | cosmos/types/decimal.go:508-538 | rounding is monotone |
| `Decimal.ChopPrecisionAndRound` | cosmos/types/decimal.go:508-538 | the big integer passed in becomes its rounded value |
| `Decimal.ChopPrecisionAndRoundUp` | cosmos/types/decimal.go:540-560 | the big integer passed in becomes its value rounded up (toward zero when negative) |
| `Decimal.QuoTruncateExact` | cosmos/types/decimal.go:301-313 | is one truncated division of the scaled dividend, for all signs, and panics exactly on a zero divisor or if that quotient is beyond 316 bits |
| `Decimal.QuotientsOrdered` | cosmos/types/decimal.go:286-328 | truncated, rounded and rounded-up quotients are ordered and within one smallest unit, and a smaller one does not panic where a greater one does not |
| `Decimal.QuoError` | cosmos/types/decimal.go:286-298 | for all signs a rounded quotient that does not panic is within 1/2 + 10^-18 units of the true one |
| `Decimal.QuoRoundUpExactIff` | cosmos/types/decimal.go:316-328 | for all signs a rounded-up quotient that does not panic is the ceiling exactly when the signs differ, the remainder is zero, or it is large enough to survive the doubled precision |
| `Decimal.CeilingMeaning` | cosmos/types/decimal.go:316-328 | the ceiling is the one integer that is not below the quotient and less than 1 above it, for all signs |
| `Decimal.QuoRoundUpExactForSmallDivisors` | cosmos/types/decimal.go:316-328 | is the ceiling for every divisor of size up to one, and panics exactly if that is beyond 316 bits |
| `Decimal.QuoRoundUpCounterexample` | cosmos/types/decimal.go:316-328 | a quotient that is not rounded up |
| `IntArith.GuardsAreBounds` | cosmos/types/int.go:234-256 | the bit-length tests of integers and decimals are the bounds 2^256 and 2^316 |
| `IntArith.MulExact` | cosmos/types/int.go:263-275 | with its early test on the operands `Mul` panics exactly when the product is out of range |
| `Powers.Power` | cosmos/types/decimal.go:391-406 | the halving loop computes the specified product or its overflow |
| `Powers.PowerWhole` | cosmos/types/decimal.go:391-406 | on whole numbers it is exact exponentiation and panics exactly if the result is out of range |
| `Powers.RelativePow` | cosmos/types/uint.go:240-272 | the halving loop computes the specified scaled product or its panic |
| `Powers.RelativePowWhole` | cosmos/types/uint.go:240-272 | on multiples of the base it is exact exponentiation with 0^0 = b, and panics exactly if the last rounded product does not fit |
| `DecString.String` | cosmos/types/decimal.go:427-477 | the buffer-filling printer produces the specified string |
| `DecString.StringMeaning` | cosmos/types/decimal.go:427-477 | the string is the whole part without leading zeros, a point and 18 digits |
| `DecString.StringRoundTrip` | cosmos/types/decimal.go:139-190 | parsing inverts printing for every decimal within the bit bound |
| `DecString.SecondSignAccepted` | cosmos/types/decimal.go:139-190 | every string with a sign after the optional minus sign is read as a number although it is not of the documented form |
| `DecString.ParsesSpelled` | cosmos/types/decimal.go:139-190 | an optional minus sign, an optional further sign, digits and up to 18 digits after a point parse to the units they stand for with the signs multiplied, or are out of range |
| `DecString.ParsedIsSpelled` | cosmos/types/decimal.go:139-190 | nothing else parses or is found out of range |
| `DecString.DocumentedIff` | cosmos/types/decimal.go:128-190 | a string that parses is of the documented form exactly if no sign follows the optional leading minus sign |
| `DecString.SecondSignWitness` | cosmos/types/decimal.go:139-190 | "--5" parses to 5 and "+.5" to one half |
| `DecString.Encoded` | cosmos/types/decimal.go:640-658 | the shape of the sortable encoding in each of its four cases |
| `DecString.SortableOrder` | cosmos/types/decimal.go:628-658 | byte order of encodings is the order of ranks, and the encoding is injective |
| `DecString.SortableNumericOrderIff` | cosmos/types/decimal.go:628-658 | numeric order is preserved exactly for pairs that are not both negative and above the least value |
| `DecString.SortableWitness` | cosmos/types/decimal.go:628-658 | -2 units are sorted after -1 unit |
| `Coins.Validate` | cosmos/types/coin.go:209-254 | accepts exactly strictly sorted lists with valid denominations and positive amounts |
| `Coins.AmountOfIsAmount` | cosmos/types/coin.go:620-645 | on sorted lists the binary search reads the amount of the denomination |
| `Coins.CanonicalExtensional` | cosmos/types/coin.go:590-605 | sorted lists without zeros that agree on all amounts are equal |
| `CoinOps.RemoveZeroCoins` | cosmos/types/coin.go:713-734 | computes the list without zero coins |
| `CoinOps.RemoveZeroMeaning` | cosmos/types/coin.go:713-734 | no amount changes, order is kept, no zero is left |
| `CoinOps.CheckSorted` | cosmos/types/coin.go:256-263 | decides sortedness |
| `CoinOps.SafeAddLoop` | cosmos/types/coin.go:293-348 | the two-index loop computes the merge, and panics exactly on an unsorted operand or an overflowing sum |
| `CoinOps.AddMergeLoop` | cosmos/types/dec_coin.go:242-288 | the same loop with the bound as a parameter and no check of the order |
| `CoinOps.AddMeaning` | cosmos/types/coin.go:293-348 | on sorted lists the merge is the pointwise sum without zeros and panics exactly when some sum is out of range |
| `CoinLaws.AddValid` | cosmos/types/coin.go:293-348 | `Add` of valid sets is valid, pointwise, and panics exactly on overflow |
| `CoinLaws.SubMeaning` | cosmos/types/coin.go:388-391 | `SafeSub` of valid sets never panics, is the pointwise difference, and flags a negative amount exactly if there is one |
| `CoinLaws.SubValid` | cosmos/types/coin.go:376-391 | `Sub` panics exactly when `IsAllGTE` fails, else is the valid pointwise difference |
| `CoinLaws.IsAllGTELoop` | cosmos/types/coin.go:506-522 | the loop computes the specified comparison |
| `CoinLaws.IsAllGTEMeaning` | cosmos/types/coin.go:506-522 | on valid sets it decides the pointwise order |
| `CoinLaws.MaxLoop` | cosmos/types/coin.go:407-436 | the loops compute the merge of maxima |
| `CoinLaws.MinLoop` | cosmos/types/coin.go:454-476 | the loop computes the merge of minima |
| `CoinLaws.MaxMinValid` | cosmos/types/coin.go:407-476 | on valid sets both never panic, are valid and pointwise |
| `CoinLaws.LatticeLaws` | cosmos/types/coin.go:393-453 | least upper and greatest lower bound in the order of `IsAllGTE` |
| `CoinLaws.SumIsMinPlusMax` | cosmos/types/coin.go:393-453 | a + b = min + max as sets, with the same panics |
| `CoinLaws.AddThenSub` | cosmos/types/coin.go:293-391 | subtraction undoes addition, and addition is commutative |
| `CoinLaws.IsEqualMeaning` | cosmos/types/coin.go:590-605 | on valid sets true exactly for equal amounts, a panic exactly when sets of one size first differ in a denomination |
| `CoinLaws.IsEqualWitness` | cosmos/types/coin.go:590-605 | one coin against one of another denomination panics |
| `CoinLaws.DenomsSubsetOf` | cosmos/types/coin.go:352-365 | the loop with its shortcut on lengths computes the specified answer or panic, for all lists |
| `CoinLaws.SubsetOfMeaning` | cosmos/types/coin.go:352-365 | on valid sets it decides inclusion of denominations |
| `DecCoins.TruncateCoinExact` | cosmos/types/dec_coin.go:112-116 | one coin splits into quotient and remainder exactly if it is well formed and its whole part fits 256 bits |
| `DecCoins.TruncateDecimal` | cosmos/types/dec_coin.go:212-224 | the loop computes the specified split or panic |
| `DecCoins.TruncateConserves` | cosmos/types/dec_coin.go:212-224 | whole units and change of a valid set add up per denomination, the change is positive and below one unit, both parts are valid, no other pair does this, and it panics exactly if a whole part is too large |
| `DecCoins.IntersectIsMin` | cosmos/types/dec_coin.go:325-335 | the intersection of valid sets is the set that `Coins.Min` builds |
| `Varint.SovIsLength` | cosmos/codec/types/any.pb.go:329-331 | the size computed from the bit length is the number of bytes written |
| `Varint.VarintRoundTrip` | cosmos/codec/types/any.pb.go:212-222 | both decoders invert the encoder on every 64-bit value, whatever follows |
| `Varint.DecodeLoop` | cosmos/codec/types/any.pb.go:341-354 | the shifting loop computes the specified value, length or error |
| `AnyCodec.SizeIsLength` | cosmos/codec/types/any.pb.go:309-327 | the computed size is the length of the encoding |
| `AnyCodec.EncodeVarintAny` | cosmos/codec/types/any.pb.go:212-222 | the varint ends just before the offset and nothing else changes |
| `AnyCodec.WriteLenField` | cosmos/codec/types/any.pb.go:194-207 | tag, length and content end just before the offset and nothing else changes |
| `AnyCodec.MarshalToSizedBuffer` | cosmos/codec/types/any.pb.go:186-210 | the backwards writer leaves the encoding at the end of the buffer, its size is returned, the front is untouched |
| `AnyCodec.AnyRoundTrip` | cosmos/codec/types/any.pb.go:335-451 | decoding inverts encoding exactly for messages whose unrecognized bytes are unknown fields |
| `AnyCodec.UnmarshalFrame` | cosmos/codec/types/any.pb.go:335-451 | unrecognized bytes are only appended to and never affect what else is decoded |
| `AnyCodec.ValueShrinks` | cosmos/codec/types/any.pb.go:335-451 | a decoded value is shorter than its encoding |
| `AnyFields.SkipsField` | cosmos/codec/types/any.pb.go:452-529 | the skipper steps over exactly one field, nested groups included, whatever follows |
| `AnyFields.SkipsFields` | cosmos/codec/types/any.pb.go:452-529 | inside a group it steps over all fields up to the closing tag |
| `AnyFields.FieldsAreUnknownOnly` | cosmos/codec/types/any.pb.go:425-447 | every sequence of well-formed unknown fields is kept as it is |
| `AnyFields.AnyWithUnknownFieldsRoundTrip` | cosmos/codec/types/any.pb.go:335-451 | decoding inverts encoding for every message carrying well-formed unknown fields |
| `AnyFields.SkipVarintLoop` | cosmos/codec/types/any.pb.go:473-483 | the loop finds the end of a varint or the error |
| `AnyFields.SkipBodyAt` | cosmos/codec/types/any.pb.go:472-519 | the wire-type cases compute where the value ends or the error |
| `AnyFields.SkipLoop` | cosmos/codec/types/any.pb.go:452-529 | the loop with its depth counter computes the specified length or error |
| `AnyFields.ReadFieldAt` | cosmos/codec/types/any.pb.go:338-447 | one round of the loop reads the specified field |
| `AnyFields.UnmarshalLoop` | cosmos/codec/types/any.pb.go:335-451 | the loop computes the specified message or error |
| `UnknownProto.RejectUnknownFields` | cosmos/codec/unknownproto/unknown_fields.go:41-163 | the loop with its recursion returns the specified flag and verdict, on shrinking input |
| `UnknownProto.RejectNested` | cosmos/codec/unknownproto/unknown_fields.go:105-159 | the nested part returns the specified flag and verdict |
| `UnknownProto.PrefixPresent` | cosmos/codec/unknownproto/unknown_fields.go:105-125 | where a length prefix is cut off there is a varint to cut, so the cut does not panic |
| `UnknownProto.StrictIsLenientWithoutFlag` | cosmos/codec/unknownproto/unknown_fields.go:30-33 | strict checking accepts exactly what lenient checking accepts without the flag |
| `PermittedFields.AcceptedIffAllFieldsPermitted` | cosmos/codec/unknownproto/unknown_fields.go:41-163 | if every known group the checker goes into is empty, a byte string is accepted exactly when every field at every depth, through groups and `Any`, is known with a permitted wire type or an allowed non-critical field |
| `GroupFields.CheckerRightIff` | cosmos/codec/unknownproto/unknown_fields.go:41-163 | for descriptors with protobuf field numbers, acceptance is permission on all inputs if and only if no descriptor has a group field with a registered type |
| `GroupFields.GroupFails` | cosmos/codec/unknownproto/unknown_fields.go:121-125 | for every descriptor with such a group there is a message whose fields are all permitted and that is refused |
| `GroupFields.UnknownInGroupAccepted` | cosmos/codec/unknownproto/unknown_fields.go:121-125 | a strict check accepts a group that holds an unknown critical field |
| `GroupFields.KnownInGroupRefused` | cosmos/codec/unknownproto/unknown_fields.go:121-125 | a lenient check refuses a group whose one field is known |
| `PermittedFields.GroupContent` | cosmos/codec/unknownproto/unknown_fields.go:92-100 | the content of a group is a list of fields, and the end tag of the group follows it |
| `PermittedFields.ListThenEnd` | cosmos/codec/unknownproto/unknown_fields.go:92-100 | conversely a list of fields and an end tag are read as a group with that content |
| `BitArray.SetRefines` | cosmos/crypto/types/compact_bit_array.go:67-83 | setting a bit is the update of the boolean sequence and leaves the padding alone |
| `BitArray.RunRefines` | cosmos/crypto/types/compact_bit_array.go:67-83 | the same for every run of updates |
| `BitArray.EqualMeaning` | cosmos/crypto/types/compact_bit_array.go:120-129 | with clear padding, equal representations are equal bit sequences |
| `BitArray.ShiftKeepsLeading` | cosmos/crypto/types/compact_bit_array.go:97-98 | shifting a byte leaves exactly its first bits to count |
| `BitArray.NumTrueBitsBefore` | cosmos/crypto/types/compact_bit_array.go:88-102 | the number of true bits before the index, and exactly when it runs off the array |
| `BitArray.CountRunsOff` | cosmos/crypto/types/compact_bit_array.go:88-102 | counting before the end of one whole byte runs off the array |
| `BitArrayObject.CompactRoundTrip` | cosmos/crypto/types/compact_bit_array.go:235-273 | decoding inverts encoding, and only the empty array encodes to the word null |
| `BitArrayObject.UnmarshalSound` | cosmos/crypto/types/compact_bit_array.go:253-273 | whatever decodes is a well-formed array of the announced size made of the bytes after the header |
| `BitArrayObject.TooManyMeaning` | cosmos/crypto/types/compact_bit_array.go:24-34 | with 64-bit overflow, no array is made exactly outside 1 to 8 * (2^31 - 1) bits |
| `BitArrayObject.NewCompactBitArray` | cosmos/crypto/types/compact_bit_array.go:24-39 | nil exactly then, else all bits false with clear padding |
| `BitArrayObject.JsonRoundTrip` | cosmos/crypto/types/compact_bit_array.go:178-231 | the JSON form is read back exactly when the array can be made again, else reading crashes |
| `BitArrayObject.JsonCrashWitness` | cosmos/crypto/types/compact_bit_array.go:202-231 | reading the JSON form of the empty array crashes |
| `BitArrayObject.CompactBitArray.GetIndex` | cosmos/crypto/types/compact_bit_array.go:54-63 | the bit, or false outside the array |
| `BitArrayObject.CompactBitArray.SetIndex` | cosmos/crypto/types/compact_bit_array.go:67-83 | updates exactly one bit in place, reports whether the index was inside |
| `BitArrayObject.CompactBitArray.MarshalJSON` | cosmos/crypto/types/compact_bit_array.go:178-197 | the loop produces the string of the bits |
| `BitArrayObject.CompactBitArray.UnmarshalJSON` | cosmos/crypto/types/compact_bit_array.go:202-231 | takes over the bits read with clear padding, or is left unchanged |
| `BitArrayObject.FillFrom` | cosmos/crypto/types/compact_bit_array.go:222-227 | the loop sets exactly the bits marked in the string |
| `Keyring.StepRefines` | cosmos/crypto/keyring/keyring.go:418-501 | every write, import, creation and deletion does to the backend what it means for a set of records with distinct names and addresses, and reports success alike |
| `Keyring.RunRefines` | cosmos/crypto/keyring/keyring.go:757-805 | the same for every run |
| `Keyring.NamesAndAddressesAgree` | cosmos/crypto/keyring/keyring.go:432-461 | after any run `Key` and `KeyByAddress` find the same records, and deleting removes both entries and nothing else |
| `Keyring.List` | cosmos/crypto/keyring/keyring.go:470-501 | the loop over sorted keys collects the specified records or fails |
| `Keyring.ListsEachKeyOnce` | cosmos/crypto/keyring/keyring.go:470-501 | after any run it returns every stored record exactly once, ordered by key |
| `Keyring.ListIgnoresOrder` | cosmos/crypto/keyring/keyring.go:470-501 | the order in which the backend reports its keys does not matter |
| `Keyring.KeysDistinct` | cosmos/crypto/keyring/keyring.go:852-854 | names and addresses have distinct entries and no entry is both |
| `Keyring.Keystore.WriteInfoCall` | cosmos/crypto/keyring/keyring.go:757-786 | two writes, or none if either entry exists |
| `Keyring.Keystore.ImportInfoCall` | cosmos/crypto/keyring/keyring.go:332-338 | refused if the name is taken, else a write |
| `Keyring.Keystore.NewAccountCall` | cosmos/crypto/keyring/keyring.go:548-556 | refused if the address is taken, else a write |
| `Keyring.Keystore.DeleteCall` | cosmos/crypto/keyring/keyring.go:432-449 | removes the address entry and the name entry of a found key |
| `Keyring.Keystore.DeleteByAddressCall` | cosmos/crypto/keyring/keyring.go:418-430 | deletes the key found under the address |
| `StoreKeys.AssertNoPrefix` | cosmos/types/store.go:89-98 | comparing sorted neighbours panics exactly when two positions of the input hold a key and a prefix of it |
| `StoreKeys.NeighboursSuffice` | cosmos/types/store.go:89-98 | in a sorted list a collision shows between neighbours |
| `StoreKeys.BetweenExtends` | cosmos/types/store.go:89-98 | what lies between a string and an extension of it extends it |

## Left out

- Command line, REST, RPC, server start-up, IAVL trees, routers, telemetry, YAML, amino and most JSON forms: input and output, or thin wrappers.
- Event indexing, header hashes and times, votes, halting and the genesis validator check of InitChain: they do not touch the modelled state.
- The gas that reading the consensus parameters uses on the meter of the deliver state.
- Ante handlers that change other fields of the context than its meters, and contexts whose meters are set to nil.
- SHA-256 is an arbitrary function; the restore theorems assume that no offered byte string has the hash of a chunk without being it.
- Goroutine scheduling, channel blocking, zlib and protobuf streams of snapshots: a chunk is its bytes, and what the restorer reports is an input.
- Chunk counts of 2^32 or more, and snapshot directories changed by anyone else than the store.
- A backend of the keyring that fails between the two writes or the two removals, and the serialization of records, which is a parameter assumed to be lossless.
- Aliasing of big integers outside the two functions that update them in place, and `ApproxRoot`, which has no decided error bound.
- The order of equal elements under sorting: it does not matter on sets without duplicates, and sorted keys are unique.
- Writes to a branch while one of its iterators is open, and to a store while a branch of it is in use: the branch keeps what it has read.
- The tracing and listening wrappers between a branch and its parent.
- Bit arrays whose fields were set from outside to inconsistent values.
- Which of two error values a truncated protobuf message yields: both are `Truncated`.
- The nesting limit of protobuf groups is a parameter, since it belongs to another library.
- AnyRoundTrip: for type URLs and values shorter than 2^63 bytes, as every Go slice is.
- CompactRoundTrip: for arrays whose size rounded up to bytes is a Go `int`; beyond that the decoder's 64-bit arithmetic wraps.
- SnapshotRoundTrip: for non-empty streams and heights from 1 to 2^63 - 1, the snapshots that `Restore` accepts.
- NamesAndAddressesAgree: for a serialization that is lossless and never empty.
