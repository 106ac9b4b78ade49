# Earthstar storage, transfer scheduling and replica registry in Dafny

This project models four state-holding components of Earthstar and proves properties of each model.

- **`StorageMemory`** (`memory.dfy`, module `MemoryStorage`) is the original synchronous document store.
  - It keeps at most one document per author at each path.
  - The winner of a path is the newest document: the later timestamp wins, and the greater signature breaks ties.
  - The winner is chosen when the path is read, not when a document is written.
  - Documents are accepted through a validator per format. `set` bumps the timestamp above the current winner.
  - `sync` pulls another store's documents through ingestion.
- **`StorageDriverAsyncMemory`** (`async_memory.dfy`, module `AsyncMemoryDriver`) is the newer driver.
  - It keeps every document in two indexes that agree: one under the key `path|author`, and one per path, kept newest first.
  - Each stored copy is stamped with the next local index, starting from 0.
  - Queries sort, skip past a cursor, filter and cut to a limit.
  - Closing cannot be undone. A closed driver refuses document reads and writes; its configuration table stays reachable.
  - Configuration is a small key/value table.
- **`TransferManager`** (`transfer_manager.dfy`, module `TransferManagement`) is the syncer's scheduler for attachment transfers.
  - It admits at most `activeLimit` transfers at once.
  - A new transfer takes a free slot directly; otherwise it joins the tail of a first-in, first-out wait queue.
  - The queue's head is admitted only by a completion that finds room, so a later arrival can take a freed slot ahead of the queue (`OvertakingScenario`).
  - It resolves a one-shot signal once it is sealed and no internally requested transfer remains.
  - It keeps a status table per share and per hash.
- **`Peer`** (`peer.dfy`, module `Peers`) is the registry of replicas, one per share address.

The shared modules hold the shared pieces:

- `common.dfy` (`Common`): option and result types, and the error kinds.
- `strings.dfy` (`Strings`): JavaScript's string order, sorted key lists, decimal rendering, and `JSON.stringify` of a string.
- `arrays.dfy` (`Arrays`): the stable sort `Array.prototype.sort` performs, modelled as insertion sort, together with `filter` and `slice`.
- `jsmaps.dfy` (`JsMaps`): an insertion-ordered map, the way a JavaScript `Map` iterates.

Faithfulness notes:

- **Array comparison in `ingestDocument`.** Comparing a document with the author's stored one (`src/storage/memory.ts:209-211`) uses JavaScript arrays. These are compared as the strings `"timestamp,signature"`, and the model does the same (`NotNewerAsWritten`). When both timestamps have the same number of decimal digits, this is the (timestamp, signature) order (`NotNewerSameWidth`). Across widths it is not (`NewerDocAcrossWidthsRejected`).
- **The async driver's comparators** compare `a.signature` with itself. They are modelled as written: a signature never breaks a timestamp tie, and equal-timestamp documents keep their insertion order.
- **The first local index.** The interface comment at `src/replica/replica-types.ts:329` says the first document gets index 1. The code gives it 0, and the model follows the code.
- **`barredHashes`.** Nothing in the transfer manager ever adds a hash to it. It only shrinks, so it stays empty from construction. The model keeps that exactly.
- **A completion that admits nothing.** On success, `admit()` runs while the completed transfer still counts as active. So a completion with a full active set admits nothing (`FullCompletionScenario`). A description of the scheduler as "each completion admits the next" is not what the code does, and the model follows the code. Since `addTransfer` activates a new transfer whenever there is room and never calls `admit`, a transfer that arrives after such a completion is activated ahead of the queued ones, and with `activeLimit` 1 a queued transfer may never start (`OvertakingScenario`).

## Model

| member | source | states |
|---|---|---|
| MemoryStorage.HistoryCompareMeaning | src/storage/memory.ts:22-39 | The history comparator is -1 exactly when `a` has the greater timestamp, or the same timestamp and the greater signature. It is 0 exactly when both timestamp and signature are equal, and it is antisymmetric. |
| MemoryStorage.HistoryCompareIsTotalPreorder | src/storage/memory.ts:22-39 | The history comparator is a total preorder: reflexive, total and transitive. |
| MemoryStorage.SortedHistory | src/storage/memory.ts:125-129 | A path's documents sorted by the history comparator are a permutation of them, newest first. |
| MemoryStorage.Winner | src/storage/memory.ts:161-163 | The first document after sorting is one of the path's documents and is at least as new as every other, by (timestamp, signature). |
| MemoryStorage.GetDocument | src/storage/memory.ts:156-164 | Nothing for a path not stored; otherwise a document stored at that path that is maximal by (timestamp, signature). |
| MemoryStorage.GetValue | src/storage/memory.ts:165-168 | Nothing exactly when the path is not stored; otherwise the value of the path's winner, the document `getDocument` returns. |
| MemoryStorage.RangeFilter | src/storage/memory.ts:99-102 | With both bounds, it keeps exactly the keys in `[lowPath, highPath)`, in order. Otherwise the keys are unchanged. |
| MemoryStorage.PrefixFilter | src/storage/memory.ts:103-105 | With a prefix, it keeps exactly the keys starting with it, in order. |
| MemoryStorage.Paths | src/storage/memory.ts:82-111 | The result is strictly ascending, and every path in it is stored. |
| MemoryStorage.PathsAreMatchingPaths | src/storage/memory.ts:95-110 | Without `path`, `paths` is the sorted list of filtered stored paths, cut to the limit when the limit is truthy. |
| MemoryStorage.PathsMeaning | src/storage/memory.ts:82-111 | With `path`: `[path]` if stored, else `[]`. Otherwise every result is inside `[lowPath, highPath)` when both bounds are given, and starts with `pathPrefix`. There are at most `limit` results for a positive limit, and every matching path when the limit is missing or 0. |
| MemoryStorage.GatherWinners | src/storage/memory.ts:123-136 | Without history, the result holds one document per selected path, that path's winner, in ascending path order. |
| MemoryStorage.GatherHistoryMembers | src/storage/memory.ts:123-136 | With history, the result holds exactly the documents stored at the selected paths. |
| MemoryStorage.GatherHistoryOrder | src/storage/memory.ts:123-136 | With history, the documents come grouped by path, in ascending path order. |
| MemoryStorage.GatherHistoryWithinPath | src/storage/memory.ts:123-136 | With history, no document appears twice, and within one path every document is at least as new as those after it. |
| MemoryStorage.DocumentsMeaning | src/storage/memory.ts:112-138 | Without `includeHistory`, the result is exactly one document per path of `paths(query)`, its winner, in ascending path order. With it, the result holds each stored document of those paths exactly once, grouped by path in ascending order, newest first within a path. |
| MemoryStorage.HistoryAuthors | src/storage/memory.ts:146-154 | The authors of `documents({includeHistory: true})` are exactly the authors of the stored documents. |
| MemoryStorage.AuthorDoc | src/storage/memory.ts:205 | `existingDocsByKey[doc.author]`: present exactly when the author has a document at the path, and then it is that document. |
| MemoryStorage.Put | src/storage/memory.ts:218 | After `existingDocsByKey[author] = doc`, the lookup gives `doc` for its author and the old document for every other author. The only new element is `doc`. |
| MemoryStorage.PutKeepsHistory | src/storage/memory.ts:204-219 | Storing a document keeps a path's documents at that path and one per author. |
| MemoryStorage.Ingested | src/storage/memory.ts:218-219 | After acceptance, `_docs[path][author]` is the document and every other (path, author) entry is unchanged. A valid store stays valid: no path is empty, and there is one document per author. |
| MemoryStorage.NotNewerSameWidth | src/storage/memory.ts:209-211 | When both timestamps have the same number of decimal digits, the string comparison of the arrays is the (timestamp, signature) order. |
| MemoryStorage.NewerDocAcrossWidthsRejected | src/storage/memory.ts:209-211 | A same-author document with timestamp 10 is rejected when the stored one has timestamp 9, because the string comparison puts "10,…" before "9,…". |
| MemoryStorage.RequestedTimestamp | src/storage/memory.ts:237-244 | The requested timestamp when it is positive, otherwise the time given as now. |
| MemoryStorage.SetTimestamp | src/storage/memory.ts:252-253 | The new timestamp is above every timestamp stored at the path. It is either the requested one or one more than the current winner's. |
| MemoryStorage.SetMakesWinner | src/storage/memory.ts:252-256 | If `set` stores its signed document, and signing keeps the draft's path and timestamp, that document is the winner at its path. |
| MemoryStorage.IngestAll | src/storage/memory.ts:267-272 | Ingesting a list of documents one by one accepts at most as many documents as the list holds, and keeps the store valid. |
| MemoryStorage.ValidatorMapKeys | src/storage/memory.ts:76-79 | The format table has a key for exactly the formats of the given validators. |
| MemoryStorage.ValidatorMapLast | src/storage/memory.ts:76-79 | Each format's entry is the last validator given with that format. |
| MemoryStorage.StorageMemory.constructor | src/storage/memory.ts:65-80 | With at least one validator, the store starts empty, with the workspace and the format table built from the validators. |
| MemoryStorage.NewStorageMemory | src/storage/memory.ts:65-80 | A workspace address that does not parse throws `invalid workspace address: …`. No validators throws `must provide at least one validator`. Otherwise it returns an empty store. |
| MemoryStorage.StorageMemory.Documents | src/storage/memory.ts:112-138 | The loop's result is the specification function that `DocumentsMeaning` characterises: winners in ascending path order without history; with history, every document of the selected paths once, by path, newest first. |
| MemoryStorage.StorageMemory.GatherPaths | src/storage/memory.ts:123-136 | The loop over the selected paths returns `Gather`: each path's documents sorted newest first, all of them with history, only the first otherwise. |
| MemoryStorage.StorageMemory.Values | src/storage/memory.ts:139-144 | The values of `documents(query)`, one for one, in order. |
| MemoryStorage.StorageMemory.Authors | src/storage/memory.ts:146-154 | Strictly ascending, and exactly the authors with a stored document. |
| MemoryStorage.StorageMemory.IngestDocument | src/storage/memory.ts:170-222 | It returns true exactly when the document has a known format, is valid, is in the store's workspace, and either has an author new to the path or passes the array comparison. On true, the store is the one `Ingested` describes; on false, nothing changes. The invariant is kept. |
| MemoryStorage.StorageMemory.Set | src/storage/memory.ts:224-257 | An unknown format gives false and no change. Otherwise it signs the draft with the bumped timestamp and ingests it, with that timestamp as the cutoff. |
| MemoryStorage.StorageMemory.SyncFrom | src/storage/memory.ts:259-274 | `live` throws `live sync not implemented yet`, and so does nothing. Otherwise, without `existing` the count is 0. With `existing`, the count is the number of the other store's history documents that ingestion accepts, and the store is the result of ingesting them in order. |
| MemoryStorage.StorageMemory.Sync | src/storage/memory.ts:276-304 | Syncing with itself, or with a store of another workspace, gives {0, 0} and changes nothing. An unknown direction gives {0, 0} and changes nothing. A live pull or push throws and changes neither store. Without `existing` the result is {0, 0} with no change. Otherwise a pull ingests the other store's history documents into this store, and then a push ingests this store's (pulled) history documents into the other; each count is the number of documents that ingestion accepted, and a direction not taken leaves its store unchanged with count 0. The pulled count is at most the other store's history-document count, and the pushed count at most this store's. |
| AsyncMemoryDriver.CombineInjective | src/storage/storage-driver-async-memory.ts:42-46 | When neither part contains the separator, the combined key determines both the path and the author. |
| AsyncMemoryDriver.CompareArraysMeaning | src/storage/storage-driver-async-memory.ts:51-55 | Two rows compare equal exactly when every column compares equal. Otherwise the result is that of the first column where they differ, with DESC reversing that column. |
| AsyncMemoryDriver.PathComparatorsMeaning | src/storage/storage-driver-async-memory.ts:48-66 | As written (the third column compares `a.signature` with itself), the comparators order by path ascending or descending, then newest first. Two documents with the same path and timestamp compare equal, whatever their signatures. |
| AsyncMemoryDriver.SignatureNeverBreaksTies | src/storage/storage-driver-async-memory.ts:48-66 | Changing the signature of either document never changes how the path comparators compare the two. |
| AsyncMemoryDriver.PathAscIsTotalPreorder | src/storage/storage-driver-async-memory.ts:48-56 | The ascending comparator is a total preorder. |
| AsyncMemoryDriver.PathDescIsTotalPreorder | src/storage/storage-driver-async-memory.ts:58-66 | The descending comparator is a total preorder. |
| AsyncMemoryDriver.LocalIndexIsTotalPreorder | src/storage/storage-driver-async-memory.ts:164-167 | Both local-index comparators are total preorders, ordering by the index. |
| JsMaps.MapSet | src/storage/storage-driver-async-memory.ts:240 | `Map.set` changes only that key's entry. An existing key keeps its place in the iteration order, and a new key comes last. |
| JsMaps.MapValues | src/storage/storage-driver-async-memory.ts:128 | The map's values, one per key, in iteration order. |
| AsyncMemoryDriver.ConsistentIndexesAgree | src/storage/storage-driver-async-memory.ts:78-79 | The two indexes agree: a document is in path `p`'s array exactly when it has path `p` and is the document stored under its key. |
| AsyncMemoryDriver.AllDocsMeaning | src/storage/storage-driver-async-memory.ts:125-129 | `_getAllDocs` lists every stored document exactly once. |
| AsyncMemoryDriver.HeadIsNewest | src/storage/storage-driver-async-memory.ts:134-136 | The first document of a path's array is at least as new as every other document at that path. |
| AsyncMemoryDriver.LatestDocsMeaning | src/storage/storage-driver-async-memory.ts:130-139 | The latest documents are stored documents, one per stored path. Each is at least as new as every document stored at its path. |
| AsyncMemoryDriver.NewestFirstWithInserts | src/storage/storage-driver-async-memory.ts:243-249 | Because the old array is sorted, sorting after the push is an insertion into it. |
| AsyncMemoryDriver.NewestFirstWithShape | src/storage/storage-driver-async-memory.ts:243-249 | The new document lands after every remaining document at its path that is as new as it, and before every older one. The others keep their order. |
| AsyncMemoryDriver.NewArrayValid | src/storage/storage-driver-async-memory.ts:243-251 | The array `upsert` builds is newest first, with one document per author. It holds the new document and, besides it, exactly the other authors' earlier documents. |
| AsyncMemoryDriver.UpsertKeepsConsistent | src/storage/storage-driver-async-memory.ts:240-251 | `upsert` keeps the two indexes consistent. |
| AsyncMemoryDriver.UpsertReplaces | src/storage/storage-driver-async-memory.ts:224-253 | After `upsert`, its copy is the document under its key, even where the author's earlier document was newer. The path's array holds the copy and the other authors' documents, and nothing else: the author's earlier document is gone. |
| AsyncMemoryDriver.UpsertKeepsValid | src/storage/storage-driver-async-memory.ts:231-233 | `upsert` keeps the driver's invariant: the two indexes stay consistent, the new copy is stamped `_maxLocalIndex + 1`, and every stored document carries a local index between 0 and the new `_maxLocalIndex`. |
| AsyncMemoryDriver.LimitCount | src/storage/storage-driver-async-memory.ts:207-211 | The loop stops at `limit` documents for a limit of at least 1. A smaller limit still lets one document through, because the check follows the push. |
| AsyncMemoryDriver.SelectedPrefix | src/storage/storage-driver-async-memory.ts:174-212 | The results are a prefix of the wanted documents: at most the limit's count of them, and all of them without a limit. |
| AsyncMemoryDriver.SelectedInOrder | src/storage/storage-driver-async-memory.ts:174-212 | Every result is wanted, and the results are a subsequence of the sorted documents. |
| AsyncMemoryDriver.SelectedMeaning | src/storage/storage-driver-async-memory.ts:160-212 | Every result is past the cursor and matches the filter. The results are a subsequence of the sorted documents and stay sorted. There are at most `limit` of them for a limit of at least 1. |
| AsyncMemoryDriver.CursorMeaning | src/storage/storage-driver-async-memory.ts:176-199 | Past the cursor means: path greater for `path ASC`, path smaller for `path DESC`, and the same for the local index, a missing index read as 0. |
| AsyncMemoryDriver.StorageDriverAsyncMemory.constructor | src/storage/storage-driver-async-memory.ts:69-85 | It starts open and empty, with `_maxLocalIndex` -1 and no configuration. |
| AsyncMemoryDriver.StorageDriverAsyncMemory.IsClosed | src/storage/storage-driver-async-memory.ts:90-92 | Whether the driver is closed. |
| AsyncMemoryDriver.StorageDriverAsyncMemory.Close | src/storage/storage-driver-async-memory.ts:93-96 | Closed afterwards. No method reopens the driver. |
| AsyncMemoryDriver.StorageDriverAsyncMemory.GetConfig | src/storage/storage-driver-async-memory.ts:101-103 | The value stored for the key, if any. After `setConfig(k, v)` it is `v`. |
| AsyncMemoryDriver.StorageDriverAsyncMemory.SetConfig | src/storage/storage-driver-async-memory.ts:104-106 | The table with `key` set to `value`. |
| AsyncMemoryDriver.StorageDriverAsyncMemory.ListConfigKeys | src/storage/storage-driver-async-memory.ts:107-109 | Strictly ascending, and exactly the table's keys. |
| AsyncMemoryDriver.StorageDriverAsyncMemory.DeleteConfig | src/storage/storage-driver-async-memory.ts:110-114 | Whether the key was there. Only that key is removed. |
| AsyncMemoryDriver.StorageDriverAsyncMemory.GetMaxLocalIndex | src/storage/storage-driver-async-memory.ts:119-123 | A closed driver throws. Otherwise it returns `_maxLocalIndex`, at least -1, and every stored document carries a local index between 0 and it. |
| AsyncMemoryDriver.StorageDriverAsyncMemory.GetAllDocs | src/storage/storage-driver-async-memory.ts:125-129 | A closed driver throws. Otherwise it returns the stored documents in the order the `path|author` keys were first stored. |
| AsyncMemoryDriver.StorageDriverAsyncMemory.GetLatestDocs | src/storage/storage-driver-async-memory.ts:130-139 | A closed driver throws. Otherwise it returns the head of each path's array, in the order the paths were first stored (see `LatestDocsMeaning`). |
| AsyncMemoryDriver.StorageDriverAsyncMemory.QueryWithState | src/storage/storage-driver-async-memory.ts:141-216 | A closed driver throws. `willMatch` `nothing` gives no documents. An unknown `orderBy` throws a ValidationError. Otherwise the documents are those `SelectedMeaning` describes, drawn from every document for history mode `all` and from the newest of each path otherwise. The returned `maxLocalIndex` is the driver's. |
| AsyncMemoryDriver.StorageDriverAsyncMemory.QueryDocs | src/storage/storage-driver-async-memory.ts:217-219 | The documents of `queryWithState`, with the same errors. |
| AsyncMemoryDriver.StorageDriverAsyncMemory.Upsert | src/storage/storage-driver-async-memory.ts:224-254 | A closed driver throws and nothing changes. Otherwise `_maxLocalIndex` grows by exactly 1, the returned copy carries it, both indexes are as `UpsertReplaces` states, and the invariant is kept. |
| TransferManagement.AttachmentTransfer.Abort | src/syncer/transfer_manager.ts:135-137 | The transfer is asked to stop, recorded as a request flag; its status and progress are left as they were (see Left out: `abort` is not part of this model). |
| TransferManagement.ReportsWith | src/syncer/transfer_manager.ts:140-157 | After `reports[share] ??= {}; reports[share][hash] = row`, the row is at (share, hash) and every other (share, hash) entry is unchanged. Each share still lists each hash once. |
| TransferManagement.ShareReports | src/syncer/transfer_manager.ts:159-169 | No reports for a share never reported. Otherwise one report per hash of the share, in first-report order, each the table's row for that hash. |
| TransferManagement.ShareReportsExact | src/syncer/transfer_manager.ts:159-169 | A report is in a share's list exactly when it is that share's row for some hash. |
| TransferManagement.UpdatedShareReports | src/syncer/transfer_manager.ts:140-169 | A status update leaves every other share's list as it was. In the updated share, a known hash keeps its place with the new row, and a new hash comes last. |
| TransferManagement.TransferManager.constructor | src/syncer/transfer_manager.ts:8-27 | It starts with nothing waiting, active, failed or completed; unsealed, with no barred hashes and no reports; and the signal unresolved. |
| TransferManagement.TransferManager.Activate | src/syncer/transfer_manager.ts:29-32 | The transfer joins the active set. Nothing else changes. |
| TransferManagement.TransferManager.Queue | src/syncer/transfer_manager.ts:50-52 | The transfer is appended to the tail of the waiting queue. Nothing else changes. |
| TransferManagement.TransferManager.Admit | src/syncer/transfer_manager.ts:54-68 | With nothing waiting or a full active set, nothing changes. Otherwise the head of the queue, and only it, leaves the queue and becomes active. The active bound is kept. |
| TransferManagement.TransferManager.CheckInternallyMadeTransfersFinished | src/syncer/transfer_manager.ts:70-102 | The signal is resolved afterwards exactly when it already was, or when the manager is sealed and no internal transfer is waiting or active. Nothing else changes. |
| TransferManagement.TransferManager.AddTransfer | src/syncer/transfer_manager.ts:104-124 | Once sealed, an internal transfer throws the EarthstarError and nothing changes. A barred hash is dropped with no change. Otherwise the transfer becomes active when the active set has room, else it joins the tail of the queue. The active bound is kept. |
| TransferManagement.TransferManager.OnDone | src/syncer/transfer_manager.ts:34-46 | The transfer is recorded as completed. `admit` runs while the transfer still counts as active, then the transfer leaves the active set and the signal is re-checked. A full active set therefore admits nothing. |
| TransferManagement.TransferManager.OnFail | src/syncer/transfer_manager.ts:38-46 | The transfer is recorded as failed and its hash is no longer barred. Nothing is admitted. The transfer leaves the active set and the signal is re-checked. |
| TransferManagement.TransferManager.CloseToInternalTransfers | src/syncer/transfer_manager.ts:126-130 | The manager is sealed, and the signal is resolved if it was, or if no internal transfer remains. |
| TransferManagement.TransferManager.Cancel | src/syncer/transfer_manager.ts:132-138 | The manager is sealed, and every active transfer is asked to abort (its request flag is set). The queues, sets and signal are unchanged. |
| TransferManagement.TransferManager.UpdateTransferStatus | src/syncer/transfer_manager.ts:140-157 | Only `reports[share][hash]` changes, to the transfer's current fields. |
| TransferManagement.TransferManager.GetReports | src/syncer/transfer_manager.ts:159-169 | The loop's result is the share's reports as `ShareReports` states. |
| TransferManagement.TransferManager.HasTransferWithHash | src/syncer/transfer_manager.ts:171-173 | True exactly when the hash is barred. |
| TransferManagement.AdmissionScenario | src/syncer/transfer_manager.ts:104-124 | With a limit of two, five transfers added in turn leave the first two active and the other three waiting, in arrival order. |
| TransferManagement.FullCompletionScenario | src/syncer/transfer_manager.ts:34-68 | With a limit of one, the second transfer stays queued after the first completes. |
| TransferManagement.OvertakingScenario | src/syncer/transfer_manager.ts:34-124 | With a limit of one: after the first transfer completes, a third transfer added later is activated at once and completes, while the second is still waiting and nothing is active. |
| TransferManagement.NothingBarredScenario | src/syncer/transfer_manager.ts:38-173 | `hasTransferWithHash` is false for a hash before its transfer is added, while it is active, and after it fails: no operation adds a hash to `barredHashes`. |
| TransferManagement.RetryScenario | src/syncer/transfer_manager.ts:38-42 | After a failure, a new transfer with the same hash is taken in. |
| TransferManagement.SealScenario | src/syncer/transfer_manager.ts:70-130 | Once the manager is sealed and the last internal transfer is done, the signal resolves. A later internal transfer is refused. |
| Strings.JsonString | src/peer/peer.ts:58-62 | `JSON.stringify` of a string is quoted and at least two characters longer. A string with no quote, backslash or control character comes back unchanged between the quotes. |
| Peers.Peer.constructor | src/peer/peer.ts:22-26 | A new peer holds no replicas. |
| Peers.Peer.HasShare | src/peer/peer.ts:31-33 | True exactly when a replica is held for the share. |
| Peers.Peer.Shares | src/peer/peer.ts:34-38 | The held shares, strictly ascending and therefore without duplicates, as many as `size()`. |
| Peers.Peer.Replicas | src/peer/peer.ts:39-43 | The held replicas, in ascending share order: the i-th is the replica held for the i-th share. |
| Peers.Peer.Size | src/peer/peer.ts:44-46 | The number of shares held. |
| Peers.Peer.GetReplica | src/peer/peer.ts:47-49 | The replica held for the share, or nothing when none is held. |
| Peers.Peer.AddReplica | src/peer/peer.ts:54-67 | A share already held throws the duplicate-share error and leaves the map unchanged. Otherwise the replica is held under its share, `hasShare` holds, `getReplica` returns it, `size()` grows by one, and no other share changes. |
| Peers.Peer.RemoveReplicaByShare | src/peer/peer.ts:68-72 | The share's entry is deleted and nothing else; when it is absent, nothing changes. |
| Peers.Peer.RemoveReplica | src/peer/peer.ts:73-87 | The entry is deleted only when the replica held for the share is this very instance. Otherwise the map is unchanged. |
| Peers.SameShareScenario | src/peer/peer.ts:54-87 | A second replica of a held share is refused. Removing that second replica leaves the first held. |

## Left out

- `Date.now()` (`src/storage/memory.ts:244`) is the `now` parameter of `Set`.
- Validators and signing are functions in a `Validator` value: `documentIsValid(doc, cutoff)` and `signDocument(keypair, doc)`. The cryptography is not modelled. Parsing the workspace address is the `parseError` parameter of `NewStorageMemory`.
- Object identity: `otherStore === this` in `sync` is reference equality on the class. When `Sync` is called with another store, each `_syncFrom` reads the other store's documents as they are at that point.
- Event plumbing has no observable state here and is left out: the `onChange` emitter of `StorageMemory`, the replica event bus of `Peer`, and the driver's `Lock` (unused by the methods modelled).
- Promises and awaits are not modelled. The async driver's and the peer's methods are sequential steps.
- `fulfilledInternalTransfers` is a deferred promise; it is modelled as a boolean that turns true when it is resolved. Callers waiting on it are not modelled.
- `activate` is modelled up to `transfer.start()`. The transfer's own byte I/O, its `start`, and the `onProgress` subscription are not modelled. The `isDone` outcome arrives as `OnDone` or `OnFail`, each run as one step from the `then`/`catch` callback through `finally`. Other events that slip in between those callbacks are not modelled.
- Iteration order over JavaScript sets in `checkInternallyMadeTransfersFinished` and `cancel` is not modelled. Neither result depends on it.
- `getReports` lists a share's hashes in first-report order. JavaScript lists integer-like object keys first, in numeric order; hashes are not integer-like, and that ordering is not modelled. Object keys that clash with prototype members are not modelled either.
- Strings are sequences of Unicode code points. JavaScript compares UTF-16 code units, which differs only between astral characters and U+E000–U+FFFF.
- `cleanUpQuery` and `docMatchesFilter` are not part of this model. `QueryWithState` takes what `cleanUpQuery` returns, and the filter is a predicate on documents. `compareArrays` (`src/storage/compare.ts`) and `sortedInPlace` are not part of this model either. They are modelled as column-by-column comparison and as sorting, the way their use reads.
- `compareByObjKey` is modelled on documents that all carry a local index. The driver stores only stamped copies, so how it treats a missing index is not modelled.
- `Object.freeze` and the copy `{...doc}` in `upsert` are not modelled; documents are values.
- AsyncMemoryDriver.StorageDriverAsyncMemory.Upsert: requires that neither the path nor the author contains `|`, as the comment beside `combinePathAndAuthor` assumes. Documents that break this would collide in the key index, and that case is not modelled.
- `Peer.sync` and the rest of the peer's syncing code are transport plumbing and are left out.
- The peer's `Map` keeps insertion order, which the model does not keep: every getter sorts the keys, so the order is never observed.
- Logging is left out.
- Timestamps are JavaScript numbers (float64). The model uses non-negative integers in `MemoryStorage` and integers in the driver. NaN, fractions, negative timestamps and integers beyond 2^53 are not modelled; for those, `String(timestamp)` in the array comparison and `existingDocTimestamp + 1` in `set` may differ from the model.
- DeleteConfig, GetConfig, Paths, IngestDocument and Set: JavaScript objects used as tables inherit prototype members. A key such as `toString` or `constructor` is present in `_config` (`deleteConfig("toString")` gives true, `getConfig("toString")` gives a function), in `_docs` (`{path: "constructor"}`), and in the format table (`format: "constructor"` ends in a TypeError). The model treats such keys as absent.
- Set: `docToSet.timestamp ||= 0` writes back into the caller's object; the draft is a value here, so that write-back is not modelled.
- Abort: `AttachmentTransfer.abort()` is defined outside the modelled sources. It is modelled only as a request flag, and that it leaves status and progress as they were is an assumption; `Cancel` relies on it.
- Sync and SyncFrom: the source accepts any `IStorage` as the other store; the model accepts only a `StorageMemory`.
