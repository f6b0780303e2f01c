# SurfStore in Dafny

SurfStore is a block-level file synchroniser. A file is cut into blocks, each block
is named by the SHA-256 fingerprint of its bytes, and a metadata store keeps, per file
name, a version number and the file's list of block fingerprints. This project models
the four core components, each as a Dafny module, and proves what each promises.

- **SurfTypes** (`common.dfy`) holds the shared vocabulary:
  - bytes and blocks;
  - the per-file record `FileInfo(version, hashlist)`;
  - Java's 32-bit `int`, whose `x + 1` wraps from the largest int to the smallest (`Inc32`);
  - the order-preserving filter used by `hasblocks` and by the missing-block probe.
- **Chunking** (`chunking.dfy`) cuts a file into blocks of at most `blockSize` bytes, as both
  clients' read loops do, and writes blocks back to back.
- **BlockServer** (`server.dfy`) is the Java server, a class with two fields:
  - the content-addressed `blockStore` (fingerprint to block);
  - the `metaStore` (file name to record), guarded by the version check of `updatefile`.
- **IndexFile** (`indexfile.dfy`) is the Java client's `index.txt`:
  - it is read with `String.split` and `Integer.parseInt` semantics and written line by line;
  - reading back what was written gives the same index.
- **SyncClient** (`syncclient.dfy`) is one run of the Java client:
  - it reads the local index and describes the directory's files as proposals (new,
    modified, unchanged or deleted, each with its version rule);
  - it downloads what the server has newer, uploads what the directory has newer, carries
    the remaining proposals into the new index, and writes the index file.

  The base directory is a map from file name to contents. The server is the
  `BlockServer.Server` object, called directly.
- **MetaStore** (`metastore.dfy`) is the Python metadata store, a class
  with three fields: `versionMap`, `blockListMap` and `lastApplied`.
  - `modify_file` checks the version, probes every block's shard and raises a typed
    `ErrorResponse` for a wrong version or missing blocks.
  - `delete_file` writes a tombstone (the new version with an empty list).
  - `read_file` defaults to `(0, [])`.
  - `findServer` picks a shard as `int(h, 16) % B`, with Python's floor modulo.
  - Python exceptions are values of the `PyError` datatype.
- **PyClient** (`pyclient.dfy`) is the Python client:
  - 4096-byte chunking;
  - the proposed version (the version read plus one);
  - storing the missing blocks and retrying, on upload;
  - download assembly, which reuses a local block whose fingerprint matches and fetches
    the others from their shard.

  The block stores are oracles: `present(s, h)` is store `s`'s `has_block(h)` and
  `fetch(s, h)` its `get_block(h)`. The `store_block` calls a client makes are returned
  as a list.

Every class method is proved against a pure function of the old state. Lemmas then state
that function's properties: the accept and reject rules, round trips, what is never lost
and what is never touched.

Some modelling choices:
- **Hashing.** The SHA-256 fingerprint is a function-valued parameter `hash`.
- **Hash-table order.** The orders in which Java `Hashtable`s and the directory listing are
  walked are unspecified. Methods return them as ghost sequences that list every key once,
  and results are stated for any such order.
- **Version check.** The Java code accepts any version of at least `current + 1`, where
  `current + 1` is a 32-bit addition, and not only `current + 1`. The model follows the
  code:
  - `UpdateNewer` shows that gaps are accepted.
  - `UpdateAtWrap` shows that once the stored version is the largest int, every version
    is accepted, lower ones included.
- **Version 1 in the Python store.** `modify_file` with version 1 skips the version check,
  so it can set a stored version back to 1 (`ModifyVersionOneResets`).

## Model

| member | source | states |
|---|---|---|
| SurfTypes.HashesOf | client.py:60-65 | one fingerprint per block, in order: entry i is the hash of block i |
| SurfTypes.FirstIndex | client.py:82 | `hashlist.index(h)`: a position holding h with no earlier position holding it |
| SurfTypes.KeepPresentShape | Java/src/Server.java:59-69 | the filter is never longer than its input; it keeps all of it iff every element passes; it holds exactly the input's elements that pass |
| Chunking.Chunks | Java/src/Client.java:204-223 | no blocks exactly when the block size is not positive or the file is empty |
| Chunking.ChunksConcat | Java/src/Client.java:204-223 | with a positive block size, the blocks written back to back give the file back |
| Chunking.ChunksAt | Java/src/Client.java:208-217 | block i starts at byte i * blockSize and holds min(blockSize, bytes left) |
| Chunking.BlocksBounded | Java/src/Client.java:208-217 | every block is non-empty and at most blockSize bytes |
| Chunking.ChunksCount | Java/src/Client.java:204-223 | an empty file has no blocks; otherwise the count k satisfies (k-1)*blockSize < n <= k*blockSize |
| Chunking.ChunksCountDiv | Java/src/Client.java:204-223 | the block count is ceil(n / blockSize) |
| Chunking.SplitFile | Java/src/Client.java:204-223 | splitFile's loop, with its buffer sizing, read counts and the negative-size exception, yields exactly `Chunks(data, blockSize)` |
| Chunking.WriteBlocks | Java/src/Client.java:358-360 | the bytes written are the blocks back to back |
| IndexFile.ParseIntToString | Java/src/Client.java:142-143 | every Java int written in decimal is read back by parseInt as the same int, and contains no ',' or newline |
| IndexFile.ZeroFieldIsEmpty | Java/src/Client.java:55-60 | a third field of `0` reads as an empty hash list |
| IndexFile.CollectHashes | Java/src/Client.java:57-60 | the loop keeps every token that is not "0", in order |
| IndexFile.GetIndexMetadata | Java/src/Client.java:46-71 | the read loop builds `ParseIndex(text)`: later lines win, and the first malformed line ends the reading |
| IndexFile.FormatLine | Java/src/Client.java:141-151 | the built line, after its trailing space is cut, is `name,version,` then the hashes joined by single spaces, or `0` for none |
| IndexFile.WriteIndex | Java/src/Client.java:137-158 | the text is one '\n'-terminated line per entry, in the table's iteration order |
| IndexFile.HashFieldRoundTrip | Java/src/Client.java:144-151 | a hash list whose hashes fit the format is read back from its field as written |
| IndexFile.LineRoundTrip | Java/src/Client.java:52-64 | a written line is parsed back to the name and record it was written from |
| IndexFile.ParseSerialize | Java/src/Client.java:137-158 | reading back the written index gives the same map, in any iteration order, when names have no ',' or newline and hashes are non-empty, not "0" and have no space, ',' or newline |
| BlockServer.AfterPut | Java/src/Server.java:47-52 | a put adds exactly the key hash(b) and keeps the store content-addressed |
| BlockServer.PutIdempotent | Java/src/Server.java:47-52 | two puts of the same bytes leave the store as one does; the block is then found under its fingerprint |
| BlockServer.PutKeepsOthers | Java/src/Server.java:47-52 | a put never adds, removes or replaces any other fingerprint's block |
| BlockServer.UpdateStep | Java/src/Server.java:91-116 | accepted iff the name is unknown, the version is above the stored one, or the stored one is the largest int; a refusal changes nothing and an acceptance stores (version, hashlist) |
| BlockServer.UpdateUnknown | Java/src/Server.java:93-102 | an unknown name is always accepted and stored as given |
| BlockServer.UpdateStale | Java/src/Server.java:106-109 | a version not above the stored one is refused, with the map unchanged, below the wrap point |
| BlockServer.UpdateNewer | Java/src/Server.java:106-115 | any version above the stored one is accepted, not only the next one |
| BlockServer.UpdateAtWrap | Java/src/Server.java:106 | at the largest stored int, `current + 1` wraps and every version is accepted, lower ones included |
| BlockServer.UpdateTouchesOnlyItsFile | Java/src/Server.java:100-114 | no other name is added, removed or changed |
| BlockServer.ReplayNeverLowers | Java/src/Server.java:91-116 | over any sequence of calls, a stored file stays stored and its version never decreases, while no call proposes the largest int for it |
| BlockServer.Server.constructor | Java/src/Server.java:17-20 | both stores start empty |
| BlockServer.Server.GetBlock | Java/src/Server.java:36-40 | the stored block, or null exactly when none is stored; a returned block hashes to the requested fingerprint |
| BlockServer.Server.PutBlock | Java/src/Server.java:47-52 | answers true, files the block under its hash, keeps the block store content-addressed and leaves the metadata alone |
| BlockServer.Server.HasBlocks | Java/src/Server.java:59-69 | the requested fingerprints that are stored, in request order, duplicates kept |
| BlockServer.Server.GetFileInfoMap | Java/src/Server.java:75-82 | a map with exactly the metadata store's entries |
| BlockServer.Server.UpdateFile | Java/src/Server.java:91-116 | answer and new metadata map are `UpdateStep`'s; the block store is unchanged |
| MetaStore.ErrorType | metastore.py:14-31 | error_type is 0 to 3: 1 for missing blocks, 2 for a wrong version, 3 for not found |
| MetaStore.ParseHex | metastore.py:75 | `int(s, 16)` of a non-empty all-hex string is its value; of an empty string, ValueError |
| MetaStore.FloorMod | metastore.py:75 | Python's `%`: in [0, n) for a positive divisor, in (n, 0] for a negative one, and with the floor quotient `a // n` it rebuilds `a`; together these fix the remainder |
| MetaStore.FindServer | metastore.py:74-75 | a shard iff the hash is hex and B is not 0; ValueError, else ZeroDivisionError; the shard is `int(h, 16) % B` in Python's sense: it lies in [0, B) when B > 0, in (B, 0] when B < 0, and differs from `int(h, 16)` by `(int(h, 16) // B) * B` |
| MetaStore.VersionCheck | metastore.py:88-95 | passes iff the version is 1, or the name is stored and the version is its stored version plus one |
| MetaStore.ProbeSucceeds | metastore.py:104-109 | the probe loop succeeds iff every hash has a shard |
| MetaStore.ProbeFilters | metastore.py:104-109 | a successful probe lists exactly the hashes missing from their shard, in hash-list order, duplicates kept |
| MetaStore.ProbeIsFilter | metastore.py:104-109 | both of the above |
| MetaStore.ProbeRaises | metastore.py:104-105 | the probe raises only ValueError or ZeroDivisionError |
| MetaStore.ProbeNothingMissing | metastore.py:104-116 | with every hash on its shard, the probe finds nothing missing |
| MetaStore.ModifyProbeFails | metastore.py:104-105 | after the version check, a probe error is modify_file's error and the state is unchanged |
| MetaStore.ModifyProbeSucceeds | metastore.py:112-122 | after the version check, missing blocks raise a missing-blocks error; none missing records the file |
| MetaStore.Modify | metastore.py:86-123 | every error leaves the state as it was; success happens iff the version check passes and no block is missing; both maps keep the same names |
| MetaStore.ModifyUnknownFile | metastore.py:88-89 | a version other than 1 for an unknown name raises KeyError, state unchanged |
| MetaStore.ModifyWrongVersion | metastore.py:88-95 | a version other than 1 and other than stored + 1 raises a wrong-version error carrying the stored version, state unchanged |
| MetaStore.ModifyMissingBlocks | metastore.py:104-116 | with any block missing, the error lists exactly the missing hashes in hash-list order, state unchanged |
| MetaStore.ModifyThenRead | metastore.py:119-122 | after success, read_file gives (version, hashlist), lastApplied grows by exactly 1, and other files read as before |
| MetaStore.ModifyVersionOneResets | metastore.py:88-122 | version 1 skips the check and can lower a stored version |
| MetaStore.Delete | metastore.py:132-148 | succeeds iff the name is stored and the version is the stored one plus one; errors leave the state as it was |
| MetaStore.DeleteThenRead | metastore.py:147-148 | a successful delete reads back as (version, []), keeps lastApplied and touches no other file |
| MetaStore.DeleteErrors | metastore.py:134-144 | file-not-found for an unknown name; wrong-version carrying the stored version otherwise |
| MetaStore.ProbeShards | metastore.py:96-109 | the probe loop computes `Probe`; its `state` flag is set iff some block is missing |
| MetaStore.MetadataStore.constructor | metastore.py:70-72 | empty maps, lastApplied = -1 |
| MetaStore.MetadataStore.ModifyFile | metastore.py:86-123 | new state and raised exception are `Modify`'s |
| MetaStore.MetadataStore.DeleteFile | metastore.py:132-148 | new state and raised exception are `Delete`'s |
| MetaStore.MetadataStore.ReadFile | metastore.py:160-168 | the stored record, or (0, []) for an unknown name |
| PyClient.ReadBlocks | client.py:53-65 | the read loop yields the 4096-byte chunks and their fingerprints, one per block |
| PyClient.ReadBlocksShape | client.py:53-65 | blocks are non-empty, at most 4096 bytes, ceil(n/4096) of them, and concatenate to the file |
| PyClient.StoreMissing | client.py:77-82 | the store loop makes at most one call per missing hash |
| PyClient.StoreMissingCalls | client.py:77-82 | call i stores missing hash i at its shard with the first local block with that hash; a finished loop makes one call per hash |
| PyClient.StoreCoversMissing | client.py:77-82 | after a finished loop every missing hash has been sent to its shard |
| PyClient.StoreMissingSucceeds | client.py:77-82 | the loop finishes when every missing hash has a shard and is one of the file's hashes |
| PyClient.ProposedVersionPasses | client.py:70-75 | the proposed version, read version + 1, always passes the store's version check |
| PyClient.UploadRecords | client.py:46-85 | a successful upload records (read version + 1, hashlist) and one more applied change; a failed one leaves the store unchanged |
| PyClient.UploadFirstError | client.py:74-78 | the only ErrorResponse the first modify_file can raise is missing blocks, listing the file's missing hashes in order |
| PyClient.UploadStoresFirstLocalBlock | client.py:77-82 | every stored block is the first local block with a missing hash, and it hashes to that hash |
| PyClient.NothingMissingAfter | client.py:79-83 | once every missing block has been sent to its shard, none is missing |
| PyClient.RetrySucceeds | client.py:83 | after storing every missing block, the second modify_file succeeds |
| PyClient.UploadCompletes | client.py:69-83 | when client and store agree on B (not 0) and every fingerprint is hex, upload always succeeds |
| PyClient.AssembleSucceeds | client.py:137-143 | assembly fails iff some non-local hash has no shard |
| PyClient.AssembleShape | client.py:137-143 | one block per remote hash, in order: the first local block with that hash, or the fetched one |
| PyClient.AssembleMatchesHashes | client.py:137-143 | when each remote hash fetched from a block store comes back as a block with that hash, every assembled block hashes to its entry of the remote hash list |
| PyClient.DownloadEmptyWritesNothing | client.py:131-133 | an unknown or deleted file is never written |
| PyClient.DownloadAllLocal | client.py:137-139 | when every remote hash is local, download needs no block store and raises nothing |
| PyClient.SurfStoreClient.constructor | client.py:19-40 | keeps B and the hash function |
| PyClient.SurfStoreClient.Upload | client.py:46-85 | no file: nothing happens; otherwise new store state, escaping exception and store calls are `UploadOutcome`'s, the store stays consistent |
| PyClient.SurfStoreClient.Delete | client.py:89-97 | delete_file is called with the read version plus one |
| PyClient.SurfStoreClient.Download | client.py:103-149 | exception and bytes written are `DownloadOutcome`'s |
| SyncClient.FilesOf | Java/src/Client.java:181-198 | every directory file except index.txt, cut into blocks with their fingerprints |
| SyncClient.Derive | Java/src/Client.java:77-113 | the proposal names exactly the directory's files and the local index's names |
| SyncClient.WithTombstones | Java/src/Client.java:97-110 | filesData gains exactly the deleted files' names |
| SyncClient.DeriveVersions | Java/src/Client.java:83-105 | the proposal's list is the current one; new file version 1; a known file keeps its version iff its list is unchanged, else gets the next 32-bit version |
| SyncClient.DeriveStable | Java/src/Client.java:77-113 | a directory that matches its local index proposes the local index unchanged |
| SyncClient.NeverBoth | Java/src/Client.java:370-392 | a file is not both downloaded and uploaded, unless the server holds it at a version below 1 and the local index lacks it |
| SyncClient.HasBlocksDecides | Java/src/Client.java:305-307 | hasblocks returns as many hashes as asked iff every one is stored |
| SyncClient.Fetched | Java/src/Client.java:309-314 | one getblock result per hash, in order |
| SyncClient.FetchedMatches | Java/src/Client.java:305-319 | from a content-addressed store, the fetched blocks hash back to the list |
| SyncClient.DownloadAllAt | Java/src/Client.java:382-392 | after downloadSync, a fetched file is written from the server's blocks (deleted for an empty list) and recorded; any other name is untouched |
| SyncClient.DownloadAllKeeps | Java/src/Client.java:316-319 | downloadSync never drops a filesData name |
| SyncClient.PutAll | Java/src/Client.java:279-283 | every block's hash is added, nothing is removed, nothing else is added, content addressing is kept |
| SyncClient.UploadAllGrows | Java/src/Client.java:370-377 | uploadSync never removes a block and keeps the block store content-addressed |
| SyncClient.UploadAllAt | Java/src/Client.java:370-377 | a file needing upload, with the server still at the fetched entry, is accepted, recorded in the server and the new index, and all its blocks are put; other names keep their entries |
| SyncClient.WithIndexFile | Java/src/Client.java:29-39 | the index file exists afterwards; no other file changes |
| SyncClient.PassesOutcome | Java/src/Client.java:382-404 | after the three passes: every proposal is in the new index; no block is lost; uploads are accepted with their blocks stored; downloads not re-uploaded hold the server's blocks and entry; other files are untouched |
| SyncClient.IndexFileRoundTrip | Java/src/Client.java:137-158 | the written index file, read back through ISO-8859-1, gives the same index |
| SyncClient.DiffHashlist | Java/src/Client.java:253-259 | true iff the lists differ; hence false on equal lists and symmetric |
| SyncClient.HashBlocks | Java/src/Client.java:188-191 | one fingerprint per block, in order |
| SyncClient.Client.constructor | Java/src/Client.java:406-420 | keeps the server, block size and directory; all maps start empty |
| SyncClient.Client.GetOrCreateIndexFile | Java/src/Client.java:29-39 | adds an empty index file when there is none |
| SyncClient.Client.GetFilesData | Java/src/Client.java:181-198 | returns `FilesOf` the directory |
| SyncClient.Client.GetFilesMetadata | Java/src/Client.java:77-113 | returns `Derive` and adds the tombstone entries to filesData |
| SyncClient.Client.ConstructFile | Java/src/Client.java:340-365 | deletes the file for an empty server list; otherwise writes its blocks back to back |
| SyncClient.Client.DownloadFile | Java/src/Client.java:299-334 | nothing unless hasblocks found every block; then filesData, the file and newIndex take the server's entry |
| SyncClient.Client.DownloadSync | Java/src/Client.java:382-392 | acts on a remote file iff it is absent locally or the local version is lower |
| SyncClient.Client.UploadFile | Java/src/Client.java:266-291 | the new state is `UploadStep` of the old: blocks put and newIndex updated only when updatefile accepts (see the two lemmas below); server stays content-addressed |
| SyncClient.UploadStepRefused | Java/src/Client.java:274-276 | when updatefile refuses, no block is put and the server and newIndex are unchanged |
| SyncClient.UploadStepAccepted | Java/src/Client.java:274-286 | when updatefile accepts, the server stores the proposal, newIndex takes it, and every block of the file is on the block store |
| SyncClient.Client.UploadSync | Java/src/Client.java:370-377 | attempts an upload iff the file is absent remotely or the remote version is lower |
| SyncClient.Client.IndexSync | Java/src/Client.java:397-404 | existing newIndex entries are never overwritten; every proposal is added |
| SyncClient.Client.WriteIndexFile | Java/src/Client.java:137-158 | the index file holds the new index, serialised in the table's order |
| SyncClient.Client.Prepare | Java/src/Client.java:422-445 | index file ensured, local index parsed from it, proposals derived, remote index fetched, new index empty |
| SyncClient.Client.Synchronize | Java/src/Client.java:447-469 | server, filesData, new index and directory are those of `Passes`, and the index file holds the new index |
| SyncClient.Client.Run | Java/src/Client.java:406-476 | main's sequence: the run's final state is `Passes` of the prepared state, with the new index written |

## Left out

- Transport: XML-RPC (`XmlRpcClient`, `WebServer`), rpyc (`rpyc.connect`, `ThreadedServer`) and exception marshalling are not modelled. Remote calls are direct method calls on the server objects, or the oracles `present` and `fetch`. The `catch` blocks around RPC failures are not modelled.
- SHA-256 and its hex rendering, including Java's pad to 32 (not 64) characters (Java/src/Client.java:230-245, Java/src/Server.java:151-166), are a foreign library call. They are the parameter `hash`.
- File I/O is not modelled: directory listing, streams, file creation and deletion. A directory is a map from name to bytes, and reads are full reads (a read returns min(requested, left) bytes).
- The `(int) file.length()` truncation of files over 2 GiB in splitFile is not modelled.
- Java's platform default charset is not modelled: the index file's text is read and written as ISO-8859-1.
- `readLine` splitting on '\r' is not modelled; lines end at '\n' only. The round trip `ParseSerialize` therefore asks that names and hashes contain no '\r', so that it holds of the Java reader too.
- `Integer.parseInt` with non-ASCII digits is not modelled, and neither are Python `int(h, 16)` extras: a `0x` prefix, underscores and surrounding whitespace. Fingerprints are plain hex digests.
- The metadata store's `Lock` and all concurrency are not modelled. The lock is never released when `modify_file` raises on the lookup at metastore.py:89 or in the probe loop at metastore.py:105-107.
- Console output is not modelled: `printIndex`, `System.out`/`System.err`, `print`, `eprint`.
- `main` and configuration parsing are reduced: `Client.main`'s sequence is `SyncClient.Client.Run`. Argument and config-file parsing, and `__main__` blocks, are not modelled. The final `getRemoteIndex` of `Client.main` is only printed.
- The leader/crash/restore stubs and `Server.main` (Java/src/Server.java:122-184) are not modelled. They return constants or start the transport.
- `str(h)` in `modify_file` is the identity on fingerprints, which are strings here.
- MetaStore.FindServer: does not model the `IndexError` (or negative indexing) of `hostNum[servernum]` when a shard number has no configured host. Every shard number is an available block store.
- PyClient.SurfStoreClient.Download: does not model the path handling at client.py:106-108. That code appends '/' to the location unless `location[:-1]` is '/', which happens only for a two-character location that starts with '/' (for "/d" the path is "/d" + filename). The model takes the file name and the local file's contents directly, so which bytes are written does not depend on it.
- PyClient.SurfStoreClient.Upload: takes the file name and contents directly in place of `os.path.split` of a path. A missing file prints "Not Found" and returns.
- BlockServer.ReplayNeverLowers: holds only while no call proposes the largest int for the file. At that point Java's `current + 1` wraps, and `UpdateAtWrap` shows every version is accepted after it.
- SyncClient.PassesOutcome: says nothing about a file that one run both downloads and uploads. `NeverBoth` shows this happens only when the server holds the file at a version below 1 and the local index does not list it.
- SyncClient.UploadAllAt: is stated for a server whose entry for the file is still the one the client fetched, as in a single client's run. Concurrent writers between `getfileinfomap` and `updatefile` are not modelled.
