/**
  The Java SurfStore client: one synchronisation run of a base directory
  against the server. It reads the local index file, describes the files now
  in the directory, fetches the server's index, downloads what the server has
  newer, uploads what the directory has newer, and writes the new index file.
  The base directory is a map from file name to contents (the index file
  `index.txt` included); the server is the `BlockServer.Server` object, called
  directly in place of XML-RPC.
 */
module SyncClient {
  import opened SurfTypes
  import opened Chunking
  import opened IndexFile
  import opened BlockServer

  const IndexName: string := "index.txt"

  // ---------------------------------------------------------------------------
  // The index file's bytes, read and written as ISO-8859-1

  predicate Latin1(s: string)
  {
    forall i :: 0 <= i < |s| ==> s[i] as int < 256
  }

  /** One character per byte. */
  function Decode(b: Bytes): (s: string)
    ensures |s| == |b| && Latin1(s)
  {
    seq(|b|, i requires 0 <= i < |b| => (b[i] as int) as char)
  }

  /** One byte per character; a character the charset cannot encode becomes '?'. */
  function Encode(s: string): (b: Bytes)
    ensures |b| == |s|
  {
    seq(|s|, i requires 0 <= i < |s| => if s[i] as int < 256 then (s[i] as int) as Byte else ('?' as int) as Byte)
  }

  /** Text made of ISO-8859-1 characters is read back as written. */
  lemma DecodeEncode(s: string)
    requires Latin1(s)
    ensures Decode(Encode(s)) == s
  {
    var b := Encode(s);
    forall i | 0 <= i < |s|
      ensures Decode(b)[i] == s[i]
    {
      assert b[i] == (s[i] as int) as Byte;
    }
  }

  // ---------------------------------------------------------------------------
  // The files of the base directory

  /** A file's hash list and its blocks (the `filesData` entries). */
  datatype FileData = FileData(hashlist: seq<Fingerprint>, blocks: seq<Bytes>)

  /** A file cut into blocks, with each block's fingerprint. */
  function DataOf(data: Bytes, blockSize: int, hash: Bytes -> Fingerprint): FileData
  {
    var blocks := Chunks(data, blockSize);
    FileData(HashesOf(blocks, hash), blocks)
  }

  /** getFilesData: every file of the directory except the index file, cut into blocks. */
  function FilesOf(dir: map<string, Bytes>, blockSize: int, hash: Bytes -> Fingerprint): (fd: map<string, FileData>)
    ensures fd.Keys == dir.Keys - {IndexName}
  {
    map f | f in dir && f != IndexName :: DataOf(dir[f], blockSize, hash)
  }

  /** The hash list a file has now: its blocks' fingerprints, or none when it is gone. */
  function CurrentList(f: string, filesData: map<string, FileData>): seq<Fingerprint>
  {
    if f in filesData then filesData[f].hashlist else []
  }

  /** The version and hash list getFilesMetadata proposes for one file. */
  function Describe(f: string, localIndex: Index, filesData: map<string, FileData>): FileInfo
    requires f in filesData || f in localIndex
  {
    if f in filesData then
      var hl := filesData[f].hashlist;
      if f !in localIndex then FileInfo(1, hl)
      else if hl != localIndex[f].hashlist then FileInfo(Inc32(localIndex[f].version), hl)
      else FileInfo(localIndex[f].version, hl)
    else
      var v := localIndex[f].version;
      FileInfo(if |localIndex[f].hashlist| > 0 then Inc32(v) else v, [])
  }

  /** getFilesMetadata: a proposal for every file in the directory or in the local index. */
  function Derive(localIndex: Index, filesData: map<string, FileData>): (m: Index)
    ensures m.Keys == filesData.Keys + localIndex.Keys
  {
    map f | f in filesData.Keys + localIndex.Keys :: Describe(f, localIndex, filesData)
  }

  /** The files getFilesMetadata finds deleted get an empty `filesData` entry. */
  function WithTombstones(filesData: map<string, FileData>, localIndex: Index): (fd: map<string, FileData>)
    ensures fd.Keys == filesData.Keys + localIndex.Keys
  {
    filesData + map f | f in localIndex && f !in filesData :: FileData([], [])
  }

  /** The proposal's hash list is the file's current one. A new file is proposed at
      version 1; a file in the local index keeps its version exactly when its hash list
      is unchanged (a deleted file counts as an empty list), and otherwise gets the
      next 32-bit version. */
  lemma DeriveVersions(localIndex: Index, filesData: map<string, FileData>, f: string)
    requires f in filesData || f in localIndex
    ensures Derive(localIndex, filesData)[f].hashlist == CurrentList(f, filesData)
    ensures f !in localIndex ==> Derive(localIndex, filesData)[f].version == 1
    ensures f in localIndex ==>
              && (Derive(localIndex, filesData)[f].version == localIndex[f].version
                  <==> CurrentList(f, filesData) == localIndex[f].hashlist)
              && (Derive(localIndex, filesData)[f].version != localIndex[f].version
                  ==> Derive(localIndex, filesData)[f].version == Inc32(localIndex[f].version))
  {
    if f in localIndex && f !in filesData && localIndex[f].hashlist != [] {
      assert |localIndex[f].hashlist| > 0;
    }
  }

  /** A directory that matches its local index (same files, same hash lists, and deleted
      files already recorded with an empty list) proposes the local index unchanged. */
  lemma DeriveStable(localIndex: Index, filesData: map<string, FileData>)
    requires forall f :: f in filesData ==> f in localIndex && filesData[f].hashlist == localIndex[f].hashlist
    requires forall f :: f in localIndex && f !in filesData ==> localIndex[f].hashlist == []
    ensures Derive(localIndex, filesData) == localIndex
  {
    var m := Derive(localIndex, filesData);
    forall f | f in m
      ensures m[f] == localIndex[f]
    {
      DeriveVersions(localIndex, filesData, f);
    }
  }

  // ---------------------------------------------------------------------------
  // What to download, what to upload

  /** downloadSync's test: the file is new to this client, or the server's version is higher. */
  predicate NeedsDownload(f: string, localIndex: Index, remote: Index)
    requires f in remote
  {
    f !in localIndex || localIndex[f].version < remote[f].version
  }

  /** uploadSync's test: the server does not know the file, or the proposed version is higher. */
  predicate NeedsUpload(f: string, remote: Index, metadata: Index)
    requires f in metadata
  {
    f !in remote || remote[f].version < metadata[f].version
  }

  /** A file is never both downloaded and uploaded in one run, unless it is missing from
      the local index while the server holds it at a version below 1. */
  lemma NeverBoth(localIndex: Index, filesData: map<string, FileData>, remote: Index, f: string)
    requires f in remote && f in Derive(localIndex, filesData)
    requires f in localIndex || remote[f].version >= 1
    ensures !(NeedsDownload(f, localIndex, remote) && NeedsUpload(f, remote, Derive(localIndex, filesData)))
  {
    DeriveVersions(localIndex, filesData, f);
  }

  // ---------------------------------------------------------------------------
  // Downloading

  predicate AllStored(hashlist: seq<Fingerprint>, store: map<Fingerprint, Bytes>)
  {
    forall i :: 0 <= i < |hashlist| ==> hashlist[i] in store
  }

  /** hasblocks answers with as many hashes as were asked for exactly when every one is stored. */
  lemma HasBlocksDecides(hashlist: seq<Fingerprint>, store: map<Fingerprint, Bytes>)
    ensures |KeepPresent(hashlist, store.Keys)| == |hashlist| <==> AllStored(hashlist, store)
  {
    KeepPresentShape(hashlist, store.Keys);
  }

  /** The blocks getblock returns for the hashes of a list, in order. */
  function Fetched(hashlist: seq<Fingerprint>, store: map<Fingerprint, Bytes>): (bs: seq<Bytes>)
    requires AllStored(hashlist, store)
    ensures |bs| == |hashlist|
    ensures forall i :: 0 <= i < |hashlist| ==> bs[i] == store[hashlist[i]]
  {
    seq(|hashlist|, i requires 0 <= i < |hashlist| => store[hashlist[i]])
  }

  /** From a content-addressed block store, the fetched blocks hash back to the list:
      a downloaded file is made of exactly the blocks its hash list names. */
  lemma FetchedMatches(hashlist: seq<Fingerprint>, store: map<Fingerprint, Bytes>, hash: Bytes -> Fingerprint)
    requires ContentAddressed(store, hash) && AllStored(hashlist, store)
    ensures HashesOf(Fetched(hashlist, store), hash) == hashlist
  {
  }

  /** The part of the client's state the download and upload passes change: the
      directory, `filesData` and the new index. */
  datatype Local = Local(dir: map<string, Bytes>, filesData: map<string, FileData>, newIndex: Index)

  /** downloadFile and constructFile for one file of the server's index: nothing unless
      the server holds every block; otherwise the blocks are fetched, the file is written
      from them (deleted when the list is empty), and the server's entry goes to the new
      index. */
  function DownloadStep(l: Local, f: string, info: FileInfo, store: map<Fingerprint, Bytes>): Local
  {
    if !AllStored(info.hashlist, store) then l
    else
      var blocks := Fetched(info.hashlist, store);
      Local(if info.hashlist == [] then l.dir - {f} else l.dir[f := Concat(blocks)],
            l.filesData[f := FileData(info.hashlist, blocks)],
            l.newIndex[f := info])
  }

  /** downloadSync over the server's file names in the order `order`. */
  function DownloadAll(l: Local, order: seq<string>, localIndex: Index, remote: Index, store: map<Fingerprint, Bytes>): Local
    requires forall i :: 0 <= i < |order| ==> order[i] in remote
  {
    if order == [] then l
    else
      var f := order[|order| - 1];
      var prev := DownloadAll(l, order[..|order| - 1], localIndex, remote, store);
      if NeedsDownload(f, localIndex, remote) then DownloadStep(prev, f, remote[f], store) else prev
  }

  predicate Distinct(order: seq<string>)
  {
    forall i, j :: 0 <= i < j < |order| ==> order[i] != order[j]
  }

  /** Two maps agree on key f. */
  predicate SameAt<V(==)>(m1: map<string, V>, m2: map<string, V>, f: string)
  {
    (f in m1 <==> f in m2) && (f in m1 ==> m1[f] == m2[f])
  }

  /** The files downloadSync fetches: those it downloads and whose blocks are all on the server. */
  predicate Fetches(f: string, localIndex: Index, remote: Index, store: map<Fingerprint, Bytes>)
  {
    f in remote && NeedsDownload(f, localIndex, remote) && AllStored(remote[f].hashlist, store)
  }

  /** Downloading one file touches no other name. */
  lemma DownloadStepElsewhere(l: Local, g: string, info: FileInfo, store: map<Fingerprint, Bytes>, f: string)
    requires g != f
    ensures var r := DownloadStep(l, g, info, store);
            SameAt(r.newIndex, l.newIndex, f) && SameAt(r.filesData, l.filesData, f) && SameAt(r.dir, l.dir, f)
  {
  }

  /** After downloadSync, a fetched file is written from the server's blocks (or deleted
      for an empty list), recorded in `filesData`, and its server entry is in the new
      index; any other name is left as it was. */
  lemma {:induction false} DownloadAllAt(l: Local, order: seq<string>, localIndex: Index, remote: Index,
                                         store: map<Fingerprint, Bytes>, f: string)
    requires forall i :: 0 <= i < |order| ==> order[i] in remote
    requires Distinct(order)
    ensures var r := DownloadAll(l, order, localIndex, remote, store);
            if f in order && Fetches(f, localIndex, remote, store) then
              && f in r.newIndex && r.newIndex[f] == remote[f]
              && f in r.filesData && r.filesData[f] == FileData(remote[f].hashlist, Fetched(remote[f].hashlist, store))
              && (remote[f].hashlist == [] <==> f !in r.dir)
              && (remote[f].hashlist != [] ==> r.dir[f] == Concat(Fetched(remote[f].hashlist, store)))
            else
              SameAt(r.newIndex, l.newIndex, f) && SameAt(r.filesData, l.filesData, f) && SameAt(r.dir, l.dir, f)
  {
    if order != [] {
      var init := order[..|order| - 1];
      var g := order[|order| - 1];
      assert Distinct(init) by {
        assert forall i, j :: 0 <= i < j < |init| ==> init[i] == order[i] && init[j] == order[j];
      }
      DownloadAllAt(l, init, localIndex, remote, store, f);
      var prev := DownloadAll(l, init, localIndex, remote, store);
      assert f in order <==> f in init || f == g;
      if g != f {
        if NeedsDownload(g, localIndex, remote) {
          DownloadStepElsewhere(prev, g, remote[g], store, f);
        }
      } else {
        assert f !in init by {
          forall i | 0 <= i < |init|
            ensures init[i] != f
          {
            assert init[i] == order[i];
          }
        }
      }
    }
  }

  // ---------------------------------------------------------------------------
  // Uploading

  /** putblock for each block in order. */
  function PutAll(store: map<Fingerprint, Bytes>, hash: Bytes -> Fingerprint, blocks: seq<Bytes>): (r: map<Fingerprint, Bytes>)
    ensures forall h :: h in store ==> h in r
    ensures forall i :: 0 <= i < |blocks| ==> hash(blocks[i]) in r
    ensures forall h :: h in r ==> h in store || h in HashesOf(blocks, hash)
    ensures ContentAddressed(store, hash) ==> ContentAddressed(r, hash)
  {
    if blocks == [] then store
    else
      var init := blocks[..|blocks| - 1];
      assert forall i :: 0 <= i < |init| ==> HashesOf(init, hash)[i] == HashesOf(blocks, hash)[i];
      AfterPut(PutAll(store, hash, init), hash, blocks[|blocks| - 1])
  }

  /** The server's two stores. */
  datatype Served = Served(blockStore: map<Fingerprint, Bytes>, metaStore: Index)

  /** uploadFile: updatefile with the proposal; only when the server accepts it are the
      blocks put and the proposal copied to the new index. */
  function UploadStep(s: Served, newIndex: Index, f: string, info: FileInfo, blocks: seq<Bytes>,
                      hash: Bytes -> Fingerprint): (Served, Index)
  {
    var (ok, meta) := UpdateStep(s.metaStore, f, info.version, info.hashlist);
    if ok then (Served(PutAll(s.blockStore, hash, blocks), meta), newIndex[f := info])
    else (Served(s.blockStore, meta), newIndex)
  }

  /** A refused proposal puts no block and leaves the server and the new index as they were. */
  lemma UploadStepRefused(s: Served, newIndex: Index, f: string, info: FileInfo, blocks: seq<Bytes>,
                          hash: Bytes -> Fingerprint)
    requires !UpdateStep(s.metaStore, f, info.version, info.hashlist).0
    ensures UploadStep(s, newIndex, f, info, blocks, hash) == (s, newIndex)
  {
  }

  /** An accepted proposal is stored on the server and copied to the new index, and
      every block of the file is then on the block store. */
  lemma UploadStepAccepted(s: Served, newIndex: Index, f: string, info: FileInfo, blocks: seq<Bytes>,
                           hash: Bytes -> Fingerprint)
    requires UpdateStep(s.metaStore, f, info.version, info.hashlist).0
    ensures UploadStep(s, newIndex, f, info, blocks, hash).0.metaStore == s.metaStore[f := info]
    ensures UploadStep(s, newIndex, f, info, blocks, hash).1 == newIndex[f := info]
    ensures forall i :: 0 <= i < |blocks| ==> hash(blocks[i]) in UploadStep(s, newIndex, f, info, blocks, hash).0.blockStore
  {
  }

  /** uploadSync over the proposal's file names in the order `order`. */
  function UploadAll(s: Served, newIndex: Index, order: seq<string>, remote: Index, metadata: Index,
                     filesData: map<string, FileData>, hash: Bytes -> Fingerprint): (Served, Index)
    requires forall i :: 0 <= i < |order| ==> order[i] in metadata && order[i] in filesData
  {
    if order == [] then (s, newIndex)
    else
      var f := order[|order| - 1];
      var prev := UploadAll(s, newIndex, order[..|order| - 1], remote, metadata, filesData, hash);
      if NeedsUpload(f, remote, metadata) then UploadStep(prev.0, prev.1, f, metadata[f], filesData[f].blocks, hash)
      else prev
  }

  /** uploadSync never removes a block and keeps the block store content-addressed. */
  lemma {:induction false} UploadAllGrows(s: Served, newIndex: Index, order: seq<string>, remote: Index, metadata: Index,
                                          filesData: map<string, FileData>, hash: Bytes -> Fingerprint)
    requires forall i :: 0 <= i < |order| ==> order[i] in metadata && order[i] in filesData
    ensures var r := UploadAll(s, newIndex, order, remote, metadata, filesData, hash);
            && (forall h :: h in s.blockStore ==> h in r.0.blockStore)
            && (ContentAddressed(s.blockStore, hash) ==> ContentAddressed(r.0.blockStore, hash))
  {
    if order != [] {
      UploadAllGrows(s, newIndex, order[..|order| - 1], remote, metadata, filesData, hash);
    }
  }

  /** When the server's metadata still says what the client fetched for f, uploadSync
      gets f's proposal accepted: the server and the new index then hold it, and every
      block of the file is on the server. Names that are not uploaded keep their server
      and new-index entries. */
  lemma {:induction false} UploadAllAt(s: Served, newIndex: Index, order: seq<string>, remote: Index, metadata: Index,
                                       filesData: map<string, FileData>, hash: Bytes -> Fingerprint, f: string)
    requires forall i :: 0 <= i < |order| ==> order[i] in metadata && order[i] in filesData
    requires Distinct(order)
    requires SameAt(s.metaStore, remote, f)
    ensures var r := UploadAll(s, newIndex, order, remote, metadata, filesData, hash);
            if f in order && NeedsUpload(f, remote, metadata) then
              && f in r.0.metaStore && r.0.metaStore[f] == metadata[f]
              && f in r.1 && r.1[f] == metadata[f]
              && forall i :: 0 <= i < |filesData[f].blocks| ==> hash(filesData[f].blocks[i]) in r.0.blockStore
            else
              SameAt(r.0.metaStore, s.metaStore, f) && SameAt(r.1, newIndex, f)
  {
    if order != [] {
      var init := order[..|order| - 1];
      var g := order[|order| - 1];
      assert Distinct(init) by {
        assert forall i, j :: 0 <= i < j < |init| ==> init[i] == order[i] && init[j] == order[j];
      }
      UploadAllAt(s, newIndex, init, remote, metadata, filesData, hash, f);
      var prev := UploadAll(s, newIndex, init, remote, metadata, filesData, hash);
      assert f in order <==> f in init || f == g;
      if g != f {
        UpdateTouchesOnlyItsFile(prev.0.metaStore, g, metadata[g].version, metadata[g].hashlist, f);
        if NeedsUpload(g, remote, metadata) {
          UploadAllGrowsStep(prev, g, metadata[g], filesData[g].blocks, hash);
        }
      } else {
        assert f !in init by {
          forall i | 0 <= i < |init|
            ensures init[i] != f
          {
            assert init[i] == order[i];
          }
        }
      }
    }
  }

  /** One uploadFile never removes a block. */
  lemma UploadAllGrowsStep(prev: (Served, Index), f: string, info: FileInfo, blocks: seq<Bytes>, hash: Bytes -> Fingerprint)
    ensures forall h :: h in prev.0.blockStore ==> h in UploadStep(prev.0, prev.1, f, info, blocks, hash).0.blockStore
  {
  }

  /** downloadSync never drops a name from `filesData`. */
  lemma {:induction false} DownloadAllKeeps(l: Local, order: seq<string>, localIndex: Index, remote: Index,
                                            store: map<Fingerprint, Bytes>)
    requires forall i :: 0 <= i < |order| ==> order[i] in remote
    ensures forall f :: f in l.filesData ==> f in DownloadAll(l, order, localIndex, remote, store).filesData
  {
    if order != [] {
      DownloadAllKeeps(l, order[..|order| - 1], localIndex, remote, store);
    }
  }

  /** The base directory holds f as downloaded from `store`: the blocks of the list back
      to back, or no file at all for an empty list. */
  predicate HoldsDownload(dir: map<string, Bytes>, f: string, hashlist: seq<Fingerprint>, store: map<Fingerprint, Bytes>)
    requires AllStored(hashlist, store)
  {
    && (hashlist == [] <==> f !in dir)
    && (hashlist != [] ==> dir[f] == Concat(Fetched(hashlist, store)))
  }

  /** getOrCreateIndexFile on the directory: an empty index file when there is none. */
  function WithIndexFile(dir: map<string, Bytes>): (d: map<string, Bytes>)
    ensures IndexName in d
    ensures forall f :: f != IndexName ==> SameAt(d, dir, f)
  {
    if IndexName in dir then dir else dir[IndexName := []]
  }

  /** downloadSync, then uploadSync, then indexSync, from the prepared state `l` and the
      server's state `s`, walking the hash tables in the given orders. */
  function Passes(l: Local, s: Served, localIndex: Index, remote: Index, metadata: Index,
                  downOrder: seq<string>, upOrder: seq<string>, hash: Bytes -> Fingerprint): (Local, Served)
    requires forall i :: 0 <= i < |downOrder| ==> downOrder[i] in remote
    requires forall i :: 0 <= i < |upOrder| ==> upOrder[i] in metadata
    requires forall f :: f in metadata ==> f in l.filesData
  {
    DownloadAllKeeps(l, downOrder, localIndex, remote, s.blockStore);
    var l2 := DownloadAll(l, downOrder, localIndex, remote, s.blockStore);
    var r := UploadAll(s, l2.newIndex, upOrder, remote, metadata, l2.filesData, hash);
    (Local(l2.dir, l2.filesData, metadata + r.1), r.0)
  }

  /** What one run's passes achieve, when the remote index is the server's metadata:
      - every proposal is in the new index, and the server loses no block;
      - a file that needed an upload is accepted: the server and the new index hold the
        proposal, and every block of the file is on the server;
      - a file downloaded and not then uploaded is written from the server's blocks and
        recorded with the server's entry;
      - any other name keeps its directory entry. */
  lemma PassesOutcome(l: Local, s: Served, localIndex: Index, remote: Index, metadata: Index,
                      downOrder: seq<string>, upOrder: seq<string>, hash: Bytes -> Fingerprint)
    requires s.metaStore == remote
    requires IsEnumeration(downOrder, remote.Keys) && IsEnumeration(upOrder, metadata.Keys)
    requires forall i :: 0 <= i < |downOrder| ==> downOrder[i] in remote
    requires forall i :: 0 <= i < |upOrder| ==> upOrder[i] in metadata
    requires forall f :: f in metadata ==> f in l.filesData
    ensures var (l', s') := Passes(l, s, localIndex, remote, metadata, downOrder, upOrder, hash);
            && (forall f :: f in metadata ==> f in l'.newIndex)
            && (forall h :: h in s.blockStore ==> h in s'.blockStore)
            && (forall f :: f in metadata && NeedsUpload(f, remote, metadata) ==>
                  && f in s'.metaStore && s'.metaStore[f] == metadata[f] && l'.newIndex[f] == metadata[f]
                  && f in l'.filesData
                  && forall i :: 0 <= i < |l'.filesData[f].blocks| ==> hash(l'.filesData[f].blocks[i]) in s'.blockStore)
            && (forall f :: Fetches(f, localIndex, remote, s.blockStore) && !(f in metadata && NeedsUpload(f, remote, metadata)) ==>
                  HoldsDownload(l'.dir, f, remote[f].hashlist, s.blockStore) && f in l'.newIndex && l'.newIndex[f] == remote[f])
            && (forall f :: !Fetches(f, localIndex, remote, s.blockStore) ==> SameAt(l'.dir, l.dir, f))
  {
    DownloadAllKeeps(l, downOrder, localIndex, remote, s.blockStore);
    var l2 := DownloadAll(l, downOrder, localIndex, remote, s.blockStore);
    UploadAllGrows(s, l2.newIndex, upOrder, remote, metadata, l2.filesData, hash);
    forall f | f in metadata && NeedsUpload(f, remote, metadata)
      ensures var r := UploadAll(s, l2.newIndex, upOrder, remote, metadata, l2.filesData, hash);
              && f in r.0.metaStore && r.0.metaStore[f] == metadata[f] && f in r.1 && r.1[f] == metadata[f]
              && forall i :: 0 <= i < |l2.filesData[f].blocks| ==> hash(l2.filesData[f].blocks[i]) in r.0.blockStore
    {
      UploadAllAt(s, l2.newIndex, upOrder, remote, metadata, l2.filesData, hash, f);
    }
    forall f | Fetches(f, localIndex, remote, s.blockStore) && !(f in metadata && NeedsUpload(f, remote, metadata))
      ensures var r := UploadAll(s, l2.newIndex, upOrder, remote, metadata, l2.filesData, hash);
              HoldsDownload(l2.dir, f, remote[f].hashlist, s.blockStore) && f in r.1 && r.1[f] == remote[f]
    {
      assert f in downOrder;
      DownloadAllAt(l, downOrder, localIndex, remote, s.blockStore, f);
      UploadAllAt(s, l2.newIndex, upOrder, remote, metadata, l2.filesData, hash, f);
    }
    forall f | !Fetches(f, localIndex, remote, s.blockStore)
      ensures SameAt(l2.dir, l.dir, f)
    {
      DownloadAllAt(l, downOrder, localIndex, remote, s.blockStore, f);
    }
  }

  /** The index file is read back as the index written to it, in whatever order the
      hash table listed it, when its names and hashes fit the format and its text is
      ISO-8859-1. */
  lemma IndexFileRoundTrip(index: Index, order: seq<string>)
    requires IsEnumeration(order, index.Keys)
    requires IndexFits(index)
    requires Latin1(Serialize(index, order))
    ensures ParseIndex(Decode(Encode(Serialize(index, order)))) == index
  {
    DecodeEncode(Serialize(index, order));
    ParseSerialize(index, order);
  }

  // ---------------------------------------------------------------------------
  // Iteration over a hash table's keys

  /** The keys of a map in some order: Java's Hashtable iteration order is not specified. */
  method KeysOf<V>(m: map<string, V>) returns (order: seq<string>)
    ensures IsEnumeration(order, m.Keys)
  {
    order := [];
    var pending := m.Keys;
    while pending != {}
      invariant pending <= m.Keys
      invariant forall i, j :: 0 <= i < j < |order| ==> order[i] != order[j]
      invariant forall k :: k in m.Keys - pending <==> k in order
      decreases pending
    {
      var k :| k in pending;
      assert forall i :: 0 <= i < |order| ==> order[i] != k by {
        forall i | 0 <= i < |order|
          ensures order[i] != k
        {
          assert order[i] in order;
        }
      }
      order := order + [k];
      pending := pending - {k};
    }
  }

  /** diffHashlist: the two lists differ in length or in some position. */
  method DiffHashlist(h1: seq<Fingerprint>, h2: seq<Fingerprint>) returns (diff: bool)
    ensures diff <==> h1 != h2
  {
    if |h1| != |h2| {
      return true;
    }
    for i := 0 to |h1|
      invariant forall j :: 0 <= j < i ==> h1[j] == h2[j]
    {
      if h1[i] != h2[i] {
        return true;
      }
    }
    assert h1 == h2;
    return false;
  }

  /** The hashing loop of getFilesData. */
  method HashBlocks(blocks: seq<Bytes>, hash: Bytes -> Fingerprint) returns (hashlist: seq<Fingerprint>)
    ensures hashlist == HashesOf(blocks, hash)
  {
    hashlist := [];
    for i := 0 to |blocks|
      invariant |hashlist| == i
      invariant forall j :: 0 <= j < i ==> hashlist[j] == hash(blocks[j])
    {
      hashlist := hashlist + [hash(blocks[i])];
    }
  }

  // ---------------------------------------------------------------------------
  // The client object

  class Client {
    /** The blockSize argument. */
    const blockSize: int
    /** The server behind the host:port argument. */
    const server: Server
    /** The base directory: file name to contents. */
    var dir: map<string, Bytes>
    var localIndex: Index
    var metadata: Index
    var remoteIndex: Index
    var newIndex: Index
    var filesData: map<string, FileData>

    function LocalState(): Local
      reads this
    {
      Local(dir, filesData, newIndex)
    }

    function ServedState(): Served
      reads server
    {
      Served(server.blockStore, server.metaStore)
    }

    constructor(server: Server, blockSize: int, dir: map<string, Bytes>)
      ensures this.server == server && this.blockSize == blockSize
      ensures this.dir == dir
      ensures localIndex == map[] && metadata == map[] && remoteIndex == map[] && newIndex == map[] && filesData == map[]
    {
      this.server := server;
      this.blockSize := blockSize;
      this.dir := dir;
      localIndex := map[];
      metadata := map[];
      remoteIndex := map[];
      newIndex := map[];
      filesData := map[];
    }

    /** getOrCreateIndexFile: an empty index file when there is none. */
    method GetOrCreateIndexFile()
      modifies this`dir
      ensures dir == if IndexName in old(dir) then old(dir) else old(dir)[IndexName := []]
    {
      if IndexName !in dir {
        dir := dir[IndexName := []];
      }
    }

    /** getFilesData over the directory's files, in the directory listing's order. */
    method GetFilesData() returns (result: map<string, FileData>)
      ensures result == FilesOf(dir, blockSize, server.hash)
    {
      result := map[];
      var pending := dir.Keys;
      while pending != {}
        invariant pending <= dir.Keys
        invariant result.Keys == dir.Keys - pending - {IndexName}
        invariant forall f :: f in result ==> result[f] == DataOf(dir[f], blockSize, server.hash)
        decreases pending
      {
        var f :| f in pending;
        pending := pending - {f};
        if f == IndexName {
          continue;
        }
        var blocks := SplitFile(dir[f], blockSize);
        var hashlist := HashBlocks(blocks, server.hash);
        result := result[f := FileData(hashlist, blocks)];
      }
      assert result == FilesOf(dir, blockSize, server.hash);
    }

    /** getFilesMetadata: a proposal per file; deleted files also get an empty `filesData` entry. */
    method GetFilesMetadata() returns (result: Index)
      modifies this`filesData
      ensures result == Derive(localIndex, old(filesData))
      ensures filesData == WithTombstones(old(filesData), localIndex)
    {
      ghost var fd := filesData;
      result := map[];
      var pending := filesData.Keys;
      while pending != {}
        invariant pending <= fd.Keys && filesData == fd
        invariant result.Keys == fd.Keys - pending
        invariant forall f :: f in result ==> result[f] == Describe(f, localIndex, fd)
        decreases pending
      {
        var f :| f in pending;
        pending := pending - {f};
        var hl := filesData[f].hashlist;
        var version: Int32;
        if f !in localIndex {
          version := 1;
        } else {
          var diff := DiffHashlist(hl, localIndex[f].hashlist);
          if diff {
            version := Inc32(localIndex[f].version);
          } else {
            version := localIndex[f].version;
          }
        }
        result := result[f := FileInfo(version, hl)];
      }
      pending := localIndex.Keys;
      while pending != {}
        invariant pending <= localIndex.Keys
        invariant result.Keys == fd.Keys + (localIndex.Keys - pending)
        invariant forall f :: f in result ==> result[f] == Describe(f, localIndex, fd)
        invariant filesData.Keys == fd.Keys + (localIndex.Keys - pending)
        invariant forall f :: f in filesData ==> filesData[f] == if f in fd then fd[f] else FileData([], [])
        decreases pending
      {
        var f :| f in pending;
        pending := pending - {f};
        if f !in result {
          var version := localIndex[f].version;
          if |localIndex[f].hashlist| > 0 {
            version := Inc32(version);
          }
          result := result[f := FileInfo(version, [])];
          filesData := filesData[f := FileData([], [])];
        }
      }
      assert result == Derive(localIndex, fd);
      assert filesData == WithTombstones(fd, localIndex);
    }

    /** constructFile: delete the file when the server's list is empty, otherwise write
        its blocks from `filesData`. */
    method ConstructFile(filename: string)
      requires filename in remoteIndex && filename in filesData
      modifies this`dir
      ensures dir == if remoteIndex[filename].hashlist == [] then old(dir) - {filename}
                     else old(dir)[filename := Concat(filesData[filename].blocks)]
    {
      var hashlist := remoteIndex[filename].hashlist;
      if hashlist == [] {
        dir := dir - {filename};
        return;
      }
      var contents := WriteBlocks(filesData[filename].blocks);
      dir := dir[filename := contents];
    }

    /** downloadFile for a name of the server's index, with the server's version and list. */
    method DownloadFile(filename: string)
      requires filename in remoteIndex
      modifies this`dir, this`filesData, this`newIndex
      ensures LocalState() == DownloadStep(old(LocalState()), filename, remoteIndex[filename], server.blockStore)
    {
      var info := remoteIndex[filename];
      var hashlist := info.hashlist;
      var availableHash := server.HasBlocks(hashlist);
      HasBlocksDecides(hashlist, server.blockStore);
      if |availableHash| != |hashlist| {
        return;
      }
      var blocks: seq<Bytes> := [];
      for i := 0 to |hashlist|
        invariant LocalState() == old(LocalState())
        invariant |blocks| == i
        invariant forall j :: 0 <= j < i ==> blocks[j] == server.blockStore[hashlist[j]]
      {
        var block := server.GetBlock(hashlist[i]);
        blocks := blocks + [block.value];
      }
      assert blocks == Fetched(hashlist, server.blockStore);
      filesData := filesData[filename := FileData(hashlist, blocks)];
      ConstructFile(filename);
      newIndex := newIndex[filename := info];
    }

    /** downloadSync over the server's names in the hash table's order (returned as `order`). */
    method DownloadSync() returns (ghost order: seq<string>)
      modifies this`dir, this`filesData, this`newIndex
      ensures IsEnumeration(order, remoteIndex.Keys)
      ensures LocalState() == DownloadAll(old(LocalState()), order, localIndex, remoteIndex, server.blockStore)
    {
      ghost var start := LocalState();
      order := [];
      var pending := remoteIndex.Keys;
      while pending != {}
        invariant pending <= remoteIndex.Keys
        invariant forall i, j :: 0 <= i < j < |order| ==> order[i] != order[j]
        invariant forall k :: k in remoteIndex.Keys - pending <==> k in order
        invariant forall i :: 0 <= i < |order| ==> order[i] in remoteIndex
        invariant LocalState() == DownloadAll(start, order, localIndex, remoteIndex, server.blockStore)
        decreases pending
      {
        var f :| f in pending;
        pending := pending - {f};
        assert forall i :: 0 <= i < |order| ==> order[i] != f by {
          forall i | 0 <= i < |order|
            ensures order[i] != f
          {
            assert order[i] in order;
          }
        }
        assert (order + [f])[..|order|] == order;
        if f !in localIndex || localIndex[f].version < remoteIndex[f].version {
          DownloadFile(f);
        }
        order := order + [f];
      }
    }

    /** uploadFile for a name of the proposal. */
    method UploadFile(filename: string)
      requires filename in metadata && filename in filesData
      requires server.Valid()
      modifies server, this`newIndex
      ensures server.Valid()
      ensures (ServedState(), newIndex)
           == UploadStep(old(ServedState()), old(newIndex), filename, metadata[filename], filesData[filename].blocks, server.hash)
    {
      var info := metadata[filename];
      var status := server.UpdateFile(filename, info.version, info.hashlist);
      if status {
        var blocks := filesData[filename].blocks;
        for i := 0 to |blocks|
          invariant server.Valid()
          invariant server.blockStore == PutAll(old(server.blockStore), server.hash, blocks[..i])
          invariant server.metaStore == UpdateStep(old(server.metaStore), filename, info.version, info.hashlist).1
          invariant newIndex == old(newIndex)
        {
          assert blocks[..i + 1][..i] == blocks[..i];
          var _ := server.PutBlock(blocks[i]);
        }
        assert blocks[..|blocks|] == blocks;
        newIndex := newIndex[filename := info];
      }
    }

    /** uploadSync over the proposal's names in the hash table's order (returned as `order`). */
    method UploadSync() returns (ghost order: seq<string>)
      requires server.Valid()
      requires forall f :: f in metadata ==> f in filesData
      modifies server, this`newIndex
      ensures server.Valid()
      ensures IsEnumeration(order, metadata.Keys)
      ensures (ServedState(), newIndex) == UploadAll(old(ServedState()), old(newIndex), order, remoteIndex, metadata, filesData, server.hash)
    {
      ghost var start := ServedState();
      ghost var startIndex := newIndex;
      order := [];
      var pending := metadata.Keys;
      while pending != {}
        invariant pending <= metadata.Keys
        invariant forall i, j :: 0 <= i < j < |order| ==> order[i] != order[j]
        invariant forall k :: k in metadata.Keys - pending <==> k in order
        invariant forall i :: 0 <= i < |order| ==> order[i] in metadata
        invariant server.Valid()
        invariant (ServedState(), newIndex) == UploadAll(start, startIndex, order, remoteIndex, metadata, filesData, server.hash)
        decreases pending
      {
        var f :| f in pending;
        pending := pending - {f};
        assert forall i :: 0 <= i < |order| ==> order[i] != f by {
          forall i | 0 <= i < |order|
            ensures order[i] != f
          {
            assert order[i] in order;
          }
        }
        assert (order + [f])[..|order|] == order;
        if f !in remoteIndex || remoteIndex[f].version < metadata[f].version {
          UploadFile(f);
        }
        order := order + [f];
      }
    }

    /** indexSync: every proposal the run did not already record goes to the new index. */
    method IndexSync()
      modifies this`newIndex
      ensures newIndex == metadata + old(newIndex)
    {
      ghost var start := newIndex;
      var pending := metadata.Keys;
      while pending != {}
        invariant pending <= metadata.Keys
        invariant newIndex.Keys == start.Keys + (metadata.Keys - pending)
        invariant forall f :: f in newIndex ==> newIndex[f] == if f in start then start[f] else metadata[f]
        decreases pending
      {
        var f :| f in pending;
        pending := pending - {f};
        if f !in newIndex {
          newIndex := newIndex[f := metadata[f]];
        }
      }
      assert newIndex == metadata + start;
    }

    /** The first half of main: make sure the index file exists, read the local index
        from it, describe the directory's files, derive the proposals and fetch the
        server's index. */
    method Prepare()
      modifies this`dir, this`localIndex, this`filesData, this`metadata, this`remoteIndex, this`newIndex
      ensures dir == WithIndexFile(old(dir))
      ensures localIndex == ParseIndex(Decode(dir[IndexName]))
      ensures metadata == Derive(localIndex, FilesOf(old(dir), blockSize, server.hash))
      ensures filesData == WithTombstones(FilesOf(old(dir), blockSize, server.hash), localIndex)
      ensures remoteIndex == server.metaStore && newIndex == map[]
    {
      ghost var dir0 := dir;
      GetOrCreateIndexFile();
      localIndex := GetIndexMetadata(Decode(dir[IndexName]));
      filesData := GetFilesData();
      assert filesData == FilesOf(dir0, blockSize, server.hash);
      metadata := GetFilesMetadata();
      remoteIndex := server.GetFileInfoMap();
      newIndex := map[];
    }

    /** The second half of main: downloadSync, uploadSync, indexSync and writeIndex. The
        orders in which the three hash tables were walked are returned as ghost values. */
    method Synchronize() returns (ghost downOrder: seq<string>, ghost upOrder: seq<string>, ghost indexOrder: seq<string>)
      requires server.Valid()
      requires forall f :: f in metadata ==> f in filesData
      modifies server, this`dir, this`filesData, this`newIndex
      ensures server.Valid()
      ensures IsEnumeration(downOrder, remoteIndex.Keys) && IsEnumeration(upOrder, metadata.Keys)
      ensures forall i :: 0 <= i < |downOrder| ==> downOrder[i] in remoteIndex
      ensures forall i :: 0 <= i < |upOrder| ==> upOrder[i] in metadata
      ensures var (l, s) := Passes(old(LocalState()), old(ServedState()), localIndex, remoteIndex, metadata, downOrder, upOrder, server.hash);
              && ServedState() == s && filesData == l.filesData && newIndex == l.newIndex
              && IsEnumeration(indexOrder, newIndex.Keys)
              && dir == l.dir[IndexName := Encode(Serialize(newIndex, indexOrder))]
    {
      ghost var l1 := LocalState();
      ghost var served0 := ServedState();
      downOrder := DownloadSync();
      EnumerationMembers(downOrder, remoteIndex.Keys);
      DownloadAllKeeps(l1, downOrder, localIndex, remoteIndex, served0.blockStore);
      upOrder := UploadSync();
      EnumerationMembers(upOrder, metadata.Keys);
      IndexSync();
      indexOrder := WriteIndexFile();
    }

    /** One run of the client (main): Prepare, then Synchronize. The run starts from an
        empty new index, with the server's metadata as the remote index; PassesOutcome
        states what the passes then achieve. */
    method Run() returns (ghost downOrder: seq<string>, ghost upOrder: seq<string>, ghost indexOrder: seq<string>)
      requires server.Valid()
      modifies this, server
      ensures server.Valid()
      ensures localIndex == ParseIndex(Decode(WithIndexFile(old(dir))[IndexName]))
      ensures metadata == Derive(localIndex, FilesOf(old(dir), blockSize, server.hash))
      ensures remoteIndex == old(server.metaStore)
      ensures IsEnumeration(downOrder, remoteIndex.Keys) && IsEnumeration(upOrder, metadata.Keys)
      ensures forall i :: 0 <= i < |downOrder| ==> downOrder[i] in remoteIndex
      ensures forall i :: 0 <= i < |upOrder| ==> upOrder[i] in metadata
      ensures var prepared := Local(WithIndexFile(old(dir)), WithTombstones(FilesOf(old(dir), blockSize, server.hash), localIndex), map[]);
              && (forall f :: f in metadata ==> f in prepared.filesData)
              && var (l, s) := Passes(prepared, old(ServedState()), localIndex, remoteIndex, metadata, downOrder, upOrder, server.hash);
              && ServedState() == s && filesData == l.filesData && newIndex == l.newIndex
              && IsEnumeration(indexOrder, newIndex.Keys)
              && dir == l.dir[IndexName := Encode(Serialize(newIndex, indexOrder))]
    {
      Prepare();
      downOrder, upOrder, indexOrder := Synchronize();
    }

    /** writeIndex: the new index, one line per name in the hash table's order, written
        over the index file. */
    method WriteIndexFile() returns (ghost order: seq<string>)
      modifies this`dir
      ensures IsEnumeration(order, newIndex.Keys)
      ensures dir == old(dir)[IndexName := Encode(Serialize(newIndex, order))]
    {
      var keys := KeysOf(newIndex);
      var text := WriteIndex(newIndex, keys);
      order := keys;
      dir := dir[IndexName := Encode(text)];
    }
  }
}
