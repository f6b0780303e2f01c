/**
  The Java SurfStore server: a content-addressed block store (fingerprint to
  block) and a metadata store (file name to version and hash list) guarded by
  a version check. Both stores are fields that the RPC handlers update in
  place.
 */
module BlockServer {
  import opened SurfTypes

  // ---------------------------------------------------------------------------
  // The block store

  /** Every stored block sits under its own fingerprint. */
  ghost predicate ContentAddressed(store: map<Fingerprint, Bytes>, hash: Bytes -> Fingerprint)
  {
    forall h :: h in store ==> hash(store[h]) == h
  }

  /** The block store after putblock(b): b filed under hash(b). */
  function AfterPut(store: map<Fingerprint, Bytes>, hash: Bytes -> Fingerprint, b: Bytes): (r: map<Fingerprint, Bytes>)
    ensures r.Keys == store.Keys + {hash(b)}
    ensures ContentAddressed(store, hash) ==> ContentAddressed(r, hash)
  {
    store[hash(b) := b]
  }

  /** Putting the same bytes twice leaves the store as one put does, and a get of the
      block's fingerprint afterwards finds those bytes. */
  lemma PutIdempotent(store: map<Fingerprint, Bytes>, hash: Bytes -> Fingerprint, b: Bytes)
    ensures AfterPut(AfterPut(store, hash, b), hash, b) == AfterPut(store, hash, b)
    ensures AfterPut(store, hash, b)[hash(b)] == b
  {
  }

  /** A put never removes or replaces another fingerprint's block. */
  lemma PutKeepsOthers(store: map<Fingerprint, Bytes>, hash: Bytes -> Fingerprint, b: Bytes, h: Fingerprint)
    requires h != hash(b)
    ensures h in AfterPut(store, hash, b) <==> h in store
    ensures h in store ==> AfterPut(store, hash, b)[h] == store[h]
  {
  }

  // ---------------------------------------------------------------------------
  // The metadata store and its version guard

  /** updatefile on the metadata map: its answer and the map afterwards. An unknown name
      is always stored; a known one only when `version < current + 1` is false, where
      `current + 1` is a 32-bit addition that wraps at the top of the range. */
  function UpdateStep(meta: Index, filename: string, version: Int32, hashlist: seq<Fingerprint>): (r: (bool, Index))
    ensures r.0 <==> filename !in meta || meta[filename].version < version || meta[filename].version == MaxInt32
    ensures !r.0 ==> r.1 == meta
    ensures r.0 ==> r.1 == meta[filename := FileInfo(version, hashlist)]
  {
    if filename !in meta then (true, meta[filename := FileInfo(version, hashlist)])
    else if version < Inc32(meta[filename].version) then (false, meta)
    else (true, meta[filename := FileInfo(version, hashlist)])
  }

  /** An unknown file name is always accepted and stored as given. */
  lemma UpdateUnknown(meta: Index, filename: string, version: Int32, hashlist: seq<Fingerprint>)
    requires filename !in meta
    ensures UpdateStep(meta, filename, version, hashlist) == (true, meta[filename := FileInfo(version, hashlist)])
  {
  }

  /** A version that is not above the stored one is refused and nothing changes
      (as long as the stored version is not the largest int, where `+ 1` wraps). */
  lemma UpdateStale(meta: Index, filename: string, version: Int32, hashlist: seq<Fingerprint>)
    requires filename in meta && version <= meta[filename].version < MaxInt32
    ensures UpdateStep(meta, filename, version, hashlist) == (false, meta)
  {
  }

  /** Any version above the stored one is accepted, not only the next one. */
  lemma UpdateNewer(meta: Index, filename: string, version: Int32, hashlist: seq<Fingerprint>)
    requires filename in meta && version > meta[filename].version
    ensures UpdateStep(meta, filename, version, hashlist) == (true, meta[filename := FileInfo(version, hashlist)])
  {
  }

  /** Once the stored version is the largest int, `current + 1` wraps to the smallest int
      and every version is accepted, including lower ones. */
  lemma UpdateAtWrap(meta: Index, filename: string, version: Int32, hashlist: seq<Fingerprint>)
    requires filename in meta && meta[filename].version == MaxInt32
    ensures UpdateStep(meta, filename, version, hashlist).0
    ensures UpdateStep(meta, filename, version, hashlist).1[filename].version == version
  {
  }

  /** updatefile touches no other file name. */
  lemma UpdateTouchesOnlyItsFile(meta: Index, filename: string, version: Int32, hashlist: seq<Fingerprint>, g: string)
    requires g != filename
    ensures g in UpdateStep(meta, filename, version, hashlist).1 <==> g in meta
    ensures g in meta ==> UpdateStep(meta, filename, version, hashlist).1[g] == meta[g]
  {
  }

  /** One updatefile call. */
  datatype Request = Request(filename: string, version: Int32, hashlist: seq<Fingerprint>)

  /** The metadata map after a sequence of updatefile calls. */
  function Replay(meta: Index, reqs: seq<Request>): Index
    decreases |reqs|
  {
    if reqs == [] then meta
    else
      var q := reqs[0];
      Replay(UpdateStep(meta, q.filename, q.version, q.hashlist).1, reqs[1..])
  }

  /** A stored file stays stored and its version never decreases, whatever calls follow,
      as long as no call proposes the largest int for it (the wrap above). */
  lemma {:induction false} ReplayNeverLowers(meta: Index, reqs: seq<Request>, f: string)
    requires f in meta && meta[f].version < MaxInt32
    requires forall i :: 0 <= i < |reqs| && reqs[i].filename == f ==> reqs[i].version < MaxInt32
    ensures f in Replay(meta, reqs)
    ensures meta[f].version <= Replay(meta, reqs)[f].version < MaxInt32
    decreases |reqs|
  {
    if reqs != [] {
      var q := reqs[0];
      var next := UpdateStep(meta, q.filename, q.version, q.hashlist).1;
      assert f in next && meta[f].version <= next[f].version < MaxInt32 by {
        if q.filename != f {
          UpdateTouchesOnlyItsFile(meta, q.filename, q.version, q.hashlist, f);
        }
      }
      assert forall i :: 0 <= i < |reqs| - 1 && reqs[1..][i].filename == f ==> reqs[1..][i].version < MaxInt32 by {
        forall i | 0 <= i < |reqs| - 1 && reqs[1..][i].filename == f
          ensures reqs[1..][i].version < MaxInt32
        {
          assert reqs[1..][i] == reqs[i + 1];
        }
      }
      ReplayNeverLowers(next, reqs[1..], f);
    }
  }

  // ---------------------------------------------------------------------------
  // The server object

  class Server {
    /** SHA-256 rendered in hex; never computed here. */
    const hash: Bytes -> Fingerprint
    var blockStore: map<Fingerprint, Bytes>
    var metaStore: Index

    ghost predicate Valid()
      reads this
    {
      ContentAddressed(blockStore, hash)
    }

    constructor(hash: Bytes -> Fingerprint)
      ensures this.hash == hash
      ensures blockStore == map[] && metaStore == map[]
      ensures Valid()
    {
      this.hash := hash;
      blockStore := map[];
      metaStore := map[];
    }

    /** getblock: the block stored under the fingerprint, or null (None) when there is none. */
    method GetBlock(hashvalue: Fingerprint) returns (blockData: Option<Bytes>)
      ensures blockData.Some? <==> hashvalue in blockStore
      ensures blockData.Some? ==> blockData.value == blockStore[hashvalue]
      ensures Valid() && blockData.Some? ==> hash(blockData.value) == hashvalue
    {
      if hashvalue in blockStore {
        blockData := Some(blockStore[hashvalue]);
      } else {
        blockData := None;
      }
    }

    /** putblock: file the block under its own fingerprint; always answers true. */
    method PutBlock(blockData: Bytes) returns (ok: bool)
      requires Valid()
      modifies this
      ensures Valid() && ok
      ensures blockStore == AfterPut(old(blockStore), hash, blockData)
      ensures metaStore == old(metaStore)
    {
      var hashvalue := hash(blockData);
      blockStore := blockStore[hashvalue := blockData];
      ok := true;
    }

    /** hasblocks: the requested fingerprints that are stored, in request order, duplicates kept. */
    method HasBlocks(hashlist: seq<Fingerprint>) returns (availableHash: seq<Fingerprint>)
      ensures availableHash == KeepPresent(hashlist, blockStore.Keys)
    {
      availableHash := [];
      for i := 0 to |hashlist|
        invariant availableHash == KeepPresent(hashlist[..i], blockStore.Keys)
      {
        assert hashlist[..i + 1][..i] == hashlist[..i];
        if hashlist[i] in blockStore {
          availableHash := availableHash + [hashlist[i]];
        }
      }
      assert hashlist[..|hashlist|] == hashlist;
    }

    /** getfileinfomap: a copy of the metadata map, built entry by entry in the hash
        table's (unspecified) iteration order. */
    method GetFileInfoMap() returns (result: Index)
      ensures result == metaStore
    {
      result := map[];
      var pending := metaStore.Keys;
      while pending != {}
        invariant pending <= metaStore.Keys
        invariant result.Keys == metaStore.Keys - pending
        invariant forall k :: k in result ==> result[k] == metaStore[k]
        decreases pending
      {
        var k :| k in pending;
        result := result[k := metaStore[k]];
        pending := pending - {k};
      }
    }

    /** updatefile: the version-checked write of one file's record. */
    method UpdateFile(filename: string, version: Int32, hashlist: seq<Fingerprint>) returns (ok: bool)
      modifies this
      ensures (ok, metaStore) == UpdateStep(old(metaStore), filename, version, hashlist)
      ensures blockStore == old(blockStore)
    {
      if filename !in metaStore {
        metaStore := metaStore[filename := FileInfo(version, hashlist)];
        return true;
      }
      var fileinfo := metaStore[filename];
      if version < Inc32(fileinfo.version) {
        return false;
      }
      metaStore := metaStore[filename := FileInfo(version, hashlist)];
      ok := true;
    }
  }
}
