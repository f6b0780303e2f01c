/**
  The Python SurfStore client: upload, delete and download of one file against
  the metadata store, with blocks of 4096 bytes kept on block stores chosen by
  findServer. The block stores themselves are not modelled: their has_block
  answers are the oracle `present`, their get_block answers the oracle
  `fetch`, and the store_block calls the client makes are returned as a list.
 */
module PyClient {
  import opened SurfTypes
  import opened Chunking
  import opened MetaStore

  const BlockSize: int := 4096

  /** The read loop of upload and download: 4096 bytes at a time, each block with its
      SHA-256 fingerprint, until a read comes back empty. */
  method ReadBlocks(data: Bytes, hash: Bytes -> Fingerprint) returns (blockarr: seq<Bytes>, hashlist: seq<Fingerprint>)
    ensures blockarr == Chunks(data, BlockSize)
    ensures hashlist == HashesOf(blockarr, hash)
  {
    blockarr := [];
    hashlist := [];
    var pos := 0;
    var block := data[pos..pos + Min(BlockSize, |data| - pos)];
    while block != []
      invariant 0 <= pos <= |data|
      invariant block == data[pos..pos + Min(BlockSize, |data| - pos)]
      invariant blockarr + Chunks(data[pos..], BlockSize) == Chunks(data, BlockSize)
      invariant |hashlist| == |blockarr|
      invariant forall i :: 0 <= i < |blockarr| ==> hashlist[i] == hash(blockarr[i])
      decreases |data| - pos
    {
      var next := pos + |block|;
      assert Chunks(data[pos..], BlockSize) == [block] + Chunks(data[next..], BlockSize) by {
        assert data[pos..][..|block|] == block;
        assert data[pos..][|block|..] == data[next..];
      }
      assert (blockarr + [block]) + Chunks(data[next..], BlockSize) == blockarr + ([block] + Chunks(data[next..], BlockSize));
      blockarr := blockarr + [block];
      hashlist := hashlist + [hash(block)];
      pos := next;
      block := data[pos..pos + Min(BlockSize, |data| - pos)];
    }
    assert data[pos..] == [];
  }

  /** The 4096-byte blocks of a file are non-empty, at most 4096 bytes, as many as
      ceil(n / 4096), and written back to back give the file back. */
  lemma ReadBlocksShape(data: Bytes)
    ensures Concat(Chunks(data, BlockSize)) == data
    ensures forall i :: 0 <= i < |Chunks(data, BlockSize)| ==> 0 < |Chunks(data, BlockSize)[i]| <= BlockSize
    ensures |Chunks(data, BlockSize)| == (|data| + BlockSize - 1) / BlockSize
  {
    ChunksConcat(data, BlockSize);
    BlocksBounded(data, BlockSize);
    ChunksCountDiv(data, BlockSize);
  }

  // ---------------------------------------------------------------------------
  // upload

  /** One store_block(h, block) call made to block store `server`. */
  datatype StoreCall = StoreCall(server: int, hash: Fingerprint, block: Bytes)

  /** The store loop of upload over the missing hashes: the store_block calls made, and
      the exception that ended the loop early, if any (findServer's error, or ValueError
      from `hashlist.index(h)` for a hash the file does not have). */
  function StoreMissing(missing: seq<Fingerprint>, hashlist: seq<Fingerprint>, blockarr: seq<Bytes>, numBlockStores: int)
    : (r: (seq<StoreCall>, Option<PyError>))
    requires |hashlist| == |blockarr|
    ensures |r.0| <= |missing|
  {
    if missing == [] then ([], None)
    else
      var prev := StoreMissing(missing[..|missing| - 1], hashlist, blockarr, numBlockStores);
      var h := missing[|missing| - 1];
      if prev.1.Some? then prev
      else match FindServer(h, numBlockStores)
        case Failure(e) => (prev.0, Some(e))
        case Success(s) =>
          if h !in hashlist then (prev.0, Some(ValueError))
          else (prev.0 + [StoreCall(s, h, blockarr[FirstIndex(hashlist, h)])], None)
  }

  lemma StoreMissingSnoc(missing: seq<Fingerprint>, i: nat, hashlist: seq<Fingerprint>, blockarr: seq<Bytes>, n: int)
    requires |hashlist| == |blockarr| && i < |missing|
    requires StoreMissing(missing[..i], hashlist, blockarr, n).1.None?
    ensures var prev := StoreMissing(missing[..i], hashlist, blockarr, n).0;
            StoreMissing(missing[..i + 1], hashlist, blockarr, n)
            == match FindServer(missing[i], n)
               case Failure(e) => (prev, Some(e))
               case Success(s) =>
                 if missing[i] !in hashlist then (prev, Some(ValueError))
                 else (prev + [StoreCall(s, missing[i], blockarr[FirstIndex(hashlist, missing[i])])], None)
  {
    var p := missing[..i + 1];
    assert p[..|p| - 1] == missing[..i];
  }

  lemma {:induction false} StoreMissingSticks(missing: seq<Fingerprint>, k: nat, hashlist: seq<Fingerprint>, blockarr: seq<Bytes>, n: int)
    requires |hashlist| == |blockarr| && k <= |missing|
    requires StoreMissing(missing[..k], hashlist, blockarr, n).1.Some?
    ensures StoreMissing(missing, hashlist, blockarr, n) == StoreMissing(missing[..k], hashlist, blockarr, n)
  {
    if k < |missing| {
      var init := missing[..|missing| - 1];
      assert init[..k] == missing[..k];
      StoreMissingSticks(init, k, hashlist, blockarr, n);
    } else {
      assert missing[..k] == missing;
    }
  }

  /** Call c stores hash h at h's shard, with the first local block whose hash is h. */
  predicate CallFor(c: StoreCall, h: Fingerprint, hashlist: seq<Fingerprint>, blockarr: seq<Bytes>, n: int)
  {
    && c.hash == h
    && h in hashlist
    && FirstIndex(hashlist, h) < |blockarr|
    && FindServer(h, n) == Success(c.server)
    && c.block == blockarr[FirstIndex(hashlist, h)]
  }

  /** The i-th call is made for the i-th missing hash; when the loop finishes, there is
      one call per missing hash. */
  lemma {:induction false} StoreMissingCalls(missing: seq<Fingerprint>, hashlist: seq<Fingerprint>, blockarr: seq<Bytes>, n: int)
    requires |hashlist| == |blockarr|
    ensures var calls := StoreMissing(missing, hashlist, blockarr, n).0;
            forall i :: 0 <= i < |calls| ==> CallFor(calls[i], missing[i], hashlist, blockarr, n)
    ensures StoreMissing(missing, hashlist, blockarr, n).1.None? ==> |StoreMissing(missing, hashlist, blockarr, n).0| == |missing|
  {
    if missing != [] {
      var init := missing[..|missing| - 1];
      StoreMissingCalls(init, hashlist, blockarr, n);
      var prev := StoreMissing(init, hashlist, blockarr, n);
      var calls := StoreMissing(missing, hashlist, blockarr, n).0;
      var h := missing[|missing| - 1];
      if prev.1.None? && FindServer(h, n).Success? && h in hashlist {
        assert calls == prev.0 + [StoreCall(FindServer(h, n).value, h, blockarr[FirstIndex(hashlist, h)])];
        forall i | 0 <= i < |calls|
          ensures CallFor(calls[i], missing[i], hashlist, blockarr, n)
        {
          if i < |prev.0| {
            assert calls[i] == prev.0[i] && missing[i] == init[i];
          }
        }
      } else {
        assert calls == prev.0;
        forall i | 0 <= i < |calls|
          ensures CallFor(calls[i], missing[i], hashlist, blockarr, n)
        {
          assert missing[i] == init[i];
        }
      }
    }
  }

  /** After a store loop that finished, every missing hash has been sent to its shard. */
  lemma StoreCoversMissing(missing: seq<Fingerprint>, hashlist: seq<Fingerprint>, blockarr: seq<Bytes>, n: int)
    requires |hashlist| == |blockarr|
    requires StoreMissing(missing, hashlist, blockarr, n).1.None?
    ensures forall h :: h in missing ==>
              FindServer(h, n).Success? && StoredAt(StoreMissing(missing, hashlist, blockarr, n).0, FindServer(h, n).value, h)
  {
    StoreMissingCalls(missing, hashlist, blockarr, n);
    var calls := StoreMissing(missing, hashlist, blockarr, n).0;
    forall h | h in missing
      ensures FindServer(h, n).Success? && StoredAt(calls, FindServer(h, n).value, h)
    {
      var j :| 0 <= j < |missing| && missing[j] == h;
      assert CallFor(calls[j], missing[j], hashlist, blockarr, n);
    }
  }

  /** What the blocks' has_block answers are after the client's store_block calls: a
      block store has a block it had, or one it was just sent. */
  predicate StoredAt(calls: seq<StoreCall>, server: int, h: Fingerprint)
  {
    exists i :: 0 <= i < |calls| && calls[i].server == server && calls[i].hash == h
  }

  function WithStored(present: (int, Fingerprint) -> bool, calls: seq<StoreCall>): (int, Fingerprint) -> bool
  {
    (server: int, h: Fingerprint) => present(server, h) || StoredAt(calls, server, h)
  }

  /** upload of a file cut into `blockarr` with fingerprints `hashlist`: the metadata
      store's state afterwards, the exception that escapes (if any), and the store_block
      calls made. The proposed version is the version read plus one. On a failed
      modify_file, a missing-blocks error has its blocks stored; an ErrorResponse of
      type 3 has no `missing_blocks` list (the name is the class's method, which is not
      iterable); any other exception has no `error_type`. Then modify_file is called
      once more and its exception, if any, escapes. */
  function UploadOutcome(st: MetaState, metaShards: int, clientShards: int, filename: string,
                         blockarr: seq<Bytes>, hashlist: seq<Fingerprint>, present: (int, Fingerprint) -> bool)
    : (MetaState, Option<PyError>, seq<StoreCall>)
    requires Consistent(st) && |hashlist| == |blockarr|
  {
    var proposed := Read(st, filename).0 + 1;
    var first := Modify(st, metaShards, filename, proposed, hashlist, present);
    if first.1.None? then (first.0, None, [])
    else
      var e := first.1.value;
      if !e.ErrorResponse? then (st, Some(AttributeError), [])
      else if e.kind.FileNotFound? then (st, Some(TypeError), [])
      else
        var stored := if e.kind.MissingBlocks? then StoreMissing(e.kind.missingBlocks, hashlist, blockarr, clientShards) else ([], None);
        if stored.1.Some? then (st, stored.1, stored.0)
        else
          var second := Modify(st, metaShards, filename, proposed, hashlist, WithStored(present, stored.0));
          (second.0, second.1, stored.0)
  }

  /** The version the client proposes always passes the store's version check: one more
      than the stored version, or 1 for a file the store does not know. */
  lemma ProposedVersionPasses(st: MetaState, filename: string)
    requires Consistent(st)
    ensures VersionCheck(st.versionMap, filename, Read(st, filename).0 + 1).None?
  {
  }

  /** A successful upload records the proposed version (read version + 1) and the file's
      hash list; a failed one leaves the store as it was. */
  lemma UploadRecords(st: MetaState, metaShards: int, clientShards: int, filename: string,
                      blockarr: seq<Bytes>, hashlist: seq<Fingerprint>, present: (int, Fingerprint) -> bool)
    requires Consistent(st) && |hashlist| == |blockarr|
    ensures var r := UploadOutcome(st, metaShards, clientShards, filename, blockarr, hashlist, present);
            && Consistent(r.0)
            && (r.1.None? ==> (Read(r.0, filename) == (Read(st, filename).0 + 1, hashlist)
                               && r.0.lastApplied == st.lastApplied + 1))
            && (r.1.Some? ==> r.0 == st)
  {
    var proposed := Read(st, filename).0 + 1;
    var first := Modify(st, metaShards, filename, proposed, hashlist, present);
    if first.1.None? {
      ModifyThenRead(st, metaShards, filename, proposed, hashlist, present, filename);
    } else if first.1.value.ErrorResponse? && !first.1.value.kind.FileNotFound? {
      var e := first.1.value;
      var stored := if e.kind.MissingBlocks? then StoreMissing(e.kind.missingBlocks, hashlist, blockarr, clientShards) else ([], None);
      if stored.1.None? {
        var second := Modify(st, metaShards, filename, proposed, hashlist, WithStored(present, stored.0));
        if second.1.None? {
          ModifyThenRead(st, metaShards, filename, proposed, hashlist, WithStored(present, stored.0), filename);
        }
      }
    }
  }

  /** The only ErrorResponse the client's first modify_file can meet is the missing-blocks
      one, and it lists the missing hashes of the file in order. */
  lemma UploadFirstError(st: MetaState, n: int, filename: string, hashlist: seq<Fingerprint>, present: (int, Fingerprint) -> bool)
    requires Consistent(st)
    ensures var first := Modify(st, n, filename, Read(st, filename).0 + 1, hashlist, present);
            first.1.Some? && first.1.value.ErrorResponse? ==>
              first.1.value == ErrorResponse("missing blocks", MissingBlocks(KeepPresent(hashlist, MissingSet(hashlist, n, present))))
  {
    var proposed := Read(st, filename).0 + 1;
    ProposedVersionPasses(st, filename);
    ProbeIsFilter(hashlist, n, present);
    if Probe(hashlist, n, present).Success? {
      ModifyProbeSucceeds(st, n, filename, proposed, hashlist, present);
    } else {
      ProbeRaises(hashlist, n, present);
      ModifyProbeFails(st, n, filename, proposed, hashlist, present);
    }
  }

  /** Each block the upload stores belongs to a hash its shard reported missing, is the
      first local block with that hash, and so hashes to it. */
  lemma UploadStoresFirstLocalBlock(st: MetaState, metaShards: int, clientShards: int, filename: string,
                                    blockarr: seq<Bytes>, hash: Bytes -> Fingerprint, present: (int, Fingerprint) -> bool)
    requires Consistent(st)
    ensures var hashlist := HashesOf(blockarr, hash);
            var calls := UploadOutcome(st, metaShards, clientShards, filename, blockarr, hashlist, present).2;
            forall i :: 0 <= i < |calls| ==>
              && calls[i].hash in hashlist
              && calls[i].block == blockarr[FirstIndex(hashlist, calls[i].hash)]
              && hash(calls[i].block) == calls[i].hash
              && IsMissing(calls[i].hash, metaShards, present)
  {
    var hashlist := HashesOf(blockarr, hash);
    var first := Modify(st, metaShards, filename, Read(st, filename).0 + 1, hashlist, present);
    var calls := UploadOutcome(st, metaShards, clientShards, filename, blockarr, hashlist, present).2;
    if first.1.Some? && first.1.value.ErrorResponse? && first.1.value.kind.MissingBlocks? {
      UploadFirstError(st, metaShards, filename, hashlist, present);
      var missingSet := MissingSet(hashlist, metaShards, present);
      var missing := KeepPresent(hashlist, missingSet);
      KeepPresentShape(hashlist, missingSet);
      StoreMissingCalls(missing, hashlist, blockarr, clientShards);
      assert calls == StoreMissing(missing, hashlist, blockarr, clientShards).0;
      forall i | 0 <= i < |calls|
        ensures calls[i].hash in hashlist
        ensures calls[i].block == blockarr[FirstIndex(hashlist, calls[i].hash)]
        ensures hash(calls[i].block) == calls[i].hash
        ensures IsMissing(calls[i].hash, metaShards, present)
      {
        assert CallFor(calls[i], missing[i], hashlist, blockarr, clientShards);
        assert missing[i] in missing;
      }
    } else {
      assert calls == [];
    }
  }

  /** When every block that was missing has been sent to its shard, no block is missing. */
  lemma NothingMissingAfter(hashlist: seq<Fingerprint>, n: int, present: (int, Fingerprint) -> bool, calls: seq<StoreCall>)
    requires forall h :: h in MissingSet(hashlist, n, present) ==> StoredAt(calls, FindServer(h, n).value, h)
    ensures MissingSet(hashlist, n, WithStored(present, calls)) == {}
  {
    var after := WithStored(present, calls);
    forall h | h in hashlist
      ensures !IsMissing(h, n, after)
    {
      if IsMissing(h, n, present) {
        assert h in MissingSet(hashlist, n, present);
      }
    }
  }

  /** Once every missing block is stored, the retried modify_file succeeds. */
  lemma RetrySucceeds(st: MetaState, n: int, filename: string, blockarr: seq<Bytes>, hashlist: seq<Fingerprint>,
                      present: (int, Fingerprint) -> bool)
    requires Consistent(st) && |hashlist| == |blockarr|
    requires forall i :: 0 <= i < |hashlist| ==> FindServer(hashlist[i], n).Success?
    requires StoreMissing(KeepPresent(hashlist, MissingSet(hashlist, n, present)), hashlist, blockarr, n).1.None?
    ensures var calls := StoreMissing(KeepPresent(hashlist, MissingSet(hashlist, n, present)), hashlist, blockarr, n).0;
            Modify(st, n, filename, Read(st, filename).0 + 1, hashlist, WithStored(present, calls)).1.None?
  {
    var missingSet := MissingSet(hashlist, n, present);
    var missing := KeepPresent(hashlist, missingSet);
    var calls := StoreMissing(missing, hashlist, blockarr, n).0;
    KeepPresentShape(hashlist, missingSet);
    StoreCoversMissing(missing, hashlist, blockarr, n);
    NothingMissingAfter(hashlist, n, present, calls);
    ProbeNothingMissing(hashlist, n, WithStored(present, calls));
    ProposedVersionPasses(st, filename);
  }

  /** When the client and the metadata store agree on the number of block stores and
      every fingerprint is hexadecimal, an upload always succeeds: the version check
      passes, and the retry after storing the missing blocks finds them all. */
  lemma UploadCompletes(st: MetaState, n: int, filename: string,
                        blockarr: seq<Bytes>, hashlist: seq<Fingerprint>, present: (int, Fingerprint) -> bool)
    requires Consistent(st) && |hashlist| == |blockarr|
    requires n != 0 && forall i :: 0 <= i < |hashlist| ==> ParseHex(hashlist[i]).Some?
    ensures UploadOutcome(st, n, n, filename, blockarr, hashlist, present).1.None?
  {
    var first := Modify(st, n, filename, Read(st, filename).0 + 1, hashlist, present);
    if first.1.Some? {
      var missingSet := MissingSet(hashlist, n, present);
      var missing := KeepPresent(hashlist, missingSet);
      assert forall i :: 0 <= i < |hashlist| ==> FindServer(hashlist[i], n).Success?;
      ProbeIsFilter(hashlist, n, present);
      UploadFirstError(st, n, filename, hashlist, present);
      assert first.1.value == ErrorResponse("missing blocks", MissingBlocks(missing));
      KeepPresentShape(hashlist, missingSet);
      StoreMissingSucceeds(missing, hashlist, blockarr, n);
      RetrySucceeds(st, n, filename, blockarr, hashlist, present);
    }
  }

  /** The store loop runs to the end when every missing hash has a shard and is one of
      the file's own hashes. */
  lemma {:induction false} StoreMissingSucceeds(missing: seq<Fingerprint>, hashlist: seq<Fingerprint>, blockarr: seq<Bytes>, n: int)
    requires |hashlist| == |blockarr|
    requires forall h :: h in missing ==> FindServer(h, n).Success? && h in hashlist
    ensures StoreMissing(missing, hashlist, blockarr, n).1.None?
  {
    if missing != [] {
      var init := missing[..|missing| - 1];
      assert forall h :: h in init ==> h in missing;
      StoreMissingSucceeds(init, hashlist, blockarr, n);
      assert missing[|missing| - 1] in missing;
    }
  }

  // ---------------------------------------------------------------------------
  // download

  /** The block download uses for hash h: the first local block with that hash, or the
      block fetched from h's shard. */
  function BlockFor(h: Fingerprint, ohashlist: seq<Fingerprint>, blockarrori: seq<Bytes>, n: int,
                    fetch: (int, Fingerprint) -> Bytes): Result<Bytes, PyError>
    requires |ohashlist| == |blockarrori|
  {
    if h in ohashlist then Success(blockarrori[FirstIndex(ohashlist, h)])
    else match FindServer(h, n)
      case Failure(e) => Failure(e)
      case Success(s) => Success(fetch(s, h))
  }

  /** The assembly loop of download over the remote hash list: one block per entry, or
      the first error findServer raises. */
  function Assemble(nhashlist: seq<Fingerprint>, ohashlist: seq<Fingerprint>, blockarrori: seq<Bytes>, n: int,
                    fetch: (int, Fingerprint) -> Bytes): Result<seq<Bytes>, PyError>
    requires |ohashlist| == |blockarrori|
  {
    if nhashlist == [] then Success([])
    else
      match Assemble(nhashlist[..|nhashlist| - 1], ohashlist, blockarrori, n, fetch)
      case Failure(e) => Failure(e)
      case Success(blocks) =>
        match BlockFor(nhashlist[|nhashlist| - 1], ohashlist, blockarrori, n, fetch)
        case Failure(e) => Failure(e)
        case Success(b) => Success(blocks + [b])
  }

  lemma AssembleSnoc(nh: seq<Fingerprint>, i: nat, oh: seq<Fingerprint>, ob: seq<Bytes>, n: int, fetch: (int, Fingerprint) -> Bytes)
    requires |oh| == |ob| && i < |nh|
    requires Assemble(nh[..i], oh, ob, n, fetch).Success?
    ensures BlockFor(nh[i], oh, ob, n, fetch).Failure? ==>
              Assemble(nh[..i + 1], oh, ob, n, fetch) == Failure(BlockFor(nh[i], oh, ob, n, fetch).error)
    ensures BlockFor(nh[i], oh, ob, n, fetch).Success? ==>
              Assemble(nh[..i + 1], oh, ob, n, fetch)
              == Success(Assemble(nh[..i], oh, ob, n, fetch).value + [BlockFor(nh[i], oh, ob, n, fetch).value])
  {
    var p := nh[..i + 1];
    assert p[..|p| - 1] == nh[..i];
  }

  lemma {:induction false} AssembleSticks(nh: seq<Fingerprint>, k: nat, oh: seq<Fingerprint>, ob: seq<Bytes>, n: int, fetch: (int, Fingerprint) -> Bytes)
    requires |oh| == |ob| && k <= |nh|
    requires Assemble(nh[..k], oh, ob, n, fetch).Failure?
    ensures Assemble(nh, oh, ob, n, fetch) == Assemble(nh[..k], oh, ob, n, fetch)
  {
    if k < |nh| {
      var init := nh[..|nh| - 1];
      assert init[..k] == nh[..k];
      AssembleSticks(init, k, oh, ob, n, fetch);
    } else {
      assert nh[..k] == nh;
    }
  }

  /** Assembly fails exactly when some hash that is not local has no shard. */
  lemma {:induction false} AssembleSucceeds(nh: seq<Fingerprint>, oh: seq<Fingerprint>, ob: seq<Bytes>, n: int, fetch: (int, Fingerprint) -> Bytes)
    requires |oh| == |ob|
    ensures Assemble(nh, oh, ob, n, fetch).Success? <==> forall i :: 0 <= i < |nh| ==> BlockFor(nh[i], oh, ob, n, fetch).Success?
  {
    if nh != [] {
      var init := nh[..|nh| - 1];
      AssembleSucceeds(init, oh, ob, n, fetch);
      if Assemble(init, oh, ob, n, fetch).Failure? {
        var i :| 0 <= i < |init| && BlockFor(init[i], oh, ob, n, fetch).Failure?;
        assert nh[i] == init[i];
      } else {
        assert forall i :: 0 <= i < |init| ==> init[i] == nh[i];
      }
    }
  }

  /** Assembly gives one block per remote hash, in order: the local block at the first
      position with that hash, or the fetched block. */
  lemma {:induction false} AssembleShape(nh: seq<Fingerprint>, oh: seq<Fingerprint>, ob: seq<Bytes>, n: int, fetch: (int, Fingerprint) -> Bytes)
    requires |oh| == |ob|
    requires Assemble(nh, oh, ob, n, fetch).Success?
    ensures |Assemble(nh, oh, ob, n, fetch).value| == |nh|
    ensures forall i :: 0 <= i < |nh| ==>
              BlockFor(nh[i], oh, ob, n, fetch).Success? && Assemble(nh, oh, ob, n, fetch).value[i] == BlockFor(nh[i], oh, ob, n, fetch).value
  {
    if nh != [] {
      var init := nh[..|nh| - 1];
      var prev := Assemble(init, oh, ob, n, fetch);
      var b := BlockFor(nh[|nh| - 1], oh, ob, n, fetch);
      AssembleShape(init, oh, ob, n, fetch);
      var r := Assemble(nh, oh, ob, n, fetch).value;
      assert r == prev.value + [b.value];
      forall i | 0 <= i < |nh|
        ensures BlockFor(nh[i], oh, ob, n, fetch).Success? && r[i] == BlockFor(nh[i], oh, ob, n, fetch).value
      {
        if i < |init| {
          assert nh[i] == init[i];
        }
      }
    }
  }

  /** With local fingerprints that are the local blocks' hashes, and block stores that
      answer get_block(h), for each remote hash h fetched from them, with a block whose
      hash is h, every assembled block hashes to its entry of the remote hash list. */
  lemma AssembleMatchesHashes(nh: seq<Fingerprint>, ob: seq<Bytes>, hash: Bytes -> Fingerprint, n: int,
                              fetch: (int, Fingerprint) -> Bytes)
    requires forall i :: 0 <= i < |nh| && nh[i] !in HashesOf(ob, hash) && FindServer(nh[i], n).Success? ==>
               hash(fetch(FindServer(nh[i], n).value, nh[i])) == nh[i]
    requires Assemble(nh, HashesOf(ob, hash), ob, n, fetch).Success?
    ensures |Assemble(nh, HashesOf(ob, hash), ob, n, fetch).value| == |nh|
    ensures forall i :: 0 <= i < |nh| ==> hash(Assemble(nh, HashesOf(ob, hash), ob, n, fetch).value[i]) == nh[i]
  {
    AssembleShape(nh, HashesOf(ob, hash), ob, n, fetch);
  }

  /** download: nothing is written (and "Not Found" printed) for an empty remote hash
      list; otherwise the blocks are assembled and written one after another, unless
      findServer raises first. The local file, when there is one, is read in 4096-byte
      blocks. */
  function DownloadOutcome(st: MetaState, n: int, filename: string, local: Option<Bytes>,
                           hash: Bytes -> Fingerprint, fetch: (int, Fingerprint) -> Bytes): (Option<PyError>, Option<Bytes>)
    requires Consistent(st)
  {
    var ob := if local.Some? then Chunks(local.value, BlockSize) else [];
    var nh := Read(st, filename).1;
    if nh == [] then (None, None)
    else match Assemble(nh, HashesOf(ob, hash), ob, n, fetch)
      case Failure(e) => (Some(e), None)
      case Success(blocks) => (None, Some(Concat(blocks)))
  }

  /** A file that is unknown to the store, or deleted there, is never written. */
  lemma DownloadEmptyWritesNothing(st: MetaState, n: int, filename: string, local: Option<Bytes>,
                                   hash: Bytes -> Fingerprint, fetch: (int, Fingerprint) -> Bytes)
    requires Consistent(st)
    requires filename !in st.versionMap || st.blockListMap[filename] == []
    ensures DownloadOutcome(st, n, filename, local, hash, fetch) == (None, None)
  {
  }

  /** Downloading a file that is present locally with every block the store lists needs
      no block store at all, and writes the local blocks back in the store's order. */
  lemma DownloadAllLocal(st: MetaState, n: int, filename: string, local: Bytes,
                         hash: Bytes -> Fingerprint, fetch: (int, Fingerprint) -> Bytes)
    requires Consistent(st) && filename in st.versionMap
    requires forall i :: 0 <= i < |st.blockListMap[filename]| ==> st.blockListMap[filename][i] in HashesOf(Chunks(local, BlockSize), hash)
    ensures DownloadOutcome(st, n, filename, Some(local), hash, fetch).0.None?
  {
    var ob := Chunks(local, BlockSize);
    var nh := st.blockListMap[filename];
    AssembleSucceeds(nh, HashesOf(ob, hash), ob, n, fetch);
  }

  // ---------------------------------------------------------------------------
  // The client object

  class SurfStoreClient {
    /** The `B` entry of the client's configuration. */
    const numBlockStores: int
    /** hashlib.sha256(...).hexdigest(); never computed here. */
    const hash: Bytes -> Fingerprint

    constructor(numBlockStores: int, hash: Bytes -> Fingerprint)
      ensures this.numBlockStores == numBlockStores && this.hash == hash
    {
      this.numBlockStores := numBlockStores;
      this.hash := hash;
    }

    /** upload(filepath) with the file's contents (None when it is not a file). */
    method Upload(meta: MetadataStore, filename: string, file: Option<Bytes>, present: (int, Fingerprint) -> bool)
      returns (raised: Option<PyError>, stores: seq<StoreCall>)
      requires meta.Valid()
      modifies meta
      ensures meta.Valid()
      ensures file.None? ==> raised.None? && stores == [] && meta.State() == old(meta.State())
      ensures file.Some? ==>
                var blockarr := Chunks(file.value, BlockSize);
                (meta.State(), raised, stores)
                == UploadOutcome(old(meta.State()), meta.numBlockStores, numBlockStores, filename, blockarr, HashesOf(blockarr, hash), present)
    {
      ghost var st := meta.State();
      if file.None? {
        return None, [];
      }
      var blockarr, hashlist := ReadBlocks(file.value, hash);
      var v, _ := meta.ReadFile(filename);
      stores := [];
      raised := meta.ModifyFile(filename, v + 1, hashlist, present);
      if raised.None? {
        return;
      }
      var e := raised.value;
      if !e.ErrorResponse? {
        return Some(AttributeError), [];
      }
      if ErrorType(e.kind) == 1 || ErrorType(e.kind) == 3 {
        if !e.kind.MissingBlocks? {
          return Some(TypeError), [];
        }
        var mhashlist := e.kind.missingBlocks;
        for i := 0 to |mhashlist|
          invariant StoreMissing(mhashlist[..i], hashlist, blockarr, numBlockStores) == (stores, None)
          invariant meta.State() == st
        {
          StoreMissingSnoc(mhashlist, i, hashlist, blockarr, numBlockStores);
          var h := mhashlist[i];
          var servernum := FindServer(h, numBlockStores);
          if servernum.Failure? {
            StoreMissingSticks(mhashlist, i + 1, hashlist, blockarr, numBlockStores);
            return Some(servernum.error), stores;
          }
          if h !in hashlist {
            StoreMissingSticks(mhashlist, i + 1, hashlist, blockarr, numBlockStores);
            return Some(ValueError), stores;
          }
          stores := stores + [StoreCall(servernum.value, h, blockarr[FirstIndex(hashlist, h)])];
        }
        assert mhashlist[..|mhashlist|] == mhashlist;
      }
      raised := meta.ModifyFile(filename, v + 1, hashlist, WithStored(present, stores));
    }

    /** delete(filename): propose the version read plus one. */
    method Delete(meta: MetadataStore, filename: string) returns (raised: Option<PyError>)
      requires meta.Valid()
      modifies meta
      ensures meta.Valid()
      ensures (meta.State(), raised) == MetaStore.Delete(old(meta.State()), filename, Read(old(meta.State()), filename).0 + 1)
    {
      var v, hashlist := meta.ReadFile(filename);
      raised := meta.DeleteFile(filename, v + 1);
    }

    /** download(filename, location) with the local file's contents (None when there is
        no such file): the exception that escapes, if any, and the bytes written. */
    method Download(meta: MetadataStore, filename: string, local: Option<Bytes>, fetch: (int, Fingerprint) -> Bytes)
      returns (raised: Option<PyError>, written: Option<Bytes>)
      requires meta.Valid()
      ensures (raised, written) == DownloadOutcome(meta.State(), numBlockStores, filename, local, hash, fetch)
    {
      var blockarrori: seq<Bytes> := [];
      var ohashlist: seq<Fingerprint> := [];
      if local.Some? {
        blockarrori, ohashlist := ReadBlocks(local.value, hash);
      }
      var _, nhashlist := meta.ReadFile(filename);
      if nhashlist == [] {
        return None, None;
      }
      var blockresult: seq<Bytes> := [];
      for i := 0 to |nhashlist|
        invariant Assemble(nhashlist[..i], ohashlist, blockarrori, numBlockStores, fetch) == Success(blockresult)
      {
        AssembleSnoc(nhashlist, i, ohashlist, blockarrori, numBlockStores, fetch);
        var h := nhashlist[i];
        if h in ohashlist {
          blockresult := blockresult + [blockarrori[FirstIndex(ohashlist, h)]];
        } else {
          var servernum := FindServer(h, numBlockStores);
          if servernum.Failure? {
            AssembleSticks(nhashlist, i + 1, ohashlist, blockarrori, numBlockStores, fetch);
            return Some(servernum.error), None;
          }
          blockresult := blockresult + [fetch(servernum.value, h)];
        }
      }
      assert nhashlist[..|nhashlist|] == nhashlist;
      var out := WriteBlocks(blockresult);
      raised, written := None, Some(out);
    }
  }
}
