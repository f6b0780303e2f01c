/**
  The Python SurfStore metadata store: file name to version (`versionMap`) and
  to block list (`blockListMap`), a counter of applied modifications
  (`lastApplied`), and the sharding rule that says which block store holds a
  block. Failures are Python exceptions; the model returns them as values.
 */
module MetaStore {
  import opened SurfTypes

  // ---------------------------------------------------------------------------
  // Exceptions

  /** The payload an ErrorResponse carries, one per `error_type` (0 to 3). */
  datatype ErrorKind =
    | Unclassified
    | MissingBlocks(missingBlocks: seq<Fingerprint>)
    | WrongVersion(currentVersion: int)
    | FileNotFound

  function ErrorType(kind: ErrorKind): (t: int)
    ensures 0 <= t <= 3
    ensures t == 1 <==> kind.MissingBlocks?
    ensures t == 2 <==> kind.WrongVersion?
    ensures t == 3 <==> kind.FileNotFound?
  {
    match kind
    case Unclassified => 0
    case MissingBlocks(_) => 1
    case WrongVersion(_) => 2
    case FileNotFound => 3
  }

  /** The exceptions the metadata store and the Python client can raise. */
  datatype PyError =
    | ErrorResponse(message: string, kind: ErrorKind)
    | KeyError(key: string)
    | ValueError
    | ZeroDivisionError
    | AttributeError
    | TypeError

  // ---------------------------------------------------------------------------
  // Sharding: findServer(h) = int(h, 16) % numBlockStores

  function HexDigit(c: char): Option<nat>
  {
    if '0' <= c <= '9' then Some(c as int - '0' as int)
    else if 'a' <= c <= 'f' then Some(c as int - 'a' as int + 10)
    else if 'A' <= c <= 'F' then Some(c as int - 'A' as int + 10)
    else None
  }

  predicate AllHex(s: string)
  {
    forall i :: 0 <= i < |s| ==> HexDigit(s[i]).Some?
  }

  function HexDigitsValue(s: string): nat
    requires AllHex(s)
  {
    if s == [] then 0
    else HexDigitsValue(s[..|s| - 1]) * 16 + HexDigit(s[|s| - 1]).value
  }

  /** int(s, 16): an optional sign, then one or more hexadecimal digits; otherwise
      ValueError (None). */
  function ParseHex(s: string): (r: Option<int>)
    ensures s != [] && AllHex(s) ==> r == Some(HexDigitsValue(s))
    ensures s == [] ==> r.None?
  {
    var negative := |s| > 0 && s[0] == '-';
    var signed := |s| > 0 && (s[0] == '-' || s[0] == '+');
    var digits := if signed then s[1..] else s;
    if digits == [] || !AllHex(digits) then None
    else if negative then Some(0 - HexDigitsValue(digits))
    else Some(HexDigitsValue(digits))
  }

  /** Python's `a // n`: the quotient rounded towards minus infinity. */
  function FloorDiv(a: int, n: int): int
    requires n != 0
  {
    if n > 0 || a % n == 0 then a / n else a / n - 1
  }

  /** Python's `a % n`: the remainder takes the sign of the divisor, and with the floor
      quotient it rebuilds `a` (Python's divmod identity). */
  function FloorMod(a: int, n: int): (r: int)
    requires n != 0
    ensures n > 0 ==> 0 <= r < n
    ensures n < 0 ==> n < r <= 0
    ensures FloorDiv(a, n) * n + r == a
  {
    if n > 0 then a % n
    else
      var e := a % n;
      assert (a / n - 1) * n == a / n * n - n;
      if e == 0 then 0 else e + n
  }

  /** findServer(h): the index of the block store that holds the block with fingerprint h.
      A fingerprint that is not hexadecimal raises ValueError (int() runs first); zero
      block stores raise ZeroDivisionError. */
  function FindServer(h: Fingerprint, numBlockStores: int): (r: Result<int, PyError>)
    ensures r.Success? <==> ParseHex(h).Some? && numBlockStores != 0
    ensures ParseHex(h).None? ==> r == Failure(ValueError)
    ensures ParseHex(h).Some? && numBlockStores == 0 ==> r == Failure(ZeroDivisionError)
    ensures r.Success? && numBlockStores > 0 ==> 0 <= r.value < numBlockStores
    ensures r.Success? && numBlockStores < 0 ==> numBlockStores < r.value <= 0
    ensures r.Success? ==> FloorDiv(ParseHex(h).value, numBlockStores) * numBlockStores + r.value == ParseHex(h).value
  {
    match ParseHex(h)
    case None => Failure(ValueError)
    case Some(v) => if numBlockStores == 0 then Failure(ZeroDivisionError) else Success(FloorMod(v, numBlockStores))
  }

  // ---------------------------------------------------------------------------
  // The store's state and its operations as functions

  datatype MetaState = MetaState(versionMap: map<string, int>, blockListMap: map<string, seq<Fingerprint>>, lastApplied: int)

  /** Both maps know the same file names. */
  predicate Consistent(st: MetaState)
  {
    st.versionMap.Keys == st.blockListMap.Keys
  }

  /** The version check of modify_file: skipped for version 1; otherwise the stored
      version is looked up (KeyError for an unknown name) and must be one less. */
  function VersionCheck(versionMap: map<string, int>, filename: string, version: int): (r: Option<PyError>)
    ensures r.None? <==> version == 1 || (filename in versionMap && version == versionMap[filename] + 1)
  {
    if version == 1 then None
    else if filename !in versionMap then Some(KeyError(filename))
    else if version != versionMap[filename] + 1 then
      Some(ErrorResponse("wrong version error", WrongVersion(versionMap[filename])))
    else None
  }

  /** A block the block stores do not hold: its shard is known and the shard's has_block
      answers false. */
  predicate IsMissing(h: Fingerprint, numBlockStores: int, present: (int, Fingerprint) -> bool)
  {
    FindServer(h, numBlockStores).Success? && !present(FindServer(h, numBlockStores).value, h)
  }

  /** The probe loop of modify_file: the hashes whose shard does not have them, in list
      order, or the first error findServer raises. `present(s, h)` is block store s's
      has_block(h). */
  function Probe(hashlist: seq<Fingerprint>, numBlockStores: int, present: (int, Fingerprint) -> bool): Result<seq<Fingerprint>, PyError>
  {
    if hashlist == [] then Success([])
    else
      var last := hashlist[|hashlist| - 1];
      match Probe(hashlist[..|hashlist| - 1], numBlockStores, present)
      case Failure(e) => Failure(e)
      case Success(missing) =>
        match FindServer(last, numBlockStores)
        case Failure(e) => Failure(e)
        case Success(s) => Success(missing + if present(s, last) then [] else [last])
  }

  /** One more hash on a probed prefix that succeeded. */
  lemma ProbeSnoc(hashlist: seq<Fingerprint>, i: nat, numBlockStores: int, present: (int, Fingerprint) -> bool)
    requires i < |hashlist| && Probe(hashlist[..i], numBlockStores, present).Success?
    ensures FindServer(hashlist[i], numBlockStores).Failure? ==>
              Probe(hashlist[..i + 1], numBlockStores, present) == Failure(FindServer(hashlist[i], numBlockStores).error)
    ensures FindServer(hashlist[i], numBlockStores).Success? ==>
              Probe(hashlist[..i + 1], numBlockStores, present)
              == Success(Probe(hashlist[..i], numBlockStores, present).value
                         + if present(FindServer(hashlist[i], numBlockStores).value, hashlist[i]) then [] else [hashlist[i]])
  {
    var p := hashlist[..i + 1];
    assert p[..|p| - 1] == hashlist[..i];
  }

  /** The missing blocks among `hashlist`. */
  function MissingSet(hashlist: seq<Fingerprint>, numBlockStores: int, present: (int, Fingerprint) -> bool): set<Fingerprint>
  {
    set h | h in hashlist && IsMissing(h, numBlockStores, present)
  }

  /** The probe succeeds exactly when every hash has a shard. */
  lemma {:induction false} ProbeSucceeds(hashlist: seq<Fingerprint>, numBlockStores: int, present: (int, Fingerprint) -> bool)
    ensures Probe(hashlist, numBlockStores, present).Success?
        <==> forall i :: 0 <= i < |hashlist| ==> FindServer(hashlist[i], numBlockStores).Success?
  {
    if hashlist != [] {
      var init := hashlist[..|hashlist| - 1];
      var last := hashlist[|hashlist| - 1];
      ProbeSucceeds(init, numBlockStores, present);
      assert forall i :: 0 <= i < |init| ==> init[i] == hashlist[i];
      assert (forall i :: 0 <= i < |hashlist| ==> FindServer(hashlist[i], numBlockStores).Success?)
         <==> (forall i :: 0 <= i < |init| ==> FindServer(init[i], numBlockStores).Success?)
              && FindServer(last, numBlockStores).Success?;
    }
  }

  /** A successful probe lists exactly the missing hashes, in hash-list order, duplicates kept. */
  lemma {:induction false} ProbeFilters(hashlist: seq<Fingerprint>, numBlockStores: int, present: (int, Fingerprint) -> bool)
    requires Probe(hashlist, numBlockStores, present).Success?
    ensures Probe(hashlist, numBlockStores, present).value
         == KeepPresent(hashlist, MissingSet(hashlist, numBlockStores, present))
  {
    if hashlist != [] {
      var init := hashlist[..|hashlist| - 1];
      var last := hashlist[|hashlist| - 1];
      ProbeFilters(init, numBlockStores, present);
      var mi := MissingSet(init, numBlockStores, present);
      var ms := MissingSet(hashlist, numBlockStores, present);
      assert forall i :: 0 <= i < |init| ==> (init[i] in mi <==> init[i] in ms) by {
        assert forall i :: 0 <= i < |init| ==> init[i] == hashlist[i] && init[i] in init && init[i] in hashlist;
      }
      KeepPresentAgree(init, mi, ms);
      assert last in hashlist;
      assert last in ms <==> IsMissing(last, numBlockStores, present);
    }
  }

  /** The probe succeeds exactly when every hash has a shard, and then lists exactly the
      missing hashes, in hash-list order, duplicates kept. */
  lemma ProbeIsFilter(hashlist: seq<Fingerprint>, numBlockStores: int, present: (int, Fingerprint) -> bool)
    ensures Probe(hashlist, numBlockStores, present).Success?
        <==> forall i :: 0 <= i < |hashlist| ==> FindServer(hashlist[i], numBlockStores).Success?
    ensures Probe(hashlist, numBlockStores, present).Success? ==>
              Probe(hashlist, numBlockStores, present).value
              == KeepPresent(hashlist, MissingSet(hashlist, numBlockStores, present))
  {
    ProbeSucceeds(hashlist, numBlockStores, present);
    if Probe(hashlist, numBlockStores, present).Success? {
      ProbeFilters(hashlist, numBlockStores, present);
    }
  }

  /** The probe raises only what findServer raises: ValueError or ZeroDivisionError. */
  lemma {:induction false} ProbeRaises(hashlist: seq<Fingerprint>, numBlockStores: int, present: (int, Fingerprint) -> bool)
    ensures Probe(hashlist, numBlockStores, present).Failure? ==>
              Probe(hashlist, numBlockStores, present).error in {ValueError, ZeroDivisionError}
  {
    if hashlist != [] {
      ProbeRaises(hashlist[..|hashlist| - 1], numBlockStores, present);
    }
  }

  /** Probing a list none of whose blocks is missing finds nothing missing. */
  lemma ProbeNothingMissing(hashlist: seq<Fingerprint>, numBlockStores: int, present: (int, Fingerprint) -> bool)
    requires forall i :: 0 <= i < |hashlist| ==> FindServer(hashlist[i], numBlockStores).Success?
    requires MissingSet(hashlist, numBlockStores, present) == {}
    ensures Probe(hashlist, numBlockStores, present) == Success([])
  {
    ProbeIsFilter(hashlist, numBlockStores, present);
    KeepPresentShape(hashlist, {});
  }

  /** Once a prefix of the hash list makes the probe fail, the whole list fails the same way. */
  lemma {:induction false} ProbeFailureSticks(hashlist: seq<Fingerprint>, k: nat, numBlockStores: int, present: (int, Fingerprint) -> bool)
    requires k <= |hashlist|
    requires Probe(hashlist[..k], numBlockStores, present).Failure?
    ensures Probe(hashlist, numBlockStores, present) == Probe(hashlist[..k], numBlockStores, present)
  {
    if k < |hashlist| {
      var init := hashlist[..|hashlist| - 1];
      assert init[..k] == hashlist[..k];
      ProbeFailureSticks(init, k, numBlockStores, present);
    } else {
      assert hashlist[..k] == hashlist;
    }
  }

  /** After the version check passes, a probe error is modify_file's error. */
  lemma ModifyProbeFails(st: MetaState, n: int, filename: string, version: int, hashlist: seq<Fingerprint>,
                         present: (int, Fingerprint) -> bool)
    requires VersionCheck(st.versionMap, filename, version).None?
    requires Probe(hashlist, n, present).Failure?
    ensures Modify(st, n, filename, version, hashlist, present) == (st, Some(Probe(hashlist, n, present).error))
  {
  }

  /** After the version check passes, the probe's list decides modify_file's outcome. */
  lemma ModifyProbeSucceeds(st: MetaState, n: int, filename: string, version: int, hashlist: seq<Fingerprint>,
                            present: (int, Fingerprint) -> bool)
    requires VersionCheck(st.versionMap, filename, version).None?
    requires Probe(hashlist, n, present).Success?
    ensures var missing := Probe(hashlist, n, present).value;
            Modify(st, n, filename, version, hashlist, present)
            == if missing != [] then (st, Some(ErrorResponse("missing blocks", MissingBlocks(missing))))
               else (MetaState(st.versionMap[filename := version], st.blockListMap[filename := hashlist], st.lastApplied + 1), None)
  {
  }

  /** modify_file: the state afterwards and the exception raised, if any. Every error
      leaves the state as it was; success records the version and the hash list and
      counts one more applied modification. */
  function Modify(st: MetaState, numBlockStores: int, filename: string, version: int, hashlist: seq<Fingerprint>,
                  present: (int, Fingerprint) -> bool): (r: (MetaState, Option<PyError>))
    ensures r.1.Some? ==> r.0 == st
    ensures r.1.None? <==> VersionCheck(st.versionMap, filename, version).None? && Probe(hashlist, numBlockStores, present) == Success([])
    ensures Consistent(st) ==> Consistent(r.0)
  {
    match VersionCheck(st.versionMap, filename, version)
    case Some(e) => (st, Some(e))
    case None =>
      match Probe(hashlist, numBlockStores, present)
      case Failure(e) => (st, Some(e))
      case Success(missing) =>
        if missing != [] then (st, Some(ErrorResponse("missing blocks", MissingBlocks(missing))))
        else (MetaState(st.versionMap[filename := version], st.blockListMap[filename := hashlist], st.lastApplied + 1), None)
  }

  /** delete_file: FileNotFound for an unknown name, a wrong-version error unless the
      version is one more than the stored one, otherwise a tombstone (the version with
      an empty block list). `lastApplied` is not touched. */
  function Delete(st: MetaState, filename: string, version: int): (r: (MetaState, Option<PyError>))
    ensures r.1.Some? ==> r.0 == st
    ensures r.1.None? <==> filename in st.versionMap && version == st.versionMap[filename] + 1
    ensures Consistent(st) ==> Consistent(r.0)
  {
    if filename !in st.versionMap then (st, Some(ErrorResponse("Not Found", FileNotFound)))
    else if version != st.versionMap[filename] + 1 then
      (st, Some(ErrorResponse("wrong version error", WrongVersion(st.versionMap[filename]))))
    else (MetaState(st.versionMap[filename := version], st.blockListMap[filename := []], st.lastApplied), None)
  }

  /** read_file: the stored version and block list, or (0, []) for an unknown name. */
  function Read(st: MetaState, filename: string): (int, seq<Fingerprint>)
    requires Consistent(st)
  {
    if filename !in st.versionMap then (0, [])
    else (st.versionMap[filename], st.blockListMap[filename])
  }

  // ---------------------------------------------------------------------------
  // Properties of the operations

  /** A version other than 1 for an unknown name fails on the lookup. */
  lemma ModifyUnknownFile(st: MetaState, n: int, filename: string, version: int, hashlist: seq<Fingerprint>,
                          present: (int, Fingerprint) -> bool)
    requires version != 1 && filename !in st.versionMap
    ensures Modify(st, n, filename, version, hashlist, present) == (st, Some(KeyError(filename)))
  {
  }

  /** A version other than 1 that is not the stored version plus one is refused with the
      stored version in the error. */
  lemma ModifyWrongVersion(st: MetaState, n: int, filename: string, version: int, hashlist: seq<Fingerprint>,
                           present: (int, Fingerprint) -> bool)
    requires version != 1 && filename in st.versionMap && version != st.versionMap[filename] + 1
    ensures Modify(st, n, filename, version, hashlist, present)
         == (st, Some(ErrorResponse("wrong version error", WrongVersion(st.versionMap[filename]))))
  {
  }

  /** When the version passes and every hash has a shard, but some block (hashlist[i]) is
      absent, the error lists exactly the absent ones in hash-list order and nothing changes. */
  lemma ModifyMissingBlocks(st: MetaState, n: int, filename: string, version: int, hashlist: seq<Fingerprint>,
                            present: (int, Fingerprint) -> bool, i: nat)
    requires VersionCheck(st.versionMap, filename, version).None?
    requires forall j :: 0 <= j < |hashlist| ==> FindServer(hashlist[j], n).Success?
    requires i < |hashlist| && IsMissing(hashlist[i], n, present)
    ensures Modify(st, n, filename, version, hashlist, present)
         == (st, Some(ErrorResponse("missing blocks", MissingBlocks(KeepPresent(hashlist, MissingSet(hashlist, n, present))))))
  {
    ProbeIsFilter(hashlist, n, present);
    KeepPresentShape(hashlist, MissingSet(hashlist, n, present));
    assert hashlist[i] in MissingSet(hashlist, n, present);
  }

  /** A successful modify_file is read back as written, counts one more applied
      modification, and leaves every other file as it was. */
  lemma ModifyThenRead(st: MetaState, n: int, filename: string, version: int, hashlist: seq<Fingerprint>,
                       present: (int, Fingerprint) -> bool, other: string)
    requires Consistent(st)
    requires Modify(st, n, filename, version, hashlist, present).1.None?
    ensures Read(Modify(st, n, filename, version, hashlist, present).0, filename) == (version, hashlist)
    ensures Modify(st, n, filename, version, hashlist, present).0.lastApplied == st.lastApplied + 1
    ensures other != filename ==> Read(Modify(st, n, filename, version, hashlist, present).0, other) == Read(st, other)
  {
  }

  /** Version 1 skips the check: it is accepted even over a higher stored version, which
      then goes back to 1. */
  lemma ModifyVersionOneResets(st: MetaState, n: int, filename: string, hashlist: seq<Fingerprint>,
                               present: (int, Fingerprint) -> bool)
    requires Consistent(st)
    requires filename in st.versionMap && st.versionMap[filename] > 1
    requires Probe(hashlist, n, present) == Success([])
    ensures Modify(st, n, filename, 1, hashlist, present).1.None?
    ensures Read(Modify(st, n, filename, 1, hashlist, present).0, filename).0 < Read(st, filename).0
  {
  }

  /** A successful delete_file leaves a tombstone: the new version and no blocks. Other
      files, and the applied counter, are untouched. */
  lemma DeleteThenRead(st: MetaState, filename: string, version: int, other: string)
    requires Consistent(st)
    requires Delete(st, filename, version).1.None?
    ensures Read(Delete(st, filename, version).0, filename) == (version, [])
    ensures Delete(st, filename, version).0.lastApplied == st.lastApplied
    ensures other != filename ==> Read(Delete(st, filename, version).0, other) == Read(st, other)
  {
  }

  /** The errors of delete_file: unknown name, or a version that is not the next one. */
  lemma DeleteErrors(st: MetaState, filename: string, version: int)
    ensures filename !in st.versionMap ==> Delete(st, filename, version) == (st, Some(ErrorResponse("Not Found", FileNotFound)))
    ensures filename in st.versionMap && version != st.versionMap[filename] + 1
        ==> Delete(st, filename, version) == (st, Some(ErrorResponse("wrong version error", WrongVersion(st.versionMap[filename]))))
  {
  }

  /** The probe loop of modify_file: ask each hash's shard whether it holds the block,
      collecting the missing ones; `state` records whether any was missing. The first
      findServer error ends the loop. */
  method ProbeShards(hashlist: seq<Fingerprint>, numBlockStores: int, present: (int, Fingerprint) -> bool)
    returns (state: bool, r: Result<seq<Fingerprint>, PyError>)
    ensures r == Probe(hashlist, numBlockStores, present)
    ensures r.Success? ==> (state <==> r.value != [])
  {
    state := false;
    var missingBlocks: seq<Fingerprint> := [];
    for i := 0 to |hashlist|
      invariant Probe(hashlist[..i], numBlockStores, present) == Success(missingBlocks)
      invariant state <==> missingBlocks != []
    {
      var servernum := FindServer(hashlist[i], numBlockStores);
      ProbeSnoc(hashlist, i, numBlockStores, present);
      if servernum.Failure? {
        ProbeFailureSticks(hashlist, i + 1, numBlockStores, present);
        return state, Failure(servernum.error);
      }
      if !present(servernum.value, hashlist[i]) {
        state := true;
        missingBlocks := missingBlocks + [hashlist[i]];
      } else {
        assert missingBlocks + [] == missingBlocks;
      }
    }
    assert hashlist[..|hashlist|] == hashlist;
    r := Success(missingBlocks);
  }

  // ---------------------------------------------------------------------------
  // The service object

  class MetadataStore {
    /** The `B` entry of the configuration. */
    const numBlockStores: int
    var versionMap: map<string, int>
    var blockListMap: map<string, seq<Fingerprint>>
    var lastApplied: int

    function State(): MetaState
      reads this
    {
      MetaState(versionMap, blockListMap, lastApplied)
    }

    ghost predicate Valid()
      reads this
    {
      Consistent(State())
    }

    constructor(numBlockStores: int)
      ensures this.numBlockStores == numBlockStores
      ensures State() == MetaState(map[], map[], -1)
      ensures Valid()
    {
      this.numBlockStores := numBlockStores;
      versionMap := map[];
      blockListMap := map[];
      lastApplied := -1;
    }

    /** exposed_modify_file. `present(s, h)` is block store s's has_block(h). */
    method ModifyFile(filename: string, version: int, hashlist: seq<Fingerprint>, present: (int, Fingerprint) -> bool)
      returns (raised: Option<PyError>)
      modifies this
      ensures (State(), raised) == Modify(old(State()), numBlockStores, filename, version, hashlist, present)
    {
      ghost var st := State();
      if version != 1 {
        if filename !in versionMap {
          return Some(KeyError(filename));
        }
        var sVersion := versionMap[filename];
        if version != sVersion + 1 {
          return Some(ErrorResponse("wrong version error", WrongVersion(sVersion)));
        }
      }
      assert VersionCheck(st.versionMap, filename, version).None?;
      // str(h) is the identity on the strings hashes are modelled as
      var hashlistt: seq<Fingerprint> := [];
      for i := 0 to |hashlist|
        invariant hashlistt == hashlist[..i]
        invariant State() == st
      {
        hashlistt := hashlistt + [hashlist[i]];
      }
      assert hashlistt == hashlist;
      var state, probe := ProbeShards(hashlistt, numBlockStores, present);
      if probe.Failure? {
        ModifyProbeFails(st, numBlockStores, filename, version, hashlist, present);
        return Some(probe.error);
      }
      var missingBlocks := probe.value;
      ModifyProbeSucceeds(st, numBlockStores, filename, version, hashlist, present);
      if missingBlocks != [] {
        return Some(ErrorResponse("missing blocks", MissingBlocks(missingBlocks)));
      }
      if !state {
        versionMap := versionMap[filename := version];
        blockListMap := blockListMap[filename := hashlistt];
        lastApplied := lastApplied + 1;
      }
      raised := None;
    }

    /** exposed_delete_file. */
    method DeleteFile(filename: string, version: int) returns (raised: Option<PyError>)
      modifies this
      ensures (State(), raised) == Delete(old(State()), filename, version)
    {
      if filename !in versionMap {
        return Some(ErrorResponse("Not Found", FileNotFound));
      }
      var sVersion := versionMap[filename];
      if version != sVersion + 1 {
        return Some(ErrorResponse("wrong version error", WrongVersion(sVersion)));
      }
      versionMap := versionMap[filename := version];
      blockListMap := blockListMap[filename := []];
      raised := None;
    }

    /** exposed_read_file. */
    method ReadFile(filename: string) returns (version: int, blockList: seq<Fingerprint>)
      requires Valid()
      ensures (version, blockList) == Read(State(), filename)
      ensures filename !in versionMap ==> version == 0 && blockList == []
      ensures filename in versionMap ==> filename in blockListMap && version == versionMap[filename] && blockList == blockListMap[filename]
    {
      if filename !in versionMap {
        return 0, [];
      }
      version := versionMap[filename];
      blockList := blockListMap[filename];
    }
  }
}
