/**
  Vocabulary shared by every part of the SurfStore model: bytes and blocks,
  block fingerprints, the (version, hash list) record kept per file, and
  Java's 32-bit integer arithmetic where the Java code relies on it.
 */
module SurfTypes {

  newtype Byte = x: int | 0 <= x < 256

  /** The contents of a file or of one block. */
  type Bytes = seq<Byte>

  /** A block's fingerprint: the hex rendering of its SHA-256 digest. The digest is
      never computed here; every component receives it as a function value `hash`. */
  type Fingerprint = string

  const MinInt32: int := -0x8000_0000
  const MaxInt32: int := 0x7fff_ffff

  /** A Java `int` (and an XML-RPC `i4`). */
  type Int32 = x: int | MinInt32 <= x <= MaxInt32

  /** Java's `x + 1` on an `int`: the successor, except that MaxInt32 wraps to MinInt32. */
  function Inc32(x: Int32): Int32
  {
    if x == MaxInt32 then MinInt32 else x + 1
  }

  /** The record the Java client and server keep per file name. */
  datatype FileInfo = FileInfo(version: Int32, hashlist: seq<Fingerprint>)

  /** A local, derived, remote or new index: file name to its record. */
  type Index = map<string, FileInfo>

  datatype Option<T> = None | Some(value: T)

  datatype Result<T, E> = Success(value: T) | Failure(error: E)

  /** The bytes of `blocks` written one after another. */
  function Concat(blocks: seq<Bytes>): Bytes
  {
    if blocks == [] then [] else blocks[0] + Concat(blocks[1..])
  }

  lemma {:induction false} ConcatAppend(a: seq<Bytes>, b: seq<Bytes>)
    ensures Concat(a + b) == Concat(a) + Concat(b)
  {
    if a != [] {
      assert (a + b)[1..] == a[1..] + b;
      ConcatAppend(a[1..], b);
    } else {
      assert a + b == b;
    }
  }

  /** The fingerprints of `blocks`, one per block, in order. */
  function HashesOf(blocks: seq<Bytes>, hash: Bytes -> Fingerprint): (hs: seq<Fingerprint>)
    ensures |hs| == |blocks|
    ensures forall i :: 0 <= i < |blocks| ==> hs[i] == hash(blocks[i])
  {
    seq(|blocks|, i requires 0 <= i < |blocks| => hash(blocks[i]))
  }

  /** Python's `s.index(x)` and Java's `indexOf`: the first position holding x. */
  function FirstIndex(s: seq<Fingerprint>, x: Fingerprint): (r: nat)
    requires x in s
    ensures r < |s| && s[r] == x
    ensures forall j :: 0 <= j < r ==> s[j] != x
  {
    if s[0] == x then 0 else 1 + FirstIndex(s[1..], x)
  }

  /** The elements of `l` that are in `keep`, in `l`'s order, duplicates kept. */
  function KeepPresent(l: seq<string>, keep: set<string>): seq<string>
  {
    if l == [] then []
    else KeepPresent(l[..|l| - 1], keep) + (if l[|l| - 1] in keep then [l[|l| - 1]] else [])
  }

  /** A filter keeps all of its input exactly when every element passes, and never
      produces more than it was given or anything that does not pass. */
  lemma {:induction false} KeepPresentShape(l: seq<string>, keep: set<string>)
    ensures |KeepPresent(l, keep)| <= |l|
    ensures |KeepPresent(l, keep)| == |l| <==> (forall i :: 0 <= i < |l| ==> l[i] in keep)
    ensures forall x :: x in KeepPresent(l, keep) <==> x in l && x in keep
  {
    if l != [] {
      var init := l[..|l| - 1];
      KeepPresentShape(init, keep);
      assert l == init + [l[|l| - 1]];
      if |KeepPresent(l, keep)| == |l| {
        assert l[|l| - 1] in keep;
        assert |KeepPresent(init, keep)| == |init|;
        forall i | 0 <= i < |l| ensures l[i] in keep {
          if i < |init| { assert l[i] == init[i]; }
        }
      }
      if forall i :: 0 <= i < |l| ==> l[i] in keep {
        forall i | 0 <= i < |init| ensures init[i] in keep {
          assert init[i] == l[i];
        }
      }
    }
  }

  /** A filter only looks at the list's own elements: two keep-sets that agree on them
      keep the same elements. */
  lemma {:induction false} KeepPresentAgree(l: seq<string>, a: set<string>, b: set<string>)
    requires forall i :: 0 <= i < |l| ==> (l[i] in a <==> l[i] in b)
    ensures KeepPresent(l, a) == KeepPresent(l, b)
  {
    if l != [] {
      KeepPresentAgree(l[..|l| - 1], a, b);
    }
  }

  /** `order` lists every element of `keys` exactly once (the iteration order of a hash table). */
  ghost predicate IsEnumeration(order: seq<string>, keys: set<string>)
  {
    && (forall i, j :: 0 <= i < j < |order| ==> order[i] != order[j])
    && (forall k :: k in keys <==> k in order)
  }

  /** Everything an enumeration lists is one of the keys. */
  lemma EnumerationMembers(order: seq<string>, keys: set<string>)
    requires IsEnumeration(order, keys)
    ensures forall i :: 0 <= i < |order| ==> order[i] in keys
  {
    forall i | 0 <= i < |order|
      ensures order[i] in keys
    {
      assert order[i] in order;
    }
  }
}
