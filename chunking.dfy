/**
  Cutting a file into blocks. Both clients read a file through a loop that
  asks for at most `blockSize` bytes at a time and keeps every non-empty read
  as a block. Reads are modelled as full reads: a request for k bytes with r
  bytes left returns min(k, r) bytes.
 */
module Chunking {
  import opened SurfTypes

  function Min(a: int, b: int): int
  {
    if a <= b then a else b
  }

  /** The blocks a full-reading loop cuts `data` into when it asks for `blockSize`
      bytes at a time: each block holds min(blockSize, bytes left). A size of 0 or
      less yields no blocks at all, whatever the file holds. */
  function Chunks(data: Bytes, blockSize: int): (r: seq<Bytes>)
    ensures blockSize <= 0 || data == [] <==> r == []
    decreases |data|
  {
    if blockSize <= 0 || |data| == 0 then []
    else
      var n := Min(blockSize, |data|);
      [data[..n]] + Chunks(data[n..], blockSize)
  }

  /** With a positive block size, writing the blocks back to back gives the file back. */
  lemma {:induction false} ChunksConcat(data: Bytes, blockSize: int)
    requires blockSize > 0
    ensures Concat(Chunks(data, blockSize)) == data
    decreases |data|
  {
    if |data| > 0 {
      var n := Min(blockSize, |data|);
      ChunksConcat(data[n..], blockSize);
      assert data[..n] + data[n..] == data;
    }
  }

  /** One step of Chunks: the first block, then the blocks of what follows it. */
  lemma ChunksUnfold(data: Bytes, blockSize: int)
    requires blockSize > 0 && data != []
    ensures Chunks(data, blockSize)
         == [data[..Min(blockSize, |data|)]] + Chunks(data[Min(blockSize, |data|)..], blockSize)
  {
  }

  /** Block i > 0 of a file is block i - 1 of what follows its first block. */
  lemma ChunksTail(data: Bytes, blockSize: int, i: nat)
    requires blockSize > 0
    requires 0 < i < |Chunks(data, blockSize)|
    ensures |data| > blockSize
    ensures Chunks(data, blockSize)[i] == Chunks(data[blockSize..], blockSize)[i - 1]
  {
    ChunksUnfold(data, blockSize);
  }

  lemma SliceOfSuffix(s: Bytes, n: nat, a: nat, b: nat)
    requires n <= |s| && a <= b <= |s| - n
    ensures s[n..][a..b] == s[n + a..n + b]
  {
  }

  /** Where block i of a file starts: i * blockSize, written as repeated addition. */
  function BlockStart(i: nat, blockSize: nat): nat
  {
    if i == 0 then 0 else BlockStart(i - 1, blockSize) + blockSize
  }

  lemma {:induction false} BlockStartIsProduct(i: nat, blockSize: nat)
    ensures BlockStart(i, blockSize) == i * blockSize
  {
    if i > 0 {
      BlockStartIsProduct(i - 1, blockSize);
      assert (i - 1) * blockSize + blockSize == i * blockSize;
    }
  }

  /** Block i starts at byte i * blockSize and holds min(blockSize, bytes left from there);
      in particular it is never empty and never longer than blockSize. */
  lemma {:induction false} ChunksAt(data: Bytes, blockSize: int, i: nat)
    requires blockSize > 0
    requires i < |Chunks(data, blockSize)|
    ensures BlockStart(i, blockSize) < |data|
    ensures Chunks(data, blockSize)[i]
         == data[BlockStart(i, blockSize) .. BlockStart(i, blockSize) + Min(blockSize, |data| - BlockStart(i, blockSize))]
    decreases |data|
  {
    if i > 0 {
      ChunksTail(data, blockSize, i);
      var rest := data[blockSize..];
      ChunksAt(rest, blockSize, i - 1);
      var off := BlockStart(i - 1, blockSize);
      SliceOfSuffix(data, blockSize, off, off + Min(blockSize, |rest| - off));
      assert BlockStart(i, blockSize) == off + blockSize;
    } else {
      ChunksUnfold(data, blockSize);
    }
  }

  /** Every block is non-empty and at most blockSize bytes long. */
  lemma BlocksBounded(data: Bytes, blockSize: int)
    requires blockSize > 0
    ensures forall i :: 0 <= i < |Chunks(data, blockSize)| ==> 0 < |Chunks(data, blockSize)[i]| <= blockSize
  {
    forall i | 0 <= i < |Chunks(data, blockSize)|
      ensures 0 < |Chunks(data, blockSize)[i]| <= blockSize
    {
      ChunksAt(data, blockSize, i);
    }
  }

  /** The number of blocks is the ceiling of |data| / blockSize: none for an empty file,
      otherwise the least k with k * blockSize >= |data|. */
  lemma {:induction false} ChunksCount(data: Bytes, blockSize: int)
    requires blockSize > 0
    ensures data == [] ==> |Chunks(data, blockSize)| == 0
    ensures data != [] ==> (|Chunks(data, blockSize)| - 1) * blockSize < |data| <= |Chunks(data, blockSize)| * blockSize
    decreases |data|
  {
    if |data| > 0 {
      var n := Min(blockSize, |data|);
      var rest := data[n..];
      ChunksCount(rest, blockSize);
      var k := |Chunks(rest, blockSize)|;
      assert |Chunks(data, blockSize)| == k + 1;
      assert (k + 1) * blockSize == k * blockSize + blockSize;
      if rest != [] {
        assert n == blockSize;
        assert (k - 1) * blockSize + blockSize == k * blockSize;
      }
    }
  }

  /** Multiplying by a non-negative factor keeps an inequality. */
  lemma MulLe(a: int, b: int, c: int)
    requires a <= b && c >= 0
    ensures a * c <= b * c
  {
    assert b * c - a * c == (b - a) * c;
  }

  lemma MulSucc(a: int, b: int)
    ensures (a + 1) * b == a * b + b
  {
  }

  /** The quotient is the k with k * b <= m < (k + 1) * b. */
  lemma DivUnique(m: int, b: int, k: int)
    requires b > 0 && k * b <= m < k * b + b
    ensures m / b == k
  {
    var q := m / b;
    assert q * b + m % b == m && 0 <= m % b < b;
    MulSucc(q, b);
    MulSucc(k, b);
    if q < k {
      MulLe(q + 1, k, b);
    } else if q > k {
      MulLe(k + 1, q, b);
    }
  }

  /** The same count as a division: ceil(|data| / blockSize). */
  lemma ChunksCountDiv(data: Bytes, blockSize: int)
    requires blockSize > 0
    ensures |Chunks(data, blockSize)| == (|data| + blockSize - 1) / blockSize
  {
    ChunksCount(data, blockSize);
    var k := |Chunks(data, blockSize)|;
    MulSucc(k - 1, blockSize);
    DivUnique(|data| + blockSize - 1, blockSize, k);
  }

  /** InputStream.read(buffer) under full reads: 0 for an empty buffer, -1 at the end
      of the stream, otherwise as many bytes as fit and are left. */
  function ReadCount(left: int, bufferLength: int): int
  {
    if bufferLength == 0 then 0
    else if left == 0 then -1
    else Min(bufferLength, left)
  }

  /** The blocks of the part of a file from `pos` on: the next block, then the rest. */
  lemma ChunksFrom(data: Bytes, pos: nat, blockSize: int)
    requires blockSize > 0 && pos < |data|
    ensures var n := Min(blockSize, |data| - pos);
            Chunks(data[pos..], blockSize) == [data[pos..pos + n]] + Chunks(data[pos + n..], blockSize)
  {
    var n := Min(blockSize, |data| - pos);
    assert data[pos..][..n] == data[pos..pos + n];
    assert data[pos..][n..] == data[pos + n..];
  }

  /** One round of splitFile's loop keeps the blocks so far followed by the blocks of
      the unread part equal to the blocks of the whole file. */
  lemma SplitStep(data: Bytes, pos: nat, blockSize: int, blocks: seq<Bytes>)
    requires blockSize > 0 && pos < |data|
    requires blocks + Chunks(data[pos..], blockSize) == Chunks(data, blockSize)
    ensures var n := Min(blockSize, |data| - pos);
            (blocks + [data[pos..pos + n]]) + Chunks(data[pos + n..], blockSize) == Chunks(data, blockSize)
  {
    var n := Min(blockSize, |data| - pos);
    ChunksFrom(data, pos, blockSize);
    var block := data[pos..pos + n];
    assert (blocks + [block]) + Chunks(data[pos + n..], blockSize)
        == blocks + ([block] + Chunks(data[pos + n..], blockSize));
  }

  /** The Java client's splitFile: allocate a buffer of min(blockSize, bytes left),
      read into it, keep it while the read returns a positive count. A negative
      buffer size makes the allocation throw, and the exception handler returns the
      (still empty) list. */
  method SplitFile(data: Bytes, blockSize: int) returns (blocks: seq<Bytes>)
    ensures blocks == Chunks(data, blockSize)
  {
    blocks := [];
    var fileSize := |data|;
    var currBlockSize := Min(blockSize, fileSize);
    if currBlockSize < 0 {
      return;
    }
    var pos := 0;
    var bytesRead := ReadCount(fileSize, currBlockSize);
    while bytesRead > 0
      invariant 0 <= pos <= |data| && fileSize == |data| - pos
      invariant currBlockSize == Min(blockSize, fileSize) && currBlockSize >= 0
      invariant bytesRead == ReadCount(fileSize, currBlockSize)
      invariant blocks + Chunks(data[pos..], blockSize) == Chunks(data, blockSize)
      decreases fileSize
    {
      assert blockSize > 0 && pos < |data| && bytesRead == Min(blockSize, |data| - pos);
      SplitStep(data, pos, blockSize, blocks);
      blocks := blocks + [data[pos..pos + bytesRead]];
      pos := pos + bytesRead;
      fileSize := fileSize - bytesRead;
      currBlockSize := Min(blockSize, fileSize);
      bytesRead := ReadCount(fileSize, currBlockSize);
    }
  }

  /** Writing blocks one after another to an output stream. */
  method WriteBlocks(blocks: seq<Bytes>) returns (out: Bytes)
    ensures out == Concat(blocks)
  {
    out := [];
    for i := 0 to |blocks|
      invariant out + Concat(blocks[i..]) == Concat(blocks)
    {
      assert blocks[i..] == [blocks[i]] + blocks[i + 1..];
      assert (out + blocks[i]) + Concat(blocks[i + 1..]) == out + (blocks[i] + Concat(blocks[i + 1..]));
      out := out + blocks[i];
    }
    assert blocks[|blocks|..] == [];
  }
}
