/** `interleaveWithECBytes(bits, numTotalBytes, numDataBytes, numRSBlocks)`:
    the data codewords are cut into blocks, each block gets its error
    correction codewords, and the final message reads the data codewords
    column by column, then the error correction codewords column by column
    (section 8.6 of JIS X 0510:2004).
 */
module Interleaving {
  import opened Results
  import opened Arith
  import opened BitStreams
  import opened Blocks
  import opened ColumnOrder

  /** One block: its data codewords and their error correction codewords. */
  datatype BlockPair = BlockPair(dataBytes: seq<Byte>, ecBytes: seq<Byte>)

  /** `generateECBytes(dataBytes, numEcBytesInBlock)`, the Reed-Solomon
      encoder. Its failures (no data, no error correction codewords, a
      negative array size) are its own results. */
  type EcGenerator = (seq<Byte>, int) -> Result<seq<Byte>>

  /** A generator that yields exactly the requested number of codewords for
      any non-empty data and any positive count, as a Reed-Solomon encoder
      does. */
  ghost predicate GeneratesCount(gen: EcGenerator)
  {
    forall data: seq<Byte>, k: int :: |data| >= 1 && k >= 1 ==> gen(data, k).Ok? && |gen(data, k).value| == k
  }

  /** Bit `i` of the stream; the bits past its end read as zeros, as in the
      backing words of a `BitArray`. */
  function BitAt(bits: seq<bool>, i: int): bool
  {
    0 <= i < |bits| && bits[i]
  }

  /** `bits.toBytes(bitOffset, dataBytes, 0, count)`: `count` bytes from bit
      `bitOffset` on, most significant bit first. */
  function ReadBytes(bits: seq<bool>, bitOffset: int, count: nat): (r: seq<Byte>)
    ensures |r| == count
  {
    assert Pow2(8) == 256;
    seq(count, k requires 0 <= k < count =>
      ValueOf(seq(8, j requires 0 <= j < 8 => BitAt(bits, bitOffset + 8 * k + j))) as Byte)
  }

  /** Within the stream, `ReadBytes` reads the bytes `ToBytes` reads. */
  lemma ReadBytesInside(bits: seq<bool>, bitOffset: nat, count: nat)
    requires bitOffset + 8 * count <= |bits|
    ensures ReadBytes(bits, bitOffset, count) == ToBytes(bits, bitOffset, count)
  {
    forall k | 0 <= k < count
      ensures ReadBytes(bits, bitOffset, count)[k] == ToBytes(bits, bitOffset, count)[k]
    {
      var p := bitOffset + 8 * k;
      assert p + 8 <= |bits| by {
        MulLe(k + 1, count, 8);
      }
      var read := seq(8, j requires 0 <= j < 8 => BitAt(bits, p + j));
      forall j | 0 <= j < 8
        ensures read[j] == bits[p .. p + 8][j]
      {
        assert read[j] == BitAt(bits, p + j);
        assert bits[p .. p + 8][j] == bits[p + j];
      }
      assert read == bits[p .. p + 8];
    }
  }

  /** Block `blockId` as the loop builds it: its data codewords read at the
      running offset and its error correction codewords from the generator. */
  ghost predicate IsBlock(bits: seq<bool>, numTotalBytes: int, numDataBytes: int, numRSBlocks: int,
                          gen: EcGenerator, blockId: int, block: BlockPair)
    requires 0 <= blockId < numRSBlocks
  {
    var size := BlockSizes(numTotalBytes, numDataBytes, numRSBlocks, blockId).value;
    && size.numData >= 0
    && block.dataBytes == ReadBytes(bits, 8 * DataInBlocks(numTotalBytes, numDataBytes, numRSBlocks, blockId), size.numData)
    && gen(block.dataBytes, size.numEc) == Ok(block.ecBytes)
  }

  /** The first loop of `interleaveWithECBytes` from block `i` on. */
  function MakeBlocks(bits: seq<bool>, numTotalBytes: int, numDataBytes: int, numRSBlocks: int,
                      gen: EcGenerator, i: int): (r: Result<seq<BlockPair>>)
    requires 0 <= i
    ensures r.Ok? ==> |r.value| == (if i < numRSBlocks then numRSBlocks - i else 0)
    ensures r.Ok? ==> forall b :: 0 <= b < |r.value| ==>
              IsBlock(bits, numTotalBytes, numDataBytes, numRSBlocks, gen, i + b, r.value[b])
    ensures 1 <= numRSBlocks && 0 <= numDataBytes && GeneratesCount(gen)
            && JDiv(numDataBytes, numRSBlocks) >= 1
            && JDiv(numTotalBytes, numRSBlocks) - JDiv(numDataBytes, numRSBlocks) >= 1
            ==> r.Ok?
    decreases numRSBlocks - i
  {
    if i >= numRSBlocks then Ok([])
    else
      // `BlockSizes` fails only for an index at or past the block count.
      var size := BlockSizes(numTotalBytes, numDataBytes, numRSBlocks, i).value;
      if size.numData < 0 then Err(NegativeArraySize)
      else
        var offset := DataInBlocks(numTotalBytes, numDataBytes, numRSBlocks, i);
        var dataBytes := ReadBytes(bits, 8 * offset, size.numData);
        var ecBytes :- gen(dataBytes, size.numEc);
        var rest :- MakeBlocks(bits, numTotalBytes, numDataBytes, numRSBlocks, gen, i + 1);
        var r := [BlockPair(dataBytes, ecBytes)] + rest;
        assert forall b :: 1 <= b < |r| ==> r[b] == rest[b - 1];
        Ok(r)
  }

  function DataParts(blocks: seq<BlockPair>): (r: seq<seq<Byte>>)
    ensures |r| == |blocks| && forall b :: 0 <= b < |blocks| ==> r[b] == blocks[b].dataBytes
  {
    seq(|blocks|, b requires 0 <= b < |blocks| => blocks[b].dataBytes)
  }

  function EcParts(blocks: seq<BlockPair>): (r: seq<seq<Byte>>)
    ensures |r| == |blocks| && forall b :: 0 <= b < |blocks| ==> r[b] == blocks[b].ecBytes
  {
    seq(|blocks|, b requires 0 <= b < |blocks| => blocks[b].ecBytes)
  }

  /** The sum of the data block lengths: `dataBytesOffset` after the loop. */
  function DataOffset(blocks: seq<BlockPair>): int
  {
    if |blocks| == 0 then 0 else DataOffset(blocks[..|blocks| - 1]) + |blocks[|blocks| - 1].dataBytes|
  }

  /** The codewords of the two emitting loops: data codewords column by
      column up to the longest data block, then error correction codewords
      column by column up to the longest error correction block. */
  function InterleavedBytes(blocks: seq<BlockPair>): seq<Byte>
  {
    var datas, ecs := DataParts(blocks), EcParts(blocks);
    Columns(datas, MaxLength(datas)) + Columns(ecs, MaxLength(ecs))
  }

  /** `interleaveWithECBytes`: the size check, the list allocation, the
      block loop, the offset check, the two emitting loops and the final
      size check. */
  function InterleaveWithEcBytes(bits: seq<bool>, numTotalBytes: int, numDataBytes: int, numRSBlocks: int,
                                 gen: EcGenerator): (r: Result<seq<bool>>)
    ensures SizeInBytes(bits) != numDataBytes ==> r == Err(DataBytesMismatch)
    ensures SizeInBytes(bits) == numDataBytes && numRSBlocks < 0 ==> r == Err(IllegalArgument)
    ensures r.Ok? ==> |r.value| == 8 * numTotalBytes && numRSBlocks >= 0
  {
    if SizeInBytes(bits) != numDataBytes then Err(DataBytesMismatch)
    // `new ArrayList<>(numRSBlocks)` rejects a negative capacity.
    else if numRSBlocks < 0 then Err(IllegalArgument)
    else
      var blocks :- MakeBlocks(bits, numTotalBytes, numDataBytes, numRSBlocks, gen, 0);
      if numDataBytes != DataOffset(blocks) then Err(DataBytesMismatch)
      else
        var result := BytesToBits(InterleavedBytes(blocks));
        SizeOfByteStream(InterleavedBytes(blocks));
        if numTotalBytes != SizeInBytes(result) then Err(InterleavingMismatch)
        else Ok(result)
  }

  /** A stream of whole bytes occupies exactly that many bytes. */
  lemma SizeOfByteStream(bytes: seq<Byte>)
    ensures SizeInBytes(BytesToBits(bytes)) == |bytes|
  {
    DivModUnique(8 * |bytes| + 7, 8, |bytes|, 7);
  }

  /** The arguments `encode` passes: at least one block, a stream of
      exactly `numDataBytes` bytes, an exact generator, and blocks with at
      least one data and one error correction codeword, as every entry of
      the version tables has. */
  ghost predicate TableArguments(bits: seq<bool>, numTotalBytes: int, numDataBytes: int, numRSBlocks: int,
                                 gen: EcGenerator)
  {
    && 1 <= numRSBlocks && 0 <= numTotalBytes && SizeInBytes(bits) == numDataBytes
    && GeneratesCount(gen)
    && JDiv(numDataBytes, numRSBlocks) >= 1
    && JDiv(numTotalBytes, numRSBlocks) - JDiv(numDataBytes, numRSBlocks) >= 1
  }

  lemma {:induction false} DataOffsetPrefix(bits: seq<bool>, numTotalBytes: int, numDataBytes: int, numRSBlocks: int,
                                            gen: EcGenerator, blocks: seq<BlockPair>, m: nat)
    requires 1 <= numRSBlocks && |blocks| == numRSBlocks && m <= numRSBlocks
    requires forall b :: 0 <= b < numRSBlocks ==> IsBlock(bits, numTotalBytes, numDataBytes, numRSBlocks, gen, b, blocks[b])
    ensures DataOffset(blocks[..m]) == DataInBlocks(numTotalBytes, numDataBytes, numRSBlocks, m)
    decreases m
  {
    if m > 0 {
      DataOffsetPrefix(bits, numTotalBytes, numDataBytes, numRSBlocks, gen, blocks, m - 1);
      assert blocks[..m][..m - 1] == blocks[..m - 1];
      assert IsBlock(bits, numTotalBytes, numDataBytes, numRSBlocks, gen, m - 1, blocks[m - 1]);
    }
  }

  /** With the arguments of the version tables the blocks come out in two
      groups: data blocks of `numDataBytes / numRSBlocks` codewords, the
      last `numTotalBytes % numRSBlocks` of them one longer, and error
      correction blocks all of the same length. */
  lemma BlocksShape(bits: seq<bool>, numTotalBytes: int, numDataBytes: int, numRSBlocks: int, gen: EcGenerator)
    requires TableArguments(bits, numTotalBytes, numDataBytes, numRSBlocks, gen)
    ensures MakeBlocks(bits, numTotalBytes, numDataBytes, numRSBlocks, gen, 0).Ok?
    ensures var blocks := MakeBlocks(bits, numTotalBytes, numDataBytes, numRSBlocks, gen, 0).value;
            && |blocks| == numRSBlocks
            && TwoGroups(DataParts(blocks), numDataBytes / numRSBlocks, numRSBlocks - numTotalBytes % numRSBlocks)
            && TwoGroups(EcParts(blocks), numTotalBytes / numRSBlocks - numDataBytes / numRSBlocks, numRSBlocks)
            && DataOffset(blocks) == DataInBlocks(numTotalBytes, numDataBytes, numRSBlocks, numRSBlocks)
  {
    var n := numRSBlocks;
    JDivOfNatural(numDataBytes, n);
    JDivOfNatural(numTotalBytes, n);
    var blocks := MakeBlocks(bits, numTotalBytes, numDataBytes, n, gen, 0).value;
    var k, first := numDataBytes / n, n - numTotalBytes % n;
    var e := numTotalBytes / n - k;
    forall b | 0 <= b < n
      ensures |blocks[b].dataBytes| == (if b < first then k else k + 1)
      ensures |blocks[b].ecBytes| == e
    {
      assert IsBlock(bits, numTotalBytes, numDataBytes, n, gen, b, blocks[b]);
    }
    DataOffsetPrefix(bits, numTotalBytes, numDataBytes, n, gen, blocks, n);
    assert blocks[..n] == blocks;
  }

  /** With the arguments of the version tables, interleaving succeeds
      exactly when `numDataBytes` and `numTotalBytes` leave the same
      remainder modulo the block count: the offset check decides, and the
      final size check never fails. */
  lemma InterleaveAccepts(bits: seq<bool>, numTotalBytes: int, numDataBytes: int, numRSBlocks: int, gen: EcGenerator)
    requires TableArguments(bits, numTotalBytes, numDataBytes, numRSBlocks, gen)
    ensures InterleaveWithEcBytes(bits, numTotalBytes, numDataBytes, numRSBlocks, gen).Ok?
        <==> numDataBytes % numRSBlocks == numTotalBytes % numRSBlocks
    ensures InterleaveWithEcBytes(bits, numTotalBytes, numDataBytes, numRSBlocks, gen).Ok? ==>
              InterleaveWithEcBytes(bits, numTotalBytes, numDataBytes, numRSBlocks, gen).value
              == BytesToBits(InterleavedBytes(MakeBlocks(bits, numTotalBytes, numDataBytes, numRSBlocks, gen, 0).value))
  {
    var n := numRSBlocks;
    BlocksShape(bits, numTotalBytes, numDataBytes, n, gen);
    BlocksCover(numTotalBytes, numDataBytes, n);
    JDivOfNatural(numDataBytes, n);
    JDivOfNatural(numTotalBytes, n);
    var blocks := MakeBlocks(bits, numTotalBytes, numDataBytes, n, gen, 0).value;
    if numDataBytes % n == numTotalBytes % n {
      InterleavedLength(blocks, numTotalBytes, numDataBytes, n);
      SizeOfByteStream(InterleavedBytes(blocks));
    }
  }

  /** Blocks of the two-group shape interleave into `numTotalBytes`
      codewords when their data codewords number `numDataBytes`. */
  lemma InterleavedLength(blocks: seq<BlockPair>, numTotalBytes: nat, numDataBytes: nat, n: nat)
    requires 1 <= n && |blocks| == n && numDataBytes % n == numTotalBytes % n
    requires numTotalBytes / n >= numDataBytes / n
    requires TwoGroups(DataParts(blocks), numDataBytes / n, n - numTotalBytes % n)
    requires TwoGroups(EcParts(blocks), numTotalBytes / n - numDataBytes / n, n)
    ensures |InterleavedBytes(blocks)| == numTotalBytes
  {
    var k, e := numDataBytes / n, numTotalBytes / n - numDataBytes / n;
    ColumnsTwoGroupsLength(DataParts(blocks), k, n - numTotalBytes % n);
    ColumnsTwoGroupsLength(EcParts(blocks), e, n);
    SplitTotal(numTotalBytes, k, e, n);
  }

  lemma SplitTotal(total: nat, k: int, e: int, n: nat)
    requires n >= 1 && k + e == total / n
    ensures k * n + (n - (n - total % n)) + e * n + (n - n) == total
  {
    assert k * n + e * n == (k + e) * n;
  }

  /** Data codeword `j` of block `b` goes to position `j * numRSBlocks + b`
      while every block still has one; the extra codewords of the longer
      blocks follow all of those, in block order. */
  lemma InterleavedDataAt(bits: seq<bool>, numTotalBytes: int, numDataBytes: int, numRSBlocks: int,
                          gen: EcGenerator, j: nat, b: nat)
    requires TableArguments(bits, numTotalBytes, numDataBytes, numRSBlocks, gen)
    requires numDataBytes % numRSBlocks == numTotalBytes % numRSBlocks
    requires b < numRSBlocks
    requires j < numDataBytes / numRSBlocks
          || (j == numDataBytes / numRSBlocks && numRSBlocks - numTotalBytes % numRSBlocks <= b)
    ensures var blocks := MakeBlocks(bits, numTotalBytes, numDataBytes, numRSBlocks, gen, 0).value;
            var p := TwoGroupsPosition(numRSBlocks, numDataBytes / numRSBlocks,
                                       numRSBlocks - numTotalBytes % numRSBlocks, j, b);
            && j < |blocks[b].dataBytes|
            && p < |InterleavedBytes(blocks)|
            && InterleavedBytes(blocks)[p] == blocks[b].dataBytes[j]
  {
    BlocksShape(bits, numTotalBytes, numDataBytes, numRSBlocks, gen);
    var blocks := MakeBlocks(bits, numTotalBytes, numDataBytes, numRSBlocks, gen, 0).value;
    DataPosition(blocks, numTotalBytes, numDataBytes, numRSBlocks, j, b);
  }

  /** Error correction codeword `j` of block `b` goes to position
      `numDataBytes + j * numRSBlocks + b`, after all data codewords. */
  lemma InterleavedEcAt(bits: seq<bool>, numTotalBytes: int, numDataBytes: int, numRSBlocks: int,
                        gen: EcGenerator, j: nat, b: nat)
    requires TableArguments(bits, numTotalBytes, numDataBytes, numRSBlocks, gen)
    requires numDataBytes % numRSBlocks == numTotalBytes % numRSBlocks
    requires b < numRSBlocks && j < numTotalBytes / numRSBlocks - numDataBytes / numRSBlocks
    ensures var blocks := MakeBlocks(bits, numTotalBytes, numDataBytes, numRSBlocks, gen, 0).value;
            && j < |blocks[b].ecBytes|
            && EcSlot(numDataBytes, numRSBlocks, j, b) < |InterleavedBytes(blocks)|
            && InterleavedBytes(blocks)[EcSlot(numDataBytes, numRSBlocks, j, b)] == blocks[b].ecBytes[j]
  {
    BlocksShape(bits, numTotalBytes, numDataBytes, numRSBlocks, gen);
    JDivOfNatural(numDataBytes, numRSBlocks);
    JDivOfNatural(numTotalBytes, numRSBlocks);
    var blocks := MakeBlocks(bits, numTotalBytes, numDataBytes, numRSBlocks, gen, 0).value;
    EcPosition(blocks, numTotalBytes, numDataBytes, numRSBlocks, j, b);
  }

  lemma DataPosition(blocks: seq<BlockPair>, numTotalBytes: nat, numDataBytes: nat, n: nat, j: nat, b: nat)
    requires 1 <= n && |blocks| == n
    requires TwoGroups(DataParts(blocks), numDataBytes / n, n - numTotalBytes % n)
    requires b < n && (j < numDataBytes / n || (j == numDataBytes / n && n - numTotalBytes % n <= b))
    ensures var p := TwoGroupsPosition(n, numDataBytes / n, n - numTotalBytes % n, j, b);
            && j < |blocks[b].dataBytes|
            && p < |InterleavedBytes(blocks)|
            && InterleavedBytes(blocks)[p] == blocks[b].dataBytes[j]
  {
    var datas, ecs := DataParts(blocks), EcParts(blocks);
    ColumnsTwoGroupsAt(datas, numDataBytes / n, n - numTotalBytes % n, j, b);
    var front, back := Columns(datas, MaxLength(datas)), Columns(ecs, MaxLength(ecs));
    assert InterleavedBytes(blocks) == front + back;
  }

  lemma EcPosition(blocks: seq<BlockPair>, numTotalBytes: nat, numDataBytes: nat, n: nat, j: nat, b: nat)
    requires 1 <= n && |blocks| == n && numDataBytes % n == numTotalBytes % n
    requires numTotalBytes / n >= numDataBytes / n
    requires TwoGroups(DataParts(blocks), numDataBytes / n, n - numTotalBytes % n)
    requires TwoGroups(EcParts(blocks), numTotalBytes / n - numDataBytes / n, n)
    requires b < n && j < numTotalBytes / n - numDataBytes / n
    ensures && j < |blocks[b].ecBytes|
            && EcSlot(numDataBytes, n, j, b) < |InterleavedBytes(blocks)|
            && InterleavedBytes(blocks)[EcSlot(numDataBytes, n, j, b)] == blocks[b].ecBytes[j]
  {
    var datas, ecs := DataParts(blocks), EcParts(blocks);
    var e := numTotalBytes / n - numDataBytes / n;
    DataFrontLength(datas, numTotalBytes, numDataBytes, n);
    EcColumnAt(ecs, e, n, j, b);
    var front, back := Columns(datas, MaxLength(datas)), Columns(ecs, MaxLength(ecs));
    ConcatBack(front, back, Slot(n, j, b));
  }

  /** Blocks of equal length: codeword `j` of block `b` sits at slot
      `j * n + b` of their columns. */
  lemma EcColumnAt(ecs: seq<seq<Byte>>, e: nat, n: nat, j: nat, b: nat)
    requires 1 <= n && |ecs| == n && TwoGroups(ecs, e, n) && b < n && j < e
    ensures Slot(n, j, b) < |Columns(ecs, MaxLength(ecs))|
    ensures Columns(ecs, MaxLength(ecs))[Slot(n, j, b)] == ecs[b][j]
  {
    ColumnsTwoGroupsAt(ecs, e, n, j, b);
  }

  /** The data columns hold exactly the data codewords. */
  lemma DataFrontLength(datas: seq<seq<Byte>>, numTotalBytes: nat, numDataBytes: nat, n: nat)
    requires 1 <= n && |datas| == n && numDataBytes % n == numTotalBytes % n
    requires TwoGroups(datas, numDataBytes / n, n - numTotalBytes % n)
    ensures |Columns(datas, MaxLength(datas))| == numDataBytes
  {
    ColumnsTwoGroupsLength(datas, numDataBytes / n, n - numTotalBytes % n);
    DataColumnsLength(numDataBytes, n, numTotalBytes % n);
  }

  /** Position `p` of the second part of a concatenation. */
  lemma ConcatBack(front: seq<Byte>, back: seq<Byte>, p: nat)
    requires p < |back|
    ensures |front| + p < |front + back| && (front + back)[|front| + p] == back[p]
  {
  }

  /** Where error correction codeword `j` of block `b` lands: after all
      `numDataBytes` data codewords, column by column. */
  function EcSlot(numDataBytes: nat, n: nat, j: nat, b: nat): nat
  {
    numDataBytes + Slot(n, j, b)
  }

  lemma DataColumnsLength(numDataBytes: nat, n: nat, rem: int)
    requires n >= 1 && rem == numDataBytes % n
    ensures numDataBytes / n * n + (n - (n - rem)) == numDataBytes
  {
  }
}
