/** The split of the data codewords into Reed-Solomon blocks
    (`getNumDataBytesAndNumECBytesForBlockID`, after Table 9 of JIS X
    0510:2004) and the interleaving of their data and error correction
    codewords (`interleaveWithECBytes`, section 8.6 of the same standard).
 */
module Blocks {
  import opened Results
  import opened Arith
  import opened BitStreams

  // ---- Block sizes ---------------------------------------------------------

  /** The data and error correction codeword counts of one block. */
  datatype BlockSize = BlockSize(numData: int, numEc: int)

  /** `getNumDataBytesAndNumECBytesForBlockID(numTotalBytes, numDataBytes,
      numRSBlocks, blockID, ...)`. The first `numRSBlocks - numTotalBytes %
      numRSBlocks` blocks form group 1 with `numDataBytes / numRSBlocks`
      data codewords; group 2 has one data codeword more; both have the
      same number of error correction codewords. The three sanity checks of
      `getNumDataBytesAndNumECBytesForBlockID` are kept, and the first
      postcondition shows they never fail. */
  function BlockSizes(numTotalBytes: int, numDataBytes: int, numRSBlocks: int, blockId: int): (r: Result<BlockSize>)
    ensures r.Err? <==> blockId >= numRSBlocks || numRSBlocks == 0
    ensures r.Err? ==> r.failure == (if blockId >= numRSBlocks then BlockIdTooLarge else DivisionByZero)
    ensures r.Ok? ==> r.value.numEc == JDiv(numTotalBytes, numRSBlocks) - JDiv(numDataBytes, numRSBlocks)
    ensures r.Ok? ==> r.value.numData == JDiv(numDataBytes, numRSBlocks)
                                         + (if InGroup2(numTotalBytes, numRSBlocks, blockId) then 1 else 0)
  {
    if blockId >= numRSBlocks then Err(BlockIdTooLarge)
    else if numRSBlocks == 0 then Err(DivisionByZero)
    else
      var numRsBlocksInGroup2 := JRem(numTotalBytes, numRSBlocks);
      var numRsBlocksInGroup1 := numRSBlocks - numRsBlocksInGroup2;
      var numTotalBytesInGroup1 := JDiv(numTotalBytes, numRSBlocks);
      var numTotalBytesInGroup2 := numTotalBytesInGroup1 + 1;
      var numDataBytesInGroup1 := JDiv(numDataBytes, numRSBlocks);
      var numDataBytesInGroup2 := numDataBytesInGroup1 + 1;
      var numEcBytesInGroup1 := numTotalBytesInGroup1 - numDataBytesInGroup1;
      var numEcBytesInGroup2 := numTotalBytesInGroup2 - numDataBytesInGroup2;
      GroupTotals(numTotalBytesInGroup1, numRsBlocksInGroup1, numRsBlocksInGroup2);
      if numEcBytesInGroup1 != numEcBytesInGroup2 then Err(EcBytesMismatch)
      else if numRSBlocks != numRsBlocksInGroup1 + numRsBlocksInGroup2 then Err(BlocksMismatch)
      else if numTotalBytes != (numDataBytesInGroup1 + numEcBytesInGroup1) * numRsBlocksInGroup1
                             + (numDataBytesInGroup2 + numEcBytesInGroup2) * numRsBlocksInGroup2
      then Err(TotalBytesMismatch)
      else if blockId < numRsBlocksInGroup1 then Ok(BlockSize(numDataBytesInGroup1, numEcBytesInGroup1))
      else Ok(BlockSize(numDataBytesInGroup2, numEcBytesInGroup2))
  }

  lemma GroupTotals(q: int, g1: int, g2: int)
    ensures q * g1 + (q + 1) * g2 == q * (g1 + g2) + g2
  {
  }

  /** Whether block `blockId` is in group 2, the blocks with one data
      codeword more. */
  predicate InGroup2(numTotalBytes: int, numRSBlocks: int, blockId: int)
    requires numRSBlocks != 0
  {
    blockId >= numRSBlocks - JRem(numTotalBytes, numRSBlocks)
  }

  /** The data codewords of blocks `0 .. m - 1`: the `dataBytesOffset`
      the loop of `interleaveWithECBytes` reaches after `m` blocks. */
  function DataInBlocks(numTotalBytes: int, numDataBytes: int, numRSBlocks: int, m: nat): int
    requires 1 <= numRSBlocks && m <= numRSBlocks
  {
    if m == 0 then 0
    else DataInBlocks(numTotalBytes, numDataBytes, numRSBlocks, m - 1)
         + BlockSizes(numTotalBytes, numDataBytes, numRSBlocks, m - 1).value.numData
  }

  /** All codewords, data and error correction, of blocks `0 .. m - 1`. */
  function TotalInBlocks(numTotalBytes: int, numDataBytes: int, numRSBlocks: int, m: nat): int
    requires 1 <= numRSBlocks && m <= numRSBlocks
  {
    if m == 0 then 0
    else
      var size := BlockSizes(numTotalBytes, numDataBytes, numRSBlocks, m - 1).value;
      TotalInBlocks(numTotalBytes, numDataBytes, numRSBlocks, m - 1) + size.numData + size.numEc
  }

  /** The number of group-2 blocks among blocks `0 .. m - 1`. */
  function Group2Before(numTotalBytes: int, numRSBlocks: int, m: int): int
    requires numRSBlocks != 0
  {
    var first := numRSBlocks - JRem(numTotalBytes, numRSBlocks);
    if m > first then m - first else 0
  }

  lemma {:induction false} BlockSums(numTotalBytes: int, numDataBytes: int, numRSBlocks: int, m: nat)
    requires 1 <= numRSBlocks && m <= numRSBlocks && numTotalBytes >= 0
    ensures DataInBlocks(numTotalBytes, numDataBytes, numRSBlocks, m)
         == m * JDiv(numDataBytes, numRSBlocks) + Group2Before(numTotalBytes, numRSBlocks, m)
    ensures TotalInBlocks(numTotalBytes, numDataBytes, numRSBlocks, m)
         == m * JDiv(numTotalBytes, numRSBlocks) + Group2Before(numTotalBytes, numRSBlocks, m)
  {
    if m > 0 {
      BlockSums(numTotalBytes, numDataBytes, numRSBlocks, m - 1);
      JDivOfNatural(numTotalBytes, numRSBlocks);
      var qd, qt := JDiv(numDataBytes, numRSBlocks), JDiv(numTotalBytes, numRSBlocks);
      var size := BlockSizes(numTotalBytes, numDataBytes, numRSBlocks, m - 1).value;
      var extra := if InGroup2(numTotalBytes, numRSBlocks, m - 1) then 1 else 0;
      assert Group2Before(numTotalBytes, numRSBlocks, m) == Group2Before(numTotalBytes, numRSBlocks, m - 1) + extra;
      assert size.numData == qd + extra;
      assert size.numData + size.numEc == qt + extra;
      MulNext(m - 1, qd);
      MulNext(m - 1, qt);
    }
  }

  /** The blocks always hold `numTotalBytes` codewords between them, and
      their data codewords add up to `numDataBytes` exactly when
      `numDataBytes` and `numTotalBytes` leave the same remainder modulo the
      block count: the offset check of `interleaveWithECBytes` passes iff
      that holds. */
  lemma BlocksCover(numTotalBytes: int, numDataBytes: int, numRSBlocks: int)
    requires 1 <= numRSBlocks && numTotalBytes >= 0
    ensures TotalInBlocks(numTotalBytes, numDataBytes, numRSBlocks, numRSBlocks) == numTotalBytes
    ensures DataInBlocks(numTotalBytes, numDataBytes, numRSBlocks, numRSBlocks) == numDataBytes
        <==> JRem(numDataBytes, numRSBlocks) == JRem(numTotalBytes, numRSBlocks)
  {
    var n := numRSBlocks;
    BlockSums(numTotalBytes, numDataBytes, n, n);
    JDivOfNatural(numTotalBytes, n);
    var rd, rt := JRem(numDataBytes, n), JRem(numTotalBytes, n);
    assert Group2Before(numTotalBytes, n, n) == rt;
    SumOfGroups(numDataBytes, n, JDiv(numDataBytes, n), rd, rt);
    SumOfGroups(numTotalBytes, n, JDiv(numTotalBytes, n), rt, rt);
  }

  /** `n` blocks of `q` plus one more in `g` of them give `v = q * n + r`
      exactly when `g == r`. */
  lemma SumOfGroups(v: int, n: int, q: int, r: int, g: int)
    requires v == q * n + r
    ensures n * q + g == v <==> g == r
  {
  }
}
