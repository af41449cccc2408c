/** From the segment bits to the data codewords: choosing the smallest
    version that holds them (`chooseVersion`), the terminator and the pad
    codewords of sections 8.4.8 and 8.4.9 of JIS X 0510:2004
    (`terminateBits`), and the choice of the mask pattern with the lowest
    penalty (`chooseMaskPattern`).
 */
module Codewords {
  import opened Results
  import opened Arith
  import opened BitStreams

  const MinVersion := 1
  const MaxVersion := 40

  /** `QRCode.NUM_MASK_PATTERNS`. */
  const NumMaskPatterns := 8

  /** `Integer.MAX_VALUE`, the starting minimum of the mask search. */
  const IntMax := 0x7FFF_FFFF

  /** The data codewords of each version at the chosen error correction
      level: total codewords minus error correction codewords, as the
      version tables give them. */
  type Capacity = int -> int

  /** The bytes `numInputBits` bits occupy, rounding up. */
  function BytesNeeded(numInputBits: nat): nat
  {
    (numInputBits + 7) / 8
  }

  predicate Fits(capacity: Capacity, version: int, numInputBits: nat)
  {
    capacity(version) >= BytesNeeded(numInputBits)
  }

  /** The loop of `chooseVersion` from version `v` on. Its properties are
      stated apart, in `ChooseVersionFromSpec`, so that a caller does not
      carry them for every version the loop passes. The decreases clause
      names `numInputBits` as well, so that a call starting at a literal
      version is not evaluated through all forty versions. */
  function ChooseVersionFrom(numInputBits: nat, capacity: Capacity, v: int): Result<int>
    requires MinVersion <= v
    decreases MaxVersion - v, numInputBits
  {
    if v > MaxVersion then Err(DataTooBig)
    else if Fits(capacity, v, numInputBits) then Ok(v)
    else ChooseVersionFrom(numInputBits, capacity, v + 1)
  }

  /** The loop stops at the first version from `v` on that fits, and fails
      exactly when none does. */
  lemma {:induction false} ChooseVersionFromSpec(numInputBits: nat, capacity: Capacity, v: int)
    requires MinVersion <= v
    ensures var r := ChooseVersionFrom(numInputBits, capacity, v);
            && (r.Ok? ==> v <= r.value <= MaxVersion && Fits(capacity, r.value, numInputBits))
            && (r.Ok? ==> forall u :: v <= u < r.value ==> !Fits(capacity, u, numInputBits))
            && (r.Err? <==> forall u :: v <= u <= MaxVersion ==> !Fits(capacity, u, numInputBits))
            && (r.Err? ==> r.failure == DataTooBig)
    decreases MaxVersion - v
  {
    if v <= MaxVersion && !Fits(capacity, v, numInputBits) {
      ChooseVersionFromSpec(numInputBits, capacity, v + 1);
    }
  }

  /** `chooseVersion(numInputBits, ecLevel)`: the smallest version of 1..40
      whose data codewords hold the bits; "Data too big" when none does. */
  function ChooseVersion(numInputBits: nat, capacity: Capacity): (r: Result<int>)
    ensures r.Ok? ==> MinVersion <= r.value <= MaxVersion && Fits(capacity, r.value, numInputBits)
    ensures r.Ok? ==> forall u :: MinVersion <= u < r.value ==> !Fits(capacity, u, numInputBits)
    ensures r.Err? <==> forall u :: MinVersion <= u <= MaxVersion ==> !Fits(capacity, u, numInputBits)
    ensures r.Err? ==> r.failure == DataTooBig
  {
    ChooseVersionFromSpec(numInputBits, capacity, MinVersion);
    ChooseVersionFrom(numInputBits, capacity, MinVersion)
  }

  lemma BytesNeededMonotone(a: nat, b: nat)
    requires a <= b
    ensures BytesNeeded(a) <= BytesNeeded(b)
  {
  }

  /** A version that holds the bits bounds the chosen one from above. */
  lemma ChooseVersionFinds(numInputBits: nat, capacity: Capacity, u: int)
    requires MinVersion <= u <= MaxVersion && Fits(capacity, u, numInputBits)
    ensures ChooseVersion(numInputBits, capacity).Ok?
    ensures ChooseVersion(numInputBits, capacity).value <= u
  {
  }

  /** More bits never choose a smaller version, and when they fit at all so
      do fewer bits: the final version of `encode` is at least the
      provisional one. */
  lemma ChooseVersionMonotone(a: nat, b: nat, capacity: Capacity)
    requires a <= b
    ensures ChooseVersion(b, capacity).Ok? ==> ChooseVersion(a, capacity).Ok?
    ensures ChooseVersion(b, capacity).Ok? ==> ChooseVersion(a, capacity).value <= ChooseVersion(b, capacity).value
  {
    BytesNeededMonotone(a, b);
    var rb := ChooseVersion(b, capacity);
    if rb.Ok? {
      assert Fits(capacity, rb.value, a);
    }
  }

  // ---- Termination and padding -------------------------------------------

  function Zeros(n: nat): (r: seq<bool>)
    ensures |r| == n && forall i :: 0 <= i < n ==> !r[i]
  {
    seq(n, _ => false)
  }

  /** The pad codeword at position `k` of the padding: 0xEC, 0x11, 0xEC, ... */
  function PadByte(k: nat): Byte
  {
    if k % 2 == 0 then 0xEC else 0x11
  }

  /** The pad codewords `k .. k + count - 1`. */
  function PadBytes(k: nat, count: nat): (r: seq<Byte>)
    ensures |r| == count
    decreases count
  {
    if count == 0 then [] else PadBytes(k, count - 1) + [PadByte(k + count - 1)]
  }

  /** The terminator: four zeros, or fewer when the capacity is closer. */
  function TerminatorLength(n: nat, capacity: int): (r: nat)
    requires n <= capacity
    ensures r <= 4 && n + r <= capacity
    ensures r == 4 || n + r == capacity
  {
    if capacity - n < 4 then capacity - n else 4
  }

  /** The zeros that complete the last byte of an `m`-bit stream. */
  function AlignmentLength(m: nat): (r: nat)
    ensures r < 8 && (m + r) % 8 == 0
  {
    if m % 8 > 0 then 8 - m % 8 else 0
  }

  /** `terminateBits(numDataBytes, bits)`: up to four terminator zeros, zeros
      to the next byte boundary, then pad codewords up to the capacity of
      `numDataBytes` codewords. A stream longer than the capacity is a
      `WriterException`; the final length check is shown never to fail. */
  function TerminateBits(numDataBytes: int, bits: seq<bool>): (r: Result<seq<bool>>)
    ensures r.Err? <==> |bits| > 8 * numDataBytes
    ensures r.Err? ==> r.failure == BitsExceedCapacity
    ensures r.Ok? ==> |r.value| == 8 * numDataBytes && r.value[..|bits|] == bits
  {
    var capacity := numDataBytes * 8;
    if |bits| > capacity then Err(BitsExceedCapacity)
    else
      var padded := Terminate(numDataBytes, bits);
      TerminatePrefix(numDataBytes, bits);
      if |padded| != capacity then Err(CapacityMismatch)
      else Ok(padded)
  }

  /** The appending steps of `terminateBits` once the stream fits. */
  function Terminate(numDataBytes: int, bits: seq<bool>): (r: seq<bool>)
    requires |bits| <= 8 * numDataBytes
    ensures |r| == 8 * numDataBytes
  {
    var terminated := bits + Zeros(TerminatorLength(|bits|, 8 * numDataBytes));
    var aligned := terminated + Zeros(AlignmentLength(|terminated|));
    var numPaddingBytes := numDataBytes - SizeInBytes(aligned);
    TerminatedLength(|bits|, numDataBytes);
    aligned + BytesToBits(PadBytes(0, numPaddingBytes))
  }

  /** Terminating keeps the input as the front of the stream. */
  lemma TerminatePrefix(numDataBytes: int, bits: seq<bool>)
    requires |bits| <= 8 * numDataBytes
    ensures Terminate(numDataBytes, bits)[..|bits|] == bits
  {
    var zeros1, zeros2, count := TerminateParts(numDataBytes, bits);
    var r := bits + zeros1 + zeros2 + BytesToBits(PadBytes(0, count));
    assert r[..|bits|] == bits;
  }

  /** The lengths `terminateBits` goes through: the aligned stream stays
      within the capacity because the capacity is a whole number of bytes,
      so the padding is never negative and ends exactly at the capacity. */
  lemma TerminatedLength(n: nat, numDataBytes: int)
    requires n <= 8 * numDataBytes
    ensures var terminated := n + TerminatorLength(n, 8 * numDataBytes);
            var aligned := terminated + AlignmentLength(terminated);
            && aligned % 8 == 0 && aligned <= 8 * numDataBytes
            && 0 <= numDataBytes - (aligned + 7) / 8
            && aligned + 8 * (numDataBytes - (aligned + 7) / 8) == 8 * numDataBytes
  {
    var terminated := n + TerminatorLength(n, 8 * numDataBytes);
    var aligned := terminated + AlignmentLength(terminated);
    var k := aligned / 8;
    DivModUnique(aligned, 8, k, 0);
    DivModUnique(aligned + 7, 8, k, 7);
  }

  /** The pieces `terminateBits` appends: terminator zeros, alignment
      zeros and the pad codewords. */
  lemma TerminateParts(numDataBytes: int, bits: seq<bool>) returns (zeros1: seq<bool>, zeros2: seq<bool>, count: nat)
    requires |bits| <= 8 * numDataBytes
    ensures zeros1 == Zeros(TerminatorLength(|bits|, 8 * numDataBytes))
    ensures zeros2 == Zeros(AlignmentLength(|bits| + |zeros1|))
    ensures |bits| + |zeros1| + |zeros2| + 8 * count == 8 * numDataBytes
    ensures Terminate(numDataBytes, bits) == bits + zeros1 + zeros2 + BytesToBits(PadBytes(0, count))
  {
    zeros1 := Zeros(TerminatorLength(|bits|, 8 * numDataBytes));
    var terminated := bits + zeros1;
    zeros2 := Zeros(AlignmentLength(|terminated|));
    var aligned := terminated + zeros2;
    TerminatedLength(|bits|, numDataBytes);
    count := numDataBytes - SizeInBytes(aligned);
    assert Terminate(numDataBytes, bits) == aligned + BytesToBits(PadBytes(0, count));
  }

  lemma ZerosAdd(a: nat, b: nat)
    ensures Zeros(a) + Zeros(b) == Zeros(a + b)
  {
    assert Zeros(a) + Zeros(b) == Zeros(a + b) by {
      assert |Zeros(a) + Zeros(b)| == a + b;
      forall i | 0 <= i < a + b ensures (Zeros(a) + Zeros(b))[i] == Zeros(a + b)[i] {
      }
    }
  }

  /** The stream `terminateBits` is to produce, written directly: the input,
      zeros up to the first byte boundary at or after the terminator, then
      0xEC and 0x11 in turn up to `numDataBytes` codewords. */
  function PaddedStream(numDataBytes: int, bits: seq<bool>): (r: seq<bool>)
    requires |bits| <= 8 * numDataBytes
  {
    var start := PaddingStart(|bits|, 8 * numDataBytes);
    bits + Zeros(start - |bits|) + BytesToBits(PadBytes(0, numDataBytes - start / 8))
  }

  /** The first byte boundary at or after the end of the terminator. */
  function PaddingStart(n: nat, capacity: int): (r: int)
    requires n <= capacity
    ensures n <= r
  {
    (TerminatorEnd(n, capacity) + 7) / 8 * 8
  }

  /** The start of the padding lies on a byte boundary within the capacity. */
  lemma PaddingStartBounds(n: nat, numDataBytes: int)
    requires n <= 8 * numDataBytes
    ensures var start := PaddingStart(n, 8 * numDataBytes);
            && start % 8 == 0 && start <= 8 * numDataBytes
            && TerminatorEnd(n, 8 * numDataBytes) <= start < TerminatorEnd(n, 8 * numDataBytes) + 8
            && start == n + TerminatorLength(n, 8 * numDataBytes) + AlignmentLength(n + TerminatorLength(n, 8 * numDataBytes))
  {
    var e := TerminatorEnd(n, 8 * numDataBytes);
    var k := (e + 7) / 8;
    DivModUnique(k * 8, 8, k, 0);
    TerminatedLength(n, numDataBytes);
    var aligned := e + AlignmentLength(e);
    DivModUnique(aligned, 8, aligned / 8, 0);
    DivModUnique(aligned + 7, 8, aligned / 8, 7);
    DivModUnique(e + 7, 8, aligned / 8, (e + 7) - aligned);
  }

  /** The appending steps produce the padded stream. */
  lemma TerminatePadded(numDataBytes: int, bits: seq<bool>)
    requires |bits| <= 8 * numDataBytes
    ensures Terminate(numDataBytes, bits) == PaddedStream(numDataBytes, bits)
  {
    var zeros1, zeros2, count := TerminateParts(numDataBytes, bits);
    PaddingArithmetic(numDataBytes, |bits|, |zeros1|, |zeros2|, count);
    JoinZeros(bits, |zeros1|, |zeros2|, BytesToBits(PadBytes(0, count)));
  }

  /** The terminator and the alignment zeros end where the padding starts,
      and the pad codewords fill the rest of the capacity. */
  lemma PaddingArithmetic(numDataBytes: int, n: nat, a: nat, b: nat, count: nat)
    requires n <= 8 * numDataBytes
    requires a == TerminatorLength(n, 8 * numDataBytes) && b == AlignmentLength(n + a)
    requires n + a + b + 8 * count == 8 * numDataBytes
    ensures PaddingStart(n, 8 * numDataBytes) == n + a + b
    ensures count == numDataBytes - PaddingStart(n, 8 * numDataBytes) / 8
  {
    PaddingStartBounds(n, numDataBytes);
    DivModUnique(n + a + b, 8, numDataBytes - count, 0);
  }

  lemma JoinZeros(bits: seq<bool>, a: nat, b: nat, pad: seq<bool>)
    ensures bits + Zeros(a) + Zeros(b) + pad == bits + Zeros(a + b) + pad
  {
    ZerosAdd(a, b);
    assert bits + Zeros(a) + Zeros(b) == bits + (Zeros(a) + Zeros(b));
  }

  /** `terminateBits` produces exactly the padded stream whenever the input
      fits, so its final length check never fails. */
  lemma TerminateBitsPadded(numDataBytes: int, bits: seq<bool>)
    requires |bits| <= 8 * numDataBytes
    ensures TerminateBits(numDataBytes, bits) == Ok(PaddedStream(numDataBytes, bits))
  {
    TerminatePadded(numDataBytes, bits);
  }

  /** The layout of the padded stream: the input, zeros up to the start of
      the padding, then pad codewords `k` at bit `start + 8 * k`. */
  lemma PaddedStreamLayout(numDataBytes: int, bits: seq<bool>)
    requires |bits| <= 8 * numDataBytes
    ensures var r := PaddedStream(numDataBytes, bits);
            var start := PaddingStart(|bits|, 8 * numDataBytes);
            && |r| == 8 * numDataBytes && r[..|bits|] == bits
            && (forall i :: |bits| <= i < start ==> !r[i])
            && r[start..] == BytesToBits(PadBytes(0, numDataBytes - start / 8))
  {
    var start := PaddingStart(|bits|, 8 * numDataBytes);
    PaddingStartBounds(|bits|, numDataBytes);
    var zeros := Zeros(start - |bits|);
    var pad := BytesToBits(PadBytes(0, numDataBytes - start / 8));
    var r := bits + zeros + pad;
    assert r[..|bits|] == bits;
    assert r[start..] == pad;
    forall i | |bits| <= i < start ensures !r[i] {
      assert r[i] == zeros[i - |bits|];
    }
  }

  /** Where a terminator of four zeros after `n` bits ends, or the capacity
      when that is closer. */
  function TerminatorEnd(n: nat, capacity: int): int
  {
    if capacity - n < 4 then capacity else n + 4
  }

  // ---- Mask choice ---------------------------------------------------------

  /** The loop of `chooseMaskPattern` from pattern `mask` on, with the best
      penalty and pattern so far; only a strictly lower penalty replaces the
      best one. */
  function ChooseMaskFrom(penalty: int -> int, mask: int, minPenalty: int, best: int): (r: int)
    requires 0 <= mask <= NumMaskPatterns && best < mask
    ensures r == best || mask <= r < NumMaskPatterns
    ensures r != best ==> penalty(r) < minPenalty
    ensures r != best ==> forall m :: mask <= m < NumMaskPatterns ==> penalty(r) <= penalty(m)
    ensures r != best ==> forall m :: mask <= m < r ==> penalty(r) < penalty(m)
    ensures r == best ==> forall m :: mask <= m < NumMaskPatterns ==> penalty(m) >= minPenalty
    decreases NumMaskPatterns - mask
  {
    if mask == NumMaskPatterns then best
    else if penalty(mask) < minPenalty then ChooseMaskFrom(penalty, mask + 1, penalty(mask), mask)
    else ChooseMaskFrom(penalty, mask + 1, minPenalty, best)
  }

  /** `chooseMaskPattern(bits, ecLevel, version, matrix)`, with the penalty of
      the matrix built with each pattern as a parameter: the first pattern
      with the lowest penalty, or -1 when no penalty is below
      `Integer.MAX_VALUE`. */
  function ChooseMaskPattern(penalty: int -> int): (r: int)
    ensures -1 <= r < NumMaskPatterns
    ensures r == -1 <==> forall m :: 0 <= m < NumMaskPatterns ==> penalty(m) >= IntMax
    ensures r != -1 ==> forall m :: 0 <= m < NumMaskPatterns ==> penalty(r) <= penalty(m)
    ensures r != -1 ==> forall m :: 0 <= m < r ==> penalty(r) < penalty(m)
  {
    ChooseMaskFrom(penalty, 0, IntMax, -1)
  }

  /** Penalties that are all below `Integer.MAX_VALUE` always choose a pattern. */
  lemma MaskChosen(penalty: int -> int)
    requires forall m :: 0 <= m < NumMaskPatterns ==> penalty(m) < IntMax
    ensures 0 <= ChooseMaskPattern(penalty) < NumMaskPatterns
  {
    assert penalty(0) < IntMax;
  }
}
