/** Kanji mode (section 8.4.5 of JIS X 0510:2004): a Shift_JIS pair in 13
    bits, and the lead-byte test `chooseMode` uses to pick the mode.
 */
module KanjiMode {
  import opened Results
  import opened Arith
  import opened BitStreams

  predicate IsKanjiLead(b: Byte)
  {
    0x81 <= b <= 0x9F || 0xE0 <= b <= 0xEB
  }

  /** Every byte at an even position is a Kanji lead byte. */
  ghost predicate LeadsAreKanji(bytes: seq<Byte>)
  {
    forall i :: 0 <= i < |bytes| && i % 2 == 0 ==> IsKanjiLead(bytes[i])
  }

  function LeadsFrom(bytes: seq<Byte>, i: nat): (r: bool)
    requires i % 2 == 0
    ensures r <==> forall j :: i <= j < |bytes| && j % 2 == 0 ==> IsKanjiLead(bytes[j])
    decreases |bytes| - i
  {
    if i >= |bytes| then true else IsKanjiLead(bytes[i]) && LeadsFrom(bytes, i + 2)
  }

  /** `isOnlyDoubleByteKanji`: the Shift_JIS form exists, has an even length
      and every pair starts with a lead byte of the two Kanji ranges. Only
      the lead bytes are looked at. */
  function IsOnlyDoubleByteKanji(shiftJisBytes: Option<seq<Byte>>): (r: bool)
    ensures r <==> shiftJisBytes.Some? && |shiftJisBytes.value| % 2 == 0 && LeadsAreKanji(shiftJisBytes.value)
  {
    match shiftJisBytes
    case None => false
    case Some(bytes) => |bytes| % 2 == 0 && LeadsFrom(bytes, 0)
  }


  /** The two code ranges of Kanji mode, 0x8140-0x9FFC and 0xE040-0xEBBF. */
  predicate InKanjiRange(code: int)
  {
    0x8140 <= code <= 0x9FFC || 0xE040 <= code <= 0xEBBF
  }

  /** The 13-bit value of a Shift_JIS code: subtract 0x8140 or 0xC140, then
      high byte times 0xC0 plus low byte. */
  function KanjiValue(code: int): (r: int)
    requires InKanjiRange(code)
    ensures 0 <= r < 8192
  {
    var subtracted := if code <= 0x9FFC then code - 0x8140 else code - 0xC140;
    KanjiValueBound(subtracted);
    (subtracted / 256) * 0xC0 + subtracted % 256
  }

  lemma KanjiValueBound(sub: int)
    requires 0 <= sub <= 0x2A7F
    ensures 0 <= (sub / 256) * 0xC0 + sub % 256 < 8192
  {
    var hi, lo := sub / 256, sub % 256;
    assert hi <= 42;
    if hi == 42 {
      assert lo <= 0x7F;
    } else {
      MulLe(hi, 41, 0xC0);
    }
  }

  /** The field width of one Kanji character. */
  const KanjiWidth: nat := 13

  /** Every 13-bit value fits the field. */
  lemma KanjiValueFits(value: int)
    requires 0 <= value < 8192
    ensures value < Pow2(KanjiWidth)
  {
    assert Pow2(13) == 8192;
  }

  /** The code of pair `k`, bytes `2k` and `2k + 1`: `(byte1 << 8) | byte2`. */
  function PairCode(bytes: seq<Byte>, k: nat): int
    requires 2 * k + 1 < |bytes|
  {
    var lead: int := bytes[2 * k];
    lead * 256 + bytes[2 * k + 1]
  }

  /** Every complete pair from pair `k` on is in a Kanji range. */
  ghost predicate KanjiPairsFrom(bytes: seq<Byte>, k: nat)
  {
    forall m :: k <= m && 2 * m + 1 < |bytes| ==> InKanjiRange(PairCode(bytes, m))
  }

  /** Every complete pair is in a Kanji range. */
  ghost predicate KanjiPairs(bytes: seq<Byte>)
  {
    KanjiPairsFrom(bytes, 0)
  }

  lemma KanjiPairsFromStep(bytes: seq<Byte>, k: nat)
    requires 2 * k + 1 < |bytes|
    ensures KanjiPairsFrom(bytes, k) <==> InKanjiRange(PairCode(bytes, k)) && KanjiPairsFrom(bytes, k + 1)
  {
  }

  /** The loop of `appendKanjiBytes` from pair `k` on: 13 bits per pair. A
      pair outside both ranges is a `WriterException`; an odd last byte
      makes `bytes[i + 1]` throw once every pair before it passed. */
  function AppendKanjiFrom(bytes: seq<Byte>, k: nat): (r: Result<seq<bool>>)
    requires 2 * k <= |bytes|
    ensures r.Ok? ==> 2 * |r.value| == 13 * (|bytes| - 2 * k)
    decreases |bytes| - 2 * k
  {
    if 2 * k == |bytes| then Ok([])
    else if 2 * k + 1 == |bytes| then Err(IndexOutOfBounds)
    else
      var code := PairCode(bytes, k);
      if !InKanjiRange(code) then Err(InvalidByteSequence)
      else
        var rest :- AppendKanjiFrom(bytes, k + 1);
        Ok(AppendBits(KanjiValue(code), KanjiWidth) + rest)
  }

  /** The loop succeeds exactly when the length is even and every pair is
      in a Kanji range; an odd length with good pairs fails on the index. */
  lemma {:induction false} AppendKanjiFromSpec(bytes: seq<Byte>, k: nat)
    requires 2 * k <= |bytes|
    ensures AppendKanjiFrom(bytes, k).Ok? <==> |bytes| % 2 == 0 && KanjiPairsFrom(bytes, k)
    ensures AppendKanjiFrom(bytes, k).Err? ==>
              AppendKanjiFrom(bytes, k).failure == InvalidByteSequence || AppendKanjiFrom(bytes, k).failure == IndexOutOfBounds
    ensures AppendKanjiFrom(bytes, k).Err? && |bytes| % 2 == 0 ==> AppendKanjiFrom(bytes, k).failure == InvalidByteSequence
    decreases |bytes| - 2 * k
  {
    if 2 * k + 1 < |bytes| {
      KanjiPairsFromStep(bytes, k);
      AppendKanjiFromSpec(bytes, k + 1);
    }
  }

  /** `appendKanjiBytes` over the Shift_JIS bytes. */
  function AppendKanji(bytes: seq<Byte>): (r: Result<seq<bool>>)
    ensures r.Ok? <==> |bytes| % 2 == 0 && KanjiPairs(bytes)
    ensures r.Err? ==> r.failure == InvalidByteSequence || r.failure == IndexOutOfBounds
    ensures r.Err? && |bytes| % 2 == 0 ==> r.failure == InvalidByteSequence
    ensures r.Ok? ==> 2 * |r.value| == 13 * |bytes|
  {
    AppendKanjiFromSpec(bytes, 0);
    AppendKanjiFrom(bytes, 0)
  }

  /** Kanji decoding as section 8.4.5 of JIS X 0510:2004 describes it:
      split the value by 0xC0 and add 0x8140 or 0xC140 back. */
  function KanjiCode(value: int): (r: int)
    requires 0 <= value < 8192
    ensures 0 <= r < 65536
  {
    var assembled := (value / 0xC0) * 256 + value % 0xC0;
    MulLe(value / 0xC0, 42, 256);
    if assembled < 0x1F00 then assembled + 0x8140 else assembled + 0xC140
  }

  /** Every Shift_JIS pair the Kanji ranges hold, with a trail byte of 0x40
      or more as Shift_JIS has, decodes back to itself. */
  lemma KanjiCodeOfValue(b1: Byte, b2: Byte)
    requires InKanjiRange(b1 * 256 + b2) && b2 >= 0x40
    ensures KanjiCode(KanjiValue(b1 * 256 + b2)) == b1 * 256 + b2
  {
    var code := b1 * 256 + b2;
    var hi := if code <= 0x9FFC then b1 - 0x81 else b1 - 0xC1;
    var lo := b2 - 0x40;
    var sub := if code <= 0x9FFC then code - 0x8140 else code - 0xC140;
    assert sub == hi * 256 + lo;
    DivModUnique(sub, 256, hi, lo);
    var v := hi * 0xC0 + lo;
    assert KanjiValue(code) == v;
    DivModUnique(v, 0xC0, hi, lo);
  }

  /** A proper Shift_JIS Kanji pair: in range, with a trail byte of 0x40
      or more. */
  ghost predicate ShiftJisPair(bytes: seq<Byte>, k: nat)
    requires 2 * k + 1 < |bytes|
  {
    InKanjiRange(PairCode(bytes, k)) && bytes[2 * k + 1] >= 0x40
  }

  /** Every complete pair is a proper Shift_JIS Kanji pair. */
  ghost predicate ShiftJisKanjiPairs(bytes: seq<Byte>)
  {
    forall k :: 0 <= k && 2 * k + 1 < |bytes| ==> ShiftJisPair(bytes, k)
  }

  function DecodeKanji(bits: seq<bool>, n: nat): (r: seq<Byte>)
    requires |bits| == 13 * n
    ensures |r| == 2 * n
    decreases n
  {
    if n == 0 then []
    else
      var code := KanjiCode(ValueOf(bits[..13]));
      [code / 256, code % 256] + DecodeKanji(bits[13..], n - 1)
  }

  /** A 13-bit value reads back from its field. */
  lemma KanjiField(value: int)
    requires 0 <= value < 8192
    ensures |AppendBits(value, KanjiWidth)| == 13 && ValueOf(AppendBits(value, KanjiWidth)) == value
  {
    KanjiValueFits(value);
    ValueOfAppendBitsExact(value, KanjiWidth);
  }

  /** A Kanji pair `k` in front of pairs that encode: its 13-bit field in
      front of their bits. */
  lemma KanjiHead(bytes: seq<Byte>, k: nat)
    requires 2 * k + 1 < |bytes| && InKanjiRange(PairCode(bytes, k)) && AppendKanjiFrom(bytes, k + 1).Ok?
    ensures AppendKanjiFrom(bytes, k)
         == Ok(AppendBits(KanjiValue(PairCode(bytes, k)), KanjiWidth) + AppendKanjiFrom(bytes, k + 1).value)
  {
  }

  /** Decoding a 13-bit field followed by more bits. */
  lemma DecodeKanjiHead(head: seq<bool>, rest: seq<bool>, n: nat)
    requires n >= 1 && |head| == 13 && |rest| == 13 * (n - 1)
    ensures |head + rest| == 13 * n
    ensures DecodeKanji(head + rest, n)
         == [KanjiCode(ValueOf(head)) / 256, KanjiCode(ValueOf(head)) % 256] + DecodeKanji(rest, n - 1)
  {
    assert (head + rest)[..13] == head;
    assert (head + rest)[13..] == rest;
  }

  /** A Shift_JIS Kanji pair comes back from its value. */
  lemma KanjiPairBack(bytes: seq<Byte>, k: nat)
    requires 2 * k + 1 < |bytes| && ShiftJisPair(bytes, k)
    ensures KanjiCode(KanjiValue(PairCode(bytes, k))) / 256 == bytes[2 * k]
    ensures KanjiCode(KanjiValue(PairCode(bytes, k))) % 256 == bytes[2 * k + 1]
  {
    KanjiCodeOfValue(bytes[2 * k], bytes[2 * k + 1]);
    DivModUnique(PairCode(bytes, k), 256, bytes[2 * k], bytes[2 * k + 1]);
  }

  /** A 13-bit field holding the value of the Shift_JIS Kanji pair `k`, in
      front of bits that decode to the bytes after that pair. */
  lemma KanjiStep(bytes: seq<Byte>, k: nat, n: nat, head: seq<bool>, rest: seq<bool>)
    requires n >= 1 && |bytes| == 2 * (k + n) && ShiftJisPair(bytes, k)
    requires |head| == 13 && ValueOf(head) == KanjiValue(PairCode(bytes, k))
    requires |rest| == 13 * (n - 1) && DecodeKanji(rest, n - 1) == bytes[2 * k + 2..]
    ensures |head + rest| == 13 * n
    ensures DecodeKanji(head + rest, n) == bytes[2 * k..]
  {
    KanjiPairBack(bytes, k);
    DecodeKanjiHead(head, rest, n);
    assert [bytes[2 * k], bytes[2 * k + 1]] + bytes[2 * k + 2..] == bytes[2 * k..];
  }

  /** The `n` pairs from pair `k` on encode, and decode back to themselves. */
  ghost predicate RoundTripsFrom(bytes: seq<Byte>, k: nat, n: nat)
  {
    && |bytes| == 2 * (k + n)
    && AppendKanjiFrom(bytes, k).Ok?
    && DecodeKanji(AppendKanjiFrom(bytes, k).value, n) == bytes[2 * k..]
  }

  /** No pairs left: no bits, and nothing to decode. */
  lemma NoPairsLeft(bytes: seq<Byte>, k: nat)
    requires |bytes| == 2 * k
    ensures RoundTripsFrom(bytes, k, 0)
  {
  }

  /** One more pair in front of pairs that already round-trip. */
  lemma KanjiRoundTripStep(bytes: seq<Byte>, k: nat, n: nat)
    requires n >= 1 && |bytes| == 2 * (k + n) && ShiftJisPair(bytes, k)
    requires RoundTripsFrom(bytes, k + 1, n - 1)
    ensures RoundTripsFrom(bytes, k, n)
  {
    var value := KanjiValue(PairCode(bytes, k));
    KanjiField(value);
    KanjiHead(bytes, k);
    KanjiStep(bytes, k, n, AppendBits(value, KanjiWidth), AppendKanjiFrom(bytes, k + 1).value);
  }

  /** All pairs from the first one on round-trip: the whole sequence does. */
  lemma AllPairs(bytes: seq<Byte>, n: nat)
    requires RoundTripsFrom(bytes, 0, n)
    ensures AppendKanji(bytes).Ok? && DecodeKanji(AppendKanji(bytes).value, |bytes| / 2) == bytes
  {
    assert |bytes| / 2 == n;
    assert bytes[0..] == bytes;
  }

  /** The pairs of a Shift_JIS Kanji sequence of `total` pairs round-trip,
      added one at a time from the last one back to the first. */
  lemma RoundTripsFromStart(bytes: seq<Byte>, total: nat)
    requires |bytes| == 2 * total && ShiftJisKanjiPairs(bytes)
    ensures RoundTripsFrom(bytes, 0, total)
  {
    var p := (j: nat) => j <= total && RoundTripsFrom(bytes, j, total - j);
    NoPairsLeft(bytes, total);
    forall j: nat | j < total && p(j + 1)
      ensures p(j)
    {
      assert ShiftJisPair(bytes, j);
      KanjiRoundTripStep(bytes, j, total - j);
    }
    CountDown(p, total, 0);
  }

  /** Round trip: a Shift_JIS Kanji sequence comes back from its bits. */
  lemma KanjiRoundTrip(bytes: seq<Byte>)
    requires |bytes| % 2 == 0 && ShiftJisKanjiPairs(bytes)
    ensures AppendKanji(bytes).Ok? && DecodeKanji(AppendKanji(bytes).value, |bytes| / 2) == bytes
  {
    RoundTripsFromStart(bytes, |bytes| / 2);
    AllPairs(bytes, |bytes| / 2);
  }

  /** The encoding does not tell every accepted pair apart: a trail byte
      below 0x40 borrows from the lead byte, so 0x8200 and 0x8240 both
      become 0xC0. */
  lemma KanjiValueCollision()
    ensures InKanjiRange(0x8200) && InKanjiRange(0x8240)
    ensures KanjiValue(0x8200) == KanjiValue(0x8240) == 0xC0
  {
  }

  /** `isOnlyDoubleByteKanji` looks at lead bytes only, so KANJI can be
      chosen for bytes that `appendKanjiBytes` then rejects. */
  lemma KanjiChoiceMayFail()
    ensures IsOnlyDoubleByteKanji(Some([0x81, 0x00]))
    ensures AppendKanji([0x81, 0x00]) == Err(InvalidByteSequence)
  {
    assert LeadsAreKanji([0x81, 0x00]) by {
      forall i | 0 <= i < 2 && i % 2 == 0
        ensures IsKanjiLead([0x81, 0x00][i])
      {
        assert i == 0;
      }
    }
    assert PairCode([0x81, 0x00], 0) == 0x8100;
  }
}
