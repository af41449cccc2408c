/** The growable bit array the encoder assembles its stream in (`BitArray`).

    A stream is a `seq<bool>` in the order the bits were appended. Only the
    operations the encoder uses are modelled: appending the low bits of an
    integer most-significant first, reading whole bytes back, and the size in
    bytes rounded up.
 */
module BitStreams {
  import opened Arith

  /** An unsigned 8-bit codeword. Java's signed `byte` only ever reaches the
      stream through `appendBits(b, 8)`, which keeps its low eight bits, so the
      unsigned value is what matters. */
  type Byte = b: int | 0 <= b < 256

  function Pow2(n: nat): (r: nat)
    ensures r >= 1
  {
    if n == 0 then 1 else 2 * Pow2(n - 1)
  }

  /** `appendBits(value, n)`: the low `n` bits of `value`, most significant
      first. For a negative `value` these are the bits of its two's complement,
      which is what Dafny's floor division yields. */
  function AppendBits(value: int, n: nat): (r: seq<bool>)
    ensures |r| == n
    decreases n
  {
    if n == 0 then [] else AppendBits(value / 2, n - 1) + [value % 2 == 1]
  }

  /** The unsigned number a stream denotes when read most significant bit first. */
  function ValueOf(bits: seq<bool>): (r: nat)
    ensures r < Pow2(|bits|)
  {
    if |bits| == 0 then 0
    else 2 * ValueOf(bits[..|bits| - 1]) + (if bits[|bits| - 1] then 1 else 0)
  }

  /** `getSizeInBytes()`: the number of bytes the stream occupies, rounding up. */
  function SizeInBytes(bits: seq<bool>): nat
  {
    (|bits| + 7) / 8
  }

  /** Appending every byte of `bytes` in turn with `appendBits(b, 8)`: bit
      `p` of the stream is bit `p % 8` of byte `p / 8`. */
  function BytesToBits(bytes: seq<Byte>): (r: seq<bool>)
    ensures |r| == 8 * |bytes|
  {
    seq(8 * |bytes|, p requires 0 <= p < 8 * |bytes| => ByteBits(bytes[p / 8])[p % 8])
  }

  /** The bits of a codeword. */
  const ByteWidth: nat := 8

  lemma ByteWidthPow()
    ensures Pow2(ByteWidth) == 256
  {
    assert Pow2(8) == 256;
  }

  /** `appendBits(b, 8)` for one codeword. */
  function ByteBits(b: Byte): (r: seq<bool>)
    ensures |r| == 8
  {
    AppendBits(b, ByteWidth)
  }

  /** `toBytes(bitOffset, out, 0, numBytes)`: `numBytes` consecutive bytes read
      from the stream starting at bit `bitOffset`. */
  function ToBytes(bits: seq<bool>, bitOffset: nat, numBytes: nat): (r: seq<Byte>)
    requires bitOffset + 8 * numBytes <= |bits|
    ensures |r| == numBytes
  {
    seq(numBytes, i requires 0 <= i < numBytes => ValueOf(bits[bitOffset + 8 * i .. bitOffset + 8 * i + 8]) as Byte)
  }

  lemma {:induction false} ValueOfAppendBits(value: int, n: nat)
    ensures ValueOf(AppendBits(value, n)) == value % Pow2(n)
    decreases n
  {
    if n > 0 {
      var prefix := AppendBits(value / 2, n - 1);
      var r := AppendBits(value, n);
      assert r[..|r| - 1] == prefix;
      ValueOfAppendBits(value / 2, n - 1);
      ModOfHalf(value, Pow2(n - 1));
    }
  }

  /** `2 * ((v / 2) % m) + v % 2 == v % (2 * m)` for floor division. */
  lemma ModOfHalf(v: int, m: nat)
    requires m >= 1
    ensures 2 * ((v / 2) % m) + v % 2 == v % (2 * m)
  {
    var q := (v / 2) / m;
    var h := (v / 2) % m;
    assert v / 2 == q * m + h;
    assert v == 2 * (v / 2) + v % 2;
    assert v == q * (2 * m) + (2 * h + v % 2);
    assert 0 <= 2 * h + v % 2 < 2 * m;
    DivModUnique(v, 2 * m, q, 2 * h + v % 2);
  }

  /** The other direction of the round trip: re-appending a stream's value
      with the stream's width reproduces the stream. */
  lemma {:induction false} AppendBitsOfValue(bits: seq<bool>)
    ensures AppendBits(ValueOf(bits), |bits|) == bits
  {
    if |bits| > 0 {
      var init := bits[..|bits| - 1];
      var v := ValueOf(bits);
      var b := if bits[|bits| - 1] then 1 else 0;
      assert v == 2 * ValueOf(init) + b;
      DivModUnique(v, 2, ValueOf(init), b);
      AppendBitsOfValue(init);
      assert bits == init + [bits[|bits| - 1]];
    }
  }

  /** Reading a value back from a field that is wide enough gives the value. */
  lemma ValueOfAppendBitsExact(value: int, n: nat)
    requires 0 <= value < Pow2(n)
    ensures ValueOf(AppendBits(value, n)) == value
  {
    ValueOfAppendBits(value, n);
    DivModUnique(value, Pow2(n), 0, value);
  }

  lemma {:induction false} ValueOfConcat(a: seq<bool>, b: seq<bool>)
    ensures ValueOf(a + b) == ValueOf(a) * Pow2(|b|) + ValueOf(b)
    decreases |b|
  {
    if |b| == 0 {
      assert a + b == a;
    } else {
      var b' := b[..|b| - 1];
      var last := if b[|b| - 1] then 1 else 0;
      var ab := a + b;
      assert ab[..|ab| - 1] == a + b';
      assert ab[|ab| - 1] == b[|b| - 1];
      assert ValueOf(ab) == 2 * ValueOf(a + b') + last;
      ValueOfConcat(a, b');
      Regroup(ValueOf(a), Pow2(|b'|), ValueOf(b'), last);
    }
  }

  /** The step of `ValueOfConcat`: one more low bit doubles the high part's
      weight. */
  lemma Regroup(x: int, p: int, y: int, l: int)
    ensures 2 * (x * p + y) + l == x * (2 * p) + (2 * y + l)
  {
  }

  lemma {:induction false} Pow2Add(a: nat, b: nat)
    ensures Pow2(a + b) == Pow2(a) * Pow2(b)
    decreases b
  {
    if b > 0 {
      Pow2Add(a, b - 1);
    }
  }

  lemma {:induction false} Pow2Monotone(a: nat, b: nat)
    requires a <= b
    ensures Pow2(a) <= Pow2(b)
    decreases b
  {
    if a < b {
      Pow2Monotone(a, b - 1);
    }
  }

  /** Bit `k` of byte `i` of a stream of appended bytes. */
  lemma BytesToBitsAt(bytes: seq<Byte>, i: nat, k: nat)
    requires i < |bytes| && k < 8
    ensures BytesToBits(bytes)[8 * i + k] == ByteBits(bytes[i])[k]
  {
    DivModUnique(8 * i + k, 8, i, k);
  }

  /** Byte `i` of a stream of appended bytes occupies bits `8 * i` to
      `8 * i + 7`. */
  lemma BytesToBitsSlice(bytes: seq<Byte>, i: nat)
    requires i < |bytes|
    ensures BytesToBits(bytes)[8 * i .. 8 * i + 8] == ByteBits(bytes[i])
  {
    forall k | 0 <= k < 8
      ensures BytesToBits(bytes)[8 * i .. 8 * i + 8][k] == ByteBits(bytes[i])[k]
    {
      BytesToBitsAt(bytes, i, k);
    }
  }

  /** Round trip: reading back the bytes that were appended gives the bytes. */
  lemma BytesRoundTrip(bytes: seq<Byte>)
    ensures ToBytes(BytesToBits(bytes), 0, |bytes|) == bytes
  {
    var bits := BytesToBits(bytes);
    forall i | 0 <= i < |bytes|
      ensures ToBytes(bits, 0, |bytes|)[i] == bytes[i]
    {
      BytesToBitsSlice(bytes, i);
      ValueOfAppendBitsExact(bytes[i], 8);
    }
  }

  lemma BytesToBitsSnoc(s: seq<Byte>, x: Byte)
    ensures BytesToBits(s + [x]) == BytesToBits(s) + ByteBits(x)
  {
    var t := s + [x];
    forall p | 0 <= p < 8 * |t|
      ensures BytesToBits(t)[p] == (BytesToBits(s) + ByteBits(x))[p]
    {
      if p < 8 * |s| {
        DivModUnique(p, 8, p / 8, p % 8);
      } else {
        DivModUnique(p, 8, |s|, p - 8 * |s|);
      }
    }
  }

  /** Reading `n + 1` bytes is reading `n` bytes and then the last one. */
  lemma ToBytesSnoc(bits: seq<bool>, n: nat)
    requires |bits| == 8 * (n + 1)
    ensures ToBytes(bits, 0, n + 1) == ToBytes(bits[..8 * n], 0, n) + [ToBytes(bits, 0, n + 1)[n]]
    ensures ToBytes(bits, 0, n + 1)[n] == ValueOf(bits[8 * n..])
  {
    var init := bits[..8 * n];
    var bytes := ToBytes(bits, 0, n + 1);
    forall j | 0 <= j < n
      ensures bytes[j] == ToBytes(init, 0, n)[j]
    {
      assert init[8 * j .. 8 * j + 8] == bits[8 * j .. 8 * j + 8];
    }
    assert bits[8 * n .. 8 * n + 8] == bits[8 * n..];
  }

  /** Round trip the other way: a byte-aligned stream is the concatenation of
      the bytes read from it. */
  lemma {:induction false} BitsRoundTrip(bits: seq<bool>)
    requires |bits| % 8 == 0
    ensures BytesToBits(ToBytes(bits, 0, |bits| / 8)) == bits
    decreases |bits|
  {
    if |bits| > 0 {
      var n := |bits| / 8 - 1;
      var init, last := bits[..8 * n], bits[8 * n..];
      assert bits == init + last;
      BitsRoundTrip(init);
      BitsRoundTripStep(init, last);
    }
  }

  /** The step of `BitsRoundTrip`: one more byte at the end. */
  lemma BitsRoundTripStep(init: seq<bool>, last: seq<bool>)
    requires |init| % 8 == 0 && |last| == 8
    requires BytesToBits(ToBytes(init, 0, |init| / 8)) == init
    ensures BytesToBits(ToBytes(init + last, 0, |init| / 8 + 1)) == init + last
  {
    var n := |init| / 8;
    var bits := init + last;
    assert bits[..8 * n] == init && bits[8 * n..] == last;
    ToBytesSnoc(bits, n);
    var x := ToBytes(bits, 0, n + 1)[n];
    AppendBitsOfValue(last);
    BytesToBitsSnoc(ToBytes(init, 0, n), x);
  }
}
