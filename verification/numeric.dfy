/** Numeric mode (section 8.4.2 of JIS X 0510:2004): three digits in 10
    bits, a last two in 7 and a last one in 4.
 */
module NumericMode {
  import opened Arith
  import opened BitStreams
  import opened Charsets

  /** The field widths of a group of three digits, of two left over and of
      one left over. */
  const GroupWidth: nat := 10
  const PairWidth: nat := 7
  const SingleWidth: nat := 4

  /** Bits of numeric mode for `n` characters: 10 per group of three, then
      4 for one and 7 for two left over. */
  function NumericLength(n: nat): nat
  {
    if n >= 3 then 10 + NumericLength(n - 3) else if n == 2 then 7 else if n == 1 then 4 else 0
  }

  /** The closed form: `10 * (n / 3)` plus 0, 4 or 7 for the remainder. */
  lemma {:induction false} NumericLengthClosedForm(n: nat)
    ensures NumericLength(n) == 10 * (n / 3) + (if n % 3 == 1 then 4 else if n % 3 == 2 then 7 else 0)
    decreases n
  {
    if n >= 3 {
      NumericLengthClosedForm(n - 3);
      DivModUnique(n, 3, (n - 3) / 3 + 1, (n - 3) % 3);
    }
  }

  /** `appendNumericBytes(content, bits)`. The characters are not checked:
      `charAt(i) - '0'` is used as it is. */
  function AppendNumeric(s: string): (r: seq<bool>)
    ensures |r| == NumericLength(|s|)
    decreases |s|
  {
    if |s| == 0 then []
    else if |s| > 2 then
      AppendBits(DigitValue(s[0]) * 100 + DigitValue(s[1]) * 10 + DigitValue(s[2]), GroupWidth) + AppendNumeric(s[3..])
    else if |s| > 1 then
      AppendBits(DigitValue(s[0]) * 10 + DigitValue(s[1]), PairWidth)
    else
      AppendBits(DigitValue(s[0]), SingleWidth)
  }

  /** A decoder for numeric mode: every group of bits read back as its
      decimal digits. */
  function DecodeNumeric(bits: seq<bool>, n: nat): (r: string)
    requires |bits| == NumericLength(n)
    ensures |r| == n
    decreases n
  {
    if n == 0 then ""
    else if n > 2 then
      var v := ValueOf(bits[..10]);
      [DigitChar(v / 100 % 10), DigitChar(v / 10 % 10), DigitChar(v % 10)] + DecodeNumeric(bits[10..], n - 3)
    else if n == 2 then
      var v := ValueOf(bits);
      [DigitChar(v / 10 % 10), DigitChar(v % 10)]
    else
      [DigitChar(ValueOf(bits) % 10)]
  }

  /** A value below `2^n` reads back from its `n`-bit field. */
  lemma FitsField(value: int, n: nat, pow: int)
    requires pow == Pow2(n) && 0 <= value < pow
    ensures ValueOf(AppendBits(value, n)) == value
  {
    ValueOfAppendBitsExact(value, n);
  }

  /** Three digits fit the 10-bit group. */
  lemma GroupValue(a: int, b: int, c: int)
    requires 0 <= a < 10 && 0 <= b < 10 && 0 <= c < 10
    ensures ValueOf(AppendBits(a * 100 + b * 10 + c, GroupWidth)) == a * 100 + b * 10 + c
  {
    FitsField(a * 100 + b * 10 + c, GroupWidth, 1024);
  }

  /** The digits of a two-digit value. */
  lemma TwoDigits(a: int, b: int)
    requires 0 <= a < 10 && 0 <= b < 10
    ensures (a * 10 + b) / 10 % 10 == a
    ensures (a * 10 + b) % 10 == b
  {
    DivModUnique(a * 10 + b, 10, a, b);
    DivModUnique(a, 10, 0, a);
  }

  lemma DigitCharOfValue(c: char)
    requires IsDigit(c)
    ensures 0 <= DigitValue(c) < 10 && DigitChar(DigitValue(c)) == c
  {
  }

  /** Decoding a 10-bit group followed by more bits. */
  lemma DecodeGroup(group: seq<bool>, rest: seq<bool>, n: nat)
    requires n > 2 && |group| == 10 && |rest| == NumericLength(n - 3)
    ensures |group + rest| == NumericLength(n)
    ensures DecodeNumeric(group + rest, n)
         == [DigitChar(ValueOf(group) / 100 % 10), DigitChar(ValueOf(group) / 10 % 10), DigitChar(ValueOf(group) % 10)]
            + DecodeNumeric(rest, n - 3)
  {
    assert (group + rest)[..10] == group;
    assert (group + rest)[10..] == rest;
  }

  /** The digits of a group value are the three characters it came from. */
  lemma DigitsOfGroup(s: string, v: int)
    requires AllDigits(s) && |s| > 2
    requires v == DigitValue(s[0]) * 100 + DigitValue(s[1]) * 10 + DigitValue(s[2])
    ensures [DigitChar(v / 100 % 10), DigitChar(v / 10 % 10), DigitChar(v % 10)] == [s[0], s[1], s[2]]
  {
    var a, b, c := DigitValue(s[0]), DigitValue(s[1]), DigitValue(s[2]);
    DigitCharOfValue(s[0]);
    DigitCharOfValue(s[1]);
    DigitCharOfValue(s[2]);
    DivModUnique(v, 100, a, b * 10 + c);
    DivModUnique(v, 10, a * 10 + b, c);
    DivModUnique(a * 10 + b, 10, a, b);
    DivModUnique(a, 10, 0, a);
  }

  /** Decoding a group that holds the value of three digits, in front of
      bits that decode to the rest of the content. */
  lemma DecodeDigitGroup(s: string, group: seq<bool>, rest: seq<bool>)
    requires AllDigits(s) && |s| > 2 && |group| == 10 && |rest| == NumericLength(|s| - 3)
    requires ValueOf(group) == DigitValue(s[0]) * 100 + DigitValue(s[1]) * 10 + DigitValue(s[2])
    requires DecodeNumeric(rest, |s| - 3) == s[3..]
    ensures DecodeNumeric(group + rest, |s|) == s
  {
    DecodeGroup(group, rest, |s|);
    DigitsOfGroup(s, ValueOf(group));
    assert [s[0], s[1], s[2]] + s[3..] == s;
  }

  /** All-digit content of three or more characters starts with a 10-bit
      group holding the value of its first three digits. */
  lemma NumericGroup(s: string) returns (group: seq<bool>)
    requires AllDigits(s) && |s| > 2
    ensures |group| == 10 && ValueOf(group) == DigitValue(s[0]) * 100 + DigitValue(s[1]) * 10 + DigitValue(s[2])
    ensures AppendNumeric(s) == group + AppendNumeric(s[3..])
  {
    var a, b, c := DigitValue(s[0]), DigitValue(s[1]), DigitValue(s[2]);
    group := AppendBits(a * 100 + b * 10 + c, GroupWidth);
    GroupValue(a, b, c);
    AppendNumericHead(s);
  }

  lemma AppendNumericHead(s: string)
    requires |s| > 2
    ensures AppendNumeric(s) == AppendBits(DigitValue(s[0]) * 100 + DigitValue(s[1]) * 10 + DigitValue(s[2]), GroupWidth) + AppendNumeric(s[3..])
  {
  }

  /** One group of three digits in front of content that already round-trips. */
  lemma NumericGroupStep(s: string, group: seq<bool>)
    requires AllDigits(s) && |s| > 2
    requires DecodeNumeric(AppendNumeric(s[3..]), |s| - 3) == s[3..]
    requires |group| == 10 && ValueOf(group) == DigitValue(s[0]) * 100 + DigitValue(s[1]) * 10 + DigitValue(s[2])
    requires AppendNumeric(s) == group + AppendNumeric(s[3..])
    ensures DecodeNumeric(AppendNumeric(s), |s|) == s
  {
    DecodeDigitGroup(s, group, AppendNumeric(s[3..]));
  }

  /** Round trip: all-digit content comes back from its numeric-mode bits,
      so every group value fits its field (999 < 2^10, 99 < 2^7, 9 < 2^4). */
  lemma {:induction false} NumericRoundTrip(s: string)
    requires AllDigits(s)
    ensures DecodeNumeric(AppendNumeric(s), |s|) == s
    decreases |s|
  {
    if |s| > 2 {
      assert AllDigits(s[3..]) by {
        assert forall i :: 0 <= i < |s| - 3 ==> s[3..][i] == s[i + 3];
      }
      NumericRoundTrip(s[3..]);
      var group := NumericGroup(s);
      NumericGroupStep(s, group);
    } else if |s| > 0 {
      NumericShortRoundTrip(s);
    }
  }

  lemma DecodeTwo(bits: seq<bool>)
    requires |bits| == 7
    ensures DecodeNumeric(bits, 2) == [DigitChar(ValueOf(bits) / 10 % 10), DigitChar(ValueOf(bits) % 10)]
  {
  }

  lemma DecodeOne(bits: seq<bool>)
    requires |bits| == 4
    ensures DecodeNumeric(bits, 1) == [DigitChar(ValueOf(bits) % 10)]
  {
  }

  /** Two digits are one 7-bit field holding their value. */
  lemma NumericPair(s: string) returns (bits: seq<bool>)
    requires AllDigits(s) && |s| == 2
    ensures AppendNumeric(s) == bits
    ensures |bits| == 7 && ValueOf(bits) == DigitValue(s[0]) * 10 + DigitValue(s[1])
  {
    bits := AppendBits(DigitValue(s[0]) * 10 + DigitValue(s[1]), PairWidth);
    FitsField(DigitValue(s[0]) * 10 + DigitValue(s[1]), PairWidth, 128);
  }

  /** One digit is one 4-bit field holding its value. */
  lemma NumericSingle(s: string) returns (bits: seq<bool>)
    requires AllDigits(s) && |s| == 1
    ensures AppendNumeric(s) == bits
    ensures |bits| == 4 && ValueOf(bits) == DigitValue(s[0])
  {
    bits := AppendBits(DigitValue(s[0]), SingleWidth);
    FitsField(DigitValue(s[0]), SingleWidth, 16);
  }

  /** A 7-bit field holding two digits decodes to them. */
  lemma DecodePairOfDigits(bits: seq<bool>, a: int, b: int)
    requires |bits| == 7 && 0 <= a < 10 && 0 <= b < 10 && ValueOf(bits) == a * 10 + b
    ensures DecodeNumeric(bits, 2) == [DigitChar(a), DigitChar(b)]
  {
    DecodeTwo(bits);
    TwoDigits(a, b);
  }

  /** A 4-bit field holding one digit decodes to it. */
  lemma DecodeSingleDigit(bits: seq<bool>, a: int)
    requires |bits| == 4 && 0 <= a < 10 && ValueOf(bits) == a
    ensures DecodeNumeric(bits, 1) == [DigitChar(a)]
  {
    DecodeOne(bits);
    DivModUnique(a, 10, 0, a);
  }

  lemma NumericShortRoundTrip(s: string)
    requires AllDigits(s) && 1 <= |s| <= 2
    ensures DecodeNumeric(AppendNumeric(s), |s|) == s
  {
    DigitCharOfValue(s[0]);
    if |s| == 2 {
      DigitCharOfValue(s[1]);
      var bits := NumericPair(s);
      DecodePairOfDigits(bits, DigitValue(s[0]), DigitValue(s[1]));
      assert [s[0], s[1]] == s;
    } else {
      var bits := NumericSingle(s);
      DecodeSingleDigit(bits, DigitValue(s[0]));
      assert [s[0]] == s;
    }
  }



  /** "12345" and its last two characters are all digits. */
  lemma ExampleDigits()
    ensures AllDigits("12345") && "12345"[3..] == "45" && AllDigits("45")
  {
    forall i | 0 <= i < 5 ensures IsDigit("12345"[i]) {
    }
    forall i | 0 <= i < 2 ensures IsDigit("45"[i]) {
    }
  }

  /** "12345" is the group 123 in 10 bits followed by the pair 45 in 7 bits. */
  lemma NumericExample()
    ensures |AppendNumeric("12345")| == 17
    ensures ValueOf(AppendNumeric("12345")[..10]) == 123
    ensures ValueOf(AppendNumeric("12345")[10..]) == 45
  {
    ExampleDigits();
    var group := NumericGroup("12345");
    var pair := NumericPair("45");
    var r := group + pair;
    assert r[..10] == group && r[10..] == pair;
  }
}
