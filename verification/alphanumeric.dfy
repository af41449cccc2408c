/** Alphanumeric mode (section 8.4.3 of JIS X 0510:2004): two characters in
    11 bits as `45 * code1 + code2`, a last one in 6.
 */
module AlphanumericMode {
  import opened Results
  import opened Arith
  import opened BitStreams
  import opened Charsets

  /** The field widths of a pair of codes and of a last single code. */
  const CodePairWidth: nat := 11
  const CodeWidth: nat := 6

  /** Bits of alphanumeric mode for `n` characters: 11 per pair, 6 for a
      last single one. */
  function AlphanumericLength(n: nat): nat
  {
    if n >= 2 then 11 + AlphanumericLength(n - 2) else if n == 1 then 6 else 0
  }

  /** The closed form `11 * (n / 2) + 6 * (n % 2)`. */
  lemma {:induction false} AlphanumericLengthClosedForm(n: nat)
    ensures AlphanumericLength(n) == 11 * (n / 2) + 6 * (n % 2)
    decreases n
  {
    if n >= 2 {
      AlphanumericLengthClosedForm(n - 2);
      DivModUnique(n, 2, (n - 2) / 2 + 1, (n - 2) % 2);
    }
  }

  lemma RestOfPair(s: string)
    requires |s| >= 2
    ensures AllAlphanumeric(s) <==>
      AlphanumericCode(s[0]) != -1 && AlphanumericCode(s[1]) != -1 && AllAlphanumeric(s[2..])
  {
    RestOfString(s);
    RestOfString(s[1..]);
    assert s[1..][1..] == s[2..];
  }

  /** `appendAlphanumericBytes(content, bits)`: pairs in 11 bits as
      `45 * code1 + code2`, a last single character in 6 bits; a character
      outside the charset is a `WriterException`. */
  function AppendAlphanumeric(s: string): (r: Result<seq<bool>>)
    ensures r.Ok? <==> AllAlphanumeric(s)
    ensures r.Err? ==> r.failure == InvalidCharacter
    ensures r.Ok? ==> |r.value| == AlphanumericLength(|s|)
    decreases |s|
  {
    if |s| == 0 then Ok([])
    else
      var code1 := AlphanumericCode(s[0]);
      if code1 == -1 then Err(InvalidCharacter)
      else if |s| > 1 then
        var code2 := AlphanumericCode(s[1]);
        RestOfPair(s);
        if code2 == -1 then Err(InvalidCharacter)
        else
          var rest :- AppendAlphanumeric(s[2..]);
              Ok(AppendBits(code1 * 45 + code2, CodePairWidth) + rest)
      else
        Ok(AppendBits(code1, CodeWidth))
  }

  /** A decoder for alphanumeric mode; `None` for a value that names no
      character. */
  function DecodeAlphanumeric(bits: seq<bool>, n: nat): (r: Option<string>)
    requires |bits| == AlphanumericLength(n)
    decreases n
  {
    if n == 0 then Some("")
    else if n >= 2 then
      var v := ValueOf(bits[..11]);
      if v / 45 < 45 then
        match DecodeAlphanumeric(bits[11..], n - 2)
        case Some(rest) => Some([AlphanumericChar(v / 45), AlphanumericChar(v % 45)] + rest)
        case None => None
      else None
    else
      var v := ValueOf(bits);
      if v < 45 then Some([AlphanumericChar(v)]) else None
  }

  lemma CodePair(c1: int, c2: int)
    requires 0 <= c1 < 45 && 0 <= c2 < 45
    ensures c1 * 45 + c2 < Pow2(11)
    ensures (c1 * 45 + c2) / 45 == c1 && (c1 * 45 + c2) % 45 == c2
  {
    MulLe(c1, 44, 45);
    assert Pow2(11) == 2048;
    DivModUnique(c1 * 45 + c2, 45, c1, c2);
  }

  /** Two valid codes in front of content that encodes: one 11-bit field
      in front of the rest's bits. */
  lemma AppendAlphanumericHead(s: string)
    requires |s| >= 2 && AlphanumericCode(s[0]) != -1 && AlphanumericCode(s[1]) != -1
    requires AllAlphanumeric(s[2..])
    ensures AppendAlphanumeric(s)
         == Ok(AppendBits(AlphanumericCode(s[0]) * 45 + AlphanumericCode(s[1]), CodePairWidth) + AppendAlphanumeric(s[2..]).value)
  {
  }

  /** Alphanumeric content of two or more characters starts with an 11-bit
      field holding the value of its first pair. */
  lemma AlphanumericPair(s: string) returns (pair: seq<bool>)
    requires AllAlphanumeric(s) && |s| >= 2
    ensures AllAlphanumeric(s[2..])
    ensures |pair| == 11 && ValueOf(pair) == AlphanumericCode(s[0]) * 45 + AlphanumericCode(s[1])
    ensures AppendAlphanumeric(s) == Ok(pair + AppendAlphanumeric(s[2..]).value)
  {
    RestOfPair(s);
    var v := AlphanumericCode(s[0]) * 45 + AlphanumericCode(s[1]);
    CodePair(AlphanumericCode(s[0]), AlphanumericCode(s[1]));
    pair := AppendBits(v, CodePairWidth);
    ValueOfAppendBitsExact(v, CodePairWidth);
    AppendAlphanumericHead(s);
  }

  /** Decoding an 11-bit field followed by bits that decode to `tail`. */
  lemma DecodePair(pair: seq<bool>, rest: seq<bool>, n: nat, tail: string)
    requires n >= 2 && |pair| == 11 && |rest| == AlphanumericLength(n - 2) && ValueOf(pair) / 45 < 45
    requires DecodeAlphanumeric(rest, n - 2) == Some(tail)
    ensures |pair + rest| == AlphanumericLength(n)
    ensures DecodeAlphanumeric(pair + rest, n)
         == Some([AlphanumericChar(ValueOf(pair) / 45), AlphanumericChar(ValueOf(pair) % 45)] + tail)
  {
    assert (pair + rest)[..11] == pair;
    assert (pair + rest)[11..] == rest;
  }

  /** Decoding an 11-bit pair field in front of bits that decode to the rest. */
  lemma DecodePairStep(s: string, pair: seq<bool>, rest: seq<bool>)
    requires |s| >= 2 && AlphanumericCode(s[0]) != -1 && AlphanumericCode(s[1]) != -1
    requires |pair| == 11 && ValueOf(pair) == AlphanumericCode(s[0]) * 45 + AlphanumericCode(s[1])
    requires |rest| == AlphanumericLength(|s| - 2) && DecodeAlphanumeric(rest, |s| - 2) == Some(s[2..])
    ensures |pair + rest| == AlphanumericLength(|s|)
    ensures DecodeAlphanumeric(pair + rest, |s|) == Some(s)
  {
    var c1, c2 := AlphanumericCode(s[0]), AlphanumericCode(s[1]);
    CodePair(c1, c2);
    AlphanumericCharOfCode(s[0], c1);
    AlphanumericCharOfCode(s[1], c2);
    DecodePair(pair, rest, |s|, s[2..]);
    assert [AlphanumericChar(c1), AlphanumericChar(c2)] + s[2..] == s;
  }

  /** The code of one character fits the 6-bit field. */
  lemma CodeFits(c: int)
    requires 0 <= c < 45
    ensures c < Pow2(CodeWidth)
  {
    assert Pow2(6) == 64;
  }

  /** A last single character is a 6-bit field that decodes back to it. */
  lemma AlphanumericSingle(s: string)
    requires AllAlphanumeric(s) && |s| == 1
    ensures DecodeAlphanumeric(AppendAlphanumeric(s).value, 1) == Some(s)
  {
    var c := AlphanumericCode(s[0]);
    AlphanumericCharOfCode(s[0], c);
    var bits := AppendBits(c, CodeWidth);
    assert AppendAlphanumeric(s) == Ok(bits);
    CodeFits(c);
    ValueOfAppendBitsExact(c, CodeWidth);
    assert [s[0]] == s;
  }

  /** Round trip: alphanumeric content comes back from its bits, and every
      pair value is at most 44 * 45 + 44 = 2024 < 2^11. */
  lemma {:induction false} AlphanumericRoundTrip(s: string)
    requires AllAlphanumeric(s)
    ensures DecodeAlphanumeric(AppendAlphanumeric(s).value, |s|) == Some(s)
    decreases |s|
  {
    if |s| >= 2 {
      var pair := AlphanumericPair(s);
      AlphanumericRoundTrip(s[2..]);
      DecodePairStep(s, pair, AppendAlphanumeric(s[2..]).value);
    } else if |s| == 1 {
      AlphanumericSingle(s);
    }
  }
}
