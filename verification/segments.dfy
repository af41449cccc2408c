/** Choosing the data mode and turning the content into bits
    (`QREncoder.chooseMode` and the `append*` encoders), after sections
    8.4.2 to 8.4.5 of JIS X 0510:2004: numeric mode packs three digits in 10
    bits, alphanumeric mode two characters in 11 bits, byte mode a byte in 8
    bits and Kanji mode a Shift_JIS pair in 13 bits. Every segment starts
    with a 4-bit mode indicator and a character count.
 */
module Segments {
  import opened Results
  import opened Arith
  import opened BitStreams
  import opened Modes
  import opened Charsets
  import opened NumericMode
  import opened AlphanumericMode
  import opened KanjiMode

  /** `String.getBytes(charsetName)`: the content in the named charset, or
      `None` when the charset is not supported. */
  type GetBytes = (string, string) -> Option<seq<Byte>>

  const DefaultByteModeEncoding := "ISO-8859-1"
  const ShiftJis := "Shift_JIS"

  /** The loop of `chooseMode` over the unread characters `s`: a character
      that is neither a digit nor alphanumeric decides BYTE at once. */
  function ModeOfRest(s: string, hasNumeric: bool, hasAlphanumeric: bool): (r: Mode)
    ensures !AllAlphanumeric(s) ==> r == Byte
    ensures AllAlphanumeric(s) ==>
      r == (if hasAlphanumeric || !AllDigits(s) then Alphanumeric
            else if hasNumeric || |s| > 0 then Numeric
            else Byte)
    decreases |s|
  {
    if |s| == 0 then
      if hasAlphanumeric then Alphanumeric else if hasNumeric then Numeric else Byte
    else
      RestOfString(s);
      if IsDigit(s[0]) then
        DigitCode(s[0]);
        ModeOfRest(s[1..], true, hasAlphanumeric)
      else if AlphanumericCode(s[0]) != -1 then ModeOfRest(s[1..], hasNumeric, true)
      else Byte
  }

  /** `chooseMode(content, encoding)`. With Shift_JIS requested the choice
      is KANJI or BYTE; otherwise all-digit content is NUMERIC, content of
      alphanumeric characters with a non-digit is ALPHANUMERIC, and
      anything else, the empty content included, is BYTE. */
  function ChooseMode(content: string, encoding: string, getBytes: GetBytes): (r: Mode)
    ensures encoding == ShiftJis ==> (r == Kanji <==> IsOnlyDoubleByteKanji(getBytes(content, ShiftJis)))
    ensures encoding == ShiftJis ==> r == Kanji || r == Byte
    ensures encoding != ShiftJis ==> (r == Numeric <==> |content| > 0 && AllDigits(content))
    ensures encoding != ShiftJis ==> (r == Alphanumeric <==> AllAlphanumeric(content) && !AllDigits(content))
    ensures encoding != ShiftJis ==> (r == Byte <==> |content| == 0 || !AllAlphanumeric(content))
  {
    if encoding == ShiftJis then
      if IsOnlyDoubleByteKanji(getBytes(content, ShiftJis)) then Kanji else Byte
    else
      DigitsAreAlphanumeric(content);
      ModeOfRest(content, false, false)
  }

  // ---- Byte mode ---------------------------------------------------------

  /** `append8BitBytes(content, bits, encoding)`: every byte of the content
      in the charset, 8 bits each; an unknown charset is a `WriterException`. */
  function Append8BitBytes(content: string, encoding: string, getBytes: GetBytes): (r: Result<seq<bool>>)
    ensures r.Ok? <==> getBytes(content, encoding).Some?
    ensures r.Err? ==> r.failure == UnsupportedEncoding
    ensures r.Ok? ==> |r.value| == 8 * |getBytes(content, encoding).value|
    ensures r.Ok? ==> ToBytes(r.value, 0, |getBytes(content, encoding).value|) == getBytes(content, encoding).value
  {
    match getBytes(content, encoding)
    case None => Err(UnsupportedEncoding)
    case Some(bytes) =>
      BytesRoundTrip(bytes);
      Ok(BytesToBits(bytes))
  }

  /** `appendKanjiBytes(content, bits)`. */
  function AppendKanjiBytes(content: string, getBytes: GetBytes): (r: Result<seq<bool>>)
    ensures getBytes(content, ShiftJis).None? ==> r == Err(UnsupportedEncoding)
    ensures getBytes(content, ShiftJis).Some? ==> r == AppendKanji(getBytes(content, ShiftJis).value)
  {
    match getBytes(content, ShiftJis)
    case None => Err(UnsupportedEncoding)
    case Some(bytes) => AppendKanji(bytes)
  }

  // ---- Header fields -----------------------------------------------------

  /** `appendModeInfo(mode, bits)`: the 4-bit indicator, which `forBits`
      reads back as the mode. */
  function AppendModeInfo(mode: Mode): (r: seq<bool>)
    ensures |r| == 4 && ForBits(ValueOf(r)) == Ok(mode)
  {
    BitsInjectiveAndNarrow(mode, mode);
    ModeFits(Bits(mode));
    ValueOfAppendBitsExact(Bits(mode), ModeWidth);
    ForBitsOfBits(mode);
    AppendBits(Bits(mode), ModeWidth)
  }

  /** The width of the mode indicator. */
  const ModeWidth: nat := 4

  lemma ModeFits(value: int)
    requires 0 <= value < 16
    ensures value < Pow2(ModeWidth)
  {
    assert Pow2(4) == 16;
  }

  /** `appendLengthInfo(numLetters, version, mode, bits)`: the count in the
      width the mode has at this version; a count that does not fit is a
      `WriterException`. */
  function AppendLengthInfo(numLetters: int, version: int, mode: Mode): (r: Result<seq<bool>>)
    ensures r.Err? <==> numLetters >= Pow2(CharacterCountBits(mode, version))
    ensures r.Err? ==> r.failure == LengthTooBig
    ensures r.Ok? ==> |r.value| == CharacterCountBits(mode, version)
    ensures r.Ok? && numLetters >= 0 ==> ValueOf(r.value) == numLetters
  {
    var numBits := CharacterCountBits(mode, version);
    if numLetters >= Pow2(numBits) then Err(LengthTooBig)
    else
      FieldValue(numLetters, numBits);
      Ok(AppendBits(numLetters, numBits))
  }

  lemma FieldValue(value: int, n: nat)
    ensures 0 <= value < Pow2(n) ==> ValueOf(AppendBits(value, n)) == value
  {
    ValueOfAppendBits(value, n);
    if 0 <= value < Pow2(n) {
      DivModUnique(value, Pow2(n), 0, value);
    }
  }

  /** `appendECI(eci, bits)`: the ECI indicator and the low eight bits of
      the designator value. */
  function AppendEci(eciValue: int): (r: seq<bool>)
    ensures |r| == 12
    ensures ForBits(ValueOf(r[..4])) == Ok(Eci)
    ensures ValueOf(r[4..]) == eciValue % 256
  {
    var indicator := AppendModeInfo(Eci);
    var value := AppendBits(eciValue, ByteWidth);
    ValueOfAppendBits(eciValue, ByteWidth);
    ByteWidthPow();
    assert (indicator + value)[..4] == indicator && (indicator + value)[4..] == value;
    indicator + value
  }

  /** `appendBytes(content, mode, bits, encoding)`: the encoder of the mode.
      Only the four data modes have one. */
  function AppendBytes(content: string, mode: Mode, encoding: string, getBytes: GetBytes): (r: Result<seq<bool>>)
    ensures mode == Numeric ==> r == Ok(AppendNumeric(content))
    ensures mode == Alphanumeric ==> r == AppendAlphanumeric(content)
    ensures mode == Byte ==> r == Append8BitBytes(content, encoding, getBytes)
    ensures mode == Kanji ==> r == AppendKanjiBytes(content, getBytes)
    ensures mode !in {Numeric, Alphanumeric, Byte, Kanji} ==> r == Err(InvalidMode)
  {
    match mode
    case Numeric => Ok(AppendNumeric(content))
    case Alphanumeric => AppendAlphanumeric(content)
    case Byte => Append8BitBytes(content, encoding, getBytes)
    case Kanji => AppendKanjiBytes(content, getBytes)
    case _ => Err(InvalidMode)
  }
}
