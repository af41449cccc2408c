/** The data modes of a QR Code symbol (`Mode`), after Tables 2 and 3 in
    section 6.4.1 of ISO/IEC 18004:2006: each mode has a 4-bit mode indicator
    and a character-count field whose width depends on the version range
    1-9, 10-26 or 27-40.
 */
module Modes {
  import opened Results

  datatype Mode =
    | Terminator           // not really a mode
    | Numeric
    | Alphanumeric
    | StructuredAppend     // not supported by the encoder
    | Byte
    | Eci
    | Kanji
    | Fnc1FirstPosition
    | Fnc1SecondPosition
    | Hanzi                // GB/T 18284-2000

  /** The character-count widths for versions 1-9, 10-26 and 27-40. */
  datatype CountWidths = CountWidths(small: nat, medium: nat, large: nat)

  /** The per-mode table of the Java enum constructor calls. No mode's
      field narrows from one version range to the next. */
  function CountWidthsOf(m: Mode): (r: CountWidths)
    ensures Widening(r)
  {
    match m
    case Terminator => CountWidths(0, 0, 0)
    case Numeric => CountWidths(10, 12, 14)
    case Alphanumeric => CountWidths(9, 11, 13)
    case StructuredAppend => CountWidths(0, 0, 0)
    case Byte => CountWidths(8, 16, 16)
    case Eci => CountWidths(0, 0, 0)
    case Kanji => CountWidths(8, 10, 12)
    case Fnc1FirstPosition => CountWidths(0, 0, 0)
    case Fnc1SecondPosition => CountWidths(0, 0, 0)
    case Hanzi => CountWidths(8, 10, 12)
  }

  /** `getBits()`: the 4-bit mode indicator. */
  function Bits(m: Mode): nat
  {
    match m
    case Terminator => 0x00
    case Numeric => 0x01
    case Alphanumeric => 0x02
    case StructuredAppend => 0x03
    case Byte => 0x04
    case Eci => 0x07
    case Kanji => 0x08
    case Fnc1FirstPosition => 0x05
    case Fnc1SecondPosition => 0x09
    case Hanzi => 0x0D
  }

  /** The indicator values `forBits` accepts. */
  const Indicators: set<int> := {0x0, 0x1, 0x2, 0x3, 0x4, 0x5, 0x7, 0x8, 0x9, 0xD}

  /** `forBits(bits)`: the mode whose indicator is `bits`; any other value is
      an `IllegalArgumentException`. */
  function ForBits(bits: int): (r: Result<Mode>)
    ensures r.Ok? ==> Bits(r.value) == bits
    ensures r.Err? ==> r.failure == IllegalArgument
  {
    match bits
    case 0x0 => Ok(Terminator)
    case 0x1 => Ok(Numeric)
    case 0x2 => Ok(Alphanumeric)
    case 0x3 => Ok(StructuredAppend)
    case 0x4 => Ok(Byte)
    case 0x5 => Ok(Fnc1FirstPosition)
    case 0x7 => Ok(Eci)
    case 0x8 => Ok(Kanji)
    case 0x9 => Ok(Fnc1SecondPosition)
    case 0xD => Ok(Hanzi)
    case _ => Err(IllegalArgument)
  }

  /** `getCharacterCountBits(version)`: the width of the character-count field. */
  function CharacterCountBits(m: Mode, version: int): nat
  {
    WidthFor(CountWidthsOf(m), version)
  }

  /** The width of the field at a version: versions up to 9 take the small
      width, 10-26 the medium one, and the rest the large one. */
  function WidthFor(widths: CountWidths, version: int): nat
  {
    if version <= 9 then widths.small
    else if version <= 26 then widths.medium
    else widths.large
  }

  /** The widths of each mode never shrink from one version range to the
      next. */
  predicate Widening(widths: CountWidths)
  {
    widths.small <= widths.medium <= widths.large
  }

  /** Every mode's indicator decodes back to the mode. */
  lemma ForBitsOfBits(m: Mode)
    ensures ForBits(Bits(m)) == Ok(m)
  {
  }

  /** The indicators are distinct and fit in the 4-bit field. */
  lemma BitsInjectiveAndNarrow(m1: Mode, m2: Mode)
    ensures 0 <= Bits(m1) < 16
    ensures m1 != m2 ==> Bits(m1) != Bits(m2)
  {
  }

  /** `forBits` accepts exactly the ten indicator values. */
  lemma ForBitsAcceptsExactlyIndicators(bits: int)
    ensures ForBits(bits).Ok? <==> bits in Indicators
  {
  }

  /** The field is at least as wide for a larger version, for every mode. */
  lemma CharacterCountBitsMonotone(m: Mode, v1: int, v2: int)
    requires v1 <= v2
    ensures CharacterCountBits(m, v1) <= CharacterCountBits(m, v2)
  {
  }

  /** The widths Table 3 of ISO/IEC 18004:2006 lists for the four data modes,
      by version range. */
  lemma CharacterCountBitsTable(version: int)
    ensures version <= 9 ==>
      CharacterCountBits(Numeric, version) == 10 && CharacterCountBits(Alphanumeric, version) == 9
      && CharacterCountBits(Byte, version) == 8 && CharacterCountBits(Kanji, version) == 8
    ensures 10 <= version <= 26 ==>
      CharacterCountBits(Numeric, version) == 12 && CharacterCountBits(Alphanumeric, version) == 11
      && CharacterCountBits(Byte, version) == 16 && CharacterCountBits(Kanji, version) == 10
    ensures 27 <= version ==>
      CharacterCountBits(Numeric, version) == 14 && CharacterCountBits(Alphanumeric, version) == 13
      && CharacterCountBits(Byte, version) == 16 && CharacterCountBits(Kanji, version) == 12
  {
  }
}
