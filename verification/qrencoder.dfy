/** `QREncoder.encode(content, ecLevel, hints)`: the steps that turn the
    content into the final codeword stream of a QR Code symbol. Choose the
    mode; write the optional ECI header and the mode indicator; encode the
    data; choose the version in two passes; write the character count;
    terminate and pad; interleave the error correction codewords; and choose
    the mask.

    The version tables, the Reed-Solomon encoder, the charset conversion,
    the ECI lookup and the mask penalty of a built matrix are code this model
    does not contain. They come in as the `Collaborators` parameter.
 */
module QrEncoding {
  import opened Results
  import opened BitStreams
  import opened Modes
  import opened Segments
  import opened Codewords
  import opened Blocks
  import opened Interleaving

  /** The four error correction levels. */
  datatype ECLevel = L | M | Q | H

  /** What `Version` and `Version.ECBlocks` report for a version number. */
  datatype VersionTables = VersionTables(
    totalCodewords: int -> int,           // getTotalCodewords()
    ecCodewords: (int, ECLevel) -> int,   // getECBlocksForLevel(ecLevel).getTotalECCodewords()
    numBlocks: (int, ECLevel) -> int)     // getECBlocksForLevel(ecLevel).getNumBlocks()

  /** The code `encode` calls into and that this model takes as given. */
  datatype Collaborators = Collaborators(
    getBytes: GetBytes,                        // String.getBytes(charset)
    eciValue: string -> Option<int>,           // CharacterSetECI.getCharacterSetECIByName(name).getValue()
    tables: VersionTables,
    ecBytes: EcGenerator,                      // generateECBytes
    penalty: (seq<bool>, ECLevel, int, int) -> int)  // penalty of buildMatrix(bits, ecLevel, version, mask)

  /** The data codewords before interleaving: the chosen mode and version
      and the terminated, padded bit stream. */
  datatype DataStream = DataStream(mode: Mode, version: int, bits: seq<bool>)

  /** The fields `encode` sets on its `QRCode`. The matrix is
      `MatrixUtil.buildMatrix(finalBits, ecLevel, version, maskPattern)`,
      which is not part of this model, so the record keeps `finalBits`. */
  datatype QRCode = QRCode(ecLevel: ECLevel, mode: Mode, version: int, maskPattern: int, finalBits: seq<bool>)

  /** The `CHARACTER_SET` hint, or ISO-8859-1 when there are no hints or the
      hint is missing. */
  function CharacterEncoding(hint: Option<string>): string
  {
    match hint
    case Some(name) => name
    case None => DefaultByteModeEncoding
  }

  /** Whether an ECI header goes first: only in byte mode, only for a
      charset other than ISO-8859-1, and only when the charset has an ECI
      designator. */
  predicate WithEci(mode: Mode, encoding: string, eciValue: string -> Option<int>)
  {
    mode == Byte && encoding != DefaultByteModeEncoding && eciValue(encoding).Some?
  }

  /** `headerBits`: the optional ECI segment, then the mode indicator. */
  function HeaderBits(mode: Mode, encoding: string, eciValue: string -> Option<int>): (r: seq<bool>)
    ensures |r| == if WithEci(mode, encoding, eciValue) then 16 else 4
    ensures ForBits(ValueOf(r[|r| - 4..])) == Ok(mode)
    ensures WithEci(mode, encoding, eciValue) ==>
              ForBits(ValueOf(r[..4])) == Ok(Eci) && ValueOf(r[4..12]) == eciValue(encoding).value % 256
  {
    var modeInfo := AppendModeInfo(mode);
    if WithEci(mode, encoding, eciValue) then
      var eci := AppendEci(eciValue(encoding).value);
      assert (eci + modeInfo)[12..] == modeInfo;
      assert (eci + modeInfo)[..4] == eci[..4] && (eci + modeInfo)[4..12] == eci[4..];
      eci + modeInfo
    else modeInfo
  }

  /** The data codewords of each version at `ecLevel`: total codewords
      minus error correction codewords. */
  function DataCapacity(tables: VersionTables, ecLevel: ECLevel): Capacity
  {
    v => tables.totalCodewords(v) - tables.ecCodewords(v, ecLevel)
  }

  /** The count written in the character-count field: bytes in byte mode,
      characters otherwise. */
  function NumLetters(content: string, mode: Mode, dataBits: seq<bool>): nat
  {
    if mode == Byte then SizeInBytes(dataBits) else |content|
  }

  /** Version `u` holds `otherBits` bits plus a count field as wide as
      version `u` has it. */
  ghost predicate HoldsAt(capacity: Capacity, u: int, otherBits: nat, widths: CountWidths)
  {
    Fits(capacity, u, otherBits + WidthFor(widths, u))
  }

  /** No version below `version` holds `otherBits` bits and its own count
      field. */
  ghost predicate NoneHoldsBelow(capacity: Capacity, version: int, otherBits: nat, widths: CountWidths)
  {
    forall u :: MinVersion <= u < version ==> !HoldsAt(capacity, u, otherBits, widths)
  }

  /** No version from 1 up to `version - 1` holds `numInputBits` bits. */
  ghost predicate NoneFitsBelow(capacity: Capacity, version: int, numInputBits: nat)
  {
    forall u :: MinVersion <= u < version ==> !Fits(capacity, u, numInputBits)
  }

  /** The two calls of `chooseVersion`: the first sizes the count field as
      version 1 has it, the second as the provisional version has it.
      `otherBits` counts the header and data bits and `widths` are the
      count widths of the mode. The pair is (provisional, final). */
  function TwoPassVersion(otherBits: nat, widths: CountWidths, capacity: Capacity): (r: Result<(int, int)>)
    requires Widening(widths)
    ensures r.Err? ==> r.failure == DataTooBig
    ensures r.Err? <== ChooseVersion(otherBits + WidthFor(widths, MinVersion), capacity).Err?
    ensures r.Ok? ==> MinVersion <= r.value.0 <= r.value.1 <= MaxVersion
    ensures r.Ok? ==> Fits(capacity, r.value.0, otherBits + WidthFor(widths, MinVersion))
    ensures r.Ok? ==> NoneFitsBelow(capacity, r.value.0, otherBits + WidthFor(widths, MinVersion))
    ensures r.Ok? ==> Fits(capacity, r.value.1, otherBits + WidthFor(widths, r.value.0))
    ensures r.Ok? ==> NoneFitsBelow(capacity, r.value.1, otherBits + WidthFor(widths, r.value.0))
    ensures r.Ok? && WidthFor(widths, r.value.0) == WidthFor(widths, MinVersion) ==> r.value.1 == r.value.0
  {
    var provisionalBitsNeeded := otherBits + WidthFor(widths, MinVersion);
    var first := ChooseVersion(provisionalBitsNeeded, capacity);
    if first.Err? then Err(DataTooBig)
    else
      var bitsNeeded := otherBits + WidthFor(widths, first.value);
      var second := ChooseVersion(bitsNeeded, capacity);
      if second.Err? then Err(DataTooBig)
      else
        SecondChoice(provisionalBitsNeeded, bitsNeeded, capacity);
        assert bitsNeeded == provisionalBitsNeeded ==> second == first;
        Ok((first.value, second.value))
  }

  /** Choosing again for at least as many bits gives a version at least as
      large, and the least version that holds them. */
  lemma SecondChoice(a: nat, b: nat, capacity: Capacity)
    requires a <= b && ChooseVersion(a, capacity).Ok? && ChooseVersion(b, capacity).Ok?
    ensures ChooseVersion(a, capacity).value <= ChooseVersion(b, capacity).value
    ensures NoneFitsBelow(capacity, ChooseVersion(a, capacity).value, a)
    ensures NoneFitsBelow(capacity, ChooseVersion(b, capacity).value, b)
  {
    ChooseVersionMonotone(a, b, capacity);
  }

  /** Fewer bits fit wherever more bits do. */
  lemma FitsFewer(capacity: Capacity, u: int, a: nat, b: nat)
    requires a <= b && Fits(capacity, u, b)
    ensures Fits(capacity, u, a)
  {
    BytesNeededMonotone(a, b);
  }

  /** No version below the final one holds the stream with its own count
      width: below the provisional version not even the narrowest count
      field fits, and between the two not the provisional one's. */
  lemma TwoPassLeast(otherBits: nat, widths: CountWidths, capacity: Capacity, u: int)
    requires Widening(widths) && TwoPassVersion(otherBits, widths, capacity).Ok?
    requires MinVersion <= u < TwoPassVersion(otherBits, widths, capacity).value.1
    ensures !HoldsAt(capacity, u, otherBits, widths)
  {
    var versions := TwoPassVersion(otherBits, widths, capacity).value;
    LeastOfTwo(otherBits, widths, capacity, versions.0, versions.1, u);
  }

  lemma LeastOfTwo(otherBits: nat, widths: CountWidths, capacity: Capacity, p: int, f: int, u: int)
    requires Widening(widths) && MinVersion <= p <= f && MinVersion <= u < f
    requires NoneFitsBelow(capacity, p, otherBits + WidthFor(widths, MinVersion))
    requires NoneFitsBelow(capacity, f, otherBits + WidthFor(widths, p))
    ensures !HoldsAt(capacity, u, otherBits, widths)
  {
    if HoldsAt(capacity, u, otherBits, widths) {
      if u < p {
        FitsFewer(capacity, u, otherBits + WidthFor(widths, MinVersion), otherBits + WidthFor(widths, u));
      } else {
        FitsFewer(capacity, u, otherBits + WidthFor(widths, p), otherBits + WidthFor(widths, u));
      }
      assert false;
    }
  }

  /** When some version holds the stream with its own count width, both
      passes succeed and the final version is no larger than it. */
  lemma TwoPassFinds(otherBits: nat, widths: CountWidths, capacity: Capacity, u: int)
    requires Widening(widths) && MinVersion <= u <= MaxVersion && HoldsAt(capacity, u, otherBits, widths)
    ensures TwoPassVersion(otherBits, widths, capacity).Ok?
    ensures TwoPassVersion(otherBits, widths, capacity).value.1 <= u
  {
    var a := otherBits + WidthFor(widths, MinVersion);
    FitsFewer(capacity, u, a, otherBits + WidthFor(widths, u));
    ChooseVersionFinds(a, capacity, u);
    var first := ChooseVersion(a, capacity).value;
    var b := otherBits + WidthFor(widths, first);
    FitsFewer(capacity, u, b, otherBits + WidthFor(widths, u));
    ChooseVersionFinds(b, capacity, u);
    assert TwoPassVersion(otherBits, widths, capacity) == Ok((first, ChooseVersion(b, capacity).value));
  }

  /** The stream starts with `header`, a `width`-bit count field holding
      `count`, and `data`, in that order. */
  ghost predicate StartsWith(bits: seq<bool>, header: seq<bool>, width: nat, count: int, data: seq<bool>)
  {
    && |header| + width + |data| <= |bits|
    && bits[..|header|] == header
    && ValueOf(bits[|header|..|header| + width]) == count
    && bits[|header| + width..|header| + width + |data|] == data
  }

  /** A stream that begins with `header`, `lengthBits` and `data` starts
      with them in the sense of `StartsWith`. */
  lemma Assembled(bits: seq<bool>, header: seq<bool>, lengthBits: seq<bool>, data: seq<bool>)
    requires |header + lengthBits + data| <= |bits| && bits[..|header + lengthBits + data|] == header + lengthBits + data
    ensures StartsWith(bits, header, |lengthBits|, ValueOf(lengthBits), data)
  {
    var all := header + lengthBits + data;
    assert bits[..|header|] == all[..|header|] == header;
    assert bits[|header|..|header| + |lengthBits|] == all[|header|..|header| + |lengthBits|] == lengthBits;
    assert bits[|header| + |lengthBits|..|all|] == all[|header| + |lengthBits|..] == data;
  }

  /** Lines 88-110 of `encode`: the version in two passes, the count field,
      and the terminated and padded stream. The version is the least one
      that holds the stream with its own count width. The two passes fail
      only when no version holds it, and the stream overflows the final
      version only when its count field is wider than the provisional
      version's. */
  function LayOut(mode: Mode, header: seq<bool>, data: seq<bool>, numLetters: nat, capacity: Capacity): (r: Result<DataStream>)
    ensures r.Ok? ==> r.value.mode == mode && MinVersion <= r.value.version <= MaxVersion
    ensures r.Ok? ==> |r.value.bits| == 8 * capacity(r.value.version)
    ensures r.Ok? ==> StartsWith(r.value.bits, header, CharacterCountBits(mode, r.value.version), numLetters, data)
    ensures r.Ok? ==> HoldsAt(capacity, r.value.version, |header| + |data|, CountWidthsOf(mode))
    ensures r.Ok? ==> NoneHoldsBelow(capacity, r.value.version, |header| + |data|, CountWidthsOf(mode))
    ensures r.Err? ==> r.failure in {DataTooBig, LengthTooBig, BitsExceedCapacity}
    ensures r == Err(DataTooBig) ==>
              NoneHoldsBelow(capacity, MaxVersion + 1, |header| + |data|, CountWidthsOf(mode))
    ensures r == Err(LengthTooBig) ==>
              var versions := TwoPassVersion(|header| + |data|, CountWidthsOf(mode), capacity);
              versions.Ok? && numLetters >= Pow2(CharacterCountBits(mode, versions.value.1))
    ensures r == Err(BitsExceedCapacity) ==>
              var versions := TwoPassVersion(|header| + |data|, CountWidthsOf(mode), capacity);
              && versions.Ok?
              && CharacterCountBits(mode, versions.value.0) < CharacterCountBits(mode, versions.value.1)
  {
    var widths := CountWidthsOf(mode);
    var otherBits := |header| + |data|;
    match TwoPassVersion(otherBits, widths, capacity)
    case Err(_) =>
      NoneHolds(otherBits, widths, capacity);
      Err(DataTooBig)
    case Ok(versions) =>
      var r := Place(mode, header, data, numLetters, capacity, versions.1);
      if r.Err? && r.failure == BitsExceedCapacity then
        WidenedOnOverflow(mode, otherBits, capacity, versions.0, versions.1);
        r
      else if r.Ok? then
        NoneHoldsBelowFinal(otherBits, widths, capacity, r.value.version);
        r
      else
        r
  }

  /** `AllBelowFail` at the final version, named. */
  lemma NoneHoldsBelowFinal(otherBits: nat, widths: CountWidths, capacity: Capacity, version: int)
    requires Widening(widths) && TwoPassVersion(otherBits, widths, capacity).Ok?
    requires version == TwoPassVersion(otherBits, widths, capacity).value.1
    ensures NoneHoldsBelow(capacity, version, otherBits, widths)
  {
    AllBelowFail(otherBits, widths, capacity);
  }

  /** Lines 99-111 of `encode` at the final version: the count field, then
      the terminated and padded stream. */
  function Place(mode: Mode, header: seq<bool>, data: seq<bool>, numLetters: nat, capacity: Capacity, version: int)
    : (r: Result<DataStream>)
    ensures r.Ok? ==> r.value.mode == mode && r.value.version == version
    ensures r.Ok? ==> |r.value.bits| == 8 * capacity(version)
    ensures r.Ok? ==> StartsWith(r.value.bits, header, CharacterCountBits(mode, version), numLetters, data)
    ensures r.Err? <==> numLetters >= Pow2(CharacterCountBits(mode, version))
                        || |header| + CharacterCountBits(mode, version) + |data| > 8 * capacity(version)
    ensures r.Err? ==> r.failure == (if numLetters >= Pow2(CharacterCountBits(mode, version)) then LengthTooBig
                                     else BitsExceedCapacity)
  {
    var lengthBits :- AppendLengthInfo(numLetters, version, mode);
    var bits :- TerminateBits(capacity(version), header + lengthBits + data);
    Assembled(bits, header, lengthBits, data);
    Ok(DataStream(mode, version, bits))
  }

  /** The final version holds the stream with the provisional count width,
      so it can overflow only with a wider count field. */
  lemma WidenedOnOverflow(mode: Mode, otherBits: nat, capacity: Capacity, provisional: int, version: int)
    requires Fits(capacity, version, otherBits + WidthFor(CountWidthsOf(mode), provisional))
    requires otherBits + CharacterCountBits(mode, version) > 8 * capacity(version)
    ensures CharacterCountBits(mode, provisional) < CharacterCountBits(mode, version)
  {
  }

  /** `TwoPassFinds` for every version: when the passes fail, none holds
      the stream. */
  lemma NoneHolds(otherBits: nat, widths: CountWidths, capacity: Capacity)
    requires Widening(widths) && TwoPassVersion(otherBits, widths, capacity).Err?
    ensures NoneHoldsBelow(capacity, MaxVersion + 1, otherBits, widths)
  {
    forall u | MinVersion <= u <= MaxVersion && HoldsAt(capacity, u, otherBits, widths)
      ensures false
    {
      TwoPassFinds(otherBits, widths, capacity, u);
    }
  }

  /** `TwoPassLeast` for every version below the final one. */
  lemma AllBelowFail(otherBits: nat, widths: CountWidths, capacity: Capacity)
    requires Widening(widths) && TwoPassVersion(otherBits, widths, capacity).Ok?
    ensures NoneHoldsBelow(capacity, TwoPassVersion(otherBits, widths, capacity).value.1, otherBits, widths)
  {
    forall u | MinVersion <= u < TwoPassVersion(otherBits, widths, capacity).value.1
      ensures !HoldsAt(capacity, u, otherBits, widths)
    {
      TwoPassLeast(otherBits, widths, capacity, u);
    }
  }

  /** Lines 57-111 of `encode`: everything before interleaving.
      `EncodeDataLayout` states what the stream holds. */
  function EncodeData(content: string, ecLevel: ECLevel, hint: Option<string>, env: Collaborators): (r: Result<DataStream>)
    ensures r.Ok? ==> r.value.mode == ChooseMode(content, CharacterEncoding(hint), env.getBytes)
    ensures r.Ok? ==> MinVersion <= r.value.version <= MaxVersion
    ensures r.Ok? ==> |r.value.bits| == 8 * DataCapacity(env.tables, ecLevel)(r.value.version)
    ensures r.Err? ==> r.failure in {UnsupportedEncoding, InvalidCharacter, InvalidByteSequence, IndexOutOfBounds,
                                     DataTooBig, LengthTooBig, BitsExceedCapacity}
  {
    var encoding := CharacterEncoding(hint);
    var mode := ChooseMode(content, encoding, env.getBytes);
    var header := HeaderBits(mode, encoding, env.eciValue);
    var dataBits :- AppendBytes(content, mode, encoding, env.getBytes);
    LayOut(mode, header, dataBits, NumLetters(content, mode, dataBits), DataCapacity(env.tables, ecLevel))
  }

  /** The stream `encode` builds is the header, a count field as wide as
      the chosen version has it holding the letter count, and the encoded
      content; and no smaller version holds all of that. */
  lemma EncodeDataLayout(content: string, ecLevel: ECLevel, hint: Option<string>, env: Collaborators)
    requires EncodeData(content, ecLevel, hint, env).Ok?
    ensures var data := EncodeData(content, ecLevel, hint, env).value;
            var encoding := CharacterEncoding(hint);
            var header := HeaderBits(data.mode, encoding, env.eciValue);
            var dataBits := AppendBytes(content, data.mode, encoding, env.getBytes);
            && dataBits.Ok?
            && StartsWith(data.bits, header, CharacterCountBits(data.mode, data.version),
                          NumLetters(content, data.mode, dataBits.value), dataBits.value)
            && HoldsAt(DataCapacity(env.tables, ecLevel), data.version, |header| + |dataBits.value|, CountWidthsOf(data.mode))
            && NoneHoldsBelow(DataCapacity(env.tables, ecLevel), data.version, |header| + |dataBits.value|,
                              CountWidthsOf(data.mode))
  {
  }

  /** The penalty of the matrix each mask pattern gives, as
      `chooseMaskPattern` computes it. */
  function MaskPenalty(env: Collaborators, finalBits: seq<bool>, ecLevel: ECLevel, version: int): int -> int
  {
    m => env.penalty(finalBits, ecLevel, version, m)
  }

  /** The mask is one of the eight patterns with no lower penalty among
      the eight, or -1 exactly when no penalty is below `Integer.MAX_VALUE`. */
  ghost predicate LeastPenalty(penalty: int -> int, mask: int)
  {
    && -1 <= mask < NumMaskPatterns
    && (mask == -1 <==> forall m :: 0 <= m < NumMaskPatterns ==> penalty(m) >= IntMax)
    && (mask != -1 ==> forall m :: 0 <= m < NumMaskPatterns ==> penalty(mask) <= penalty(m))
  }

  /** Lines 113-128 of `encode`: interleave the data with its error
      correction codewords and choose the mask of least penalty. */
  function Finish(data: DataStream, ecLevel: ECLevel, env: Collaborators): (r: Result<QRCode>)
    ensures r.Ok? ==> r.value.ecLevel == ecLevel && r.value.mode == data.mode && r.value.version == data.version
    ensures r.Ok? ==> |r.value.finalBits| == 8 * env.tables.totalCodewords(data.version)
    ensures r.Ok? ==> LeastPenalty(MaskPenalty(env, r.value.finalBits, ecLevel, r.value.version), r.value.maskPattern)
  {
    var version := data.version;
    var finalBits :- InterleaveWithEcBytes(data.bits, env.tables.totalCodewords(version),
                                           DataCapacity(env.tables, ecLevel)(version),
                                           env.tables.numBlocks(version, ecLevel), env.ecBytes);
    var maskPattern := ChooseMaskPattern(MaskPenalty(env, finalBits, ecLevel, version));
    Ok(QRCode(ecLevel, data.mode, version, maskPattern, finalBits))
  }

  /** `encode(content, ecLevel, hints)`, with `encode(content, ecLevel)` the
      case `hint == None`. */
  function Encode(content: string, ecLevel: ECLevel, hint: Option<string>, env: Collaborators): (r: Result<QRCode>)
    ensures EncodeData(content, ecLevel, hint, env).Err? ==>
              r == Err(EncodeData(content, ecLevel, hint, env).failure)
    ensures r.Ok? ==>
              var data := EncodeData(content, ecLevel, hint, env);
              && data.Ok? && r.value.ecLevel == ecLevel
              && r.value.mode == data.value.mode && r.value.version == data.value.version
              && |r.value.finalBits| == 8 * env.tables.totalCodewords(r.value.version)
    ensures r.Ok? ==> LeastPenalty(MaskPenalty(env, r.value.finalBits, ecLevel, r.value.version), r.value.maskPattern)
  {
    var data :- EncodeData(content, ecLevel, hint, env);
    Finish(data, ecLevel, env)
  }

  /** Once the data stream is built, `encode` succeeds exactly when
      interleaving does, and the final stream is the interleaved one. With
      the arguments the version tables give, that is when the data and the
      total codeword counts leave the same remainder modulo the block
      count, and the final stream is the codewords of every block read
      column by column, data first. */
  lemma EncodeInterleaves(content: string, ecLevel: ECLevel, hint: Option<string>, env: Collaborators)
    requires EncodeData(content, ecLevel, hint, env).Ok?
    ensures var data := EncodeData(content, ecLevel, hint, env).value;
            var code := Encode(content, ecLevel, hint, env);
            var total, dataBytes := env.tables.totalCodewords(data.version), DataCapacity(env.tables, ecLevel)(data.version);
            var numBlocks := env.tables.numBlocks(data.version, ecLevel);
            var interleaved := InterleaveWithEcBytes(data.bits, total, dataBytes, numBlocks, env.ecBytes);
            && (code.Ok? <==> interleaved.Ok?)
            && (code.Ok? ==> code.value.finalBits == interleaved.value)
            && (TableArguments(data.bits, total, dataBytes, numBlocks, env.ecBytes) ==>
                  && (code.Ok? <==> dataBytes % numBlocks == total % numBlocks)
                  && (code.Ok? ==> code.value.finalBits
                                   == BytesToBits(InterleavedBytes(MakeBlocks(data.bits, total, dataBytes, numBlocks, env.ecBytes, 0).value))))
  {
    var data := EncodeData(content, ecLevel, hint, env).value;
    var total, dataBytes := env.tables.totalCodewords(data.version), DataCapacity(env.tables, ecLevel)(data.version);
    var numBlocks := env.tables.numBlocks(data.version, ecLevel);
    if TableArguments(data.bits, total, dataBytes, numBlocks, env.ecBytes) {
      InterleaveAccepts(data.bits, total, dataBytes, numBlocks, env.ecBytes);
    }
  }
}
