/** `Encoder`: the entry point that checks its arguments, applies the hint
    defaults, runs `QREncoder.encode` and draws the symbol into a bitmap
    (`renderResult`): each module becomes a `multiple x multiple` square,
    and the grid is centred in an output at least as large as the symbol
    with its quiet zone.

    `/` is Java's truncating division. The sizes are unbounded integers:
    the 32-bit wrap-around of `quietZone * 2` and `inputWidth * multiple`
    for huge margins or outputs is not modelled.
 */
module Rendering {
  import opened Results
  import opened Arith
  import opened BitMatrices
  import opened BitMatrixOps
  import ByteMatrices
  import QrEncoding
  import Codewords

  /** The symbol's module grid, as `QREncoder.encode` leaves it. */
  type Grid = ByteMatrices.ByteMatrix

  /** `QUIET_ZONE_SIZE`: the margin, in modules, when no hint sets one. */
  const QuietZoneSize: int := 4

  /** The barcode formats the caller may ask for; only QR Code is encoded. */
  datatype BarcodeFormat = QrCodeFormat | OtherFormat

  /** The hints `encode` reads; `None` is a hint that is absent or null. */
  datatype Hints = Hints(
    errorCorrection: Option<QrEncoding.ECLevel>,   // EncodeHintType.ERROR_CORRECTION
    margin: Option<int>,                           // EncodeHintType.MARGIN
    characterSet: Option<string>)                  // EncodeHintType.CHARACTER_SET

  // ---- Defaults ------------------------------------------------------------

  /** The error correction level: L unless a hint names one. */
  function EcLevelOf(hints: Option<Hints>): (r: QrEncoding.ECLevel)
    ensures hints.Some? && hints.value.errorCorrection.Some? ==> r == hints.value.errorCorrection.value
    ensures (hints.None? || hints.value.errorCorrection.None?) ==> r == QrEncoding.L
  {
    match hints
    case None => QrEncoding.L
    case Some(h) => if h.errorCorrection.Some? then h.errorCorrection.value else QrEncoding.L
  }

  /** The quiet zone: four modules unless a hint sets a margin. */
  function QuietZoneOf(hints: Option<Hints>): (r: int)
    ensures hints.Some? && hints.value.margin.Some? ==> r == hints.value.margin.value
    ensures (hints.None? || hints.value.margin.None?) ==> r == QuietZoneSize
  {
    match hints
    case None => QuietZoneSize
    case Some(h) => if h.margin.Some? then h.margin.value else QuietZoneSize
  }

  /** The `CHARACTER_SET` hint `QREncoder.encode` reads. */
  function CharsetOf(hints: Option<Hints>): Option<string>
  {
    match hints
    case None => None
    case Some(h) => h.characterSet
  }

  // ---- Scaling -------------------------------------------------------------

  /** The sizes `renderResult` derives before drawing. */
  datatype Geometry = Geometry(outputWidth: int, outputHeight: int, multiple: int, leftPadding: int, topPadding: int)

  function Max(a: int, b: int): int { if a >= b then a else b }

  function Min(a: int, b: int): int { if a <= b then a else b }

  /** Lines 61-74 of `renderResult`: the symbol with its quiet zone is
      `qrWidth x qrHeight` modules; the output is at least that large; the
      scale is the largest whole factor at which the padded symbol fits
      both ways; the module grid is centred. A padded side of zero
      divides by zero. */
  function Scale(inputWidth: int, inputHeight: int, width: int, height: int, quietZone: int): (r: Result<Geometry>)
    ensures r.Err? <==> inputWidth + 2 * quietZone == 0 || inputHeight + 2 * quietZone == 0
    ensures r.Err? ==> r.failure == DivisionByZero
    ensures r.Ok? ==> r.value.outputWidth >= width && r.value.outputWidth >= inputWidth + 2 * quietZone
    ensures r.Ok? ==> r.value.outputHeight >= height && r.value.outputHeight >= inputHeight + 2 * quietZone
    ensures r.Ok? ==> r.value.outputWidth in {width, inputWidth + 2 * quietZone}
    ensures r.Ok? ==> r.value.outputHeight in {height, inputHeight + 2 * quietZone}
  {
    var qrWidth := inputWidth + quietZone * 2;
    var qrHeight := inputHeight + quietZone * 2;
    var outputWidth := Max(width, qrWidth);
    var outputHeight := Max(height, qrHeight);
    if qrWidth == 0 || qrHeight == 0 then Err(DivisionByZero)
    else
      var multiple := Min(JDiv(outputWidth, qrWidth), JDiv(outputHeight, qrHeight));
      var leftPadding := JDiv(outputWidth - inputWidth * multiple, 2);
      var topPadding := JDiv(outputHeight - inputHeight * multiple, 2);
      Ok(Geometry(outputWidth, outputHeight, multiple, leftPadding, topPadding))
  }

  /** With a non-negative quiet zone and a non-empty symbol the scale is at
      least 1, the padded symbol fits the output at that scale but not at
      the next one, and the grid sits inside the output, centred to within
      one pixel. So no `setRegion` call of the drawing loop can fail. */
  lemma ScaleFits(inputWidth: int, inputHeight: int, width: int, height: int, quietZone: int)
    requires quietZone >= 0 && inputWidth >= 1 && inputHeight >= 1
    ensures Scale(inputWidth, inputHeight, width, height, quietZone).Ok?
    ensures var g := Scale(inputWidth, inputHeight, width, height, quietZone).value;
            var qrWidth, qrHeight := inputWidth + 2 * quietZone, inputHeight + 2 * quietZone;
            && g.multiple >= 1
            && g.multiple * qrWidth <= g.outputWidth && g.multiple * qrHeight <= g.outputHeight
            && ((g.multiple + 1) * qrWidth > g.outputWidth || (g.multiple + 1) * qrHeight > g.outputHeight)
            && g.leftPadding >= 0 && g.topPadding >= 0
            && g.leftPadding + inputWidth * g.multiple <= g.outputWidth
            && g.topPadding + inputHeight * g.multiple <= g.outputHeight
            && g.outputWidth - (g.leftPadding + inputWidth * g.multiple) - g.leftPadding in {0, 1}
            && g.outputHeight - (g.topPadding + inputHeight * g.multiple) - g.topPadding in {0, 1}
  {
    var qrWidth, qrHeight := inputWidth + 2 * quietZone, inputHeight + 2 * quietZone;
    var g := Scale(inputWidth, inputHeight, width, height, quietZone).value;
    var qw, qh := g.outputWidth / qrWidth, g.outputHeight / qrHeight;
    JDivOfNatural(g.outputWidth, qrWidth);
    JDivOfNatural(g.outputHeight, qrHeight);
    FloorScale(g.outputWidth, qrWidth);
    FloorScale(g.outputHeight, qrHeight);
    MulLe(g.multiple, qw, qrWidth);
    MulLe(g.multiple, qh, qrHeight);
    SideFits(g.outputWidth, qrWidth, inputWidth, g.multiple);
    SideFits(g.outputHeight, qrHeight, inputHeight, g.multiple);
    JDivOfNatural(g.outputWidth - inputWidth * g.multiple, 2);
    JDivOfNatural(g.outputHeight - inputHeight * g.multiple, 2);
  }

  /** `n / d` is the largest whole `k` with `k * d <= n`. */
  lemma FloorScale(n: int, d: int)
    requires n >= d >= 1
    ensures n / d >= 1 && (n / d) * d <= n < (n / d + 1) * d
  {
    MulNext(n / d, d);
  }

  /** The module grid, at most the padded symbol, fits where the padded
      symbol fits. */
  lemma SideFits(output: int, qr: int, input: int, multiple: int)
    requires 1 <= input <= qr && multiple >= 1 && multiple * qr <= output
    ensures 0 <= input * multiple <= output
  {
    MulLe(input, qr, multiple);
  }

  /** The worked example: a 21 x 21 symbol with a margin of 4 in a 200 x 200
      request is 29 modules wide padded, drawn 6 pixels per module, 37
      pixels from the left and the top. */
  lemma ScaleExample()
    ensures Scale(21, 21, 200, 200, 4) == Ok(Geometry(200, 200, 6, 37, 37))
  {
  }

  // ---- Drawing -------------------------------------------------------------

  /** The square `setRegion` is asked to fill for module `(x, y)` lies inside
      the output, so the call succeeds. */
  predicate SquareFits(g: Geometry, x: int, y: int)
  {
    && g.multiple >= 1
    && g.leftPadding + x * g.multiple >= 0 && g.topPadding + y * g.multiple >= 0
    && g.leftPadding + x * g.multiple + g.multiple <= g.outputWidth
    && g.topPadding + y * g.multiple + g.multiple <= g.outputHeight
  }

  predicate Dark(input: Grid, x: int, y: int)
    requires ByteMatrices.Valid(input)
  {
    ByteMatrices.InBounds(input, x, y) && ByteMatrices.Get(input, x, y) == 1
  }

  /** Every dark module's square fits. */
  ghost predicate AllDarkFit(input: Grid, g: Geometry)
    requires ByteMatrices.Valid(input)
  {
    forall x, y :: Dark(input, x, y) ==> SquareFits(g, x, y)
  }

  /** The dark modules before `(x, y)` in the drawing order fit. */
  ghost predicate FitsBefore(input: Grid, g: Geometry, y: int, x: int)
    requires ByteMatrices.Valid(input)
  {
    forall mx, my :: Dark(input, mx, my) && Before(mx, my, x, y) ==> SquareFits(g, mx, my)
  }

  /** Module `(mx, my)` is drawn before module `(x, y)`: row by row, left
      to right. */
  predicate Before(mx: int, my: int, x: int, y: int)
  {
    my < y || (my == y && mx < x)
  }

  /** Pixel `(a, b)` lies in the square of a dark module. The module is
      found by dividing the offset from the grid's corner by the scale. */
  predicate Covered(input: Grid, g: Geometry, a: int, b: int)
    requires ByteMatrices.Valid(input)
  {
    && g.multiple >= 1
    && g.leftPadding <= a < g.leftPadding + input.width * g.multiple
    && g.topPadding <= b < g.topPadding + input.height * g.multiple
    && Dark(input, (a - g.leftPadding) / g.multiple, (b - g.topPadding) / g.multiple)
  }

  /** Pixel `(a, b)` is covered by a module drawn before `(x, y)`. */
  predicate CoveredBefore(input: Grid, g: Geometry, a: int, b: int, y: int, x: int)
    requires ByteMatrices.Valid(input)
  {
    && Covered(input, g, a, b)
    && Before((a - g.leftPadding) / g.multiple, (b - g.topPadding) / g.multiple, x, y)
  }

  /** The state of the drawing loop before module `(x, y)`. */
  ghost predicate DrawnBefore(input: Grid, g: Geometry, blank: BitMatrix, cur: BitMatrix, y: int, x: int)
    requires ByteMatrices.Valid(input)
  {
    && Valid(cur) && SameSize(blank, cur)
    && forall a, b :: InBounds(blank, a, b) ==> (Get(cur, a, b) <==> CoveredBefore(input, g, a, b, y, x))
  }

  /** The finished output: every pixel is dark exactly when it is covered. */
  ghost predicate Rendered(input: Grid, g: Geometry, out: BitMatrix)
    requires ByteMatrices.Valid(input)
  {
    && Valid(out) && out.width == g.outputWidth && out.height == g.outputHeight
    && forall a, b :: InBounds(out, a, b) ==> (Get(out, a, b) <==> Covered(input, g, a, b))
  }

  /** A coordinate lies in the `multiple`-wide span of module `x` exactly
      when dividing its offset from the corner by `multiple` gives `x`. */
  lemma InSpan(a: int, corner: int, x: int, multiple: int)
    requires multiple >= 1 && x >= 0
    ensures corner + x * multiple <= a < corner + x * multiple + multiple
            <==> a >= corner && (a - corner) / multiple == x
  {
    if corner + x * multiple <= a < corner + x * multiple + multiple {
      MulLe(0, x, multiple);
      DivModUnique(a - corner, multiple, x, a - corner - x * multiple);
    }
    if a >= corner && (a - corner) / multiple == x {
      DivModUnique(a - corner, multiple, (a - corner) / multiple, (a - corner) % multiple);
    }
  }

  /** Filling the square of dark module `(x, y)` draws that module. */
  lemma DrawDark(input: Grid, g: Geometry, blank: BitMatrix, cur: BitMatrix, next: BitMatrix, y: int, x: int)
    requires ByteMatrices.Valid(input) && Valid(blank) && Dark(input, x, y) && SquareFits(g, x, y)
    requires DrawnBefore(input, g, blank, cur, y, x)
    requires IsRegionSet(cur, g.leftPadding + x * g.multiple, g.topPadding + y * g.multiple, g.multiple, g.multiple, next)
    ensures DrawnBefore(input, g, blank, next, y, x + 1)
  {
    forall a, b | InBounds(blank, a, b)
      ensures Get(next, a, b) <==> CoveredBefore(input, g, a, b, y, x + 1)
    {
      SquareCells(input, g, a, b, y, x);
    }
  }

  /** A pixel is newly covered by module `(x, y)` exactly when it lies in
      that module's square. */
  lemma SquareCells(input: Grid, g: Geometry, a: int, b: int, y: int, x: int)
    requires ByteMatrices.Valid(input) && Dark(input, x, y) && g.multiple >= 1
    ensures CoveredBefore(input, g, a, b, y, x + 1)
            <==> CoveredBefore(input, g, a, b, y, x)
                 || InRect(a, b, g.leftPadding + x * g.multiple, g.topPadding + y * g.multiple, g.multiple, g.multiple)
  {
    InSpan(a, g.leftPadding, x, g.multiple);
    InSpan(b, g.topPadding, y, g.multiple);
    var mx, my := (a - g.leftPadding) / g.multiple, (b - g.topPadding) / g.multiple;
    if InRect(a, b, g.leftPadding + x * g.multiple, g.topPadding + y * g.multiple, g.multiple, g.multiple) {
      InGrid(a, g.leftPadding, x, input.width, g.multiple);
      InGrid(b, g.topPadding, y, input.height, g.multiple);
    }
  }

  /** A pixel in the span of module `x < n` lies in the grid of `n` modules. */
  lemma InGrid(a: int, corner: int, x: int, n: int, multiple: int)
    requires multiple >= 1 && 0 <= x < n && corner + x * multiple <= a < corner + x * multiple + multiple
    ensures corner <= a < corner + n * multiple
  {
    MulLe(0, x, multiple);
    MulLe(x + 1, n, multiple);
    MulNext(x, multiple);
  }

  /** A light module draws nothing. */
  lemma DrawLight(input: Grid, g: Geometry, blank: BitMatrix, cur: BitMatrix, y: int, x: int)
    requires ByteMatrices.Valid(input) && ByteMatrices.InBounds(input, x, y) && !Dark(input, x, y)
    requires DrawnBefore(input, g, blank, cur, y, x) && FitsBefore(input, g, y, x)
    ensures DrawnBefore(input, g, blank, cur, y, x + 1) && FitsBefore(input, g, y, x + 1)
  {
    forall a, b | InBounds(blank, a, b)
      ensures CoveredBefore(input, g, a, b, y, x + 1) <==> CoveredBefore(input, g, a, b, y, x)
    {
    }
  }

  /** The module grid is `input.width` modules wide, so a finished row hands
      over to the next one. */
  lemma RowDrawn(input: Grid, g: Geometry, blank: BitMatrix, cur: BitMatrix, y: int)
    requires ByteMatrices.Valid(input)
    requires DrawnBefore(input, g, blank, cur, y, input.width) && FitsBefore(input, g, y, input.width)
    ensures DrawnBefore(input, g, blank, cur, y + 1, 0) && FitsBefore(input, g, y + 1, 0)
  {
    forall a, b | InBounds(blank, a, b)
      ensures CoveredBefore(input, g, a, b, y, input.width) <==> CoveredBefore(input, g, a, b, y + 1, 0)
    {
      if Covered(input, g, a, b) {
        ModuleInGrid(input, g, a, b);
      }
    }
  }

  /** A covered pixel belongs to a module of the grid. */
  lemma ModuleInGrid(input: Grid, g: Geometry, a: int, b: int)
    requires ByteMatrices.Valid(input) && Covered(input, g, a, b)
    ensures ByteMatrices.InBounds(input, (a - g.leftPadding) / g.multiple, (b - g.topPadding) / g.multiple)
  {
  }

  /** After the last row every covered pixel is drawn. */
  lemma AllDrawn(input: Grid, g: Geometry, blank: BitMatrix, cur: BitMatrix, y: int)
    requires ByteMatrices.Valid(input) && y == input.height
    requires DrawnBefore(input, g, blank, cur, y, 0) && FitsBefore(input, g, y, 0)
    requires blank.width == g.outputWidth && blank.height == g.outputHeight
    ensures Rendered(input, g, cur) && AllDarkFit(input, g)
  {
    forall a, b | InBounds(blank, a, b)
      ensures CoveredBefore(input, g, a, b, y, 0) <==> Covered(input, g, a, b)
    {
      if Covered(input, g, a, b) {
        ModuleInGrid(input, g, a, b);
      }
    }
  }

  /** Nothing is drawn before the first module. */
  lemma NoneDrawn(input: Grid, g: Geometry, blank: BitMatrix)
    requires ByteMatrices.Valid(input) && Valid(blank)
    requires forall a, b :: InBounds(blank, a, b) ==> !Get(blank, a, b)
    ensures DrawnBefore(input, g, blank, blank, 0, 0) && FitsBefore(input, g, 0, 0)
  {
    forall a, b | InBounds(blank, a, b)
      ensures !CoveredBefore(input, g, a, b, 0, 0)
    {
      if Covered(input, g, a, b) {
        ModuleInGrid(input, g, a, b);
      }
    }
  }

  /** Lines 76-85 of `renderResult`: `setRegion` for the square of every
      dark module, row by row. The first square that leaves the output is
      an `IllegalArgumentException`. */
  method Draw(input: Grid, g: Geometry, blank: BitMatrix) returns (r: Result<BitMatrix>)
    requires ByteMatrices.Valid(input) && Valid(blank)
    requires blank.width == g.outputWidth && blank.height == g.outputHeight
    requires forall a, b :: InBounds(blank, a, b) ==> !Get(blank, a, b)
    ensures r.Ok? <==> AllDarkFit(input, g)
    ensures r.Err? ==> r.failure == IllegalArgument
    ensures r.Ok? ==> Rendered(input, g, r.value)
  {
    var cur := blank;
    NoneDrawn(input, g, blank);
    var inputY, outputY := 0, g.topPadding;
    while inputY < input.height
      invariant 0 <= inputY <= input.height && outputY == g.topPadding + inputY * g.multiple
      invariant DrawnBefore(input, g, blank, cur, inputY, 0) && FitsBefore(input, g, inputY, 0)
    {
      var inputX, outputX := 0, g.leftPadding;
      while inputX < input.width
        invariant 0 <= inputX <= input.width && outputX == g.leftPadding + inputX * g.multiple
        invariant DrawnBefore(input, g, blank, cur, inputY, inputX) && FitsBefore(input, g, inputY, inputX)
      {
        if ByteMatrices.Get(input, inputX, inputY) == 1 {
          var next := SetRegion(cur, outputX, outputY, g.multiple, g.multiple);
          if next.Err? {
            assert Dark(input, inputX, inputY) && !SquareFits(g, inputX, inputY);
            return Err(IllegalArgument);
          }
          DrawDark(input, g, blank, cur, next.value, inputY, inputX);
          cur := next.value;
        } else {
          DrawLight(input, g, blank, cur, inputY, inputX);
        }
        MulNext(inputX, g.multiple);
        inputX, outputX := inputX + 1, outputX + g.multiple;
      }
      RowDrawn(input, g, blank, cur, inputY);
      MulNext(inputY, g.multiple);
      inputY, outputY := inputY + 1, outputY + g.multiple;
    }
    AllDrawn(input, g, blank, cur, inputY);
    return Ok(cur);
  }

  /** `renderResult(code, width, height, quietZone)`, with the symbol's
      matrix as `input` (`None` when `getMatrix()` is null). */
  method RenderResult(input: Option<Grid>, width: int, height: int, quietZone: int) returns (r: Result<BitMatrix>)
    requires input.Some? ==> ByteMatrices.Valid(input.value)
    ensures input.None? ==> r == Err(IllegalState)
    ensures input.Some? && Scale(input.value.width, input.value.height, width, height, quietZone).Err?
            ==> r == Err(DivisionByZero)
    ensures r.Ok? ==> && input.Some?
                      && var g := Scale(input.value.width, input.value.height, width, height, quietZone);
                      && g.Ok? && Rendered(input.value, g.value, r.value)
    ensures r.Err? ==> r.failure in {IllegalState, DivisionByZero, IllegalArgument}
    ensures input.Some? && quietZone >= 0 && input.value.width >= 1 && input.value.height >= 1 ==> r.Ok?
  {
    if input.None? {
      return Err(IllegalState);
    }
    var matrix := input.value;
    var scaled := Scale(matrix.width, matrix.height, width, height, quietZone);
    if scaled.Err? {
      return Err(DivisionByZero);
    }
    var g := scaled.value;
    var blank := New(g.outputWidth, g.outputHeight);
    if blank.Err? {
      if quietZone >= 0 && matrix.width >= 1 && matrix.height >= 1 {
        ScaleFits(matrix.width, matrix.height, width, height, quietZone);
      }
      return Err(IllegalArgument);
    }
    if quietZone >= 0 && matrix.width >= 1 && matrix.height >= 1 {
      ScaleFits(matrix.width, matrix.height, width, height, quietZone);
      GridFits(matrix, g);
    }
    r := Draw(matrix, g, blank.value);
  }

  /** A grid that fits the output at its scale fits module by module. */
  lemma GridFits(input: Grid, g: Geometry)
    requires ByteMatrices.Valid(input) && g.multiple >= 1 && g.leftPadding >= 0 && g.topPadding >= 0
    requires g.leftPadding + input.width * g.multiple <= g.outputWidth
    requires g.topPadding + input.height * g.multiple <= g.outputHeight
    ensures AllDarkFit(input, g)
  {
    forall x, y | Dark(input, x, y)
      ensures SquareFits(g, x, y)
    {
      InGrid(g.leftPadding + x * g.multiple, g.leftPadding, x, input.width, g.multiple);
      InGrid(g.topPadding + y * g.multiple, g.topPadding, y, input.height, g.multiple);
      MulNext(x, g.multiple);
      MulNext(y, g.multiple);
      MulLe(x + 1, input.width, g.multiple);
      MulLe(y + 1, input.height, g.multiple);
    }
  }

  /** A pixel is dark exactly when it lies in the `multiple x multiple`
      square of some dark module. */
  lemma CoveredSquares(input: Grid, g: Geometry, a: int, b: int)
    requires ByteMatrices.Valid(input) && g.multiple >= 1
    ensures Covered(input, g, a, b) <==>
            exists x, y :: Dark(input, x, y)
                           && InRect(a, b, g.leftPadding + x * g.multiple, g.topPadding + y * g.multiple, g.multiple, g.multiple)
  {
    var x, y := (a - g.leftPadding) / g.multiple, (b - g.topPadding) / g.multiple;
    if Covered(input, g, a, b) {
      InSpan(a, g.leftPadding, x, g.multiple);
      InSpan(b, g.topPadding, y, g.multiple);
      assert Dark(input, x, y);
    }
    if exists x, y :: Dark(input, x, y)
                      && InRect(a, b, g.leftPadding + x * g.multiple, g.topPadding + y * g.multiple, g.multiple, g.multiple) {
      var x', y' :| Dark(input, x', y')
                    && InRect(a, b, g.leftPadding + x' * g.multiple, g.topPadding + y' * g.multiple, g.multiple, g.multiple);
      InSpan(a, g.leftPadding, x', g.multiple);
      InSpan(b, g.topPadding, y', g.multiple);
      InGrid(a, g.leftPadding, x', input.width, g.multiple);
      InGrid(b, g.topPadding, y', input.height, g.multiple);
    }
  }

  // ---- Entry point ---------------------------------------------------------

  /** `encode(contents, format, width, height, hints)`: empty content, a
      format other than QR Code and a negative size are each an
      `IllegalArgumentException`, checked in that order before any
      encoding; then the symbol is encoded with the hinted or default
      error correction level, its matrix is built, and it is drawn with
      the hinted or default quiet zone. `buildMatrix` stands for
      `MatrixUtil.buildMatrix` (line 132 of `QREncoder.encode`), which
      rejects a mask pattern outside 0..7 with a `WriterException`: the
      mask is -1 when no pattern scored below `Integer.MAX_VALUE`. */
  method Encode(contents: string, format: BarcodeFormat, width: int, height: int, hints: Option<Hints>,
                env: QrEncoding.Collaborators, buildMatrix: QrEncoding.QRCode -> Result<Grid>)
    returns (r: Result<BitMatrix>)
    requires forall code: QrEncoding.QRCode :: buildMatrix(code).Ok? ==> ByteMatrices.Valid(buildMatrix(code).value)
    requires forall code: QrEncoding.QRCode :: !(0 <= code.maskPattern < Codewords.NumMaskPatterns) ==> buildMatrix(code).Err?
    ensures |contents| == 0 || format != QrCodeFormat || width < 0 || height < 0 ==> r == Err(IllegalArgument)
    ensures r.Ok? ==> && |contents| > 0 && format == QrCodeFormat && width >= 0 && height >= 0
                      && var code := QrEncoding.Encode(contents, EcLevelOf(hints), CharsetOf(hints), env);
                      && code.Ok? && code.value.ecLevel == EcLevelOf(hints)
                      && 0 <= code.value.maskPattern < Codewords.NumMaskPatterns
                      && var input := buildMatrix(code.value);
                      && input.Ok?
                      && var g := Scale(input.value.width, input.value.height, width, height, QuietZoneOf(hints));
                      && g.Ok? && Rendered(input.value, g.value, r.value)
    ensures |contents| > 0 && format == QrCodeFormat && width >= 0 && height >= 0
            && QrEncoding.Encode(contents, EcLevelOf(hints), CharsetOf(hints), env).Err?
            ==> r == Err(QrEncoding.Encode(contents, EcLevelOf(hints), CharsetOf(hints), env).failure)
    ensures |contents| > 0 && format == QrCodeFormat && width >= 0 && height >= 0
            && QrEncoding.Encode(contents, EcLevelOf(hints), CharsetOf(hints), env).Ok?
            && buildMatrix(QrEncoding.Encode(contents, EcLevelOf(hints), CharsetOf(hints), env).value).Err?
            ==> r == Err(buildMatrix(QrEncoding.Encode(contents, EcLevelOf(hints), CharsetOf(hints), env).value).failure)
  {
    if |contents| == 0 {
      return Err(IllegalArgument);
    }
    if format != QrCodeFormat {
      return Err(IllegalArgument);
    }
    if width < 0 || height < 0 {
      return Err(IllegalArgument);
    }
    var ecLevel := EcLevelOf(hints);
    var quietZone := QuietZoneOf(hints);
    var code := QrEncoding.Encode(contents, ecLevel, CharsetOf(hints), env);
    if code.Err? {
      return Err(code.failure);
    }
    var matrix := buildMatrix(code.value);
    if matrix.Err? {
      return Err(matrix.failure);
    }
    r := RenderResult(Some(matrix.value), width, height, quietZone);
  }
}
