/** The text form of a `BitMatrix`: `toString(setString, unsetString,
    lineSeparator)` writes one token per cell and a separator after every
    row, and the static `parse(text, setString, unsetString)` reads such a
    text back. */
module BitMatrixText {
  import opened Results
  import opened Arith
  import opened BitMatrices

  /** The token of cell `x` of row `y`. */
  function Token(m: BitMatrix, x: int, y: int, setString: string, unsetString: string): string
    requires Valid(m) && InBounds(m, x, y)
  {
    if Get(m, x, y) then setString else unsetString
  }

  /** Cells `x ..` of row `y`, as the inner loop of `toString` appends them. */
  function RowFrom(m: BitMatrix, y: int, x: nat, setString: string, unsetString: string): string
    requires Valid(m) && 0 <= y < m.height
    decreases m.width - x
  {
    if x >= m.width then ""
    else Token(m, x, y, setString, unsetString) + RowFrom(m, y, x + 1, setString, unsetString)
  }

  /** Rows `y ..`, each followed by the separator. */
  function LinesFrom(m: BitMatrix, y: nat, setString: string, unsetString: string, lineSeparator: string): string
    requires Valid(m)
    decreases m.height - y
  {
    if y >= m.height then ""
    else RowFrom(m, y, 0, setString, unsetString) + lineSeparator + LinesFrom(m, y + 1, setString, unsetString, lineSeparator)
  }

  /** `toString(setString, unsetString, lineSeparator)`. */
  function ToStringWith(m: BitMatrix, setString: string, unsetString: string, lineSeparator: string): string
    requires Valid(m)
  {
    LinesFrom(m, 0, setString, unsetString, lineSeparator)
  }

  /** `toString(setString, unsetString)`: rows end in `"\n"`. */
  function ToString(m: BitMatrix, setString: string, unsetString: string): string
    requires Valid(m)
  {
    ToStringWith(m, setString, unsetString, "\n")
  }

  /** `toString()`: `"X "` for a dark cell and two blanks for a light one. */
  function ToStringDefault(m: BitMatrix): string
    requires Valid(m)
  {
    ToString(m, "X ", "  ")
  }

  /** The local variables of the `parse` loop: the bits read so far, where
      the current row began among them, the common row length (-1 before the
      first row ends) and the number of rows ended. */
  datatype Scanner = Scanner(bits: seq<bool>, rowStart: int, rowLength: int, nRows: int)

  const Start := Scanner([], 0, -1, 0)

  /** What the loop keeps true: every ended row has `rowLength` bits. */
  predicate Consistent(st: Scanner)
  {
    && 0 <= st.rowStart <= |st.bits|
    && (st.rowLength == -1 ==> st.rowStart == 0 && st.nRows == 0)
    && (st.rowLength != -1 ==> st.rowLength >= 1 && st.nRows >= 1 && st.rowStart == st.nRows * st.rowLength)
  }

  /** A line break ends the current row if it holds any bit: the first row
      fixes the row length and a later row of another length is an
      `IllegalArgumentException`. */
  function EndRow(st: Scanner): (r: Result<Scanner>)
    requires Consistent(st)
    ensures r.Ok? ==> Consistent(r.value) && r.value.bits == st.bits
    ensures r.Ok? && |st.bits| > st.rowStart ==> r.value.rowStart == |st.bits| && r.value.nRows == st.nRows + 1
    ensures r.Ok? && |st.bits| == st.rowStart ==> r.value == st
    ensures r.Err? <==> |st.bits| > st.rowStart && st.rowLength != -1 && |st.bits| - st.rowStart != st.rowLength
    ensures r.Err? ==> r.failure == IllegalArgument
  {
    if |st.bits| > st.rowStart then
      if st.rowLength == -1 then
        Ok(st.(rowLength := |st.bits| - st.rowStart, rowStart := |st.bits|, nRows := st.nRows + 1))
      else if |st.bits| - st.rowStart != st.rowLength then
        Err(IllegalArgument)
      else
        Ok(st.(rowStart := |st.bits|, nRows := st.nRows + 1))
    else
      Ok(st)
  }

  predicate IsLineBreak(c: char)
  {
    c == '\n' || c == '\r'
  }

  /** The `parse` loop over the unread text `rest`. `capacity` is the length
      of the whole text, the size of Java's `boolean[] bits`: appending past
      it is an `ArrayIndexOutOfBoundsException`, which only an empty token
      can provoke. A token longer than the unread text makes `substring`
      throw. */
  function Scan(rest: string, setString: string, unsetString: string, capacity: nat, st: Scanner): (r: Result<Scanner>)
    requires Consistent(st) && |st.bits| <= capacity
    ensures r.Ok? ==> Consistent(r.value)
    ensures r.Err? ==> r.failure in {IllegalArgument, IndexOutOfBounds}
    ensures 0 < |rest| && !IsLineBreak(rest[0])
            && |setString| <= |rest| && rest[..|setString|] != setString
            && |unsetString| <= |rest| && rest[..|unsetString|] != unsetString
            ==> r == Err(IllegalArgument)
    decreases |rest|, capacity - |st.bits|
  {
    if |rest| == 0 then Ok(st)
    else if IsLineBreak(rest[0]) then
      var st' :- EndRow(st);
      Scan(rest[1..], setString, unsetString, capacity, st')
    else if |rest| < |setString| then Err(IndexOutOfBounds)
    else if rest[..|setString|] == setString then
      if |st.bits| == capacity then Err(IndexOutOfBounds)
      else Scan(rest[|setString|..], setString, unsetString, capacity, st.(bits := st.bits + [true]))
    else if |rest| < |unsetString| then Err(IndexOutOfBounds)
    else if rest[..|unsetString|] == unsetString then
      if |st.bits| == capacity then Err(IndexOutOfBounds)
      else Scan(rest[|unsetString|..], setString, unsetString, capacity, st.(bits := st.bits + [false]))
    else Err(IllegalArgument)
  }

  /** Cell `i` of a row-major list of cells with rows of `rowLength` cells. */
  lemma RowMajorCell(i: int, rowLength: int, nRows: int)
    requires rowLength >= 1 && 0 <= i < rowLength * nRows
    ensures 0 <= i % rowLength < rowLength && 0 <= i / rowLength < nRows
    ensures (i / rowLength) * rowLength + i % rowLength == i
  {
    MulLe(nRows, i / rowLength, rowLength);
  }

  /** The final loop of `parse`: `set(i % rowLength, i / rowLength)` for
      every true bit among the first `n`. */
  function Fill(m: BitMatrix, bits: seq<bool>, n: nat): (r: BitMatrix)
    requires Valid(m) && |bits| == m.width * m.height && n <= |bits|
    ensures Valid(r) && r.width == m.width && r.height == m.height
  {
    if n == 0 then m
    else
      var r := Fill(m, bits, n - 1);
      RowMajorCell(n - 1, m.width, m.height);
      var x, y := (n - 1) % m.width, (n - 1) / m.width;
      if bits[n - 1] then Set(r, x, y) else r
  }

  /** Filling an empty matrix with the first `n` bits makes exactly the cells
      dark whose row-major entry among them is true. */
  lemma {:induction false} FillCells(m: BitMatrix, bits: seq<bool>, n: nat)
    requires Valid(m) && |bits| == m.width * m.height && n <= |bits|
    requires forall x, y :: InBounds(m, x, y) ==> !Get(m, x, y)
    ensures forall x, y :: InBounds(m, x, y) ==>
      Get(Fill(m, bits, n), x, y) == (y * m.width + x < n && bits[y * m.width + x])
  {
    if n > 0 {
      FillCells(m, bits, n - 1);
      RowMajorCell(n - 1, m.width, m.height);
      var x, y := (n - 1) % m.width, (n - 1) / m.width;
      FillStep(m, n, x, y);
    }
  }

  /** Cell `(x, y)` of a row-major list is entry `y * width + x`, and no other
      cell is. */
  lemma FillStep(m: BitMatrix, n: int, x: int, y: int)
    requires Valid(m) && InBounds(m, x, y) && y * m.width + x == n - 1
    ensures forall a, b :: InBounds(m, a, b) ==> (b * m.width + a == n - 1 <==> a == x && b == y)
    ensures forall a, b :: InBounds(m, a, b) ==> (b * m.width + a < n <==> b * m.width + a < n - 1 || (a == x && b == y))
  {
    forall a, b | InBounds(m, a, b)
      ensures b * m.width + a == n - 1 <==> a == x && b == y
    {
      RowMajorUnique(b, a, y, x, m.width);
    }
  }

  /** `parse(text, setString, unsetString)`: the rows of tokens of `text`.
      An unknown token and rows of different lengths are
      `IllegalArgumentException`s, and so is a text without any token, for
      which `new BitMatrix(-1, 0)` is attempted. */
  function Parse(text: string, setString: string, unsetString: string): (r: Result<BitMatrix>)
    ensures r.Ok? ==> Valid(r.value)
    ensures r.Err? ==> r.failure in {IllegalArgument, IndexOutOfBounds}
    ensures 0 < |text| && !IsLineBreak(text[0])
            && |setString| <= |text| && text[..|setString|] != setString
            && |unsetString| <= |text| && text[..|unsetString|] != unsetString
            ==> r == Err(IllegalArgument)
  {
    var st :- Scan(text, setString, unsetString, |text|, Start);
    var last :- EndRow(st);
    var m :- New(last.rowLength, last.nRows);
    Ok(Fill(m, last.bits, |last.bits|))
  }

  /** Cell `i` of the matrix in row-major order. */
  function CellAt(m: BitMatrix, i: int): bool
    requires Valid(m) && 0 <= i < m.width * m.height
  {
    RowMajorCell(i, m.width, m.height);
    Get(m, i % m.width, i / m.width)
  }

  /** The first `n` cells of the matrix in row-major order. */
  function Cells(m: BitMatrix, n: nat): (r: seq<bool>)
    requires Valid(m) && n <= m.width * m.height
    ensures |r| == n
  {
    seq(n, i requires 0 <= i < n => CellAt(m, i))
  }

  /** The tokens `parse` can tell apart from each other and from a line
      break: equally long, distinct, not empty, not starting with a line
      break. */
  predicate Distinguishable(setString: string, unsetString: string)
  {
    && |setString| == |unsetString| >= 1
    && setString != unsetString
    && !IsLineBreak(setString[0]) && !IsLineBreak(unsetString[0])
  }

  lemma CellsSnoc(m: BitMatrix, x: int, y: int)
    requires Valid(m) && InBounds(m, x, y)
    ensures y * m.width + x < m.width * m.height
    ensures Cells(m, y * m.width + x + 1) == Cells(m, y * m.width + x) + [Get(m, x, y)]
  {
    var i := y * m.width + x;
    RowMajorLess(y, x, m.height, 0, m.width);
    DivModUnique(i, m.width, y, x);
  }

  /** Every cell of a row writes a token of at least one character. */
  lemma {:induction false} RowFromLength(m: BitMatrix, y: int, x: nat, setString: string, unsetString: string)
    requires Valid(m) && 0 <= y < m.height && |setString| >= 1 && |unsetString| >= 1
    ensures |RowFrom(m, y, x, setString, unsetString)| >= m.width - x
    decreases m.width - x
  {
    if x < m.width {
      RowFromLength(m, y, x + 1, setString, unsetString);
    }
  }

  lemma RowEnd(y: int, x: int, w: int, h: int)
    requires 0 <= y < h && 0 <= x <= w
    ensures 0 <= y * w + x <= y * w + w <= w * h
  {
    MulLe(y + 1, h, w);
  }

  /** The cells of rows `0 .. y - 1` and of row `y` left of column `x`. */
  function CellsBefore(m: BitMatrix, x: int, y: int): (r: seq<bool>)
    requires Valid(m) && 0 <= y < m.height && 0 <= x <= m.width
    ensures |r| == y * m.width + x
  {
    RowEnd(y, x, m.width, m.height);
    Cells(m, y * m.width + x)
  }

  /** One token of a distinguishable pair is read as its bit. */
  lemma ScanToken(token: string, tail: string, setString: string, unsetString: string,
                  capacity: nat, st: Scanner, b: bool)
    requires Distinguishable(setString, unsetString) && token == (if b then setString else unsetString)
    requires Consistent(st) && |st.bits| < capacity
    ensures Scan(token + tail, setString, unsetString, capacity, st)
         == Scan(tail, setString, unsetString, capacity, st.(bits := st.bits + [b]))
  {
    var text := token + tail;
    assert text[0] == token[0];
    assert text[..|setString|] == token;
    assert text[|setString|..] == tail;
  }

  /** Reading the tokens of cells `x ..` of row `y` appends those cells. */
  lemma {:induction false} ScanRow(m: BitMatrix, y: int, x: nat, setString: string, unsetString: string,
                                   rest: string, capacity: nat, st: Scanner)
    requires Valid(m) && 0 <= y < m.height && x <= m.width && Distinguishable(setString, unsetString)
    requires Consistent(st) && st.bits == CellsBefore(m, x, y)
    requires |st.bits| + |RowFrom(m, y, x, setString, unsetString) + rest| <= capacity
    requires |st.bits| + (m.width - x) <= capacity
    ensures Scan(RowFrom(m, y, x, setString, unsetString) + rest, setString, unsetString, capacity, st)
         == Scan(rest, setString, unsetString, capacity, st.(bits := CellsBefore(m, m.width, y)))
    decreases m.width - x
  {
    if x == m.width {
      assert RowFrom(m, y, x, setString, unsetString) + rest == rest;
    } else {
      var token := Token(m, x, y, setString, unsetString);
      var tail := RowFrom(m, y, x + 1, setString, unsetString) + rest;
      assert RowFrom(m, y, x, setString, unsetString) + rest == token + tail;
      CellsSnoc(m, x, y);
      var st' := st.(bits := st.bits + [Get(m, x, y)]);
      assert st'.bits == CellsBefore(m, x + 1, y);
      ScanToken(token, tail, setString, unsetString, capacity, st, Get(m, x, y));
      ScanRow(m, y, x + 1, setString, unsetString, rest, capacity, st');
    }
  }

  /** The scanner after rows `0 .. y - 1` have been read. */
  function AfterRows(m: BitMatrix, y: nat): (r: Scanner)
    requires Valid(m) && y <= m.height
    ensures Consistent(r) && |r.bits| == y * m.width
  {
    MulLe(y, m.height, m.width);
    Scanner(Cells(m, y * m.width), y * m.width, if y == 0 then -1 else m.width, y)
  }

  /** The line break after row `y` ends that row. */
  lemma ScanLineBreak(m: BitMatrix, y: nat, tail: string, setString: string, unsetString: string, capacity: nat)
    requires Valid(m) && y < m.height && (y + 1) * m.width <= capacity
    ensures Consistent(AfterRows(m, y).(bits := CellsBefore(m, m.width, y)))
    ensures Scan("\n" + tail, setString, unsetString, capacity, AfterRows(m, y).(bits := CellsBefore(m, m.width, y)))
         == Scan(tail, setString, unsetString, capacity, AfterRows(m, y + 1))
  {
    var full := AfterRows(m, y).(bits := CellsBefore(m, m.width, y));
    MulNext(y, m.width);
    assert full.bits == AfterRows(m, y + 1).bits;
    assert EndRow(full) == Ok(AfterRows(m, y + 1));
    assert ("\n" + tail)[1..] == tail;
  }

  /** Rows `y ..` of `toString(setString, unsetString)` fit within
      `capacity` cells and characters together. */
  ghost predicate RowsFit(m: BitMatrix, y: nat, setString: string, unsetString: string, capacity: nat)
    requires Valid(m) && y <= m.height
  {
    |AfterRows(m, y).bits| + |LinesFrom(m, y, setString, unsetString, "\n")| <= capacity
  }

  /** Reading rows `y ..` of `toString(setString, unsetString)`, after rows
      `0 .. y - 1`, reads every cell. */
  ghost predicate RowsScan(m: BitMatrix, y: nat, setString: string, unsetString: string, capacity: nat)
    requires Valid(m) && y <= m.height && RowsFit(m, y, setString, unsetString, capacity)
  {
    Scan(LinesFrom(m, y, setString, unsetString, "\n"), setString, unsetString, capacity, AfterRows(m, y))
      == Ok(AfterRows(m, m.height))
  }

  /** Row `y` and its line break are read as one more row of cells. */
  lemma ScanLinesStep(m: BitMatrix, y: nat, setString: string, unsetString: string, capacity: nat)
    requires Valid(m) && y < m.height && Distinguishable(setString, unsetString)
    requires RowsFit(m, y, setString, unsetString, capacity)
    ensures RowsFit(m, y + 1, setString, unsetString, capacity)
    ensures RowsScan(m, y + 1, setString, unsetString, capacity) ==> RowsScan(m, y, setString, unsetString, capacity)
  {
    var st := AfterRows(m, y);
    var row := RowFrom(m, y, 0, setString, unsetString);
    var next := LinesFrom(m, y + 1, setString, unsetString, "\n");
    var tail := "\n" + next;
    assert LinesFrom(m, y, setString, unsetString, "\n") == row + tail;
    RowFromLength(m, y, 0, setString, unsetString);
    assert st.bits == CellsBefore(m, 0, y);
    ScanRow(m, y, 0, setString, unsetString, tail, capacity, st);
    MulNext(y, m.width);
    ScanLineBreak(m, y, next, setString, unsetString, capacity);
  }

  /** Reading rows `y ..` of `toString(setString, unsetString)` reads every
      cell, with one row per line; the rows are added from the last one
      back to row `y`. */
  lemma ScanLines(m: BitMatrix, y: nat, setString: string, unsetString: string, capacity: nat)
    requires Valid(m) && y <= m.height && Distinguishable(setString, unsetString)
    requires RowsFit(m, y, setString, unsetString, capacity)
    ensures RowsScan(m, y, setString, unsetString, capacity)
  {
    var p := (k: nat) => k <= m.height && RowsFit(m, k, setString, unsetString, capacity)
                         ==> RowsScan(m, k, setString, unsetString, capacity);
    forall k: nat | k < m.height && p(k + 1)
      ensures p(k)
    {
      if RowsFit(m, k, setString, unsetString, capacity) {
        ScanLinesStep(m, k, setString, unsetString, capacity);
      }
    }
    CountDown(p, m.height, y);
  }

  /** Round trip: parsing what `toString(setString, unsetString)` wrote, with
      tokens `parse` can tell apart, gives back the matrix. */
  lemma ParseToString(m: BitMatrix, setString: string, unsetString: string)
    requires Valid(m) && Distinguishable(setString, unsetString)
    ensures Parse(ToString(m, setString, unsetString), setString, unsetString) == Ok(m)
  {
    var text := ToString(m, setString, unsetString);
    ScanLines(m, 0, setString, unsetString, |text|);
    var last := AfterRows(m, m.height);
    assert EndRow(last) == Ok(last);
    var m0 := New(m.width, m.height).value;
    var r := Fill(m0, last.bits, |last.bits|);
    FillCells(m0, last.bits, |last.bits|);
    forall x, y | InBounds(m, x, y)
      ensures Get(r, x, y) == Get(m, x, y)
    {
      CellsSnoc(m, x, y);
      assert last.bits[y * m.width + x] == Cells(m, y * m.width + x + 1)[y * m.width + x];
    }
    Extensionality(r, m);
  }

  /** The error paths of `parse`: a text without tokens (which asks for a
      matrix of width -1), rows of different lengths, an unknown token, and a
      token cut short by the end of the text. */
  lemma ParseErrors()
    ensures Parse("", "X ", "  ") == Err(IllegalArgument)
    ensures Parse("X \nX X \n", "X ", "  ") == Err(IllegalArgument)
    ensures Parse("X ??", "X ", "  ") == Err(IllegalArgument)
    ensures Parse("X ?", "X ", "  ") == Err(IndexOutOfBounds)
  {
    var s, u := "X ", "  ";
    assert Distinguishable(s, u);
    assert |"X \nX X \n"| == 8;
    assert "X \nX X \n" == s + "\nX X \n";
    ScanToken(s, "\nX X \n", s, u, 8, Start, true);
    var st1 := Scanner([true], 0, -1, 0);
    assert Start.(bits := Start.bits + [true]) == st1;
    var st2 := Scanner([true], 1, 1, 1);
    assert EndRow(st1) == Ok(st2);
    assert "\nX X \n"[1..] == "X X \n";
    assert Scan("\nX X \n", s, u, 8, st1) == Scan("X X \n", s, u, 8, st2);
    assert "X X \n" == s + "X \n";
    ScanToken(s, "X \n", s, u, 8, st2, true);
    assert "X \n" == s + "\n";
    ScanToken(s, "\n", s, u, 8, st2.(bits := [true, true]), true);
    var st3 := st2.(bits := [true, true, true]);
    assert [true, true] + [true] == st3.bits;
    assert EndRow(st3) == Err(IllegalArgument);

    assert "X ??" == s + "??";
    ScanToken(s, "??", s, u, 4, Start, true);
    assert "??"[..2] != s && "??"[..2] != u;
    assert Scan("??", s, u, 4, st1) == Err(IllegalArgument);

    assert "X ?" == s + "?";
    ScanToken(s, "?", s, u, 3, Start, true);
    assert Scan("?", s, u, 3, st1) == Err(IndexOutOfBounds);
  }
}
