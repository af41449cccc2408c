/** The byte grid the symbol is laid out in before it is rendered
    (`ByteMatrix`). Cell `(x, y)` is column `x` of row `y`; the layout code
    stores 0 for a light module, 1 for a dark one and -1 for a cell not yet
    written.
 */
module ByteMatrices {
  import opened Results
  import opened Arith

  /** A Java `byte`. */
  type JByte = b: int | -128 <= b < 128

  datatype ByteMatrix = ByteMatrix(width: int, height: int, rows: seq<seq<JByte>>)

  predicate Valid(m: ByteMatrix)
  {
    && m.width >= 0 && m.height >= 0
    && |m.rows| == m.height
    && forall y :: 0 <= y < m.height ==> |m.rows[y]| == m.width
  }

  predicate InBounds(m: ByteMatrix, x: int, y: int)
  {
    0 <= x < m.width && 0 <= y < m.height
  }

  /** The narrowing cast `(byte) value`: the low eight bits, read as two's complement. */
  function ToJByte(value: int): (r: JByte)
    ensures (r - value) % 256 == 0
  {
    (value + 128) % 256 - 128
  }

  /** `new ByteMatrix(width, height)`: every cell starts at 0. A negative size
      is Java's `NegativeArraySizeException`. */
  function New(width: int, height: int): (r: Result<ByteMatrix>)
    ensures r.Ok? <==> width >= 0 && height >= 0
    ensures r.Ok? ==> Valid(r.value) && r.value.width == width && r.value.height == height
    ensures r.Ok? ==> forall x, y :: InBounds(r.value, x, y) ==> Get(r.value, x, y) == 0
    ensures r.Err? ==> r.failure == NegativeArraySize
  {
    if width < 0 || height < 0 then Err(NegativeArraySize)
    else Ok(ByteMatrix(width, height, seq(height, _ => seq(width, _ => 0))))
  }

  /** `get(x, y)`. */
  function Get(m: ByteMatrix, x: int, y: int): JByte
    requires Valid(m) && InBounds(m, x, y)
  {
    m.rows[y][x]
  }

  /** `set(x, y, byte value)`. */
  function SetByte(m: ByteMatrix, x: int, y: int, value: JByte): (r: ByteMatrix)
    requires Valid(m) && InBounds(m, x, y)
    ensures Valid(r) && r.width == m.width && r.height == m.height
    ensures Get(r, x, y) == value
    ensures forall a, b :: InBounds(m, a, b) && (a, b) != (x, y) ==> Get(r, a, b) == Get(m, a, b)
  {
    var row: seq<JByte> := m.rows[y][x := value];
    m.(rows := m.rows[y := row])
  }

  /** `set(x, y, int value)`: the value is narrowed to a byte first. */
  function SetInt(m: ByteMatrix, x: int, y: int, value: int): (r: ByteMatrix)
    requires Valid(m) && InBounds(m, x, y)
    ensures Valid(r) && r.width == m.width && r.height == m.height
    ensures (Get(r, x, y) - value) % 256 == 0
    ensures -128 <= value < 128 ==> Get(r, x, y) == value
    ensures forall a, b :: InBounds(m, a, b) && (a, b) != (x, y) ==> Get(r, a, b) == Get(m, a, b)
  {
    SetByte(m, x, y, ToJByte(value))
  }

  /** `set(x, y, boolean value)`: 1 for true, 0 for false. */
  function SetBool(m: ByteMatrix, x: int, y: int, value: bool): (r: ByteMatrix)
    requires Valid(m) && InBounds(m, x, y)
    ensures Valid(r) && r.width == m.width && r.height == m.height
    ensures Get(r, x, y) == (if value then 1 else 0)
    ensures forall a, b :: InBounds(m, a, b) && (a, b) != (x, y) ==> Get(r, a, b) == Get(m, a, b)
  {
    SetByte(m, x, y, if value then 1 else 0)
  }

  // ---- Accesses outside the grid ---------------------------------------------

  /** `get(x, y)` on any coordinates: outside the grid the array access
      `bytes[y][x]` is an `ArrayIndexOutOfBoundsException`. */
  function TryGet(m: ByteMatrix, x: int, y: int): (r: Result<JByte>)
    requires Valid(m)
    ensures r.Ok? <==> InBounds(m, x, y)
    ensures r.Err? ==> r.failure == IndexOutOfBounds
  {
    if InBounds(m, x, y) then Ok(Get(m, x, y)) else Err(IndexOutOfBounds)
  }

  /** `set(x, y, byte value)` on any coordinates, failing in the same way. */
  function TrySet(m: ByteMatrix, x: int, y: int, value: JByte): (r: Result<ByteMatrix>)
    requires Valid(m)
    ensures r.Ok? <==> InBounds(m, x, y)
    ensures r.Err? ==> r.failure == IndexOutOfBounds
    ensures r.Ok? ==> Valid(r.value) && r.value.width == m.width && r.value.height == m.height
  {
    if InBounds(m, x, y) then Ok(SetByte(m, x, y, value)) else Err(IndexOutOfBounds)
  }

  /** Reading after a successful write gives the value written at the
      written cell and the old answer, value or exception, everywhere
      else. */
  lemma TryGetAfterTrySet(m: ByteMatrix, x: int, y: int, value: JByte, a: int, b: int)
    requires Valid(m) && TrySet(m, x, y, value).Ok?
    ensures TryGet(TrySet(m, x, y, value).value, a, b)
            == if (a, b) == (x, y) then Ok(value) else TryGet(m, a, b)
  {
  }

  /** `clear(value)`: every cell becomes `value`. */
  function Clear(m: ByteMatrix, value: JByte): (r: ByteMatrix)
    requires Valid(m)
    ensures Valid(r) && r.width == m.width && r.height == m.height
    ensures forall x, y :: InBounds(r, x, y) ==> Get(r, x, y) == value
  {
    m.(rows := seq(m.height, _ => seq(m.width, _ => value)))
  }

  /** How `toString` shows one cell. */
  function CellText(v: JByte): (r: string)
    ensures |r| == 2
  {
    if v == 0 then " 0" else if v == 1 then " 1" else "  "
  }

  function RowText(row: seq<JByte>): (r: string)
    ensures |r| == 2 * |row|
  {
    if |row| == 0 then "" else RowText(row[..|row| - 1]) + CellText(row[|row| - 1])
  }

  function RowsText(rows: seq<seq<JByte>>): string
  {
    if |rows| == 0 then "" else RowsText(rows[..|rows| - 1]) + RowText(rows[|rows| - 1]) + "\n"
  }

  /** `toString()`: one line per row, two characters per cell. */
  function ToString(m: ByteMatrix): string
    requires Valid(m)
  {
    RowsText(m.rows)
  }

  lemma {:induction false} RowTextAt(row: seq<JByte>, x: nat)
    requires x < |row|
    ensures RowText(row)[2 * x] == CellText(row[x])[0]
    ensures RowText(row)[2 * x + 1] == CellText(row[x])[1]
    decreases |row|
  {
    var n := |row| - 1;
    var prefix, last := RowText(row[..n]), CellText(row[n]);
    assert RowText(row) == prefix + last;
    if x < n {
      RowTextAt(row[..n], x);
    }
  }

  lemma {:induction false} RowsTextLength(rows: seq<seq<JByte>>, w: nat)
    requires forall y :: 0 <= y < |rows| ==> |rows[y]| == w
    ensures |RowsText(rows)| == |rows| * (2 * w + 1)
    decreases |rows|
  {
    if |rows| > 0 {
      var n := |rows| - 1;
      RowsTextLength(rows[..n], w);
      MulNext(n, 2 * w + 1);
    }
  }

  /** The text of the first `k` rows is a prefix of the text of all rows. */
  lemma {:induction false} RowsTextPrefix(rows: seq<seq<JByte>>, k: nat)
    requires k <= |rows|
    ensures |RowsText(rows[..k])| <= |RowsText(rows)|
    ensures forall i :: 0 <= i < |RowsText(rows[..k])| ==> RowsText(rows[..k])[i] == RowsText(rows)[i]
    decreases |rows|
  {
    if k < |rows| {
      var n := |rows| - 1;
      assert rows[..n][..k] == rows[..k];
      RowsTextPrefix(rows[..n], k);
      var whole := RowsText(rows);
      var init := RowsText(rows[..n]);
      assert whole == init + (RowText(rows[n]) + "\n");
      forall i | 0 <= i < |RowsText(rows[..k])|
        ensures RowsText(rows[..k])[i] == whole[i]
      {
        assert whole[i] == init[i];
      }
    } else {
      assert rows[..k] == rows;
    }
  }

  /** Where line `y` of `toString()` starts: every line holds two characters
      per cell and a newline. */
  function LineStart(m: ByteMatrix, y: int): int
  {
    y * (2 * m.width + 1)
  }

  /** Character `i` of line `y` of the text of equally long rows. */
  lemma RowsTextAt(rows: seq<seq<JByte>>, w: nat, y: nat, i: nat)
    requires forall k :: 0 <= k < |rows| ==> |rows[k]| == w
    requires y < |rows| && i <= 2 * w
    ensures y * (2 * w + 1) + i < |RowsText(rows)|
    ensures RowsText(rows)[y * (2 * w + 1) + i] == (RowText(rows[y]) + "\n")[i]
  {
    var before := RowsText(rows[..y]);
    RowsTextLength(rows[..y], w);
    assert rows[..y + 1][..y] == rows[..y];
    var upto := RowsText(rows[..y + 1]);
    assert upto == before + (RowText(rows[y]) + "\n");
    RowsTextPrefix(rows, y + 1);
    assert upto[|before| + i] == (RowText(rows[y]) + "\n")[i];
  }

  /** Cell `x` of row `y` in the text of equally long rows. */
  lemma RowsTextCell(rows: seq<seq<JByte>>, w: nat, x: nat, y: nat)
    requires forall k :: 0 <= k < |rows| ==> |rows[k]| == w
    requires y < |rows| && x < w
    ensures y * (2 * w + 1) + 2 * x + 2 <= |RowsText(rows)|
    ensures RowsText(rows)[y * (2 * w + 1) + 2 * x .. y * (2 * w + 1) + 2 * x + 2] == CellText(rows[y][x])
  {
    var text := RowsText(rows);
    var start := y * (2 * w + 1);
    var line := RowText(rows[y]) + "\n";
    var cell := CellText(rows[y][x]);
    RowsTextAt(rows, w, y, 2 * x);
    RowsTextAt(rows, w, y, 2 * x + 1);
    RowTextAt(rows[y], x);
    assert text[start + 2 * x] == cell[0];
    assert text[start + 2 * x + 1] == cell[1];
    assert text[start + 2 * x .. start + 2 * x + 2] == cell;
  }

  /** `toString()` lays cell `(x, y)` out at a fixed place of a fixed-size text:
      row `y` is line `y`, cell `x` is characters `2x` and `2x + 1` of it, and
      every line ends with a newline. */
  lemma ToStringLayout(m: ByteMatrix, x: int, y: int)
    requires Valid(m) && InBounds(m, x, y)
    ensures |ToString(m)| == m.height * (2 * m.width + 1)
    ensures LineStart(m, y) + 2 * m.width < |ToString(m)|
    ensures ToString(m)[LineStart(m, y) + 2 * x .. LineStart(m, y) + 2 * x + 2] == CellText(Get(m, x, y))
    ensures ToString(m)[LineStart(m, y) + 2 * m.width] == '\n'
  {
    RowsTextLength(m.rows, m.width);
    RowsTextCell(m.rows, m.width, x, y);
    RowsTextAt(m.rows, m.width, y, 2 * m.width);
  }

  /** The three values `toString` distinguishes: 0, 1 and anything else,
      such as the -1 the layout code uses for a cell not yet written. */
  lemma CellTextCases(v: JByte)
    ensures CellText(v) == " 0" <==> v == 0
    ensures CellText(v) == " 1" <==> v == 1
    ensures CellText(v) == "  " <==> v != 0 && v != 1
  {
  }
}
