/** The two-dimensional bit matrix the renderer draws into (`BitMatrix`).

    Bits are packed into 32-bit words, `rowSize = (width + 31) / 32` words per
    row, so that each row starts a new word. Cell `(x, y)` is column `x` of row
    `y` with the origin at the top left, and lives in bit `x & 0x1f` of word
    `y * rowSize + x / 32`. `true` means a dark module.

    The Java object is mutable; here a matrix is a value and every mutator
    returns the updated matrix.
 */
module BitMatrices {
  import opened Results
  import opened Arith

  datatype BitMatrix = BitMatrix(width: int, height: int, rowSize: int, bits: seq<bv32>)

  /** Bit `i` of a word, as `((w >>> i) & 1) != 0` reads it. */
  predicate Bit(w: bv32, i: bv5)
  {
    (w >> i) & 1 != 0
  }

  /** `Bit` for a position held in an `int`. */
  predicate BitAt(w: bv32, i: int)
    requires 0 <= i < 32
  {
    Bit(w, i as bv5)
  }

  /** `x & 0x1f`: the bit position of column `x` within its word. */
  function Pos(x: int): bv5
    requires x >= 0
  {
    (x % 32) as bv5
  }

  /** `1 << (x & 0x1f)`: the single bit of column `x` within its word. */
  function Mask(x: int): bv32
    requires x >= 0
  {
    1 << Pos(x)
  }

  /** The layout the constructor establishes. */
  predicate Shaped(m: BitMatrix)
  {
    && m.width >= 1 && m.height >= 1
    && m.rowSize == (m.width + 31) / 32
    && m.width <= m.rowSize * 32
    && |m.bits| == m.rowSize * m.height
  }

  /** A cell the words hold: a real column, or a padding bit past `width`
      in the last word of a row. */
  predicate InWords(m: BitMatrix, x: int, y: int)
  {
    0 <= x < m.rowSize * 32 && 0 <= y < m.height
  }

  predicate InBounds(m: BitMatrix, x: int, y: int)
  {
    0 <= x < m.width && 0 <= y < m.height
  }

  /** `y * rowSize + (x / 32)`: the word holding cell `(x, y)`. */
  function Offset(m: BitMatrix, x: int, y: int): int
  {
    y * m.rowSize + x / 32
  }

  lemma OffsetInRange(m: BitMatrix, x: int, y: int)
    requires Shaped(m) && InWords(m, x, y)
    ensures 0 <= x / 32 < m.rowSize
    ensures 0 <= Offset(m, x, y) < |m.bits|
  {
    MulLe(m.rowSize, x / 32, 32);
    RowMajorLess(y, x / 32, m.height, 0, m.rowSize);
  }

  /** The word of cell `(x, y)`. */
  function WordOf(m: BitMatrix, x: int, y: int): bv32
    requires Shaped(m) && InWords(m, x, y)
  {
    OffsetInRange(m, x, y);
    m.bits[Offset(m, x, y)]
  }

  /** `get(x, y)`. Reading a padding bit is allowed, as in Java. */
  function Get(m: BitMatrix, x: int, y: int): bool
    requires Shaped(m) && InWords(m, x, y)
  {
    Bit(WordOf(m, x, y), Pos(x))
  }

  /** The class invariant: the padding bits are never set, so the words are
      determined by the cells. */
  ghost predicate Valid(m: BitMatrix)
  {
    && Shaped(m)
    && forall x, y :: InWords(m, x, y) && x >= m.width ==> !Get(m, x, y)
  }

  /** Two cells share a word exactly when they share a row and a 32-column
      block, and are the same cell when they also share the bit position. */
  lemma SameWord(m: BitMatrix, a: int, b: int, x: int, y: int)
    requires Shaped(m) && InWords(m, a, b) && InWords(m, x, y)
    ensures Offset(m, a, b) == Offset(m, x, y) <==> b == y && a / 32 == x / 32
    ensures Offset(m, a, b) == Offset(m, x, y) && a % 32 == x % 32 <==> a == x && b == y
  {
    OffsetInRange(m, a, b);
    OffsetInRange(m, x, y);
    RowMajorUnique(b, a / 32, y, x / 32, m.rowSize);
  }

  /** The matrix with the word of cell `(x, y)` replaced. */
  function WithWord(m: BitMatrix, x: int, y: int, w: bv32): (r: BitMatrix)
    requires Shaped(m) && InWords(m, x, y)
    ensures Shaped(r) && r.width == m.width && r.height == m.height && r.rowSize == m.rowSize
  {
    OffsetInRange(m, x, y);
    m.(bits := m.bits[Offset(m, x, y) := w])
  }

  /** Replacing a word by one that agrees everywhere except at the bit of
      column `x` changes cell `(x, y)` and no other. */
  lemma WithWordCells(m: BitMatrix, x: int, y: int, w: bv32)
    requires Shaped(m) && InWords(m, x, y)
    requires forall i: bv5 :: i != Pos(x) ==> Bit(w, i) == Bit(WordOf(m, x, y), i)
    ensures Get(WithWord(m, x, y, w), x, y) == Bit(w, Pos(x))
    ensures forall a, b :: InWords(m, a, b) && (a != x || b != y) ==> Get(WithWord(m, x, y, w), a, b) == Get(m, a, b)
  {
    var r := WithWord(m, x, y, w);
    OffsetInRange(m, x, y);
    forall a, b | InWords(m, a, b) && (a != x || b != y)
      ensures Get(r, a, b) == Get(m, a, b)
    {
      SameWord(m, a, b, x, y);
      PosInjective(a, x);
      OffsetInRange(m, a, b);
    }
  }

  /** The same for a valid matrix and a real cell: the result is valid, and
      only cell `(x, y)` can change. */
  lemma WithWordValid(m: BitMatrix, x: int, y: int, w: bv32)
    requires Valid(m) && InBounds(m, x, y)
    requires forall i: bv5 :: i != Pos(x) ==> Bit(w, i) == Bit(WordOf(m, x, y), i)
    ensures Valid(WithWord(m, x, y, w))
    ensures Get(WithWord(m, x, y, w), x, y) == Bit(w, Pos(x))
    ensures forall a, b :: InBounds(m, a, b) && (a != x || b != y) ==> Get(WithWord(m, x, y, w), a, b) == Get(m, a, b)
  {
    WithWordCells(m, x, y, w);
  }

  lemma BitOr(w: bv32, j: bv5, i: bv5)
    ensures Bit(w | (1 << j), i) == (Bit(w, i) || i == j)
  {
  }

  lemma BitAndNot(w: bv32, j: bv5, i: bv5)
    ensures Bit(w & !(1 << j), i) == (Bit(w, i) && i != j)
  {
  }

  lemma BitXor(a: bv32, b: bv32, i: bv5)
    ensures Bit(a ^ b, i) == (Bit(a, i) != Bit(b, i))
  {
  }

  lemma BitXorSingle(w: bv32, j: bv5, i: bv5)
    ensures Bit(w ^ (1 << j), i) == (Bit(w, i) != (i == j))
  {
  }

  lemma BitOfZero(i: bv5)
    ensures !Bit(0, i)
  {
  }

  /** Two columns have the same bit position exactly when they agree modulo 32. */
  lemma PosInjective(a: int, x: int)
    requires a >= 0 && x >= 0
    ensures Pos(a) == Pos(x) <==> a % 32 == x % 32
  {
  }

  lemma OrBits(w: bv32, j: bv5)
    ensures forall i: bv5 :: Bit(w | (1 << j), i) == (Bit(w, i) || i == j)
  {
    forall i: bv5
      ensures Bit(w | (1 << j), i) == (Bit(w, i) || i == j)
    {
      BitOr(w, j, i);
    }
  }

  lemma AndNotBits(w: bv32, j: bv5)
    ensures forall i: bv5 :: Bit(w & !(1 << j), i) == (Bit(w, i) && i != j)
  {
    forall i: bv5
      ensures Bit(w & !(1 << j), i) == (Bit(w, i) && i != j)
    {
      BitAndNot(w, j, i);
    }
  }

  lemma XorBits(w: bv32, j: bv5)
    ensures forall i: bv5 :: Bit(w ^ (1 << j), i) == (Bit(w, i) != (i == j))
  {
    forall i: bv5
      ensures Bit(w ^ (1 << j), i) == (Bit(w, i) != (i == j))
    {
      BitXorSingle(w, j, i);
    }
  }

  lemma SetCells(m: BitMatrix, x: int, y: int)
    requires Valid(m) && InBounds(m, x, y)
    ensures var r := WithWord(m, x, y, WordOf(m, x, y) | Mask(x));
      && Valid(r) && Get(r, x, y)
      && forall a, b :: InBounds(m, a, b) && (a != x || b != y) ==> Get(r, a, b) == Get(m, a, b)
  {
    var j, w0 := Pos(x), WordOf(m, x, y);
    var w := w0 | (1 << j);
    OrBits(w0, j);
    assert forall i: bv5 :: i != j ==> Bit(w, i) == Bit(w0, i);
    assert Bit(w, j);
    WithWordValid(m, x, y, w);
  }

  /** `set(x, y)`: cell `(x, y)` becomes dark and no other cell changes. */
  function Set(m: BitMatrix, x: int, y: int): (r: BitMatrix)
    requires Valid(m) && InBounds(m, x, y)
    ensures Valid(r) && r.width == m.width && r.height == m.height && r.rowSize == m.rowSize
    ensures Get(r, x, y)
    ensures forall a, b :: InBounds(m, a, b) && (a != x || b != y) ==> Get(r, a, b) == Get(m, a, b)
  {
    SetCells(m, x, y);
    WithWord(m, x, y, WordOf(m, x, y) | Mask(x))
  }

  lemma UnsetCells(m: BitMatrix, x: int, y: int)
    requires Valid(m) && InBounds(m, x, y)
    ensures var r := WithWord(m, x, y, WordOf(m, x, y) & !Mask(x));
      && Valid(r) && !Get(r, x, y)
      && forall a, b :: InBounds(m, a, b) && (a != x || b != y) ==> Get(r, a, b) == Get(m, a, b)
  {
    var j, w0 := Pos(x), WordOf(m, x, y);
    var w := w0 & !(1 << j);
    AndNotBits(w0, j);
    assert forall i: bv5 :: i != j ==> Bit(w, i) == Bit(w0, i);
    assert !Bit(w, j);
    WithWordValid(m, x, y, w);
  }

  /** `unset(x, y)`: cell `(x, y)` becomes light and no other cell changes. */
  function Unset(m: BitMatrix, x: int, y: int): (r: BitMatrix)
    requires Valid(m) && InBounds(m, x, y)
    ensures Valid(r) && r.width == m.width && r.height == m.height && r.rowSize == m.rowSize
    ensures !Get(r, x, y)
    ensures forall a, b :: InBounds(m, a, b) && (a != x || b != y) ==> Get(r, a, b) == Get(m, a, b)
  {
    UnsetCells(m, x, y);
    WithWord(m, x, y, WordOf(m, x, y) & !Mask(x))
  }

  lemma FlipCells(m: BitMatrix, x: int, y: int)
    requires Valid(m) && InBounds(m, x, y)
    ensures var r := WithWord(m, x, y, WordOf(m, x, y) ^ Mask(x));
      && Valid(r) && Get(r, x, y) == !Get(m, x, y)
      && forall a, b :: InBounds(m, a, b) && (a != x || b != y) ==> Get(r, a, b) == Get(m, a, b)
  {
    var j, w0 := Pos(x), WordOf(m, x, y);
    var w := w0 ^ (1 << j);
    XorBits(w0, j);
    assert forall i: bv5 :: i != j ==> Bit(w, i) == Bit(w0, i);
    assert Bit(w, j) == !Bit(w0, j);
    WithWordValid(m, x, y, w);
  }

  /** `flip(x, y)`: cell `(x, y)` is inverted and no other cell changes. */
  function Flip(m: BitMatrix, x: int, y: int): (r: BitMatrix)
    requires Valid(m) && InBounds(m, x, y)
    ensures Valid(r) && r.width == m.width && r.height == m.height && r.rowSize == m.rowSize
    ensures Get(r, x, y) == !Get(m, x, y)
    ensures forall a, b :: InBounds(m, a, b) && (a != x || b != y) ==> Get(r, a, b) == Get(m, a, b)
  {
    FlipCells(m, x, y);
    WithWord(m, x, y, WordOf(m, x, y) ^ Mask(x))
  }

  // ---- Unchecked writes ------------------------------------------------------

  /** The three single-cell mutators. */
  datatype CellOp = SetOp | UnsetOp | FlipOp

  /** The word index `set`, `unset` and `flip` compute, with Java's division. */
  function RawOffset(m: BitMatrix, x: int, y: int): int
  {
    y * m.rowSize + JDiv(x, 32)
  }

  /** The word an operation leaves in place of `w` for column `x`. */
  function OpWord(op: CellOp, w: bv32, x: int): bv32
    requires x >= 0
  {
    match op
    case SetOp => w | Mask(x)
    case UnsetOp => w & !Mask(x)
    case FlipOp => w ^ Mask(x)
  }

  /** `set`, `unset` and `flip` check no bounds: they compute the word
      `y * rowSize + x / 32` (Java division) and the bit `x & 0x1f` (the low
      five bits of the two's complement) and write there. Only a word index
      outside the array is an `ArrayIndexOutOfBoundsException`; a column at
      or past `width` writes a padding bit or a cell of a later row. */
  function RawWrite(m: BitMatrix, op: CellOp, x: int, y: int): (r: Result<BitMatrix>)
    ensures r.Ok? <==> 0 <= RawOffset(m, x, y) < |m.bits|
    ensures r.Err? ==> r.failure == IndexOutOfBounds
    ensures r.Ok? ==> r.value.width == m.width && r.value.height == m.height && r.value.rowSize == m.rowSize
                      && |r.value.bits| == |m.bits|
    ensures r.Ok? ==> forall k :: 0 <= k < |m.bits| && k != RawOffset(m, x, y) ==> r.value.bits[k] == m.bits[k]
  {
    var offset := RawOffset(m, x, y);
    if offset < 0 || offset >= |m.bits| then Err(IndexOutOfBounds)
    else
      Ok(m.(bits := m.bits[offset := OpWord(op, m.bits[offset], x % 32)]))
  }

  /** Inside the words the unchecked write replaces the word of the cell. */
  lemma RawWriteWord(m: BitMatrix, op: CellOp, x: int, y: int)
    requires Shaped(m) && InWords(m, x, y)
    ensures RawWrite(m, op, x, y) == Ok(WithWord(m, x, y, OpWord(op, WordOf(m, x, y), x)))
  {
    OffsetInRange(m, x, y);
    JDivOfNatural(x, 32);
    assert RawOffset(m, x, y) == Offset(m, x, y);
    OpWordOfRemainder(op, WordOf(m, x, y), x);
  }

  lemma OpWordOfRemainder(op: CellOp, w: bv32, x: int)
    requires x >= 0
    ensures OpWord(op, w, x % 32) == OpWord(op, w, x)
  {
    MaskOfRemainder(x);
  }

  /** Column `x` and its remainder modulo 32 have the same bit. */
  lemma MaskOfRemainder(x: int)
    requires x >= 0
    ensures Mask(x % 32) == Mask(x)
  {
    assert (x % 32) % 32 == x % 32;
  }

  /** `get(x, y)` with no bounds on the caller: the word and bit the writes
      use; a word index outside the array is an
      `ArrayIndexOutOfBoundsException`. */
  function RawGet(m: BitMatrix, x: int, y: int): (r: Result<bool>)
    ensures r.Ok? <==> 0 <= RawOffset(m, x, y) < |m.bits|
    ensures r.Err? ==> r.failure == IndexOutOfBounds
  {
    var offset := RawOffset(m, x, y);
    if offset < 0 || offset >= |m.bits| then Err(IndexOutOfBounds)
    else Ok(Bit(m.bits[offset], Pos(x % 32)))
  }

  /** Inside the words the unchecked read is `Get`. */
  lemma RawGetInWords(m: BitMatrix, x: int, y: int)
    requires Shaped(m) && InWords(m, x, y)
    ensures RawGet(m, x, y) == Ok(Get(m, x, y))
  {
    OffsetInRange(m, x, y);
    JDivOfNatural(x, 32);
    assert RawOffset(m, x, y) == Offset(m, x, y);
    assert (x % 32) % 32 == x % 32;
  }

  /** A column past the words of its row reads a cell of a later row: in a
      10 x 2 matrix `get(40, 0)` is cell (8, 1). */
  lemma RawGetSpills(m: BitMatrix)
    requires Valid(m) && m.width == 10 && m.height == 2
    ensures RawGet(m, 40, 0) == Ok(Get(m, 8, 1))
  {
    assert m.rowSize == 1;
    RawGetInWords(m, 8, 1);
    RawGetAlike(m, 40, 0, 8, 1);
  }

  /** Two cells with the same word index and bit position read alike. */
  lemma RawGetAlike(m: BitMatrix, x: int, y: int, x2: int, y2: int)
    requires RawOffset(m, x, y) == RawOffset(m, x2, y2) && x % 32 == x2 % 32
    ensures RawGet(m, x, y) == RawGet(m, x2, y2)
  {
  }

  /** On a cell of the matrix the unchecked write is the checked one. */
  lemma RawWriteInBounds(m: BitMatrix, op: CellOp, x: int, y: int)
    requires Valid(m) && InBounds(m, x, y)
    ensures RawWrite(m, op, x, y).Ok?
    ensures op == SetOp ==> RawWrite(m, op, x, y).value == Set(m, x, y)
    ensures op == UnsetOp ==> RawWrite(m, op, x, y).value == Unset(m, x, y)
    ensures op == FlipOp ==> RawWrite(m, op, x, y).value == Flip(m, x, y)
  {
    match op {
      case SetOp => RawSetInBounds(m, x, y);
      case UnsetOp => RawUnsetInBounds(m, x, y);
      case FlipOp => RawFlipInBounds(m, x, y);
    }
  }

  lemma RawSetInBounds(m: BitMatrix, x: int, y: int)
    requires Valid(m) && InBounds(m, x, y)
    ensures RawWrite(m, SetOp, x, y) == Ok(Set(m, x, y))
  {
    RawWriteWord(m, SetOp, x, y);
  }

  lemma RawUnsetInBounds(m: BitMatrix, x: int, y: int)
    requires Valid(m) && InBounds(m, x, y)
    ensures RawWrite(m, UnsetOp, x, y) == Ok(Unset(m, x, y))
  {
    RawWriteWord(m, UnsetOp, x, y);
  }

  lemma RawFlipInBounds(m: BitMatrix, x: int, y: int)
    requires Valid(m) && InBounds(m, x, y)
    ensures RawWrite(m, FlipOp, x, y) == Ok(Flip(m, x, y))
  {
    RawWriteWord(m, FlipOp, x, y);
  }

  /** In a 10 x 2 matrix (one word per row) `set(40, 0)` is accepted and
      makes cell (8, 1) of the second row dark. */
  lemma RawWriteSpills()
    ensures var m := New(10, 2).value;
            && RawWrite(m, SetOp, 40, 0).Ok? && !Get(m, 8, 1)
            && Shaped(RawWrite(m, SetOp, 40, 0).value) && Get(RawWrite(m, SetOp, 40, 0).value, 8, 1)
  {
    var m := New(10, 2).value;
    assert m == BitMatrix(10, 2, 1, [0, 0]);
    var spill := RawWrite(m, SetOp, 40, 0).value;
    assert spill.bits == [0, 1 << 8];
  }

  /** In the same matrix `set(20, 0)` is accepted and sets a padding bit,
      which breaks the invariant `Valid`. */
  lemma RawWritePadding()
    ensures var m := New(10, 2).value;
            && RawWrite(m, SetOp, 20, 0).Ok? && Shaped(RawWrite(m, SetOp, 20, 0).value)
            && !Valid(RawWrite(m, SetOp, 20, 0).value)
  {
    var m := New(10, 2).value;
    assert m == BitMatrix(10, 2, 1, [0, 0]);
    var pad := RawWrite(m, SetOp, 20, 0).value;
    assert pad.bits == [1 << 20, 0];
    assert InWords(pad, 20, 0) && 20 >= pad.width && Get(pad, 20, 0);
  }

  /** `new BitMatrix(width, height)`: an all-light matrix; a side below 1 is
      an `IllegalArgumentException`. */
  function New(width: int, height: int): (r: Result<BitMatrix>)
    ensures r.Ok? <==> width >= 1 && height >= 1
    ensures r.Err? ==> r.failure == IllegalArgument
    ensures r.Ok? ==> Valid(r.value) && r.value.width == width && r.value.height == height
    ensures r.Ok? ==> forall x, y :: InBounds(r.value, x, y) ==> !Get(r.value, x, y)
  {
    if width < 1 || height < 1 then Err(IllegalArgument)
    else
      var rowSize := (width + 31) / 32;
      var m := BitMatrix(width, height, rowSize, seq(rowSize * height, _ => 0));
      AllZeroLight(m);
      Ok(m)
  }

  /** `clear()`: every cell becomes light. */
  function Clear(m: BitMatrix): (r: BitMatrix)
    requires Valid(m)
    ensures Valid(r) && r.width == m.width && r.height == m.height && r.rowSize == m.rowSize
    ensures forall x, y :: InBounds(r, x, y) ==> !Get(r, x, y)
  {
    var r := m.(bits := seq(|m.bits|, _ => 0));
    AllZeroLight(r);
    r
  }

  /** A matrix whose words are all zero has no dark cell, padding included. */
  lemma AllZeroLight(m: BitMatrix)
    requires Shaped(m)
    requires forall k :: 0 <= k < |m.bits| ==> m.bits[k] == 0
    ensures Valid(m)
    ensures forall x, y :: InWords(m, x, y) ==> !Get(m, x, y)
  {
    forall x, y | InWords(m, x, y)
      ensures !Get(m, x, y)
    {
      OffsetInRange(m, x, y);
      BitOfZero((x % 32) as bv5);
    }
  }

  /** Column `32 * j + i` has bit position `i`. */
  lemma PosOfColumn(j: int, i: bv5)
    requires j >= 0
    ensures 0 <= i as int < 32
    ensures (j * 32 + i as int) % 32 == i as int && (j * 32 + i as int) / 32 == j
    ensures Pos(j * 32 + i as int) == i
  {
    DivModUnique(j * 32 + i as int, 32, j, i as int);
  }

  /** Word `k` holds columns `32 * (k % rowSize)` to `32 * (k % rowSize) + 31`
      of row `k / rowSize`. */
  lemma CellOfWord(m: BitMatrix, k: int, i: bv5)
    requires Shaped(m) && 0 <= k < |m.bits|
    ensures 0 <= k / m.rowSize < m.height && 0 <= k % m.rowSize < m.rowSize
    ensures InWords(m, (k % m.rowSize) * 32 + i as int, k / m.rowSize)
    ensures Offset(m, (k % m.rowSize) * 32 + i as int, k / m.rowSize) == k
    ensures Get(m, (k % m.rowSize) * 32 + i as int, k / m.rowSize) == Bit(m.bits[k], i)
  {
    var rs := m.rowSize;
    var y, j := k / rs, k % rs;
    MulLe(m.height, y, rs);
    PosOfColumn(j, i);
    MulLe(j + 1, rs, 32);
  }

  lemma {:induction false} WordFromBits(d: bv32)
    requires forall i: bv5 :: !Bit(d, i)
    ensures d == 0
  {
    ByteOfWordZero(d, 0);
    ByteOfWordZero(d, 8);
    ByteOfWordZero(d, 16);
    ByteOfWordZero(d, 24);
    BytesZero(d);
  }

  lemma ByteOfWordZero(d: bv32, k: bv5)
    requires k <= 24
    requires !Bit(d, k) && !Bit(d, k + 1) && !Bit(d, k + 2) && !Bit(d, k + 3)
    requires !Bit(d, k + 4) && !Bit(d, k + 5) && !Bit(d, k + 6) && !Bit(d, k + 7)
    ensures (d >> k) & 0xFF == 0
  {
  }

  lemma BytesZero(d: bv32)
    requires (d >> 0) & 0xFF == 0 && (d >> 8) & 0xFF == 0 && (d >> 16) & 0xFF == 0 && (d >> 24) & 0xFF == 0
    ensures d == 0
  {
  }

  /** Two words with the same 32 bits are the same word. */
  lemma WordExt(a: bv32, b: bv32)
    requires forall i: bv5 :: Bit(a, i) == Bit(b, i)
    ensures a == b
  {
    var d := a ^ b;
    forall i: bv5
      ensures !Bit(d, i)
    {
      BitXor(a, b, i);
    }
    WordFromBits(d);
    XorZero(a, b);
  }

  lemma XorZero(a: bv32, b: bv32)
    requires a ^ b == 0
    ensures a == b
  {
  }

  /** Valid matrices of the same size with the same cells have the same words. */
  lemma Extensionality(m: BitMatrix, o: BitMatrix)
    requires Valid(m) && Valid(o) && m.width == o.width && m.height == o.height
    requires forall x, y :: InBounds(m, x, y) ==> Get(m, x, y) == Get(o, x, y)
    ensures m == o
  {
    forall k | 0 <= k < |m.bits|
      ensures m.bits[k] == o.bits[k]
    {
      forall i: bv5
        ensures Bit(m.bits[k], i) == Bit(o.bits[k], i)
      {
        CellOfWord(m, k, i);
        CellOfWord(o, k, i);
      }
      WordExt(m.bits[k], o.bits[k]);
    }
  }

  /** `equals(o)`: the sizes and the words agree, which for valid matrices
      means the sizes and the cells agree. */
  function Equals(m: BitMatrix, o: BitMatrix): (r: bool)
    requires Valid(m) && Valid(o)
    ensures r <==> m.width == o.width && m.height == o.height
                   && forall x, y :: InBounds(m, x, y) ==> Get(m, x, y) == Get(o, x, y)
  {
    SameCellsSameMatrix(m, o);
    m.width == o.width && m.height == o.height && m.rowSize == o.rowSize && m.bits == o.bits
  }

  lemma SameCellsSameMatrix(m: BitMatrix, o: BitMatrix)
    requires Valid(m) && Valid(o)
    ensures m.width == o.width && m.height == o.height
            && (forall x, y :: InBounds(m, x, y) ==> Get(m, x, y) == Get(o, x, y))
            ==> m == o
  {
    if m.width == o.width && m.height == o.height
       && forall x, y :: InBounds(m, x, y) ==> Get(m, x, y) == Get(o, x, y)
    {
      Extensionality(m, o);
    }
  }
}
