/** The searches of `BitMatrix` for dark cells: `getEnclosingRectangle`,
    `getTopLeftOnBit` and `getBottomRightOnBit`. They scan whole words and
    locate the lowest or highest set bit of a non-zero word with a shift loop,
    exactly as the Java code does. */
module BitMatrixScans {
  import opened Results
  import opened Arith
  import opened BitMatrices

  /** A dark cell inside the matrix. */
  predicate Dark(m: BitMatrix, x: int, y: int)
    requires Valid(m)
  {
    InBounds(m, x, y) && Get(m, x, y)
  }

  ghost predicate NoDark(m: BitMatrix)
    requires Valid(m)
  {
    forall x, y :: !Dark(m, x, y)
  }

  /** Bits `0 .. b - 1` of `w` are zero: `(w << (32 - b)) == 0`, written so
      that `b` fits in five bits. */
  predicate LowZero(w: bv32, b: bv5)
  {
    ((w << (31 - b)) << 1) == 0
  }

  /** Bits `b + 1 .. 31` of `w` are zero. */
  predicate HighZero(w: bv32, b: bv5)
  {
    ((w >> b) >> 1) == 0
  }

  lemma LowStep(w: bv32, b: bv5)
    requires LowZero(w, b) && (w << (31 - b)) == 0 && w != 0
    ensures b < 31 && LowZero(w, b + 1) && !Bit(w, b)
  {
  }

  lemma LowExit(w: bv32, b: bv5)
    requires LowZero(w, b) && (w << (31 - b)) != 0
    ensures Bit(w, b)
  {
  }

  lemma HighStep(w: bv32, b: bv5)
    requires HighZero(w, b) && (w >> b) == 0 && w != 0
    ensures b > 0 && HighZero(w, b - 1) && !Bit(w, b)
  {
  }

  lemma HighExit(w: bv32, b: bv5)
    requires HighZero(w, b) && (w >> b) != 0
    ensures Bit(w, b)
  {
  }

  lemma Successor(b: bv5)
    requires b < 31
    ensures (b + 1) as int == b as int + 1
  {
  }

  lemma Predecessor(b: bv5)
    requires b > 0
    ensures (b - 1) as int == b as int - 1
  {
  }

  lemma AsIntRoundTrip(b: bv5)
    ensures 0 <= b as int < 32 && (b as int) as bv5 == b
  {
  }

  /** The inner scan of `getEnclosingRectangle` and `getTopLeftOnBit`: shift
      the word left by ever fewer places until something is left, which
      finds the lowest set bit of a non-zero word. */
  method LowestBit(w: bv32) returns (k: int)
    requires w != 0
    ensures 0 <= k < 32 && BitAt(w, k)
    ensures forall i :: 0 <= i < k ==> !BitAt(w, i)
  {
    var bit: bv5 := 0;
    k := 0;
    while (w << (31 - bit)) == 0
      invariant LowZero(w, bit) && k == bit as int
      invariant forall i :: 0 <= i < k ==> !BitAt(w, i)
      decreases 32 - k
    {
      LowStep(w, bit);
      AsIntRoundTrip(bit);
      Successor(bit);
      bit := bit + 1;
      k := k + 1;
    }
    LowExit(w, bit);
    AsIntRoundTrip(bit);
  }

  /** The inner scan of `getEnclosingRectangle` and `getBottomRightOnBit`:
      shift the word right by ever fewer places until something is left,
      which finds the highest set bit of a non-zero word. */
  method HighestBit(w: bv32) returns (k: int)
    requires w != 0
    ensures 0 <= k < 32 && BitAt(w, k)
    ensures forall i :: k < i < 32 ==> !BitAt(w, i)
  {
    var bit: bv5 := 31;
    k := 31;
    while (w >> bit) == 0
      invariant HighZero(w, bit) && k == bit as int
      invariant forall i :: k < i < 32 ==> !BitAt(w, i)
      decreases k
    {
      HighStep(w, bit);
      AsIntRoundTrip(bit);
      Predecessor(bit);
      bit := bit - 1;
      k := k - 1;
    }
    HighExit(w, bit);
    AsIntRoundTrip(bit);
  }

  /** Index of word `j` of row `y`. */
  function WordIndex(m: BitMatrix, y: int, j: int): int
  {
    y * m.rowSize + j
  }

  lemma WordIndexInRange(m: BitMatrix, y: int, j: int)
    requires Shaped(m) && 0 <= y < m.height && 0 <= j < m.rowSize
    ensures 0 <= WordIndex(m, y, j) < |m.bits|
  {
    RowMajorLess(y, j, m.height, 0, m.rowSize);
  }

  /** A set bit of a word is a dark cell; the padding bits never are set. */
  lemma WordBitDark(m: BitMatrix, y: int, j: int, i: int)
    requires Valid(m) && 0 <= y < m.height && 0 <= j < m.rowSize && 0 <= i < 32
    ensures 0 <= WordIndex(m, y, j) < |m.bits|
    ensures BitAt(m.bits[WordIndex(m, y, j)], i) <==> Dark(m, j * 32 + i, y)
  {
    WordIndexInRange(m, y, j);
    var x := j * 32 + i;
    DivModUnique(x, 32, j, i);
    MulLe(j + 1, m.rowSize, 32);
    assert Offset(m, x, y) == WordIndex(m, y, j);
    assert Pos(x) == i as bv5;
    assert InWords(m, x, y);
    assert Get(m, x, y) == BitAt(m.bits[WordIndex(m, y, j)], i);
  }

  /** A dark cell is a set bit of its word. */
  lemma DarkWordBit(m: BitMatrix, x: int, y: int)
    requires Valid(m) && Dark(m, x, y)
    ensures 0 <= x / 32 < m.rowSize && x == (x / 32) * 32 + x % 32
    ensures 0 <= WordIndex(m, y, x / 32) < |m.bits|
    ensures BitAt(m.bits[WordIndex(m, y, x / 32)], x % 32)
  {
    OffsetInRange(m, x, y);
  }

  /** A word that is zero holds no dark cell. */
  lemma ZeroWordLight(m: BitMatrix, x: int, y: int)
    requires Valid(m) && Dark(m, x, y)
    ensures 0 <= WordIndex(m, y, x / 32) < |m.bits|
    ensures m.bits[WordIndex(m, y, x / 32)] != 0
  {
    DarkWordBit(m, x, y);
    BitOfZero((x % 32) as bv5);
  }

  /** Cell `(a, b)` lies in a word the row-major scan has passed when it is
      at word `j` of row `y`. */
  predicate Scanned(a: int, b: int, y: int, j: int)
  {
    b < y || (b == y && a / 32 < j)
  }

  /** The dark cells lie in columns `left .. right` and rows `top .. bottom`,
      bounds included. */
  ghost predicate Encloses(m: BitMatrix, left: int, top: int, right: int, bottom: int)
    requires Valid(m)
  {
    forall x, y :: Dark(m, x, y) ==> left <= x <= right && top <= y <= bottom
  }

  /** Each of the four bounds is reached by a dark cell. */
  ghost predicate Tight(m: BitMatrix, left: int, top: int, right: int, bottom: int)
    requires Valid(m)
  {
    && (exists y :: Dark(m, left, y))
    && (exists y :: Dark(m, right, y))
    && (exists x :: Dark(m, x, top))
    && (exists x :: Dark(m, x, bottom))
  }

  /** A non-zero word has a set bit. */
  lemma SomeBit(w: bv32) returns (k: int)
    requires w != 0
    ensures 0 <= k < 32 && BitAt(w, k)
  {
    if forall i :: 0 <= i < 32 ==> !BitAt(w, i) {
      forall j: bv5
        ensures !Bit(w, j)
      {
        AsIntRoundTrip(j);
        assert !BitAt(w, j as int);
      }
      WordFromBits(w);
      assert false;
    }
    k :| 0 <= k < 32 && BitAt(w, k);
  }

  /** The state of the `getEnclosingRectangle` scan. */
  datatype Bounds = Bounds(left: int, top: int, right: int, bottom: int)

  /** No dark cell has been met yet. */
  predicate Initial(m: BitMatrix, s: Bounds)
  {
    s == Bounds(m.width, m.height, -1, -1)
  }

  /** Every bound is reached by a dark cell. */
  ghost predicate Reached(m: BitMatrix, s: Bounds)
    requires Valid(m)
  {
    && (exists y :: Dark(m, s.left, y))
    && (exists y :: Dark(m, s.right, y))
    && (exists x :: Dark(m, x, s.top))
    && (exists x :: Dark(m, x, s.bottom))
  }

  /** The dark cells among `cells` lie within the bounds. */
  ghost predicate Within(m: BitMatrix, s: Bounds, y: int, j: int)
    requires Valid(m)
  {
    forall a, b :: Dark(m, a, b) && Scanned(a, b, y, j) ==> s.left <= a <= s.right && s.top <= b <= s.bottom
  }

  /** Word `j` of every row starts left of `width`. */
  lemma WordStartsInside(m: BitMatrix, j: int)
    requires Shaped(m) && 0 <= j < m.rowSize
    ensures j * 32 < m.width
  {
    MulLe(j + 1, m.rowSize, 32);
  }

  /** The `left` update of `getEnclosingRectangle` for non-zero word `j` of
      row `y`: the lowest set bit is looked for only when the word starts
      left of `left`. */
  method LeftInWord(m: BitMatrix, y: int, j: int, left: int) returns (l: int)
    requires Valid(m) && 0 <= y < m.height && 0 <= j < m.rowSize
    requires 0 <= WordIndex(m, y, j) < |m.bits| && m.bits[WordIndex(m, y, j)] != 0
    ensures l <= left && (l == left || Dark(m, l, y))
    ensures left >= m.width ==> Dark(m, l, y)
    ensures forall a :: Dark(m, a, y) && a / 32 == j ==> l <= a
  {
    var theBits := m.bits[WordIndex(m, y, j)];
    WordStartsInside(m, j);
    l := left;
    if j * 32 < l {
      var bit := LowestBit(theBits);
      WordBitDark(m, y, j, bit);
      if j * 32 + bit < l {
        l := j * 32 + bit;
      }
    }
    forall a | Dark(m, a, y) && a / 32 == j
      ensures l <= a
    {
      DarkWordBit(m, a, y);
    }
  }

  /** The `right` update of `getEnclosingRectangle` for non-zero word `j` of
      row `y`: the highest set bit is looked for only when the word ends
      right of `right`. */
  method RightInWord(m: BitMatrix, y: int, j: int, right: int) returns (r: int)
    requires Valid(m) && 0 <= y < m.height && 0 <= j < m.rowSize
    requires 0 <= WordIndex(m, y, j) < |m.bits| && m.bits[WordIndex(m, y, j)] != 0
    ensures r >= right && (r == right || Dark(m, r, y))
    ensures right < 0 ==> Dark(m, r, y)
    ensures forall a :: Dark(m, a, y) && a / 32 == j ==> a <= r
  {
    var theBits := m.bits[WordIndex(m, y, j)];
    r := right;
    if j * 32 + 31 > r {
      var bit := HighestBit(theBits);
      WordBitDark(m, y, j, bit);
      if j * 32 + bit > r {
        r := j * 32 + bit;
      }
    }
    forall a | Dark(m, a, y) && a / 32 == j
      ensures a <= r
    {
      DarkWordBit(m, a, y);
    }
  }

  /** The body of the inner loop of `getEnclosingRectangle` for a non-zero
      word `j` of row `y`: the bounds widen to take in its dark cells. */
  method ScanWord(m: BitMatrix, y: int, j: int, s: Bounds) returns (t: Bounds)
    requires Valid(m) && 0 <= y < m.height && 0 <= j < m.rowSize
    requires 0 <= WordIndex(m, y, j) < |m.bits| && m.bits[WordIndex(m, y, j)] != 0
    requires Initial(m, s) || Reached(m, s)
    requires Within(m, s, y, j)
    ensures Reached(m, t)
    ensures Within(m, t, y, j + 1)
  {
    var top, bottom := s.top, s.bottom;
    ghost var some := SomeBit(m.bits[WordIndex(m, y, j)]);
    WordBitDark(m, y, j, some);
    if y < top {
      top := y;
    }
    if y > bottom {
      bottom := y;
    }
    var left := LeftInWord(m, y, j, s.left);
    var right := RightInWord(m, y, j, s.right);
    t := Bounds(left, top, right, bottom);
    assert Dark(m, j * 32 + some, y);
    assert Reached(m, t);
  }

  /** The loops of `getEnclosingRectangle`: the extreme columns and rows of
      the dark cells, or `width`, `height`, -1, -1 when there is none. */
  method Extent(m: BitMatrix) returns (s: Bounds)
    requires Valid(m)
    ensures NoDark(m) <==> Initial(m, s)
    ensures !NoDark(m) ==> Reached(m, s) && Encloses(m, s.left, s.top, s.right, s.bottom)
  {
    s := Bounds(m.width, m.height, -1, -1);
    var y := 0;
    while y < m.height
      invariant 0 <= y <= m.height
      invariant Initial(m, s) || Reached(m, s)
      invariant Within(m, s, y, 0)
    {
      var x32 := 0;
      while x32 < m.rowSize
        invariant 0 <= x32 <= m.rowSize
        invariant Initial(m, s) || Reached(m, s)
        invariant Within(m, s, y, x32)
      {
        WordIndexInRange(m, y, x32);
        var theBits := m.bits[WordIndex(m, y, x32)];
        if theBits != 0 {
          s := ScanWord(m, y, x32, s);
        } else {
          forall a | Dark(m, a, y) && a / 32 == x32
            ensures false
          {
            ZeroWordLight(m, a, y);
          }
        }
        x32 := x32 + 1;
      }
      y := y + 1;
    }
    forall a, b | Dark(m, a, b)
      ensures Scanned(a, b, m.height, 0)
    {
    }
  }

  /** `{left, top, width, height}`. */
  datatype Rect = Rect(left: int, top: int, width: int, height: int)

  /** What `getEnclosingRectangle` returns for a matrix with dark cells: the
      extreme dark columns are `left` and `left + width`, the extreme dark
      rows `top` and `top + height`. */
  ghost predicate IsEnclosingAsWritten(m: BitMatrix, r: Rect)
    requires Valid(m)
  {
    var b := Bounds(r.left, r.top, r.left + r.width, r.top + r.height);
    Reached(m, b) && Encloses(m, b.left, b.top, b.right, b.bottom)
  }

  /** `getEnclosingRectangle()`: `null` for a matrix without dark cells;
      otherwise `width = right - left` and `height = bottom - top`, where
      `right` and `bottom` are the last dark column and row. */
  method EnclosingRectangle(m: BitMatrix) returns (r: Option<Rect>)
    requires Valid(m)
    ensures r.None? <==> NoDark(m)
    ensures r.Some? ==> IsEnclosingAsWritten(m, r.value)
  {
    var s := Extent(m);
    var width := s.right - s.left;
    var height := s.bottom - s.top;
    if width < 0 || height < 0 {
      return None;
    }
    return Some(Rect(s.left, s.top, width, height));
  }

  /** For a matrix with a single dark cell the rectangle returned has width
      and height 0, so it encloses no cell. */
  lemma EnclosingRectangleOfOneCell(m: BitMatrix, x0: int, y0: int, r: Rect)
    requires Valid(m) && Dark(m, x0, y0)
    requires forall x, y :: Dark(m, x, y) ==> x == x0 && y == y0
    requires IsEnclosingAsWritten(m, r)
    ensures r == Rect(x0, y0, 0, 0)
  {
    var ly :| Dark(m, r.left, ly);
    var ry :| Dark(m, r.left + r.width, ry);
    var tx :| Dark(m, tx, r.top);
    var bx :| Dark(m, bx, r.top + r.height);
  }

  /** The rectangle the documentation promises: every dark cell lies in
      `[left, left + width) x [top, top + height)` and each of its four edges
      holds a dark cell. */
  ghost predicate IsEnclosing(m: BitMatrix, r: Rect)
    requires Valid(m)
  {
    && r.width >= 1 && r.height >= 1
    && (forall x, y :: Dark(m, x, y) ==> r.left <= x < r.left + r.width && r.top <= y < r.top + r.height)
    && Reached(m, Bounds(r.left, r.top, r.left + r.width - 1, r.top + r.height - 1))
  }

  /** `getEnclosingRectangle()` with the width and height counted
      inclusively, `right - left + 1` and `bottom - top + 1`. */
  method EnclosingRectangleCorrected(m: BitMatrix) returns (r: Option<Rect>)
    requires Valid(m)
    ensures r.None? <==> NoDark(m)
    ensures r.Some? ==> IsEnclosing(m, r.value)
  {
    var s := Extent(m);
    if s.right < s.left || s.bottom < s.top {
      return None;
    }
    return Some(Rect(s.left, s.top, s.right - s.left + 1, s.bottom - s.top + 1));
  }

  /** With the corrected count a single dark cell gets a 1 x 1 rectangle. */
  lemma EnclosingRectangleCorrectedOfOneCell(m: BitMatrix, x0: int, y0: int, r: Rect)
    requires Valid(m) && Dark(m, x0, y0)
    requires forall x, y :: Dark(m, x, y) ==> x == x0 && y == y0
    requires IsEnclosing(m, r)
    ensures r == Rect(x0, y0, 1, 1)
  {
    var ly :| Dark(m, r.left, ly);
    var ry :| Dark(m, r.left + r.width - 1, ry);
    var tx :| Dark(m, tx, r.top);
    var bx :| Dark(m, bx, r.top + r.height - 1);
  }

  /** Word `k` is word `k % rowSize` of row `k / rowSize`. */
  lemma WordPosition(m: BitMatrix, k: int)
    requires Shaped(m) && 0 <= k < |m.bits|
    ensures 0 <= k / m.rowSize < m.height && 0 <= k % m.rowSize < m.rowSize
    ensures WordIndex(m, k / m.rowSize, k % m.rowSize) == k
  {
    MulLe(m.height, k / m.rowSize, m.rowSize);
  }

  /** `(x, y)` comes before `(a, b)` in row-major order, or is it. */
  predicate RowMajorAtMost(x: int, y: int, a: int, b: int)
  {
    y < b || (y == b && x <= a)
  }

  /** `getTopLeftOnBit()`: the first dark cell in row-major order, found
      from the first non-zero word; `null` when there is none. */
  method TopLeftOnBit(m: BitMatrix) returns (r: Option<(int, int)>)
    requires Valid(m)
    ensures r.None? <==> NoDark(m)
    ensures r.Some? ==> Dark(m, r.value.0, r.value.1)
    ensures r.Some? ==> forall a, b :: Dark(m, a, b) ==> RowMajorAtMost(r.value.0, r.value.1, a, b)
  {
    var bitsOffset := 0;
    while bitsOffset < |m.bits| && m.bits[bitsOffset] == 0
      invariant 0 <= bitsOffset <= |m.bits|
      invariant forall k :: 0 <= k < bitsOffset ==> m.bits[k] == 0
    {
      bitsOffset := bitsOffset + 1;
    }
    if bitsOffset == |m.bits| {
      forall a, b | Dark(m, a, b)
        ensures false
      {
        ZeroWordLight(m, a, b);
      }
      return None;
    }
    var y := bitsOffset / m.rowSize;
    var x := (bitsOffset % m.rowSize) * 32;
    var theBits := m.bits[bitsOffset];
    var bit := LowestBit(theBits);
    ghost var j := bitsOffset % m.rowSize;
    WordPosition(m, bitsOffset);
    WordBitDark(m, y, j, bit);
    x := x + bit;
    forall a, b | Dark(m, a, b)
      ensures RowMajorAtMost(x, y, a, b)
    {
      ZeroWordLight(m, a, b);
      DarkWordBit(m, a, b);
      RowMajorLess(b, a / 32, y, j, m.rowSize);
    }
    return Some((x, y));
  }

  /** `getBottomRightOnBit()`: the last dark cell in row-major order, found
      from the last non-zero word; `null` when there is none. */
  method BottomRightOnBit(m: BitMatrix) returns (r: Option<(int, int)>)
    requires Valid(m)
    ensures r.None? <==> NoDark(m)
    ensures r.Some? ==> Dark(m, r.value.0, r.value.1)
    ensures r.Some? ==> forall a, b :: Dark(m, a, b) ==> RowMajorAtMost(a, b, r.value.0, r.value.1)
  {
    var bitsOffset := |m.bits| - 1;
    while bitsOffset >= 0 && m.bits[bitsOffset] == 0
      invariant -1 <= bitsOffset < |m.bits|
      invariant forall k :: bitsOffset < k < |m.bits| ==> m.bits[k] == 0
    {
      bitsOffset := bitsOffset - 1;
    }
    if bitsOffset < 0 {
      forall a, b | Dark(m, a, b)
        ensures false
      {
        ZeroWordLight(m, a, b);
      }
      return None;
    }
    var y := bitsOffset / m.rowSize;
    var x := (bitsOffset % m.rowSize) * 32;
    var theBits := m.bits[bitsOffset];
    var bit := HighestBit(theBits);
    ghost var j := bitsOffset % m.rowSize;
    WordPosition(m, bitsOffset);
    WordBitDark(m, y, j, bit);
    x := x + bit;
    forall a, b | Dark(m, a, b)
      ensures RowMajorAtMost(a, b, x, y)
    {
      ZeroWordLight(m, a, b);
      DarkWordBit(m, a, b);
      RowMajorLess(y, j, b, a / 32, m.rowSize);
    }
    return Some((x, y));
  }
}
