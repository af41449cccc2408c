/** The whole-matrix operations of `BitMatrix`: `xor`, `setRegion`, the row
    accessors and `rotate180`. Each is a loop over words or cells, as in
    Java, and returns the updated matrix. */
module BitMatrixOps {
  import opened Results
  import opened Arith
  import opened BitMatrices

  predicate SameSize(m: BitMatrix, r: BitMatrix)
  {
    r.width == m.width && r.height == m.height && r.rowSize == m.rowSize
  }

  /** `r` is `m` with every cell xor-ed with the same cell of `mask`. */
  ghost predicate IsXor(m: BitMatrix, mask: BitMatrix, r: BitMatrix)
    requires Valid(m) && Valid(mask) && SameSize(m, mask)
  {
    && Valid(r) && SameSize(m, r)
    && forall x, y :: InBounds(m, x, y) ==> Get(r, x, y) == (Get(m, x, y) != Get(mask, x, y))
  }

  /** Words that are the xor of two valid matrices' words make a valid matrix
      whose cells are the xor of theirs. */
  lemma XorCells(m: BitMatrix, mask: BitMatrix, bits: seq<bv32>)
    requires Valid(m) && Valid(mask) && SameSize(m, mask)
    requires |bits| == |m.bits|
    requires forall k :: 0 <= k < |bits| ==> bits[k] == m.bits[k] ^ mask.bits[k]
    ensures IsXor(m, mask, m.(bits := bits))
  {
    var r := m.(bits := bits);
    forall x, y | InWords(m, x, y)
      ensures Get(r, x, y) == (Get(m, x, y) != Get(mask, x, y))
    {
      OffsetInRange(m, x, y);
      XorCell(m, mask, bits, x, y);
    }
  }

  /** One cell of the word-wise xor. */
  lemma XorCell(m: BitMatrix, mask: BitMatrix, bits: seq<bv32>, x: int, y: int)
    requires Shaped(m) && Shaped(mask) && SameSize(m, mask) && InWords(m, x, y)
    requires |bits| == |m.bits| && 0 <= Offset(m, x, y) < |bits|
    requires bits[Offset(m, x, y)] == m.bits[Offset(m, x, y)] ^ mask.bits[Offset(m, x, y)]
    ensures Shaped(m.(bits := bits))
    ensures Get(m.(bits := bits), x, y) == (Get(m, x, y) != Get(mask, x, y))
  {
    var k := Offset(m, x, y);
    BitXor(m.bits[k], mask.bits[k], Pos(x));
  }

  /** `xor(mask)`: flips every cell where `mask` is dark. Masks of another
      size are an `IllegalArgumentException`. */
  method Xor(m: BitMatrix, mask: BitMatrix) returns (r: Result<BitMatrix>)
    requires Valid(m) && Valid(mask)
    ensures r.Ok? <==> m.width == mask.width && m.height == mask.height && m.rowSize == mask.rowSize
    ensures r.Err? ==> r.failure == IllegalArgument
    ensures r.Ok? ==> SameSize(m, mask) && IsXor(m, mask, r.value)
  {
    if m.width != mask.width || m.height != mask.height || m.rowSize != mask.rowSize {
      return Err(IllegalArgument);
    }
    var bits := m.bits;
    var y := 0;
    while y < m.height
      invariant 0 <= y <= m.height
      invariant |bits| == |m.bits|
      invariant forall k :: 0 <= k < y * m.rowSize ==> bits[k] == m.bits[k] ^ mask.bits[k]
      invariant forall k :: y * m.rowSize <= k < |bits| ==> bits[k] == m.bits[k]
    {
      var offset := y * m.rowSize;
      MulLe(y + 1, m.height, m.rowSize);
      MulNext(y, m.rowSize);
      var x := 0;
      while x < m.rowSize
        invariant 0 <= x <= m.rowSize
        invariant |bits| == |m.bits|
        invariant forall k :: 0 <= k < offset + x ==> bits[k] == m.bits[k] ^ mask.bits[k]
        invariant forall k :: offset + x <= k < |bits| ==> bits[k] == m.bits[k]
      {
        bits := bits[offset + x := bits[offset + x] ^ mask.bits[offset + x]];
        x := x + 1;
      }
      y := y + 1;
    }
    XorCells(m, mask, bits);
    return Ok(m.(bits := bits));
  }

  /** Xor-ing twice with the same mask gives back the matrix. */
  lemma XorTwice(m: BitMatrix, mask: BitMatrix, r1: BitMatrix, r2: BitMatrix)
    requires Valid(m) && Valid(mask) && SameSize(m, mask)
    requires IsXor(m, mask, r1) && IsXor(r1, mask, r2)
    ensures r2 == m
  {
    SameCellsSameMatrix(r2, m);
  }

  /** The rectangle `[left, left + width) x [top, top + height)`. */
  predicate InRect(x: int, y: int, left: int, top: int, width: int, height: int)
  {
    left <= x < left + width && top <= y < top + height
  }

  /** `r` is `m` with every cell of the rectangle made dark. */
  ghost predicate IsRegionSet(m: BitMatrix, left: int, top: int, width: int, height: int, r: BitMatrix)
    requires Valid(m)
  {
    && Valid(r) && SameSize(m, r)
    && forall x, y :: InBounds(m, x, y) ==> Get(r, x, y) == (Get(m, x, y) || InRect(x, y, left, top, width, height))
  }

  /** `setRegion(left, top, width, height)`: a negative corner, a side below 1
      and a rectangle that leaves the matrix are each an
      `IllegalArgumentException`, checked in that order. */
  method SetRegion(m: BitMatrix, left: int, top: int, width: int, height: int) returns (r: Result<BitMatrix>)
    requires Valid(m)
    ensures r.Ok? <==> top >= 0 && left >= 0 && height >= 1 && width >= 1
                       && top + height <= m.height && left + width <= m.width
    ensures r.Err? ==> r.failure == IllegalArgument
    ensures r.Ok? ==> IsRegionSet(m, left, top, width, height, r.value)
  {
    if top < 0 || left < 0 {
      return Err(IllegalArgument);
    }
    if height < 1 || width < 1 {
      return Err(IllegalArgument);
    }
    var right := left + width;
    var bottom := top + height;
    if bottom > m.height || right > m.width {
      return Err(IllegalArgument);
    }
    var cur := m;
    var y := top;
    while y < bottom
      invariant top <= y <= bottom
      invariant Valid(cur) && SameSize(m, cur)
      invariant forall a, b :: InBounds(m, a, b) ==>
        Get(cur, a, b) == (Get(m, a, b) || InRect(a, b, left, top, width, y - top))
    {
      var x := left;
      while x < right
        invariant left <= x <= right
        invariant Valid(cur) && SameSize(m, cur)
        invariant forall a, b :: InBounds(m, a, b) ==>
          Get(cur, a, b) == (Get(m, a, b) || InRect(a, b, left, top, width, y - top) || (b == y && left <= a < x))
      {
        cur := Set(cur, x, y);
        x := x + 1;
      }
      y := y + 1;
    }
    return Ok(cur);
  }

  /** Setting the same region twice changes nothing the second time. */
  lemma SetRegionIdempotent(m: BitMatrix, left: int, top: int, width: int, height: int, r1: BitMatrix, r2: BitMatrix)
    requires Valid(m)
    requires IsRegionSet(m, left, top, width, height, r1)
    requires IsRegionSet(r1, left, top, width, height, r2)
    ensures r2 == r1
  {
    SameCellsSameMatrix(r2, r1);
  }

  /** `getRow(y, row)`: the cells of row `y`, as a `BitArray` of `width` bits. */
  function Row(m: BitMatrix, y: int): (r: seq<bool>)
    requires Valid(m) && 0 <= y < m.height
    ensures |r| == m.width
    ensures forall x :: 0 <= x < m.width ==> r[x] == Get(m, x, y)
  {
    seq(m.width, x requires 0 <= x < m.width => Get(m, x, y))
  }

  /** `BitArray.reverse()` on a `width`-bit array. */
  function Reverse(row: seq<bool>): (r: seq<bool>)
    ensures |r| == |row|
    ensures forall k :: 0 <= k < |row| ==> r[k] == row[|row| - 1 - k]
  {
    seq(|row|, k requires 0 <= k < |row| => row[|row| - 1 - k])
  }

  /** `setRow(y, row)`: row `y` becomes `row`; the other rows keep their cells. */
  method SetRow(m: BitMatrix, y: int, row: seq<bool>) returns (r: BitMatrix)
    requires Valid(m) && 0 <= y < m.height && |row| == m.width
    ensures Valid(r) && SameSize(m, r)
    ensures Row(r, y) == row
    ensures forall a, b :: InBounds(m, a, b) && b != y ==> Get(r, a, b) == Get(m, a, b)
  {
    r := m;
    var x := 0;
    while x < m.width
      invariant 0 <= x <= m.width
      invariant Valid(r) && SameSize(m, r)
      invariant forall a, b :: InBounds(m, a, b) ==>
        Get(r, a, b) == (if b == y && a < x then row[a] else Get(m, a, b))
    {
      if row[x] {
        r := Set(r, x, y);
      } else {
        r := Unset(r, x, y);
      }
      x := x + 1;
    }
  }

  /** `r` is `m` turned by 180 degrees. */
  ghost predicate IsRotation(m: BitMatrix, r: BitMatrix)
    requires Valid(m)
  {
    && Valid(r) && SameSize(m, r)
    && forall x, y :: InBounds(m, x, y) ==> Get(r, x, y) == Get(m, m.width - 1 - x, m.height - 1 - y)
  }

  /** One step of `rotate180`: rows `i` and `height - 1 - i` exchange places
      and are reversed (the middle row of an odd height is only reversed). */
  method SwapReversedRows(m: BitMatrix, i: int) returns (r: BitMatrix)
    requires Valid(m) && 0 <= i <= m.height - 1 - i
    ensures Valid(r) && SameSize(m, r)
    ensures forall x, y :: InBounds(m, x, y) && (y == i || y == m.height - 1 - i) ==>
      Get(r, x, y) == Get(m, m.width - 1 - x, m.height - 1 - y)
    ensures forall x, y :: InBounds(m, x, y) && y != i && y != m.height - 1 - i ==> Get(r, x, y) == Get(m, x, y)
  {
    var j := m.height - 1 - i;
    var topRow := Reverse(Row(m, i));
    var bottomRow := Reverse(Row(m, j));
    var r1 := SetRow(m, i, bottomRow);
    r := SetRow(r1, j, topRow);
    RowCells(r1, i, bottomRow);
    RowCells(r, j, topRow);
  }

  lemma RowCells(m: BitMatrix, y: int, row: seq<bool>)
    requires Valid(m) && 0 <= y < m.height && Row(m, y) == row
    ensures forall x :: 0 <= x < m.width ==> Get(m, x, y) == row[x]
  {
  }

  /** The loop state of `rotate180` after `i` steps: the top `i` and bottom
      `i` rows are turned, the rows between are untouched. */
  ghost predicate TurnedOutside(m: BitMatrix, r: BitMatrix, i: int)
    requires Shaped(m)
  {
    && Shaped(r) && SameSize(m, r)
    && (forall x, y :: InBounds(m, x, y) && (y < i || y > m.height - 1 - i) ==>
          Get(r, x, y) == Get(m, m.width - 1 - x, m.height - 1 - y))
    && (forall x, y :: InBounds(m, x, y) && i <= y <= m.height - 1 - i ==> Get(r, x, y) == Get(m, x, y))
  }

  /** Swapping rows `i` and `height - 1 - i` turns two more rows. */
  lemma TurnStep(m: BitMatrix, r: BitMatrix, next: BitMatrix, i: int)
    requires Shaped(m) && TurnedOutside(m, r, i) && 0 <= i <= m.height - 1 - i
    requires Shaped(next) && SameSize(r, next)
    requires forall x, y :: InBounds(r, x, y) && (y == i || y == r.height - 1 - i) ==>
      Get(next, x, y) == Get(r, r.width - 1 - x, r.height - 1 - y)
    requires forall x, y :: InBounds(r, x, y) && y != i && y != r.height - 1 - i ==> Get(next, x, y) == Get(r, x, y)
    ensures TurnedOutside(m, next, i + 1)
  {
  }

  /** Once the loop has passed the middle row every row is turned. */
  lemma TurnedAll(m: BitMatrix, r: BitMatrix, i: int)
    requires Valid(m) && Valid(r) && i == (m.height + 1) / 2 && TurnedOutside(m, r, i)
    ensures IsRotation(m, r)
  {
  }

  /** `rotate180()`: rows `i` and `height - 1 - i` swap places, each
      reversed, for the top half of the rows. */
  method Rotate180(m: BitMatrix) returns (r: BitMatrix)
    requires Valid(m)
    ensures IsRotation(m, r)
  {
    var half := (m.height + 1) / 2;
    r := m;
    var i := 0;
    while i != half
      invariant 0 <= i <= half && Valid(r) && TurnedOutside(m, r, i)
    {
      var next := SwapReversedRows(r, i);
      TurnStep(m, r, next, i);
      r, i := next, i + 1;
    }
    TurnedAll(m, r, i);
  }

  /** Turning by 180 degrees twice gives back the matrix. */
  lemma RotateTwice(m: BitMatrix, r1: BitMatrix, r2: BitMatrix)
    requires Valid(m) && IsRotation(m, r1) && IsRotation(r1, r2)
    ensures r2 == m
  {
    SameCellsSameMatrix(r2, m);
  }
}
