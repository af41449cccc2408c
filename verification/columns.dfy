/** Reading a list of codeword blocks column by column, the order in which
    `interleaveWithECBytes` emits them: codeword 0 of every block, then
    codeword 1 of every block that has one, and so on.
 */
module ColumnOrder {
  import opened Arith
  import opened BitStreams

  /** Codeword `j` of every block long enough to have one, in block order. */
  function Column(blocks: seq<seq<Byte>>, j: nat): seq<Byte>
    decreases |blocks|
  {
    if |blocks| == 0 then []
    else
      var last := blocks[|blocks| - 1];
      Column(blocks[..|blocks| - 1], j) + (if j < |last| then [last[j]] else [])
  }

  /** Columns `0 .. m - 1` one after the other. */
  function Columns(blocks: seq<seq<Byte>>, m: nat): seq<Byte>
  {
    if m == 0 then [] else Columns(blocks, m - 1) + Column(blocks, m - 1)
  }

  /** The length of the longest block, 0 for no blocks: the running
      `Math.max` of `interleaveWithECBytes`, started at 0. */
  function MaxLength(blocks: seq<seq<Byte>>): (r: nat)
    ensures forall b :: 0 <= b < |blocks| ==> |blocks[b]| <= r
    ensures r == 0 || exists b :: 0 <= b < |blocks| && |blocks[b]| == r
    ensures |blocks| > 0 && (forall b :: 0 <= b < |blocks| ==> |blocks[b]| <= |blocks[|blocks| - 1]|)
            ==> r == |blocks[|blocks| - 1]|
  {
    if |blocks| == 0 then 0
    else
      var init := blocks[..|blocks| - 1];
      var m := MaxLength(init);
      assert forall b :: 0 <= b < |init| ==> init[b] == blocks[b];
      assert m == 0 || exists b :: 0 <= b < |init| && |init[b]| == m;
      if m < |blocks[|blocks| - 1]| then |blocks[|blocks| - 1]| else m
  }

  /** When exactly the blocks from `first` on have a codeword `j`, column
      `j` holds those codewords in block order. */
  lemma {:induction false} ColumnFrom(blocks: seq<seq<Byte>>, j: nat, first: nat)
    requires first <= |blocks|
    requires forall b :: 0 <= b < |blocks| ==> (j < |blocks[b]| <==> first <= b)
    ensures |Column(blocks, j)| == |blocks| - first
    ensures forall b :: first <= b < |blocks| ==> Column(blocks, j)[b - first] == blocks[b][j]
    decreases |blocks|
  {
    if |blocks| > 0 {
      var n := |blocks| - 1;
      var init := blocks[..n];
      assert forall b :: 0 <= b < n ==> init[b] == blocks[b];
      if first <= n {
        ColumnFrom(init, j, first);
        var tail := if j < |blocks[n]| then [blocks[n][j]] else [];
        assert Column(blocks, j) == Column(init, j) + tail;
      } else {
        assert first == |blocks|;
        ColumnNone(init, j);
      }
    }
  }

  /** No block has a codeword `j`: the column is empty. */
  lemma {:induction false} ColumnNone(blocks: seq<seq<Byte>>, j: nat)
    requires forall b :: 0 <= b < |blocks| ==> |blocks[b]| <= j
    ensures Column(blocks, j) == []
    decreases |blocks|
  {
    if |blocks| > 0 {
      var init := blocks[..|blocks| - 1];
      assert forall b :: 0 <= b < |init| ==> init[b] == blocks[b];
      ColumnNone(init, j);
    }
  }

  /** Blocks of `m` codewords or more: the first `m` columns hold `m`
      codewords per block. */
  lemma {:induction false} ColumnsLength(blocks: seq<seq<Byte>>, m: nat)
    requires forall b :: 0 <= b < |blocks| ==> m <= |blocks[b]|
    ensures |Columns(blocks, m)| == m * |blocks|
    decreases m
  {
    if m > 0 {
      ColumnsLength(blocks, m - 1);
      FullColumnLength(blocks, m - 1);
      MulNext(m - 1, |blocks|);
    }
  }

  /** Every block has a codeword `j`: column `j` has one per block. */
  lemma FullColumnLength(blocks: seq<seq<Byte>>, j: nat)
    requires forall b :: 0 <= b < |blocks| ==> j < |blocks[b]|
    ensures |Column(blocks, j)| == |blocks|
  {
    ColumnFrom(blocks, j, 0);
  }

  /** Position `j * n + b`: codeword `j` of block `b` among full columns of
      `n` blocks. */
  function Slot(n: nat, j: nat, b: nat): nat
  {
    j * n + b
  }

  /** Blocks of `m` codewords or more: among the first `m` columns,
      codeword `j` of block `b` sits at position `j * |blocks| + b`. */
  lemma {:induction false} ColumnsAt(blocks: seq<seq<Byte>>, m: nat, j: nat, b: nat)
    requires forall b :: 0 <= b < |blocks| ==> m <= |blocks[b]|
    requires j < m && b < |blocks|
    ensures Slot(|blocks|, j, b) < |Columns(blocks, m)|
    ensures Columns(blocks, m)[Slot(|blocks|, j, b)] == blocks[b][j]
    decreases m
  {
    var n := |blocks|;
    ColumnsLength(blocks, m - 1);
    ColumnsLength(blocks, m);
    var prefix, column := Columns(blocks, m - 1), Column(blocks, m - 1);
    assert Columns(blocks, m) == prefix + column;
    if j < m - 1 {
      ColumnsAt(blocks, m - 1, j, b);
    } else {
      ColumnFrom(blocks, m - 1, 0);
      assert j * n + b == |prefix| + b;
    }
  }

  /** Blocks of `k` codewords followed by blocks of `k + 1`, the shape of
      the Reed-Solomon block groups. */
  ghost predicate TwoGroups(blocks: seq<seq<Byte>>, k: nat, first: nat)
  {
    && first <= |blocks|
    && forall b :: 0 <= b < |blocks| ==> |blocks[b]| == (if b < first then k else k + 1)
  }

  lemma MaxOfTwoGroups(blocks: seq<seq<Byte>>, k: nat, first: nat)
    requires 1 <= |blocks| && TwoGroups(blocks, k, first)
    ensures MaxLength(blocks) == if first == |blocks| then k else k + 1
  {
    assert forall b :: 0 <= b < |blocks| ==> |blocks[b]| <= |blocks[|blocks| - 1]|;
  }

  /** Column `m` comes after the first `m` columns. */
  lemma ColumnsNext(blocks: seq<seq<Byte>>, m: nat, p: nat)
    ensures |Columns(blocks, m + 1)| == |Columns(blocks, m)| + |Column(blocks, m)|
    ensures p < |Columns(blocks, m)| ==> Columns(blocks, m + 1)[p] == Columns(blocks, m)[p]
    ensures |Columns(blocks, m)| <= p < |Columns(blocks, m + 1)| ==>
              Columns(blocks, m + 1)[p] == Column(blocks, m)[p - |Columns(blocks, m)|]
  {
  }

  /** With some longer blocks, column `k` holds one codeword of each of
      them. */
  lemma ColumnsOneMoreLength(blocks: seq<seq<Byte>>, k: nat, first: nat)
    requires TwoGroups(blocks, k, first) && first < |blocks|
    ensures |Columns(blocks, k + 1)| == k * |blocks| + (|blocks| - first)
  {
    ColumnsLength(blocks, k);
    ColumnFrom(blocks, k, first);
    ColumnsNext(blocks, k, 0);
  }

  /** One more column keeps the first `k` columns in place. */
  lemma ColumnsOneMoreFull(blocks: seq<seq<Byte>>, k: nat, j: nat, b: nat)
    requires forall b :: 0 <= b < |blocks| ==> k <= |blocks[b]|
    requires b < |blocks| && j < k
    ensures Slot(|blocks|, j, b) < |Columns(blocks, k + 1)|
    ensures Columns(blocks, k + 1)[Slot(|blocks|, j, b)] == blocks[b][j]
  {
    ColumnsAt(blocks, k, j, b);
    ColumnsNext(blocks, k, Slot(|blocks|, j, b));
  }

  /** Column `k` lists the extra codewords of the longer blocks in order. */
  lemma ColumnsOneMoreExtra(blocks: seq<seq<Byte>>, k: nat, first: nat, b: nat)
    requires TwoGroups(blocks, k, first) && first <= b < |blocks|
    ensures Slot(|blocks|, k, b - first) < |Columns(blocks, k + 1)|
    ensures Columns(blocks, k + 1)[Slot(|blocks|, k, b - first)] == blocks[b][k]
  {
    ColumnsLength(blocks, k);
    ColumnFrom(blocks, k, first);
    ColumnsNext(blocks, k, Slot(|blocks|, k, b - first));
  }

  /** Reading every column up to the longest block of two groups gives
      every codeword once: `k` per block and one more per longer block. */
  lemma ColumnsTwoGroupsLength(blocks: seq<seq<Byte>>, k: nat, first: nat)
    requires 1 <= |blocks| && TwoGroups(blocks, k, first)
    ensures |Columns(blocks, MaxLength(blocks))| == k * |blocks| + (|blocks| - first)
  {
    MaxOfTwoGroups(blocks, k, first);
    if first == |blocks| {
      ColumnsLength(blocks, k);
    } else {
      ColumnsOneMoreLength(blocks, k, first);
    }
  }

  /** Where codeword `j` of block `b` lands when every column up to the
      longest block of two groups is read: at `j * |blocks| + b` for
      `j < k`, and the extra codewords of the longer blocks after all of
      those, in block order. */
  function TwoGroupsPosition(n: nat, k: nat, first: nat, j: nat, b: nat): nat
    requires first <= b || j < k
  {
    if j < k then Slot(n, j, b) else Slot(n, k, b - first)
  }

  lemma ColumnsTwoGroupsAt(blocks: seq<seq<Byte>>, k: nat, first: nat, j: nat, b: nat)
    requires 1 <= |blocks| && TwoGroups(blocks, k, first)
    requires b < |blocks| && (j < k || (j == k && first <= b))
    ensures TwoGroupsPosition(|blocks|, k, first, j, b) < |Columns(blocks, MaxLength(blocks))|
    ensures Columns(blocks, MaxLength(blocks))[TwoGroupsPosition(|blocks|, k, first, j, b)] == blocks[b][j]
  {
    MaxOfTwoGroups(blocks, k, first);
    if first == |blocks| {
      ColumnsAt(blocks, k, j, b);
    } else if j < k {
      ColumnsOneMoreFull(blocks, k, j, b);
    } else {
      ColumnsOneMoreExtra(blocks, k, first, b);
    }
  }
}
