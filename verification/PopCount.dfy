/** The population-count table, eight rows of 32 entries as in the source, and the recurrence that
    pins every entry down. */
module PopCount {

  // Four rows are distinct: each is the first with a constant added.

  const ROW_0: seq<nat> := [0, 1, 1, 2, 1, 2, 2, 3, 1, 2, 2, 3, 2, 3, 3, 4, 1, 2, 2, 3, 2, 3, 3, 4, 2, 3, 3, 4, 3, 4, 4, 5]
  const ROW_1: seq<nat> := [1, 2, 2, 3, 2, 3, 3, 4, 2, 3, 3, 4, 3, 4, 4, 5, 2, 3, 3, 4, 3, 4, 4, 5, 3, 4, 4, 5, 4, 5, 5, 6]
  const ROW_2: seq<nat> := [2, 3, 3, 4, 3, 4, 4, 5, 3, 4, 4, 5, 4, 5, 5, 6, 3, 4, 4, 5, 4, 5, 5, 6, 4, 5, 5, 6, 5, 6, 6, 7]
  const ROW_3: seq<nat> := [3, 4, 4, 5, 4, 5, 5, 6, 4, 5, 5, 6, 5, 6, 6, 7, 4, 5, 5, 6, 5, 6, 6, 7, 5, 6, 6, 7, 6, 7, 7, 8]

  const ONE_BIT_COUNT: seq<nat> := ROW_0 + ROW_1 + ROW_1 + ROW_2 + ROW_1 + ROW_2 + ROW_2 + ROW_3

  lemma Row0Even(k: nat)
    requires k < 16
    ensures |ROW_0| == 32 && ROW_0[2 * k] == ROW_0[k]
  {
  }

  lemma Row0Odd(k: nat)
    requires k < 16
    ensures |ROW_0| == 32 && ROW_0[2 * k + 1] == ROW_0[k] + 1
  {
  }

  lemma LaterRows(i: nat)
    requires i < 32
    ensures |ROW_0| == |ROW_1| == |ROW_2| == |ROW_3| == 32
    ensures ROW_1[i] == ROW_0[i] + 1
    ensures ROW_2[i] == ROW_0[i] + 2
    ensures ROW_3[i] == ROW_0[i] + 3
  {
  }

  /** One row: the entries of the first row plus a constant. */
  ghost predicate RowPlus(row: seq<nat>, first: seq<nat>, c: nat) {
    |row| == |first| == 32 && forall i :: 0 <= i < 32 ==> row[i] == first[i] + c
  }

  ghost predicate Halves(t: seq<nat>) {
    forall v :: 0 <= v < |t| ==> t[v] == v % 2 + t[v / 2]
  }

  lemma Row0Halves()
    ensures |ROW_0| == 32 && Halves(ROW_0)
  {
    forall v | 0 <= v < |ROW_0|
      ensures ROW_0[v] == v % 2 + ROW_0[v / 2]
    {
      if v % 2 == 0 { Row0Even(v / 2); } else { Row0Odd(v / 2); }
    }
  }

  lemma Row0Zero()
    ensures |ROW_0| == 32 && ROW_0[0] == 0
  {
  }

  lemma Row0UpperHalf(k: nat)
    requires k < 16
    ensures |ROW_0| == 32 && ROW_0[16 + k] == ROW_0[k] + 1
  {
  }

  /** A table laid out as eight rows, each the first row plus its own bit count. */
  ghost predicate RowLayout(t: seq<nat>, row: seq<nat>, c: seq<nat>) {
    && |t| == 256 && |row| == 32 && |c| == 8
    && forall v :: 0 <= v < 256 ==> t[v] == row[v % 32] + c[v / 32]
  }

  const ROW_COUNTS: seq<nat> := [0, 1, 1, 2, 1, 2, 2, 3]

  lemma ConcatenatedRows(r0: seq<nat>, r1: seq<nat>, r2: seq<nat>, r3: seq<nat>, t: seq<nat>)
    requires RowPlus(r0, r0, 0) && RowPlus(r1, r0, 1) && RowPlus(r2, r0, 2) && RowPlus(r3, r0, 3)
    requires t == r0 + r1 + r1 + r2 + r1 + r2 + r2 + r3
    ensures RowLayout(t, r0, ROW_COUNTS)
  {
    forall v | 0 <= v < 256
      ensures t[v] == r0[v % 32] + ROW_COUNTS[v / 32]
    {
      var i := v % 32;
      match v / 32 {
        case 0 => assert t[v] == r0[i];
        case 1 => assert t[v] == r1[i];
        case 2 => assert t[v] == r1[i];
        case 3 => assert t[v] == r2[i];
        case 4 => assert t[v] == r1[i];
        case 5 => assert t[v] == r2[i];
        case 6 => assert t[v] == r2[i];
        case _ => assert t[v] == r3[i];
      }
    }
  }

  lemma RowsAlign()
    ensures RowPlus(ROW_0, ROW_0, 0) && RowPlus(ROW_1, ROW_0, 1) && RowPlus(ROW_2, ROW_0, 2) && RowPlus(ROW_3, ROW_0, 3)
  {
    forall i | 0 <= i < 32
      ensures ROW_1[i] == ROW_0[i] + 1 && ROW_2[i] == ROW_0[i] + 2 && ROW_3[i] == ROW_0[i] + 3
    {
      LaterRows(i);
    }
  }

  lemma HalfIndex(v: nat, r: nat, i: nat)
    requires v == 32 * r + i && i < 32
    ensures v / 2 == 32 * (r / 2) + (16 * (r % 2) + i / 2)
    ensures v / 32 == r && v % 32 == i
    ensures (v / 2) / 32 == r / 2 && (v / 2) % 32 == 16 * (r % 2) + i / 2
  {
  }

  lemma LayoutHalvesAt(t: seq<nat>, row: seq<nat>, c: seq<nat>, r: nat, i: nat)
    requires RowLayout(t, row, c) && Halves(row) && Halves(c) && r < 8 && i < 32
    requires forall k :: 0 <= k < 16 ==> row[16 + k] == row[k] + 1
    ensures t[32 * r + i] == i % 2 + t[(32 * r + i) / 2]
  {
    HalfIndex(32 * r + i, r, i);
    assert row[i] == i % 2 + row[i / 2];
    assert c[r] == r % 2 + c[r / 2];
    if r % 2 == 1 {
      assert row[16 + i / 2] == row[i / 2] + 1;
    }
  }

  lemma RowAndColumn(v: nat)
    requires v < 256
    ensures v / 32 < 8 && v % 32 < 32 && 32 * (v / 32) + v % 32 == v && (v % 32) % 2 == v % 2
  {
  }

  lemma LayoutHalves(t: seq<nat>, row: seq<nat>, c: seq<nat>)
    requires RowLayout(t, row, c) && Halves(row) && Halves(c)
    requires forall k :: 0 <= k < 16 ==> row[16 + k] == row[k] + 1
    ensures Halves(t)
  {
    forall v | 0 <= v < 256
      ensures t[v] == v % 2 + t[v / 2]
    {
      RowAndColumn(v);
      LayoutHalvesAt(t, row, c, v / 32, v % 32);
    }
  }

  lemma RowCountsHalve()
    ensures Halves(ROW_COUNTS)
  {
  }

  /** Every entry of the table is its lowest bit plus the entry of the remaining bits. */
  lemma TableHalves()
    ensures |ONE_BIT_COUNT| == 256 && Halves(ONE_BIT_COUNT) && ONE_BIT_COUNT[0] == 0
  {
    RowsAlign();
    Row0Zero();
    ConcatenatedRows(ROW_0, ROW_1, ROW_2, ROW_3, ONE_BIT_COUNT);
    Row0Halves();
    forall k | 0 <= k < 16
      ensures ROW_0[16 + k] == ROW_0[k] + 1
    {
      Row0UpperHalf(k);
    }
    RowCountsHalve();
    LayoutHalves(ONE_BIT_COUNT, ROW_0, ROW_COUNTS);
  }
}
