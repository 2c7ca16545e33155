/**
 * Counting facts about lines of cells: lines whose filled cells form a
 * prefix, lines spliced from two others, and the grand total of a board
 * counted by rows or by columns.
 */
module Tally {
  import opened Grid

  /** The first `m` cells of `s` are filled and the rest are empty. */
  ghost predicate PrefixShape(s: seq<Cell>, m: nat) {
    m <= |s| && forall i | 0 <= i < |s| :: (s[i] == Empty <==> i >= m)
  }

  /** A line with `m` filled cells in front holds `m` symbols and |s| - m blanks. */
  lemma {:induction false} PrefixCount(s: seq<Cell>, m: nat)
    requires PrefixShape(s, m)
    ensures Count(s, Zero) + Count(s, One) == m
    ensures Count(s, Empty) == |s| - m
  {
    if |s| > 0 {
      assert PrefixShape(s[1..], if m == 0 then 0 else m - 1);
      PrefixCount(s[1..], if m == 0 then 0 else m - 1);
    }
  }

  /**
   * Splicing: `z` takes its first `m` cells from `x` and the rest from `y`,
   * where `x` and `y0` have their filled cells exactly in front and `y` agrees
   * with `y0` there. Then `z` holds as many of a symbol as `x` and `y`
   * together, less those of `y0`.
   */
  lemma {:induction false} SpliceCount(x: seq<Cell>, y: seq<Cell>, y0: seq<Cell>, z: seq<Cell>, m: nat, v: Cell)
    requires |y| == |x| && |y0| == |x| && |z| == |x| && v != Empty
    requires PrefixShape(x, m) && PrefixShape(y0, m)
    requires forall i | 0 <= i < m :: y[i] == y0[i] && z[i] == x[i]
    requires forall i | m <= i < |x| :: z[i] == y[i]
    ensures Count(z, v) + Count(y0, v) == Count(x, v) + Count(y, v)
  {
    if |x| > 0 {
      var m' := if m == 0 then 0 else m - 1;
      assert PrefixShape(x[1..], m') && PrefixShape(y0[1..], m');
      SpliceCount(x[1..], y[1..], y0[1..], z[1..], m', v);
    }
  }

  /** Lines built by putting `h[j]` in front of `c[j]` hold, in total, the symbols of `h` and of `c`. */
  lemma {:induction false} ConsLines(lines: seq<seq<Cell>>, h: seq<Cell>, c: seq<seq<Cell>>, v: Cell)
    requires |lines| == |h| && |c| == |h|
    requires forall j | 0 <= j < |h| :: lines[j] == [h[j]] + c[j]
    ensures CountIn(lines, v) == Count(h, v) + CountIn(c, v)
  {
    if |h| > 0 {
      assert lines[0][1..] == c[0];
      ConsLines(lines[1..], h[1..], c[1..], v);
    }
  }

  lemma {:induction false} CountInNoCells(lines: seq<seq<Cell>>, v: Cell)
    requires forall j | 0 <= j < |lines| :: |lines[j]| == 0
    ensures CountIn(lines, v) == 0
  {
    if |lines| > 0 {
      CountInNoCells(lines[1..], v);
    }
  }

  /** The SIZE columns of a stack of rows, each SIZE cells wide. */
  function ColumnsOf(rows: seq<seq<Cell>>): (cols: seq<seq<Cell>>)
    requires forall i | 0 <= i < |rows| :: |rows[i]| == SIZE
    ensures |cols| == SIZE
    ensures forall j | 0 <= j < SIZE :: |cols[j]| == |rows| && forall i | 0 <= i < |rows| :: cols[j][i] == rows[i][j]
  {
    seq(SIZE, j requires 0 <= j < SIZE => seq(|rows|, i requires 0 <= i < |rows| => rows[i][j]))
  }

  /** Counting a stack of rows column by column gives the same total as counting it row by row. */
  lemma {:induction false} StackTotal(rows: seq<seq<Cell>>, v: Cell)
    requires forall i | 0 <= i < |rows| :: |rows[i]| == SIZE
    ensures CountIn(ColumnsOf(rows), v) == CountIn(rows, v)
  {
    if |rows| == 0 {
      CountInNoCells(ColumnsOf(rows), v);
    } else {
      ColumnsOfCons(rows);
      ConsLines(ColumnsOf(rows), rows[0], ColumnsOf(rows[1..]), v);
      StackTotal(rows[1..], v);
    }
  }

  /** Each column of a stack is the top row's cell followed by that column of the rows below. */
  lemma ColumnsOfCons(rows: seq<seq<Cell>>)
    requires |rows| > 0 && forall i | 0 <= i < |rows| :: |rows[i]| == SIZE
    ensures forall j | 0 <= j < SIZE :: ColumnsOf(rows)[j] == [rows[0][j]] + ColumnsOf(rows[1..])[j]
  {
    forall j | 0 <= j < SIZE
      ensures ColumnsOf(rows)[j] == [rows[0][j]] + ColumnsOf(rows[1..])[j]
    {
      ColumnOfCons(rows, j);
    }
  }

  lemma ColumnOfCons(rows: seq<seq<Cell>>, j: nat)
    requires |rows| > 0 && forall i | 0 <= i < |rows| :: |rows[i]| == SIZE
    requires j < SIZE
    ensures ColumnsOf(rows)[j] == [rows[0][j]] + ColumnsOf(rows[1..])[j]
  {
    var col, rest := ColumnsOf(rows)[j], ColumnsOf(rows[1..])[j];
    assert forall i | 0 <= i < |rows| :: col[i] == ([rows[0][j]] + rest)[i];
  }

  /** A board holds as many of a symbol counted by columns as counted by rows. */
  lemma BoardTotal(b: Board, v: Cell)
    requires IsSquare(b)
    ensures CountIn(Columns(b), v) == CountIn(b, v)
  {
    forall j | 0 <= j < SIZE
      ensures Columns(b)[j] == ColumnsOf(b)[j]
    {
    }
    assert Columns(b) == ColumnsOf(b);
    StackTotal(b, v);
  }

  /** Two stacks whose lines agree in count except at line `e` differ in total by what line `e` differs. */
  lemma {:induction false} CountInExcept(l1: seq<seq<Cell>>, l2: seq<seq<Cell>>, e: nat, v: Cell)
    requires |l1| == |l2| && e < |l1|
    requires forall i | 0 <= i < |l1| && i != e :: Count(l1[i], v) == Count(l2[i], v)
    ensures CountIn(l1, v) - Count(l1[e], v) == CountIn(l2, v) - Count(l2[e], v)
  {
    if e == 0 {
      CountInSame(l1[1..], l2[1..], v);
    } else {
      CountInExcept(l1[1..], l2[1..], e - 1, v);
    }
  }

  lemma {:induction false} CountInSame(l1: seq<seq<Cell>>, l2: seq<seq<Cell>>, v: Cell)
    requires |l1| == |l2|
    requires forall i | 0 <= i < |l1| :: Count(l1[i], v) == Count(l2[i], v)
    ensures CountIn(l1, v) == CountIn(l2, v)
  {
    if |l1| > 0 {
      CountInSame(l1[1..], l2[1..], v);
    }
  }
}
