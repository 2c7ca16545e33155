/**
 * Soundness of the cache key. Two grids the search can reach that share a
 * key have the same number of accepted fillings: they are filled up to the
 * same cell, their columns can be matched so that matched columns hold the
 * same number of each symbol, and every row holds the same number of each
 * symbol in both. Moving the empty part of each column of one grid to its
 * matched column of the other turns the solutions of one grid one-to-one
 * into solutions of the other.
 */
module Symmetry {
  import opened Wrappers
  import opened Grid
  import opened Constraints
  import opened Encoding
  import opened Scan
  import opened Counting
  import opened Matching
  import opened Tally

  /** A place the scan can stand: on a cell, or one past the last row. */
  predicate CursorOk(cur: Pos) {
    (cur.row < SIZE && cur.col < SIZE) || (cur.row == SIZE && cur.col == 0)
  }

  /** `b` is filled at exactly the cells before `cur`. */
  ghost predicate FilledBefore(b: Board, cur: Pos) {
    IsSquare(b) && CursorOk(cur)
    && forall i, j | 0 <= i < SIZE && 0 <= j < SIZE :: (b[i][j] != Empty <==> Before(i, j, cur.row, cur.col))
  }

  /** A grid the search reaches is filled at exactly the cells before its cursor. */
  lemma ScanShapedFilledBefore(b: Board)
    requires ScanShaped(b)
    ensures FilledBefore(b, Cursor(b))
  {
    FirstEmptySpec(b);
  }

  /** How many cells of column `j` lie before `cur`. */
  function ColumnFill(cur: Pos, j: nat): nat {
    cur.row + (if j < cur.col then 1 else 0)
  }

  /** How many cells of row `i` lie before `cur`. */
  function RowFill(cur: Pos, i: nat): nat {
    if i < cur.row then SIZE else if i == cur.row then cur.col else 0
  }

  lemma ColumnShape(b: Board, cur: Pos, j: nat)
    requires FilledBefore(b, cur) && j < SIZE
    ensures PrefixShape(Column(b, j), ColumnFill(cur, j))
  {
  }

  lemma RowShape(b: Board, cur: Pos, i: nat)
    requires FilledBefore(b, cur) && i < SIZE
    ensures PrefixShape(b[i], RowFill(cur, i))
  {
  }

  /** Summing the blanks of rows `k` onwards, row `i` having SIZE - RowFill(cur, i) of them. */
  lemma {:induction false} RowBlanksSum(rows: seq<seq<Cell>>, k: nat, cur: Pos)
    requires CursorOk(cur) && |rows| + k == SIZE
    requires forall i | 0 <= i < |rows| :: Count(rows[i], Empty) == SIZE - RowFill(cur, i + k)
    ensures CountIn(rows, Empty) == (SIZE - k) * SIZE - (if k <= cur.row then cur.row * SIZE + cur.col - k * SIZE else 0)
    decreases |rows|
  {
    if |rows| > 0 {
      RowBlanksSum(rows[1..], k + 1, cur);
    }
  }

  /** A grid filled before `cur` has as many blanks as cells from `cur` on. */
  lemma BlanksAtCursor(b: Board, cur: Pos)
    requires FilledBefore(b, cur)
    ensures Blanks(b) == SIZE * SIZE - (cur.row * SIZE + cur.col)
  {
    forall i | 0 <= i < SIZE
      ensures Count(b[i], Empty) == SIZE - RowFill(cur, i + 0)
    {
      RowShape(b, cur, i);
      PrefixCount(b[i], RowFill(cur, i));
    }
    RowBlanksSum(b, 0, cur);
    BoardTotal(b, Empty);
  }

  /** Reachable grids with the same key stand at the same cursor. */
  lemma SameCursor(b1: Board, b2: Board)
    requires ScanShaped(b1) && ScanShaped(b2) && Encode(b1) == Encode(b2)
    ensures Cursor(b1) == Cursor(b2)
  {
    ScanShapedFilledBefore(b1);
    ScanShapedFilledBefore(b2);
    WeightOfEncode(b1);
    WeightOfEncode(b2);
    BlanksAtCursor(b1, Cursor(b1));
    BlanksAtCursor(b2, Cursor(b2));
  }

  /**
   * The setting of the transfer: both grids are filled before `cur`, the
   * bijection `sigma` matches each column `l` of `b2` with a column of `b1`
   * on the same side of the cursor and with the same number of each symbol,
   * and every row holds the same number of each symbol in both grids.
   */
  ghost predicate Aligned(b1: Board, b2: Board, cur: Pos, sigma: seq<nat>, tau: seq<nat>) {
    FilledBefore(b1, cur) && FilledBefore(b2, cur) && Bijection(sigma, tau, SIZE)
    && (forall l | 0 <= l < SIZE :: (sigma[l] < cur.col <==> l < cur.col))
    && (forall l | 0 <= l < SIZE ::
          Count(Column(b1, sigma[l]), Zero) == Count(Column(b2, l), Zero)
          && Count(Column(b1, sigma[l]), One) == Count(Column(b2, l), One))
    && (forall i | 0 <= i < SIZE :: Count(b1[i], Zero) == Count(b2[i], Zero) && Count(b1[i], One) == Count(b2[i], One))
  }

  /**
   * Rows of two grids filled before the same cursor agree in count when the
   * rows the cursor has passed are balanced in both and the grids hold the
   * same number of the symbol: every other row is full and balanced or
   * empty, so the one row left must agree as well.
   */
  lemma RowCountsAgree(b1: Board, b2: Board, cur: Pos, v: Cell)
    requires FilledBefore(b1, cur) && FilledBefore(b2, cur) && v != Empty
    requires forall i | 0 <= i < SIZE && RowPassed(i, cur) :: Balanced(b1[i]) && Balanced(b2[i])
    requires CountIn(Columns(b1), v) == CountIn(Columns(b2), v)
    ensures forall i | 0 <= i < SIZE :: Count(b1[i], v) == Count(b2[i], v)
  {
    var e: nat := if cur.col > 0 then cur.row else if cur.row > 0 then cur.row - 1 else 0;
    forall i | 0 <= i < SIZE && i != e
      ensures Count(b1[i], v) == Count(b2[i], v)
    {
      if !RowPassed(i, cur) {
        RowShape(b1, cur, i);
        RowShape(b2, cur, i);
        PrefixCount(b1[i], RowFill(cur, i));
        PrefixCount(b2[i], RowFill(cur, i));
      }
    }
    BoardTotal(b1, v);
    BoardTotal(b2, v);
    CountInExcept(b1, b2, e, v);
  }

  /** Column `l` of `b2` and its match in `b1` are filled to the same depth, so they lie on the same side of the cursor. */
  lemma MatchedSide(b1: Board, b2: Board, cur: Pos, j: nat, l: nat)
    requires FilledBefore(b1, cur) && FilledBefore(b2, cur) && j < SIZE && l < SIZE
    requires Count(Column(b1, j), Zero) == Count(Column(b2, l), Zero)
    requires Count(Column(b1, j), One) == Count(Column(b2, l), One)
    ensures j < cur.col <==> l < cur.col
  {
    ColumnShape(b1, cur, j);
    ColumnShape(b2, cur, l);
    PrefixCount(Column(b1, j), ColumnFill(cur, j));
    PrefixCount(Column(b2, l), ColumnFill(cur, l));
  }

  /** Two reachable grids with the same key are aligned by some matching of their columns. */
  lemma AlignedOfSameKey(b1: Board, b2: Board) returns (sigma: seq<nat>, tau: seq<nat>)
    requires ScanShaped(b1) && ScanShaped(b2) && Encode(b1) == Encode(b2)
    ensures Aligned(b1, b2, Cursor(b1), sigma, tau)
  {
    var cur := Cursor(b1);
    SameCursor(b1, b2);
    ScanShapedFilledBefore(b1);
    ScanShapedFilledBefore(b2);
    EncodeIff(b1, b2);
    ColumnPairsAt(b1);
    ColumnPairsAt(b2);
    sigma, tau := Match(ColumnPairs(b1), ColumnPairs(b2));
    forall l | 0 <= l < SIZE
      ensures Count(Column(b1, sigma[l]), Zero) == Count(Column(b2, l), Zero)
      ensures Count(Column(b1, sigma[l]), One) == Count(Column(b2, l), One)
    {
      assert ColumnPairs(b1)[sigma[l]] == ColumnPairs(b2)[l];
    }
    forall l | 0 <= l < SIZE
      ensures sigma[l] < cur.col <==> l < cur.col
    {
      MatchedSide(b1, b2, cur, sigma[l], l);
    }
    NeededOfEncode(b1, Zero);
    NeededOfEncode(b2, Zero);
    NeededOfEncode(b1, One);
    NeededOfEncode(b2, One);
    RowCountsAgree(b1, b2, cur, Zero);
    RowCountsAgree(b1, b2, cur, One);
  }

  /** Arguments the transfer is defined for. */
  ghost predicate Fits(f: Board, b: Board, sigma: seq<nat>) {
    IsSquare(f) && IsSquare(b) && |sigma| == SIZE && forall l | 0 <= l < SIZE :: sigma[l] < SIZE
  }

  /**
   * The grid that keeps the filled cells of `b` and fills empty cell (i, l)
   * with cell (i, sigma[l]) of `f`.
   */
  ghost function Transfer(f: Board, b: Board, sigma: seq<nat>): Board {
    if Fits(f, b, sigma) then
      seq(SIZE, i requires 0 <= i < SIZE =>
        seq(SIZE, l requires 0 <= l < SIZE => if b[i][l] != Empty then b[i][l] else f[i][sigma[l]]))
    else f
  }

  lemma TransferAt(f: Board, b: Board, sigma: seq<nat>)
    requires Fits(f, b, sigma)
    ensures IsSquare(Transfer(f, b, sigma))
    ensures forall i, l | 0 <= i < SIZE && 0 <= l < SIZE ::
      Transfer(f, b, sigma)[i][l] == if b[i][l] != Empty then b[i][l] else f[i][sigma[l]]
  {
  }

  /** Column `l` of the transfer holds as many of each symbol as column sigma[l] of `f`. */
  lemma TransferColumn(b1: Board, b2: Board, cur: Pos, sigma: seq<nat>, tau: seq<nat>, f: Board, l: nat, v: Cell)
    requires Aligned(b1, b2, cur, sigma, tau) && IsSquare(f) && Extends(f, b1)
    requires l < SIZE && v != Empty
    ensures Fits(f, b2, sigma)
    ensures Count(Column(Transfer(f, b2, sigma), l), v) == Count(Column(f, sigma[l]), v)
  {
    var t := Transfer(f, b2, sigma);
    TransferAt(f, b2, sigma);
    var m := ColumnFill(cur, l);
    ColumnShape(b2, cur, l);
    ColumnShape(b1, cur, sigma[l]);
    assert ColumnFill(cur, sigma[l]) == m;
    SpliceCount(Column(b2, l), Column(f, sigma[l]), Column(b1, sigma[l]), Column(t, l), m, v);
  }

  /** Row `i` of the transfer holds as many of each symbol as row `i` of `f`. */
  lemma TransferRow(b1: Board, b2: Board, cur: Pos, sigma: seq<nat>, tau: seq<nat>, f: Board, i: nat, v: Cell)
    requires Aligned(b1, b2, cur, sigma, tau) && IsSquare(f) && Extends(f, b1)
    requires i < SIZE && v != Empty
    ensures Fits(f, b2, sigma)
    ensures Count(Transfer(f, b2, sigma)[i], v) == Count(f[i], v)
  {
    var t := Transfer(f, b2, sigma);
    TransferAt(f, b2, sigma);
    var m := RowFill(cur, i);
    RowShape(b2, cur, i);
    var y, y0 := Permute(f[i], sigma), Permute(b1[i], sigma);
    assert PrefixShape(y0, m) by {
      forall l | 0 <= l < SIZE
        ensures y0[l] == Empty <==> l >= m
      {
        assert Before(i, sigma[l], cur.row, cur.col) <==> Before(i, l, cur.row, cur.col);
      }
    }
    SpliceCount(b2[i], y, y0, t[i], m, v);
    PermuteMultiset(f[i], sigma, tau);
    PermuteMultiset(b1[i], sigma, tau);
    CountIsMultiplicity(y, v);
    CountIsMultiplicity(f[i], v);
    CountIsMultiplicity(y0, v);
    CountIsMultiplicity(b1[i], v);
  }

  /** The transfer of a solution of `b1` is a solution of `b2`. */
  lemma TransferSolution(b1: Board, b2: Board, cur: Pos, sigma: seq<nat>, tau: seq<nat>, f: Board)
    requires Aligned(b1, b2, cur, sigma, tau) && f in Solutions(b1)
    ensures Transfer(f, b2, sigma) in Solutions(b2)
  {
    FillingsIff(b1, f);
    var t := Transfer(f, b2, sigma);
    TransferAt(f, b2, sigma);
    assert Full(t) && Extends(t, b2);
    FillingsIff(b2, t);
    AcceptIff(f);
    AcceptIff(t);
    forall k | 0 <= k < SIZE
      ensures Balanced(t[k]) && Balanced(Column(t, k))
    {
      TransferRow(b1, b2, cur, sigma, tau, f, k, Zero);
      TransferRow(b1, b2, cur, sigma, tau, f, k, One);
      TransferColumn(b1, b2, cur, sigma, tau, f, k, Zero);
      TransferColumn(b1, b2, cur, sigma, tau, f, k, One);
    }
    assert Solution(t);
  }

  /** Two fillings of `b1` with the same transfer are the same filling. */
  lemma TransferInjective(b1: Board, b2: Board, cur: Pos, sigma: seq<nat>, tau: seq<nat>, f: Board, g: Board)
    requires Aligned(b1, b2, cur, sigma, tau)
    requires IsSquare(f) && Extends(f, b1) && IsSquare(g) && Extends(g, b1)
    requires Transfer(f, b2, sigma) == Transfer(g, b2, sigma)
    ensures f == g
  {
    TransferAt(f, b2, sigma);
    TransferAt(g, b2, sigma);
    forall i, j | 0 <= i < SIZE && 0 <= j < SIZE
      ensures f[i][j] == g[i][j]
    {
      if b1[i][j] == Empty {
        var l := tau[j];
        assert sigma[l] == j;
        assert Before(i, j, cur.row, cur.col) <==> Before(i, l, cur.row, cur.col);
        assert Transfer(f, b2, sigma)[i][l] == f[i][j];
      }
    }
    SameCells(f, g);
  }

  /** Aligned grids: the one whose columns are matched into the other has no more solutions. */
  lemma AlignedEmbed(b1: Board, b2: Board, cur: Pos, sigma: seq<nat>, tau: seq<nat>)
    requires Aligned(b1, b2, cur, sigma, tau)
    ensures |Solutions(b1)| <= |Solutions(b2)|
  {
    var s1, s2 := Solutions(b1), Solutions(b2);
    var move := f => Transfer(f, b2, sigma);
    forall f | f in s1
      ensures move(f) in s2
    {
      TransferSolution(b1, b2, cur, sigma, tau, f);
    }
    forall f, g | f in s1 && g in s1 && move(f) == move(g)
      ensures f == g
    {
      FillingsIff(b1, f);
      FillingsIff(b1, g);
      TransferInjective(b1, b2, cur, sigma, tau, f, g);
    }
    InjectionCard(s1, s2, move);
  }

  /** A reachable grid has no more solutions than any reachable grid with its key. */
  lemma SolutionsEmbed(b1: Board, b2: Board)
    requires ScanShaped(b1) && ScanShaped(b2) && Encode(b1) == Encode(b2)
    ensures |Solutions(b1)| <= |Solutions(b2)|
  {
    var sigma, tau := AlignedOfSameKey(b1, b2);
    AlignedEmbed(b1, b2, Cursor(b1), sigma, tau);
  }

  /**
   * The cache key is sound for the grids the search reaches: two of them
   * with the same key have the same number of accepted fillings, so a count
   * stored for one is the right answer for the other.
   */
  lemma SameKeySameCount(b1: Board, b2: Board)
    requires ScanShaped(b1) && ScanShaped(b2) && Encode(b1) == Encode(b2)
    ensures |Solutions(b1)| == |Solutions(b2)|
  {
    SolutionsEmbed(b1, b2);
    SolutionsEmbed(b2, b1);
  }
}
