/**
 * Scan order: the search fills cells left to right within a row and rows
 * top to bottom, always taking the first empty cell in that order.
 */
module Scan {
  import opened Wrappers
  import opened Grid
  import opened Constraints

  datatype Pos = Pos(row: nat, col: nat)

  /** Cell (i, j) comes strictly before cell (k, l) in row-major order. */
  predicate Before(i: nat, j: nat, k: nat, l: nat) {
    i < k || (i == k && j < l)
  }

  /** The first empty cell at or after (i, j) in scan order, if there is one. */
  function FirstEmptyFrom(b: Board, i: nat, j: nat): Option<Pos>
    requires IsSquare(b) && i <= SIZE && j <= SIZE
    decreases SIZE - i, SIZE - j
  {
    if i == SIZE then None
    else if j == SIZE then FirstEmptyFrom(b, i + 1, 0)
    else if b[i][j] == Empty then Some(Pos(i, j))
    else FirstEmptyFrom(b, i, j + 1)
  }

  /** The scan from (i, j) finds an empty cell with no empty cell between (i, j) and it, or finds none at all. */
  lemma {:induction false} FirstEmptyFromSpec(b: Board, i: nat, j: nat)
    requires IsSquare(b) && i <= SIZE && j <= SIZE
    decreases SIZE - i, SIZE - j
    ensures var r := FirstEmptyFrom(b, i, j);
      (r.None? ==>
        forall k, l | 0 <= k < SIZE && 0 <= l < SIZE && !Before(k, l, i, j) :: b[k][l] != Empty)
      && (r.Some? ==>
        r.value.row < SIZE && r.value.col < SIZE && b[r.value.row][r.value.col] == Empty
        && !Before(r.value.row, r.value.col, i, j)
        && forall k, l | 0 <= k < SIZE && 0 <= l < SIZE && !Before(k, l, i, j) && Before(k, l, r.value.row, r.value.col)
             :: b[k][l] != Empty)
  {
    if i == SIZE {
    } else if j == SIZE {
      FirstEmptyFromSpec(b, i + 1, 0);
    } else if b[i][j] != Empty {
      FirstEmptyFromSpec(b, i, j + 1);
    }
  }

  /** The first empty cell of the grid in scan order. */
  function FirstEmpty(b: Board): (r: Option<Pos>)
    requires IsSquare(b)
    ensures r.Some? ==> r.value.row < SIZE && r.value.col < SIZE && b[r.value.row][r.value.col] == Empty
  {
    FirstEmptyFromSpec(b, 0, 0);
    FirstEmptyFrom(b, 0, 0)
  }

  /** The first empty cell is empty and every cell before it is filled; there is none exactly when the grid is full. */
  lemma FirstEmptySpec(b: Board)
    requires IsSquare(b)
    ensures FirstEmpty(b).None? ==> Full(b)
    ensures var r := FirstEmpty(b);
      r.Some? ==>
        r.value.row < SIZE && r.value.col < SIZE && b[r.value.row][r.value.col] == Empty
        && forall k, l | 0 <= k < SIZE && 0 <= l < SIZE && Before(k, l, r.value.row, r.value.col) :: b[k][l] != Empty
  {
    FirstEmptyFromSpec(b, 0, 0);
  }

  /** An empty cell with no empty cell before it is the first empty cell. */
  lemma FirstEmptyIs(b: Board, p: Pos)
    requires IsSquare(b) && p.row < SIZE && p.col < SIZE && b[p.row][p.col] == Empty
    requires forall k, l | 0 <= k < SIZE && 0 <= l < SIZE && Before(k, l, p.row, p.col) :: b[k][l] != Empty
    ensures FirstEmpty(b) == Some(p)
  {
    FirstEmptySpec(b);
    var q := FirstEmpty(b).value;
    assert !Before(q.row, q.col, p.row, p.col);
    assert !Before(p.row, p.col, q.row, q.col);
  }

  /**
   * A grid that is neither rejected nor accepted has an empty cell, so the
   * scan the search performs next always finds one.
   */
  lemma OpenGridHasFirstEmpty(b: Board)
    requires IsSquare(b) && !Reject(b) && !Accept(b)
    ensures FirstEmpty(b).Some?
  {
    FirstEmptySpec(b);
    if FirstEmpty(b).None? {
      FullUnrejectedAccepted(b);
    }
  }

  /** The coordinates of the first empty cell, scanning row by row and returning early. */
  method FindFirstEmpty(c: array2<Cell>, ghost b: Board) returns (r: Option<Pos>)
    requires Holds(c, b)
    ensures r == FirstEmpty(b)
  {
    for row := 0 to SIZE
      invariant forall k, l | 0 <= k < row && 0 <= l < SIZE :: c[k, l] != Empty
    {
      for col := 0 to SIZE
        invariant forall k, l | 0 <= k < row && 0 <= l < SIZE :: c[k, l] != Empty
        invariant forall l | 0 <= l < col :: c[row, l] != Empty
      {
        if c[row, col] == Empty {
          FirstEmptyIs(b, Pos(row, col));
          return Some(Pos(row, col));
        }
      }
    }
    return None;
  }

  /** Where the scan stands: the first empty cell, or one past the last row when the grid is full. */
  function Cursor(b: Board): Pos
    requires IsSquare(b)
  {
    match FirstEmpty(b)
    case None => Pos(SIZE, 0)
    case Some(p) => p
  }

  /** Row `i` lies wholly before the cursor and the cursor has moved on into a later row. */
  predicate RowPassed(i: nat, cur: Pos) {
    i + 1 < cur.row || (i + 1 == cur.row && cur.col > 0)
  }

  /**
   * The shape of every grid the search visits: the filled cells are exactly
   * those before the cursor, and every row the cursor has moved past is balanced.
   */
  predicate ScanShaped(b: Board) {
    IsSquare(b)
    && (forall i, j | 0 <= i < SIZE && 0 <= j < SIZE && !Before(i, j, Cursor(b).row, Cursor(b).col) :: b[i][j] == Empty)
    && (forall i | 0 <= i < SIZE && RowPassed(i, Cursor(b)) :: Balanced(b[i]))
  }

  /** The all-empty root grid has the scan shape, with the cursor on the first cell. */
  lemma EmptyBoardScanShaped()
    ensures ScanShaped(EmptyBoard()) && Cursor(EmptyBoard()) == Pos(0, 0)
  {
    FirstEmptyIs(EmptyBoard(), Pos(0, 0));
  }

  /** The cell after `p` in scan order. */
  function Next(p: Pos): Pos {
    if p.col + 1 < SIZE then Pos(p.row, p.col + 1) else Pos(p.row + 1, 0)
  }

  /** Filling the first empty cell of a scan-shaped grid moves the cursor one cell on. */
  lemma CursorAfterFill(b: Board, v: Cell)
    requires ScanShaped(b) && FirstEmpty(b).Some? && v != Empty
    ensures var p := FirstEmpty(b).value;
      var b' := SetCell(b, p.row, p.col, v);
      Cursor(b') == Next(p)
      && forall i, j | 0 <= i < SIZE && 0 <= j < SIZE && !Before(i, j, Next(p).row, Next(p).col) :: b'[i][j] == Empty
  {
    var p := FirstEmpty(b).value;
    var b' := SetCell(b, p.row, p.col, v);
    var n := Next(p);
    FirstEmptySpec(b);
    assert Cursor(b) == p;
    forall i, j | 0 <= i < SIZE && 0 <= j < SIZE && !Before(i, j, n.row, n.col)
      ensures b'[i][j] == Empty
    {
      assert !Before(i, j, p.row, p.col) && (i, j) != (p.row, p.col);
    }
    if n.row < SIZE {
      forall k, l | 0 <= k < SIZE && 0 <= l < SIZE && Before(k, l, n.row, n.col)
        ensures b'[k][l] != Empty
      {
        if (k, l) != (p.row, p.col) {
          assert Before(k, l, p.row, p.col);
        }
      }
      FirstEmptyIs(b', n);
    } else {
      forall k, l | 0 <= k < SIZE && 0 <= l < SIZE
        ensures b'[k][l] != Empty
      {
        if (k, l) != (p.row, p.col) {
          assert Before(k, l, p.row, p.col);
        }
      }
      assert Full(b');
    }
  }

  /** The row the cursor leaves when it wraps is full and, not being overfull, balanced. */
  lemma RowsPassedAfterFill(b: Board, v: Cell)
    requires ScanShaped(b) && !Reject(b) && FirstEmpty(b).Some? && v != Empty
    ensures var p := FirstEmpty(b).value;
      forall i | 0 <= i < SIZE && RowPassed(i, Next(p)) :: Balanced(SetCell(b, p.row, p.col, v)[i])
  {
    var p := FirstEmpty(b).value;
    var b' := SetCell(b, p.row, p.col, v);
    FirstEmptySpec(b);
    RejectIff(b);
    forall i | 0 <= i < SIZE && RowPassed(i, Next(p))
      ensures Balanced(b'[i])
    {
      assert i != p.row;
      assert b'[i] == b[i];
      if !RowPassed(i, Cursor(b)) {
        assert i + 1 == p.row && p.col == 0;
        forall l | 0 <= l < SIZE
          ensures b[i][l] != Empty
        {
          assert Before(i, l, p.row, p.col);
        }
        FullLineBalanced(b[i]);
      }
    }
  }

  /**
   * Filling the first empty cell of a scan-shaped grid that is not rejected
   * moves the cursor one cell on and keeps the scan shape.
   */
  lemma ScanShapedChild(b: Board, v: Cell)
    requires ScanShaped(b) && !Reject(b) && FirstEmpty(b).Some? && v != Empty
    ensures var p := FirstEmpty(b).value;
      ScanShaped(SetCell(b, p.row, p.col, v)) && Cursor(SetCell(b, p.row, p.col, v)) == Next(p)
  {
    CursorAfterFill(b, v);
    RowsPassedAfterFill(b, v);
  }
}
