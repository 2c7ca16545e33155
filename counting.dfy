/**
 * What the search counts when no call is answered from the cache: the
 * accepted fillings of a grid's empty cells.
 */
module Counting {
  import opened Wrappers
  import opened Grid
  import opened Constraints
  import opened Scan

  /**
   * The count the backtracking search returns for `b` when every recursive
   * call is computed afresh: 0 for a rejected grid, 1 for an accepted one,
   * otherwise the sum over both symbols in the first empty cell.
   */
  function CountFill(b: Board): nat
    requires IsSquare(b)
    decreases Blanks(b)
  {
    if Reject(b) then 0
    else if Accept(b) then 1
    else
      OpenGridHasFirstEmpty(b);
      var p := FirstEmpty(b).value;
      BlanksSetCell(b, p.row, p.col, Zero);
      BlanksSetCell(b, p.row, p.col, One);
      CountFill(SetCell(b, p.row, p.col, Zero)) + CountFill(SetCell(b, p.row, p.col, One))
  }

  /** Every way to fill the empty cells of `b`, built by branching on the first empty cell. */
  ghost function Fillings(b: Board): set<Board>
    requires IsSquare(b)
    decreases Blanks(b)
  {
    match FirstEmpty(b)
    case None => {b}
    case Some(p) =>
      BlanksSetCell(b, p.row, p.col, Zero);
      BlanksSetCell(b, p.row, p.col, One);
      Fillings(SetCell(b, p.row, p.col, Zero)) + Fillings(SetCell(b, p.row, p.col, One))
  }

  /** Filling the empty cell `p` of `b` with `v` keeps exactly the fillings of `b` that put `v` at `p`. */
  lemma ExtendsAfterSet(b: Board, f: Board, p: Pos, v: Cell)
    requires IsSquare(b) && IsSquare(f) && p.row < SIZE && p.col < SIZE
    requires b[p.row][p.col] == Empty && v != Empty
    ensures Extends(f, SetCell(b, p.row, p.col, v)) <==> Extends(f, b) && f[p.row][p.col] == v
  {
    var b' := SetCell(b, p.row, p.col, v);
    if Extends(f, b) && f[p.row][p.col] == v {
      forall i, j | 0 <= i < SIZE && 0 <= j < SIZE && b'[i][j] != Empty
        ensures f[i][j] == b'[i][j]
      {
        if (i, j) != (p.row, p.col) {
          assert b'[i][j] == b[i][j];
        }
      }
    }
    if Extends(f, b') {
      forall i, j | 0 <= i < SIZE && 0 <= j < SIZE && b[i][j] != Empty
        ensures f[i][j] == b[i][j]
      {
        assert (i, j) != (p.row, p.col);
        assert b'[i][j] == b[i][j];
      }
    }
  }

  /** The fillings of `b` are exactly the full grids that keep every symbol of `b`. */
  lemma {:induction false} FillingsIff(b: Board, f: Board)
    requires IsSquare(b)
    ensures f in Fillings(b) <==> IsSquare(f) && Full(f) && Extends(f, b)
    decreases Blanks(b)
  {
    FirstEmptySpec(b);
    match FirstEmpty(b)
    case None =>
      if IsSquare(f) && Full(f) && Extends(f, b) {
        SameCells(f, b);
      }
    case Some(p) =>
      var b0 := SetCell(b, p.row, p.col, Zero);
      var b1 := SetCell(b, p.row, p.col, One);
      BlanksSetCell(b, p.row, p.col, Zero);
      BlanksSetCell(b, p.row, p.col, One);
      FillingsIff(b0, f);
      FillingsIff(b1, f);
      if IsSquare(f) {
        ExtendsAfterSet(b, f, p, Zero);
        ExtendsAfterSet(b, f, p, One);
      }
  }

  /** A square grid that `accept` holds for. */
  predicate Solution(f: Board) {
    IsSquare(f) && Accept(f)
  }

  /** The accepted fillings of `b`. */
  ghost function Solutions(b: Board): set<Board>
    requires IsSquare(b)
  {
    set f | f in Fillings(b) && Solution(f)
  }

  /** A rejected grid has no accepted filling. */
  lemma RejectedHasNoSolutions(b: Board)
    requires IsSquare(b) && Reject(b)
    ensures Solutions(b) == {}
  {
    forall f | f in Fillings(b) && IsSquare(f)
      ensures !Accept(f)
    {
      FillingsIff(b, f);
      RejectMonotone(b, f);
      AcceptIffFullAndNotRejected(f);
    }
  }

  /** A full grid is its own single filling. */
  lemma FullIsOwnFilling(b: Board)
    requires IsSquare(b) && Full(b)
    ensures Fillings(b) == {b}
  {
    assert FirstEmpty(b).None?;
  }

  /** An accepted grid is its own single accepted filling. */
  lemma AcceptedIsOwnSolution(b: Board)
    requires IsSquare(b) && Accept(b)
    ensures Solutions(b) == {b}
  {
    AcceptedIsFull(b);
    FullIsOwnFilling(b);
    assert b in Solutions(b);
  }

  /** The accepted fillings of an open grid split by the symbol placed in its first empty cell. */
  lemma SolutionsSplit(b: Board)
    requires IsSquare(b) && FirstEmpty(b).Some?
    ensures var p := FirstEmpty(b).value;
      var s0 := Solutions(SetCell(b, p.row, p.col, Zero));
      var s1 := Solutions(SetCell(b, p.row, p.col, One));
      Solutions(b) == s0 + s1 && s0 * s1 == {} && |Solutions(b)| == |s0| + |s1|
  {
    var p := FirstEmpty(b).value;
    var b0 := SetCell(b, p.row, p.col, Zero);
    var b1 := SetCell(b, p.row, p.col, One);
    assert Fillings(b) == Fillings(b0) + Fillings(b1);
    forall f | f in Solutions(b0)
      ensures f !in Solutions(b1)
    {
      FillingsIff(b0, f);
      ExtendsAfterSet(b, f, p, Zero);
      FillingsIff(b1, f);
      ExtendsAfterSet(b, f, p, One);
    }
  }

  /**
   * The uncached search counts exactly the accepted fillings of the empty
   * cells: a rejected grid has none (pruning loses nothing), an accepted grid
   * is its own single filling, and the two branches of an open grid share none.
   */
  lemma {:induction false} CountFillIsSolutionCount(b: Board)
    requires IsSquare(b)
    ensures CountFill(b) == |Solutions(b)|
    decreases Blanks(b)
  {
    if Reject(b) {
      RejectedHasNoSolutions(b);
    } else if Accept(b) {
      AcceptedIsOwnSolution(b);
    } else {
      OpenGridHasFirstEmpty(b);
      var p := FirstEmpty(b).value;
      BlanksSetCell(b, p.row, p.col, Zero);
      BlanksSetCell(b, p.row, p.col, One);
      CountFillIsSolutionCount(SetCell(b, p.row, p.col, Zero));
      CountFillIsSolutionCount(SetCell(b, p.row, p.col, One));
      SolutionsSplit(b);
    }
  }

  /** Starting from the empty grid, the solutions are all the accepted grids. */
  lemma SolutionsOfEmptyBoard(f: Board)
    ensures f in Solutions(EmptyBoard()) <==> IsSquare(f) && Accept(f)
  {
    var e := EmptyBoard();
    assert forall i, j | 0 <= i < SIZE && 0 <= j < SIZE :: e[i][j] == Empty;
    FillingsIff(e, f);
    if IsSquare(f) && Accept(f) {
      AcceptedIsFull(f);
      assert Extends(f, e);
    }
  }
}
