/**
 * The grid the solver fills: cells, the board value, per-row and per-column
 * counts, and the fresh all-empty array the search starts from.
 */
module Grid {
  /** A cell holds '.' (Empty), 'o' (Zero) or 'x' (One). */
  datatype Cell = Empty | Zero | One

  /** Side of the grid. */
  const SIZE: nat := 12
  /** How many of each symbol a finished row or column holds; exact because SIZE is even. */
  const HALF: nat := SIZE / 2

  /** A snapshot of the grid as a sequence of rows. */
  type Board = seq<seq<Cell>>

  predicate IsSquare(b: Board) {
    |b| == SIZE && forall i | 0 <= i < SIZE :: |b[i]| == SIZE
  }

  /** Number of cells of `s` equal to `v`, i.e. `count_nonzero(s == v)` along one axis. */
  function Count(s: seq<Cell>, v: Cell): nat
  {
    if |s| == 0 then 0 else (if s[0] == v then 1 else 0) + Count(s[1..], v)
  }

  /** The count of `v` is its multiplicity in the line, so it ignores the order of the cells. */
  lemma {:induction false} CountIsMultiplicity(s: seq<Cell>, v: Cell)
    ensures Count(s, v) == multiset(s)[v]
  {
    if |s| > 0 {
      assert s == [s[0]] + s[1..];
      CountIsMultiplicity(s[1..], v);
    }
  }

  /** Every cell is counted under exactly one of the three values. */
  lemma {:induction false} CountPartition(s: seq<Cell>)
    ensures Count(s, Zero) + Count(s, One) + Count(s, Empty) == |s|
  {
    if |s| > 0 {
      CountPartition(s[1..]);
    }
  }

  function Column(b: Board, j: nat): (col: seq<Cell>)
    requires IsSquare(b) && j < SIZE
    ensures |col| == SIZE && forall i | 0 <= i < SIZE :: col[i] == b[i][j]
  {
    seq(SIZE, i requires 0 <= i < SIZE => b[i][j])
  }

  /** The columns of the board, left to right. */
  function Columns(b: Board): (cols: seq<seq<Cell>>)
    requires IsSquare(b)
    ensures |cols| == SIZE && forall j | 0 <= j < SIZE :: cols[j] == Column(b, j)
  {
    seq(SIZE, j requires 0 <= j < SIZE => Column(b, j))
  }

  /** The board with cell (i, j) set to `v`. */
  function SetCell(b: Board, i: nat, j: nat, v: Cell): (b': Board)
    requires IsSquare(b) && i < SIZE && j < SIZE
    ensures IsSquare(b')
    ensures forall k, l | 0 <= k < SIZE && 0 <= l < SIZE :: b'[k][l] == if k == i && l == j then v else b[k][l]
  {
    b[i := b[i][j := v]]
  }

  predicate Full(b: Board)
    requires IsSquare(b)
  {
    forall i, j | 0 <= i < SIZE && 0 <= j < SIZE :: b[i][j] != Empty
  }

  /** `f` keeps every symbol already placed in `b`. */
  predicate Extends(f: Board, b: Board)
    requires IsSquare(f) && IsSquare(b)
  {
    forall i, j | 0 <= i < SIZE && 0 <= j < SIZE :: b[i][j] != Empty ==> f[i][j] == b[i][j]
  }

  function EmptyBoard(): (b: Board)
    ensures IsSquare(b)
  {
    seq(SIZE, i => seq(SIZE, j => Empty))
  }

  /** Number of cells equal to `v` over several lines. */
  function CountIn(lines: seq<seq<Cell>>, v: Cell): nat
  {
    if |lines| == 0 then 0 else Count(lines[0], v) + CountIn(lines[1..], v)
  }

  /** Number of empty cells, summed column by column. */
  function Blanks(b: Board): nat
    requires IsSquare(b)
  {
    CountIn(Columns(b), Empty)
  }

  /** Replacing one line changes the total by the difference of that line's counts. */
  lemma {:induction false} CountInUpdate(lines: seq<seq<Cell>>, j: nat, line: seq<Cell>, v: Cell)
    requires j < |lines|
    ensures CountIn(lines[j := line], v) == CountIn(lines, v) - Count(lines[j], v) + Count(line, v)
  {
    if j > 0 {
      assert lines[j := line][1..] == lines[1..][j - 1 := line];
      CountInUpdate(lines[1..], j - 1, line, v);
    }
  }

  /** Placing a symbol in an empty cell removes exactly one blank. */
  lemma BlanksSetCell(b: Board, i: nat, j: nat, v: Cell)
    requires IsSquare(b) && i < SIZE && j < SIZE
    requires b[i][j] == Empty && v != Empty
    ensures IsSquare(SetCell(b, i, j, v))
    ensures Blanks(SetCell(b, i, j, v)) == Blanks(b) - 1
  {
    var b' := SetCell(b, i, j, v);
    forall k | 0 <= k < SIZE
      ensures Columns(b')[k] == Columns(b)[j := Column(b, j)[i := v]][k]
    {
      if k == j {
        assert Column(b', j) == Column(b, j)[i := v];
      } else {
        assert Column(b', k) == Column(b, k);
      }
    }
    assert Columns(b') == Columns(b)[j := Column(b, j)[i := v]];
    assert multiset(Column(b, j)[i := v]) == multiset(Column(b, j)) - multiset{Empty} + multiset{v};
    CountIsMultiplicity(Column(b, j), Empty);
    CountIsMultiplicity(Column(b, j)[i := v], Empty);
    CountInUpdate(Columns(b), j, Column(b, j)[i := v], Empty);
  }

  /** Two square boards that agree cell by cell are equal. */
  lemma SameCells(a: Board, b: Board)
    requires IsSquare(a) && IsSquare(b)
    requires forall i, j | 0 <= i < SIZE && 0 <= j < SIZE :: a[i][j] == b[i][j]
    ensures a == b
  {
    forall i | 0 <= i < SIZE
      ensures a[i] == b[i]
    {
      assert forall j | 0 <= j < SIZE :: a[i][j] == b[i][j];
    }
  }

  /** The board an array currently holds. */
  function View(c: array2<Cell>): (b: Board)
    reads c
    requires c.Length0 == SIZE && c.Length1 == SIZE
    ensures IsSquare(b)
    ensures forall i, j | 0 <= i < SIZE && 0 <= j < SIZE :: b[i][j] == c[i, j]
  {
    seq(SIZE, i requires 0 <= i < SIZE reads c => seq(SIZE, j requires 0 <= j < SIZE reads c => c[i, j]))
  }

  /** The array holds board `b`, cell for cell. */
  ghost predicate Holds(c: array2<Cell>, b: Board)
    reads c
  {
    c.Length0 == SIZE && c.Length1 == SIZE && IsSquare(b)
    && forall i, j | 0 <= i < SIZE && 0 <= j < SIZE :: c[i, j] == b[i][j]
  }

  /** The board read off an array is the board it holds. */
  lemma ViewHolds(c: array2<Cell>, b: Board)
    requires Holds(c, b)
    ensures View(c) == b
  {
    SameCells(View(c), b);
  }

  /** Writes `v` into cell (i, j) of the array, which then holds the board with that cell set. */
  method Place(c: array2<Cell>, ghost b: Board, i: nat, j: nat, v: Cell)
    requires Holds(c, b) && i < SIZE && j < SIZE
    modifies c
    ensures Holds(c, SetCell(b, i, j, v))
  {
    c[i, j] := v;
  }

  /** Emptying a cell that was empty before it was set gives back the original board. */
  lemma SetCellRestore(b: Board, i: nat, j: nat, v: Cell)
    requires IsSquare(b) && i < SIZE && j < SIZE && b[i][j] == Empty
    ensures SetCell(SetCell(b, i, j, v), i, j, Empty) == b
  {
    SameCells(SetCell(SetCell(b, i, j, v), i, j, Empty), b);
  }

  /** The root of the search tree: a fresh SIZE x SIZE array with every cell empty. */
  method Root() returns (c: array2<Cell>)
    ensures fresh(c) && Holds(c, EmptyBoard())
  {
    c := new Cell[SIZE, SIZE];
    forall i, j | 0 <= i < SIZE && 0 <= j < SIZE {
      c[i, j] := Empty;
    }
  }
}
