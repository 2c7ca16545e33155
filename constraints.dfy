/**
 * The constraint checker: `reject` prunes a partial grid that already holds
 * too many of one symbol in some row or column, `accept` recognises a grid
 * whose every row and column holds exactly HALF of each symbol.
 */
module Constraints {
  import opened Grid

  /** The count of `v` in each line, in order. */
  function CountsOf(lines: seq<seq<Cell>>, v: Cell): seq<nat> {
    if |lines| == 0 then [] else [Count(lines[0], v)] + CountsOf(lines[1..], v)
  }

  lemma {:induction false} CountsOfAt(lines: seq<seq<Cell>>, v: Cell)
    ensures |CountsOf(lines, v)| == |lines|
    ensures forall k | 0 <= k < |lines| :: CountsOf(lines, v)[k] == Count(lines[k], v)
  {
    if |lines| > 0 {
      CountsOfAt(lines[1..], v);
    }
  }

  /** Per-column counts of `v`, left to right (a count along axis 0). */
  function ColumnCounts(b: Board, v: Cell): seq<nat>
    requires IsSquare(b)
  {
    CountsOf(Columns(b), v)
  }

  /** Per-row counts of `v`, top to bottom (a count along axis 1). */
  function RowCounts(b: Board, v: Cell): seq<nat>
    requires IsSquare(b)
  {
    CountsOf(b, v)
  }

  /** Whether some entry of `s` is above `bound` (`np.any(s > bound)`). */
  function AnyExceeds(s: seq<nat>, bound: nat): bool {
    if |s| == 0 then false else s[0] > bound || AnyExceeds(s[1..], bound)
  }

  lemma {:induction false} AnyExceedsIff(s: seq<nat>, bound: nat)
    ensures AnyExceeds(s, bound) <==> exists k | 0 <= k < |s| :: s[k] > bound
  {
    if |s| > 0 {
      AnyExceedsIff(s[1..], bound);
      if AnyExceeds(s[1..], bound) {
        var k :| 0 <= k < |s[1..]| && s[1..][k] > bound;
        assert s[k + 1] > bound;
      }
      if exists k | 0 <= k < |s| :: s[k] > bound {
        var k :| 0 <= k < |s| && s[k] > bound;
        if k > 0 {
          assert s[1..][k - 1] > bound;
        }
      }
    }
  }

  /** Whether every entry of `s` equals `x` (`np.all(s == x)`). */
  function AllEqual(s: seq<nat>, x: nat): bool {
    if |s| == 0 then true else s[0] == x && AllEqual(s[1..], x)
  }

  lemma {:induction false} AllEqualIff(s: seq<nat>, x: nat)
    ensures AllEqual(s, x) <==> forall k | 0 <= k < |s| :: s[k] == x
  {
    if |s| > 0 {
      AllEqualIff(s[1..], x);
      if forall k | 0 <= k < |s| :: s[k] == x {
        assert forall k | 0 <= k < |s[1..]| :: s[1..][k] == s[k + 1];
      }
    }
  }

  /** A line (row or column) already holds more than HALF of one symbol. */
  predicate Overfull(line: seq<Cell>) {
    Count(line, Zero) > HALF || Count(line, One) > HALF
  }

  /** A line holds exactly HALF of each symbol. */
  predicate Balanced(line: seq<Cell>) {
    Count(line, Zero) == HALF && Count(line, One) == HALF
  }

  /** The partial grid is not worth completing: a column or row holds too many 'o', or too many 'x'. */
  function Reject(b: Board): bool
    requires IsSquare(b)
  {
    AnyExceeds(ColumnCounts(b, Zero), HALF)
    || AnyExceeds(RowCounts(b, Zero), HALF)
    || AnyExceeds(ColumnCounts(b, One), HALF)
    || AnyExceeds(RowCounts(b, One), HALF)
  }

  /** `reject` holds exactly when some row or column is overfull; empty cells are never counted. */
  lemma RejectIff(b: Board)
    requires IsSquare(b)
    ensures Reject(b) <==> exists k | 0 <= k < SIZE :: Overfull(b[k]) || Overfull(Column(b, k))
  {
    CountsOfAt(Columns(b), Zero);
    CountsOfAt(Columns(b), One);
    CountsOfAt(b, Zero);
    CountsOfAt(b, One);
    AnyExceedsIff(ColumnCounts(b, Zero), HALF);
    AnyExceedsIff(RowCounts(b, Zero), HALF);
    AnyExceedsIff(ColumnCounts(b, One), HALF);
    AnyExceedsIff(RowCounts(b, One), HALF);
  }

  /** The grid is a solution: every column and row holds HALF of each symbol. */
  function Accept(b: Board): bool
    requires IsSquare(b)
  {
    AllEqual(ColumnCounts(b, Zero), HALF)
    && AllEqual(RowCounts(b, Zero), HALF)
    && AllEqual(ColumnCounts(b, One), HALF)
    && AllEqual(RowCounts(b, One), HALF)
  }

  /** `accept` holds exactly when every row and every column is balanced. */
  lemma AcceptIff(b: Board)
    requires IsSquare(b)
    ensures Accept(b) <==> forall k | 0 <= k < SIZE :: Balanced(b[k]) && Balanced(Column(b, k))
  {
    CountsOfAt(Columns(b), Zero);
    CountsOfAt(Columns(b), One);
    CountsOfAt(b, Zero);
    CountsOfAt(b, One);
    AllEqualIff(ColumnCounts(b, Zero), HALF);
    AllEqualIff(RowCounts(b, Zero), HALF);
    AllEqualIff(ColumnCounts(b, One), HALF);
    AllEqualIff(RowCounts(b, One), HALF);
  }

  /** A balanced line of SIZE cells has no empty cell. */
  lemma BalancedLineIsFull(line: seq<Cell>)
    requires |line| == SIZE && Balanced(line)
    ensures forall k | 0 <= k < SIZE :: line[k] != Empty
  {
    CountPartition(line);
    CountIsMultiplicity(line, Empty);
    assert Empty !in multiset(line);
  }

  /** A line of SIZE cells with no empty cell is balanced exactly when it is not overfull. */
  lemma FullLineBalanced(line: seq<Cell>)
    requires |line| == SIZE && forall k | 0 <= k < SIZE :: line[k] != Empty
    ensures Balanced(line) <==> !Overfull(line)
  {
    CountPartition(line);
    CountIsMultiplicity(line, Empty);
    assert Empty !in multiset(line);
  }

  /** An accepted grid is full and not rejected. */
  lemma AcceptedIsFull(b: Board)
    requires IsSquare(b) && Accept(b)
    ensures Full(b) && !Reject(b)
  {
    AcceptIff(b);
    RejectIff(b);
    forall i | 0 <= i < SIZE
      ensures forall j | 0 <= j < SIZE :: b[i][j] != Empty
    {
      BalancedLineIsFull(b[i]);
    }
  }

  /** A full grid that is not rejected is accepted. */
  lemma FullUnrejectedAccepted(b: Board)
    requires IsSquare(b) && Full(b) && !Reject(b)
    ensures Accept(b)
  {
    AcceptIff(b);
    RejectIff(b);
    forall k | 0 <= k < SIZE
      ensures Balanced(b[k]) && Balanced(Column(b, k))
    {
      FullLineBalanced(b[k]);
      FullLineBalanced(Column(b, k));
    }
  }

  /**
   * A grid is accepted exactly when it is full and not rejected; in particular
   * `accept` and `reject` never hold together.
   */
  lemma AcceptIffFullAndNotRejected(b: Board)
    requires IsSquare(b)
    ensures Accept(b) <==> Full(b) && !Reject(b)
  {
    if Accept(b) {
      AcceptedIsFull(b);
    }
    if Full(b) && !Reject(b) {
      FullUnrejectedAccepted(b);
    }
  }

  /** Filling more cells never lowers the count of a symbol. */
  lemma {:induction false} CountGrows(s: seq<Cell>, t: seq<Cell>, v: Cell)
    requires |s| == |t| && v != Empty
    requires forall k | 0 <= k < |s| :: s[k] != Empty ==> t[k] == s[k]
    ensures Count(t, v) >= Count(s, v)
  {
    if |s| > 0 {
      CountGrows(s[1..], t[1..], v);
    }
  }

  /** Once a grid is rejected, every grid that extends it is rejected too. */
  lemma RejectMonotone(b: Board, f: Board)
    requires IsSquare(b) && IsSquare(f) && Extends(f, b)
    requires Reject(b)
    ensures Reject(f)
  {
    RejectIff(b);
    RejectIff(f);
    var k :| 0 <= k < SIZE && (Overfull(b[k]) || Overfull(Column(b, k)));
    CountGrows(b[k], f[k], Zero);
    CountGrows(b[k], f[k], One);
    CountGrows(Column(b, k), Column(f, k), Zero);
    CountGrows(Column(b, k), Column(f, k), One);
    assert Overfull(f[k]) || Overfull(Column(f, k));
  }
}
