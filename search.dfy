/**
 * The memoised backtracking search: `bt` wrapped by the cache decorator,
 * mutating one grid in place and restoring every cell it sets.
 */
module Search {
  import opened Wrappers
  import opened Grid
  import opened Constraints
  import opened Encoding
  import opened Scan
  import opened Counting
  import opened Cache
  import opened Symmetry

  /** The key the decorator computes from the array before looking it up. */
  method KeyOf(c: array2<Cell>, ghost b: Board) returns (e: Key)
    requires Holds(c, b)
    ensures e == Encode(b)
  {
    ViewHolds(c, b);
    e := Encode(View(c));
  }

  /** `reject` applied to the array. */
  method Rejected(c: array2<Cell>, ghost b: Board) returns (r: bool)
    requires Holds(c, b)
    ensures r == Reject(b)
  {
    ViewHolds(c, b);
    r := Reject(View(c));
  }

  /** `accept` applied to the array. */
  method Accepted(c: array2<Cell>, ghost b: Board) returns (r: bool)
    requires Holds(c, b)
    ensures r == Accept(b)
  {
    ViewHolds(c, b);
    r := Accept(View(c));
  }

  /**
   * The decorated `bt`: answers from the cache on a hit, otherwise runs the
   * search body and stores its count under the grid's key. `b` is the grid
   * the array holds on entry.
   */
  method Backtrack(c: array2<Cell>, cache: MemoCache, ghost b: Board) returns (count: nat)
    requires Holds(c, b) && ScanShaped(b) && cache.Valid()
    modifies c, cache
    decreases Blanks(b), 2, 0
    ensures Holds(c, b)
    ensures cache.Valid()
    ensures count == |Solutions(b)|
    ensures Encode(b) in cache.table && cache.table[Encode(b)] == count
    ensures Encode(b) in old(cache.table) ==> cache.table == old(cache.table)
    ensures Keeps(old(cache.table), cache.table)
    ensures AddsBelow(old(cache.table), cache.table, Blanks(b) + 1)
  {
    var e := KeyOf(c, b);
    var hit := cache.Lookup(e);
    match hit
    case Some(v) =>
      // the entry was stored for a reachable grid with the same key, which has as many solutions
      SameKeySameCount(b, cache.origin[e]);
      count := v;
    case None =>
      count := Miss(c, cache, b, e);
  }

  /** A cache miss: runs the search body and records its count under the key `e` of `b`. */
  method Miss(c: array2<Cell>, cache: MemoCache, ghost b: Board, e: Key) returns (count: nat)
    requires Holds(c, b) && ScanShaped(b) && cache.Valid() && e == Encode(b) && e !in cache.table
    modifies c, cache
    decreases Blanks(b), 1, 1
    ensures Holds(c, b)
    ensures cache.Valid()
    ensures count == |Solutions(b)|
    ensures e in cache.table && cache.table[e] == count
    ensures Keeps(old(cache.table), cache.table)
    ensures AddsBelow(old(cache.table), cache.table, Blanks(b) + 1)
  {
    ghost var table0 := cache.table;
    count := BacktrackBody(c, cache, b);
    WeightOfEncode(b);
    StoreFresh(table0, cache.table, e, count, Blanks(b));
    cache.Store(e, count, b);
  }

  /** The body of `bt`: prune, accept, or try both symbols in the first empty cell. */
  method BacktrackBody(c: array2<Cell>, cache: MemoCache, ghost b: Board) returns (count: nat)
    requires Holds(c, b) && ScanShaped(b) && cache.Valid()
    modifies c, cache
    decreases Blanks(b), 1, 0
    ensures Holds(c, b)
    ensures cache.Valid()
    ensures count == |Solutions(b)|
    ensures Keeps(old(cache.table), cache.table)
    ensures AddsBelow(old(cache.table), cache.table, Blanks(b))
  {
    var rejected := Rejected(c, b);
    if rejected {
      RejectedHasNoSolutions(b);
      return 0;
    }
    var accepted := Accepted(c, b);
    if accepted {
      AcceptedIsOwnSolution(b);
      return 1;
    }
    OpenGridHasFirstEmpty(b);
    var first := FindFirstEmpty(c, b);
    SolutionsSplit(b);
    count := Branch(c, cache, b, first.value);
  }

  /** Tries 'o' and then 'x' in the first empty cell `p`, emptying it again after each try. */
  method Branch(c: array2<Cell>, cache: MemoCache, ghost b: Board, p: Pos) returns (count: nat)
    requires Holds(c, b) && ScanShaped(b) && cache.Valid() && !Reject(b) && FirstEmpty(b) == Some(p)
    modifies c, cache
    decreases Blanks(b), 0, 1
    ensures Holds(c, b)
    ensures cache.Valid()
    ensures count == |Solutions(SetCell(b, p.row, p.col, Zero))| + |Solutions(SetCell(b, p.row, p.col, One))|
    ensures Keeps(old(cache.table), cache.table)
    ensures AddsBelow(old(cache.table), cache.table, Blanks(b))
  {
    var symbols := [Zero, One];
    count := 0;
    for n := 0 to 2
      invariant Holds(c, b)
      invariant cache.Valid()
      invariant Keeps(old(cache.table), cache.table)
      invariant AddsBelow(old(cache.table), cache.table, Blanks(b))
      invariant count == (if n == 0 then 0 else |Solutions(SetCell(b, p.row, p.col, Zero))|)
                         + (if n == 2 then |Solutions(SetCell(b, p.row, p.col, One))| else 0)
    {
      var sub := Try(c, cache, b, p, symbols[n]);
      count := count + sub;
    }
  }

  /** Places `v` in the first empty cell `p`, counts below it, and empties the cell again. */
  method Try(c: array2<Cell>, cache: MemoCache, ghost b: Board, p: Pos, v: Cell) returns (sub: nat)
    requires Holds(c, b) && ScanShaped(b) && cache.Valid() && !Reject(b) && FirstEmpty(b) == Some(p)
    requires v != Empty
    modifies c, cache
    decreases Blanks(b), 0, 0
    ensures Holds(c, b)
    ensures cache.Valid()
    ensures sub == |Solutions(SetCell(b, p.row, p.col, v))|
    ensures Keeps(old(cache.table), cache.table)
    ensures AddsBelow(old(cache.table), cache.table, Blanks(b))
  {
    ghost var child := SetCell(b, p.row, p.col, v);
    Place(c, b, p.row, p.col, v);
    ScanShapedChild(b, v);
    BlanksSetCell(b, p.row, p.col, v);
    sub := Backtrack(c, cache, child);
    Place(c, child, p.row, p.col, Empty);
    SetCellRestore(b, p.row, p.col, v);
  }

  /** Counts the balanced grids: the search from the all-empty root with a fresh cache. */
  method Solve() returns (count: nat)
    ensures count == |Solutions(EmptyBoard())|
  {
    var c := Root();
    var cache := new MemoCache();
    EmptyBoardScanShaped();
    count := Backtrack(c, cache, EmptyBoard());
  }
}
