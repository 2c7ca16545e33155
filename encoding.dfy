/**
 * The canonical encoder: the cache key of a partial grid is the sorted
 * sequence of per-column (zeros still to place, ones still to place) pairs.
 * Sorting forgets which column a pair came from, and counting forgets where
 * in a column a symbol sits.
 */
module Encoding {
  import opened Grid
  import opened Matching

  type Pair = (int, int)
  type Key = seq<Pair>

  /** Python's tuple order on pairs: lexicographic. */
  predicate Le(a: Pair, b: Pair) {
    a.0 < b.0 || (a.0 == b.0 && a.1 <= b.1)
  }

  predicate Sorted(s: seq<Pair>) {
    forall i, k | 0 <= i < k < |s| :: Le(s[i], s[k])
  }

  /** Inserts `x` before the first element it does not exceed. */
  function Insert(x: Pair, s: seq<Pair>): seq<Pair> {
    if |s| == 0 || Le(x, s[0]) then [x] + s else [s[0]] + Insert(x, s[1..])
  }

  /** Inserting adds exactly one copy of `x`. */
  lemma {:induction false} InsertMultiset(x: Pair, s: seq<Pair>)
    ensures |Insert(x, s)| == |s| + 1
    ensures multiset(Insert(x, s)) == multiset(s) + multiset{x}
  {
    if |s| > 0 && !Le(x, s[0]) {
      InsertMultiset(x, s[1..]);
      assert s == [s[0]] + s[1..];
    }
  }

  /** A sorted sequence stays sorted under a new head that is at most each of its elements. */
  lemma ConsSorted(h: Pair, t: seq<Pair>)
    requires Sorted(t) && forall m | 0 <= m < |t| :: Le(h, t[m])
    ensures Sorted([h] + t)
  {
  }

  /** An element of a sequence sits at one of its indices. */
  lemma InMultiset(y: Pair, s: seq<Pair>) returns (k: nat)
    requires y in multiset(s)
    ensures k < |s| && s[k] == y
  {
    k :| 0 <= k < |s| && s[k] == y;
  }

  /** Inserting into a sorted sequence keeps it sorted and adds exactly one copy of `x`. */
  lemma {:induction false} InsertSorted(x: Pair, s: seq<Pair>)
    requires Sorted(s)
    ensures |Insert(x, s)| == |s| + 1 && Sorted(Insert(x, s))
    ensures multiset(Insert(x, s)) == multiset(s) + multiset{x}
  {
    InsertMultiset(x, s);
    if |s| == 0 || Le(x, s[0]) {
      ConsSorted(x, s);
    } else {
      var rest := Insert(x, s[1..]);
      SortedTail(s);
      InsertSorted(x, s[1..]);
      forall m | 0 <= m < |rest|
        ensures Le(s[0], rest[m])
      {
        assert rest[m] in multiset(rest);
        if rest[m] != x {
          var k := InMultiset(rest[m], s[1..]);
          assert s[k + 1] == rest[m];
        }
      }
      ConsSorted(s[0], rest);
    }
  }

  /** Insertion sort: the same result as Python's `sorted`, since a sorted permutation is unique. */
  function Sort(s: seq<Pair>): seq<Pair> {
    if |s| == 0 then [] else Insert(s[0], Sort(s[1..]))
  }

  /** Sorting yields a sorted rearrangement of its input. */
  lemma {:induction false} SortSorts(s: seq<Pair>)
    ensures |Sort(s)| == |s| && Sorted(Sort(s))
    ensures multiset(Sort(s)) == multiset(s)
  {
    if |s| > 0 {
      SortSorts(s[1..]);
      InsertSorted(s[0], Sort(s[1..]));
      assert s == [s[0]] + s[1..];
    }
  }

  /** The head of a sorted sequence is at most each of its elements. */
  lemma SortedHeadIsLeast(s: seq<Pair>, x: Pair)
    requires Sorted(s) && x in multiset(s)
    ensures |s| > 0 && Le(s[0], x)
  {
    var k :| 0 <= k < |s| && s[k] == x;
  }

  lemma SortedTail(s: seq<Pair>)
    requires Sorted(s) && |s| > 0
    ensures Sorted(s[1..])
  {
  }

  /** Sequences with the same multiset and the same head have tails with the same multiset. */
  lemma SameTails<T>(a: seq<T>, b: seq<T>)
    requires |a| > 0 && |b| > 0 && a[0] == b[0] && multiset(a) == multiset(b)
    ensures multiset(a[1..]) == multiset(b[1..])
  {
    assert a == [a[0]] + a[1..] && b == [b[0]] + b[1..];
    assert multiset(a) == multiset(a[1..]) + multiset{a[0]};
    assert multiset(b) == multiset(b[1..]) + multiset{b[0]};
    Cancel(multiset(a[1..]), multiset(b[1..]), a[0]);
  }

  /** Two sorted sequences holding the same multiset of pairs are equal. */
  lemma {:induction false} SortedUnique(a: seq<Pair>, b: seq<Pair>)
    requires Sorted(a) && Sorted(b) && multiset(a) == multiset(b)
    ensures a == b
    decreases |a|
  {
    if |a| > 0 {
      SortedHeadIsLeast(b, a[0]);
      SortedHeadIsLeast(a, b[0]);
      assert a[0] == b[0];
      SameTails(a, b);
      SortedTail(a);
      SortedTail(b);
      SortedUnique(a[1..], b[1..]);
      assert a == [a[0]] + a[1..] && b == [b[0]] + b[1..];
    } else {
      assert |b| == |multiset(b)| == 0;
    }
  }

  /** The pair for one column: HALF minus the zeros placed, HALF minus the ones placed. */
  function Remaining(col: seq<Cell>): Pair {
    (HALF - Count(col, Zero), HALF - Count(col, One))
  }

  /** The pair of every column of `cols`, in order. */
  function Pairs(cols: seq<seq<Cell>>): seq<Pair>
  {
    if |cols| == 0 then [] else [Remaining(cols[0])] + Pairs(cols[1..])
  }

  lemma {:induction false} PairsAt(cols: seq<seq<Cell>>)
    ensures |Pairs(cols)| == |cols|
    ensures forall j | 0 <= j < |cols| :: Pairs(cols)[j] == Remaining(cols[j])
  {
    if |cols| > 0 {
      PairsAt(cols[1..]);
    }
  }

  /** The unsorted pairs, one per column, left to right. */
  function ColumnPairs(b: Board): seq<Pair>
    requires IsSquare(b)
  {
    Pairs(Columns(b))
  }

  /** Pair `j` before sorting is what column `j` still needs of each symbol. */
  lemma ColumnPairsAt(b: Board)
    requires IsSquare(b)
    ensures |ColumnPairs(b)| == SIZE
    ensures forall j | 0 <= j < SIZE ::
      ColumnPairs(b)[j] == (HALF - Count(Column(b, j), Zero), HALF - Count(Column(b, j), One))
  {
    PairsAt(Columns(b));
  }

  /** The cache key of a grid. */
  function Encode(b: Board): Key
    requires IsSquare(b)
  {
    Sort(ColumnPairs(b))
  }

  /** A key holds SIZE pairs, sorted in tuple order, which are the grid's column pairs rearranged. */
  lemma EncodeSorted(b: Board)
    requires IsSquare(b)
    ensures |Encode(b)| == SIZE && Sorted(Encode(b))
    ensures multiset(Encode(b)) == multiset(ColumnPairs(b))
  {
    SortSorts(ColumnPairs(b));
    ColumnPairsAt(b);
  }

  /** Two grids share a key exactly when they have the same multiset of column pairs. */
  lemma EncodeIff(b1: Board, b2: Board)
    requires IsSquare(b1) && IsSquare(b2)
    ensures Encode(b1) == Encode(b2) <==> multiset(ColumnPairs(b1)) == multiset(ColumnPairs(b2))
  {
    EncodeSorted(b1);
    EncodeSorted(b2);
    if multiset(ColumnPairs(b1)) == multiset(ColumnPairs(b2)) {
      SortedUnique(Encode(b1), Encode(b2));
    }
  }

  /** Rearranged columns give rearranged pairs. */
  lemma PairsPermutation(s: seq<seq<Cell>>, t: seq<seq<Cell>>)
    requires multiset(s) == multiset(t)
    ensures multiset(Pairs(s)) == multiset(Pairs(t))
  {
    var sigma, tau := Match(s, t);
    PairsAt(s);
    PairsAt(t);
    assert Pairs(t) == Permute(Pairs(s), sigma);
    PermuteMultiset(Pairs(s), sigma, tau);
  }

  /** Permuting the columns of a grid does not change its key. */
  lemma EncodeColumnPermutation(b1: Board, b2: Board)
    requires IsSquare(b1) && IsSquare(b2)
    requires multiset(Columns(b1)) == multiset(Columns(b2))
    ensures Encode(b1) == Encode(b2)
  {
    PairsPermutation(Columns(b1), Columns(b2));
    EncodeIff(b1, b2);
  }

  /** Reordering the cells inside each column does not change the key. */
  lemma EncodeColumnReorder(b1: Board, b2: Board)
    requires IsSquare(b1) && IsSquare(b2)
    requires forall j | 0 <= j < SIZE :: multiset(Column(b1, j)) == multiset(Column(b2, j))
    ensures Encode(b1) == Encode(b2)
  {
    ColumnPairsAt(b1);
    ColumnPairsAt(b2);
    forall j | 0 <= j < SIZE
      ensures ColumnPairs(b1)[j] == ColumnPairs(b2)[j]
    {
      CountIsMultiplicity(Column(b1, j), Zero);
      CountIsMultiplicity(Column(b2, j), Zero);
      CountIsMultiplicity(Column(b1, j), One);
      CountIsMultiplicity(Column(b2, j), One);
    }
    assert ColumnPairs(b1) == ColumnPairs(b2);
  }

  /** Total number of symbols still to place that a key records. */
  function Weight(k: Key): int {
    if |k| == 0 then 0 else k[0].0 + k[0].1 + Weight(k[1..])
  }

  lemma {:induction false} WeightInsert(x: Pair, s: seq<Pair>)
    ensures Weight(Insert(x, s)) == x.0 + x.1 + Weight(s)
  {
    if |s| > 0 && !Le(x, s[0]) {
      WeightInsert(x, s[1..]);
    }
  }

  lemma {:induction false} WeightSort(s: seq<Pair>)
    ensures Weight(Sort(s)) == Weight(s)
  {
    if |s| > 0 {
      WeightSort(s[1..]);
      WeightInsert(s[0], Sort(s[1..]));
    }
  }

  lemma {:induction false} WeightRemainingAll(cols: seq<seq<Cell>>)
    requires forall j | 0 <= j < |cols| :: |cols[j]| == SIZE
    ensures Weight(Pairs(cols)) == CountIn(cols, Empty)
  {
    if |cols| > 0 {
      CountPartition(cols[0]);
      WeightRemainingAll(cols[1..]);
    }
  }

  /** The weight of a grid's key is its number of empty cells. */
  lemma WeightOfEncode(b: Board)
    requires IsSquare(b)
    ensures Weight(Encode(b)) == Blanks(b)
  {
    WeightSort(ColumnPairs(b));
    WeightRemainingAll(Columns(b));
  }

  /** What pair `p` says is still to place of symbol `v`: its first half for 'o', its second for 'x'. */
  function Component(p: Pair, v: Cell): int {
    if v == Zero then p.0 else p.1
  }

  /** Total number of `v` symbols still to place that a key records. */
  function Needed(k: Key, v: Cell): int {
    if |k| == 0 then 0 else Component(k[0], v) + Needed(k[1..], v)
  }

  lemma {:induction false} NeededInsert(x: Pair, s: seq<Pair>, v: Cell)
    ensures Needed(Insert(x, s), v) == Component(x, v) + Needed(s, v)
  {
    if |s| > 0 && !Le(x, s[0]) {
      NeededInsert(x, s[1..], v);
    }
  }

  lemma {:induction false} NeededSort(s: seq<Pair>, v: Cell)
    ensures Needed(Sort(s), v) == Needed(s, v)
  {
    if |s| > 0 {
      NeededSort(s[1..], v);
      NeededInsert(s[0], Sort(s[1..]), v);
    }
  }

  lemma {:induction false} NeededPairs(cols: seq<seq<Cell>>, v: Cell)
    requires v != Empty
    ensures Needed(Pairs(cols), v) == |cols| * HALF - CountIn(cols, v)
  {
    if |cols| > 0 {
      var p := Pairs(cols);
      assert p[0] == Remaining(cols[0]) && p[1..] == Pairs(cols[1..]);
      assert Component(p[0], v) == HALF - Count(cols[0], v);
      NeededPairs(cols[1..], v);
      assert |cols| * HALF == (|cols| - 1) * HALF + HALF;
    }
  }

  /** A key records how many of each symbol the whole grid still lacks. */
  lemma NeededOfEncode(b: Board, v: Cell)
    requires IsSquare(b) && v != Empty
    ensures Needed(Encode(b), v) == SIZE * HALF - CountIn(Columns(b), v)
  {
    NeededSort(ColumnPairs(b), v);
    NeededPairs(Columns(b), v);
  }
}
