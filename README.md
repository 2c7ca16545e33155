# Balanced-grid counter

This project models `solver.py` in Dafny. The program counts the 12×12 grids filled with 'o' and 'x' in which every row and every column holds six of each symbol. It counts them with a memoised backtracking search:

- `bt` fills the first empty cell in row-major order with 'o' and then 'x'. It recurses and empties the cell again.
- `reject` prunes a partial grid in which some row or column already holds more than six of one symbol.
- `accept` recognises a finished grid.
- The `cache` decorator keys each grid by `encode`: the sorted tuple of per-column pairs (zeros still to place, ones still to place).

The model keeps the source's form:

- The grid is an `array2<Cell>` that the search mutates and restores in place. Each method also takes a ghost `Board` value (`seq<seq<Cell>>`) that says what the array holds.
- `reject`, `accept` and `encode` are pure functions on boards.
- The decorator's dictionary is the `table` field of the class `Cache.MemoCache`, which the search writes on a miss.
- `find_first_empty` is a method with nested loops and an early return.

The main results:

- The memoised search returns the number of accepted fillings of its grid's empty cells (`Search.Backtrack`, `Search.Solve`).
- The uncached recursion counts the same thing (`Counting.CountFillIsSolutionCount`).
- The search leaves the grid as it found it, and the cache only ever gains keys.
- The encoding is sound. Two grids the search can reach that have the same key have the same number of accepted fillings (`Symmetry.SameKeySameCount`). A key records only per-column counts, and the row holding the cursor is only partly filled. It is still enough:
  - both grids stand at the same cursor;
  - their columns can be matched so that matched columns lie on the same side of the cursor and hold the same counts;
  - every row of one holds as many of each symbol as the same row of the other;
  - so moving solutions across through the column matching is a bijection.

Modules:

| module | file | what it holds |
|---|---|---|
| `Grid` | grid.dfy | cells, boards, counts, the array view, `root` |
| `Constraints` | constraints.dfy | `reject`, `accept` and what they mean |
| `Encoding` | encoding.dfy | `encode`, insertion sort on pairs, the key's symmetries and totals |
| `Scan` | scan.dfy | `find_first_empty`, the scan order, the shape of reachable grids |
| `Counting` | counting.dfy | the uncached count and the set of accepted fillings |
| `Cache` | cache.dfy | the memo dictionary |
| `Search` | search.dfy | `bt` with its decorator, `solve` |
| `Matching` | matching.dfy | index bijections between rearranged sequences |
| `Tally` | tally.dfy | counting facts about partly filled lines and boards |
| `Symmetry` | symmetry.dfy | soundness of the cache key |
| `Wrappers` | wrappers.dfy | `Option` |

## Model

| member | source | states |
|---|---|---|
| Grid.Root | solver.py:61-65 | the root is a fresh SIZE×SIZE array whose every cell is empty |
| Grid.Place | solver.py:54 | writing a symbol into cell (i, j) changes exactly that cell of the grid |
| Grid.SetCellRestore | solver.py:54-56 | setting an empty cell and then emptying it again gives back the original grid |
| Grid.CountIsMultiplicity | solver.py:33-34 | a per-line `count_nonzero` is the symbol's multiplicity, so it ignores cell order |
| Constraints.AnyExceedsIff | solver.py:70-73 | `np.any(counts > bound)` holds exactly when some entry exceeds the bound |
| Constraints.AllEqualIff | solver.py:82-85 | `np.all(counts == x)` holds exactly when every entry equals x |
| Constraints.RejectIff | solver.py:68-77 | `reject` holds exactly when some row or column holds more than SIZE/2 of 'o' or of 'x'; empty cells are never counted |
| Constraints.AcceptIff | solver.py:80-89 | `accept` holds exactly when every row and every column holds SIZE/2 of each symbol |
| Constraints.AcceptedIsFull | solver.py:68-89 | an accepted grid has no empty cell and is not rejected |
| Constraints.AcceptIffFullAndNotRejected | solver.py:68-89 | a grid is accepted exactly when it is full and not rejected, so `accept` and `reject` never hold together |
| Constraints.RejectMonotone | solver.py:46-47 | every grid that extends a rejected grid is rejected too, so pruning loses no solution |
| Encoding.SortSorts | solver.py:35 | `sorted` returns a rearrangement of its input in tuple order |
| Encoding.SortedUnique | solver.py:35 | two sorted sequences with the same multiset are equal, so the sorted tuple is canonical |
| Encoding.ColumnPairsAt | solver.py:33-35 | before sorting, pair j is (SIZE/2 − zeros in column j, SIZE/2 − ones in column j) |
| Encoding.EncodeSorted | solver.py:33-35 | the key holds SIZE pairs in tuple order, and they are the grid's column pairs rearranged |
| Encoding.EncodeIff | solver.py:24-35 | two grids share a key exactly when they have the same multiset of column pairs |
| Encoding.PairsPermutation | solver.py:31 | rearranged columns give rearranged pairs |
| Encoding.EncodeColumnPermutation | solver.py:31 | permuting a grid's columns does not change its key |
| Encoding.EncodeColumnReorder | solver.py:29-30 | reordering the cells inside each column does not change the key |
| Encoding.WeightOfEncode | solver.py:33-35 | the pairs of a key add up to the number of empty cells of the grid |
| Encoding.NeededOfEncode | solver.py:33-34 | the key records how many 'o' (and how many 'x') the whole grid still lacks |
| Scan.FirstEmptySpec | solver.py:92-97 | the first empty cell is empty and every cell before it in row-major order is filled; there is none exactly when the grid is full |
| Scan.FirstEmptyIs | solver.py:92-97 | an empty cell with only filled cells before it is the first empty cell |
| Scan.FindFirstEmpty | solver.py:92-97 | the nested scan returns the first empty cell in row-major order, or nothing on a full grid |
| Scan.OpenGridHasFirstEmpty | solver.py:46-52 | a grid neither rejected nor accepted has an empty cell, so `find_first_empty` never returns None inside `bt` |
| Scan.EmptyBoardScanShaped | solver.py:61-65 | the root is filled before its cursor, which stands on the first cell |
| Scan.CursorAfterFill | solver.py:52-54 | filling the first empty cell moves the cursor one cell on in row-major order |
| Scan.RowsPassedAfterFill | solver.py:46-55 | every row the cursor has moved past is balanced |
| Scan.ScanShapedChild | solver.py:52-55 | every grid the search visits is filled exactly before its cursor, with balanced passed rows |
| Counting.FillingsIff | solver.py:51-56 | the fillings the branching enumerates are exactly the full grids that keep every symbol already placed |
| Counting.RejectedHasNoSolutions | solver.py:46-47 | a rejected grid has no accepted filling, so returning 0 is right |
| Counting.AcceptedIsOwnSolution | solver.py:48-49 | an accepted grid is its own single accepted filling, so returning 1 is right |
| Counting.SolutionsSplit | solver.py:53-56 | the accepted fillings of an open grid split, without overlap, by the symbol in its first empty cell |
| Counting.CountFillIsSolutionCount | solver.py:39-58 | the search without a cache returns exactly the number of accepted fillings of the empty cells |
| Counting.SolutionsOfEmptyBoard | solver.py:100-101 | the accepted fillings of the root are all the accepted grids |
| Cache.MemoCache.constructor | solver.py:9-10 | decorating `bt` starts with an empty dictionary |
| Cache.MemoCache.Lookup | solver.py:14-16 | a lookup finds a value exactly when the key is present, and then returns the stored value |
| Cache.MemoCache.Store | solver.py:17-18 | a miss adds the new key with its count and changes nothing else |
| Cache.StoreFresh | solver.py:16-18 | a key absent before the search below its grid is still absent after it, so a store never overwrites |
| Search.KeyOf | solver.py:13 | the wrapper computes the key of the grid the array holds |
| Search.Rejected | solver.py:46 | `reject` applied to the array is `reject` of the grid it holds |
| Search.Accepted | solver.py:48 | `accept` applied to the array is `accept` of the grid it holds |
| Search.Backtrack | solver.py:12-19 | the decorated `bt` returns, on a hit as on a miss, the number of accepted fillings and restores the grid; a hit leaves the dictionary unchanged; afterwards the key is present with the returned value, and old entries are kept unchanged |
| Search.Miss | solver.py:16-18 | on a miss, the body's count is stored under the grid's key |
| Search.BacktrackBody | solver.py:44-58 | `bt` returns 0 on a rejected grid, 1 on an accepted one, otherwise the sum over both symbols in the first empty cell; the grid is restored |
| Search.Branch | solver.py:53-56 | the loop over 'o' and 'x' adds the counts of both children and leaves the grid as it found it |
| Search.Try | solver.py:54-56 | setting the cell, recursing and emptying it counts one child and restores the grid |
| Search.Solve | solver.py:100-101 | `solve` returns the number of accepted SIZE×SIZE grids |
| Symmetry.SameCursor | solver.py:33-35 | two reachable grids with the same key are filled up to the same cell |
| Symmetry.RowCountsAgree | solver.py:33-35 | two reachable grids with the same key hold as many of each symbol in every row |
| Symmetry.AlignedOfSameKey | solver.py:28-35 | reachable grids with the same key have their columns matched, keeping counts and the side of the cursor |
| Symmetry.TransferSolution | solver.py:28-35 | moving a solution of one such grid across the column matching gives a solution of the other |
| Symmetry.TransferInjective | solver.py:28-35 | that move sends different solutions to different solutions |
| Symmetry.SameKeySameCount | solver.py:24-35 | reachable grids with the same key have the same number of accepted fillings, so the cache returns the right count |

## Left out

- The `print` at solver.py:104 is console output and is not modelled.
- numpy is not modelled. `count_nonzero` along an axis becomes `Grid.Count` over rows or columns, and `np.any`/`np.all` become recursive functions over the count sequences.
- The float `SIZE / 2` is modelled as the exact integer `HALF`. SIZE is even, so no comparison changes. The pairs of a key are integers rather than floats.
- SIZE is fixed at 12, as in the source. The proofs do not depend on that value beyond its being even.
- The concrete count for SIZE = 12 is not derived.
- The search methods also take the grid as a ghost `Board`, which the proof uses to state what the array holds. The source has only the array.
- The decorator's closure becomes a `Cache.MemoCache` object passed to the search. The source creates one dictionary when `bt` is decorated, whereas `Search.Solve` creates it per call, which is the same for the one call at solver.py:104.
- Symmetry.SameKeySameCount: it states soundness only for grids the search can reach (filled exactly before the first empty cell, with every passed row balanced), not for arbitrary grids. The cache is only ever consulted on such grids.
