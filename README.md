# Numeric-array engine: a Dafny model

This project models the numeric-array engine `MathUtils` and its abstract base
class `Math`, together with the small value types `Pair` and `Obscure`.

- `Math` owns the caller's array `numbers`. Its constructor refuses an empty array
  with an `IllegalArgumentException`. Its abstract methods promise four things:
  an ascending copy from `sort`, the index of a value or -1 from `binarySearch`,
  and the largest or smallest value from `getMaximum` and `getMinimum`.
  The Dafny module `Math` states these promises as predicates:
  `SortContract`, `SearchContract`, `IsMaximum` and `IsMinimum`.
- `MathUtils` implements those methods. The class keeps `numbers` as the very
  array it was given, with no copy, plus the flag `isSorted`.
  - `partition` is Lomuto's scheme: the last cell is the pivot.
  - `quickSortIterative` replaces recursion with a LIFO stack of `{low, high}` ranges.
  - `sort()` copies `numbers` and quicksorts the copy.
  - `binarySearch` calls `sort()` and then searches `numbers` itself.
  - `getMaximum` and `getMinimum` reduce the array with `Stream.max`.
    They pass the natural order or the reversed order.
- `Pair` is a class with two mutable fields. `Obscure` is a datatype around one
  field that may be null (`Option`).

Elements are `int`, ordered as `compareTo` orders them. The quicksort is an
in-place method on an `array<int>`. The work stack is a local `seq<(int, int)>`
whose index 0 is the top of the deque.

The central invariant of the quicksort loop is `QuickSortProofs.OrderedAcross`:
any two cells that do not wait in the same pending range are already in ascending
order. Beside it the loop keeps the stack well formed (`WellFormed`), the array a
permutation of its input, and the cells after `highIndex` untouched. The loop
terminates because the measure `2 * size + 1`, summed over the stack, decreases
with every pop: by one when a range is split, and by the whole weight of a range
that is dropped. The binary-search loop is proved against the recursive function
`BinarySearchModel.SearchRange`. The lemmas of that module state what it finds on
any sequence and what it finds on an ascending one.

The doc comments promise that `sort` returns the sorted numbers (Math.java:80) and
that `binarySearch` searches the sorted array (MathUtils.java:158-161). The code
does otherwise:
- Only the first `sort()` returns a sorted copy.
- Every later call returns `numbers` itself, in its original order.
- `binarySearch` calls `sort()` and discards its result on every call, the first
  included, then searches `numbers` itself. Its -1 is reliable only when
  `numbers`, the caller's own array, is ascending at the time of the call.

The index it returns is not necessarily the first occurrence, although the doc
comment at `MathUtils.java:164` says so (see `SearchNotFirstOccurrence`). The
comment at `MathUtils.java:139` says that `sort` modifies the original array.
It does not, and the model proves that `numbers` is unchanged.

## Model

| member | source | states |
|---|---|---|
| `MathUtils.MathUtils.Create` | src/main/java/org/project/math/Math.java:31-36 | an empty array yields the IllegalArgument error with the class's message; a non-empty one yields a new engine holding that same array (not a copy) with `isSorted` false |
| `MathUtils.Partition` | src/main/java/org/project/math/MathUtils.java:255-276 | returns `p` in `[lowIndex, highIndex]`; `a[p]` is the old `a[highIndex]`; cells before `p` are at most it, cells after `p` up to `highIndex` are greater; cells outside the range are unchanged and the array is a permutation of the old one |
| `MathUtils.QuickSortIterative` | src/main/java/org/project/math/MathUtils.java:224-240 | terminates and leaves `a[0..highIndex]` ascending, the array a permutation of its input, and cells after `highIndex` unchanged |
| `QuickSortProofs.PartitionStep` | src/main/java/org/project/math/MathUtils.java:233-238 | after partitioning the popped range at `p`, pushing `[lo, p-1]` then `[p+1, hi]` keeps the stack well formed (ranges nested inside `[0, top]`, disjoint, ordered) and keeps every pair of cells not sharing a pending range in ascending order |
| `QuickSortProofs.SplitDecreases` | src/main/java/org/project/math/MathUtils.java:228-238 | replacing the popped range by its two sides lowers the stack measure (sum of `2*size+1`) by exactly one |
| `QuickSortProofs.DropSmallRange` | src/main/java/org/project/math/MathUtils.java:229-233 | popping a range with `lowIndex >= highIndex` and pushing nothing keeps the stack invariant |
| `QuickSortProofs.InitialStack` | src/main/java/org/project/math/MathUtils.java:225-226 | the initial stack `[{0, highIndex}]` satisfies the invariant |
| `QuickSortProofs.EmptyStackSorted` | src/main/java/org/project/math/MathUtils.java:228 | when the stack is empty, the invariant means `a[0..highIndex]` is ascending |
| `MathUtils.MathUtils.SortedCopy` | src/main/java/org/project/math/MathUtils.java:143-145 | the copy of `numbers` after the quicksort is new, of the same length, ascending and a permutation of `numbers` |
| `MathUtils.MathUtils.Sort` | src/main/java/org/project/math/MathUtils.java:141-153 | first call: a new ascending permutation of `numbers`; later calls: `numbers` itself; `isSorted` is true afterwards and `numbers` is never changed |
| `MathUtils.BinarySearchIn` | src/main/java/org/project/math/MathUtils.java:171-188 | the loop returns what the search model returns: -1 or an index holding the value |
| `MathUtils.MathUtils.BinarySearch` | src/main/java/org/project/math/MathUtils.java:168-189 | calls `sort()`, then returns -1 or an index `i` with `numbers[i] == value`; when `numbers` is ascending it meets the `binarySearch` contract (-1 exactly when the value is absent) |
| `BinarySearchModel.SearchRange` | src/main/java/org/project/math/MathUtils.java:174-187 | on any sequence, a non-negative answer is an index inside the window `[low, high]` that holds the value |
| `BinarySearchModel.Search` | src/main/java/org/project/math/MathUtils.java:171-188 | the search from window `[0, length-1]` returns -1 or an index holding the value |
| `BinarySearchModel.SearchRangeFinds` | src/main/java/org/project/math/MathUtils.java:174-187 | on an ascending sequence, a value present in the window is found |
| `BinarySearchModel.SearchSorted` | src/main/java/org/project/math/Math.java:86-92 | on an ascending sequence the search meets the `binarySearch` contract: -1 exactly when the value is absent |
| `BinarySearchModel.SearchNotFirstOccurrence` | src/main/java/org/project/math/MathUtils.java:164 | with duplicates the index found need not be the first: on [2, 2, 2] the search returns 1 |
| `MathUtils.Compare` | src/main/java/org/project/math/MathUtils.java:108-126 | `compareTo` and `reverseOrder()` give a non-positive verdict exactly when the first value comes no later in ascending, resp. descending, order |
| `MathUtils.StreamMax` | src/main/java/org/project/math/MathUtils.java:206-209 | `Stream.max(c)` is empty exactly for an empty stream, else an element that `c` puts after no other |
| `MathUtils.StreamMin` | src/main/java/org/project/math/MathUtils.java:73-75 | `Stream.min(c)` is empty exactly for an empty stream, else an element that `c` puts before no other |
| `MathUtils.MathUtils.FindExtreme` | src/main/java/org/project/math/MathUtils.java:206-210 | fails with the IllegalArgument error exactly when the array is empty; otherwise an element of the array that the comparator puts after every element |
| `MathUtils.MathUtils.GetMaximum` | src/main/java/org/project/math/MathUtils.java:108-111 | an element of `numbers` that no element exceeds (the `getMaximum` contract, Math.java:39-48) |
| `MathUtils.MathUtils.GetMinimum` | src/main/java/org/project/math/MathUtils.java:123-126 | an element of `numbers` that no element is below (the `getMinimum` contract, Math.java:50-60) |
| `MathUtils.MaxOfThree` | src/main/java/org/project/math/MathUtils.java:44-49 | one of the three arguments, at least as large as each of them |
| `MathUtils.MinOfFive` | src/main/java/org/project/math/MathUtils.java:67-76 | one of the five arguments, at most as large as each of them |
| `Pair.Pair.constructor` | src/main/java/org/project/pair/Pair.java:14-17 | `getK()` is the first argument and `getV()` the second |
| `Pair.Pair.SetK` | src/main/java/org/project/pair/Pair.java:23-25 | `getK()` becomes the argument; `getV()` is unchanged |
| `Pair.Pair.SetV` | src/main/java/org/project/pair/Pair.java:31-33 | `getV()` becomes the argument; `getK()` is unchanged |
| `Pair.Pair.GetSwapped` | src/main/java/org/project/pair/Pair.java:41-43 | a new pair `(v, k)`; the receiver is not modified |
| `Pair.Pair.Swap` | src/main/java/org/project/pair/Pair.java:45-47 | a new pair `(pair.v, pair.k)` |
| `Pair.SwapMatchesGetSwapped` | src/main/java/org/project/pair/Pair.java:41-47 | `swap(p)` and `p.getSwapped()` hold the same fields, namely `(p.v, p.k)` |
| `Pair.SwapTwice` | src/main/java/org/project/pair/Pair.java:45-47 | `swap(swap(p))` holds the fields of `p` |
| `Obscure.GetReturnsConstructorArgument` | src/main/java/org/project/obscure/Obscure.java:10-16 | `new Obscure(x).get()` is `x`, null included, and the wrapper is empty exactly when `x` is null |
| `Obscure.Obscure.IsPresent` | src/main/java/org/project/obscure/Obscure.java:18-20 | true exactly when `get()` is non-null |
| `Obscure.Obscure.IsEmpty` | src/main/java/org/project/obscure/Obscure.java:22-24 | the negation of `isPresent()` |
| `Obscure.Obscure.OrElse` | src/main/java/org/project/obscure/Obscure.java:26-32 | the (non-null) field when present, the default otherwise |
| `Obscure.Obscure.OrElseThrow` | src/main/java/org/project/obscure/Obscure.java:34-40 | succeeds exactly when present, with the field; otherwise fails with the given exception |
| `Obscure.OrElseAgreesWithOrElseThrow` | src/main/java/org/project/obscure/Obscure.java:26-40 | `orElse` and `orElseThrow` return the same value when the field is present; otherwise `orElse` gives the default and `orElseThrow` throws |
| `Obscure.Obscure.Of` | src/main/java/org/project/obscure/Obscure.java:42-44 | `of(v).get()` is `v` |
| `Obscure.Obscure.Empty` | src/main/java/org/project/obscure/Obscure.java:46-48 | `empty()` is empty and its `get()` is null |

## Findings

| source | as written | input that shows it | evidently intended | confidence | as-written member | corrected member |
|---|---|---|---|---|---|---|
| src/main/java/org/project/math/MathUtils.java:150-151 | once `isSorted` is true, `sort()` returns `numbers` itself, unsorted | `numbers = [3, 1, 2]`, `sort()` called twice: the second call returns `[3, 1, 2]` | every call returns the numbers in ascending order, as `Math.sort` promises (Math.java:80) | not executed; high | `MathUtils.SortTwiceOnUnsorted` | `MathUtils.MathUtils.SortFixed` |
| src/main/java/org/project/math/MathUtils.java:169-177 | `binarySearch` drops the array `sort()` returns and searches `numbers` | `numbers = [3, 1, 2]`, `binarySearch(3)` returns -1 although 3 is at index 0 | search the ascending copy, returning -1 exactly when the value is absent (Math.java:90) | not executed; high | `BinarySearchModel.SearchMissesInUnsorted` | `MathUtils.MathUtils.BinarySearchFixed` |

`BinarySearchModel.SearchSortedPermutation` is the property behind the second
correction: a search over any ascending permutation of `numbers` returns -1
exactly when the value does not occur in `numbers`.

## Left out

- `getAverage` (MathUtils.java:89-95): a double-precision mean over `Number::doubleValue`; floating point is not modelled.
- The generic element type `T extends Number & Comparable<T>`: elements are `int` with `compareTo` as the sign of the difference; NaN, signed zero and `BigDecimal` scale are not modelled.
- Null elements and null arguments: the "contains only null values" case of the constructor's documentation is not checked by the code either; the `NoSuchElementException` (or `NullPointerException`) that `maxOfThree`, `minOfFive` and the stream reductions raise on a null element is not modelled.
- `orElseThrow(null)`: Java then throws a `NullPointerException` instead of the argument; the model's exception argument is never null.
- Library internals: `Stream.max`/`Stream.min` are modelled by their documented reduction with `BinaryOperator.maxBy`/`minBy`; `ArrayDeque` is a sequence of pairs; `Arrays.copyOf` is a fresh array with equal contents.
- The Lombok `@Data` members of `Math` (getters, `setNumbers`, `equals`, `hashCode`, `toString`): their code is generated and not visible; `numbers` is therefore a `const` field, never reassigned after construction.
- `MathUtils.MathUtils.Create`: the constructor's exception is modelled as a `Result`, with a `constructor Init` behind it for the non-empty case; Java's two-level constructor chain (`MathUtils` calling `Math`) is one member.
- The three-line swaps inside `partition` are one `Swap` method.
- `equals`/`hashCode` of `Pair` and `Obscure`: neither class overrides them.
- `getK`/`getV` are the field reads `Pair.Pair.GetK` and `Pair.Pair.GetV`; `Obscure.get` is `Obscure.Obscure.Get`. They carry no contract of their own; the constructor, setter and swap rows state what they return.
- 32-bit `int` indices: every index is bounded by the array length and `lowRange + (highRange - lowRange) / 2` cannot overflow, so Java's wrap-around never applies; integers are unbounded here.
- Complexity claims (average `O(n log n)`, `O(log n)` stack) are not functional properties.
- The test classes, including those under `src/main/java/org/project/test/`.
