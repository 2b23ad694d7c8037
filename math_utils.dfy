/**
 * `MathUtils`, the concrete numeric-array engine: extremum queries built on stream
 * reductions, an iterative quicksort over a stack of ranges with Lomuto partition,
 * a `sort` guarded by the `isSorted` flag, and a binary search.
 * Elements are `int`, ordered as `compareTo` orders them.
 */
module MathUtils {
  import opened Wrappers
  import opened Math
  import opened QuickSortProofs
  import opened BinarySearchModel

  /** The two comparators `findExtreme` is called with: `Comparable::compareTo` and `Comparator.reverseOrder()`. */
  datatype Comparator = NaturalOrder | ReverseOrder

  /** `compareTo` on integers: -1, 0 or 1 as `x` is below, equal to or above `y`. */
  function CompareTo(x: int, y: int): int
  {
    if x < y then -1 else if x == y then 0 else 1
  }

  /**
   * The comparator's verdict on `(x, y)`: not positive exactly when `x` comes no later
   * than `y` in its order (ascending for the natural order, descending for the reversed one).
   */
  function Compare(c: Comparator, x: int, y: int): (r: int)
    ensures r <= 0 <==> (if c == NaturalOrder then x <= y else y <= x)
    ensures r >= 0 <==> (if c == NaturalOrder then y <= x else x <= y)
  {
    match c
    case NaturalOrder => CompareTo(x, y)
    case ReverseOrder => CompareTo(y, x)
  }

  /** `BinaryOperator.maxBy(c)`: the left operand unless the right one is strictly greater. */
  function MaxBy(c: Comparator, a: int, b: int): int
  {
    if Compare(c, a, b) >= 0 then a else b
  }

  /** `BinaryOperator.minBy(c)`: the left operand unless the right one is strictly smaller. */
  function MinBy(c: Comparator, a: int, b: int): int
  {
    if Compare(c, a, b) <= 0 then a else b
  }

  /**
   * `Stream.max(c)`, a left-to-right reduction with `maxBy`: empty for an empty stream,
   * otherwise an element that the comparator puts after no other element.
   */
  function StreamMax(c: Comparator, s: seq<int>): (r: Option<int>)
    ensures r.Some? <==> s != []
    ensures r.Some? ==> r.value in s && forall k :: 0 <= k < |s| ==> Compare(c, s[k], r.value) <= 0
  {
    if s == [] then None
    else
      match StreamMax(c, s[..|s| - 1])
      case None => Some(s[|s| - 1])
      case Some(acc) =>
        assert forall k :: 0 <= k < |s| - 1 ==> s[k] == s[..|s| - 1][k];
        Some(MaxBy(c, acc, s[|s| - 1]))
  }

  /**
   * `Stream.min(c)`, a left-to-right reduction with `minBy`: empty for an empty stream,
   * otherwise an element that the comparator puts before no other element.
   */
  function StreamMin(c: Comparator, s: seq<int>): (r: Option<int>)
    ensures r.Some? <==> s != []
    ensures r.Some? ==> r.value in s && forall k :: 0 <= k < |s| ==> Compare(c, r.value, s[k]) <= 0
  {
    if s == [] then None
    else
      match StreamMin(c, s[..|s| - 1])
      case None => Some(s[|s| - 1])
      case Some(acc) =>
        assert forall k :: 0 <= k < |s| - 1 ==> s[k] == s[..|s| - 1][k];
        Some(MinBy(c, acc, s[|s| - 1]))
  }

  /** `maxOfThree`: one of the three arguments, and none of them is larger. */
  function MaxOfThree(first: int, second: int, third: int): (r: int)
    ensures IsMaximum([first, second, third], r)
  {
    StreamMax(NaturalOrder, [first, second, third]).value
  }

  /** `minOfFive`: one of the five arguments, and none of them is smaller. */
  function MinOfFive(first: int, second: int, third: int, fourth: int, fifth: int): (r: int)
    ensures IsMinimum([first, second, third, fourth, fifth], r)
  {
    StreamMin(NaturalOrder, [first, second, third, fourth, fifth]).value
  }

  /** Exchanges two cells of an array, as the three-line swaps in `partition` do. */
  method Swap(a: array<int>, i: int, j: int)
    requires 0 <= i < a.Length && 0 <= j < a.Length
    modifies a
    ensures a[i] == old(a[j]) && a[j] == old(a[i])
    ensures forall k :: 0 <= k < a.Length && k != i && k != j ==> a[k] == old(a[k])
    ensures multiset(a[..]) == old(multiset(a[..]))
  {
    var temp := a[i];
    a[i] := a[j];
    a[j] := temp;
  }

  /**
   * Lomuto partition of `a[lowIndex..highIndex]` around the pivot `a[highIndex]`: the
   * pivot ends at the returned index, cells before it are at most the pivot, cells
   * after it are greater, and only cells of the range are permuted.
   */
  method Partition(a: array<int>, lowIndex: int, highIndex: int) returns (p: int)
    requires 0 <= lowIndex <= highIndex < a.Length
    modifies a
    ensures lowIndex <= p <= highIndex
    ensures a[p] == old(a[highIndex])
    ensures forall k :: lowIndex <= k < p ==> a[k] <= a[p]
    ensures forall k :: p < k <= highIndex ==> a[p] < a[k]
    ensures forall k :: 0 <= k < a.Length && !(lowIndex <= k <= highIndex) ==> a[k] == old(a[k])
    ensures multiset(a[..]) == old(multiset(a[..]))
  {
    var pivot := a[highIndex];
    // i is the last index of the prefix known to be at most the pivot.
    var i := lowIndex - 1;
    for j := lowIndex to highIndex
      invariant lowIndex - 1 <= i < j
      invariant a[highIndex] == pivot
      invariant forall k :: lowIndex <= k <= i ==> a[k] <= pivot
      invariant forall k :: i < k < j ==> pivot < a[k]
      invariant forall k :: 0 <= k < a.Length && !(lowIndex <= k <= highIndex) ==> a[k] == old(a[k])
      invariant multiset(a[..]) == old(multiset(a[..]))
    {
      if a[j] <= pivot {
        i := i + 1;
        Swap(a, i, j);
      }
    }
    Swap(a, i + 1, highIndex);
    p := i + 1;
  }

  /**
   * Iterative quicksort of `a[0..highIndex]`: a LIFO stack of ranges replaces recursion;
   * each popped range with more than one cell is partitioned and its two sides pushed.
   * The prefix ends ascending and permuted; cells after `highIndex` are untouched.
   */
  method QuickSortIterative(a: array<int>, highIndex: int)
    requires 0 <= highIndex < a.Length
    modifies a
    ensures Sorted(a[..highIndex + 1])
    ensures multiset(a[..]) == old(multiset(a[..]))
    ensures forall k :: highIndex < k < a.Length ==> a[k] == old(a[k])
  {
    // The deque of {lowIndex, highIndex} pairs; push and pop work at index 0.
    var stack: seq<Range> := [(0, highIndex)];
    InitialStack(a[..], highIndex);
    while stack != []
      invariant WellFormed(stack, highIndex)
      invariant OrderedAcross(a[..], stack, highIndex)
      invariant multiset(a[..]) == old(multiset(a[..]))
      invariant forall k :: highIndex < k < a.Length ==> a[k] == old(a[k])
      decreases Measure(stack)
    {
      ghost var popped := stack;
      var range := stack[0];
      stack := stack[1..];
      var lowIndex, high := range.0, range.1;
      if lowIndex < high {
        ghost var before := a[..];
        var pi := Partition(a, lowIndex, high);
        SliceMultiset(before, a[..], lowIndex, high);
        PartitionStep(before, a[..], popped, highIndex, lowIndex, high, pi);
        SplitDecreases(popped, lowIndex, high, pi);
        stack := [(lowIndex, pi - 1)] + stack;
        stack := [(pi + 1, high)] + stack;
        assert stack == [(pi + 1, high), (lowIndex, pi - 1)] + popped[1..];
      } else {
        DropSmallRange(a[..], popped, highIndex);
      }
    }
    EmptyStackSorted(a[..], highIndex);
  }

  /** The engine: the caller's array, held without copying, and the flag `sort` sets. */
  class MathUtils {
    const numbers: array<int>
    var isSorted: bool

    /** The constructor's guarantee: the array is never empty. */
    predicate Valid()
    {
      numbers.Length >= 1
    }

    /** Stores the array once the emptiness check has passed. */
    constructor Init(numbers: array<int>)
      requires numbers.Length > 0
      ensures this.numbers == numbers && !isSorted && Valid()
    {
      this.numbers := numbers;
      isSorted := false;
    }

    /**
     * `new MathUtils(numbers)`: an empty array is refused with an IllegalArgumentException;
     * otherwise the engine holds that very array, unsorted flag down.
     */
    static method Create(numbers: array<int>) returns (r: Result<MathUtils, MathError>)
      ensures numbers.Length == 0 ==> r == Failure(IllegalArgument(EMPTY_OR_CONTAIN_ONLY_NULL_VALUES))
      ensures numbers.Length > 0 ==>
                r.Success? && fresh(r.value) && r.value.numbers == numbers && !r.value.isSorted && r.value.Valid()
    {
      if numbers.Length == 0 {
        return Failure(IllegalArgument(EMPTY_OR_CONTAIN_ONLY_NULL_VALUES));
      }
      var engine := new MathUtils.Init(numbers);
      return Success(engine);
    }

    /**
     * `findExtreme(c)`: `Stream.max(c)` over the array, or the IllegalArgumentException
     * when there is no element; the result is an element that `c` puts after no other.
     */
    function FindExtreme(c: Comparator): (r: Result<int, MathError>)
      reads numbers
      ensures r.Failure? <==> numbers.Length == 0
      ensures r.Failure? ==> r.error == IllegalArgument(EMPTY_OR_CONTAIN_ONLY_NULL_VALUES)
      ensures r.Success? ==>
                r.value in numbers[..] && forall k :: 0 <= k < numbers.Length ==> Compare(c, numbers[k], r.value) <= 0
    {
      match StreamMax(c, numbers[..])
      case None => Failure(IllegalArgument(EMPTY_OR_CONTAIN_ONLY_NULL_VALUES))
      case Some(m) => Success(m)
    }

    /** `getMaximum`: the extreme under the natural order is the largest value. */
    function GetMaximum(): (m: int)
      requires Valid()
      reads numbers
      ensures IsMaximum(numbers[..], m)
    {
      FindExtreme(NaturalOrder).value
    }

    /** `getMinimum`: the extreme under the reversed order is the smallest value. */
    function GetMinimum(): (m: int)
      requires Valid()
      reads numbers
      ensures IsMinimum(numbers[..], m)
    {
      FindExtreme(ReverseOrder).value
    }

    /** `Arrays.copyOf(numbers, numbers.length)` sorted by the iterative quicksort. */
    method SortedCopy() returns (sortedArray: array<int>)
      requires Valid()
      ensures fresh(sortedArray) && SortContract(numbers[..], sortedArray[..])
    {
      sortedArray := new int[numbers.Length](k requires 0 <= k < numbers.Length reads numbers => numbers[k]);
      assert sortedArray[..] == numbers[..];
      QuickSortIterative(sortedArray, sortedArray.Length - 1);
      assert sortedArray[..sortedArray.Length] == sortedArray[..];
    }

    /**
     * `sort()`: the first call returns a fresh ascending copy and raises the flag; every
     * later call returns `numbers` itself, in whatever order it is. `numbers` is never changed.
     */
    method Sort() returns (r: array<int>)
      requires Valid()
      modifies this
      ensures isSorted
      ensures numbers[..] == old(numbers[..])
      ensures !old(isSorted) ==> fresh(r) && SortContract(numbers[..], r[..])
      ensures old(isSorted) ==> r == numbers
    {
      if !isSorted {
        r := SortedCopy();
        isSorted := true;
      } else {
        r := numbers;
      }
    }

    /**
     * `binarySearch(value)`: calls `sort()`, drops its result and searches `numbers`. The
     * answer is -1 or an index holding the value; it is -1 exactly when the value is
     * absent only if `numbers` was ascending to begin with.
     */
    method BinarySearch(value: int) returns (idx: int)
      requires Valid()
      modifies this
      ensures isSorted
      ensures idx == Search(numbers[..], value)
      ensures idx == -1 || (0 <= idx < numbers.Length && numbers[idx] == value)
      ensures Sorted(numbers[..]) ==> SearchContract(numbers[..], value, idx)
    {
      var _ := Sort();
      idx := BinarySearchIn(numbers, value);
      if Sorted(numbers[..]) {
        SearchSorted(numbers[..], value);
      }
    }

    /** Corrected `sort()`: every call, not only the first, returns an ascending copy. */
    method SortFixed() returns (r: array<int>)
      requires Valid()
      modifies this
      ensures isSorted
      ensures fresh(r) && SortContract(numbers[..], r[..])
    {
      r := SortedCopy();
      isSorted := true;
    }

    /**
     * Corrected `binarySearch(value)`: searches the ascending copy, so the answer is -1
     * exactly when the value does not occur in `numbers`, and otherwise an index of it in the copy.
     */
    method BinarySearchFixed(value: int) returns (idx: int, sortedArray: array<int>)
      requires Valid()
      modifies this
      ensures isSorted
      ensures fresh(sortedArray) && SortContract(numbers[..], sortedArray[..])
      ensures SearchContract(sortedArray[..], value, idx)
      ensures idx == -1 <==> value !in numbers[..]
    {
      sortedArray := SortFixed();
      idx := BinarySearchIn(sortedArray, value);
      SearchSorted(sortedArray[..], value);
      SearchSortedPermutation(numbers[..], sortedArray[..], value);
    }
  }

  /**
   * The loop of `binarySearch` over an array: keeps the window `[lowRange, highRange]`,
   * probes its midpoint and narrows it; the answer is the search model's.
   */
  method BinarySearchIn(a: array<int>, value: int) returns (idx: int)
    ensures idx == Search(a[..], value)
    ensures idx == -1 || (0 <= idx < a.Length && a[idx] == value)
  {
    var lowRange := 0;
    var highRange := a.Length - 1;
    while lowRange <= highRange
      invariant 0 <= lowRange <= highRange + 1 <= a.Length
      invariant SearchRange(a[..], value, lowRange, highRange) == Search(a[..], value)
      decreases highRange - lowRange
    {
      var midIndex := lowRange + (highRange - lowRange) / 2;
      var midVal := a[midIndex];
      if midVal == value {
        return midIndex;
      } else if midVal > value {
        highRange := midIndex - 1;
      } else {
        lowRange := midIndex + 1;
      }
    }
    return -1;
  }

  /** On [3, 1, 2], a second `sort()` hands back the unsorted array itself. */
  method SortTwiceOnUnsorted() returns (first: array<int>, second: array<int>)
    ensures Sorted(first[..]) && !Sorted(second[..])
  {
    var numbers := new int[3];
    numbers[0], numbers[1], numbers[2] := 3, 1, 2;
    var engine := new MathUtils.Init(numbers);
    first := engine.Sort();
    second := engine.Sort();
    assert second[..] == [3, 1, 2];
  }
}
