/**
 * The abstract base class `Math`: the error raised on an empty array, and the
 * contracts that its abstract methods `sort`, `binarySearch`, `getMaximum` and
 * `getMinimum` promise to every subclass.
 */
module Math {

  /** Message of the IllegalArgumentException thrown for an empty array. */
  const EMPTY_OR_CONTAIN_ONLY_NULL_VALUES: string :=
    "Array must not be empty or contain only null values."

  /** The exceptions the numeric-array engine throws. */
  datatype MathError = IllegalArgument(message: string)

  /** Ascending (non-decreasing) order. */
  predicate Sorted(s: seq<int>)
  {
    forall i, j :: 0 <= i < j < |s| ==> s[i] <= s[j]
  }

  /** `sort` returns the numbers in ascending order: an ascending permutation of its input. */
  predicate SortContract(input: seq<int>, output: seq<int>)
  {
    |output| == |input| && Sorted(output) && multiset(output) == multiset(input)
  }

  /** `binarySearch` returns an index of the value in the array if it occurs, and -1 if not. */
  predicate SearchContract(s: seq<int>, value: int, idx: int)
  {
    (idx == -1 && value !in s) || (0 <= idx < |s| && s[idx] == value)
  }

  /** `getMaximum` returns the largest value of the array. */
  predicate IsMaximum(s: seq<int>, m: int)
  {
    m in s && forall k :: 0 <= k < |s| ==> s[k] <= m
  }

  /** `getMinimum` returns the smallest value of the array. */
  predicate IsMinimum(s: seq<int>, m: int)
  {
    m in s && forall k :: 0 <= k < |s| ==> m <= s[k]
  }
}
