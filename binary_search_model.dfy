/**
 * The binary-search loop of `MathUtils.binarySearch` as a function of the searched
 * sequence and the current window `[low, high]`, with what it finds on any sequence
 * and what it finds on an ascending one.
 */
module BinarySearchModel {
  import opened Math

  /**
   * The loop from window `[low, high]` on: probe `mid = low + (high - low) / 2`, return it
   * on a match, else keep the half that `compareTo` points to; -1 once the window is empty.
   * Whatever the order of `s`, an index it returns holds the value.
   */
  function SearchRange(s: seq<int>, value: int, low: int, high: int): (idx: int)
    requires 0 <= low <= high + 1 <= |s|
    ensures idx == -1 || (low <= idx <= high && s[idx] == value)
    decreases high - low
  {
    if low > high then -1
    else
      var mid := low + (high - low) / 2;
      if s[mid] == value then mid
      else if s[mid] > value then SearchRange(s, value, low, mid - 1)
      else SearchRange(s, value, mid + 1, high)
  }

  /** The whole search: the loop started on the window `[0, |s| - 1]`. */
  function Search(s: seq<int>, value: int): (idx: int)
    ensures idx == -1 || (0 <= idx < |s| && s[idx] == value)
  {
    SearchRange(s, value, 0, |s| - 1)
  }

  /** On an ascending sequence, a value present in the window is found. */
  lemma {:induction false} SearchRangeFinds(s: seq<int>, value: int, low: int, high: int, k: int)
    requires Sorted(s) && 0 <= low <= high + 1 <= |s|
    requires low <= k <= high && s[k] == value
    ensures SearchRange(s, value, low, high) != -1
    decreases high - low
  {
    var mid := low + (high - low) / 2;
    if s[mid] == value {
    } else if s[mid] > value {
      assert k < mid;
      SearchRangeFinds(s, value, low, mid - 1, k);
    } else {
      assert mid < k;
      SearchRangeFinds(s, value, mid + 1, high, k);
    }
  }

  /** On an ascending sequence the search meets the `binarySearch` contract: -1 exactly when the value is absent. */
  lemma SearchSorted(s: seq<int>, value: int)
    requires Sorted(s)
    ensures SearchContract(s, value, Search(s, value))
    ensures Search(s, value) == -1 <==> value !in s
  {
    if value in s {
      var k :| 0 <= k < |s| && s[k] == value;
      SearchRangeFinds(s, value, 0, |s| - 1, k);
    }
  }

  /** Searching an ascending permutation of `s` finds exactly the values that occur in `s`. */
  lemma SearchSortedPermutation(s: seq<int>, t: seq<int>, value: int)
    requires SortContract(s, t)
    ensures Search(t, value) == -1 <==> value !in s
  {
    SearchSorted(t, value);
    assert value in s <==> value in multiset(s);
    assert value in t <==> value in multiset(t);
  }

  /** On the unsorted sequence [3, 1, 2] the search misses the 3 that sits at index 0. */
  lemma SearchMissesInUnsorted()
    ensures 3 in [3, 1, 2] && Search([3, 1, 2], 3) == -1
  {
    var s := [3, 1, 2];
    assert s[0] == 3;
    assert SearchRange(s, 3, 2, 2) == SearchRange(s, 3, 3, 2) == -1;
    assert SearchRange(s, 3, 0, 2) == SearchRange(s, 3, 2, 2);
  }

  /** With duplicates the index found is not the first occurrence: on [2, 2, 2] it is the middle one. */
  lemma SearchNotFirstOccurrence()
    ensures Search([2, 2, 2], 2) == 1
  {
  }
}
