/**
 * The invariant behind the iterative quicksort of `MathUtils`: the work stack of
 * pending ranges, the order that holds between any two cells not waiting in the
 * same range, and the measure that drops by one with every pop.
 */
module QuickSortProofs {
  import opened Math

  /** A pending range `{lowIndex, highIndex}`, both bounds inclusive. */
  type Range = (int, int)

  /** Number of cells in a range; 0 for an empty range such as `{p + 1, p}`. */
  function Size(r: Range): int
  {
    r.1 - r.0 + 1
  }

  /**
   * The stack is well formed for a sort of `[0, top]`: every range lies inside it and
   * has size at least 0, and a range deeper in the stack (the stack top is index 0)
   * lies strictly to the left of every range above it.
   */
  ghost predicate WellFormed(stack: seq<Range>, top: int)
  {
    (forall t :: 0 <= t < |stack| ==> 0 <= stack[t].0 && 0 <= Size(stack[t]) && stack[t].1 <= top) &&
    (forall t, u :: 0 <= t < u < |stack| ==> stack[u].1 < stack[t].0)
  }

  /** Cells `i` and `j` both lie in one pending range. */
  ghost predicate Together(stack: seq<Range>, i: int, j: int)
  {
    exists t :: 0 <= t < |stack| && stack[t].0 <= i && j <= stack[t].1
  }

  /** Two cells of `[0, top]` that do not wait in one pending range are in ascending order. */
  ghost predicate OrderedAcross(s: seq<int>, stack: seq<Range>, top: int)
  {
    top < |s| &&
    forall i, j :: 0 <= i < j <= top && !Together(stack, i, j) ==> s[i] <= s[j]
  }

  /** `2 * size + 1` for one range: a pop removes it, and any pushes put back less. */
  function Weight(r: Range): nat
  {
    if Size(r) < 0 then 0 else 2 * Size(r) + 1
  }

  /** The termination measure of the stack loop: the weights of all pending ranges. */
  function Measure(stack: seq<Range>): nat
  {
    if stack == [] then 0 else Weight(stack[0]) + Measure(stack[1..])
  }

  /** The partition of `stack[0] = (lo, hi)` at `p` pushes two ranges whose weights sum to one less. */
  lemma {:induction false} SplitDecreases(stack: seq<Range>, lo: int, hi: int, p: int)
    requires stack != [] && stack[0] == (lo, hi) && lo <= p <= hi
    ensures Measure([(p + 1, hi), (lo, p - 1)] + stack[1..]) == Measure(stack) - 1
  {
    var rest := stack[1..];
    var pushed := [(p + 1, hi), (lo, p - 1)] + rest;
    assert pushed[1..] == [(lo, p - 1)] + rest;
    assert pushed[1..][1..] == rest;
    assert Measure(pushed) == Weight((p + 1, hi)) + Weight((lo, p - 1)) + Measure(rest);
  }

  /** The initial stack `[(0, top)]` is well formed, and every pair of cells is in its one range. */
  lemma InitialStack(s: seq<int>, top: int)
    requires 0 <= top < |s|
    ensures WellFormed([(0, top)], top)
    ensures OrderedAcross(s, [(0, top)], top)
  {
    var stack := [(0, top)];
    forall i, j | 0 <= i < j <= top
      ensures Together(stack, i, j)
    {
      assert stack[0].0 <= i && j <= stack[0].1;
    }
  }

  /** When the stack is empty, the order across ranges is ascending order of `[0, top]`. */
  lemma EmptyStackSorted(s: seq<int>, top: int)
    requires 0 <= top && OrderedAcross(s, [], top)
    ensures Sorted(s[..top + 1])
  {
    forall i, j | 0 <= i < j <= top
      ensures s[i] <= s[j]
    {
      assert !Together([], i, j);
    }
  }

  /** Popping a range of size at most one keeps the invariant: it holds no unordered pair. */
  lemma DropSmallRange(s: seq<int>, stack: seq<Range>, top: int)
    requires stack != [] && stack[0].0 >= stack[0].1
    requires WellFormed(stack, top) && OrderedAcross(s, stack, top)
    ensures WellFormed(stack[1..], top) && OrderedAcross(s, stack[1..], top)
  {
    var rest := stack[1..];
    forall i, j | 0 <= i < j <= top && !Together(rest, i, j)
      ensures s[i] <= s[j]
    {
      forall t | 0 <= t < |stack|
        ensures !(stack[t].0 <= i && j <= stack[t].1)
      {
        if t > 0 {
          assert stack[t] == rest[t - 1];
        }
      }
    }
  }

  /** Every value of a permuted slice keeps an upper or lower bound that held for the old slice. */
  lemma PermutedSliceBounds(s: seq<int>, s': seq<int>, lo: int, hi: int, b: int)
    requires 0 <= lo <= hi + 1 <= |s| == |s'|
    requires multiset(s'[lo..hi + 1]) == multiset(s[lo..hi + 1])
    ensures (forall k :: lo <= k <= hi ==> s[k] <= b) ==> (forall k :: lo <= k <= hi ==> s'[k] <= b)
    ensures (forall k :: lo <= k <= hi ==> b <= s[k]) ==> (forall k :: lo <= k <= hi ==> b <= s'[k])
  {
    forall k | lo <= k <= hi
      ensures exists m :: lo <= m <= hi && s[m] == s'[k]
    {
      assert s'[k] == s'[lo..hi + 1][k - lo];
      assert s'[k] in multiset(s'[lo..hi + 1]);
      assert s'[k] in s[lo..hi + 1];
      var m :| 0 <= m < hi + 1 - lo && s[lo..hi + 1][m] == s'[k];
      assert s[lo + m] == s'[k];
    }
  }

  /** A change confined to `[lo, hi]` that keeps the multiset of the whole sequence keeps that of the slice. */
  lemma SliceMultiset(s: seq<int>, s': seq<int>, lo: int, hi: int)
    requires 0 <= lo <= hi + 1 <= |s| == |s'|
    requires forall k :: 0 <= k < |s| && !(lo <= k <= hi) ==> s'[k] == s[k]
    requires multiset(s') == multiset(s)
    ensures multiset(s'[lo..hi + 1]) == multiset(s[lo..hi + 1])
  {
    var left, right := s[..lo], s[hi + 1..];
    assert left == s'[..lo];
    assert right == s'[hi + 1..];
    assert s == left + s[lo..hi + 1] + right;
    assert s' == left + s'[lo..hi + 1] + right;
    assert multiset(s) == multiset(left) + multiset(s[lo..hi + 1]) + multiset(right);
    assert multiset(s') == multiset(left) + multiset(s'[lo..hi + 1]) + multiset(right);
    assert multiset(s[lo..hi + 1]) == multiset(s) - multiset(left) - multiset(right);
    assert multiset(s'[lo..hi + 1]) == multiset(s') - multiset(left) - multiset(right);
  }

  /**
   * The step of the stack loop: after the popped range `(lo, hi)` has been partitioned
   * at `p`, pushing `(lo, p - 1)` and then `(p + 1, hi)` keeps the stack well formed and
   * every pair of cells not waiting in one range in ascending order.
   */
  lemma {:induction false} PartitionStep(s: seq<int>, s': seq<int>, stack: seq<Range>, top: int,
                                         lo: int, hi: int, p: int)
    requires |s| == |s'|
    requires stack != [] && stack[0] == (lo, hi) && lo <= p <= hi
    requires WellFormed(stack, top) && OrderedAcross(s, stack, top)
    requires forall k :: 0 <= k < |s| && !(lo <= k <= hi) ==> s'[k] == s[k]
    requires multiset(s'[lo..hi + 1]) == multiset(s[lo..hi + 1])
    requires forall k :: lo <= k < p ==> s'[k] <= s'[p]
    requires forall k :: p < k <= hi ==> s'[p] < s'[k]
    ensures WellFormed([(p + 1, hi), (lo, p - 1)] + stack[1..], top)
    ensures OrderedAcross(s', [(p + 1, hi), (lo, p - 1)] + stack[1..], top)
  {
    var rest := stack[1..];
    var stack' := [(p + 1, hi), (lo, p - 1)] + rest;
    assert forall t :: 2 <= t < |stack'| ==> stack'[t] == stack[t - 1];
    forall t, u | 0 <= t < u < |stack'|
      ensures stack'[u].1 < stack'[t].0
    {
      if t >= 2 {
        assert stack'[u].1 < stack'[t].0 by {
          assert stack[u - 1].1 < stack[t - 1].0;
        }
      } else if u >= 2 {
        assert stack[u - 1].1 < stack[0].0;
      }
    }
    forall i, j | 0 <= i < j <= top && !Together(stack', i, j)
      ensures s'[i] <= s'[j]
    {
      var inI, inJ := lo <= i <= hi, lo <= j <= hi;
      if inI && inJ {
        // Neither half holds both cells, so the pivot lies between them.
        assert stack'[0] == (p + 1, hi) && stack'[1] == (lo, p - 1);
        assert i <= p <= j;
      } else if inI {
        // j lies right of the range: it was above every old value of the range.
        forall k | lo <= k <= hi
          ensures s[k] <= s[j]
        {
          NotTogetherAcross(stack, top, k, j);
        }
        PermutedSliceBounds(s, s', lo, hi, s[j]);
      } else if inJ {
        // i lies left of the range: it was below every old value of the range.
        forall k | lo <= k <= hi
          ensures s[i] <= s[k]
        {
          NotTogetherAcross(stack, top, i, k);
        }
        PermutedSliceBounds(s, s', lo, hi, s[i]);
      } else {
        // Both cells lie outside the range: they were already apart, and did not move.
        forall t | 0 <= t < |stack|
          ensures !(stack[t].0 <= i && j <= stack[t].1)
        {
          if t > 0 {
            assert stack[t] == stack'[t + 1];
          }
        }
      }
    }
  }

  /** A cell of the top range and a cell outside it never wait in one range. */
  lemma NotTogetherAcross(stack: seq<Range>, top: int, i: int, j: int)
    requires stack != [] && WellFormed(stack, top) && i < j
    requires (stack[0].0 <= i <= stack[0].1 && stack[0].1 < j) || (i < stack[0].0 && stack[0].0 <= j <= stack[0].1)
    ensures !Together(stack, i, j)
  {
    forall t | 0 <= t < |stack|
      ensures !(stack[t].0 <= i && j <= stack[t].1)
    {
      if t > 0 {
        assert stack[t].1 < stack[0].0;
      }
    }
  }
}
