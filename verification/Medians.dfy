/** Medians, found by sorting the caller's slice in place. */
module Medians {
  import opened Machine
  import opened Sorting

  predicate AtMost(x: int, y: int) {
    x <= y
  }

  /** The sorted arrangement of a list of numbers. */
  ghost predicate SortOfNumbers(sorted: seq<int>, s: seq<int>) {
    SortOf(AtMost, sorted, s)
  }

  // ----- the medians of a sorted list -----

  function UintMedian(s: seq<int>): int {
    if |s| == 0 then 0
    else if |s| % 2 == 1 then s[|s| / 2]
    else (s[|s| / 2 - 1] + s[|s| / 2]) / 2
  }

  /** Division by two as Go does it: towards zero. */
  function Half(x: int): int {
    if x < 0 then -(-x / 2) else x / 2
  }

  function Int64Median(s: seq<int>): int {
    if |s| == 0 then 0
    else if |s| % 2 == 1 then s[|s| / 2]
    else Half(Int64(s[|s| / 2 - 1] + s[|s| / 2]))
  }

  predicate AtMost64(x: int64, y: int64) {
    x <= y
  }

  method GetMedianUint(vals: array<int>) returns (median: int)
    requires forall k :: 0 <= k < vals.Length ==> vals[k] >= 0
    modifies vals
    ensures SortOfNumbers(vals[..], old(vals[..]))
    ensures median == UintMedian(vals[..])
  {
    if vals.Length == 0 {
      return 0;
    }
    SortSlice(AtMost, vals);
    if vals.Length % 2 > 0 {
      var medianSpot := vals.Length / 2;
      median := vals[medianSpot];
    } else {
      var pt1 := vals[vals.Length / 2 - 1];
      var pt2 := vals[vals.Length / 2];
      median := (pt1 + pt2) / 2;
    }
  }

  method GetMedianInt64(vals: array<int64>) returns (median: int64)
    modifies vals
    ensures SortOfNumbers(vals[..], old(vals[..]))
    ensures median == Int64Median(vals[..])
  {
    hide Int64;
    if vals.Length == 0 {
      return 0;
    }
    if vals.Length == 1 {
      return vals[0];
    }
    SortSlice(AtMost64, vals);
    if vals.Length % 2 > 0 {
      var medianSpot := vals.Length / 2;
      median := vals[medianSpot];
    } else {
      var pt1: int := vals[vals.Length / 2 - 1];
      var pt2: int := vals[vals.Length / 2];
      median := Half(Int64(pt1 + pt2));
    }
  }

  // ----- what makes a value a median -----

  function CountBelow(s: seq<int>, x: int): nat {
    if |s| == 0 then 0 else (if s[0] < x then 1 else 0) + CountBelow(s[1..], x)
  }

  function CountAbove(s: seq<int>, x: int): nat {
    if |s| == 0 then 0 else (if s[0] > x then 1 else 0) + CountAbove(s[1..], x)
  }

  /** At most half of the values lie strictly below x, and at most half strictly above. */
  predicate IsMedian(s: seq<int>, x: int) {
    CountBelow(s, x) <= |s| / 2 && CountAbove(s, x) <= |s| / 2
  }

  lemma {:induction false} CountSplit(a: seq<int>, b: seq<int>, x: int)
    ensures CountBelow(a + b, x) == CountBelow(a, x) + CountBelow(b, x)
    ensures CountAbove(a + b, x) == CountAbove(a, x) + CountAbove(b, x)
  {
    if |a| == 0 {
      assert a + b == b;
    } else {
      assert (a + b)[1..] == a[1..] + b;
      CountSplit(a[1..], b, x);
    }
  }

  lemma {:induction false} CountBounded(s: seq<int>, x: int)
    ensures CountBelow(s, x) <= |s| && CountAbove(s, x) <= |s|
  {
    if |s| > 0 {
      CountBounded(s[1..], x);
    }
  }

  lemma {:induction false} AllBelow(s: seq<int>, x: int)
    requires forall k :: 0 <= k < |s| ==> s[k] < x
    ensures CountBelow(s, x) == |s|
  {
    if |s| > 0 {
      AllBelow(s[1..], x);
    }
  }

  lemma {:induction false} NoneBelow(s: seq<int>, x: int)
    requires forall k :: 0 <= k < |s| ==> s[k] >= x
    ensures CountBelow(s, x) == 0
  {
    if |s| > 0 {
      NoneBelow(s[1..], x);
    }
  }

  lemma {:induction false} AllAbove(s: seq<int>, x: int)
    requires forall k :: 0 <= k < |s| ==> s[k] > x
    ensures CountAbove(s, x) == |s|
  {
    if |s| > 0 {
      AllAbove(s[1..], x);
    }
  }

  lemma {:induction false} NoneAbove(s: seq<int>, x: int)
    requires forall k :: 0 <= k < |s| ==> s[k] <= x
    ensures CountAbove(s, x) == 0
  {
    if |s| > 0 {
      NoneAbove(s[1..], x);
    }
  }

  lemma SplitAt(s: seq<int>, k: nat, x: int)
    requires k <= |s|
    ensures CountBelow(s, x) == CountBelow(s[..k], x) + CountBelow(s[k..], x)
    ensures CountAbove(s, x) == CountAbove(s[..k], x) + CountAbove(s[k..], x)
  {
    hide CountBelow, CountAbove;
    assert s == s[..k] + s[k..];
    CountSplit(s[..k], s[k..], x);
  }

  lemma {:induction false} CountBag(s: seq<int>, t: seq<int>, x: int)
    requires multiset(s) == multiset(t)
    ensures |s| == |t| && CountBelow(s, x) == CountBelow(t, x) && CountAbove(s, x) == CountAbove(t, x)
    decreases |t|
  {
    assert |multiset(s)| == |multiset(t)|;
    if |t| > 0 {
      var k := HeadIn(s, t);
      CountBag(Without(s, k), t[1..], x);
      CountSplit(s[..k], s[k + 1..], x);
      CountSplit(s[..k], s[k..], x);
      assert s == s[..k] + s[k..];
      assert s[k..][1..] == s[k + 1..];
    }
  }

  /** In a sorted list, the i-th value tells how many lie below x and how many above. */
  lemma BelowAt(s: seq<int>, x: int, i: nat)
    requires Sorted(AtMost, s) && i < |s|
    ensures if s[i] < x then CountBelow(s, x) > i else CountBelow(s, x) <= i
  {
    hide CountBelow, CountAbove;
    if s[i] < x {
      SplitAt(s, i + 1, x);
      AllBelow(s[..i + 1], x);
    } else {
      SplitAt(s, i, x);
      CountBounded(s[..i], x);
      NoneBelow(s[i..], x);
    }
  }

  lemma AboveAt(s: seq<int>, x: int, i: nat)
    requires Sorted(AtMost, s) && i < |s|
    ensures if s[i] > x then CountAbove(s, x) >= |s| - i else CountAbove(s, x) < |s| - i
  {
    hide CountBelow, CountAbove;
    if s[i] > x {
      SplitAt(s, i, x);
      AllAbove(s[i..], x);
    } else {
      SplitAt(s, i + 1, x);
      NoneAbove(s[..i + 1], x);
      CountBounded(s[i + 1..], x);
    }
  }

  /** In a sorted list, x is a median exactly when it lies between the two middle values. */
  lemma MiddleIsMedian(s: seq<int>, x: int)
    requires Sorted(AtMost, s) && |s| > 0
    ensures IsMedian(s, x) <==> s[(|s| - 1) / 2] <= x <= s[|s| / 2]
  {
    hide CountBelow, CountAbove, Sorted;
    BelowAt(s, x, |s| / 2);
    AboveAt(s, x, (|s| - 1) / 2);
  }

  /** The result is a median of what the caller's slice held. */
  lemma UintMedianIsMedian(before: seq<int>, after: seq<int>)
    requires SortOfNumbers(after, before) && |before| > 0
    requires forall k :: 0 <= k < |before| ==> before[k] >= 0
    ensures IsMedian(before, UintMedian(after))
  {
    hide CountBelow, CountAbove;
    CountBag(after, before, UintMedian(after));
    MiddleIsMedian(after, UintMedian(after));
  }

  /** With 64-bit integers it is one exactly when the two middle values can be added. */
  lemma Int64MedianExactly(before: seq<int64>, after: seq<int64>)
    requires SortOfNumbers(after, before) && |before| > 0
    ensures IsMedian(before, Int64Median(after))
       <==> |after| % 2 == 0 ==> -TWO_63 <= after[|after| / 2 - 1] + after[|after| / 2] < TWO_63
  {
    hide CountBelow, CountAbove;
    CountBag(after, before, Int64Median(after));
    MiddleIsMedian(after, Int64Median(after));
    if |after| % 2 == 0 {
      HalfSum(after[|after| / 2 - 1], after[|after| / 2]);
    }
  }

  lemma HalfSum(a: int64, b: int64)
    requires a <= b
    ensures a <= Half(Int64(a + b)) <= b <==> -TWO_63 <= a + b < TWO_63
  {
  }

  /** Whatever order the values come in, the sorted slice, and so the median, is the same. */
  lemma MedianIgnoresOrder(before: seq<int>, before': seq<int>, after: seq<int>, after': seq<int>)
    requires multiset(before) == multiset(before') && SortOfNumbers(after, before) && SortOfNumbers(after', before')
    ensures after == after'
    ensures UintMedian(after) == UintMedian(after') && Int64Median(after) == Int64Median(after')
  {
    hide Int64;
    SortIsUnique(AtMost, after, after');
  }

  /** The middle value; or, of two, their mean, rounded down for unsigned numbers and towards zero for signed ones. */
  lemma MedianExactly(s: seq<int>, m: int)
    requires |s| > 0
    ensures |s| % 2 == 1 ==> UintMedian(s) == Int64Median(s) == s[|s| / 2]
    ensures |s| % 2 == 0 ==> (m == UintMedian(s) <==> 2 * m <= s[|s| / 2 - 1] + s[|s| / 2] <= 2 * m + 1)
    ensures |s| % 2 == 0 ==> (m == Int64Median(s) <==> IsHalf(m, Int64(s[|s| / 2 - 1] + s[|s| / 2])))
  {
    hide Int64;
  }

  /** Half of the sum without its fraction. */
  predicate IsHalf(m: int, sum: int) {
    if sum < 0 then sum <= 2 * m <= sum + 1 else sum - 1 <= 2 * m <= sum
  }

  lemma MedianExamples()
    ensures UintMedian([]) == 0 && UintMedian([7]) == 7 && UintMedian([1, 4]) == 2 && UintMedian([1, 2, 9]) == 2
    ensures Int64Median([]) == 0 && Int64Median([-4, -1]) == -2 && Int64Median([-3, -2, 9, 10]) == 3
  {
  }

  /** For example, the two largest integers have a negative result. */
  lemma LargeValuesOverflow(after: seq<int64>)
    requires SortOfNumbers(after, [TWO_63 - 1, TWO_63 - 1])
    ensures Int64Median(after) == -1 && !IsMedian([TWO_63 - 1, TWO_63 - 1], Int64Median(after))
  {
    var before: seq<int64> := [TWO_63 - 1, TWO_63 - 1];
    SameBagLength(after, before);
    assert after[0] in multiset(after) && after[1] in multiset(after);
    assert after == before;
    Int64MedianExactly(before, after);
  }
}
