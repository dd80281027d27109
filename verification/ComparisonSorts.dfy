/** Sorting by comparisons, when the elements are more than the keys they are compared by: where a sort leaves elements
    of equal keys is up to the sort, but it is the same for all lists that compare alike. */
module ComparisonSorts {
  import opened Sorting

  /** A sort, given by the indices that it puts in order. */
  type Sorter = seq<string> -> seq<nat>

  function Indices(n: nat): (s: seq<nat>)
    ensures |s| == n
    ensures forall i :: 0 <= i < n ==> s[i] == i
  {
    seq(n, i requires 0 <= i < n => i)
  }

  predicate InRange(p: seq<nat>, n: nat) {
    forall i :: 0 <= i < |p| ==> p[i] < n
  }

  predicate SortedBy(ks: seq<string>, p: seq<nat>)
    requires InRange(p, |ks|)
  {
    forall i, j :: 0 <= i < j < |p| ==> Leq(ks[p[i]], ks[p[j]])
  }

  /** p takes every index once, in the order of the keys. */
  predicate IsArrangement(p: seq<nat>, ks: seq<string>) {
    |p| == |ks| && InRange(p, |ks|) && multiset(p) == multiset(Indices(|ks|)) && SortedBy(ks, p)
  }

  /** All comparisons of two keys turn out the same for the two lists. */
  predicate SamePattern(ks: seq<string>, ls: seq<string>) {
    && |ks| == |ls|
    && forall i, j :: 0 <= i < |ks| && 0 <= j < |ks| ==> (Leq(ks[i], ks[j]) <==> Leq(ls[i], ls[j]))
  }

  /** What is known of `sort.Slice`: it sorts, and depends on nothing but the comparisons. */
  ghost predicate IsSort(order: Sorter) {
    && (forall ks :: IsArrangement(order(ks), ks))
    && (forall ks, ls :: SamePattern(ks, ls) ==> order(ks) == order(ls))
  }

  // ----- applying an arrangement -----

  function Permuted<T>(p: seq<nat>, s: seq<T>): (r: seq<T>)
    requires InRange(p, |s|)
    ensures |r| == |p|
    ensures forall i :: 0 <= i < |p| ==> r[i] == s[p[i]]
  {
    seq(|p|, i requires 0 <= i < |p| => s[p[i]])
  }

  lemma PermutedWithout<T>(p: seq<nat>, k: nat, s: seq<T>)
    requires InRange(p, |s|) && k < |p|
    ensures InRange(Without(p, k), |s|)
    ensures multiset(Permuted(p, s)) == multiset(Permuted(Without(p, k), s)) + multiset{s[p[k]]}
  {
    assert Permuted(Without(p, k), s) == Without(Permuted(p, s), k);
    WithoutBag(Permuted(p, s), k);
  }

  lemma {:induction false} PermutedBag<T>(p: seq<nat>, q: seq<nat>, s: seq<T>)
    requires InRange(p, |s|) && InRange(q, |s|) && multiset(p) == multiset(q)
    ensures multiset(Permuted(p, s)) == multiset(Permuted(q, s))
    decreases |p|
  {
    hide Permuted;
    SameBagLength(p, q);
    if |p| > 0 {
      var k := HeadIn(q, p);
      assert Without(p, 0) == p[1..];
      PermutedWithout(p, 0, s);
      PermutedWithout(q, k, s);
      PermutedBag(p[1..], Without(q, k), s);
    } else {
      assert Permuted(p, s) == Permuted(q, s);
    }
  }

  /** An arrangement rearranges whatever it is applied to. */
  lemma ArrangementBag<T>(p: seq<nat>, ks: seq<string>, s: seq<T>)
    requires IsArrangement(p, ks) && |s| == |ks|
    ensures multiset(Permuted(p, s)) == multiset(s)
  {
    PermutedBag(p, Indices(|s|), s);
    assert Permuted(Indices(|s|), s) == s;
  }

  lemma HasIndex(p: seq<nat>, ks: seq<string>, j: nat) returns (i: nat)
    requires IsArrangement(p, ks) && j < |ks|
    ensures i < |p| && p[i] == j
  {
    assert Indices(|ks|)[j] == j;
    assert j in multiset(p);
    i :| 0 <= i < |p| && p[i] == j;
  }

  function Swapped<T>(s: seq<T>, i: nat, j: nat): seq<T>
    requires i < |s| && j < |s|
  {
    s[i := s[j]][j := s[i]]
  }

  lemma SwappedBag<T>(s: seq<T>, i: nat, j: nat)
    requires i < j < |s|
    ensures multiset(Swapped(s, i, j)) == multiset(s)
  {
    var a, b, c := s[..i], s[i + 1..j], s[j + 1..];
    assert s == a + [s[i]] + b + [s[j]] + c;
    assert Swapped(s, i, j) == a + [s[j]] + b + [s[i]] + c;
    FiveBags(a, [s[i]], b, [s[j]], c);
  }

  lemma FiveBags<T>(a: seq<T>, x: seq<T>, b: seq<T>, y: seq<T>, c: seq<T>)
    ensures multiset(a + x + b + y + c) == multiset(a + y + b + x + c)
  {
  }

  lemma SwapArrangement(p: seq<nat>, ks: seq<string>, i: nat, j: nat)
    requires IsArrangement(p, ks) && i < j < |p| && ks[p[i]] == ks[p[j]]
    ensures IsArrangement(Swapped(p, i, j), ks)
  {
    hide Leq;
    SwappedBag(p, i, j);
    SwapSorted(p, ks, i, j);
  }

  lemma SwapSorted(p: seq<nat>, ks: seq<string>, i: nat, j: nat)
    requires InRange(p, |ks|) && SortedBy(ks, p) && i < j < |p| && ks[p[i]] == ks[p[j]]
    ensures InRange(Swapped(p, i, j), |ks|) && SortedBy(ks, Swapped(p, i, j))
  {
    hide Leq;
    var q := Swapped(p, i, j);
    assert forall k :: 0 <= k < |p| ==> ks[q[k]] == ks[p[k]];
  }

  // ----- there are such sorts -----

  function Inserted(ks: seq<string>, p: seq<nat>, x: nat): (r: seq<nat>)
    requires x < |ks| && InRange(p, |ks|)
    ensures |r| == |p| + 1 && InRange(r, |ks|)
  {
    if |p| == 0 || Leq(ks[p[|p| - 1]], ks[x]) then p + [x] else Inserted(ks, p[..|p| - 1], x) + [p[|p| - 1]]
  }

  lemma {:induction false} InsertedMembers(ks: seq<string>, p: seq<nat>, x: nat)
    requires x < |ks| && InRange(p, |ks|)
    ensures multiset(Inserted(ks, p, x)) == multiset(p) + multiset{x}
  {
    hide Leq;
    if |p| > 0 {
      assert p == p[..|p| - 1] + [p[|p| - 1]];
      InsertedMembers(ks, p[..|p| - 1], x);
    }
  }

  lemma {:induction false} InsertedSorted(ks: seq<string>, p: seq<nat>, x: nat)
    requires x < |ks| && InRange(p, |ks|) && SortedBy(ks, p)
    ensures SortedBy(ks, Inserted(ks, p, x))
  {
    hide Leq;
    LeqIsOrder();
    if |p| == 0 {
    } else if Leq(ks[p[|p| - 1]], ks[x]) {
      assert forall i :: 0 <= i < |p| ==> Leq(ks[p[i]], ks[p[|p| - 1]]);
    } else {
      var front, last := p[..|p| - 1], p[|p| - 1];
      InsertedSorted(ks, front, x);
      InsertedMembers(ks, front, x);
      AllBefore(ks, front, x, Inserted(ks, front, x), last);
    }
  }

  lemma AllBefore(ks: seq<string>, front: seq<nat>, x: nat, r: seq<nat>, last: nat)
    requires InRange(front, |ks|) && InRange(r, |ks|) && x < |ks| && last < |ks|
    requires multiset(r) == multiset(front) + multiset{x}
    requires Leq(ks[x], ks[last]) && forall i :: 0 <= i < |front| ==> Leq(ks[front[i]], ks[last])
    ensures forall i :: 0 <= i < |r| ==> Leq(ks[r[i]], ks[last])
  {
    hide Leq;
    forall i | 0 <= i < |r| ensures Leq(ks[r[i]], ks[last]) {
      assert r[i] in multiset(r);
      assert r[i] == x || r[i] in front;
    }
  }

  function OrderUpTo(ks: seq<string>, n: nat): (p: seq<nat>)
    requires n <= |ks|
    ensures |p| == n && InRange(p, |ks|)
  {
    if n == 0 then [] else Inserted(ks, OrderUpTo(ks, n - 1), n - 1)
  }

  lemma IndicesNext(n: nat)
    ensures multiset(Indices(n + 1)) == multiset(Indices(n)) + multiset{n}
  {
    assert Indices(n + 1) == Indices(n) + [n];
  }

  lemma {:induction false} OrderUpToBag(ks: seq<string>, n: nat)
    requires n <= |ks|
    ensures multiset(OrderUpTo(ks, n)) == multiset(Indices(n))
  {
    hide Inserted, InRange, Indices;
    if n > 0 {
      OrderUpToBag(ks, n - 1);
      InsertedMembers(ks, OrderUpTo(ks, n - 1), n - 1);
      IndicesNext(n - 1);
    } else {
      assert Indices(0) == [];
    }
  }

  lemma {:induction false} OrderUpToSorted(ks: seq<string>, n: nat)
    requires n <= |ks|
    ensures SortedBy(ks, OrderUpTo(ks, n))
  {
    hide Inserted, Leq;
    if n > 0 {
      OrderUpToSorted(ks, n - 1);
      InsertedSorted(ks, OrderUpTo(ks, n - 1), n - 1);
    }
  }

  lemma {:induction false} InsertedPattern(ks: seq<string>, ls: seq<string>, p: seq<nat>, x: nat)
    requires SamePattern(ks, ls) && x < |ks| && InRange(p, |ks|)
    ensures Inserted(ks, p, x) == Inserted(ls, p, x)
  {
    hide Leq;
    if |p| > 0 {
      InsertedPattern(ks, ls, p[..|p| - 1], x);
    }
  }

  lemma {:induction false} OrderUpToPattern(ks: seq<string>, ls: seq<string>, n: nat)
    requires SamePattern(ks, ls) && n <= |ks| == |ls|
    ensures OrderUpTo(ks, n) == OrderUpTo(ls, n)
  {
    hide Inserted, SamePattern, InRange;
    if n > 0 {
      OrderUpToPattern(ks, ls, n - 1);
      var p := OrderUpTo(ks, n - 1);
      InsertedPattern(ks, ls, p, n - 1);
    }
  }

  /** Sorting by insertion. */
  function Stable(ks: seq<string>): seq<nat> {
    OrderUpTo(ks, |ks|)
  }

  lemma StableArranges(ks: seq<string>)
    ensures IsArrangement(Stable(ks), ks)
  {
    hide OrderUpTo, Leq;
    OrderUpToBag(ks, |ks|);
    OrderUpToSorted(ks, |ks|);
  }

  lemma PatternArranges(p: seq<nat>, ks: seq<string>, ls: seq<string>)
    requires IsArrangement(p, ks) && SamePattern(ks, ls)
    ensures IsArrangement(p, ls)
  {
    hide Leq;
  }

  lemma PatternClass(ks: seq<string>, ls: seq<string>, ms: seq<string>)
    requires SamePattern(ks, ls)
    ensures SamePattern(ls, ks)
    ensures SamePattern(ks, ms) <==> SamePattern(ls, ms)
    ensures SamePattern(ms, ks) <==> SamePattern(ms, ls)
  {
    hide Leq;
  }

  /** The sort that arranges lists like ks as p says, lists like ls as q says, and others by insertion. */
  function TwoWay(ks: seq<string>, p: seq<nat>, ls: seq<string>, q: seq<nat>): Sorter {
    (xs: seq<string>) => if SamePattern(xs, ks) then p else if SamePattern(xs, ls) then q else Stable(xs)
  }

  /** Any two arrangements are those of one sort, unless their lists compare alike. */
  lemma TwoWayIsSort(ks: seq<string>, p: seq<nat>, ls: seq<string>, q: seq<nat>)
    requires IsArrangement(p, ks) && IsArrangement(q, ls) && (SamePattern(ks, ls) ==> p == q)
    ensures IsSort(TwoWay(ks, p, ls, q))
    ensures TwoWay(ks, p, ls, q)(ks) == p && TwoWay(ks, p, ls, q)(ls) == q
  {
    hide Leq, IsArrangement, SamePattern, Stable;
    var order := TwoWay(ks, p, ls, q);
    SelfPattern(ks);
    SelfPattern(ls);
    if SamePattern(ls, ks) {
      PatternClass(ls, ks, ls);
    }
    forall xs ensures IsArrangement(order(xs), xs) {
      StableArranges(xs);
      if SamePattern(xs, ks) {
        PatternClass(xs, ks, xs);
        PatternArranges(p, ks, xs);
      } else if SamePattern(xs, ls) {
        PatternClass(xs, ls, xs);
        PatternArranges(q, ls, xs);
      }
    }
    forall xs, ys | SamePattern(xs, ys) ensures order(xs) == order(ys) {
      PatternClass(xs, ys, ks);
      PatternClass(xs, ys, ls);
      StablePattern(xs, ys);
    }
  }

  lemma SorterWith(ks: seq<string>, p: seq<nat>) returns (order: Sorter)
    requires IsArrangement(p, ks)
    ensures IsSort(order) && order(ks) == p
  {
    hide IsSort, IsArrangement;
    TwoWayIsSort(ks, p, ks, p);
    order := TwoWay(ks, p, ks, p);
  }

  lemma SelfPattern(ks: seq<string>)
    ensures SamePattern(ks, ks)
  {
  }

  lemma StablePattern(ks: seq<string>, ls: seq<string>)
    requires SamePattern(ks, ls)
    ensures Stable(ks) == Stable(ls)
  {
    hide OrderUpTo, Leq;
    OrderUpToPattern(ks, ls, |ks|);
  }
}
