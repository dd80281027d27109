/** Rearranging lists: bags, sorted arrangements, and a sort that promises no more than being one. */
module Sorting {

  // ----- taking one element out -----

  function Without<T>(s: seq<T>, k: nat): seq<T>
    requires k < |s|
  {
    s[..k] + s[k + 1..]
  }

  lemma WithoutBag<T>(s: seq<T>, k: nat)
    requires k < |s|
    ensures multiset(s) == multiset(Without(s, k)) + multiset{s[k]}
    ensures multiset(Without(s, k)) == multiset(s) - multiset{s[k]}
  {
    assert s == s[..k] + [s[k]] + s[k + 1..];
  }

  lemma SameBagLength<T>(s: seq<T>, t: seq<T>)
    requires multiset(s) == multiset(t)
    ensures |s| == |t|
  {
    assert |multiset(s)| == |multiset(t)|;
  }

  /** Where an arrangement of the same bag has the head of t; without it, it is an arrangement of the tail. */
  lemma HeadIn<T>(s: seq<T>, t: seq<T>) returns (k: nat)
    requires multiset(s) == multiset(t) && |t| > 0
    ensures |s| == |t| && k < |s| && s[k] == t[0]
    ensures multiset(Without(s, k)) == multiset(t[1..])
  {
    SameBagLength(s, t);
    assert t[0] in multiset(s);
    k :| 0 <= k < |s| && s[k] == t[0];
    WithoutBag(s, k);
    WithoutBag(t, 0);
    assert Without(t, 0) == t[1..];
  }

  // ----- orders -----

  ghost predicate Preorder<T(!new)>(leq: (T, T) -> bool) {
    && (forall x, y :: leq(x, y) || leq(y, x))
    && (forall x, y, z :: leq(x, y) && leq(y, z) ==> leq(x, z))
  }

  ghost predicate Order<T(!new)>(leq: (T, T) -> bool) {
    Preorder(leq) && forall x, y :: leq(x, y) && leq(y, x) ==> x == y
  }

  predicate Sorted<T>(leq: (T, T) -> bool, s: seq<T>) {
    forall i, j :: 0 <= i < j < |s| ==> leq(s[i], s[j])
  }

  ghost predicate SortOf<T>(leq: (T, T) -> bool, sorted: seq<T>, s: seq<T>) {
    Sorted(leq, sorted) && multiset(sorted) == multiset(s)
  }

  // ----- sorting -----

  lemma InsertedIsSorted<T(!new)>(leq: (T, T) -> bool, sorted: seq<T>, k: nat, x: T)
    requires Preorder(leq) && Sorted(leq, sorted) && k <= |sorted|
    requires k > 0 ==> leq(sorted[k - 1], x)
    requires k < |sorted| ==> leq(x, sorted[k])
    ensures Sorted(leq, sorted[..k] + [x] + sorted[k..])
  {
    assert forall j :: 0 <= j < k ==> leq(sorted[j], x);
    assert forall j :: k <= j < |sorted| ==> leq(x, sorted[j]);
  }

  lemma InsertedBag<T>(s: seq<T>, k: nat, x: T)
    requires k <= |s|
    ensures multiset(s[..k] + [x] + s[k..]) == multiset(s) + multiset{x}
  {
    assert s == s[..k] + s[k..];
  }

  method Insert<T(!new)>(leq: (T, T) -> bool, sorted: seq<T>, x: T) returns (r: seq<T>)
    requires Preorder(leq) && Sorted(leq, sorted)
    ensures Sorted(leq, r) && multiset(r) == multiset(sorted) + multiset{x}
  {
    hide Sorted;
    var k := |sorted|;
    while k > 0 && !leq(sorted[k - 1], x)
      invariant 0 <= k <= |sorted|
      invariant k < |sorted| ==> leq(x, sorted[k])
    {
      k := k - 1;
    }
    r := sorted[..k] + [x] + sorted[k..];
    InsertedIsSorted(leq, sorted, k, x);
    InsertedBag(sorted, k, x);
  }

  /** `sort.Slice` and `sort.SliceStable`: callers may use no more than that the result is some sorted arrangement. */
  method Sort<T(!new)>(leq: (T, T) -> bool, s: seq<T>) returns (r: seq<T>)
    requires Preorder(leq)
    ensures SortOf(leq, r, s)
  {
    hide Preorder;
    r := [];
    var i := 0;
    while i < |s|
      invariant 0 <= i <= |s|
      invariant SortOf(leq, r, s[..i])
    {
      assert s[..i + 1] == s[..i] + [s[i]];
      r := Insert(leq, r, s[i]);
      i := i + 1;
    }
    assert s[..i] == s;
  }

  method SortSlice<T(!new)>(leq: (T, T) -> bool, a: array<T>)
    requires Preorder(leq)
    modifies a
    ensures SortOf(leq, a[..], old(a[..]))
  {
    hide Preorder, Sorted;
    var sorted := Sort(leq, a[..]);
    SameBagLength(sorted, a[..]);
    forall k | 0 <= k < a.Length {
      a[k] := sorted[k];
    }
    assert a[..] == sorted;
  }

  // ----- uniqueness -----

  /** Under an order, a bag has only one sorted arrangement. */
  lemma {:induction false} SortIsUnique<T(!new)>(leq: (T, T) -> bool, s: seq<T>, t: seq<T>)
    requires Order(leq) && Sorted(leq, s) && Sorted(leq, t) && multiset(s) == multiset(t)
    ensures s == t
    decreases |s|
  {
    hide Order, Sorted;
    SameBagLength(s, t);
    if |s| > 0 {
      SortedTails(leq, s, t);
      SortIsUnique(leq, s[1..], t[1..]);
      assert s == [s[0]] + s[1..] && t == [t[0]] + t[1..];
    }
  }

  lemma SortedTails<T(!new)>(leq: (T, T) -> bool, s: seq<T>, t: seq<T>)
    requires Order(leq) && Sorted(leq, s) && Sorted(leq, t) && multiset(s) == multiset(t) && |s| > 0
    ensures |t| == |s| && s[0] == t[0]
    ensures Sorted(leq, s[1..]) && Sorted(leq, t[1..]) && multiset(s[1..]) == multiset(t[1..])
  {
    hide Order;
    SortedHeads(leq, s, t);
    SameTails(s, t);
  }

  lemma SameTails<T>(s: seq<T>, t: seq<T>)
    requires multiset(s) == multiset(t) && |s| > 0 && |t| > 0 && s[0] == t[0]
    ensures multiset(s[1..]) == multiset(t[1..])
  {
    TailBag(s);
    TailBag(t);
  }

  lemma TailBag<T>(s: seq<T>)
    requires |s| > 0
    ensures multiset(s[1..]) == multiset(s) - multiset{s[0]}
  {
    assert s == [s[0]] + s[1..];
  }

  lemma SortedHeads<T(!new)>(leq: (T, T) -> bool, s: seq<T>, t: seq<T>)
    requires Order(leq) && Sorted(leq, s) && Sorted(leq, t) && multiset(s) == multiset(t) && |s| > 0
    ensures |t| == |s| && s[0] == t[0]
  {
    var i := HeadIn(t, s);
    var j := HeadIn(s, t);
    assert leq(s[0], s[0]) && leq(t[0], t[0]);
  }

  // ----- the order of strings -----

  predicate Leq(s: string, t: string) {
    if |s| == 0 then true
    else if |t| == 0 then false
    else s[0] < t[0] || (s[0] == t[0] && Leq(s[1..], t[1..]))
  }

  lemma {:induction false} LeqTotal(s: string, t: string)
    ensures Leq(s, t) || Leq(t, s)
    ensures Leq(s, t) && Leq(t, s) ==> s == t
  {
    if |s| > 0 && |t| > 0 && s[0] == t[0] {
      LeqTotal(s[1..], t[1..]);
      assert s == [s[0]] + s[1..] && t == [t[0]] + t[1..];
    }
  }

  lemma {:induction false} LeqTransitive(s: string, t: string, u: string)
    requires Leq(s, t) && Leq(t, u)
    ensures Leq(s, u)
  {
    if |s| > 0 && s[0] == t[0] == u[0] {
      LeqTransitive(s[1..], t[1..], u[1..]);
    }
  }

  lemma LeqIsOrder()
    ensures Order(Leq)
  {
    hide Leq;
    forall s, t ensures (Leq(s, t) || Leq(t, s)) && (Leq(s, t) && Leq(t, s) ==> s == t) {
      LeqTotal(s, t);
    }
    forall s, t, u | Leq(s, t) && Leq(t, u) ensures Leq(s, u) {
      LeqTransitive(s, t, u);
    }
  }

  /** The order is that of a dictionary: a beginning comes before the whole, and otherwise the first difference
      decides. */
  lemma {:induction false} LeqExactly(s: string, t: string)
    ensures Leq(s, t) <==> s <= t || exists k :: Differ(s, t, k) && s[k] < t[k]
  {
    if |s| > 0 && |t| > 0 && s[0] == t[0] {
      LeqExactly(s[1..], t[1..]);
      assert s <= t <==> s[1..] <= t[1..];
      forall k | Differ(s, t, k) ensures k > 0 && Differ(s[1..], t[1..], k - 1) {
        assert s[..k][1..] == s[1..][..k - 1] && t[..k][1..] == t[1..][..k - 1];
      }
      forall k | Differ(s[1..], t[1..], k) ensures Differ(s, t, k + 1) {
        assert s[..k + 1] == [s[0]] + s[1..][..k] && t[..k + 1] == [t[0]] + t[1..][..k];
      }
      if k :| Differ(s, t, k) && s[k] < t[k] {
        assert Differ(s[1..], t[1..], k - 1);
      }
      if k :| Differ(s[1..], t[1..], k) && s[1..][k] < t[1..][k] {
        assert Differ(s, t, k + 1);
      }
    } else if |s| > 0 && |t| > 0 {
      assert Differ(s, t, 0);
      forall k | Differ(s, t, k) ensures k == 0 {
        SameBefore(s, t, k);
      }
    }
  }

  lemma SameBefore(s: string, t: string, k: int)
    requires Differ(s, t, k)
    ensures k > 0 ==> s[0] == t[0]
  {
    if k > 0 {
      assert s[..k][0] == t[..k][0];
    }
  }

  /** The first difference of two texts. */
  predicate Differ(s: string, t: string, k: int) {
    0 <= k < |s| && k < |t| && s[..k] == t[..k] && s[k] != t[k]
  }
}
