/** Comparing two bags of coins by sorting both on the asset's text and comparing position by position. */
module CoinEquality {
  import opened Text
  import opened Assets
  import opened Coins
  import opened Sorting
  import opened ComparisonSorts

  // ----- sorting on the asset's text -----

  function Key(c: Coin): string {
    String(c.asset)
  }

  function Keys(cs: seq<Coin>): (ks: seq<string>)
    ensures |ks| == |cs|
    ensures forall i :: 0 <= i < |cs| ==> ks[i] == Key(cs[i])
  {
    seq(|cs|, i requires 0 <= i < |cs| => Key(cs[i]))
  }

  predicate KeyLeq(a: Coin, b: Coin) {
    Leq(Key(a), Key(b))
  }

  ghost predicate SortOfCoins(sorted: seq<Coin>, cs: seq<Coin>) {
    SortOf(KeyLeq, sorted, cs)
  }

  /** What the sort makes of cs. */
  function Arranged(order: Sorter, cs: seq<Coin>): (s: seq<Coin>)
    requires IsSort(order)
    ensures |s| == |cs|
  {
    Permuted(order(Keys(cs)), cs)
  }

  lemma PermutedIsSort(p: seq<nat>, cs: seq<Coin>)
    requires IsArrangement(p, Keys(cs))
    ensures SortOfCoins(Permuted(p, cs), cs)
  {
    hide Key, Leq;
    ArrangementBag(p, Keys(cs), cs);
    var s := Permuted(p, cs);
    forall i, j | 0 <= i < j < |s| ensures KeyLeq(s[i], s[j]) {
      assert Leq(Keys(cs)[p[i]], Keys(cs)[p[j]]);
    }
  }

  lemma ArrangedIsSort(order: Sorter, cs: seq<Coin>)
    requires IsSort(order)
    ensures SortOfCoins(Arranged(order, cs), cs)
  {
    hide SortOfCoins;
    PermutedIsSort(order(Keys(cs)), cs);
  }

  // ----- the comparison -----

  predicate Pointwise(s: seq<Coin>, t: seq<Coin>) {
    |s| == |t| && forall i :: 0 <= i < |s| ==> Same(s[i], t[i])
  }

  /** The verdict of the comparison, with the given sort. */
  predicate Compares(order: Sorter, cs: seq<Coin>, ds: seq<Coin>)
    requires IsSort(order)
  {
    Pointwise(Arranged(order, cs), Arranged(order, ds))
  }

  /** The loop that compares two sorted lists of the same length. */
  method ComparePointwise(s: seq<Coin>, t: seq<Coin>) returns (b: bool)
    requires |s| == |t|
    ensures b == Pointwise(s, t)
  {
    hide Same;
    var i := 0;
    while i < |s|
      invariant 0 <= i <= |s|
      invariant forall k :: 0 <= k < i ==> Same(s[k], t[k])
    {
      if !Same(s[i], t[i]) {
        return false;
      }
      i := i + 1;
    }
    return true;
  }

  method EqualsEx(order: Sorter, cs: seq<Coin>, cs2: seq<Coin>) returns (b: bool)
    requires IsSort(order)
    ensures b == Compares(order, cs, cs2)
  {
    if |cs| != |cs2| {
      return false;
    }
    var source := Arranged(order, cs);
    var dest := Arranged(order, cs2);
    b := ComparePointwise(source, dest);
  }

  /** `sort.Slice` on a list of coins. */
  method SortCoins(order: Sorter, a: array<Coin>)
    requires IsSort(order)
    modifies a
    ensures a[..] == Arranged(order, old(a[..]))
  {
    hide IsSort;
    var sorted := Arranged(order, a[..]);
    forall k | 0 <= k < a.Length {
      a[k] := sorted[k];
    }
    assert a[..] == sorted;
  }

  /** `Gas.Equals` reaches the same verdict, and leaves both of its arguments sorted. They may be one and the same list,
      which always equals itself, and is then sorted twice. */
  method GasEquals(order: Sorter, g: array<Coin>, gas2: array<Coin>) returns (b: bool)
    requires IsSort(order)
    modifies g, gas2
    ensures b == Compares(order, old(g[..]), old(gas2[..]))
    ensures g == gas2 ==> b
    ensures if g.Length != gas2.Length then g[..] == old(g[..]) && gas2[..] == old(gas2[..])
            else if g == gas2 then g[..] == Arranged(order, Arranged(order, old(g[..])))
            else g[..] == Arranged(order, old(g[..])) && gas2[..] == Arranged(order, old(gas2[..]))
  {
    hide IsSort, Arranged, Pointwise;
    ghost var before, before2 := g[..], gas2[..];
    if g.Length != gas2.Length {
      UnequalLengths(Arranged(order, before), Arranged(order, before2));
      return false;
    }
    SortCoins(order, g);
    SortCoins(order, gas2);
    b := ComparePointwise(g[..], gas2[..]);
    if g == gas2 {
      PointwiseClass(g[..], g[..], g[..]);
      PointwiseClass(Arranged(order, before), Arranged(order, before), Arranged(order, before));
    }
  }

  lemma UnequalLengths(s: seq<Coin>, t: seq<Coin>)
    requires |s| != |t|
    ensures !Pointwise(s, t)
  {
  }

  lemma PointwiseClass(s: seq<Coin>, t: seq<Coin>, u: seq<Coin>)
    ensures Pointwise(s, s)
    ensures Pointwise(s, t) ==> Pointwise(t, s)
    ensures Pointwise(s, t) && Pointwise(t, u) ==> Pointwise(s, u)
  {
    hide Same;
    forall c, d, e ensures Same(c, c) && (Same(c, d) ==> Same(d, c)) && (Same(c, d) && Same(d, e) ==> Same(c, e)) {
      SelfSame(c);
      if Same(c, d) {
        SameClass(c, d, e);
      }
    }
  }

  lemma SelfSame(a: Coin)
    ensures Same(a, a)
  {
  }

  /** With one and the same sort, the comparison is an equivalence. */
  lemma ComparesIsEquivalence(order: Sorter, cs: seq<Coin>, ds: seq<Coin>, es: seq<Coin>)
    requires IsSort(order)
    ensures Compares(order, cs, cs)
    ensures Compares(order, cs, ds) ==> Compares(order, ds, cs)
    ensures Compares(order, cs, ds) && Compares(order, ds, es) ==> Compares(order, cs, es)
  {
    hide Pointwise, Arranged;
    PointwiseClass(Arranged(order, cs), Arranged(order, ds), Arranged(order, es));
  }

  // ----- what a verdict says -----

  /** The two lists can be paired one to one so that partners are equal coins. */
  ghost predicate Paired(cs: seq<Coin>, ds: seq<Coin>) {
    exists p :: multiset(p) == multiset(ds) && Pointwise(cs, p)
  }

  /** Coins of the same text are equal coins; in particular, there are no two coins of the same text. */
  predicate KeysDecide(cs: seq<Coin>) {
    forall i, j :: 0 <= i < |cs| && 0 <= j < |cs| && Key(cs[i]) == Key(cs[j]) ==> Same(cs[i], cs[j])
  }

  lemma SameClass(a: Coin, b: Coin, c: Coin)
    requires Same(a, b)
    ensures Same(b, a)
    ensures Same(a, c) <==> Same(b, c)
  {
  }

  /** Coins without a Kelvin sign in their names, which would equal a K without sorting like it. */
  predicate IsPlain(c: Coin) {
    Lacks(c.asset.chain, KELVIN_SIGN) && Lacks(c.asset.symbol, KELVIN_SIGN)
  }

  predicate AllPlain(cs: seq<Coin>) {
    forall k :: 0 <= k < |cs| ==> IsPlain(cs[k])
  }

  lemma SameKey(a: Coin, b: Coin)
    requires Same(a, b) && IsPlain(a) && IsPlain(b)
    ensures Key(a) == Key(b)
  {
    hide Upper, Fold;
    SameNameUpper(a.asset.chain, b.asset.chain);
    SameNameUpper(a.asset.symbol, b.asset.symbol);
  }

  /** Whatever is matched by one arrangement of a bag is matched by every arrangement of it. */
  lemma {:induction false} Rearranged(s: seq<Coin>, t: seq<Coin>, cs: seq<Coin>) returns (p: seq<Coin>)
    requires Pointwise(s, t) && multiset(s) == multiset(cs)
    ensures multiset(p) == multiset(t) && Pointwise(cs, p)
    decreases |cs|
  {
    hide Same;
    if |cs| == 0 {
      assert |multiset(s)| == |multiset(cs)|;
      p := [];
    } else {
      var k := HeadIn(s, cs);
      var rest := Rearranged(Without(s, k), Without(t, k), cs[1..]);
      p := [t[k]] + rest;
      WithoutBag(t, k);
    }
  }

  /** Soundness: a true verdict always comes from a one-to-one pairing of equal coins. */
  lemma TrueMeansPaired(order: Sorter, cs: seq<Coin>, ds: seq<Coin>)
    requires IsSort(order) && Compares(order, cs, ds)
    ensures Paired(cs, ds)
  {
    hide Sorted, Pointwise, Arranged;
    ArrangedIsSort(order, cs);
    ArrangedIsSort(order, ds);
    var p := Rearranged(Arranged(order, cs), Arranged(order, ds), cs);
  }

  // ----- which verdicts are possible -----

  /** How many of the coins sort before the key. */
  function Below(cs: seq<Coin>, key: string): nat {
    if |cs| == 0 then 0 else (if Leq(key, Key(cs[0])) then 0 else 1) + Below(cs[1..], key)
  }

  /** How many of the coins sort before the key or have it. */
  function UpTo(cs: seq<Coin>, key: string): nat {
    if |cs| == 0 then 0 else (if Leq(Key(cs[0]), key) then 1 else 0) + UpTo(cs[1..], key)
  }

  /** The places that the coin's key has in a sorted arrangement. */
  predicate Reaches(cs: seq<Coin>, c: Coin, i: nat) {
    c in cs && Below(cs, Key(c)) <= i < UpTo(cs, Key(c))
  }

  lemma {:induction false} BelowWithout(cs: seq<Coin>, k: nat, key: string)
    requires k < |cs|
    ensures Below(cs, key) == Below(Without(cs, k), key) + if Leq(key, Key(cs[k])) then 0 else 1
    ensures UpTo(cs, key) == UpTo(Without(cs, k), key) + if Leq(Key(cs[k]), key) then 1 else 0
  {
    hide Key, Leq;
    if k == 0 {
      assert Without(cs, 0) == cs[1..];
    } else {
      BelowWithout(cs[1..], k - 1, key);
      assert Without(cs, k)[1..] == Without(cs[1..], k - 1);
    }
  }

  lemma {:induction false} CountsOfBag(s: seq<Coin>, cs: seq<Coin>, key: string)
    requires multiset(s) == multiset(cs)
    ensures |s| == |cs| && Below(s, key) == Below(cs, key) && UpTo(s, key) == UpTo(cs, key)
    decreases |cs|
  {
    hide Key, Leq;
    SameBagLength(s, cs);
    if |cs| > 0 {
      var k := HeadIn(s, cs);
      CountsOfBag(Without(s, k), cs[1..], key);
      BelowWithout(s, k, key);
    }
  }

  /** In a sorted list, a count tells which coins it counts. */
  lemma {:induction false} CountsAt(s: seq<Coin>, i: nat, key: string)
    requires Sorted(KeyLeq, s) && i < |s|
    ensures Below(s, key) <= i <==> Leq(key, Key(s[i]))
    ensures i < UpTo(s, key) <==> Leq(Key(s[i]), key)
  {
    hide Key, Leq;
    LeqIsOrder();
    SortedTail(s);
    if i > 0 {
      CountsAt(s[1..], i - 1, key);
      assert KeyLeq(s[0], s[i]);
    } else {
      NoneCounted(s[1..], key, Key(s[0]));
    }
  }

  lemma SortedTail(s: seq<Coin>)
    requires Sorted(KeyLeq, s) && |s| > 0
    ensures Sorted(KeyLeq, s[1..]) && forall k :: 0 <= k < |s| - 1 ==> Leq(Key(s[0]), Key(s[1..][k]))
  {
    hide Key, Leq;
    forall k | 0 <= k < |s| - 1 ensures Leq(Key(s[0]), Key(s[1..][k])) {
      assert KeyLeq(s[0], s[k + 1]);
    }
  }

  lemma {:induction false} NoneCounted(s: seq<Coin>, key: string, least: string)
    requires forall k :: 0 <= k < |s| ==> Leq(least, Key(s[k]))
    ensures Leq(key, least) ==> Below(s, key) == 0
    ensures !Leq(least, key) ==> UpTo(s, key) == 0
  {
    hide Key, Leq;
    LeqIsOrder();
    if |s| > 0 {
      NoneCounted(s[1..], key, least);
    }
  }

  lemma SortReaches(s: seq<Coin>, cs: seq<Coin>, i: nat)
    requires SortOfCoins(s, cs) && i < |s|
    ensures Reaches(cs, s[i], i)
  {
    hide Key, Leq;
    LeqIsOrder();
    CountsAt(s, i, Key(s[i]));
    CountsOfBag(s, cs, Key(s[i]));
    assert s[i] in multiset(s);
  }

  /** A coin can be at every place that its key has. */
  lemma PlacedAt(cs: seq<Coin>, c: Coin, i: nat) returns (p: seq<nat>)
    requires Reaches(cs, c, i) && i < |cs|
    ensures IsArrangement(p, Keys(cs)) && Permuted(p, cs)[i] == c
  {
    hide Key, Leq, Stable, IsArrangement;
    var ks := Keys(cs);
    var j :| 0 <= j < |cs| && cs[j] == c;
    p := Stable(ks);
    StableArranges(ks);
    ArrangementRange(p, ks);
    PlaceHasKey(p, cs, c, i);
    var k := HasIndex(p, ks, j);
    if k < i {
      SwapArrangement(p, ks, k, i);
      p := Swapped(p, k, i);
    } else if i < k {
      SwapArrangement(p, ks, i, k);
      p := Swapped(p, i, k);
    }
    ArrangementRange(p, ks);
  }

  lemma ArrangementRange(p: seq<nat>, ks: seq<string>)
    requires IsArrangement(p, ks)
    ensures |p| == |ks| && InRange(p, |ks|)
  {
  }

  lemma PlaceHasKey(p: seq<nat>, cs: seq<Coin>, c: Coin, i: nat)
    requires Reaches(cs, c, i) && i < |cs| && IsArrangement(p, Keys(cs))
    ensures Keys(cs)[p[i]] == Key(c)
  {
    hide Key, Leq;
    var s := Permuted(p, cs);
    PermutedIsSort(p, cs);
    LeqIsOrder();
    CountsOfBag(s, cs, Key(c));
    CountsAt(s, i, Key(c));
  }

  /** Two coins that are not equal, and can come to stand at the same place. */
  ghost predicate CanClash(cs: seq<Coin>, ds: seq<Coin>) {
    exists c, d, i: nat :: Reaches(cs, c, i) && Reaches(ds, d, i) && i < |cs| && !Same(c, d)
  }

  /** Some sort makes the verdict false. */
  ghost predicate MayBeFalse(cs: seq<Coin>, ds: seq<Coin>) {
    exists order: Sorter :: IsSort(order) && !Compares(order, cs, ds)
  }

  /** For any two lists: whether the sort matters, and how. Lists that compare alike are rearranged alike, so their
      coins meet as they stand. Otherwise the verdict can be false exactly when two unequal coins can come to stand at
      the same place. */
  lemma FalseExactly(cs: seq<Coin>, ds: seq<Coin>)
    ensures MayBeFalse(cs, ds)
       <==> || |cs| != |ds|
            || if SamePattern(Keys(cs), Keys(ds)) then !Pointwise(cs, ds) else CanClash(cs, ds)
  {
    hide SamePattern, Pointwise, CanClash, IsSort;
    if |cs| != |ds| {
      LengthsDiffer(cs, ds);
    } else if SamePattern(Keys(cs), Keys(ds)) {
      AlikeSomeSort(cs, ds);
      forall order: Sorter | IsSort(order) ensures Compares(order, cs, ds) <==> Pointwise(cs, ds) {
        AlikeCompare(order, cs, ds);
      }
    } else {
      forall order: Sorter | IsSort(order) && !Compares(order, cs, ds) ensures CanClash(cs, ds) {
        FalseClashes(order, cs, ds);
      }
      if CanClash(cs, ds) {
        ClashShows(cs, ds);
      }
    }
  }

  lemma LengthsDiffer(cs: seq<Coin>, ds: seq<Coin>)
    requires |cs| != |ds|
    ensures MayBeFalse(cs, ds)
  {
    hide IsSort, Stable;
    var ks := Keys(cs);
    StableArranges(ks);
    var order := SorterWith(ks, Stable(ks));
    assert !Compares(order, cs, ds);
  }

  /** Lists that compare alike are compared as they stand. */
  lemma AlikeCompare(order: Sorter, cs: seq<Coin>, ds: seq<Coin>)
    requires IsSort(order) && SamePattern(Keys(cs), Keys(ds))
    ensures Compares(order, cs, ds) <==> Pointwise(cs, ds)
  {
    hide Same, SamePattern, SortedBy;
    var p := order(Keys(cs));
    assert p == order(Keys(ds));
    var s, t := Permuted(p, cs), Permuted(p, ds);
    assert |cs| == |ds|;
    if Pointwise(s, t) {
      forall j | 0 <= j < |cs| ensures Same(cs[j], ds[j]) {
        var i := HasIndex(p, Keys(cs), j);
        assert Same(s[i], t[i]);
      }
    }
  }

  lemma AlikeSomeSort(cs: seq<Coin>, ds: seq<Coin>)
    requires SamePattern(Keys(cs), Keys(ds))
    ensures !Pointwise(cs, ds) ==> MayBeFalse(cs, ds)
  {
    hide IsSort, Stable, SamePattern, Pointwise;
    var ks := Keys(cs);
    StableArranges(ks);
    var order := SorterWith(ks, Stable(ks));
    AlikeCompare(order, cs, ds);
  }

  lemma FalseClashes(order: Sorter, cs: seq<Coin>, ds: seq<Coin>)
    requires IsSort(order) && |cs| == |ds| && !Compares(order, cs, ds)
    ensures CanClash(cs, ds)
  {
    hide Same, Reaches, Arranged, SortOfCoins, IsSort;
    var s, t := Arranged(order, cs), Arranged(order, ds);
    ArrangedIsSort(order, cs);
    ArrangedIsSort(order, ds);
    var i: nat :| i < |s| && !Same(s[i], t[i]);
    SortReaches(s, cs, i);
    SortReaches(t, ds, i);
  }

  lemma ClashShows(cs: seq<Coin>, ds: seq<Coin>)
    requires |cs| == |ds| && CanClash(cs, ds) && !SamePattern(Keys(cs), Keys(ds))
    ensures MayBeFalse(cs, ds)
  {
    hide Same, Reaches, IsSort, SamePattern, IsArrangement;
    var c, d, i: nat :| Reaches(cs, c, i) && Reaches(ds, d, i) && i < |cs| && !Same(c, d);
    var p := PlacedAt(cs, c, i);
    var q := PlacedAt(ds, d, i);
    TwoWayIsSort(Keys(cs), p, Keys(ds), q);
    var order := TwoWay(Keys(cs), p, Keys(ds), q);
    assert Arranged(order, cs)[i] == c && Arranged(order, ds)[i] == d;
  }

  // ----- sorted lists of the same keys -----

  lemma {:induction false} KeysOfBag(cs: seq<Coin>, ds: seq<Coin>)
    requires multiset(cs) == multiset(ds)
    ensures multiset(Keys(cs)) == multiset(Keys(ds))
    decreases |cs|
  {
    hide Key;
    if |cs| == 0 {
      assert |multiset(cs)| == |multiset(ds)|;
      assert Keys(cs) == [] && Keys(ds) == [];
    } else {
      var k := HeadIn(ds, cs);
      KeysOfBag(cs[1..], Without(ds, k));
      assert Keys(Without(ds, k)) == Without(Keys(ds), k);
      assert Keys(cs[1..]) == Without(Keys(cs), 0);
      WithoutBag(Keys(cs), 0);
      WithoutBag(Keys(ds), k);
    }
  }

  /** The sorted arrangements of two paired bags have the same keys position by position. */
  lemma PairedKeys(cs: seq<Coin>, ds: seq<Coin>, s: seq<Coin>, t: seq<Coin>)
    requires AllPlain(cs) && AllPlain(ds)
    requires Paired(cs, ds) && SortOfCoins(s, cs) && SortOfCoins(t, ds)
    ensures Keys(s) == Keys(t)
  {
    hide Key, Same, Leq, IsPlain;
    var p :| multiset(p) == multiset(ds) && Pointwise(cs, p);
    forall i | 0 <= i < |cs| ensures Keys(cs)[i] == Keys(p)[i] {
      PlainMember(p[i], ds);
      SameKey(cs[i], p[i]);
    }
    assert Keys(cs) == Keys(p);
    KeysOfBag(s, cs);
    KeysOfBag(p, ds);
    KeysOfBag(t, ds);
    LeqIsOrder();
    SortIsUnique(Leq, Keys(s), Keys(t));
  }

  /** When the keys decide, two coins of paired bags with the same key are equal. */
  lemma PartnerByKey(cs: seq<Coin>, ds: seq<Coin>, c: Coin, d: Coin)
    requires AllPlain(cs) && AllPlain(ds) && Paired(cs, ds) && KeysDecide(cs)
    requires c in cs && d in multiset(ds) && Key(c) == Key(d)
    ensures Same(c, d)
  {
    hide Key, Same;
    var p :| multiset(p) == multiset(ds) && Pointwise(cs, p);
    assert d in multiset(p);
    var k :| 0 <= k < |p| && p[k] == d;
    var i :| 0 <= i < |cs| && cs[i] == c;
    PlainMember(d, ds);
    SameKey(cs[k], d);
    SameClass(cs[i], cs[k], d);
  }

  lemma DecidedVerdict(order: Sorter, cs: seq<Coin>, ds: seq<Coin>)
    requires IsSort(order) && AllPlain(cs) && AllPlain(ds) && Paired(cs, ds) && KeysDecide(cs)
    ensures Compares(order, cs, ds)
  {
    hide Key, Same, Sorted, Arranged, AllPlain, KeysDecide, Paired;
    var s, t := Arranged(order, cs), Arranged(order, ds);
    ArrangedIsSort(order, cs);
    ArrangedIsSort(order, ds);
    PairedKeys(cs, ds, s, t);
    assert |s| == |Keys(s)| == |Keys(t)| == |t|;
    forall i | 0 <= i < |s| ensures Same(s[i], t[i]) {
      assert s[i] in multiset(s) && t[i] in multiset(t);
      assert Keys(s)[i] == Keys(t)[i];
      PartnerByKey(cs, ds, s[i], t[i]);
    }
  }

  lemma PlainMember(c: Coin, cs: seq<Coin>)
    requires AllPlain(cs) && c in multiset(cs)
    ensures IsPlain(c)
  {
    hide IsPlain;
    assert c in cs;
  }

  /** Two coins of one key that are not equal to each other cannot both equal the coin that stands where they can. */
  lemma UndecidedClash(cs: seq<Coin>, ds: seq<Coin>, a: Coin, b: Coin)
    requires |cs| == |ds| && a in cs && b in cs && Key(a) == Key(b) && !Same(a, b)
    ensures CanClash(cs, ds)
  {
    hide Key, Leq, Same, Stable, SortOfCoins, IsArrangement;
    var p, q := Stable(Keys(cs)), Stable(Keys(ds));
    StableArranges(Keys(cs));
    StableArranges(Keys(ds));
    var j: nat :| j < |cs| && cs[j] == a;
    var i := HasIndex(p, Keys(cs), j);
    ArrangementRange(p, Keys(cs));
    ArrangementRange(q, Keys(ds));
    PermutedIsSort(p, cs);
    PermutedIsSort(q, ds);
    SortReaches(Permuted(p, cs), cs, i);
    SortReaches(Permuted(q, ds), ds, i);
    var d := Permuted(q, ds)[i];
    assert Reaches(cs, b, i);
    if Same(a, d) {
      SameClass(a, d, b);
      if Same(b, d) {
        SameClass(b, d, a);
      }
    }
  }

  /** Completeness for plain coins: on two lists that can be paired, every sort makes the verdict true if and only if
      the key decides between the coins, or the lists are equal as they stand. */
  lemma AlwaysTrueExactly(cs: seq<Coin>, ds: seq<Coin>)
    requires AllPlain(cs) && AllPlain(ds) && Paired(cs, ds)
    ensures !MayBeFalse(cs, ds) <==> KeysDecide(cs) || Pointwise(cs, ds)
  {
    hide Key, Same, AllPlain, CanClash, Paired, SamePattern, Compares, IsSort;
    PairedLength(cs, ds);
    FalseExactly(cs, ds);
    if KeysDecide(cs) {
      forall order: Sorter | IsSort(order) ensures Compares(order, cs, ds) {
        DecidedVerdict(order, cs, ds);
      }
    } else {
      var i, j :| 0 <= i < |cs| && 0 <= j < |cs| && Key(cs[i]) == Key(cs[j]) && !Same(cs[i], cs[j]);
      UndecidedClash(cs, ds, cs[i], cs[j]);
      if Pointwise(cs, ds) {
        PlainPattern(cs, ds);
      }
    }
  }

  lemma PlainPattern(cs: seq<Coin>, ds: seq<Coin>)
    requires AllPlain(cs) && AllPlain(ds) && Pointwise(cs, ds)
    ensures SamePattern(Keys(cs), Keys(ds))
  {
    hide Key, Same, IsPlain, Leq;
    forall i | 0 <= i < |cs| ensures Keys(cs)[i] == Keys(ds)[i] {
      SameKey(cs[i], ds[i]);
    }
  }

  lemma PairedLength(cs: seq<Coin>, ds: seq<Coin>)
    requires Paired(cs, ds)
    ensures |cs| == |ds|
  {
    var p :| multiset(p) == multiset(ds) && Pointwise(cs, p);
    assert |multiset(p)| == |multiset(ds)|;
  }

  lemma {:induction false} LeqPrefix(p: string, s: string, t: string)
    ensures Leq(p + s, p + t) == Leq(s, t)
  {
    if |p| == 0 {
      assert p + s == s && p + t == t;
    } else {
      assert (p + s)[1..] == p[1..] + s && (p + t)[1..] == p[1..] + t;
      LeqPrefix(p[1..], s, t);
    }
  }

  function Letter(c: char): Coin {
    Coin(Native1([c]), 1, 0)
  }

  lemma LetterKey(c: char)
    requires UpperChar(c) == c
    ensures Key(Letter(c)) == "SWITCHLY." + [c]
  {
    hide Fold;
    assert Upper(SWITCHLY_CHAIN) == SWITCHLY_CHAIN && Upper([c]) == [c];
  }

  lemma LetterOrder(c: char, d: char)
    requires UpperChar(c) == c && UpperChar(d) == d
    ensures KeyLeq(Letter(c), Letter(d)) == (c <= d)
    ensures Key(Letter(c)) == Key(Letter(d)) <==> c == d
  {
    hide Letter, Key, Leq;
    LetterKey(c);
    LetterKey(d);
    var p := "SWITCHLY.";
    assert (p + [c])[|p|] == c && (p + [d])[|p|] == d;
    LeqPrefix(p, [c], [d]);
    OneLetterLeq(c, d);
  }

  lemma OneLetterLeq(c: char, d: char)
    ensures Leq([c], [d]) == (c <= d)
  {
  }

  lemma LetterSame(c: char, d: char)
    ensures Same(Letter(c), Letter(d)) <==> FoldChar(UpperChar(c)) == FoldChar(UpperChar(d))
  {
    assert Upper([c]) == [UpperChar(c)] && Upper([d]) == [UpperChar(d)];
    assert Fold(Upper([c])) == [FoldChar(UpperChar(c))] && Fold(Upper([d])) == [FoldChar(UpperChar(d))];
  }

  lemma TwoCoins(s: seq<Coin>, a: Coin, b: Coin)
    requires (SortOfCoins(s, [a, b]) || SortOfCoins(s, [b, a])) && !KeyLeq(b, a)
    ensures s == [a, b]
  {
    hide KeyLeq;
    assert multiset([a, b]) == multiset{a, b} == multiset([b, a]);
    assert |s| == |multiset(s)| == 2;
    assert s == [s[0], s[1]];
    assert multiset(s) == multiset{s[0], s[1]};
    assert s[0] in multiset{a, b} && s[1] in multiset{a, b} && a in multiset(s) && b in multiset(s);
  }

  /** Plain names are needed: one L and one K, the K on one side written as a Kelvin sign, can be paired but always
      compare unequal, because the Kelvin sign sorts behind the L. */
  lemma KelvinSignCompares(order: Sorter)
    requires IsSort(order)
    ensures var cs, ds := [Letter('L'), Letter(KELVIN_SIGN)], [Letter('L'), Letter('K')];
            Paired(cs, ds) && KeysDecide(cs) && !Compares(order, cs, ds)
  {
    hide IsSort, Arranged, SortOfCoins, KeyLeq, Key, Same, Letter;
    var l, k, kelvin := Letter('L'), Letter('K'), Letter(KELVIN_SIGN);
    var cs, ds := [l, kelvin], [l, k];
    LetterOrder(KELVIN_SIGN, 'L');
    LetterOrder('L', 'K');
    LetterSame('L', 'L');
    LetterSame(KELVIN_SIGN, KELVIN_SIGN);
    LetterSame(KELVIN_SIGN, 'K');
    LetterSame('L', 'K');
    assert Pointwise(cs, ds);
    ArrangedIsSort(order, cs);
    ArrangedIsSort(order, ds);
    TwoCoins(Arranged(order, cs), l, kelvin);
    TwoCoins(Arranged(order, ds), k, l);
    assert !Same(l, k);
  }

  /** One asset listed twice is enough: with two amounts, the two orders always compare unequal. */
  lemma TwoAmountsCompare(order: Sorter, a: Asset, m: nat, n: nat)
    requires IsSort(order) && m != n
    ensures !Compares(order, [Coin(a, m, 0), Coin(a, n, 0)], [Coin(a, n, 0), Coin(a, m, 0)])
  {
    hide IsSort, Assets.Equals, Key;
    var cs, ds := [Coin(a, m, 0), Coin(a, n, 0)], [Coin(a, n, 0), Coin(a, m, 0)];
    assert Key(cs[0]) == Key(cs[1]) == Key(ds[0]) == Key(ds[1]) by {
      OneAssetOneKey(cs[0], cs[1]);
    }
    assert Keys(cs) == Keys(ds);
    SelfPattern(Keys(cs));
    AlikeCompare(order, cs, ds);
    assert cs[0].amount != ds[0].amount;
  }

  lemma OneAssetOneKey(c: Coin, d: Coin)
    requires c.asset == d.asset
    ensures Key(c) == Key(d)
  {
  }

  predicate DistinctKeys(cs: seq<Coin>) {
    forall i, j :: 0 <= i < j < |cs| ==> Key(cs[i]) != Key(cs[j])
  }

  lemma OneOfKey(cs: seq<Coin>, c: Coin, d: Coin)
    requires DistinctKeys(cs) && c in cs && d in cs && Key(c) == Key(d)
    ensures c == d
  {
    hide Key;
  }

  lemma KeysSorted(s: seq<Coin>)
    requires Sorted(KeyLeq, s)
    ensures Sorted(Leq, Keys(s))
  {
    hide Key, Leq;
  }

  /** On lists without two coins of the same text, every sort makes one list of all reorderings, so these compare
      equal. */
  lemma ReorderingIsEqual(order: Sorter, cs: seq<Coin>, ds: seq<Coin>)
    requires IsSort(order) && multiset(cs) == multiset(ds) && DistinctKeys(cs)
    ensures Arranged(order, cs) == Arranged(order, ds) && Compares(order, cs, ds)
  {
    hide Key, Leq, DistinctKeys, Sorted, Arranged, IsSort, Same;
    var s, t := Arranged(order, cs), Arranged(order, ds);
    SameBagLength(cs, ds);
    ArrangedIsSort(order, cs);
    ArrangedIsSort(order, ds);
    KeysOfBag(s, t);
    LeqIsOrder();
    KeysSorted(s);
    KeysSorted(t);
    SortIsUnique(Leq, Keys(s), Keys(t));
    forall i | 0 <= i < |s| ensures s[i] == t[i] {
      assert Keys(s)[i] == Keys(t)[i];
      assert s[i] in multiset(s) && t[i] in multiset(t);
      assert s[i] in multiset(cs) && t[i] in multiset(cs);
      OneOfKey(cs, s[i], t[i]);
    }
    assert s == t;
    ComparesIsEquivalence(order, cs, cs, cs);
  }

  // ----- what is compared -----

  /** Assets and amounts, without decimals. */
  function Amounts(cs: seq<Coin>): (ps: seq<(Asset, nat)>)
    ensures |ps| == |cs|
    ensures forall i :: 0 <= i < |cs| ==> ps[i] == (cs[i].asset, cs[i].amount)
  {
    seq(|cs|, i requires 0 <= i < |cs| => (cs[i].asset, cs[i].amount))
  }

  lemma AmountsWithout(cs: seq<Coin>, k: nat)
    requires k < |cs|
    ensures Amounts(Without(cs, k)) == Without(Amounts(cs), k)
  {
  }

  lemma {:induction false} AmountsOfBag(cs: seq<Coin>, ds: seq<Coin>)
    requires multiset(cs) == multiset(ds)
    ensures multiset(Amounts(cs)) == multiset(Amounts(ds))
    decreases |cs|
  {
    hide Amounts;
    SameBagLength(cs, ds);
    if |cs| > 0 {
      var k := HeadIn(ds, cs);
      assert Without(cs, 0) == cs[1..];
      AmountsOfBag(cs[1..], Without(ds, k));
      AmountsWithout(cs, 0);
      AmountsWithout(ds, k);
      WithoutBag(Amounts(cs), 0);
      WithoutBag(Amounts(ds), k);
    } else {
      assert Amounts(cs) == Amounts(ds);
    }
  }

  lemma AmountsCons(c: Coin, cs: seq<Coin>)
    ensures Amounts([c] + cs) == [(c.asset, c.amount)] + Amounts(cs)
  {
  }

  lemma ConsMatch(cs: seq<Coin>, ds: seq<Coin>, k: nat, rest: seq<Coin>)
    requires |cs| > 0 && k < |ds| && Amounts(ds)[k] == Amounts(cs)[0]
    requires multiset(rest) == multiset(Without(ds, k)) && Amounts(rest) == Amounts(cs[1..])
    ensures multiset([ds[k]] + rest) == multiset(ds) && Amounts([ds[k]] + rest) == Amounts(cs)
  {
    hide Amounts;
    WithoutBag(ds, k);
    AmountsCons(ds[k], rest);
    AmountsCons(cs[0], cs[1..]);
    assert cs == [cs[0]] + cs[1..];
  }

  /** A list can be put into any order that its assets and amounts have. */
  lemma {:induction false} AmountsMatch(cs: seq<Coin>, ds: seq<Coin>) returns (p: seq<Coin>)
    requires multiset(Amounts(cs)) == multiset(Amounts(ds))
    ensures multiset(p) == multiset(ds) && Amounts(p) == Amounts(cs)
    decreases |cs|
  {
    hide Amounts;
    SameBagLength(Amounts(cs), Amounts(ds));
    if |cs| == 0 {
      p := [];
      assert ds == [] && Amounts(p) == Amounts(cs);
    } else {
      var k := HeadIn(Amounts(ds), Amounts(cs));
      AmountsWithout(ds, k);
      AmountsWithout(cs, 0);
      assert Without(cs, 0) == cs[1..] && Without(Amounts(cs), 0) == Amounts(cs)[1..];
      var rest := AmountsMatch(cs[1..], Without(ds, k));
      ConsMatch(cs, ds, k, rest);
      p := [ds[k]] + rest;
    }
  }

  lemma SameAmounts(cs: seq<Coin>, ds: seq<Coin>)
    requires AllParsed(cs) && AllParsed(ds)
    ensures Pointwise(cs, ds) <==> Amounts(cs) == Amounts(ds)
  {
    hide Same, IsParsed;
    forall i | 0 <= i < |cs| && i < |ds| ensures Same(cs[i], ds[i]) <==> Amounts(cs)[i] == Amounts(ds)[i] {
      SameOnParsed(cs[i], ds[i]);
    }
  }

  lemma ParsedBag(p: seq<Coin>, ds: seq<Coin>)
    requires AllParsed(ds) && multiset(p) == multiset(ds)
    ensures AllParsed(p)
  {
    hide IsParsed;
    forall k | 0 <= k < |p| ensures IsParsed(p[k].asset) {
      assert p[k] in multiset(p);
      assert p[k] in ds;
    }
  }

  lemma ParsedIsPlain(cs: seq<Coin>)
    requires AllParsed(cs)
    ensures AllPlain(cs)
  {
    forall k | 0 <= k < |cs| ensures IsPlain(cs[k]) {
      ParsedNames(cs[k].asset);
    }
  }

  lemma ParsedNames(a: Asset)
    requires IsParsed(a)
    ensures Lacks(a.chain, KELVIN_SIGN) && Lacks(a.symbol, KELVIN_SIGN)
  {
    ValidChainFacts(a.chain);
    SymbolFacts(a.symbol);
  }

  lemma DistinctDecide(cs: seq<Coin>)
    requires DistinctKeys(cs)
    ensures KeysDecide(cs)
  {
    hide Key;
    forall i, j | 0 <= i < |cs| && 0 <= j < |cs| && Key(cs[i]) == Key(cs[j]) ensures Same(cs[i], cs[j]) {
      SelfSame(cs[i]);
    }
  }

  predicate DistinctAssets(cs: seq<Coin>) {
    forall i, j :: 0 <= i < j < |cs| ==> cs[i].asset != cs[j].asset
  }

  lemma DistinctTexts(cs: seq<Coin>)
    requires AllParsed(cs) && DistinctAssets(cs)
    ensures DistinctKeys(cs)
  {
    hide IsParsed, String;
    forall i, j | 0 <= i < j < |cs| ensures Key(cs[i]) != Key(cs[j]) {
      StringInjective(cs[i].asset, cs[j].asset);
    }
  }

  /** For coins of parsed assets, none listed twice, the verdict is exactly that both lists hold the same amounts of the
      same assets, in any order. */
  lemma ComparesExactly(order: Sorter, cs: seq<Coin>, ds: seq<Coin>)
    requires IsSort(order) && AllParsed(cs) && AllParsed(ds) && DistinctAssets(cs)
    ensures Compares(order, cs, ds) <==> multiset(Amounts(cs)) == multiset(Amounts(ds))
  {
    hide IsSort, Compares, AllParsed, Pointwise, KeysDecide, DistinctKeys, DistinctAssets, AllPlain;
    DistinctTexts(cs);
    if Compares(order, cs, ds) {
      TrueMeansPaired(order, cs, ds);
      var p :| multiset(p) == multiset(ds) && Pointwise(cs, p);
      ParsedBag(p, ds);
      SameAmounts(cs, p);
      AmountsOfBag(p, ds);
    }
    if multiset(Amounts(cs)) == multiset(Amounts(ds)) {
      var p := AmountsMatch(cs, ds);
      ParsedBag(p, ds);
      SameAmounts(cs, p);
      ParsedIsPlain(cs);
      ParsedIsPlain(ds);
      DistinctDecide(cs);
      DecidedVerdict(order, cs, ds);
    }
  }
}
