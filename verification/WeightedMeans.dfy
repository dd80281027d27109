/** The mean of values, each counted as often as its weight says. */
module WeightedMeans {
  import opened Arithmetic

  /** An error for a zero total weight; a panic, which is checked for later, when the lists do not match. */
  datatype Mean = Mean(value: nat) | ZeroWeight | Mismatch

  function Sum(weights: seq<nat>): nat {
    if |weights| == 0 then 0 else Sum(weights[..|weights| - 1]) + weights[|weights| - 1]
  }

  function Weighted(vals: seq<nat>, weights: seq<nat>): nat
    requires |vals| == |weights|
    decreases |vals|
  {
    var n := |vals| - 1;
    if n < 0 then 0 else Weighted(vals[..n], weights[..n]) + vals[n] * weights[n]
  }

  function MeanOf(vals: seq<nat>, weights: seq<nat>): Mean {
    if Sum(weights) == 0 then ZeroWeight
    else if |vals| != |weights| then Mismatch
    else Mean(Weighted(vals, weights) / Sum(weights))
  }

  method SumUp(weights: seq<nat>) returns (total: nat)
    ensures total == Sum(weights)
  {
    total := 0;
    var i := 0;
    while i < |weights|
      invariant 0 <= i <= |weights|
      invariant total == Sum(weights[..i])
    {
      assert weights[..i + 1][..i] == weights[..i];
      total := total + weights[i];
      i := i + 1;
    }
    assert weights[..i] == weights;
  }

  method WeightedMean(vals: seq<nat>, weights: seq<nat>) returns (r: Mean)
    ensures r == MeanOf(vals, weights)
  {
    var totalWeight := SumUp(weights);
    if totalWeight == 0 {
      return ZeroWeight;
    }
    if |vals| != |weights| {
      return Mismatch;
    }
    var weightedTotal := 0;
    var i := 0;
    while i < |vals|
      invariant 0 <= i <= |vals|
      invariant weightedTotal == Weighted(vals[..i], weights[..i])
    {
      assert vals[..i + 1][..i] == vals[..i] && weights[..i + 1][..i] == weights[..i];
      weightedTotal := weightedTotal + vals[i] * weights[i];
      i := i + 1;
    }
    assert vals[..i] == vals && weights[..i] == weights;
    return Mean(weightedTotal / totalWeight);
  }

  /** The values that have a weight at all lie between lo and hi. */
  predicate Between(vals: seq<nat>, weights: seq<nat>, lo: nat, hi: nat)
    requires |vals| == |weights|
  {
    forall k :: 0 <= k < |vals| && weights[k] > 0 ==> lo <= vals[k] <= hi
  }

  lemma {:induction false} WeightedBetween(vals: seq<nat>, weights: seq<nat>, lo: nat, hi: nat)
    requires |vals| == |weights| && Between(vals, weights, lo, hi)
    ensures lo * Sum(weights) <= Weighted(vals, weights) <= hi * Sum(weights)
    decreases |vals|
  {
    if |vals| > 0 {
      var n := |vals| - 1;
      WeightedBetween(vals[..n], weights[..n], lo, hi);
      OneBetween(vals[n], weights[n], lo, hi);
      Spread(lo, Sum(weights[..n]), weights[n]);
      Spread(hi, Sum(weights[..n]), weights[n]);
    }
  }

  lemma OneBetween(v: nat, w: nat, lo: nat, hi: nat)
    requires w > 0 ==> lo <= v <= hi
    ensures lo * w <= v * w <= hi * w
  {
  }

  lemma Spread(x: nat, a: nat, b: nat)
    ensures x * (a + b) == x * a + x * b
  {
  }

  /** The mean lies between any bounds of the values that have a weight; values of weight zero have no say. */
  lemma MeanBetween(vals: seq<nat>, weights: seq<nat>, lo: nat, hi: nat)
    requires |vals| == |weights| && Sum(weights) > 0 && Between(vals, weights, lo, hi)
    ensures MeanOf(vals, weights).Mean? && lo <= MeanOf(vals, weights).value <= hi
  {
    WeightedBetween(vals, weights, lo, hi);
    QuotientBetween(Weighted(vals, weights), Sum(weights), lo, hi);
  }

  lemma QuotientBetween(x: nat, w: nat, lo: nat, hi: nat)
    requires w > 0 && lo * w <= x <= hi * w
    ensures lo <= x / w <= hi
  {
    var q := x / w;
    Quotient(x, w);
    if q < lo {
      MulAtMost(q + 1, lo, w);
    }
    if q > hi {
      MulAtMost(hi + 1, q, w);
      Step(hi, w);
    }
  }

  lemma Quotient(x: nat, w: nat)
    requires w > 0
    ensures (x / w) * w <= x < (x / w + 1) * w
  {
    assert x == (x / w) * w + x % w;
    Step(x / w, w);
  }

  lemma Step(a: nat, w: nat)
    ensures (a + 1) * w == a * w + w
  {
  }

  /** Only the proportions of the weights matter. */
  lemma MeanScales(vals: seq<nat>, weights: seq<nat>, scaled: seq<nat>, k: nat)
    requires k > 0 && |scaled| == |weights| && forall i :: 0 <= i < |weights| ==> scaled[i] == k * weights[i]
    ensures MeanOf(vals, scaled) == MeanOf(vals, weights)
  {
    SumScales(weights, scaled, k);
    if |vals| == |weights| && Sum(weights) > 0 {
      WeightedScales(vals, weights, scaled, k);
      QuotientScales(Weighted(vals, weights), Sum(weights), k);
    }
  }

  lemma {:induction false} SumScales(weights: seq<nat>, scaled: seq<nat>, k: nat)
    requires |scaled| == |weights| && forall i :: 0 <= i < |weights| ==> scaled[i] == k * weights[i]
    ensures Sum(scaled) == k * Sum(weights)
    decreases |weights|
  {
    var n := |weights| - 1;
    if n >= 0 {
      SumScales(weights[..n], scaled[..n], k);
      Spread(k, Sum(weights[..n]), weights[n]);
    }
  }

  lemma {:induction false} WeightedScales(vals: seq<nat>, weights: seq<nat>, scaled: seq<nat>, k: nat)
    requires |vals| == |scaled| == |weights| && forall i :: 0 <= i < |weights| ==> scaled[i] == k * weights[i]
    ensures Weighted(vals, scaled) == k * Weighted(vals, weights)
    decreases |weights|
  {
    var n := |weights| - 1;
    if n >= 0 {
      WeightedScales(vals[..n], weights[..n], scaled[..n], k);
      Spread(k, Weighted(vals[..n], weights[..n]), vals[n] * weights[n]);
      Regroup(vals[n], k, weights[n]);
    }
  }

  lemma Regroup(v: nat, k: nat, w: nat)
    ensures v * (k * w) == k * (v * w)
  {
  }

  lemma QuotientScales(x: nat, w: nat, k: nat)
    requires w > 0 && k > 0
    ensures k * w > 0 && (k * x) / (k * w) == x / w
  {
    var q := x / w;
    var r := x % w;
    assert x == q * w + r;
    MulAtMost(1, k, w);
    Spread(k, q * w, r);
    Regroup(q, k, w);
    MulAtMost(r + 1, w, k);
    Step(r, k);
    ModUnique(k * x, k * w, q, k * r);
  }

  /** What the outcome is: a zero weight is found first, then lists that do not match; the mean is rounded down. */
  lemma MeanExactly(vals: seq<nat>, weights: seq<nat>, v: nat)
    ensures MeanOf(vals, weights) == ZeroWeight <==> forall k :: 0 <= k < |weights| ==> weights[k] == 0
    ensures MeanOf(vals, weights) == Mismatch
       <==> |vals| != |weights| && exists k :: 0 <= k < |weights| && weights[k] > 0
    ensures |vals| == |weights| && Sum(weights) > 0
        ==> (MeanOf(vals, weights) == Mean(v)
             <==> v * Sum(weights) <= Weighted(vals, weights) < (v + 1) * Sum(weights))
  {
    SumIsZero(weights);
    if |vals| == |weights| && Sum(weights) > 0 {
      RoundedDown(Weighted(vals, weights), Sum(weights), v);
    }
  }

  lemma {:induction false} SumIsZero(weights: seq<nat>)
    ensures Sum(weights) == 0 <==> forall k :: 0 <= k < |weights| ==> weights[k] == 0
    decreases |weights|
  {
    if |weights| > 0 {
      SumIsZero(weights[..|weights| - 1]);
    }
  }

  lemma RoundedDown(x: nat, w: nat, v: nat)
    requires w > 0
    ensures v == x / w <==> v * w <= x < (v + 1) * w
  {
    Step(v, w);
    Quotient(x, w);
    if v * w <= x < (v + 1) * w {
      ModUnique(x, w, v, x - v * w);
    }
  }

  /** (10 * 1 + 20 * 2 + 30 * 3) / (1 + 2 + 3), rounded down. */
  lemma MeanExample()
    ensures MeanOf([10, 20, 30], [1, 2, 3]) == Mean(23)
  {
    var vals: seq<nat>, weights: seq<nat> := [10, 20, 30], [1, 2, 3];
    assert weights[..2] == [1, 2] && weights[..2][..1] == [1] && weights[..2][..1][..0] == [];
    assert vals[..2] == [10, 20] && vals[..2][..1] == [10];
    assert Sum([1]) == 1 && Weighted([10], [1]) == 10;
    assert Sum([1, 2]) == 3 && Weighted([10, 20], [1, 2]) == 50;
  }
}
