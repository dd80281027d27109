/** Splitting an allocation in proportion, by way of fixed-point decimals. A decimal is its mantissa, the number of
    units of 1 / precision; the precision p of the decimals is 10^18. */
module Shares {
  import opened Arithmetic

  // ----- decimals -----

  /** Division by the precision, rounding to the nearest and, halfway, to the even neighbour. */
  function Chop(x: nat, p: nat): nat
    requires p > 0
  {
    var q, r := x / p, x % p;
    if 2 * r < p then q
    else if 2 * r > p then q + 1
    else if q % 2 == 0 then q
    else q + 1
  }

  /** The quotient of two decimals: truncated at twice the precision, then chopped. */
  function Quo(a: nat, b: nat, p: nat): nat
    requires b > 0 && p > 0
  {
    Chop((a * (p * p)) / b, p)
  }

  // ----- shares -----

  /** The share without any overflow. */
  function IdealShare(part: nat, total: nat, allocation: nat, p: nat): nat
    requires p > 0
  {
    if part == 0 || total == 0 then 0
    else
      var ratio := Quo(total * p, part * p, p);
      if ratio == 0 then 0 else Chop(Quo(allocation * p, ratio, p), p)
  }

  /** `GetUncappedShare`: a decimal larger than `limit`, and a division by zero, panic; the panic is recovered
      from, and yields zero. */
  function GetUncappedShare(part: nat, total: nat, allocation: nat, p: nat, limit: nat): nat
    requires p > 0
  {
    if part == 0 || total == 0 then 0
    else if allocation * p > limit || part * p > limit || total * p > limit then 0
    else
      var ratio := Quo(total * p, part * p, p);
      if ratio > limit || ratio == 0 then 0
      else
        var result := Quo(allocation * p, ratio, p);
        if result > limit then 0 else Chop(result, p)
  }

  function GetSafeShare(part: nat, total: nat, allocation: nat, p: nat, limit: nat): nat
    requires p > 0
  {
    GetUncappedShare(if part >= total then total else part, total, allocation, p, limit)
  }

  // ----- chopping -----

  lemma ChopNear(x: nat, p: nat)
    requires p > 0
    ensures 2 * (Chop(x, p) * p) <= 2 * x + p
    ensures 2 * x <= 2 * (Chop(x, p) * p) + p
  {
    var q, r := x / p, x % p;
    assert x == q * p + r;
    assert (q + 1) * p == q * p + p;
  }

  /** k is nearest to x / p, and even when its neighbour is as near. */
  predicate IsNearest(x: nat, p: nat, k: nat) {
    && 2 * (k * p) <= 2 * x + p && 2 * x <= 2 * (k * p) + p
    && (2 * (k * p) == 2 * x + p || 2 * x == 2 * (k * p) + p ==> k % 2 == 0)
  }

  lemma ChopExactly(x: nat, p: nat, k: nat)
    requires p > 0
    ensures k == Chop(x, p) <==> IsNearest(x, p, k)
  {
    var q, r := x / p, x % p;
    assert x == q * p + r;
    assert (q + 1) * p == q * p + p;
    if k < q {
      MulLess(k, q, p);
    } else if k > q + 1 {
      MulLess(q + 1, k, p);
    }
  }

  lemma ChopExact(k: nat, p: nat)
    requires p > 0
    ensures Chop(k * p, p) == k
  {
    DivExact(k, p);
  }

  lemma DivExact(k: nat, p: nat)
    requires p > 0
    ensures (k * p) / p == k && (k * p) % p == 0
  {
    ModUnique(k * p, p, k, 0);
  }

  lemma DivMono(x: nat, y: nat, d: nat)
    requires x <= y && d > 0
    ensures x / d <= y / d
  {
    var q, q' := x / d, y / d;
    assert x == q * d + x % d && y == q' * d + y % d;
    if q' < q {
      MulLess(q', q, d);
    }
  }

  lemma DivAnti(x: nat, d: nat, e: nat)
    requires 0 < d <= e
    ensures x / e <= x / d
  {
    var q := x / e;
    assert x == q * e + x % e;
    MulAtMost(d, e, q);
    assert q * d == d * q && q * e == e * q;
    DivMono(q * d, x, d);
    DivExact(q, d);
  }

  lemma ChopMono(x: nat, y: nat, p: nat)
    requires x <= y && p > 0
    ensures Chop(x, p) <= Chop(y, p)
  {
    DivMono(x, y, p);
    var q := x / p;
    assert x == q * p + x % p && y == (y / p) * p + y % p;
    if q == y / p {
      assert x % p <= y % p;
    }
  }

  // ----- the two quotients of a share -----

  lemma QuoMono(a: nat, a': nat, b: nat, b': nat, p: nat)
    requires a <= a' && 0 < b' <= b && p > 0
    ensures Quo(a, b, p) <= Quo(a', b', p)
  {
    MulAtMost(a, a', p * p);
    DivMono(a * (p * p), a' * (p * p), b);
    DivAnti(a' * (p * p), b', b);
    ChopMono((a * (p * p)) / b, (a' * (p * p)) / b', p);
  }

  /** A decimal over itself is one, and over one is itself. */
  lemma QuoSelf(a: nat, p: nat)
    requires a > 0 && p > 0
    ensures Quo(a, a, p) == p
  {
    assert a * (p * p) == (p * p) * a;
    DivExact(p * p, a);
    ChopExact(p, p);
  }

  lemma QuoOne(a: nat, p: nat)
    requires p > 0
    ensures Quo(a, p, p) == a
  {
    assert a * (p * p) == (a * p) * p;
    DivExact(a * p, p);
    ChopExact(a, p);
  }

  /** The ratio total / part is at least one, and at most the total. */
  lemma RatioBounds(part: nat, total: nat, p: nat)
    requires 0 < part <= total && p > 0
    ensures part * p > 0 && p <= Quo(total * p, part * p, p) <= total * p
  {
    hide Quo;
    MulAtMost(1, part, p);
    MulAtMost(part, total, p);
    QuoMono(part * p, total * p, part * p, part * p, p);
    QuoSelf(part * p, p);
    QuoMono(total * p, total * p, part * p, p, p);
    QuoOne(total * p, p);
  }

  lemma ResultBounds(allocation: nat, ratio: nat, p: nat)
    requires 0 < p <= ratio
    ensures Quo(allocation * p, ratio, p) <= allocation * p
    ensures Chop(Quo(allocation * p, ratio, p), p) <= allocation
  {
    hide Quo, Chop;
    QuoMono(allocation * p, allocation * p, ratio, p, p);
    QuoOne(allocation * p, p);
    ChopMono(Quo(allocation * p, ratio, p), allocation * p, p);
    ChopExact(allocation, p);
  }

  /** A quotient of decimals, by inequalities: n is the integer part at twice the precision, and q is nearest to it. */
  ghost predicate IsQuotient(a: nat, b: nat, p: nat, q: nat) {
    exists n: nat :: n * b <= a * (p * p) < n * b + b && IsNearest(n, p, q)
  }

  lemma QuoExactly(a: nat, b: nat, p: nat, q: nat)
    requires b > 0 && p > 0
    ensures q == Quo(a, b, p) <==> IsQuotient(a, b, p, q)
  {
    hide Chop, IsNearest;
    var x := a * (p * p);
    assert x == (x / b) * b + x % b;
    ChopExactly(x / b, p, q);
    forall n: nat | n * b <= x < n * b + b ensures n == x / b {
      ModUnique(x, b, n, x - n * b);
    }
  }

  /** The allocation over the ratio of total and part, all three decimals, rounded to an integer. */
  ghost predicate IsShare(part: nat, total: nat, allocation: nat, p: nat, share: nat) {
    exists ratio, result ::
      IsQuotient(total, part, p, ratio) && IsQuotient(allocation, ratio, p, result) && IsNearest(result, p, share)
  }

  lemma ShareOfQuotients(part: nat, total: nat, allocation: nat, p: nat, share: nat)
    requires part > 0 && p > 0 && Quo(total, part, p) > 0
    ensures share == Chop(Quo(allocation, Quo(total, part, p), p), p) <==> IsShare(part, total, allocation, p, share)
  {
    hide Quo, Chop, IsQuotient, IsNearest;
    var ratio := Quo(total, part, p);
    var result := Quo(allocation, ratio, p);
    QuoExactly(total, part, p, ratio);
    QuoExactly(allocation, ratio, p, result);
    ChopExactly(result, p, share);
    if ratio', result' :| IsQuotient(total, part, p, ratio') && IsQuotient(allocation, ratio', p, result')
                          && IsNearest(result', p, share) {
      QuoExactly(total, part, p, ratio');
      QuoExactly(allocation, ratio', p, result');
    }
  }

  lemma IdealShareExactly(part: nat, total: nat, allocation: nat, p: nat, share: nat)
    requires 0 < part <= total && p > 0
    ensures share == IdealShare(part, total, allocation, p) <==> IsShare(part * p, total * p, allocation * p, p, share)
  {
    hide Quo, Chop, IsShare;
    RatioBounds(part, total, p);
    ShareOfQuotients(part * p, total * p, allocation * p, p, share);
  }

  lemma QuoIs(a: nat, b: nat, p: nat, n: nat, q: nat)
    requires b > 0 && p > 0 && n * b <= a * (p * p) < n * b + b && IsNearest(n, p, q)
    ensures Quo(a, b, p) == q
  {
    hide IsNearest;
    QuoExactly(a, b, p, q);
  }

  const ONE := 1_000_000_000_000_000_000

  // With 18 decimal places; the half between 2 and 3 and that between 3 and 4 both go to the even neighbour.
  lemma ShareExamples()
    ensures IdealShare(1, 3, 100, ONE) == 33
    ensures IdealShare(1, 2, 5, ONE) == 2 && IdealShare(1, 2, 7, ONE) == 4
  {
    hide Quo, Chop;
    QuoIs(3 * ONE, ONE, ONE, 3 * ONE * ONE, 3 * ONE);
    QuoIs(2 * ONE, ONE, ONE, 2 * ONE * ONE, 2 * ONE);
    QuoIs(100 * ONE, 3 * ONE, ONE, 33_333_333_333_333_333_333_333_333_333_333_333_333, 33_333_333_333_333_333_333);
    QuoIs(5 * ONE, 2 * ONE, ONE, 2_500_000_000_000_000_000 * ONE, 2_500_000_000_000_000_000);
    QuoIs(7 * ONE, 2 * ONE, ONE, 3_500_000_000_000_000_000 * ONE, 3_500_000_000_000_000_000);
    ChopExactly(33_333_333_333_333_333_333, ONE, 33);
    ChopExactly(2_500_000_000_000_000_000, ONE, 2);
    ChopExactly(3_500_000_000_000_000_000, ONE, 4);
  }

  // ----- what a safe share promises -----

  /** Whether the two decimals that a caller chooses can be represented. */
  predicate Fits(total: nat, allocation: nat, p: nat, limit: nat) {
    total * p <= limit && allocation * p <= limit
  }

  function Capped(part: nat, total: nat): nat {
    if part >= total then total else part
  }

  /** Nothing in between overflows when the total and the allocation fit; otherwise the share is zero. */
  lemma SafeShareIsIdeal(part: nat, total: nat, allocation: nat, p: nat, limit: nat)
    requires p > 0
    ensures GetSafeShare(part, total, allocation, p, limit)
         == if Fits(total, allocation, p, limit) then IdealShare(Capped(part, total), total, allocation, p) else 0
  {
    hide Quo, Chop;
    var c := Capped(part, total);
    if c > 0 {
      MulAtMost(c, total, p);
      RatioBounds(c, total, p);
      ResultBounds(allocation, Quo(total * p, c * p, p), p);
    }
  }

  /** A safe share never exceeds the allocation. */
  lemma SafeShareIsCapped(part: nat, total: nat, allocation: nat, p: nat, limit: nat)
    requires p > 0
    ensures GetSafeShare(part, total, allocation, p, limit) <= allocation
  {
    hide Quo, Chop, GetSafeShare;
    SafeShareIsIdeal(part, total, allocation, p, limit);
    var c := Capped(part, total);
    if c > 0 {
      RatioBounds(c, total, p);
      ResultBounds(allocation, Quo(total * p, c * p, p), p);
    }
  }

  /** The whole of the total, or more, gets exactly the allocation, unless that does not fit. */
  lemma WholeShare(part: nat, total: nat, allocation: nat, p: nat, limit: nat)
    requires p > 0 && part >= total > 0
    ensures GetSafeShare(part, total, allocation, p, limit) == allocation
       <==> allocation == 0 || Fits(total, allocation, p, limit)
  {
    hide Quo, Chop, GetSafeShare;
    SafeShareIsIdeal(part, total, allocation, p, limit);
    RatioBounds(total, total, p);
    QuoSelf(total * p, p);
    QuoOne(allocation * p, p);
    ChopExact(allocation, p);
  }

  /** The limit itself fits. */
  lemma LimitExample(p: nat)
    requires p > 0
    ensures GetSafeShare(1, 1, 1, p, p) == 1 && GetSafeShare(1, 1, 1, p, p - 1) == 0
  {
    hide GetSafeShare;
    WholeShare(1, 1, 1, p, p);
    SafeShareIsIdeal(1, 1, 1, p, p - 1);
  }

  /** More of the total, or more to share out, never gets less, as long as it fits. */
  lemma SafeShareIsMonotone(part: nat, part': nat, total: nat, allocation: nat, allocation': nat, p: nat, limit: nat)
    requires p > 0 && part <= part' && allocation <= allocation' && Fits(total, allocation', p, limit)
    ensures GetSafeShare(part, total, allocation, p, limit) <= GetSafeShare(part', total, allocation', p, limit)
  {
    hide Quo, Chop, GetSafeShare;
    SafeShareIsIdeal(part, total, allocation, p, limit);
    SafeShareIsIdeal(part', total, allocation', p, limit);
    var c, c' := Capped(part, total), Capped(part', total);
    MulAtMost(allocation, allocation', p);
    if c > 0 {
      RatioBounds(c, total, p);
      RatioBounds(c', total, p);
      MulAtMost(c, c', p);
      var ratio, ratio' := Quo(total * p, c * p, p), Quo(total * p, c' * p, p);
      QuoMono(total * p, total * p, c' * p, c * p, p);
      QuoMono(allocation * p, allocation' * p, ratio, ratio', p);
      ChopMono(Quo(allocation * p, ratio, p), Quo(allocation' * p, ratio', p), p);
    }
  }

  // ----- how far off a share is -----

  // The next lemmas add up scaled inequalities. Products are written Mul, so that the sums see them as numbers.

  function Mul(x: nat, y: nat): nat {
    x * y
  }

  lemma QuoNear(a: nat, b: nat, p: nat)
    requires b > 0 && p >= 2
    ensures 2 * Mul(Mul(Quo(a, b, p), p), b) <= 2 * Mul(a, Mul(p, p)) + Mul(p, b)
    ensures 2 * Mul(a, Mul(p, p)) <= 2 * Mul(Mul(Quo(a, b, p), p), b) + Mul(p, b) + 2 * b
  {
    hide Chop;
    var x := a * (p * p);
    var n := x / b;
    assert x == n * b + x % b;
    ChopNear(n, p);
    var q := Quo(a, b, p) * p;
    MulAtMost(2 * q, 2 * n + p, b);
    MulAtMost(2 * n, 2 * q + p, b);
    Spread(q, n, p, b);
    Spread(n, q, p, b);
  }

  /** ratio * part is total * p up to one part. */
  lemma RatioNear(part: nat, total: nat, p: nat)
    requires 0 < part <= total && p >= 2
    ensures Mul(part, p) > 0
    ensures var ratio := Quo(Mul(total, p), Mul(part, p), p);
            && Mul(total, p) <= Mul(ratio, part) + part
            && 2 * Mul(ratio, part) <= 2 * Mul(total, p) + part
  {
    hide Quo;
    MulAtMost(1, part, p);
    QuoNear(Mul(total, p), Mul(part, p), p);
    ScaledRatio(part, Mul(total, p), p, Quo(Mul(total, p), Mul(part, p), p));
  }

  lemma ScaledRatio(part: nat, whole: nat, p: nat, ratio: nat)
    requires p >= 2
    requires 2 * Mul(Mul(ratio, p), Mul(part, p)) <= 2 * Mul(whole, Mul(p, p)) + Mul(p, Mul(part, p))
    requires 2 * Mul(whole, Mul(p, p)) <= 2 * Mul(Mul(ratio, p), Mul(part, p)) + Mul(p, Mul(part, p)) + 2 * Mul(part, p)
    ensures whole <= Mul(ratio, part) + part && 2 * Mul(ratio, part) <= 2 * whole + part
  {
    hide Mul;
    RegroupRatio(part, p, ratio);
    Scaled(Mul(ratio, part), whole, part, Mul(p, p));
  }

  lemma RegroupRatio(part: nat, p: nat, ratio: nat)
    requires p >= 2
    ensures Mul(Mul(ratio, p), Mul(part, p)) == Mul(Mul(ratio, part), Mul(p, p))
    ensures Mul(p, Mul(part, p)) == Mul(part, Mul(p, p))
    ensures 2 * Mul(part, p) <= Mul(part, Mul(p, p)) && Mul(p, p) > 0
  {
    assert p * (part * p) == part * (p * p);
    MulAtMost(2, p, part * p);
    MulAtMost(1, p, p);
  }

  lemma Scaled(x: nat, y: nat, z: nat, unit: nat)
    requires unit > 0
    requires 2 * Mul(x, unit) <= 2 * Mul(y, unit) + Mul(z, unit)
    requires 2 * Mul(y, unit) <= 2 * Mul(x, unit) + 2 * Mul(z, unit)
    ensures y <= x + z && 2 * x <= 2 * y + z
  {
    Spread(x, y, z, unit);
    assert (x + z) * unit == x * unit + z * unit;
    CancelMul(2 * x, 2 * y + z, unit);
    CancelMul(y, x + z, unit);
  }

  lemma CancelMul(a: nat, b: nat, c: nat)
    requires c > 0 && a * c <= b * c
    ensures a <= b
  {
    if b < a {
      MulLess(b, a, c);
    }
  }

  lemma CancelScale(a: nat, b: nat, k: nat)
    requires k > 0 && Mul(a, k) <= Mul(b, k)
    ensures a <= b
  {
    CancelMul(a, b, k);
  }

  /** allocation * p * part / total is the result up to allocation + 1. */
  lemma ResultNear(part: nat, total: nat, a: nat, p: nat, ratio: nat)
    requires 0 < part <= total && 2 <= p <= ratio
    requires Mul(total, p) <= Mul(ratio, part) + part && 2 * Mul(ratio, part) <= 2 * Mul(total, p) + part
    ensures var r := Quo(Mul(a, p), ratio, p);
            && Mul(r, total) <= Mul(Mul(a, p), part) + Mul(a + 1, total)
            && Mul(Mul(a, p), part) <= Mul(r, total) + Mul(a + 1, total)
  {
    hide Quo, Mul;
    QuoNear(Mul(a, p), ratio, p);
    ResultAbove(part, total, a, p, ratio, Quo(Mul(a, p), ratio, p));
    ResultBelow(part, total, a, p, ratio, Quo(Mul(a, p), ratio, p));
  }

  lemma ResultAbove(part: nat, total: nat, a: nat, p: nat, ratio: nat, r: nat)
    requires 0 < part <= total && 2 <= p <= ratio
    requires Mul(total, p) <= Mul(ratio, part) + part
    requires 2 * Mul(Mul(r, p), ratio) <= 2 * Mul(Mul(a, p), Mul(p, p)) + Mul(p, ratio)
    ensures Mul(r, total) <= Mul(Mul(a, p), part) + Mul(a + 1, total)
  {
    hide Mul;
    var k := Mul(p, ratio);
    ResultTimesTotal(total, a, p, ratio, r);
    RatioTimesWeight(part, total, a, p, ratio);
    SmallPart(part, total, a, p, ratio);
    TwoRatios(total, p, ratio);
    Gather(k, Mul(Mul(a, p), part), a, total);
    CancelScale(Mul(r, total), Mul(Mul(a, p), part) + Mul(a + 1, total), k);
  }

  lemma ResultBelow(part: nat, total: nat, a: nat, p: nat, ratio: nat, r: nat)
    requires 0 < part <= total && 2 <= p <= ratio
    requires 2 * Mul(ratio, part) <= 2 * Mul(total, p) + part
    requires 2 * Mul(Mul(a, p), Mul(p, p)) <= 2 * Mul(Mul(r, p), ratio) + Mul(p, ratio) + 2 * ratio
    ensures Mul(Mul(a, p), part) <= Mul(r, total) + Mul(a + 1, total)
  {
    hide Mul;
    var k := Mul(p, ratio);
    ResultTimesTotalBack(total, a, p, ratio, r);
    RatioTimesWeightBack(part, total, a, p, ratio);
    SmallPart(part, total, a, p, ratio);
    TwoRatios(total, p, ratio);
    Gather(k, Mul(r, total), a, total);
    CancelScale(Mul(Mul(a, p), part), Mul(r, total) + Mul(a + 1, total), k);
  }

  lemma ResultTimesTotal(total: nat, a: nat, p: nat, ratio: nat, r: nat)
    requires 2 * Mul(Mul(r, p), ratio) <= 2 * Mul(Mul(a, p), Mul(p, p)) + Mul(p, ratio)
    ensures 2 * Mul(Mul(r, total), Mul(p, ratio))
         <= 2 * Mul(Mul(total, p), Mul(a, Mul(p, p))) + Mul(total, Mul(p, ratio))
  {
    var x, y, z := (r * p) * ratio, a * p * (p * p), p * ratio;
    MulAtMost(2 * x, 2 * y + z, total);
    Spread(x, y, z, total);
    assert x * total == (r * total) * (p * ratio);
    assert y * total == (total * p) * (a * (p * p));
  }

  lemma ResultTimesTotalBack(total: nat, a: nat, p: nat, ratio: nat, r: nat)
    requires 2 * Mul(Mul(a, p), Mul(p, p)) <= 2 * Mul(Mul(r, p), ratio) + Mul(p, ratio) + 2 * ratio
    ensures 2 * Mul(Mul(total, p), Mul(a, Mul(p, p)))
         <= 2 * Mul(Mul(r, total), Mul(p, ratio)) + Mul(total, Mul(p, ratio)) + 2 * Mul(ratio, total)
  {
    var x, y, z := a * p * (p * p), (r * p) * ratio, p * ratio + 2 * ratio;
    MulAtMost(2 * x, 2 * y + z, total);
    Spread(x, y, z, total);
    assert x * total == (total * p) * (a * (p * p));
    assert y * total == (r * total) * (p * ratio);
    assert z * total == total * (p * ratio) + 2 * (ratio * total);
  }

  lemma RatioTimesWeight(part: nat, total: nat, a: nat, p: nat, ratio: nat)
    requires Mul(total, p) <= Mul(ratio, part) + part
    ensures Mul(Mul(total, p), Mul(a, Mul(p, p)))
         <= Mul(Mul(Mul(a, p), part), Mul(p, ratio)) + Mul(Mul(p, part), Mul(a, p))
  {
    var w := a * (p * p);
    MulAtMost(total * p, ratio * part + part, w);
    assert (ratio * part + part) * w == (ratio * part) * w + part * w;
    assert (ratio * part) * w == (a * p * part) * (p * ratio);
    assert part * w == (p * part) * (a * p);
  }

  lemma RatioTimesWeightBack(part: nat, total: nat, a: nat, p: nat, ratio: nat)
    requires 2 * Mul(ratio, part) <= 2 * Mul(total, p) + part
    ensures 2 * Mul(Mul(Mul(a, p), part), Mul(p, ratio))
         <= 2 * Mul(Mul(total, p), Mul(a, Mul(p, p))) + Mul(Mul(p, part), Mul(a, p))
  {
    var w := a * (p * p);
    MulAtMost(2 * (ratio * part), 2 * (total * p) + part, w);
    Spread(ratio * part, total * p, part, w);
    assert (ratio * part) * w == (a * p * part) * (p * ratio);
    assert part * w == (p * part) * (a * p);
  }

  lemma SmallPart(part: nat, total: nat, a: nat, p: nat, ratio: nat)
    requires part <= total && p <= ratio
    ensures Mul(Mul(p, part), Mul(a, p)) <= Mul(Mul(a, total), Mul(p, ratio))
  {
    MulAtMost(p, ratio, part);
    MulAtMost(part, total, ratio);
    MulAtMost(p * part, total * ratio, a * p);
    assert (total * ratio) * (a * p) == (a * total) * (p * ratio);
  }

  lemma TwoRatios(total: nat, p: nat, ratio: nat)
    requires 2 <= p <= ratio
    ensures 2 * Mul(ratio, total) <= Mul(total, Mul(p, ratio))
    ensures Mul(p, ratio) > 0
  {
    MulAtMost(2, p, ratio * total);
    MulAtMost(1, p, ratio);
    assert p * (ratio * total) == total * (p * ratio);
  }

  lemma Gather(k: nat, x: nat, a: nat, total: nat)
    ensures Mul(x + Mul(a + 1, total), k) == Mul(x, k) + Mul(Mul(a, total), k) + Mul(total, k)
    ensures Mul(total, k) == Mul(k, total)
  {
    var y := a * total;
    assert (a + 1) * total == y + total;
    assert (x + (y + total)) * k == x * k + y * k + total * k;
  }

  /** A safe share differs from the exact allocation * part / total (part capped at total) by at most
      1/2 + (allocation + 1) / p; both sides multiplied by 2 * p * total. */
  lemma SafeShareError(part: nat, total: nat, allocation: nat, p: nat, limit: nat)
    requires total > 0 && p >= 2 && Fits(total, allocation, p, limit)
    ensures var share, c := GetSafeShare(part, total, allocation, p, limit), Capped(part, total);
            && 2 * (p * (share * total)) <= 2 * (p * (allocation * c)) + p * total + 2 * ((allocation + 1) * total)
            && 2 * (p * (allocation * c)) <= 2 * (p * (share * total)) + p * total + 2 * ((allocation + 1) * total)
  {
    hide Quo, Chop, GetSafeShare;
    SafeShareIsIdeal(part, total, allocation, p, limit);
    var c := Capped(part, total);
    if c > 0 {
      RatioBounds(c, total, p);
      RatioNear(c, total, p);
      var ratio := Quo(total * p, c * p, p);
      ResultNear(c, total, allocation, p, ratio);
      var r := Quo(allocation * p, ratio, p);
      ChopNear(r, p);
      ErrorSum(Chop(r, p), r, c, total, allocation, p);
    }
  }

  /** The share of an allocation below half the precision is less than one unit off the exact one, so it is the exact
      share rounded up or down. With 18 decimal places that is every allocation below 5 * 10^17 - 1. */
  lemma ShareWithinOne(part: nat, total: nat, allocation: nat, p: nat, limit: nat)
    requires total > 0 && 2 * (allocation + 1) < p && Fits(total, allocation, p, limit)
    ensures var share, c := GetSafeShare(part, total, allocation, p, limit), Capped(part, total);
            share * total < allocation * c + total && allocation * c < share * total + total
  {
    hide GetSafeShare;
    SafeShareError(part, total, allocation, p, limit);
    var share, c := GetSafeShare(part, total, allocation, p, limit), Capped(part, total);
    WithinOne(Mul(share, total), Mul(allocation, c), allocation, total, p);
  }

  lemma WithinOne(x: nat, y: nat, a: nat, total: nat, p: nat)
    requires total > 0 && 2 * (a + 1) < p
    requires 2 * Mul(p, x) <= 2 * Mul(p, y) + Mul(p, total) + 2 * Mul(a + 1, total)
    requires 2 * Mul(p, y) <= 2 * Mul(p, x) + Mul(p, total) + 2 * Mul(a + 1, total)
    ensures x < y + total && y < x + total
  {
    hide Mul;
    SmallError(a, total, p);
    SumTimes(y, total, p);
    SumTimes(x, total, p);
    CancelLess(x, y + total, p);
    CancelLess(y, x + total, p);
  }

  lemma SmallError(a: nat, total: nat, p: nat)
    requires total > 0 && 2 * (a + 1) < p
    ensures 2 * Mul(a + 1, total) < Mul(p, total)
  {
    MulLess(2 * (a + 1), p, total);
    assert (2 * (a + 1)) * total == 2 * ((a + 1) * total);
  }

  lemma SumTimes(x: nat, y: nat, p: nat)
    ensures Mul(p, x + y) == Mul(p, x) + Mul(p, y)
  {
  }

  lemma CancelLess(a: nat, b: nat, p: nat)
    requires Mul(p, a) < Mul(p, b)
    ensures a < b
  {
    if b <= a {
      MulAtMost(b, a, p);
    }
  }

  lemma ErrorSum(share: nat, r: nat, c: nat, total: nat, a: nat, p: nat)
    requires 2 * Mul(share, p) <= 2 * r + p && 2 * r <= 2 * Mul(share, p) + p
    requires Mul(r, total) <= Mul(Mul(a, p), c) + Mul(a + 1, total)
    requires Mul(Mul(a, p), c) <= Mul(r, total) + Mul(a + 1, total)
    ensures 2 * Mul(p, Mul(share, total)) <= 2 * Mul(p, Mul(a, c)) + Mul(p, total) + 2 * Mul(a + 1, total)
    ensures 2 * Mul(p, Mul(a, c)) <= 2 * Mul(p, Mul(share, total)) + Mul(p, total) + 2 * Mul(a + 1, total)
  {
    hide Mul;
    ShareTimesTotal(share, r, total, p);
    Reorder(a, p, c);
  }

  lemma Reorder(a: nat, p: nat, c: nat)
    ensures Mul(Mul(a, p), c) == Mul(p, Mul(a, c))
  {
  }

  lemma ShareTimesTotal(share: nat, r: nat, total: nat, p: nat)
    requires 2 * Mul(share, p) <= 2 * r + p && 2 * r <= 2 * Mul(share, p) + p
    ensures 2 * Mul(p, Mul(share, total)) <= 2 * Mul(r, total) + Mul(p, total)
    ensures 2 * Mul(r, total) <= 2 * Mul(p, Mul(share, total)) + Mul(p, total)
  {
    var x := share * p;
    MulAtMost(2 * x, 2 * r + p, total);
    MulAtMost(2 * r, 2 * x + p, total);
    Spread(x, r, p, total);
    Spread(r, x, p, total);
    assert x * total == p * (share * total);
  }

  lemma Spread(x: nat, y: nat, z: nat, w: nat)
    ensures (2 * x) * w == 2 * (x * w)
    ensures (2 * y + z) * w == 2 * (y * w) + z * w
  {
  }
}
