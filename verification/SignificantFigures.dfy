/** Rounding an unsigned 64-bit integer down to its leading decimal digits. */
module SignificantFigures {
  import opened Arithmetic
  import opened Machine

  function Pow10(n: nat): (p: nat)
    ensures p > 0
  {
    if n == 0 then 1 else 10 * Pow10(n - 1)
  }

  /** The number of decimal digits; none for zero. */
  function Digits(n: nat): nat {
    if n == 0 then 0 else 1 + Digits(n / 10)
  }

  function Floor(n: nat, d: nat): nat
    requires d > 0
  {
    n / d * d
  }

  /** What the function returns. The divisor is computed in 64 bits; when it comes out as zero, the division
      panics. */
  datatype Rounding = Rounded(value: uint64) | DivisionByZero

  function Round(number: uint64, significantDigits: int64): Rounding {
    if number == 0 then Rounded(0)
    else if Digits(number) <= significantDigits then Rounded(number)
    else
      var divisor := Uint64(Pow10(Times(Int64(Digits(number) - significantDigits))));
      if divisor == 0 then DivisionByZero
      else
        FloorBelow(number, divisor);
        Rounded(Floor(number, divisor))
  }

  /** How often a loop counts from 0 up to k. */
  function Times(k: int): nat {
    if k < 0 then 0 else k
  }

  lemma FloorBelow(n: nat, d: nat)
    requires d > 0
    ensures Floor(n, d) <= n < Floor(n, d) + d
  {
    assert n == n / d * d + n % d;
  }

  method RoundSignificantFigures(number: uint64, significantDigits: int64) returns (r: Rounding)
    ensures r == Round(number, significantDigits)
  {
    hide Pow10;
    if number == 0 {
      return Rounded(0);
    }
    var magnitude, temp := 0, number;
    while temp != 0
      invariant 0 <= temp && 0 <= magnitude
      invariant magnitude + Digits(temp) == Digits(number)
      decreases temp
    {
      temp := temp / 10;
      magnitude := magnitude + 1;
    }
    if magnitude <= significantDigits {
      return Rounded(number);
    }
    var divisor: uint64, i := 1, 0;
    var count := Int64(magnitude - significantDigits);
    PowZero();
    while i < count
      invariant 0 <= i <= Times(count)
      invariant divisor == Uint64(Pow10(i))
    {
      PowNext(i);
      divisor := Uint64(divisor * 10);
      i := i + 1;
    }
    if divisor == 0 {
      return DivisionByZero;
    }
    FloorBelow(number, divisor);
    return Rounded(number / divisor * divisor);
  }

  lemma PowZero()
    ensures Pow10(0) == 1
  {
  }

  lemma PowNext(i: nat)
    ensures Uint64(Uint64(Pow10(i)) * 10) == Uint64(Pow10(i + 1))
  {
    var p := Pow10(i);
    assert p == TWO_64 * (p / TWO_64) + p % TWO_64;
    ModUnique(10 * p, TWO_64, 10 * (p / TWO_64) + (p % TWO_64 * 10) / TWO_64, (p % TWO_64 * 10) % TWO_64);
  }

  // ----- digits -----

  lemma {:induction false} DigitsBounds(n: nat)
    requires n > 0
    ensures Digits(n) > 0 && Pow10(Digits(n) - 1) <= n < Pow10(Digits(n))
  {
    if n >= 10 {
      DigitsBounds(n / 10);
    }
  }

  lemma {:induction false} PowGrows(m: nat, n: nat)
    requires m <= n
    ensures Pow10(m) <= Pow10(n)
  {
    if m < n {
      PowGrows(m, n - 1);
    }
  }

  lemma {:induction false} PowSum(m: nat, n: nat)
    ensures Pow10(m + n) == Pow10(m) * Pow10(n)
  {
    if m > 0 {
      PowSum(m - 1, n);
    }
  }

  lemma DigitsUnique(n: nat, d: nat)
    requires d > 0 && Pow10(d - 1) <= n < Pow10(d)
    ensures Digits(n) == d
  {
    DigitsBounds(n);
    if Digits(n) < d {
      PowGrows(Digits(n), d - 1);
    } else if d < Digits(n) {
      PowGrows(d, Digits(n) - 1);
    }
  }

  lemma TwentyDigits(n: uint64)
    ensures Digits(n) <= 20
    ensures Pow10(19) < TWO_64
  {
    PowSmall();
    if n > 0 && Digits(n) > 20 {
      DigitsBounds(n);
      PowGrows(20, Digits(n) - 1);
    }
  }

  lemma PowSmall()
    ensures Pow10(19) == 10_000_000_000_000_000_000 && Pow10(20) == 100_000_000_000_000_000_000
  {
    assert Pow10(5) == 100_000;
    PowSum(5, 5);
    PowSum(10, 5);
    PowSum(15, 4);
    PowSum(15, 5);
    assert Pow10(4) == 10_000;
  }

  // ----- flooring -----

  lemma FloorMultiple(k: nat, d: nat)
    requires d > 0
    ensures Floor(k * d, d) == k * d
  {
    ModUnique(k * d, d, k, 0);
  }

  lemma FloorMono(m: nat, n: nat, d: nat)
    requires m <= n && d > 0
    ensures Floor(m, d) <= Floor(n, d)
  {
    FloorBelow(m, d);
    FloorBelow(n, d);
    if n / d < m / d {
      MulStep(d, n / d, m / d);
    }
  }

  /** Flooring at a multiple of d after flooring at d is flooring at the multiple. */
  lemma FloorCoarser(n: nat, d: nat, c: nat)
    requires d > 0 && c > 0
    ensures c * d > 0 && Floor(Floor(n, d), c * d) == Floor(n, c * d)
  {
    MulAtMost(1, c, d);
    var q := n / d;
    var q', r' := q / c, q % c;
    assert n == d * q + n % d;
    assert q * d == (c * d) * q' + r' * d by {
      assert q == c * q' + r';
      assert (c * q' + r') * d == (c * d) * q' + r' * d;
    }
    assert r' * d + d <= c * d by {
      MulAtMost(r' + 1, c, d);
      assert (r' + 1) * d == r' * d + d;
    }
    ModUnique(q * d, c * d, q', r' * d);
    ModUnique(n, c * d, q', r' * d + n % d);
  }

  /** Flooring at a divisor of d after flooring at d changes nothing. */
  lemma FloorFiner(n: nat, d: nat, c: nat)
    requires d > 0 && c > 0
    ensures c * d > 0 && Floor(Floor(n, c * d), d) == Floor(n, c * d)
  {
    MulAtMost(1, c, d);
    var q := n / (c * d);
    assert q * (c * d) == (q * c) * d;
    FloorMultiple(q * c, d);
  }

  // ----- what rounding to at least one digit promises -----

  function Ideal(n: nat, s: nat): nat {
    if Digits(n) <= s then n else Floor(n, Pow10(Digits(n) - s))
  }

  /** With at least one significant digit the 64-bit divisor is exact, and the division never panics. */
  lemma RoundIsIdeal(n: uint64, s: int64)
    requires s >= 1
    ensures Ideal(n, s) < TWO_64 && Round(n, s) == Rounded(Ideal(n, s))
  {
    hide Pow10, Floor;
    TwentyDigits(n);
    if n > 0 && Digits(n) > s {
      PowGrows(Digits(n) - s, 19);
      FloorBelow(n, Pow10(Digits(n) - s));
    }
  }

  /** Rounding goes down, by less than one unit of the last kept digit. */
  lemma RoundingLoss(n: nat, s: nat)
    ensures Ideal(n, s) <= n
    ensures n - Ideal(n, s) < Pow10(if Digits(n) <= s then 0 else Digits(n) - s)
  {
    hide Pow10, Floor;
    PowZero();
    if Digits(n) > s {
      FloorBelow(n, Pow10(Digits(n) - s));
    }
  }

  lemma RoundingKeepsDigits(n: nat, s: nat)
    requires s >= 1
    ensures Digits(Ideal(n, s)) == Digits(n)
  {
    hide Pow10, Floor;
    if Digits(n) > s {
      DigitsBounds(n);
      var d := Digits(n);
      var unit := Pow10(d - s);
      PowSum(s - 1, d - s);
      assert s - 1 + (d - s) == d - 1;
      FloorMultiple(Pow10(s - 1), unit);
      FloorMono(Pow10(d - 1), n, unit);
      FloorBelow(n, unit);
      DigitsUnique(Ideal(n, s), d);
    }
  }

  lemma RoundingMonotone(m: nat, n: nat, s: nat)
    requires m <= n && s >= 1
    ensures Ideal(m, s) <= Ideal(n, s)
  {
    hide Pow10, Floor;
    RoundingLoss(m, s);
    if m > 0 {
      DigitsBounds(m);
      DigitsBounds(n);
      if Digits(m) == Digits(n) {
        if Digits(m) > s {
          FloorMono(m, n, Pow10(Digits(m) - s));
        }
      } else {
        if Digits(n) < Digits(m) {
          PowGrows(Digits(n), Digits(m) - 1);
        } else {
          PowGrows(Digits(m), Digits(n) - 1);
        }
        RoundingKeepsDigits(n, s);
        RoundedIsPositive(n, s);
        DigitsBounds(Ideal(n, s));
      }
    }
  }

  lemma RoundedIsPositive(n: nat, s: nat)
    requires n > 0 && s >= 1
    ensures Ideal(n, s) > 0
  {
    RoundingKeepsDigits(n, s);
    DigitsBounds(n);
  }

  /** Rounding twice is rounding once, to the smaller number of digits. */
  lemma RoundingComposes(n: nat, s: nat, t: nat)
    requires s >= 1 && t >= 1
    ensures Ideal(Ideal(n, s), t) == Ideal(n, if s <= t then s else t)
  {
    hide Pow10, Floor;
    RoundingKeepsDigits(n, s);
    var d := Digits(n);
    if d > s && d > t {
      if s <= t {
        PowSum(t - s, d - t);
        assert t - s + (d - t) == d - s;
        FloorFiner(n, Pow10(d - t), Pow10(t - s));
      } else {
        PowSum(s - t, d - s);
        assert s - t + (d - s) == d - t;
        FloorCoarser(n, Pow10(d - s), Pow10(s - t));
      }
    }
  }

  // ----- without a significant digit -----

  function Pow5(n: nat): nat {
    if n == 0 then 1 else 5 * Pow5(n - 1)
  }

  lemma {:induction false} PowFactors(n: nat)
    ensures Pow10(n) == Pow5(n) * Pow2(n)
  {
    if n > 0 {
      PowFactors(n - 1);
      TimesTen(Pow10(n - 1), Pow5(n - 1), Pow2(n - 1));
    }
  }

  lemma TimesTen(a: nat, x: nat, y: nat)
    requires a == x * y
    ensures 10 * a == (5 * x) * (2 * y)
  {
  }

  lemma {:induction false} PowOdd(n: nat)
    ensures Pow5(n) % 2 == 1
  {
    if n > 0 {
      PowOdd(n - 1);
    }
  }

  /** The 64-bit divisor comes out as zero exactly from 10^64 on. */
  lemma DivisorIsZero(k: nat)
    ensures Uint64(Pow10(k)) == 0 <==> k >= 64
  {
    hide Pow10, Pow2, Pow5;
    PowFactors(k);
    PowOdd(k);
    Pow2Of64();
    if k >= 64 {
      Pow2Add(64, k - 64);
      var x, y := Pow5(k), Pow2(k - 64);
      assert x * (TWO_64 * y) == TWO_64 * (x * y);
      ModUnique(Pow10(k), TWO_64, x * y, 0);
    } else {
      Pow2Add(64 - k, k);
      PowEven(64 - k);
      OddTimes(Pow5(k), Pow2(64 - k), Pow2(k));
    }
  }

  lemma PowEven(n: nat)
    requires n > 0
    ensures Pow2(n) % 2 == 0
  {
  }

  lemma OddTimes(x: nat, q: nat, p: nat)
    requires x % 2 == 1 && p > 0 && q > 0 && q % 2 == 0
    ensures q * p > 0 && (x * p) % (q * p) != 0
  {
    MulAtMost(1, q, p);
    ModScale(x, p, q);
    OddRemainder(x, q);
    MulAtMost(1, x % q, p);
  }

  lemma OddRemainder(x: nat, q: nat)
    requires x % 2 == 1 && q > 0 && q % 2 == 0
    ensures x % q >= 1
  {
    EvenTimes(q, x / q);
    assert x == q * (x / q) + x % q;
  }

  lemma EvenTimes(q: nat, k: nat)
    requires q % 2 == 0
    ensures (q * k) % 2 == 0
  {
    assert q * k == 2 * (q / 2 * k);
  }

  /** For every argument: the function panics exactly when it would divide by 10^64 or more. */
  lemma PanicsExactly(n: uint64, s: int64)
    ensures Round(n, s) == DivisionByZero
       <==> n != 0 && Digits(n) > s && Int64(Digits(n) - s) >= 64
  {
    hide Pow10, Int64, Floor;
    if n != 0 && Digits(n) > s {
      DivisorIsZero(Times(Int64(Digits(n) - s)));
    }
  }

  /** For example, rounding 1 to minus 63 digits panics. */
  lemma OneDigitPanics()
    ensures Round(1, -63) == DivisionByZero
  {
    hide Round;
    assert Digits(1) == 1;
    PanicsExactly(1, -63);
  }

  // ----- the result, without division -----

  /** r is n with all but its first s digits replaced by zeros: a multiple of the power of ten that leaves s digits, and
      the last one up to n. */
  predicate KeepsDigits(n: nat, s: nat, r: nat) {
    var unit := Pow10(if Digits(n) <= s then 0 else Digits(n) - s);
    r % unit == 0 && r <= n < r + unit
  }

  lemma MultiplesApart(q: nat, r: nat, d: nat)
    requires d > 0 && q % d == 0 && r % d == 0 && q < r + d && r < q + d
    ensures q == r
  {
    assert q == d * (q / d) && r == d * (r / d);
    if q / d < r / d {
      MulStep(d, q / d, r / d);
    } else if r / d < q / d {
      MulStep(d, r / d, q / d);
    }
  }

  lemma FloorIsMultiple(n: nat, d: nat)
    requires d > 0
    ensures Floor(n, d) % d == 0
  {
    ModUnique(Floor(n, d), d, n / d, 0);
  }

  /** There is one such number, and rounding gives it. */
  lemma RoundingExactly(n: nat, s: nat, r: nat)
    ensures Ideal(n, s) == r <==> KeepsDigits(n, s, r)
  {
    hide Pow10, Floor, Digits;
    PowZero();
    var d := if Digits(n) <= s then 0 else Digits(n) - s;
    if d > 0 {
      FloorBelow(n, Pow10(d));
      FloorIsMultiple(n, Pow10(d));
      if KeepsDigits(n, s, r) {
        MultiplesApart(Ideal(n, s), r, Pow10(d));
      }
    }
  }

  /** So, for at least one significant digit and every number, the function returns it. */
  lemma RoundExactly(n: uint64, s: int64, r: uint64)
    requires s >= 1
    ensures Round(n, s) == Rounded(r) <==> KeepsDigits(n, s, r)
  {
    hide Round, Ideal, KeepsDigits;
    RoundIsIdeal(n, s);
    RoundingExactly(n, s, r);
  }

  /** Without a significant digit nothing is left, as long as the power of ten fits. */
  lemma NoDigits(n: uint64, s: int64)
    requires s <= 0 && n > 0 && Digits(n) - s <= 19
    ensures Round(n, s) == Rounded(0)
  {
    hide Pow10, Floor;
    DigitsBounds(n);
    var k := Digits(n) - s;
    PowGrows(Digits(n), k);
    PowGrows(k, 19);
    PowSmall();
    SmallFloor(n, Pow10(k));
  }

  lemma SmallFloor(n: nat, d: nat)
    requires n < d
    ensures Floor(n, d) == 0
  {
  }

  lemma FiveDigits(n: nat)
    requires 10_000 <= n < 100_000
    ensures Digits(n) == 5 && Pow10(3) == 1_000 && Pow10(4) == 10_000 && Pow10(0) == 1
  {
    assert Pow10(5) == 100_000;
    DigitsUnique(n, 5);
  }

  lemma RoundExamples()
    ensures Round(12345, 2) == Rounded(12000)
    ensures Round(99999, 1) == Rounded(90000)
    ensures Round(12345, 5) == Rounded(12345)
    ensures Round(12345, 0) == Rounded(0)
    ensures Round(0, 3) == Rounded(0)
  {
    hide Round, Digits, Pow10;
    FiveDigits(12345);
    FiveDigits(99999);
    RoundExactly(12345, 2, 12000);
    RoundExactly(99999, 1, 90000);
    RoundExactly(12345, 5, 12345);
    NoDigits(12345, 0);
    RoundZero();
  }

  lemma RoundZero()
    ensures Round(0, 3) == Rounded(0)
  {
  }
}
