/** Go's fixed-width integers and the few bit operations the codec uses, on mathematical integers. */
module Machine {
  import opened Arithmetic

  const TWO_31: int := 0x8000_0000
  const TWO_32: int := 0x1_0000_0000
  const TWO_63: int := 0x8000_0000_0000_0000
  const TWO_64: int := 0x1_0000_0000_0000_0000

  /** The largest length a Go slice can have, and the largest value of `int`. */
  const MAX_INT: int := TWO_63 - 1

  type byte = x: int | 0 <= x < 0x100
  type uint64 = x: int | 0 <= x < 0x1_0000_0000_0000_0000
  type int64 = x: int | -0x8000_0000_0000_0000 <= x < 0x8000_0000_0000_0000
  type int32 = x: int | -0x8000_0000 <= x < 0x8000_0000

  /** What a Go byte slice or string can hold. */
  type Slice = s: seq<byte> | |s| <= 0x7FFF_FFFF_FFFF_FFFF

  /** Conversion to `uint64`: the low 64 bits. */
  function Uint64(x: int): uint64 {
    x % TWO_64
  }

  /** Conversion to `int64` (and to `int`, which has 64 bits): the low 64 bits in two's complement. */
  function Int64(x: int): (r: int64)
    ensures 0 <= x < TWO_63 ==> r == x
    ensures TWO_63 <= x < TWO_64 ==> r == x - TWO_64
  {
    var low := x % TWO_64;
    if low < TWO_63 then low else low - TWO_64
  }

  /** Conversion to `int32`: the low 32 bits in two's complement. */
  function Int32(x: int): int32 {
    var low := x % TWO_32;
    if low < TWO_31 then low else low - TWO_32
  }

  function Pow2(n: nat): (p: nat)
    ensures p > 0
  {
    if n == 0 then 1 else 2 * Pow2(n - 1)
  }

  /** Bitwise or. */
  function Or(a: nat, b: nat): nat
    decreases a + b
  {
    if a == 0 then b
    else if b == 0 then a
    else (if a % 2 == 1 || b % 2 == 1 then 1 else 0) + 2 * Or(a / 2, b / 2)
  }

  /** `x << n` on a 64-bit word. */
  function Shl64(x: nat, n: nat): uint64 {
    (x * Pow2(n)) % TWO_64
  }

  /** `bits.Len64`: the number of bits needed to write x. */
  function BitLen(x: nat): nat {
    if x == 0 then 0 else 1 + BitLen(x / 2)
  }

  // Two's complement is an exact round trip in both directions.

  lemma Int64RoundTrip(x: int64, u: uint64)
    ensures Int64(Uint64(x)) == x
    ensures Uint64(Int64(u)) == u
  {
  }

  lemma {:induction false} Pow2Add(m: nat, n: nat)
    ensures Pow2(m + n) == Pow2(m) * Pow2(n)
  {
    if m > 0 {
      Pow2Add(m - 1, n);
    }
  }

  lemma Pow2Of16()
    ensures Pow2(16) == 0x1_0000
  {
    assert Pow2(4) == 0x10;
    Pow2Add(4, 4);
    Pow2Add(8, 8);
  }

  lemma Pow2Of64()
    ensures Pow2(64) == TWO_64
  {
    Pow2Of16();
    Pow2Add(16, 16);
    Pow2Add(32, 32);
  }

  lemma Pow2Plus7(n: nat)
    ensures Pow2(n + 7) == 0x80 * Pow2(n)
  {
    assert Pow2(7) == 0x80;
    Pow2Add(7, n);
  }

  /** Or-ing in bits above all the bits of `a` adds them. */
  lemma {:induction false} OrDisjoint(a: nat, c: nat, n: nat)
    requires a < Pow2(n)
    ensures Or(a, c * Pow2(n)) == a + c * Pow2(n)
  {
    if n == 0 {
      assert c * Pow2(0) == c;
    } else if a > 0 && c * Pow2(n) > 0 {
      var p := Pow2(n - 1);
      assert c * Pow2(n) == 2 * (c * p);
      OrDisjoint(a / 2, c, n - 1);
    }
  }

  lemma OrContinuation(c: nat)
    requires c < 0x80
    ensures Or(c, 0x80) == c + 0x80
  {
    assert Pow2(7) == 0x80;
    OrDisjoint(c, 1, 7);
  }

  lemma ModScale(c: nat, p: nat, q: nat)
    requires p > 0 && q > 0
    ensures (c * p) % (q * p) == (c % q) * p
  {
    var d, r := c / q, c % q;
    assert c == q * d + r;
    assert c * p == (q * p) * d + r * p by {
      assert (q * d + r) * p == (q * p) * d + r * p;
    }
    assert 0 <= r * p < q * p by {
      MulLess(r, q, p);
    }
    ModUnique(c * p, q * p, d, r * p);
  }

  lemma AddBelow(acc: nat, c: nat, p: nat, q: nat)
    requires acc < p && q > 0
    ensures q * p > 0
    ensures acc + (c % q) * p == (acc + c * p) % (q * p)
  {
    var d, high := c / q, c % q;
    MulAtMost(1, q, p);
    assert c * p == (q * p) * d + high * p by {
      assert c == q * d + high;
      assert (q * d + high) * p == (q * p) * d + high * p;
    }
    assert acc + high * p < q * p by {
      assert (high + 1) * p == high * p + p;
      MulAtMost(high + 1, q, p);
    }
    ModUnique(acc + c * p, q * p, d, acc + high * p);
  }

  /** One step of every shift loop: or-ing a 7-bit group into place is addition modulo 2^64. */
  lemma OrShifted(acc: nat, c: nat, shift: nat)
    requires shift < 64
    requires acc < Pow2(shift)
    ensures Or(acc, Shl64(c, shift)) == (acc + c * Pow2(shift)) % TWO_64
  {
    Pow2Add(64 - shift, shift);
    Pow2Of64();
    ModScale(c, Pow2(shift), Pow2(64 - shift));
    OrDisjoint(acc, c % Pow2(64 - shift), shift);
    AddBelow(acc, c, Pow2(shift), Pow2(64 - shift));
  }

  lemma OrOne(x: nat)
    ensures Or(x, 1) == if x % 2 == 1 then x else x + 1
  {
  }

  lemma BitLenShift2(x: nat)
    requires x >= 4
    ensures BitLen(x) == 2 + BitLen(x / 4)
  {
    assert x / 2 / 2 == x / 4;
  }

  lemma BitLenShift7(x: nat)
    requires x >= 0x80
    ensures BitLen(x) == 7 + BitLen(x / 0x80)
  {
    BitLenShift2(x);
    BitLenShift2(x / 4);
    BitLenShift2(x / 16);
    assert x / 4 / 4 == x / 16 && x / 16 / 4 == x / 64 && x / 64 / 2 == x / 0x80;
  }
}
