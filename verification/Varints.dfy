/** Base 128 varints: the shift loop that reads one, and the writer that puts one below an offset. */
module Varints {
  import opened Arithmetic
  import opened Machine

  datatype Error =
    | IntOverflow
    | UnexpectedEOF
    | InvalidLength
    | UnexpectedEndOfGroup
    | IllegalWireType(wireType: int)
    | EndGroupForNonGroup
    | IllegalTag(fieldNum: int, wire: uint64)
    | WrongWireType(wireType: int, fieldNum: int)

  /** What a shift loop leaves behind. A loop that fails has still accumulated `value`. */
  datatype VarintRead =
    | Read(value: uint64, size: nat)
    | Unread(error: Error, value: uint64)

  /** The shift loop, from the state (shift, acc), on the bytes that are left. */
  function ReadFrom(s: seq<byte>, shift: nat, acc: uint64): (r: VarintRead)
    ensures r.Read? ==> 0 < r.size <= |s|
    decreases |s|
  {
    if shift >= 64 then Unread(IntOverflow, acc)
    else if |s| == 0 then Unread(UnexpectedEOF, acc)
    else
      var acc' := OrWord(acc, Shl64(s[0] % 0x80, shift));
      if s[0] < 0x80 then Read(acc', 1)
      else
        match ReadFrom(s[1..], shift + 7, acc')
        case Read(value, size) => Read(value, 1 + size)
        case Unread(error, value) => Unread(error, value)
  }

  function ReadVarint(s: seq<byte>): (r: VarintRead)
    ensures r.Read? ==> 0 < r.size <= |s|
  {
    ReadFrom(s, 0, 0)
  }

  /** Bitwise or of two words is a word. */
  function OrWord(a: uint64, b: uint64): uint64 {
    Pow2Of64();
    OrFits(a, b, 64);
    Or(a, b)
  }

  lemma {:induction false} OrFits(a: nat, b: nat, n: nat)
    requires a < Pow2(n) && b < Pow2(n)
    ensures Or(a, b) < Pow2(n)
  {
    if a > 0 && b > 0 {
      OrFits(a / 2, b / 2, n - 1);
    }
  }

  // ----- what a varint means, without any loop -----

  /** The first n bytes of s are one varint: all but the last have the continuation bit. */
  predicate Delimits(s: seq<byte>, n: nat) {
    && 0 < n <= |s|
    && (forall j :: 0 <= j < n - 1 ==> s[j] >= 0x80)
    && s[n - 1] < 0x80
  }

  /** s is exactly one varint of at most ten bytes. */
  predicate IsVarint(s: seq<byte>) {
    |s| <= 10 && Delimits(s, |s|)
  }

  /** The number that 7-bit groups denote, least significant group first. */
  function Base128(s: seq<byte>): nat {
    if |s| == 0 then 0 else s[0] % 0x80 + 0x80 * Base128(s[1..])
  }

  /** The shortest varint for v. */
  function Encode(v: nat): (s: seq<byte>)
    ensures |s| > 0
  {
    if v < 0x80 then [v] else [v % 0x80 + 0x80] + Encode(v / 0x80)
  }

  /** `sovCommon`: the predicted length of the varint of x. */
  function Sov(x: uint64): nat {
    (BitLen(Or(x, 1)) + 6) / 7
  }

  // ----- reading -----

  /** Where the shift loop stops when it is at its k-th group, and with which error. */
  lemma {:induction false} ReadFromStops(s: seq<byte>, k: nat, acc: uint64)
    requires k <= 10
    ensures match ReadFrom(s, 7 * k, acc)
            case Read(_, n) => Delimits(s, n) && k + n <= 10
            case Unread(e, _) =>
              && e == (if k + |s| >= 10 then IntOverflow else UnexpectedEOF)
              && (forall j :: 0 <= j < |s| && k + j < 10 ==> s[j] >= 0x80)
    decreases |s|
  {
    if k < 10 && |s| > 0 && s[0] >= 0x80 {
      assert 7 * k + 7 == 7 * (k + 1);
      ReadFromStops(s[1..], k + 1, OrWord(acc, Shl64(s[0] % 0x80, 7 * k)));
      assert forall j :: 1 <= j < |s| ==> s[j] == s[1..][j - 1];
    }
  }

  /** How many bytes the shift loop looks at, from its k-th group on. */
  function Looked(r: VarintRead, s: seq<byte>, k: nat): nat
    requires k <= 10
  {
    if r.Read? then r.size else if k + |s| >= 10 then 10 - k else |s|
  }

  /** What the shift loop has read when it stops, whether it fails or not: acc, then the groups from position 7 * k
      up. */
  lemma {:induction false} ReadFromValue(s: seq<byte>, k: nat, acc: uint64)
    requires k <= 10 && acc < Pow2(7 * k)
    ensures var r := ReadFrom(s, 7 * k, acc);
            Looked(r, s, k) <= |s| && r.value == (acc + Base128(s[..Looked(r, s, k)]) * Pow2(7 * k)) % TWO_64
    decreases |s|
  {
    hide ReadFrom, Base128, Pow2, Looked, OrWord, Shl64;
    var n := Looked(ReadFrom(s, 7 * k, acc), s, k);
    if k < 10 && |s| > 0 {
      var c, p := s[0] % 0x80, Pow2(7 * k);
      var next := OrWord(acc, Shl64(c, 7 * k));
      OrWordShifted(acc, c, 7 * k);
      ReadFromStep(s, k, acc);
      if s[0] < 0x80 {
        OneGroup(s);
      } else {
        assert 7 * k + 7 == 7 * (k + 1);
        Pow2Plus7(7 * k);
        NextAccBound(acc, c, p);
        ReadFromValue(s[1..], k + 1, next);
        GroupsFrom(s, n);
        Regroup(acc, c, Base128(s[1..][..n - 1]), Base128(s[..n]), p, Pow2(7 * (k + 1)));
      }
    } else {
      NothingRead(s, k, acc);
    }
  }

  lemma OrWordShifted(acc: uint64, c: nat, shift: nat)
    requires shift < 64 && acc < Pow2(shift)
    ensures OrWord(acc, Shl64(c, shift)) == (acc + c * Pow2(shift)) % TWO_64
  {
    hide Or, Shl64;
    OrShifted(acc, c, shift);
  }

  /** One round of the loop. */
  lemma ReadFromStep(s: seq<byte>, k: nat, acc: uint64)
    requires k < 10 && |s| > 0
    ensures var r, next := ReadFrom(s, 7 * k, acc), OrWord(acc, Shl64(s[0] % 0x80, 7 * k));
            if s[0] < 0x80 then Looked(r, s, k) == 1 && r.value == next
            else
              var rest := ReadFrom(s[1..], 7 * (k + 1), next);
              Looked(r, s, k) == 1 + Looked(rest, s[1..], k + 1) && r.value == rest.value
  {
    hide OrWord, Shl64;
    assert 7 * k + 7 == 7 * (k + 1);
  }

  lemma NothingRead(s: seq<byte>, k: nat, acc: uint64)
    requires k == 10 || |s| == 0
    ensures ReadFrom(s, 7 * k, acc) == Unread(if k >= 10 then IntOverflow else UnexpectedEOF, acc)
    ensures k <= 10 ==> Looked(ReadFrom(s, 7 * k, acc), s, k) == 0 && Base128(s[..0]) == 0
  {
  }

  lemma OneGroup(s: seq<byte>)
    requires |s| > 0
    ensures Base128(s[..1]) == s[0] % 0x80
  {
    assert s[..1][1..] == [];
  }

  lemma GroupsFrom(s: seq<byte>, n: nat)
    requires 0 < n <= |s|
    ensures Base128(s[..n]) == s[0] % 0x80 + 0x80 * Base128(s[1..][..n - 1])
  {
    assert s[..n][1..] == s[1..][..n - 1];
  }

  lemma Regroup(acc: nat, c: nat, rest: nat, groups: nat, p: nat, q: nat)
    requires q == 0x80 * p && groups == c + 0x80 * rest
    ensures ((acc + c * p) % TWO_64 + rest * q) % TWO_64 == (acc + groups * p) % TWO_64
  {
    assert (c + 0x80 * rest) * p == c * p + rest * (0x80 * p);
    ModAddLeft(acc + c * p, rest * (0x80 * p));
  }

  lemma ModAddLeft(a: nat, b: nat)
    ensures (a % TWO_64 + b) % TWO_64 == (a + b) % TWO_64
  {
  }

  lemma NextAccBound(acc: nat, c: nat, p: nat)
    requires acc < p && c < 0x80
    ensures (acc + c * p) % TWO_64 < 0x80 * p
  {
    MulAtMost(c + 1, 0x80, p);
    assert (c + 1) * p == c * p + p;
    assert acc + c * p < 0x80 * p;
    assert (acc + c * p) % TWO_64 <= acc + c * p;
  }

  /** A shift loop succeeds exactly on a terminated varint of at most ten bytes, stops right after it, and
      gives the low 64 bits of the number its groups denote. */
  lemma ReadVarintExact(s: seq<byte>, v: uint64, n: nat)
    ensures ReadVarint(s) == Read(v, n) <==> Delimits(s, n) && n <= 10 && v == Base128(s[..n]) % TWO_64
  {
    assert Pow2(0) == 1;
    ReadFromStops(s, 0, 0);
    match ReadVarint(s)
    case Read(_, m) =>
      ReadFromValue(s, 0, 0);
      if Delimits(s, n) {
        DelimitsOnce(s, n, m);
      }
    case Unread(_, _) =>
  }

  lemma DelimitsOnce(s: seq<byte>, m: nat, n: nat)
    requires Delimits(s, m) && Delimits(s, n)
    ensures m == n
  {
  }

  /** When a shift loop fails, it is for want of a final byte: among the first ten bytes it is an overflow, at the
      end of the input an unexpected end. The value it leaves behind is that of the groups it came to. */
  lemma ReadVarintFails(s: seq<byte>)
    ensures ReadVarint(s).Unread? <==> forall j :: 0 <= j < |s| && j < 10 ==> s[j] >= 0x80
    ensures ReadVarint(s).Unread? ==> ReadVarint(s).error == if |s| >= 10 then IntOverflow else UnexpectedEOF
    ensures ReadVarint(s).Unread? ==> ReadVarint(s).value == Base128(if |s| >= 10 then s[..10] else s) % TWO_64
  {
    hide ReadFrom, Base128;
    ReadFromStops(s, 0, 0);
    if ReadVarint(s).Read? {
      assert s[ReadVarint(s).size - 1] < 0x80;
    } else {
      BrokenValue(s);
    }
  }

  lemma BrokenValue(s: seq<byte>)
    requires ReadVarint(s).Unread?
    ensures ReadVarint(s).value == Base128(if |s| >= 10 then s[..10] else s) % TWO_64
  {
    hide ReadFrom, Base128;
    assert Pow2(0) == 1;
    ReadFromValue(s, 0, 0);
    assert s[..|s|] == s;
  }

  /** Bytes after a varint do not affect reading it. */
  lemma ReadVarintLocal(s: seq<byte>, t: seq<byte>)
    requires ReadVarint(s).Read?
    ensures ReadVarint(s + t) == ReadVarint(s)
  {
    var v, n := ReadVarint(s).value, ReadVarint(s).size;
    ReadVarintExact(s, v, n);
    assert (s + t)[..n] == s[..n];
    ReadVarintExact(s + t, v, n);
  }

  // ----- writing -----

  lemma {:induction false} EncodeMeaning(v: nat)
    ensures Base128(Encode(v)) == v
    ensures Delimits(Encode(v), |Encode(v)|)
  {
    if v >= 0x80 {
      EncodeMeaning(v / 0x80);
      assert Encode(v)[1..] == Encode(v / 0x80);
      assert forall j :: 1 <= j < |Encode(v)| ==> Encode(v)[j] == Encode(v / 0x80)[j - 1];
    }
  }

  lemma {:induction false} EncodeLength(v: nat, n: nat)
    requires v < Pow2(7 * n) && n > 0
    ensures |Encode(v)| <= n
  {
    if v >= 0x80 {
      assert Pow2(7) == 0x80;
      assert n > 1;
      assert 7 * n == 7 * (n - 1) + 7;
      Pow2Plus7(7 * (n - 1));
      EncodeLength(v / 0x80, n - 1);
    }
  }

  /** `sovCommon` predicts the written length: the number of 7-bit groups, from 1 to 10. */
  lemma {:induction false} SovIsEncodedLength(v: uint64)
    ensures Sov(v) == |Encode(v)|
    ensures 1 <= Sov(v) <= 10
  {
    Pow2Of64();
    Pow2Add(64, 6);
    assert 7 * 10 == 64 + 6;
    EncodeLength(v, 10);
    SovCountsGroups(v);
  }

  lemma {:induction false} SovCountsGroups(v: nat)
    ensures (BitLen(Or(v, 1)) + 6) / 7 == |Encode(v)|
  {
    OrOne(v);
    if v >= 0x80 {
      OrOne(v / 0x80);
      SovCountsGroups(v / 0x80);
      BitLenShift7(v);
      BitLenOdd(v);
      BitLenOdd(v / 0x80);
    } else {
      SmallBitLen(Or(v, 1));
    }
  }

  lemma BitLenOdd(v: nat)
    requires v > 0
    ensures BitLen(Or(v, 1)) == BitLen(v)
  {
    OrOne(v);
    assert (v + 1 - v % 2) / 2 == v / 2;
  }

  lemma SmallBitLen(x: nat)
    requires 0 < x < 0x80
    ensures 1 <= BitLen(x) <= 7
  {
    BitLenBound(x, 7);
    assert Pow2(7) == 0x80;
  }

  lemma {:induction false} BitLenBound(x: nat, n: nat)
    requires x < Pow2(n)
    ensures BitLen(x) <= n
  {
    if x > 0 {
      BitLenBound(x / 2, n - 1);
    }
  }

  /** Reading what was written gives the word back and stops exactly behind it, whatever follows. */
  lemma VarintRoundTrip(v: uint64, t: seq<byte>)
    ensures ReadVarint(Encode(v) + t) == Read(v, |Encode(v)|)
    ensures IsVarint(Encode(v))
  {
    hide ReadFrom, ReadVarint, Base128, Encode, Sov;
    EncodeMeaning(v);
    SovIsEncodedLength(v);
    var s := Encode(v) + t;
    assert s[..|Encode(v)|] == Encode(v);
    ReadVarintExact(s, v, |Encode(v)|);
  }

  /** A signed field travels as its two's complement word and comes back with its sign. */
  lemma SignedRoundTrip(x: int64, t: seq<byte>)
    ensures ReadVarint(Encode(Uint64(x)) + t) == Read(Uint64(x), |Encode(Uint64(x))|)
    ensures Int64(Uint64(x)) == x
    ensures x < 0 ==> |Encode(Uint64(x))| == 10
  {
    VarintRoundTrip(Uint64(x), t);
    Int64RoundTrip(x, Uint64(x));
    if x < 0 {
      NegativeTakesTen(Uint64(x));
    }
  }

  lemma NegativeTakesTen(u: uint64)
    requires u >= TWO_63
    ensures |Encode(u)| == 10
  {
    SovIsEncodedLength(u);
    EncodeMeaning(u);
    Base128Bound(Encode(u), |Encode(u)|);
    Pow2Of64();
    assert Pow2(64) == 2 * Pow2(63);
    Pow2Grows(7 * |Encode(u)|, 63);
  }

  lemma {:induction false} Pow2Grows(m: nat, n: nat)
    ensures m <= n ==> Pow2(m) <= Pow2(n)
  {
    if m < n {
      Pow2Grows(m, n - 1);
    }
  }

  lemma {:induction false} Base128Bound(s: seq<byte>, n: nat)
    requires |s| <= n
    ensures Base128(s) < Pow2(7 * n)
  {
    if |s| > 0 {
      Base128Bound(s[1..], n - 1);
      assert 7 * n == 7 * (n - 1) + 7;
      Pow2Plus7(7 * (n - 1));
    }
  }

  /** `encodeVarintCommon`: writes the varint of v just below `offset` and returns where it begins. */
  method EncodeVarintCommon(dAtA: array<byte>, offset: int, v: uint64) returns (base: int)
    requires Sov(v) <= offset <= dAtA.Length
    modifies dAtA
    ensures base == offset - Sov(v) && 0 <= base
    ensures dAtA[..] == old(dAtA[..base]) + Encode(v) + old(dAtA[offset..])
  {
    SovIsEncodedLength(v);
    var at, w := offset - Sov(v), v;
    base := at;
    while w >= 0x80
      invariant base <= at && 0 <= w < TWO_64
      invariant at + |Encode(w)| == offset
      invariant Encode(w) == Encode(v)[at - base..]
      invariant forall k :: base <= k < at ==> dAtA[k] == Encode(v)[k - base]
      invariant forall k :: 0 <= k < dAtA.Length && !(base <= k < offset) ==> dAtA[k] == old(dAtA[k])
    {
      OrContinuation(w % 0x80);
      dAtA[at] := Or(w % 0x80, 0x80);
      assert Encode(w)[0] == Encode(v)[at - base];
      assert Encode(w / 0x80) == Encode(w)[1..] == Encode(v)[at + 1 - base..];
      w := w / 0x80;
      at := at + 1;
    }
    assert Encode(w)[0] == Encode(v)[at - base];
    dAtA[at] := w;
  }

  /** The shift loop of every reader, on the bytes from `index` on. */
  method ReadVarintAt(dAtA: seq<byte>, index: int) returns (r: VarintRead, next: int)
    requires 0 <= index <= |dAtA|
    ensures r == ReadVarint(dAtA[index..])
    ensures r.Read? ==> next == index + r.size && next <= |dAtA|
  {
    var value, shift := 0, 0;
    next := index;
    assert dAtA[next..] == dAtA[index..];
    while true
      invariant index <= next <= |dAtA|
      invariant 0 <= value < TWO_64
      invariant 0 <= shift
      invariant ReadVarint(dAtA[index..]) == match ReadFrom(dAtA[next..], shift, value)
                                             case Read(v, n) => Read(v, next - index + n)
                                             case Unread(e, v) => Unread(e, v)
      decreases |dAtA| - next
    {
      if shift >= 64 {
        return Unread(IntOverflow, value), next;
      }
      if next >= |dAtA| {
        return Unread(UnexpectedEOF, value), next;
      }
      var b := dAtA[next];
      assert dAtA[next..][1..] == dAtA[next + 1..];
      next := next + 1;
      value := OrWord(value, Shl64(b % 0x80, shift));
      if b < 0x80 {
        return Read(value, next - index), next;
      }
      shift := shift + 7;
    }
  }
}
