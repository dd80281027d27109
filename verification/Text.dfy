/** Strings as the text formats use them: case, separators, joining and decimal numbers. */
module Text {

  // ----- case -----

  // Four letters outside ASCII have an ASCII letter as the other case, and are treated differently by the functions
  // below. Other letters outside ASCII are taken to have no case.
  const DOTTED_I := '\U{0130}'
  const DOTLESS_I := '\U{0131}'
  const LONG_S := '\U{017F}'
  const KELVIN_SIGN := '\U{212A}'

  /** Upper case of a character. */
  function UpperChar(c: char): char {
    if 'a' <= c <= 'z' then (c as int - 32) as char
    else if c == DOTLESS_I then 'I'
    else if c == LONG_S then 'S'
    else c
  }

  /** Lower case of a character. */
  function LowerChar(c: char): char {
    if 'A' <= c <= 'Z' then (c as int + 32) as char
    else if c == DOTTED_I then 'i'
    else if c == KELVIN_SIGN then 'k'
    else c
  }

  /** What stands for a character and all characters that differ from it in case only. The dotted capital I and the
      dotless i stand alone. */
  function FoldChar(c: char): char {
    if 'a' <= c <= 'z' then (c as int - 32) as char
    else if c == LONG_S then 'S'
    else if c == KELVIN_SIGN then 'K'
    else c
  }

  function Upper(s: string): (u: string)
    ensures |u| == |s|
    ensures forall k :: 0 <= k < |s| ==> u[k] == UpperChar(s[k])
  {
    seq(|s|, k requires 0 <= k < |s| => UpperChar(s[k]))
  }

  function Lower(s: string): (u: string)
    ensures |u| == |s|
    ensures forall k :: 0 <= k < |s| ==> u[k] == LowerChar(s[k])
  {
    seq(|s|, k requires 0 <= k < |s| => LowerChar(s[k]))
  }

  function Fold(s: string): (f: string)
    ensures |f| == |s|
    ensures forall k :: 0 <= k < |s| ==> f[k] == FoldChar(s[k])
  {
    seq(|s|, k requires 0 <= k < |s| => FoldChar(s[k]))
  }

  /** `strings.EqualFold`. */
  predicate EqualFold(s: string, t: string) {
    Fold(s) == Fold(t)
  }

  /** Equality of names that are put in upper case before they are compared. */
  predicate SameName(s: string, t: string) {
    EqualFold(Upper(s), Upper(t))
  }

  predicate IsUpper(s: string) {
    Upper(s) == s
  }

  lemma UpperIdempotent(s: string)
    ensures IsUpper(Upper(s))
  {
  }

  lemma FoldIdempotent(s: string)
    ensures Fold(Fold(s)) == Fold(s)
  {
  }

  /** Upper case keeps a string equal to itself under folding exactly when it has no dotless i. */
  lemma UpperFolds(s: string)
    ensures EqualFold(Upper(s), s) <==> Lacks(s, DOTLESS_I)
  {
    if Lacks(s, DOTLESS_I) {
      assert forall k :: 0 <= k < |s| ==> s[k] != DOTLESS_I;
    } else {
      var k :| 0 <= k < |s| && s[k] == DOTLESS_I;
      assert Fold(Upper(s))[k] != Fold(s)[k];
    }
  }

  lemma UpperLacksDotlessI(s: string)
    ensures Lacks(Upper(s), DOTLESS_I)
  {
    forall k | 0 <= k < |s| ensures Upper(s)[k] != DOTLESS_I {
    }
  }

  /** Names that compare equal have the same upper case, unless a Kelvin sign stands for a K. */
  lemma SameNameUpper(s: string, t: string)
    requires Lacks(s, KELVIN_SIGN) && Lacks(t, KELVIN_SIGN)
    ensures SameName(s, t) <==> Upper(s) == Upper(t)
  {
    if SameName(s, t) {
      var u, v := Upper(s), Upper(t);
      forall k | 0 <= k < |s| ensures u[k] == v[k] {
        assert Fold(u)[k] == Fold(v)[k];
        assert s[k] in s && t[k] in t;
      }
    }
  }

  lemma UpperAsciiFolds(s: string)
    requires IsUpper(s) && IsAscii(s)
    ensures Fold(s) == s
  {
    assert forall k :: 0 <= k < |s| ==> UpperChar(s[k]) == s[k];
  }

  predicate IsAscii(s: string) {
    forall k :: 0 <= k < |s| ==> s[k] < 128 as char
  }

  lemma LowerThenUpper(s: string)
    requires IsUpper(s) && IsAscii(s)
    ensures Upper(Lower(s)) == s
  {
    assert forall k :: 0 <= k < |s| ==> UpperChar(s[k]) == s[k];
  }

  /** On ASCII text, equality but for case: characters are the same, or the two cases of one letter. */
  lemma EqualFoldAscii(s: string, t: string)
    requires IsAscii(s) && IsAscii(t)
    ensures EqualFold(s, t)
       <==> |s| == |t| && forall k :: 0 <= k < |s| ==> s[k] == t[k] || TwoCases(s[k], t[k]) || TwoCases(t[k], s[k])
  {
    if EqualFold(s, t) {
      forall k | 0 <= k < |s| ensures s[k] == t[k] || TwoCases(s[k], t[k]) || TwoCases(t[k], s[k]) {
        assert Fold(s)[k] == Fold(t)[k];
      }
    }
  }

  predicate TwoCases(upper: char, lower: char) {
    'A' <= upper <= 'Z' && lower as int == upper as int + 32
  }

  /** On ASCII text, upper case replaces the small letters, and nothing else. */
  lemma UpperAscii(s: string, k: nat)
    requires IsAscii(s) && k < |s|
    ensures if 'a' <= s[k] <= 'z' then TwoCases(Upper(s)[k], s[k]) else Upper(s)[k] == s[k]
  {
  }

  lemma CaseExamples()
    ensures Upper("aZ-9z[`{@") == "AZ-9Z[`{@" && Lower("aZ-9z[`{@A") == "az-9z[`{@a"
    ensures Upper([DOTLESS_I, LONG_S, KELVIN_SIGN]) == ['I', 'S', KELVIN_SIGN]
    ensures Lower([DOTTED_I, KELVIN_SIGN, LONG_S]) == ['i', 'k', LONG_S]
    ensures EqualFold([KELVIN_SIGN, LONG_S], "ks") && !EqualFold([DOTLESS_I], "i") && !EqualFold([DOTTED_I], "i")
    ensures SameName([DOTLESS_I], "i") && !SameName([KELVIN_SIGN], "I")
  {
    assert Fold([KELVIN_SIGN, LONG_S]) == "KS" == Fold("ks");
    assert Fold([DOTLESS_I])[0] != Fold("i")[0] && Fold([DOTTED_I])[0] != Fold("i")[0];
    assert Upper([DOTLESS_I]) == "I" == Upper("i") == Upper("I");
    assert Fold(Upper([KELVIN_SIGN]))[0] != Fold(Upper("I"))[0];
  }

  // ----- bytes -----

  /** How many bytes UTF-8 takes for a character. */
  function Width(c: char): nat {
    if c < 0x80 as char then 1 else if c < 0x800 as char then 2 else if c <= '\U{FFFF}' then 3 else 4
  }

  /** `len(s)`: the length in bytes. */
  function ByteLen(s: string): nat {
    if |s| == 0 then 0 else Width(s[0]) + ByteLen(s[1..])
  }

  lemma {:induction false} ByteLenAscii(s: string)
    requires IsAscii(s)
    ensures ByteLen(s) == |s|
  {
    if |s| > 0 {
      ByteLenAscii(s[1..]);
    }
  }

  lemma {:induction false} ByteLenConcat(s: string, t: string)
    ensures ByteLen(s + t) == ByteLen(s) + ByteLen(t)
  {
    if |s| == 0 {
      assert s + t == t;
    } else {
      assert (s + t)[1..] == s[1..] + t;
      ByteLenConcat(s[1..], t);
    }
  }

  /** The first and last character of each width. */
  lemma WidthExamples()
    ensures ByteLen(['\U{0}', '\U{7F}']) == 2 && ByteLen(['\U{80}', '\U{7FF}']) == 4
    ensures ByteLen(['\U{800}', '\U{FFFF}']) == 6 && ByteLen(['\U{10000}', '\U{10FFFF}']) == 8
  {
  }

  // ----- separators -----

  /** The index of the first character of s that is one of `seps`, or |s|. */
  function FirstOf(s: string, seps: set<char>): (i: nat)
    ensures i <= |s|
    ensures forall k :: 0 <= k < i ==> s[k] !in seps
    ensures i < |s| ==> s[i] in seps
  {
    if |s| == 0 || s[0] in seps then 0 else 1 + FirstOf(s[1..], seps)
  }

  lemma FirstOfIs(s: string, seps: set<char>, i: nat)
    requires i <= |s|
    requires forall k :: 0 <= k < i ==> s[k] !in seps
    requires i < |s| ==> s[i] in seps
    ensures FirstOf(s, seps) == i
  {
  }

  predicate Lacks(s: string, c: char) {
    c !in s
  }

  /** `strings.Join`. */
  function Join(parts: seq<string>, sep: string): string {
    if |parts| == 0 then ""
    else if |parts| == 1 then parts[0]
    else parts[0] + sep + Join(parts[1..], sep)
  }

  predicate AllLack(parts: seq<string>, c: char) {
    forall k :: 0 <= k < |parts| ==> Lacks(parts[k], c)
  }

  lemma CutUnique(a: string, x: string, b: string, y: string, c: char)
    requires Lacks(a, c) && Lacks(b, c)
    requires a + [c] + x == b + [c] + y
    ensures a == b && x == y
  {
    var s := a + [c] + x;
    FirstOfIs(s, {c}, |a|);
    assert s == b + [c] + y;
    FirstOfIs(s, {c}, |b|);
    assert a == s[..|a|] && b == s[..|a|];
    assert x == s[|a| + 1..] && y == s[|a| + 1..];
  }

  lemma CutLastUnique(a: string, x: string, b: string, y: string, c: char)
    requires Lacks(x, c) && Lacks(y, c)
    requires a + [c] + x == b + [c] + y
    ensures a == b && x == y
  {
    var s, t := a + [c] + x, b + [c] + y;
    assert s[|a|] == c && t[|b|] == c;
    assert forall k :: |a| < k < |s| ==> s[k] == x[k - |a| - 1];
    assert forall k :: |b| < k < |t| ==> t[k] == y[k - |b| - 1];
    assert a == s[..|a|] && b == t[..|a|];
    assert x == s[|a| + 1..] && y == t[|a| + 1..];
  }

  /** Joining is injective when no part contains the character that begins the separator. */
  lemma {:induction false} JoinUnique(xs: seq<string>, ys: seq<string>, sep: string)
    requires |sep| > 0 && AllLack(xs, sep[0]) && AllLack(ys, sep[0])
    requires |xs| > 0 && |ys| > 0
    requires Join(xs, sep) == Join(ys, sep)
    ensures xs == ys
  {
    var c := sep[0];
    if |xs| == 1 && |ys| == 1 {
      assert xs == [xs[0]] && ys == [ys[0]];
    } else if |xs| == 1 {
      JoinHas(ys, sep);
    } else if |ys| == 1 {
      JoinHas(xs, sep);
    } else {
      var x, y := Join(xs[1..], sep), Join(ys[1..], sep);
      assert xs[0] + sep + x == xs[0] + [c] + (sep[1..] + x);
      assert ys[0] + sep + y == ys[0] + [c] + (sep[1..] + y);
      CutUnique(xs[0], sep[1..] + x, ys[0], sep[1..] + y, c);
      assert x == (sep[1..] + x)[|sep| - 1..] && y == (sep[1..] + y)[|sep| - 1..];
      JoinUnique(xs[1..], ys[1..], sep);
      assert xs == [xs[0]] + xs[1..] && ys == [ys[0]] + ys[1..];
    }
  }

  lemma JoinHas(xs: seq<string>, sep: string)
    requires |sep| > 0 && |xs| > 1
    ensures sep[0] in Join(xs, sep)
  {
    assert Join(xs, sep)[|xs[0]|] == sep[0];
  }

  lemma {:induction false} JoinLacks(xs: seq<string>, sep: string, c: char)
    requires AllLack(xs, c) && Lacks(sep, c)
    ensures Lacks(Join(xs, sep), c)
  {
    if |xs| > 1 {
      JoinLacks(xs[1..], sep, c);
    }
  }

  // ----- decimal numbers -----

  function Digit(d: nat): char
    requires d < 10
  {
    (d + '0' as int) as char
  }

  predicate IsDigit(c: char) {
    '0' <= c <= '9'
  }

  /** A natural number in decimal, without leading zeros. */
  function Decimal(n: nat): (s: string)
    ensures |s| > 0
    ensures forall k :: 0 <= k < |s| ==> IsDigit(s[k])
  {
    if n < 10 then [Digit(n)] else Decimal(n / 10) + [Digit(n % 10)]
  }

  /** `%d`. */
  function SignedDecimal(n: int): string {
    if n < 0 then "-" + Decimal(-n) else Decimal(n)
  }

  function DecimalValue(s: string): nat
    requires forall k :: 0 <= k < |s| ==> IsDigit(s[k])
  {
    if |s| == 0 then 0
    else
      assert IsDigit(s[|s| - 1]);
      DecimalValue(s[..|s| - 1]) * 10 + (s[|s| - 1] as int - '0' as int)
  }

  lemma {:induction false} DecimalRoundTrip(n: nat)
    ensures DecimalValue(Decimal(n)) == n
  {
    var s := Decimal(n);
    if n >= 10 {
      assert s[..|s| - 1] == Decimal(n / 10);
      DecimalRoundTrip(n / 10);
    } else {
      assert s[..0] == [];
    }
  }

  /** A number other than zero does not begin with a zero. */
  lemma {:induction false} DecimalCanonical(n: nat)
    ensures n > 0 ==> Decimal(n)[0] != '0'
  {
    if n >= 10 {
      DecimalCanonical(n / 10);
    }
  }

  /** So it is the only text of digits without a leading zero that has the value. */
  lemma DecimalUnique(s: string, n: nat)
    requires AllDigits(s)
    ensures s == Decimal(n) <==> DecimalValue(s) == n && (s[0] == '0' ==> |s| == 1)
  {
    hide DecimalValue;
    DecimalRoundTrip(n);
    DecimalCanonical(n);
    if DecimalValue(s) == n && (s[0] == '0' ==> |s| == 1) {
      ReadBack(s);
    }
  }

  predicate AllDigits(s: string) {
    |s| > 0 && forall k :: 0 <= k < |s| ==> IsDigit(s[k])
  }

  lemma {:induction false} ReadBack(s: string)
    requires AllDigits(s) && (s[0] == '0' ==> |s| == 1)
    ensures Decimal(DecimalValue(s)) == s
  {
    var front, last := s[..|s| - 1], s[|s| - 1];
    assert s == front + [last];
    if |s| == 1 {
      assert front == [];
    } else {
      PositiveValue(front);
      ReadBack(front);
      LastDigit(DecimalValue(front), last);
    }
  }

  lemma LastDigit(q: nat, c: char)
    requires q > 0 && IsDigit(c)
    ensures var n := q * 10 + (c as int - '0' as int); Decimal(n) == Decimal(q) + [c]
  {
  }

  lemma {:induction false} PositiveValue(s: string)
    requires AllDigits(s) && s[0] != '0'
    ensures DecimalValue(s) > 0
  {
    if |s| > 1 {
      PositiveValue(s[..|s| - 1]);
    } else {
      assert s[..0] == [];
    }
  }

  lemma DecimalExamples()
    ensures Decimal(0) == "0" && Decimal(1203) == "1203"
    ensures SignedDecimal(-50) == "-50" && SignedDecimal(50) == "50"
  {
    assert Decimal(1) == "1" && Decimal(12) == "12" && Decimal(120) == "120" && Decimal(5) == "5";
  }

  lemma SignedDecimalUnique(m: int, n: int)
    ensures SignedDecimal(m) == SignedDecimal(n) <==> m == n
  {
    var s, t := SignedDecimal(m), SignedDecimal(n);
    DecimalRoundTrip(if m < 0 then -m else m);
    DecimalRoundTrip(if n < 0 then -n else n);
    assert IsDigit(s[0]) <==> m >= 0;
    assert IsDigit(t[0]) <==> n >= 0;
    if s == t && m < 0 {
      assert s[1..] == Decimal(-m) && t[1..] == Decimal(-n);
    }
  }
}
