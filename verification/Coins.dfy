/** Bags of coins: adding, saturating subtraction, and equality by sorting both lists on the asset's text form. */
module Coins {
  import opened Machine
  import opened Assets
  import opened Selections

  datatype Coin = Coin(asset: Asset, amount: nat, decimals: int64)

  predicate Same(a: Coin, b: Coin) {
    Assets.Equals(a.asset, b.asset) && a.amount == b.amount
  }

  /** The coins' assets come from the parser. */
  predicate AllParsed(cs: seq<Coin>) {
    forall k :: 0 <= k < |cs| ==> IsParsed(cs[k].asset)
  }

  /** Coins of parsed assets are equal exactly when asset and amount are the same, whatever their decimals. */
  lemma SameOnParsed(c: Coin, d: Coin)
    requires IsParsed(c.asset) && IsParsed(d.asset)
    ensures Same(c, d) <==> c.asset == d.asset && c.amount == d.amount
  {
    hide IsParsed;
    EqualsOnParsed(c.asset, d.asset);
  }

  predicate IsSpace(c: char) {
    || '\t' <= c <= '\r' || c == ' ' || c == '\U{0085}' || c == '\U{00A0}' || c == '\U{1680}'
    || '\U{2000}' <= c <= '\U{200A}' || c == '\U{2028}' || c == '\U{2029}' || c == '\U{202F}' || c == '\U{205F}'
    || c == '\U{3000}'
  }

  /** `strings.TrimSpace(s) == ""`. */
  predicate IsAllSpace(s: string) {
    forall k :: 0 <= k < |s| ==> IsSpace(s[k])
  }

  predicate IsEmpty(c: Coin) {
    IsAllSpace(c.asset.chain) || IsAllSpace(c.asset.symbol) || IsAllSpace(c.asset.ticker) || c.amount == 0
  }

  function SafeSub(a: nat, b: nat): (r: nat)
    ensures if a < b then r == 0 else r + b == a
  {
    if b > a then 0 else a - b
  }

  // ----- add and subtract, one coin at a time -----

  predicate Matches(c: Coin, d: Coin) {
    Assets.Equals(c.asset, d.asset)
  }

  /** c goes into the first coin of its asset, or to the end. */
  function AddOne(cs: seq<Coin>, c: Coin): seq<Coin> {
    if |cs| == 0 then [c]
    else if Matches(cs[0], c) then [cs[0].(amount := cs[0].amount + c.amount)] + cs[1..]
    else [cs[0]] + AddOne(cs[1..], c)
  }

  function AddAll(cs: seq<Coin>, added: seq<Coin>): seq<Coin>
    decreases |added|
  {
    if |added| == 0 then cs else AddAll(AddOne(cs, added[0]), added[1..])
  }

  function SubOne(cs: seq<Coin>, c: Coin): seq<Coin> {
    if |cs| == 0 then []
    else if Matches(cs[0], c) then [cs[0].(amount := SafeSub(cs[0].amount, c.amount))] + cs[1..]
    else [cs[0]] + SubOne(cs[1..], c)
  }

  function SubAll(cs: seq<Coin>, subtracted: seq<Coin>): seq<Coin>
    decreases |subtracted|
  {
    if |subtracted| == 0 then cs else SubAll(SubOne(cs, subtracted[0]), subtracted[1..])
  }

  method Add(oldCoins: seq<Coin>, addCoins: seq<Coin>) returns (newCoins: seq<Coin>)
    ensures newCoins == AddAll(oldCoins, addCoins)
  {
    hide AddOne, Matches;
    newCoins := oldCoins;
    var i := 0;
    while i < |addCoins|
      invariant 0 <= i <= |addCoins|
      invariant AddAll(oldCoins, addCoins) == AddAll(newCoins, addCoins[i..])
    {
      assert addCoins[i..][0] == addCoins[i] && addCoins[i..][1..] == addCoins[i + 1..];
      newCoins := AddCoin(newCoins, addCoins[i]);
      i := i + 1;
    }
  }

  /** The inner loop of Add. */
  method AddCoin(coins: seq<Coin>, c: Coin) returns (newCoins: seq<Coin>)
    ensures newCoins == AddOne(coins, c)
  {
    hide Matches;
    newCoins := coins;
    var j := 0;
    while j < |newCoins|
      invariant 0 <= j <= |newCoins|
      invariant AddOne(coins, c) == coins[..j] + AddOne(coins[j..], c)
    {
      assert coins[j..][0] == coins[j] && coins[j..][1..] == coins[j + 1..];
      if Matches(newCoins[j], c) {
        newCoins := newCoins[j := newCoins[j].(amount := newCoins[j].amount + c.amount)];
        assert newCoins == coins[..j] + [newCoins[j]] + coins[j + 1..];
        return;
      }
      assert coins[..j] + [coins[j]] == coins[..j + 1];
      j := j + 1;
    }
    newCoins := newCoins + [c];
  }

  method SafeSubtract(oldCoins: seq<Coin>, subCoins: seq<Coin>) returns (newCoins: seq<Coin>)
    ensures newCoins == SubAll(oldCoins, subCoins)
  {
    hide SubOne, Matches;
    newCoins := oldCoins;
    var i := 0;
    while i < |subCoins|
      invariant 0 <= i <= |subCoins|
      invariant SubAll(oldCoins, subCoins) == SubAll(newCoins, subCoins[i..])
    {
      assert subCoins[i..][0] == subCoins[i] && subCoins[i..][1..] == subCoins[i + 1..];
      newCoins := SubtractCoin(newCoins, subCoins[i]);
      i := i + 1;
    }
  }

  /** The inner loop of SafeSub. */
  method SubtractCoin(coins: seq<Coin>, c: Coin) returns (newCoins: seq<Coin>)
    ensures newCoins == SubOne(coins, c)
  {
    hide Matches;
    newCoins := coins;
    var j := 0;
    while j < |newCoins|
      invariant 0 <= j <= |newCoins|
      invariant SubOne(coins, c) == coins[..j] + SubOne(coins[j..], c)
    {
      assert coins[j..][0] == coins[j] && coins[j..][1..] == coins[j + 1..];
      if Matches(newCoins[j], c) {
        newCoins := newCoins[j := newCoins[j].(amount := SafeSub(newCoins[j].amount, c.amount))];
        assert newCoins == coins[..j] + [newCoins[j]] + coins[j + 1..];
        return;
      }
      assert coins[..j] + [coins[j]] == coins[..j + 1];
      j := j + 1;
    }
  }

  function Kept(cs: seq<Coin>): seq<Coin> {
    if |cs| == 0 then [] else (if IsEmpty(cs[0]) then [] else [cs[0]]) + Kept(cs[1..])
  }

  method NoneEmpty(cs: seq<Coin>) returns (newCoins: seq<Coin>)
    ensures newCoins == Kept(cs)
  {
    hide IsEmpty;
    newCoins := [];
    var i := 0;
    while i < |cs|
      invariant 0 <= i <= |cs|
      invariant newCoins + Kept(cs[i..]) == Kept(cs)
    {
      assert cs[i..][0] == cs[i] && cs[i..][1..] == cs[i + 1..];
      if !IsEmpty(cs[i]) {
        newCoins := newCoins + [cs[i]];
      }
      i := i + 1;
    }
  }

  // ----- what they amount to -----

  /** The sum over all coins of the asset, however often it is listed. */
  function Total(cs: seq<Coin>, a: Asset): nat {
    if |cs| == 0 then 0
    else (if Assets.Equals(cs[0].asset, a) then cs[0].amount else 0) + Total(cs[1..], a)
  }

  /** Whether the j-th coin is the first of its asset. */
  predicate IsFirst(cs: seq<Coin>, j: nat)
    requires j < |cs|
  {
    forall i :: 0 <= i < j ==> !Matches(cs[i], cs[j])
  }

  lemma {:induction false} AddOneAt(cs: seq<Coin>, c: Coin, j: nat)
    requires j < |cs|
    ensures j < |AddOne(cs, c)|
    ensures AddOne(cs, c)[j] == if Matches(cs[j], c) && IsFirst(cs, j)
                                then cs[j].(amount := cs[j].amount + c.amount) else cs[j]
  {
    hide Assets.Equals;
    if !Matches(cs[0], c) && j > 0 {
      AddOneAt(cs[1..], c, j - 1);
      FirstInTail(cs, c, j);
    } else if j > 0 {
      MatchesClass(cs[0], cs[j], c);
    }
  }

  lemma MatchesClass(a: Coin, b: Coin, c: Coin)
    requires Matches(a, c)
    ensures Matches(a, b) <==> Matches(b, c)
  {
  }

  /** Behind a head of another asset, being the first of c's asset does not depend on the head. */
  lemma FirstInTail(cs: seq<Coin>, c: Coin, j: nat)
    requires 0 < j < |cs| && !Matches(cs[0], c)
    ensures Matches(cs[j], c) ==> (IsFirst(cs, j) <==> IsFirst(cs[1..], j - 1))
  {
    if Matches(cs[j], c) {
      assert !Matches(cs[0], cs[j]);
      assert forall i :: 1 <= i < j ==> cs[i] == cs[1..][i - 1];
      assert forall i :: 0 <= i < j - 1 ==> cs[1..][i] == cs[i + 1];
    }
  }

  lemma {:induction false} AddOneLength(cs: seq<Coin>, c: Coin)
    ensures |AddOne(cs, c)| == |cs| <==> exists j :: 0 <= j < |cs| && Matches(cs[j], c)
    ensures |AddOne(cs, c)| == |cs| || (|AddOne(cs, c)| == |cs| + 1 && AddOne(cs, c)[|cs|] == c)
  {
    hide Assets.Equals;
    if |cs| > 0 && !Matches(cs[0], c) {
      AddOneLength(cs[1..], c);
      assert forall j :: 1 <= j < |cs| ==> cs[j] == cs[1..][j - 1];
      if j :| 0 <= j < |cs[1..]| && Matches(cs[1..][j], c) {
        assert Matches(cs[j + 1], c);
      }
    }
  }

  lemma {:induction false} SubOneAt(cs: seq<Coin>, c: Coin, j: nat)
    requires j < |cs|
    ensures |SubOne(cs, c)| == |cs|
    ensures SubOne(cs, c)[j] == if Matches(cs[j], c) && IsFirst(cs, j)
                                then cs[j].(amount := SafeSub(cs[j].amount, c.amount)) else cs[j]
  {
    hide Assets.Equals;
    if !Matches(cs[0], c) && |cs| > 1 {
      SubOneAt(cs[1..], c, if j > 0 then j - 1 else 0);
      if j > 0 {
        FirstInTail(cs, c, j);
      }
    } else if j > 0 {
      MatchesClass(cs[0], cs[j], c);
    }
  }

  predicate SameAssets(cs: seq<Coin>, ds: seq<Coin>) {
    |cs| <= |ds| && forall k :: 0 <= k < |cs| ==> cs[k].asset == ds[k].asset
  }

  lemma FirstSameAssets(cs: seq<Coin>, ds: seq<Coin>, j: nat)
    requires SameAssets(cs, ds) && j < |cs|
    ensures IsFirst(cs, j) <==> IsFirst(ds, j)
  {
    assert forall i :: 0 <= i < j ==> (Matches(cs[i], cs[j]) <==> Matches(ds[i], ds[j]));
  }

  /** Any series of subtractions is, for the first coin of each asset, one saturating subtraction of their sum;
      every other coin stays as it is. */
  lemma {:induction false} SubAllAt(cs: seq<Coin>, subtracted: seq<Coin>, j: nat)
    requires j < |cs|
    ensures |SubAll(cs, subtracted)| == |cs|
    ensures SubAll(cs, subtracted)[j]
         == if IsFirst(cs, j) then cs[j].(amount := SafeSub(cs[j].amount, Total(subtracted, cs[j].asset))) else cs[j]
    decreases |subtracted|
  {
    hide Assets.Equals, SubOne;
    if |subtracted| > 0 {
      var c, next := subtracted[0], SubOne(cs, subtracted[0]);
      forall k | 0 <= k < |cs| ensures |next| == |cs| && next[k].asset == cs[k].asset {
        SubOneAt(cs, c, k);
      }
      SubOneAt(cs, c, j);
      FirstSameAssets(cs, next, j);
      SubAllAt(next, subtracted[1..], j);
      EqualsSymmetric(cs[j].asset, c.asset);
    }
  }

  lemma EqualsSymmetric(a: Asset, b: Asset)
    ensures Assets.Equals(a, b) <==> Assets.Equals(b, a)
  {
  }

  /** Where the amounts of a series of additions end up: all of an asset's in its first coin. */
  lemma {:induction false} AddAllAt(cs: seq<Coin>, added: seq<Coin>, j: nat)
    requires j < |AddAll(cs, added)|
    ensures SameAssets(cs, AddAll(cs, added))
    ensures var c := AddAll(cs, added)[j];
            if j >= |cs| then IsFirst(AddAll(cs, added), j) && c.amount == Total(added, c.asset)
            else if IsFirst(cs, j) then c == cs[j].(amount := cs[j].amount + Total(added, cs[j].asset))
            else c == cs[j]
    decreases |added|
  {
    hide Assets.Equals, AddOne, IsFirst;
    if |added| > 0 {
      var c, next := added[0], AddOne(cs, added[0]);
      AddOneLength(cs, c);
      forall k | 0 <= k < |cs| ensures next[k].asset == cs[k].asset {
        AddOneAt(cs, c, k);
      }
      AddAllAt(next, added[1..], j);
      if j < |cs| {
        AddOneAt(cs, c, j);
        FirstSameAssets(cs, next, j);
        EqualsSymmetric(cs[j].asset, c.asset);
      } else {
        AppendedAt(cs, added, j);
      }
    }
  }

  lemma AppendedAt(cs: seq<Coin>, added: seq<Coin>, j: nat)
    requires |added| > 0 && |cs| <= j < |AddAll(cs, added)|
    requires var next, all := AddOne(cs, added[0]), AddAll(cs, added);
             && SameAssets(next, all) && SameAssets(cs, next)
             && (j < |next| ==> all[j] == if IsFirst(next, j)
                  then next[j].(amount := next[j].amount + Total(added[1..], next[j].asset)) else next[j])
             && (j >= |next| ==> IsFirst(all, j) && all[j].amount == Total(added[1..], all[j].asset))
    ensures IsFirst(AddAll(cs, added), j)
    ensures AddAll(cs, added)[j].amount == Total(added, AddAll(cs, added)[j].asset)
  {
    hide Assets.Equals, AddOne, AddAll;
    var c, next, all := added[0], AddOne(cs, added[0]), AddAll(cs, added);
    AddOneLength(cs, c);
    if j < |next| {
      assert next[j] == c;
      EqualsReflexive(c.asset);
      assert IsFirst(next, j) by {
        forall i | 0 <= i < j ensures !Matches(next[i], next[j]) {
          assert !Matches(cs[i], c);
        }
      }
      FirstSameAssets(next, all, j);
    } else {
      assert !Assets.Equals(c.asset, all[j].asset) by {
        if |next| == |cs| {
          var i :| 0 <= i < |cs| && Matches(cs[i], c);
          MatchesClass(cs[i], all[j], c);
          EqualsSymmetric(c.asset, all[j].asset);
          assert !Matches(all[i], all[j]);
        } else {
          assert !Matches(all[|cs|], all[j]);
        }
      }
    }
  }

  lemma EqualsReflexive(a: Asset)
    ensures Assets.Equals(a, a)
  {
  }

  /** Adding conserves every asset's total, duplicates or not. */
  lemma {:induction false} AddConserves(cs: seq<Coin>, added: seq<Coin>, a: Asset)
    ensures Total(AddAll(cs, added), a) == Total(cs, a) + Total(added, a)
    decreases |added|
  {
    hide Assets.Equals, AddOne;
    if |added| > 0 {
      AddOneConserves(cs, added[0], a);
      AddConserves(AddOne(cs, added[0]), added[1..], a);
    }
  }

  lemma {:induction false} AddOneConserves(cs: seq<Coin>, c: Coin, a: Asset)
    ensures Total(AddOne(cs, c), a) == Total(cs, a) + if Assets.Equals(c.asset, a) then c.amount else 0
  {
    hide Assets.Equals;
    if |cs| == 0 {
      assert [c][1..] == [];
    } else if Matches(cs[0], c) {
      MatchesAsset(cs[0], c, a);
    } else {
      AddOneConserves(cs[1..], c, a);
    }
  }

  lemma MatchesAsset(c: Coin, d: Coin, a: Asset)
    requires Matches(c, d)
    ensures Assets.Equals(c.asset, a) <==> Assets.Equals(d.asset, a)
  {
  }

  /** Subtracting what was added gives the old list back, followed only by coins of amount zero. */
  lemma AddThenSubtract(coins: seq<Coin>, cs: seq<Coin>)
    ensures var r := SubAll(AddAll(coins, cs), cs);
            |coins| <= |r| && r[..|coins|] == coins && forall j :: |coins| <= j < |r| ==> r[j].amount == 0
    ensures Kept(SubAll(AddAll(coins, cs), cs)) == Kept(coins)
  {
    hide Assets.Equals, AddAll, SubAll, IsEmpty, Total;
    var all := AddAll(coins, cs);
    var r := SubAll(all, cs);
    AddAllLength(coins, cs);
    SubAllLength(all, cs);
    forall j | 0 <= j < |all|
      ensures if j < |coins| then r[j] == coins[j] else r[j].amount == 0
    {
      AddAllAt(coins, cs, j);
      SubAllAt(all, cs, j);
      if j < |coins| {
        FirstSameAssets(coins, all, j);
      }
    }
    assert r == coins + r[|coins|..];
    KeptZeros(coins, r[|coins|..]);
  }

  lemma {:induction false} AddAllLength(cs: seq<Coin>, added: seq<Coin>)
    ensures |cs| <= |AddAll(cs, added)|
    decreases |added|
  {
    hide AddOne;
    if |added| > 0 {
      AddOneLength(cs, added[0]);
      AddAllLength(AddOne(cs, added[0]), added[1..]);
    }
  }

  lemma {:induction false} SubAllLength(cs: seq<Coin>, subtracted: seq<Coin>)
    ensures |SubAll(cs, subtracted)| == |cs|
    decreases |subtracted|
  {
    hide SubOne;
    if |cs| > 0 {
      SubAllAt(cs, subtracted, 0);
    } else if |subtracted| > 0 {
      assert SubOne([], subtracted[0]) == [] by { SubNothing(subtracted[0]); }
      SubAllLength([], subtracted[1..]);
    }
  }

  lemma SubNothing(c: Coin)
    ensures SubOne([], c) == []
  {
  }

  lemma {:induction false} KeptZeros(cs: seq<Coin>, zeros: seq<Coin>)
    requires forall j :: 0 <= j < |zeros| ==> zeros[j].amount == 0
    ensures Kept(cs + zeros) == Kept(cs)
    decreases |cs| + |zeros|
  {
    hide IsAllSpace;
    if |cs| > 0 {
      assert (cs + zeros)[1..] == cs[1..] + zeros;
      KeptZeros(cs[1..], zeros);
    } else if |zeros| > 0 {
      assert cs + zeros == zeros && [] + zeros[1..] == zeros[1..];
      KeptZeros([], zeros[1..]);
    } else {
      assert cs + zeros == [];
    }
  }

  // ----- which coins are kept, and which are new -----

  lemma SpaceExamples()
    ensures IsAllSpace("") && IsAllSpace(" \t\n\r\U{0085}\U{00A0}\U{2003}\U{3000}") && !IsAllSpace(" a ")
    ensures !IsAllSpace("\U{200B}")
  {
    assert !IsSpace(" a "[1]) && !IsSpace("\U{200B}"[0]);
  }

  /** A coin of a parsed asset is empty only for its amount; a blank chain, symbol or ticker makes any coin empty. */
  lemma EmptyExactly(c: Coin)
    ensures c.amount == 0 ==> IsEmpty(c)
    ensures c.asset.chain == " " || c.asset.symbol == " " || c.asset.ticker == " " ==> IsEmpty(c)
    ensures IsParsed(c.asset) ==> (IsEmpty(c) <==> c.amount == 0)
  {
    var a := c.asset;
    if IsParsed(a) {
      assert !IsSpace(a.chain[0]) && !IsSpace(a.symbol[0]) && !IsSpace(a.ticker[0]);
    }
  }

  /** What is left are the coins that are not empty, in their order. */
  lemma {:induction false} KeptExactly(cs: seq<Coin>) returns (at: seq<nat>)
    ensures Increasing(at) && forall k: nat :: k in at <==> k < |cs| && !IsEmpty(cs[k])
    ensures Within(at, |cs|) && Kept(cs) == Picked(cs, at)
  {
    hide IsEmpty;
    if |cs| == 0 {
      at := [];
    } else {
      var rest := KeptExactly(cs[1..]);
      var head := !IsEmpty(cs[0]);
      at := Shift(rest, head);
      ShiftPicks(cs, rest, head);
      forall k: nat ensures k in at <==> k < |cs| && !IsEmpty(cs[k]) {
        ShiftHas(rest, head, k);
        assert 0 < k < |cs| ==> cs[1..][k - 1] == cs[k];
      }
    }
  }

  /** The k-th added coin has an asset that is neither in the list nor added before it. */
  predicate IsNew(cs: seq<Coin>, added: seq<Coin>, k: nat) {
    && k < |added| && (forall i :: 0 <= i < |cs| ==> !Matches(cs[i], added[k])) && IsFirst(added, k)
  }

  /** The coins that adding appends are the new ones, in their order, with their own spelling and decimals. */
  lemma {:induction false} AppendedExactly(cs: seq<Coin>, added: seq<Coin>) returns (at: seq<nat>)
    ensures Increasing(at) && forall k: nat :: k in at <==> IsNew(cs, added, k)
    ensures Within(at, |added|) && |AddAll(cs, added)| == |cs| + |at|
    ensures forall i :: 0 <= i < |at| ==> SameKind(AddAll(cs, added)[|cs| + i], added[at[i]])
    decreases |added|
  {
    hide Matches, AddOne, SameKind, AddAll;
    if |added| == 0 {
      at := [];
      NothingAdded(cs);
    } else {
      var next, tail := AddOne(cs, added[0]), added[1..];
      var rest := AppendedExactly(next, tail);
      var head := IsNew(cs, added, 0);
      at := Shift(rest, head);
      NewHead(cs, added);
      forall k: nat ensures k in at <==> IsNew(cs, added, k) {
        ShiftHas(rest, head, k);
        if k > 0 {
          NewInTail(cs, added, k);
        }
      }
      AddHead(cs, added);
      ShiftPicks(added, rest, head);
      forall i | 0 <= i < |at| ensures SameKind(AddAll(cs, added)[|cs| + i], added[at[i]]) {
        if head && i == 0 {
          KeepsKind(next, tail, |cs|);
        } else {
          var j := if head then i - 1 else i;
          assert at[i] == rest[j] + 1 && |cs| + i == |next| + j;
        }
      }
    }
  }

  /** Asset, spelled alike, and decimals. */
  predicate SameKind(c: Coin, d: Coin) {
    c.asset == d.asset && c.decimals == d.decimals
  }

  lemma NothingAdded(cs: seq<Coin>)
    ensures AddAll(cs, []) == cs
  {
  }

  lemma AddHead(cs: seq<Coin>, added: seq<Coin>)
    requires |added| > 0
    ensures AddAll(cs, added) == AddAll(AddOne(cs, added[0]), added[1..])
  {
  }

  /** The list after the first added coin: one longer, by that coin, exactly when it is new. */
  lemma NewHead(cs: seq<Coin>, added: seq<Coin>)
    requires |added| > 0
    ensures var next := AddOne(cs, added[0]);
            if IsNew(cs, added, 0) then |next| == |cs| + 1 && next[|cs|] == added[0] else |next| == |cs|
  {
    hide Matches, AddOne;
    AddOneLength(cs, added[0]);
  }

  lemma NewInTail(cs: seq<Coin>, added: seq<Coin>, k: nat)
    requires |added| > 0 && k > 0
    ensures IsNew(AddOne(cs, added[0]), added[1..], k - 1) <==> IsNew(cs, added, k)
  {
    hide AddOne, Assets.Equals;
    if k < |added| {
      var next, tail, c := AddOne(cs, added[0]), added[1..], added[k];
      AddOneLength(cs, added[0]);
      forall j | 0 <= j < |cs| ensures next[j].asset == cs[j].asset {
        AddOneAt(cs, added[0], j);
      }
      assert forall i :: 1 <= i < |added| ==> added[i] == tail[i - 1];
      assert forall i :: 0 <= i < |tail| ==> tail[i] == added[i + 1];
      if |next| == |cs| {
        var j :| 0 <= j < |cs| && Matches(cs[j], added[0]);
        MatchesClass(cs[j], c, added[0]);
        EqualsSymmetric(c.asset, added[0].asset);
      }
    }
  }

  /** A coin of the list keeps asset, spelling and decimals. */
  lemma KeepsKind(cs: seq<Coin>, added: seq<Coin>, j: nat)
    requires j < |cs|
    ensures j < |AddAll(cs, added)| && SameKind(AddAll(cs, added)[j], cs[j])
  {
    hide AddAll, IsFirst;
    AddAllLength(cs, added);
    AddAllAt(cs, added, j);
  }
}
