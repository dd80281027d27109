/** The lines that `Tx.Hash` and `Solvency.Hash` feed to SHA-256: which values share a line. */
module Preimages {
  import opened Machine
  import opened Results
  import opened Text
  import opened Assets
  import opened Coins
  import opened TxEquality

  function CoinString(c: Coin): string {
    Decimal(c.amount) + " " + String(c.asset)
  }

  function CoinStrings(cs: seq<Coin>): (ss: seq<string>)
    ensures |ss| == |cs|
    ensures forall k :: 0 <= k < |cs| ==> ss[k] == CoinString(cs[k])
  {
    seq(|cs|, k requires 0 <= k < |cs| => CoinString(cs[k]))
  }

  function CoinsString(cs: seq<Coin>): string {
    Join(CoinStrings(cs), ", ")
  }

  function TxLine(tx: TxValue, blockHeight: int): string {
    Join([Upper(tx.chain), tx.fromAddress, CoinsString(tx.coins), tx.toAddress, SignedDecimal(blockHeight)], "|")
  }

  datatype SolvencyValue = SolvencyValue(id: string, chain: string, pubKey: string, coins: seq<Coin>, height: int64)

  function SolvencyLine(s: SolvencyValue): string {
    Join([Upper(s.chain), s.pubKey, CoinsString(s.coins), SignedDecimal(s.height)], "|")
  }

  predicate SameCoins(cs: seq<Coin>, ds: seq<Coin>) {
    |cs| == |ds| && forall k :: 0 <= k < |cs| ==> Same(cs[k], ds[k])
  }

  predicate SolvencyEquals(s: SolvencyValue, t: SolvencyValue) {
    s.chain == t.chain && s.pubKey == t.pubKey && s.height == t.height && SameCoins(s.coins, t.coins)
  }

  // ----- coins as text -----

  lemma AssetTextLacks(a: Asset, c: char)
    requires IsParsed(a) && (c == ',' || c == '|' || c == ' ')
    ensures Lacks(String(a), c)
  {
    ValidChainFacts(a.chain);
  }

  lemma CoinTextLacks(coin: Coin, c: char)
    requires IsParsed(coin.asset) && (c == ',' || c == '|')
    ensures Lacks(CoinString(coin), c)
  {
    hide String, IsParsed, Decimal;
    AssetTextLacks(coin.asset, c);
    assert !IsDigit(c);
  }

  lemma CoinTextUnique(a: Coin, b: Coin)
    requires IsParsed(a.asset) && IsParsed(b.asset)
    ensures CoinString(a) == CoinString(b) <==> Same(a, b)
  {
    hide String, IsParsed, Decimal, Assets.Equals;
    EqualsOnParsed(a.asset, b.asset);
    if CoinString(a) == CoinString(b) {
      assert !IsDigit(' ');
      CutUnique(Decimal(a.amount), String(a.asset), Decimal(b.amount), String(b.asset), ' ');
      StringInjective(a.asset, b.asset);
      DecimalRoundTrip(a.amount);
      DecimalRoundTrip(b.amount);
    }
  }

  // ----- parsing one coin -----

  /** `strings.Split(s, " ")`. */
  function SplitSpaces(s: string): (parts: seq<string>)
    ensures |parts| > 0
  {
    var i := FirstOf(s, {' '});
    if i == |s| then [s] else [s[..i]] + SplitSpaces(s[i + 1..])
  }

  function ParseUint(s: string): Option<nat> {
    if |s| > 0 && forall k :: 0 <= k < |s| ==> IsDigit(s[k]) then Some(DecimalValue(s)) else None
  }

  function ParseCoin(coinStr: string): Option<Coin> {
    var split := SplitSpaces(coinStr);
    if |split| != 2 then None
    else
      match ParseUint(split[0])
      case None => None
      case Some(amount) =>
        match NewAsset(split[1])
        case Err(_) => None
        case Ok(asset) => Some(Coin(asset, amount, 0))
  }

  lemma SplitOnce(a: string, b: string)
    requires Lacks(a, ' ') && Lacks(b, ' ')
    ensures SplitSpaces(a + " " + b) == [a, b]
  {
    var s := a + " " + b;
    FirstOfIs(s, {' '}, |a|);
    assert s[..|a|] == a && s[|a| + 1..] == b;
    FirstOfIs(b, {' '}, |b|);
  }

  /** A printed coin parses to its asset and amount; the number of decimals is not printed and comes back as zero. */
  lemma ParsePrintedCoin(c: Coin)
    requires IsParsed(c.asset)
    ensures ParseCoin(CoinString(c)) == Some(c.(decimals := 0))
  {
    hide String, IsParsed, Decimal, NewAsset, SplitSpaces;
    assert !IsDigit(' ');
    AssetTextLacks(c.asset, ' ');
    SplitOnce(Decimal(c.amount), String(c.asset));
    DecimalRoundTrip(c.amount);
    StringRoundTrip(c.asset);
  }

  lemma CoinsTextNonEmpty(cs: seq<Coin>)
    ensures CoinsString(cs) == "" <==> |cs| == 0
  {
    if |cs| > 0 {
      assert |CoinStrings(cs)[0]| > 0;
    }
  }

  /** The text of a coin list determines its assets and amounts, in order. */
  lemma CoinsTextUnique(cs: seq<Coin>, ds: seq<Coin>)
    requires AllParsed(cs) && AllParsed(ds)
    ensures CoinsString(cs) == CoinsString(ds) <==> SameCoins(cs, ds)
  {
    hide CoinString, IsParsed, Same;
    CoinsTextNonEmpty(cs);
    CoinsTextNonEmpty(ds);
    forall k | 0 <= k < |cs| && k < |ds| ensures CoinString(cs[k]) == CoinString(ds[k]) <==> Same(cs[k], ds[k]) {
      CoinTextUnique(cs[k], ds[k]);
    }
    if SameCoins(cs, ds) {
      assert CoinStrings(cs) == CoinStrings(ds);
    } else if CoinsString(cs) == CoinsString(ds) {
      forall k | 0 <= k < |cs| ensures Lacks(CoinStrings(cs)[k], ',') {
        CoinTextLacks(cs[k], ',');
      }
      forall k | 0 <= k < |ds| ensures Lacks(CoinStrings(ds)[k], ',') {
        CoinTextLacks(ds[k], ',');
      }
      JoinUnique(CoinStrings(cs), CoinStrings(ds), ", ");
    }
  }

  /** Reads what `Coins.String` prints: coins, with a comma and a space between two. */
  function ParseCoins(s: string): Option<seq<Coin>>
    decreases |s|
  {
    if |s| == 0 then Some([])
    else
      var i := FirstOf(s, {','});
      match ParseCoin(s[..i])
      case None => None
      case Some(c) =>
        if i == |s| then Some([c])
        else if i + 2 < |s| && s[i + 1] == ' ' then
          match ParseCoins(s[i + 2..])
          case None => None
          case Some(cs) => Some([c] + cs)
        else None
  }

  predicate IsCoinsText(s: string) {
    ParseCoins(s).Some? && CoinsString(ParseCoins(s).value) == s
  }

  function WithoutDecimals(cs: seq<Coin>): (ds: seq<Coin>)
    ensures |ds| == |cs|
    ensures forall k :: 0 <= k < |cs| ==> ds[k] == cs[k].(decimals := 0)
  {
    seq(|cs|, k requires 0 <= k < |cs| => cs[k].(decimals := 0))
  }

  /** A printed coin list parses to its coins. */
  lemma {:induction false} ParsePrintedCoins(cs: seq<Coin>)
    requires AllParsed(cs)
    ensures ParseCoins(CoinsString(cs)) == Some(WithoutDecimals(cs))
    decreases |cs|
  {
    hide ParseCoin, CoinString, IsParsed;
    if |cs| == 0 {
      assert WithoutDecimals(cs) == [];
    } else {
      var s, t := CoinsString(cs), CoinString(cs[0]);
      ParsePrintedCoin(cs[0]);
      CoinTextLacks(cs[0], ',');
      CoinsTextNonEmpty(cs);
      if |cs| == 1 {
        assert s == t;
        FirstOfIs(s, {','}, |s|);
        assert s[..|s|] == s;
        assert WithoutDecimals(cs) == [cs[0].(decimals := 0)];
      } else {
        var rest := cs[1..];
        ParsePrintedCoins(rest);
        CoinsTextNonEmpty(rest);
        CoinsTextHead(cs);
        FirstOfIs(s, {','}, |t|);
        assert s[..|t|] == t && s[|t| + 2..] == CoinsString(rest);
        assert WithoutDecimals(cs) == [cs[0].(decimals := 0)] + WithoutDecimals(rest);
      }
    }
  }

  lemma CoinsTextHead(cs: seq<Coin>)
    requires |cs| > 1
    ensures CoinsString(cs) == CoinString(cs[0]) + ", " + CoinsString(cs[1..])
  {
    assert CoinStrings(cs)[1..] == CoinStrings(cs[1..]);
  }

  lemma {:induction false} ParsedCoinsParsed(s: string)
    ensures ParseCoins(s).Some? ==> AllParsed(ParseCoins(s).value)
    decreases |s|
  {
    hide SplitSpaces, NewAsset, IsParsed;
    if |s| > 0 {
      var i := FirstOf(s, {','});
      ParsedCoinParsed(s[..i]);
      if i + 2 < |s| {
        ParsedCoinsParsed(s[i + 2..]);
      }
    }
  }

  lemma ParsedCoinParsed(s: string)
    ensures ParseCoin(s).Some? ==> IsParsed(ParseCoin(s).value.asset)
  {
    hide NewAsset, SplitSpaces, IsParsed;
    var split := SplitSpaces(s);
    if |split| == 2 {
      ParsedShape(split[1]);
    }
  }

  /** The reader tells exactly the texts that lists of parsed coins print. */
  lemma CoinsTextIs(s: string)
    ensures IsCoinsText(s) <==> exists cs :: AllParsed(cs) && CoinsString(cs) == s
  {
    hide ParseCoins, CoinsString, IsParsed;
    ParsedCoinsParsed(s);
    forall cs | AllParsed(cs) && CoinsString(cs) == s ensures IsCoinsText(s) {
      ParsePrintedCoins(cs);
      DecimalsNotPrinted(cs);
    }
  }

  lemma DecimalsNotPrinted(cs: seq<Coin>)
    ensures CoinsString(WithoutDecimals(cs)) == CoinsString(cs)
  {
    assert CoinStrings(WithoutDecimals(cs)) == CoinStrings(cs);
  }

  lemma CoinsTextLacksBar(cs: seq<Coin>)
    requires AllParsed(cs)
    ensures Lacks(CoinsString(cs), '|')
  {
    hide CoinString, IsParsed;
    forall k | 0 <= k < |cs| ensures Lacks(CoinStrings(cs)[k], '|') {
      CoinTextLacks(cs[k], '|');
    }
    JoinLacks(CoinStrings(cs), ", ", '|');
  }

  lemma HeightLacksBar(h: int)
    ensures Lacks(SignedDecimal(h), '|')
  {
    hide Decimal;
    assert !IsDigit('|');
  }

  lemma UpperLacksBar(s: string)
    requires Lacks(s, '|')
    ensures Lacks(Upper(s), '|')
  {
    forall k | 0 <= k < |s| ensures Upper(s)[k] != '|' {
      assert s[k] in s;
    }
  }

  // ----- lines -----

  lemma JoinFour(a: string, b: string, c: string, d: string)
    ensures Join([a, b, c, d], "|") == a + "|" + (b + "|" + c + "|" + d)
  {
    assert [c, d][1..] == [d] && [b, c, d][1..] == [c, d] && [a, b, c, d][1..] == [b, c, d];
    assert Join([c, d], "|") == c + "|" + d;
    assert Join([b, c, d], "|") == b + "|" + (c + "|" + d);
    assert Join([a, b, c, d], "|") == a + "|" + (b + "|" + (c + "|" + d));
    assert b + "|" + (c + "|" + d) == b + "|" + c + "|" + d;
  }

  lemma JoinFive(a: string, b: string, c: string, d: string, e: string)
    ensures Join([a, b, c, d, e], "|") == a + "|" + (b + "|" + c + "|" + d + "|" + e)
  {
    JoinFour(b, c, d, e);
    assert [a, b, c, d, e][1..] == [b, c, d, e];
    assert Join([a, b, c, d, e], "|") == a + "|" + (b + "|" + (c + "|" + d + "|" + e));
    assert b + "|" + (c + "|" + d + "|" + e) == b + "|" + c + "|" + d + "|" + e;
  }

  // ----- the line of a transaction -----

  /** The chain has no bar, and the coins come from the parser. The addresses are arbitrary. */
  predicate IsHashable(tx: TxValue) {
    Lacks(tx.chain, '|') && AllParsed(tx.coins)
  }

  /** The line between chain and height. */
  function Middle(tx: TxValue): string {
    tx.fromAddress + "|" + CoinsString(tx.coins) + "|" + tx.toAddress
  }

  /** Chain and height can always be read off the line. */
  lemma TxLineSplits(tx: TxValue, h: int, tx2: TxValue, h2: int)
    requires IsHashable(tx) && IsHashable(tx2)
    ensures TxLine(tx, h) == TxLine(tx2, h2)
       <==> Upper(tx.chain) == Upper(tx2.chain) && Middle(tx) == Middle(tx2) && h == h2
  {
    hide Join, AllParsed, SignedDecimal, CoinsString, Upper;
    TxLineParts(tx, h);
    TxLineParts(tx2, h2);
    SignedDecimalUnique(h, h2);
    var rest, rest2 := Middle(tx) + "|" + SignedDecimal(h), Middle(tx2) + "|" + SignedDecimal(h2);
    UpperLacksBar(tx.chain);
    UpperLacksBar(tx2.chain);
    HeightLacksBar(h);
    HeightLacksBar(h2);
    if TxLine(tx, h) == TxLine(tx2, h2) {
      CutUnique(Upper(tx.chain), rest, Upper(tx2.chain), rest2, '|');
      CutLastUnique(Middle(tx), SignedDecimal(h), Middle(tx2), SignedDecimal(h2), '|');
    }
  }

  lemma TxLineParts(tx: TxValue, h: int)
    ensures TxLine(tx, h) == Upper(tx.chain) + "|" + (Middle(tx) + "|" + SignedDecimal(h))
  {
    hide Join, SignedDecimal, CoinsString, Upper;
    JoinFive(Upper(tx.chain), tx.fromAddress, CoinsString(tx.coins), tx.toAddress, SignedDecimal(h));
  }

  predicate SameHashed(tx: TxValue, h: int, tx2: TxValue, h2: int) {
    && Upper(tx.chain) == Upper(tx2.chain) && tx.fromAddress == tx2.fromAddress && tx.toAddress == tx2.toAddress
    && SameCoins(tx.coins, tx2.coins) && h == h2
  }

  /** k stands at index i of m, between two bars. */
  predicate Slot(m: string, k: string, i: nat) {
    0 < i && i + |k| < |m| && m[i - 1] == '|' && m[i..i + |k|] == k && m[i + |k|] == '|'
  }

  /** Besides the coins, another part of the line's middle stands between two bars and reads as a list of coins. */
  ghost predicate ReadsTwice(tx: TxValue) {
    exists k, i: nat :: IsCoinsText(k) && i != |tx.fromAddress| + 1 && Slot(Middle(tx), k, i)
  }

  ghost predicate Ambiguous(tx: TxValue, h: int) {
    exists tx2, h2 :: IsHashable(tx2) && TxLine(tx, h) == TxLine(tx2, h2) && !SameHashed(tx, h, tx2, h2)
  }

  /** Two transactions with the same middle and sender of the same length are the same. */
  lemma SameLengthSame(tx: TxValue, tx2: TxValue)
    requires IsHashable(tx) && IsHashable(tx2)
    requires Middle(tx) == Middle(tx2) && |tx.fromAddress| == |tx2.fromAddress|
    ensures tx.fromAddress == tx2.fromAddress && tx.toAddress == tx2.toAddress && SameCoins(tx.coins, tx2.coins)
  {
    hide AllParsed, SameCoins, CoinsString;
    var m, n := Middle(tx), |tx.fromAddress|;
    var s, s2 := CoinsString(tx.coins), CoinsString(tx2.coins);
    assert tx.fromAddress == m[..n] && tx2.fromAddress == Middle(tx2)[..n];
    assert s + "|" + tx.toAddress == m[n + 1..] && s2 + "|" + tx2.toAddress == Middle(tx2)[n + 1..];
    CoinsTextLacksBar(tx.coins);
    CoinsTextLacksBar(tx2.coins);
    CutUnique(s, tx.toAddress, s2, tx2.toAddress, '|');
    CoinsTextUnique(tx.coins, tx2.coins);
  }

  lemma CoinsInSlot(tx: TxValue)
    ensures Slot(Middle(tx), CoinsString(tx.coins), |tx.fromAddress| + 1)
  {
    hide CoinsString;
    var m, n, s := Middle(tx), |tx.fromAddress|, CoinsString(tx.coins);
    assert m[n + 1..n + 1 + |s|] == s;
  }

  /** Reading the coins out of a slot gives a transaction with that middle. */
  lemma SlotReads(tx: TxValue, k: string, i: nat) returns (tx2: TxValue)
    requires IsHashable(tx) && IsCoinsText(k) && Slot(Middle(tx), k, i)
    ensures IsHashable(tx2) && tx2.chain == tx.chain && Middle(tx2) == Middle(tx) && |tx2.fromAddress| == i - 1
  {
    hide AllParsed, CoinsString, IsCoinsText;
    CoinsTextIs(k);
    var cs :| AllParsed(cs) && CoinsString(cs) == k;
    var m := Middle(tx);
    var x, y := m[..i - 1], m[i + |k| + 1..];
    tx2 := tx.(fromAddress := x, toAddress := y, coins := cs);
    assert m[..i] == x + "|" && m[..i + |k|] == m[..i] + k && m[..i + |k| + 1] == m[..i + |k|] + "|";
    assert m == m[..i + |k| + 1] + y;
  }

  /** A line determines its transaction (chain up to case, addresses, coins in order, height) except exactly when its
      middle reads twice. */
  lemma AmbiguousExactly(tx: TxValue, h: int)
    requires IsHashable(tx)
    ensures Ambiguous(tx, h) <==> ReadsTwice(tx)
  {
    hide IsHashable, Middle, TxLine, SameCoins, IsCoinsText, Slot;
    forall tx2, h2 | IsHashable(tx2) && TxLine(tx, h) == TxLine(tx2, h2) && !SameHashed(tx, h, tx2, h2)
      ensures ReadsTwice(tx)
    {
      TxLineSplits(tx, h, tx2, h2);
      if |tx.fromAddress| == |tx2.fromAddress| {
        SameLengthSame(tx, tx2);
      }
      CoinsInSlot(tx2);
      CoinsReadBack(tx2);
    }
    forall k, i: nat | IsCoinsText(k) && i != |tx.fromAddress| + 1 && Slot(Middle(tx), k, i)
      ensures Ambiguous(tx, h)
    {
      SlotStart(Middle(tx), k, i);
      var tx2 := SlotReads(tx, k, i);
      TxLineSplits(tx, h, tx2, h);
      assert !SameHashed(tx, h, tx2, h);
    }
  }

  lemma SlotStart(m: string, k: string, i: nat)
    requires Slot(m, k, i)
    ensures i > 0
  {
  }

  lemma CoinsReadBack(tx: TxValue)
    requires IsHashable(tx)
    ensures IsCoinsText(CoinsString(tx.coins))
  {
    hide IsCoinsText, CoinsString;
    CoinsTextIs(CoinsString(tx.coins));
  }

  /** Addresses without a bar leave one reading only. */
  lemma BarFreeReadsOnce(tx: TxValue)
    requires Lacks(tx.fromAddress, '|') && Lacks(tx.toAddress, '|') && AllParsed(tx.coins)
    ensures !ReadsTwice(tx)
  {
    hide AllParsed, CoinsString, IsCoinsText, Middle;
    CoinsTextLacksBar(tx.coins);
    TwoBars(tx);
  }

  lemma TwoBars(tx: TxValue)
    requires Lacks(tx.fromAddress, '|') && Lacks(tx.toAddress, '|') && Lacks(CoinsString(tx.coins), '|')
    ensures var n := |tx.fromAddress|;
            forall j :: 0 <= j < |Middle(tx)| && Middle(tx)[j] == '|' ==> j == n || j == n + 1 + |CoinsString(tx.coins)|
  {
    hide CoinsString;
    var m, n, s := Middle(tx), |tx.fromAddress|, CoinsString(tx.coins);
    forall j | 0 <= j < |m| && j != n && j != n + 1 + |s| ensures m[j] != '|' {
      if j < n {
        assert m[j] == tx.fromAddress[j];
      } else if j < n + 1 + |s| {
        assert m[j] == s[j - n - 1];
      } else {
        assert m[j] == tx.toAddress[j - n - |s| - 2];
      }
    }
  }

  /** So two transactions, one of them with addresses without a bar, share a line exactly when they are the same. */
  lemma TxLineExact(tx: TxValue, h: int, tx2: TxValue, h2: int)
    requires IsHashable(tx) && IsHashable(tx2) && Lacks(tx.fromAddress, '|') && Lacks(tx.toAddress, '|')
    ensures TxLine(tx, h) == TxLine(tx2, h2) <==> SameHashed(tx, h, tx2, h2)
  {
    hide TxLine, CoinsString, AllParsed, ReadsTwice, SameCoins;
    BarFreeReadsOnce(tx);
    AmbiguousExactly(tx, h);
    TxLineSplits(tx, h, tx2, h2);
    CoinsTextUnique(tx.coins, tx2.coins);
  }

  /** A transaction without coins. */
  function Example(fromAddress: string, toAddress: string): TxValue {
    TxValue("", "BTC", fromAddress, toAddress, [], [], "")
  }

  /** One such line: the bar next to the empty list of coins belongs to either address. */
  lemma BarMakesTxLineAmbiguous(h: int)
    ensures TxLine(Example("a|", "b"), h) == TxLine(Example("a", "|b"), h)
  {
    hide SignedDecimal, TxLine, Upper;
    assert CoinsString([]) == "";
    var tx, tx2 := Example("a|", "b"), Example("a", "|b");
    assert Middle(tx) == "a|||b" == Middle(tx2);
    TxLineSplits(tx, h, tx2, h);
  }

  /** Not every bar does: nothing but its own coins reads as coins here. */
  lemma BarMayBeHarmless(h: int)
    ensures !Ambiguous(Example("a|b", "c"), h)
  {
    hide Ambiguous, IsCoinsText;
    var tx := Example("a|b", "c");
    assert CoinsString([]) == "";
    assert Middle(tx) == "a|b||c";
    AmbiguousExactly(tx, h);
    forall k, i: nat | i != 4 && Slot(Middle(tx), k, i) ensures !IsCoinsText(k) {
      SlotOfExample(k, i);
      NotCoins();
    }
  }

  lemma SlotOfExample(k: string, i: nat)
    requires i != 4 && Slot("a|b||c", k, i)
    ensures k == "b" || k == "b|"
  {
    var m := "a|b||c";
    assert i == 2;
    assert i + |k| == 3 || i + |k| == 4;
    assert m[2..3] == "b" && m[2..4] == "b|";
  }

  lemma NotCoins()
    ensures !IsCoinsText("b") && !IsCoinsText("b|")
  {
    hide ParseCoin;
    NotACoin("b");
    NotACoin("b|");
  }

  lemma NotACoin(s: string)
    requires Lacks(s, ' ') && Lacks(s, ',') && |s| > 0
    ensures ParseCoins(s) == None
  {
    hide NewAsset, FirstOf, ParseUint;
    FirstOfIs(s, {' '}, |s|);
    FirstOfIs(s, {','}, |s|);
    assert SplitSpaces(s) == [s];
    assert s[..|s|] == s;
  }

  // ----- the line of a solvency message -----

  predicate IsHashableSolvency(s: SolvencyValue) {
    Lacks(s.chain, '|') && AllParsed(s.coins)
  }

  /** Two solvency messages, with any public keys, share a hash line exactly when chain up to case, key, coins and
      height are the same. */
  lemma SolvencyLineExact(s: SolvencyValue, t: SolvencyValue)
    requires IsHashableSolvency(s) && IsHashableSolvency(t)
    ensures SolvencyLine(s) == SolvencyLine(t)
       <==> Upper(s.chain) == Upper(t.chain) && SolvencyEquals(s.(chain := t.chain), t)
  {
    hide Join, AllParsed, SameCoins, SignedDecimal, CoinsString, Upper;
    CoinsTextUnique(s.coins, t.coins);
    SignedDecimalUnique(s.height, t.height);
    var c, c2 := CoinsString(s.coins), CoinsString(t.coins);
    var h, h2 := SignedDecimal(s.height), SignedDecimal(t.height);
    JoinFour(Upper(s.chain), s.pubKey, c, h);
    JoinFour(Upper(t.chain), t.pubKey, c2, h2);
    UpperLacksBar(s.chain);
    UpperLacksBar(t.chain);
    CoinsTextLacksBar(s.coins);
    CoinsTextLacksBar(t.coins);
    HeightLacksBar(s.height);
    HeightLacksBar(t.height);
    if SolvencyLine(s) == SolvencyLine(t) {
      CutUnique(Upper(s.chain), s.pubKey + "|" + c + "|" + h, Upper(t.chain), t.pubKey + "|" + c2 + "|" + h2, '|');
      CutLastUnique(s.pubKey + "|" + c, h, t.pubKey + "|" + c2, h2, '|');
      CutLastUnique(s.pubKey, c, t.pubKey, c2, '|');
    }
  }

  /** Sharing a hash line and `Equals` agree on two messages unless these differ in the case of the chain only: the
      line prints the chain in upper case, `Equals` compares it as it is. */
  lemma SolvencyLineAgreesWithEquals(s: SolvencyValue, t: SolvencyValue)
    requires IsHashableSolvency(s) && IsHashableSolvency(t)
    ensures (SolvencyLine(s) == SolvencyLine(t) <==> SolvencyEquals(s, t))
       <==> !(s.chain != t.chain && Upper(s.chain) == Upper(t.chain) && SolvencyEquals(s.(chain := t.chain), t))
  {
    hide SolvencyLine, SameCoins;
    SolvencyLineExact(s, t);
  }

  /** On canonical chains they always agree. */
  lemma CanonicalSolvencyAgrees(s: SolvencyValue, t: SolvencyValue)
    requires IsHashableSolvency(s) && IsHashableSolvency(t) && IsUpper(s.chain) && IsUpper(t.chain)
    ensures SolvencyLine(s) == SolvencyLine(t) <==> SolvencyEquals(s, t)
  {
    hide SolvencyLine, SameCoins;
    SolvencyLineExact(s, t);
  }

  /** For example, a chain in lower case shares its line with the same chain in upper case. */
  lemma LowerCaseSharesLine(pubKey: string, height: int64)
    ensures var s, t := SolvencyValue("", "btc", pubKey, [], height), SolvencyValue("", "BTC", pubKey, [], height);
            SolvencyLine(s) == SolvencyLine(t) && !SolvencyEquals(s, t)
  {
    hide Join, SignedDecimal, CoinsString;
    assert Upper("btc") == "BTC" == Upper("BTC");
  }

  // ----- reading the lines -----

  /** The first bar of s is at index i. */
  predicate FirstBar(s: string, i: nat) {
    i < |s| && s[i] == '|' && forall k :: 0 <= k < i ==> s[k] != '|'
  }

  /** The last bar of s before index `end` is at index i. */
  predicate LastBar(s: string, end: nat, i: nat) {
    i < end <= |s| && s[i] == '|' && forall k :: i < k < end ==> s[k] != '|'
  }

  /** Three pieces between bars, the outer two without one. */
  lemma BarsOf(a: string, b: string, c: string)
    requires Lacks(a, '|') && Lacks(c, '|')
    ensures var s := a + "|" + b + "|" + c; var i, k := |a|, |a| + 1 + |b|;
            && FirstBar(s, i) && LastBar(s, |s|, k)
            && s[..i] == a && s[i + 1..k] == b && s[k + 1..] == c
  {
    var s := a + "|" + b + "|" + c;
    forall k | 0 <= k < |a| ensures s[k] != '|' {
      assert s[k] == a[k];
    }
    var j := |a| + 1 + |b|;
    forall k | j < k < |s| ensures s[k] != '|' {
      assert s[k] == c[k - j - 1];
    }
  }

  /** The parts of the line: the chain in upper case up to the first bar; the height behind the last; the coins between
      the last two; and what is left in between is the key, whatever it holds. */
  lemma SolvencyLineReads(s: SolvencyValue)
    requires IsHashableSolvency(s)
    ensures var line := SolvencyLine(s);
            exists i: nat, j: nat, k: nat ::
              && FirstBar(line, i) && LastBar(line, |line|, k) && LastBar(line, k, j) && i < j
              && line[..i] == Upper(s.chain) && line[i + 1..j] == s.pubKey
              && line[j + 1..k] == CoinsString(s.coins) && line[k + 1..] == SignedDecimal(s.height)
  {
    hide Join, CoinsString, SignedDecimal, Upper, FirstBar, LastBar;
    var u, c, h := Upper(s.chain), CoinsString(s.coins), SignedDecimal(s.height);
    var line := SolvencyLine(s);
    JoinFour(u, s.pubKey, c, h);
    UpperLacksBar(s.chain);
    CoinsTextLacksBar(s.coins);
    HeightLacksBar(s.height);
    BarsOf(u, s.pubKey + "|" + c, h);
    assert line == u + "|" + (s.pubKey + "|" + c) + "|" + h;
    var i, k := |u|, |u| + 1 + |s.pubKey + "|" + c|;
    var j := |u| + 1 + |s.pubKey|;
    CoinsBar(u, s.pubKey, c, h);
    assert line == u + "|" + s.pubKey + "|" + c + "|" + h;
    assert line[i + 1..j] == line[i + 1..k][..|s.pubKey|] == s.pubKey;
    assert line[j + 1..k] == line[i + 1..k][|s.pubKey| + 1..] == c;
  }

  lemma CoinsBar(u: string, p: string, c: string, h: string)
    requires Lacks(c, '|')
    ensures var s := u + "|" + p + "|" + c + "|" + h;
            LastBar(s, |u| + 1 + |p| + 1 + |c|, |u| + 1 + |p|)
  {
    var s := u + "|" + p + "|" + c + "|" + h;
    var j := |u| + 1 + |p|;
    forall k | j < k < j + 1 + |c| ensures s[k] != '|' {
      assert s[k] == c[k - j - 1];
    }
  }

  /** The parts of a transaction's line, with chain and height at its ends. */
  lemma TxLineReads(tx: TxValue, h: int)
    requires Lacks(tx.chain, '|')
    ensures var line := TxLine(tx, h);
            exists i: nat, k: nat ::
              && FirstBar(line, i) && LastBar(line, |line|, k) && i < k
              && line[..i] == Upper(tx.chain) && line[k + 1..] == SignedDecimal(h)
              && line[i + 1..k] == tx.fromAddress + "|" + CoinsString(tx.coins) + "|" + tx.toAddress
  {
    hide Join, CoinsString, SignedDecimal, Upper, FirstBar, LastBar, TxLine;
    var u, m, t := Upper(tx.chain), Middle(tx), SignedDecimal(h);
    TxLineParts(tx, h);
    UpperLacksBar(tx.chain);
    HeightLacksBar(h);
    BarsOf(u, m, t);
    assert TxLine(tx, h) == u + "|" + m + "|" + t;
    var i, k := |u|, |u| + 1 + |m|;
    assert FirstBar(TxLine(tx, h), i);
  }

  // ----- lines in full -----

  const BTC := Asset("BTC", "BTC", "BTC", false, false, false)
  const ETH := Asset("ETH", "ETH", "ETH", true, false, false)

  lemma CoinExamples()
    ensures CoinString(Coin(BTC, 50, 8)) == "50 BTC.BTC"
    ensures CoinsString([Coin(BTC, 50, 8)]) == "50 BTC.BTC"
    ensures CoinsString([Coin(BTC, 50, 8), Coin(ETH, 7, 0)]) == "50 BTC.BTC, 7 ETH/ETH"
    ensures CoinsString([]) == ""
  {
    assert Upper("BTC") == "BTC" && Upper("ETH") == "ETH";
    assert Decimal(5) == "5" && Decimal(50) == "50" && Decimal(7) == "7";
    assert CoinString(Coin(BTC, 50, 8)) == "50 BTC.BTC" && CoinString(Coin(ETH, 7, 0)) == "7 ETH/ETH";
    assert CoinStrings([Coin(BTC, 50, 8), Coin(ETH, 7, 0)]) == ["50 BTC.BTC", "7 ETH/ETH"];
    assert ["50 BTC.BTC", "7 ETH/ETH"][1..] == ["7 ETH/ETH"];
    assert "50 BTC.BTC" + ", " + "7 ETH/ETH" == "50 BTC.BTC, 7 ETH/ETH";
  }

  lemma LineExamples()
    ensures SolvencyLine(SolvencyValue("id", "btc", "key", [Coin(BTC, 50, 8)], 7)) == "BTC|key|50 BTC.BTC|7"
    ensures TxLine(TxValue("id", "btc", "a", "b", [Coin(BTC, 50, 8), Coin(ETH, 7, 0)], [], "memo"), -3)
         == "BTC|a|50 BTC.BTC, 7 ETH/ETH|b|-3"
  {
    hide CoinsString, SignedDecimal, Join, Upper;
    CoinExamples();
    PartExamples();
    JoinFour("BTC", "key", "50 BTC.BTC", "7");
    JoinFive("BTC", "a", "50 BTC.BTC, 7 ETH/ETH", "b", "-3");
    SolvencyText();
    TxText();
  }

  lemma SolvencyText()
    ensures "BTC" + "|" + ("key" + "|" + "50 BTC.BTC" + "|" + "7") == "BTC|key|50 BTC.BTC|7"
  {
    assert "key" + "|" == "key|";
    assert "key|" + "50 BTC.BTC" == "key|50 BTC.BTC";
    assert "key|50 BTC.BTC" + "|" + "7" == "key|50 BTC.BTC|7";
    assert "BTC" + "|" == "BTC|";
    assert "BTC|" + "key|50 BTC.BTC|7" == "BTC|key|50 BTC.BTC|7";
  }

  lemma TxText()
    ensures "BTC" + "|" + ("a" + "|" + "50 BTC.BTC, 7 ETH/ETH" + "|" + "b" + "|" + "-3")
         == "BTC|a|50 BTC.BTC, 7 ETH/ETH|b|-3"
  {
    FrontText();
    assert "|" + "b" + "|" + "-3" == "|b|-3";
    EndText("a|50 BTC.BTC, 7 ETH/ETH");
    assert "BTC" + "|" == "BTC|";
    assert "a|50 BTC.BTC, 7 ETH/ETH" + "|b|-3" == "a|50 BTC.BTC, 7 ETH/ETH|b|-3";
    assert "BTC|" + "a|50 BTC.BTC, 7 ETH/ETH|b|-3" == "BTC|a|50 BTC.BTC, 7 ETH/ETH|b|-3";
  }

  lemma FrontText()
    ensures "a" + "|" + "50 BTC.BTC, 7 ETH/ETH" == "a|50 BTC.BTC, 7 ETH/ETH"
  {
  }

  lemma EndText(s: string)
    ensures s + "|" + "b" + "|" + "-3" == s + "|b|-3"
  {
  }

  lemma PartExamples()
    ensures Upper("btc") == "BTC" && SignedDecimal(7) == "7" && SignedDecimal(-3) == "-3"
  {
    assert Decimal(3) == "3";
  }

  /** What is not the text of one coin. */
  lemma ParseCoinExamples()
    ensures ParseCoin("50 BTC.BTC") == Some(Coin(BTC, 50, 0))
    ensures ParseCoin("50") == None && ParseCoin("5x BTC.BTC") == None && ParseCoin("50 BTC.BTC x") == None
    ensures ParseCoin("50 BT.BTC") == None
  {
    hide ParseCoin;
    CoinExamples();
    ParseExamples();
    ParsedShape("BTC.BTC");
    ParsePrintedCoin(Coin(BTC, 50, 8));
    NotCoinTexts();
  }

  lemma NotCoinTexts()
    ensures ParseCoin("50") == None && ParseCoin("5x BTC.BTC") == None && ParseCoin("50 BTC.BTC x") == None
    ensures ParseCoin("50 BT.BTC") == None
  {
    hide NewAsset, SplitSpaces;
    OnePart();
    assert "5x" + " " + "BTC.BTC" == "5x BTC.BTC" && "50" + " " + "BT.BTC" == "50 BT.BTC";
    SplitOnce("5x", "BTC.BTC");
    SplitOnce("50", "BT.BTC");
    assert !IsDigit("5x"[1]);
    ShortChain();
    ThreeParts();
  }

  lemma OnePart()
    ensures SplitSpaces("50") == ["50"]
  {
    FirstOfIs("50", {' '}, 2);
  }

  lemma ShortChain()
    ensures NewAsset("BT.BTC").Err?
  {
    hide NewAsset;
    assert "BT" + ['.'] + "BTC" == "BT.BTC";
    forall a ensures NewAsset("BT.BTC") != Ok(a) {
      CutAccepted("BT", '.', "BTC", a);
    }
    OkHasValue("BT.BTC");
  }

  lemma OkHasValue(input: string)
    ensures NewAsset(input).Ok? ==> exists a :: NewAsset(input) == Ok(a)
  {
    hide NewAsset;
    if NewAsset(input).Ok? {
      assert NewAsset(input) == Ok(NewAsset(input).value);
    }
  }

  lemma ThreeParts()
    ensures |SplitSpaces("50 BTC.BTC x")| == 3
  {
    FirstOfIs("50 BTC.BTC x", {' '}, 2);
    assert "50 BTC.BTC x"[3..] == "BTC.BTC" + " " + "x";
    SplitOnce("BTC.BTC", "x");
  }
}
