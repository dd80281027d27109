/** Coins and the messages that carry them, as values: what is written, and that it comes back. */
module CoinMessages {
  import opened Machine
  import opened Skipper
  import opened Wire
  import opened Messages

  /** The amount is what its own type writes for it. */
  datatype CoinValue = CoinValue(asset: AssetValue, amount: Slice, decimals: int64)

  datatype TxMessage = TxMessage(
    id: Slice, chain: Slice, fromAddress: Slice, toAddress: Slice, coins: seq<CoinValue>, gas: seq<CoinValue>,
    memo: Slice)

  datatype SolvencyMessage = SolvencyMessage(
    id: Slice, chain: Slice, pubKey: Slice, coins: seq<CoinValue>, height: int64)

  const EMPTY_COIN := CoinValue(EMPTY_ASSET, [], 0)
  const EMPTY_TX := TxMessage([], [], [], [], [], [], [])
  const EMPTY_SOLVENCY := SolvencyMessage([], [], [], [], 0)

  // ----- what is written -----

  /** Asset and amount are written even when they are empty. */
  function CoinBytes(c: CoinValue): seq<byte> {
    MessageBytes(1, AssetBytes(c.asset)) + (MessageBytes(2, c.amount) + VarintBytes(3, Uint64(c.decimals)))
  }

  predicate CoinsFit(cs: seq<CoinValue>) {
    forall k :: 0 <= k < |cs| ==> |CoinBytes(cs[k])| <= MAX_INT
  }

  function CoinPayloads(cs: seq<CoinValue>): (ps: seq<Slice>)
    requires CoinsFit(cs)
    ensures |ps| == |cs|
    ensures forall k :: 0 <= k < |cs| ==> ps[k] == CoinBytes(cs[k])
  {
    seq(|cs|, k requires 0 <= k < |cs| => CoinBytes(cs[k]))
  }

  function TxBytes(m: TxMessage): seq<byte>
    requires CoinsFit(m.coins) && CoinsFit(m.gas)
  {
    StringBytes(1, m.id) + (StringBytes(2, m.chain) + (StringBytes(3, m.fromAddress) + (StringBytes(4, m.toAddress)
    + (RepeatedBytes(5, CoinPayloads(m.coins)) + (RepeatedBytes(6, CoinPayloads(m.gas)) + StringBytes(7, m.memo))))))
  }

  function SolvencyBytes(m: SolvencyMessage): seq<byte>
    requires CoinsFit(m.coins)
  {
    StringBytes(1, m.id) + (StringBytes(2, m.chain) + (StringBytes(3, m.pubKey)
    + (RepeatedBytes(4, CoinPayloads(m.coins)) + VarintBytes(5, Uint64(m.height)))))
  }

  // ----- what a field number means -----

  function CoinKind(num: int): Kind {
    if num == 1 || num == 2 then BytesKind else if num == 3 then VarintKind else UnknownKind
  }

  function CoinApply(m: CoinValue, f: Field): Outcome<CoinValue> {
    match f
    case BytesField(1, s) =>
      (match Decode(AssetSchema(), s, 0, m.asset)
       case Done(asset) => Done(m.(asset := asset))
       case Failed(asset, e) => Failed(m.(asset := asset), e))
    case BytesField(2, s) => Done(m.(amount := s))
    case VarintField(3, v) => Done(m.(decimals := Int64(v)))
    case _ => Done(m)
  }

  function CoinPartial(m: CoinValue, num: int, v: uint64): CoinValue {
    if num == 3 then m.(decimals := Int64(v)) else m
  }

  function CoinSchema(): Schema<CoinValue> {
    Schema(CoinKind, CoinApply, CoinPartial)
  }

  function TxKind(num: int): Kind {
    if 1 <= num <= 7 then BytesKind else UnknownKind
  }

  /** A coin is appended before its bytes are looked at. */
  function TxApply(m: TxMessage, f: Field): Outcome<TxMessage> {
    match f
    case BytesField(1, s) => Done(m.(id := s))
    case BytesField(2, s) => Done(m.(chain := s))
    case BytesField(3, s) => Done(m.(fromAddress := s))
    case BytesField(4, s) => Done(m.(toAddress := s))
    case BytesField(5, s) =>
      (match Decode(CoinSchema(), s, 0, EMPTY_COIN)
       case Done(c) => Done(m.(coins := m.coins + [c]))
       case Failed(c, e) => Failed(m.(coins := m.coins + [c]), e))
    case BytesField(6, s) =>
      (match Decode(CoinSchema(), s, 0, EMPTY_COIN)
       case Done(c) => Done(m.(gas := m.gas + [c]))
       case Failed(c, e) => Failed(m.(gas := m.gas + [c]), e))
    case BytesField(7, s) => Done(m.(memo := s))
    case _ => Done(m)
  }

  function TxPartial(m: TxMessage, num: int, v: uint64): TxMessage {
    m
  }

  function TxSchema(): Schema<TxMessage> {
    Schema(TxKind, TxApply, TxPartial)
  }

  function SolvencyKind(num: int): Kind {
    if 1 <= num <= 4 then BytesKind else if num == 5 then VarintKind else UnknownKind
  }

  function SolvencyApply(m: SolvencyMessage, f: Field): Outcome<SolvencyMessage> {
    match f
    case BytesField(1, s) => Done(m.(id := s))
    case BytesField(2, s) => Done(m.(chain := s))
    case BytesField(3, s) => Done(m.(pubKey := s))
    case BytesField(4, s) =>
      (match Decode(CoinSchema(), s, 0, EMPTY_COIN)
       case Done(c) => Done(m.(coins := m.coins + [c]))
       case Failed(c, e) => Failed(m.(coins := m.coins + [c]), e))
    case VarintField(5, v) => Done(m.(height := Int64(v)))
    case _ => Done(m)
  }

  function SolvencyPartial(m: SolvencyMessage, num: int, v: uint64): SolvencyMessage {
    if num == 5 then m.(height := Int64(v)) else m
  }

  function SolvencySchema(): Schema<SolvencyMessage> {
    Schema(SolvencyKind, SolvencyApply, SolvencyPartial)
  }

  // ----- round trips -----

  lemma CoinRoundTrip(c: CoinValue)
    requires |CoinBytes(c)| <= MAX_INT
    ensures Decode(CoinSchema(), CoinBytes(c), 0, EMPTY_COIN) == Done(c)
  {
    hide Decode, MessageBytes, VarintBytes, AssetBytes;
    var sc := CoinSchema();
    var f1, f2 := MessageBytes(1, AssetBytes(c.asset)), MessageBytes(2, c.amount);
    var f3 := VarintBytes(3, Uint64(c.decimals));
    var m1 := EMPTY_COIN.(asset := c.asset);
    var m2 := m1.(amount := c.amount);
    PayloadFits(1, AssetBytes(c.asset));
    AssetRoundTrip(c.asset);
    Int64RoundTrip(c.decimals, 0);
    DecodeMessageBytes(sc, 1, AssetBytes(c.asset), 0, EMPTY_COIN);
    DecodeMessageBytes(sc, 2, c.amount, |f1|, m1);
    DecodeVarintBytes(sc, 3, Uint64(c.decimals), |f1| + |f2|, m2);
    DecodeBoth(sc, f2, f3, |f1|, m1, m2, c);
    DecodeBoth(sc, f1, f2 + f3, 0, EMPTY_COIN, m1, c);
  }

  /** The repeated coins of a field, when each is appended by `put`. */
  lemma DecodeCoins<M>(
    sc: Schema<M>, num: int32, cs: seq<CoinValue>, at: nat, put: seq<CoinValue> -> M)
    requires num > 0 && sc.kind(num) == BytesKind
    requires CoinsFit(cs) && at + |RepeatedBytes(num, CoinPayloads(cs))| <= MAX_INT
    requires forall k :: 0 <= k < |cs| && Decode(CoinSchema(), CoinBytes(cs[k]), 0, EMPTY_COIN) == Done(cs[k])
               ==> sc.apply(put(cs[..k]), BytesField(num, CoinPayloads(cs)[k])) == Done(put(cs[..k] + [cs[k]]))
    ensures Decode(sc, RepeatedBytes(num, CoinPayloads(cs)), at, put([])) == Done(put(cs))
  {
    hide Decode, CoinBytes, RepeatedBytes;
    var states := seq(|cs| + 1, k requires 0 <= k <= |cs| => put(cs[..k]));
    forall k | 0 <= k < |cs|
      ensures sc.apply(states[k], BytesField(num, CoinPayloads(cs)[k])) == Done(states[k + 1])
    {
      CoinRoundTrip(cs[k]);
      assert cs[..k + 1] == cs[..k] + [cs[k]];
    }
    DecodeRepeated(sc, num, CoinPayloads(cs), at, states);
    assert cs[..0] == [] && cs[..|cs|] == cs;
  }

  /** Every transaction comes back, coins and gas in order. */
  lemma TxRoundTrip(m: TxMessage)
    requires CoinsFit(m.coins) && CoinsFit(m.gas) && |TxBytes(m)| <= MAX_INT
    ensures Decode(TxSchema(), TxBytes(m), 0, EMPTY_TX) == Done(m)
  {
    hide Decode, StringBytes, RepeatedBytes, CoinBytes, CoinsFit, CoinPayloads;
    var sc := TxSchema();
    var f1, f2 := StringBytes(1, m.id), StringBytes(2, m.chain);
    var f3, f4 := StringBytes(3, m.fromAddress), StringBytes(4, m.toAddress);
    var f5, f6 := RepeatedBytes(5, CoinPayloads(m.coins)), RepeatedBytes(6, CoinPayloads(m.gas));
    var f7 := StringBytes(7, m.memo);
    var i2 := |f1|;
    var i3 := i2 + |f2|;
    var i4 := i3 + |f3|;
    var i5 := i4 + |f4|;
    var i6 := i5 + |f5|;
    var i7 := i6 + |f6|;
    var m1 := EMPTY_TX.(id := m.id);
    var m2 := m1.(chain := m.chain);
    var m3 := m2.(fromAddress := m.fromAddress);
    var m4 := m3.(toAddress := m.toAddress);
    var m5 := m4.(coins := m.coins);
    var m6 := m5.(gas := m.gas);
    DecodeStringBytes(sc, 1, m.id, 0, EMPTY_TX);
    DecodeStringBytes(sc, 2, m.chain, i2, m1);
    DecodeStringBytes(sc, 3, m.fromAddress, i3, m2);
    DecodeStringBytes(sc, 4, m.toAddress, i4, m3);
    DecodeCoins(sc, 5, m.coins, i5, cs => m4.(coins := cs));
    DecodeCoins(sc, 6, m.gas, i6, cs => m5.(gas := cs));
    DecodeStringBytes(sc, 7, m.memo, i7, m6);
    DecodeBoth(sc, f6, f7, i6, m5, m6, m);
    DecodeBoth(sc, f5, f6 + f7, i5, m4, m5, m);
    DecodeBoth(sc, f4, f5 + (f6 + f7), i4, m3, m4, m);
    DecodeBoth(sc, f3, f4 + (f5 + (f6 + f7)), i3, m2, m3, m);
    DecodeBoth(sc, f2, f3 + (f4 + (f5 + (f6 + f7))), i2, m1, m2, m);
    DecodeBoth(sc, f1, f2 + (f3 + (f4 + (f5 + (f6 + f7)))), 0, EMPTY_TX, m1, m);
  }

  /** Every solvency message comes back. */
  lemma SolvencyRoundTrip(m: SolvencyMessage)
    requires CoinsFit(m.coins) && |SolvencyBytes(m)| <= MAX_INT
    ensures Decode(SolvencySchema(), SolvencyBytes(m), 0, EMPTY_SOLVENCY) == Done(m)
  {
    hide Decode, StringBytes, VarintBytes, RepeatedBytes, CoinBytes, CoinsFit, CoinPayloads;
    var sc := SolvencySchema();
    var f1, f2, f3 := StringBytes(1, m.id), StringBytes(2, m.chain), StringBytes(3, m.pubKey);
    var f4, f5 := RepeatedBytes(4, CoinPayloads(m.coins)), VarintBytes(5, Uint64(m.height));
    var i2 := |f1|;
    var i3 := i2 + |f2|;
    var i4 := i3 + |f3|;
    var i5 := i4 + |f4|;
    var m1 := EMPTY_SOLVENCY.(id := m.id);
    var m2 := m1.(chain := m.chain);
    var m3 := m2.(pubKey := m.pubKey);
    var m4 := m3.(coins := m.coins);
    Int64RoundTrip(m.height, 0);
    DecodeStringBytes(sc, 1, m.id, 0, EMPTY_SOLVENCY);
    DecodeStringBytes(sc, 2, m.chain, i2, m1);
    DecodeStringBytes(sc, 3, m.pubKey, i3, m2);
    DecodeCoins(sc, 4, m.coins, i4, cs => m3.(coins := cs));
    DecodeVarintBytes(sc, 5, Uint64(m.height), i5, m4);
    DecodeBoth(sc, f4, f5, i4, m3, m4, m);
    DecodeBoth(sc, f3, f4 + f5, i3, m2, m3, m);
    DecodeBoth(sc, f2, f3 + (f4 + f5), i2, m1, m2, m);
    DecodeBoth(sc, f1, f2 + (f3 + (f4 + f5)), 0, EMPTY_SOLVENCY, m1, m);
  }

  lemma TxBytesExact(a: TxMessage, b: TxMessage)
    requires CoinsFit(a.coins) && CoinsFit(a.gas) && |TxBytes(a)| <= MAX_INT
    requires CoinsFit(b.coins) && CoinsFit(b.gas) && |TxBytes(b)| <= MAX_INT
    ensures TxBytes(a) == TxBytes(b) <==> a == b
  {
    hide Decode, TxBytes, CoinsFit;
    TxRoundTrip(a);
    TxRoundTrip(b);
  }

  lemma SolvencyBytesExact(a: SolvencyMessage, b: SolvencyMessage)
    requires CoinsFit(a.coins) && |SolvencyBytes(a)| <= MAX_INT
    requires CoinsFit(b.coins) && |SolvencyBytes(b)| <= MAX_INT
    ensures SolvencyBytes(a) == SolvencyBytes(b) <==> a == b
  {
    hide Decode, SolvencyBytes, CoinsFit;
    SolvencyRoundTrip(a);
    SolvencyRoundTrip(b);
  }

  // ----- the numbers and wire types of the fields -----

  lemma CoinTakes(e: Element)
    ensures Takes(CoinKind, e)
       <==> && WellFormed(e) && FieldNumber(e) > 0
            && (FieldNumber(e) == 1 || FieldNumber(e) == 2 ==> e.Delimited?)
            && (FieldNumber(e) == 3 ==> e.VarintElement?)
  {
    hide WellFormed, FieldNumber;
  }

  lemma TxTakes(e: Element)
    ensures Takes(TxKind, e)
       <==> WellFormed(e) && FieldNumber(e) > 0 && (1 <= FieldNumber(e) <= 7 ==> e.Delimited?)
  {
    hide WellFormed, FieldNumber;
  }

  lemma SolvencyTakes(e: Element)
    ensures Takes(SolvencyKind, e)
       <==> && WellFormed(e) && FieldNumber(e) > 0
            && (1 <= FieldNumber(e) <= 4 ==> e.Delimited?) && (FieldNumber(e) == 5 ==> e.VarintElement?)
  {
    hide WellFormed, FieldNumber;
  }
}
