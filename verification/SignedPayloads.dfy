/** The bytes that nodes sign for transactions and solvency messages, against the equalities by which these are
    grouped. */
module SignedPayloads {
  import opened Machine
  import opened Results
  import opened Text
  import opened Wire
  import opened Assets
  import opened Coins
  import opened ComparisonSorts
  import opened TxEquality
  import opened Preimages
  import opened Messages
  import opened CoinMessages
  import ObservedTxs

  /** How text and amounts are written as bytes. */
  datatype Encoding = Encoding(text: string -> seq<byte>, number: nat -> seq<byte>)

  ghost predicate Injective(enc: Encoding) {
    && (forall s, t :: enc.text(s) == enc.text(t) ==> s == t)
    && (forall m, n :: enc.number(m) == enc.number(n) ==> m == n)
  }

  // ----- the wire form of the values -----

  predicate TextFits(enc: Encoding, s: string) {
    |enc.text(s)| <= MAX_INT
  }

  predicate AssetFits(enc: Encoding, a: Asset) {
    TextFits(enc, a.chain) && TextFits(enc, a.symbol) && TextFits(enc, a.ticker)
  }

  function AssetWire(enc: Encoding, a: Asset): AssetValue
    requires AssetFits(enc, a)
  {
    AssetValue(enc.text(a.chain), enc.text(a.symbol), enc.text(a.ticker), a.synth, a.trade, a.secured)
  }

  predicate CoinFits(enc: Encoding, c: Coin) {
    AssetFits(enc, c.asset) && |enc.number(c.amount)| <= MAX_INT && |CoinBytes(CoinWire(enc, c))| <= MAX_INT
  }

  function CoinWire(enc: Encoding, c: Coin): CoinValue
    requires AssetFits(enc, c.asset) && |enc.number(c.amount)| <= MAX_INT
  {
    CoinValue(AssetWire(enc, c.asset), enc.number(c.amount), c.decimals)
  }

  predicate AllFit(enc: Encoding, cs: seq<Coin>) {
    forall k :: 0 <= k < |cs| ==> CoinFits(enc, cs[k])
  }

  function CoinsWire(enc: Encoding, cs: seq<Coin>): (ws: seq<CoinValue>)
    requires AllFit(enc, cs)
    ensures |ws| == |cs| && CoinsFit(ws)
    ensures forall k :: 0 <= k < |cs| ==> ws[k] == CoinWire(enc, cs[k])
  {
    seq(|cs|, k requires 0 <= k < |cs| => CoinWire(enc, cs[k]))
  }

  predicate TxPartsFit(enc: Encoding, t: TxValue) {
    && TextFits(enc, t.id) && TextFits(enc, t.chain) && TextFits(enc, t.fromAddress) && TextFits(enc, t.toAddress)
    && AllFit(enc, t.coins) && AllFit(enc, t.gas) && TextFits(enc, t.memo)
  }

  function TxWire(enc: Encoding, t: TxValue): (m: TxMessage)
    requires TxPartsFit(enc, t)
    ensures CoinsFit(m.coins) && CoinsFit(m.gas)
  {
    TxMessage(enc.text(t.id), enc.text(t.chain), enc.text(t.fromAddress), enc.text(t.toAddress),
              CoinsWire(enc, t.coins), CoinsWire(enc, t.gas), enc.text(t.memo))
  }

  predicate TxFits(enc: Encoding, t: TxValue) {
    TxPartsFit(enc, t) && |TxBytes(TxWire(enc, t))| <= MAX_INT
  }

  /** What is signed for an observed transaction. */
  function TxPayload(enc: Encoding, t: TxValue): seq<byte>
    requires TxFits(enc, t)
  {
    TxBytes(TxWire(enc, t))
  }

  predicate SolvencyPartsFit(enc: Encoding, s: SolvencyValue) {
    TextFits(enc, s.id) && TextFits(enc, s.chain) && TextFits(enc, s.pubKey) && AllFit(enc, s.coins)
  }

  function SolvencyWire(enc: Encoding, s: SolvencyValue): (m: SolvencyMessage)
    requires SolvencyPartsFit(enc, s)
    ensures CoinsFit(m.coins)
  {
    SolvencyMessage(enc.text(s.id), enc.text(s.chain), enc.text(s.pubKey), CoinsWire(enc, s.coins), s.height)
  }

  predicate SolvencyFits(enc: Encoding, s: SolvencyValue) {
    SolvencyPartsFit(enc, s) && |SolvencyBytes(SolvencyWire(enc, s))| <= MAX_INT
  }

  /** The id that a message without one gets: the digest of its line. */
  function SolvencyHash(digest: string -> string, s: SolvencyValue): Option<string> {
    ObservedTxs.NewTxID(digest(SolvencyLine(s)))
  }

  /** The message with an id; None is an error. */
  function Signed(digest: string -> string, s: SolvencyValue): Option<SolvencyValue> {
    if !IsAllSpace(s.id) then Some(s)
    else
      match SolvencyHash(digest, s)
      case None => None
      case Some(id) => Some(s.(id := id))
  }

  predicate CanSign(enc: Encoding, digest: string -> string, s: SolvencyValue) {
    Signed(digest, s).Some? && SolvencyFits(enc, Signed(digest, s).value)
  }

  /** What is signed for a solvency message. */
  function SolvencyPayload(enc: Encoding, digest: string -> string, s: SolvencyValue): seq<byte>
    requires CanSign(enc, digest, s)
  {
    SolvencyBytes(SolvencyWire(enc, Signed(digest, s).value))
  }

  class Solvency {
    var id: string
    var chain: string
    var pubKey: string
    var coins: seq<Coin>
    var height: int64

    function Value(): SolvencyValue
      reads this
    {
      SolvencyValue(id, chain, pubKey, coins, height)
    }

    constructor (s: SolvencyValue)
      ensures id == s.id && chain == s.chain && pubKey == s.pubKey && coins == s.coins && height == s.height
      ensures Value() == s
    {
      id, chain, pubKey, coins, height := s.id, s.chain, s.pubKey, s.coins, s.height;
    }

    /** Fills in a missing id, and keeps it. */
    method GetSignablePayload(enc: Encoding, digest: string -> string) returns (payload: Option<seq<byte>>)
      requires Signed(digest, Value()).Some? ==> CanSign(enc, digest, Value())
      modifies this`id
      ensures match Signed(digest, old(Value()))
              case None => payload == None && Value() == old(Value())
              case Some(s) => Value() == s && payload == Some(SolvencyPayload(enc, digest, old(Value())))
    {
      hide SolvencyFits, SolvencyPartsFit, SolvencyBytes, SolvencyLine;
      if IsAllSpace(id) {
        var hash := SolvencyHash(digest, Value());
        if hash.None? {
          return None;
        }
        id := hash.value;
      }
      FitsMeansParts(enc, Value());
      return Some(SolvencyBytes(SolvencyWire(enc, Value())));
    }
  }

  lemma FitsMeansParts(enc: Encoding, s: SolvencyValue)
    requires SolvencyFits(enc, s)
    ensures SolvencyPartsFit(enc, s)
  {
  }

  // ----- what the signed bytes say -----

  /** A coin on the wire, field by field. */
  predicate WritesCoin(enc: Encoding, w: CoinValue, c: Coin) {
    && w.asset.chain == enc.text(c.asset.chain) && w.asset.symbol == enc.text(c.asset.symbol)
    && w.asset.ticker == enc.text(c.asset.ticker)
    && w.asset.synth == c.asset.synth && w.asset.trade == c.asset.trade && w.asset.secured == c.asset.secured
    && w.amount == enc.number(c.amount) && w.decimals == c.decimals
  }

  predicate WritesCoins(enc: Encoding, ws: seq<CoinValue>, cs: seq<Coin>) {
    |ws| == |cs| && forall k :: 0 <= k < |cs| ==> WritesCoin(enc, ws[k], cs[k])
  }

  lemma CoinsWritten(enc: Encoding, cs: seq<Coin>)
    requires AllFit(enc, cs)
    ensures WritesCoins(enc, CoinsWire(enc, cs), cs)
  {
    hide CoinBytes;
  }

  /** Unmarshalling the signed bytes of a transaction gives every part of it under its own name. */
  lemma TxPayloadReads(enc: Encoding, t: TxValue)
    requires TxFits(enc, t)
    ensures var r := Decode(TxSchema(), TxPayload(enc, t), 0, EMPTY_TX);
            && r.Done? && r.msg.id == enc.text(t.id) && r.msg.chain == enc.text(t.chain)
            && r.msg.fromAddress == enc.text(t.fromAddress) && r.msg.toAddress == enc.text(t.toAddress)
            && r.msg.memo == enc.text(t.memo)
            && WritesCoins(enc, r.msg.coins, t.coins) && WritesCoins(enc, r.msg.gas, t.gas)
  {
    hide Decode, TxBytes, CoinsWire, AllFit, WritesCoins;
    CoinsWritten(enc, t.coins);
    CoinsWritten(enc, t.gas);
    TxRoundTrip(TxWire(enc, t));
  }

  /** The same for a solvency message, with the id that it has after signing: its own, or if that is blank the digest of
      its line in upper case. */
  lemma SolvencyPayloadReads(enc: Encoding, digest: string -> string, s: SolvencyValue)
    requires CanSign(enc, digest, s)
    ensures var r := Decode(SolvencySchema(), SolvencyPayload(enc, digest, s), 0, EMPTY_SOLVENCY);
            && r.Done?
            && r.msg.id == enc.text(if IsAllSpace(s.id) then Upper(digest(SolvencyLine(s))) else s.id)
            && r.msg.chain == enc.text(s.chain) && r.msg.pubKey == enc.text(s.pubKey) && r.msg.height == s.height
            && WritesCoins(enc, r.msg.coins, s.coins)
  {
    hide Decode, SolvencyBytes, SolvencyLine, CoinsWire, AllFit, WritesCoins, IsAllSpace;
    var signed := Signed(digest, s).value;
    SignedExactly(digest, s);
    CoinsWritten(enc, signed.coins);
    SolvencyRoundTrip(SolvencyWire(enc, signed));
  }

  /** Signing fails exactly for a blank id when the digest of the line is no id; it changes nothing but the id. */
  lemma SignedExactly(digest: string -> string, s: SolvencyValue)
    ensures Signed(digest, s).Some? <==> !IsAllSpace(s.id) || ObservedTxs.Parses(digest(SolvencyLine(s)))
    ensures Signed(digest, s).Some? ==>
              var id := if IsAllSpace(s.id) then Upper(digest(SolvencyLine(s))) else s.id;
              Signed(digest, s).value == SolvencyValue(id, s.chain, s.pubKey, s.coins, s.height)
  {
    hide SolvencyLine, IsAllSpace;
  }

  // ----- the wire form determines the value -----

  lemma CoinWireUnique(enc: Encoding, c: Coin, d: Coin)
    requires Injective(enc) && CoinFits(enc, c) && CoinFits(enc, d)
    ensures CoinWire(enc, c) == CoinWire(enc, d) <==> c == d
  {
    hide CoinBytes;
  }

  lemma CoinsWireUnique(enc: Encoding, cs: seq<Coin>, ds: seq<Coin>)
    requires Injective(enc) && AllFit(enc, cs) && AllFit(enc, ds)
    ensures CoinsWire(enc, cs) == CoinsWire(enc, ds) <==> cs == ds
  {
    hide CoinFits, Injective, CoinWire;
    if CoinsWire(enc, cs) == CoinsWire(enc, ds) {
      forall k | 0 <= k < |cs| ensures cs[k] == ds[k] {
        assert CoinsWire(enc, cs)[k] == CoinsWire(enc, ds)[k];
        CoinWireUnique(enc, cs[k], ds[k]);
      }
    }
  }

  /** The signed bytes of a transaction determine all of it: spelling, order and decimals included. */
  lemma TxPayloadExact(enc: Encoding, t: TxValue, u: TxValue)
    requires Injective(enc) && TxFits(enc, t) && TxFits(enc, u)
    ensures TxPayload(enc, t) == TxPayload(enc, u) <==> t == u
  {
    hide AllFit, TxBytes, CoinsWire;
    CoinsWireUnique(enc, t.coins, u.coins);
    CoinsWireUnique(enc, t.gas, u.gas);
    TxBytesExact(TxWire(enc, t), TxWire(enc, u));
  }

  /** So observers who sign the same bytes are always grouped together. */
  lemma SameBytesCompareEqual(enc: Encoding, order: Sorter, t: TxValue, u: TxValue)
    requires IsSort(order) && Injective(enc) && TxFits(enc, t) && TxFits(enc, u)
    requires TxPayload(enc, t) == TxPayload(enc, u)
    ensures TxEquals(order, t, u)
  {
    hide TxFits, TxPayload, TxEquals, IsSort;
    TxPayloadExact(enc, t, u);
    TxEqualsIsEquivalence(order, t, t, t);
  }

  lemma SolvencyPayloadExact(enc: Encoding, s: SolvencyValue, t: SolvencyValue)
    requires Injective(enc) && SolvencyFits(enc, s) && SolvencyFits(enc, t)
    ensures SolvencyBytes(SolvencyWire(enc, s)) == SolvencyBytes(SolvencyWire(enc, t)) <==> s == t
  {
    hide AllFit, SolvencyBytes, CoinsWire;
    CoinsWireUnique(enc, s.coins, t.coins);
    SolvencyBytesExact(SolvencyWire(enc, s), SolvencyWire(enc, t));
  }

  /** Signing the same bytes and `Equals` disagree exactly on messages that are `Equals` but have other ids, or coins
      that differ in spelling or decimals. */
  lemma SolvencyPayloadAgrees(enc: Encoding, digest: string -> string, s: SolvencyValue, t: SolvencyValue)
    requires Injective(enc) && CanSign(enc, digest, s) && CanSign(enc, digest, t)
    ensures (SolvencyPayload(enc, digest, s) == SolvencyPayload(enc, digest, t) <==> SolvencyEquals(s, t))
       <==> !(SolvencyEquals(s, t)
              && (Signed(digest, s).value.id != Signed(digest, t).value.id || s.coins != t.coins))
  {
    hide SolvencyFits, SolvencyBytes, SolvencyWire, SolvencyHash;
    SolvencyPayloadExact(enc, Signed(digest, s).value, Signed(digest, t).value);
    if s.coins == t.coins {
      CoinsSameAsThemselves(s.coins);
    }
  }

  lemma CoinsSameAsThemselves(cs: seq<Coin>)
    ensures SameCoins(cs, cs)
  {
  }

  /** For messages that come without an id, with parsed coins, only the decimals of a coin are left to disagree on. */
  lemma FreshSolvencyAgrees(enc: Encoding, digest: string -> string, s: SolvencyValue, t: SolvencyValue)
    requires Injective(enc) && CanSign(enc, digest, s) && CanSign(enc, digest, t)
    requires IsAllSpace(s.id) && IsAllSpace(t.id) && IsHashableSolvency(s) && IsHashableSolvency(t)
    ensures (SolvencyPayload(enc, digest, s) == SolvencyPayload(enc, digest, t) <==> SolvencyEquals(s, t))
       <==> !(SolvencyEquals(s, t) && exists k :: 0 <= k < |s.coins| && s.coins[k].decimals != t.coins[k].decimals)
  {
    hide SolvencyFits, SolvencyBytes, SolvencyWire, SolvencyLine, IsHashableSolvency, SameCoins;
    SolvencyPayloadAgrees(enc, digest, s, t);
    SolvencyLineExact(s, t);
    if SolvencyEquals(s, t) {
      DecimalsDecide(s, t);
    }
  }

  lemma DecimalsDecide(s: SolvencyValue, t: SolvencyValue)
    requires IsHashableSolvency(s) && IsHashableSolvency(t) && SameCoins(s.coins, t.coins)
    ensures |s.coins| == |t.coins|
    ensures s.coins != t.coins <==> exists k :: 0 <= k < |s.coins| && s.coins[k].decimals != t.coins[k].decimals
  {
    hide IsParsed, Assets.Equals;
    forall k | 0 <= k < |s.coins| ensures s.coins[k] == t.coins[k] <==> s.coins[k].decimals == t.coins[k].decimals {
      EqualsOnParsed(s.coins[k].asset, t.coins[k].asset);
    }
  }
}
