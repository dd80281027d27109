/** The one canonical form of each message, and one encoding of each in full. */
module Forms {
  import opened Machine
  import opened Results
  import opened Varints
  import opened Wire
  import opened Messages
  import opened CoinMessages
  import opened Canonical

  // ----- messages whose fields are left out when they have their default -----

  /** A field with something in it. */
  predicate NotDefault(f: Field) {
    match f
    case VarintField(_, v) => v != 0
    case BytesField(_, s) => |s| > 0
    case SkippedField => false
  }

  /** The same for messages whose varints are all flags. */
  predicate FlagOrBytes(f: Field) {
    match f
    case VarintField(_, v) => v == 1
    case BytesField(_, s) => |s| > 0
    case SkippedField => false
  }

  function BytesContent(num: int, s: Slice): Option<Field> {
    if |s| > 0 then Some(BytesField(num, s)) else None
  }

  function VarintContent(num: int, v: uint64): Option<Field> {
    if v != 0 then Some(VarintField(num, v)) else None
  }

  function AssetContent(m: AssetValue, num: int): Option<Field> {
    match num
    case 1 => BytesContent(1, m.chain)
    case 2 => BytesContent(2, m.symbol)
    case 3 => BytesContent(3, m.ticker)
    case 4 => VarintContent(4, Bit(m.synth))
    case 5 => VarintContent(5, Bit(m.trade))
    case 6 => VarintContent(6, Bit(m.secured))
    case _ => None
  }

  function NetworkFeeContent(m: NetworkFeeValue, num: int): Option<Field> {
    match num
    case 1 => VarintContent(1, Uint64(m.height))
    case 2 => BytesContent(2, m.chain)
    case 3 => VarintContent(3, m.transactionSize)
    case 4 => VarintContent(4, m.transactionRate)
    case _ => None
  }

  function AttestationContent(m: AttestationValue, num: int): Option<Field> {
    match num
    case 1 => BytesContent(1, m.pubKey)
    case 2 => BytesContent(2, m.signature)
    case _ => None
  }

  function ErrataTxContent(m: ErrataTxValue, num: int): Option<Field> {
    match num
    case 1 => BytesContent(1, m.id)
    case 2 => BytesContent(2, m.chain)
    case _ => None
  }

  lemma AssetTracks()
    ensures Tracks(AssetSchema(), FlagOrBytes, AssetContent)
  {
  }

  lemma NetworkFeeTracks()
    ensures Tracks(NetworkFeeSchema(), NotDefault, NetworkFeeContent)
  {
    forall v: uint64 ensures Uint64(Int64(v)) == v {
      Int64RoundTrip(0, v);
    }
  }

  lemma AttestationTracks()
    ensures Tracks(AttestationSchema(), NotDefault, AttestationContent)
  {
  }

  lemma ErrataTxTracks()
    ensures Tracks(ErrataTxSchema(), NotDefault, ErrataTxContent)
  {
  }

  lemma AssetIsCanonical(m: AssetValue)
    requires |AssetBytes(m)| <= MAX_INT
    ensures IsCanonical(AssetSchema(), FlagOrBytes, EMPTY_ASSET, m, AssetBytes(m))
  {
    hide Decode, StringBytes, VarintBytes, IsList;
    var sc, ok := AssetSchema(), FlagOrBytes;
    var k := sc.kind;
    var e1, e2, e3 := StringElements(1, m.chain), StringElements(2, m.symbol), StringElements(3, m.ticker);
    var e4, e5 := VarintElements(4, Bit(m.synth)), VarintElements(5, Bit(m.trade));
    var e6 := VarintElements(6, Bit(m.secured));
    var s1, s2, s3 := StringBytes(1, m.chain), StringBytes(2, m.symbol), StringBytes(3, m.ticker);
    var s4, s5 := VarintBytes(4, Bit(m.synth)), VarintBytes(5, Bit(m.trade));
    var s6 := VarintBytes(6, Bit(m.secured));
    StringList(k, ok, 1, 1, m.chain);
    StringList(k, ok, 1, 2, m.symbol);
    StringList(k, ok, 1, 3, m.ticker);
    VarintList(k, ok, 1, 4, Bit(m.synth));
    VarintList(k, ok, 1, 5, Bit(m.trade));
    VarintList(k, ok, 1, 6, Bit(m.secured));
    ListConcat(k, ok, e5, e6, 1, 5, 5, 6, s5, s6);
    ListConcat(k, ok, e4, e5 + e6, 1, 4, 4, 6, s4, s5 + s6);
    ListConcat(k, ok, e3, e4 + (e5 + e6), 1, 3, 3, 6, s3, s4 + (s5 + s6));
    ListConcat(k, ok, e2, e3 + (e4 + (e5 + e6)), 1, 2, 2, 6, s2, s3 + (s4 + (s5 + s6)));
    ListConcat(k, ok, e1, e2 + (e3 + (e4 + (e5 + e6))), 1, 1, 1, 6, s1, s2 + (s3 + (s4 + (s5 + s6))));
    AssetRoundTrip(m);
    ListIsCanonical(sc, ok, e1 + (e2 + (e3 + (e4 + (e5 + e6)))), 6, EMPTY_ASSET, m, AssetBytes(m));
  }

  lemma NetworkFeeIsCanonical(m: NetworkFeeValue)
    requires |NetworkFeeBytes(m)| <= MAX_INT
    ensures IsCanonical(NetworkFeeSchema(), NotDefault, EMPTY_NETWORK_FEE, m, NetworkFeeBytes(m))
  {
    hide Decode, StringBytes, VarintBytes, IsList;
    var sc, ok := NetworkFeeSchema(), NotDefault;
    var k := sc.kind;
    var e1, e2 := VarintElements(1, Uint64(m.height)), StringElements(2, m.chain);
    var e3, e4 := VarintElements(3, m.transactionSize), VarintElements(4, m.transactionRate);
    var s1, s2 := VarintBytes(1, Uint64(m.height)), StringBytes(2, m.chain);
    var s3, s4 := VarintBytes(3, m.transactionSize), VarintBytes(4, m.transactionRate);
    VarintList(k, ok, 1, 1, Uint64(m.height));
    StringList(k, ok, 1, 2, m.chain);
    VarintList(k, ok, 1, 3, m.transactionSize);
    VarintList(k, ok, 1, 4, m.transactionRate);
    ListConcat(k, ok, e3, e4, 1, 3, 3, 4, s3, s4);
    ListConcat(k, ok, e2, e3 + e4, 1, 2, 2, 4, s2, s3 + s4);
    ListConcat(k, ok, e1, e2 + (e3 + e4), 1, 1, 1, 4, s1, s2 + (s3 + s4));
    NetworkFeeRoundTrip(m);
    ListIsCanonical(sc, ok, e1 + (e2 + (e3 + e4)), 4, EMPTY_NETWORK_FEE, m, NetworkFeeBytes(m));
  }

  lemma AttestationIsCanonical(m: AttestationValue)
    requires |AttestationBytes(m)| <= MAX_INT
    ensures IsCanonical(AttestationSchema(), NotDefault, EMPTY_ATTESTATION, m, AttestationBytes(m))
  {
    hide Decode, StringBytes, IsList;
    var sc, ok := AttestationSchema(), NotDefault;
    var e1, e2 := StringElements(1, m.pubKey), StringElements(2, m.signature);
    StringList(sc.kind, ok, 1, 1, m.pubKey);
    StringList(sc.kind, ok, 1, 2, m.signature);
    ListConcat(sc.kind, ok, e1, e2, 1, 1, 1, 2, StringBytes(1, m.pubKey), StringBytes(2, m.signature));
    AttestationRoundTrip(m);
    ListIsCanonical(sc, ok, e1 + e2, 2, EMPTY_ATTESTATION, m, AttestationBytes(m));
  }

  lemma ErrataTxIsCanonical(m: ErrataTxValue)
    requires |ErrataTxBytes(m)| <= MAX_INT
    ensures IsCanonical(ErrataTxSchema(), NotDefault, EMPTY_ERRATA_TX, m, ErrataTxBytes(m))
  {
    hide Decode, StringBytes, IsList;
    var sc, ok := ErrataTxSchema(), NotDefault;
    var e1, e2 := StringElements(1, m.id), StringElements(2, m.chain);
    StringList(sc.kind, ok, 1, 1, m.id);
    StringList(sc.kind, ok, 1, 2, m.chain);
    ListConcat(sc.kind, ok, e1, e2, 1, 1, 1, 2, StringBytes(1, m.id), StringBytes(2, m.chain));
    ErrataTxRoundTrip(m);
    ListIsCanonical(sc, ok, e1 + e2, 2, EMPTY_ERRATA_TX, m, ErrataTxBytes(m));
  }

  /** What is written is the one list of short elements, in the order of their numbers and without defaults, that means
      the message. */
  lemma AssetCanonicalExactly(m: AssetValue, s: seq<byte>)
    requires |AssetBytes(m)| <= MAX_INT
    ensures IsCanonical(AssetSchema(), FlagOrBytes, EMPTY_ASSET, m, s) <==> s == AssetBytes(m)
  {
    hide Tracks, IsCanonical, AssetBytes;
    AssetTracks();
    AssetIsCanonical(m);
    if IsCanonical(AssetSchema(), FlagOrBytes, EMPTY_ASSET, m, s) {
      CanonicalUnique(AssetSchema(), FlagOrBytes, AssetContent, EMPTY_ASSET, m, s, AssetBytes(m));
    }
  }

  lemma NetworkFeeCanonicalExactly(m: NetworkFeeValue, s: seq<byte>)
    requires |NetworkFeeBytes(m)| <= MAX_INT
    ensures IsCanonical(NetworkFeeSchema(), NotDefault, EMPTY_NETWORK_FEE, m, s) <==> s == NetworkFeeBytes(m)
  {
    hide Tracks, IsCanonical, NetworkFeeBytes;
    NetworkFeeTracks();
    NetworkFeeIsCanonical(m);
    if IsCanonical(NetworkFeeSchema(), NotDefault, EMPTY_NETWORK_FEE, m, s) {
      CanonicalUnique(NetworkFeeSchema(), NotDefault, NetworkFeeContent, EMPTY_NETWORK_FEE, m, s, NetworkFeeBytes(m));
    }
  }

  lemma AttestationCanonicalExactly(m: AttestationValue, s: seq<byte>)
    requires |AttestationBytes(m)| <= MAX_INT
    ensures IsCanonical(AttestationSchema(), NotDefault, EMPTY_ATTESTATION, m, s) <==> s == AttestationBytes(m)
  {
    hide Tracks, IsCanonical, AttestationBytes;
    AttestationTracks();
    AttestationIsCanonical(m);
    if IsCanonical(AttestationSchema(), NotDefault, EMPTY_ATTESTATION, m, s) {
      CanonicalUnique(
        AttestationSchema(), NotDefault, AttestationContent, EMPTY_ATTESTATION, m, s, AttestationBytes(m));
    }
  }

  lemma ErrataTxCanonicalExactly(m: ErrataTxValue, s: seq<byte>)
    requires |ErrataTxBytes(m)| <= MAX_INT
    ensures IsCanonical(ErrataTxSchema(), NotDefault, EMPTY_ERRATA_TX, m, s) <==> s == ErrataTxBytes(m)
  {
    hide Tracks, IsCanonical, ErrataTxBytes;
    ErrataTxTracks();
    ErrataTxIsCanonical(m);
    if IsCanonical(ErrataTxSchema(), NotDefault, EMPTY_ERRATA_TX, m, s) {
      CanonicalUnique(ErrataTxSchema(), NotDefault, ErrataTxContent, EMPTY_ERRATA_TX, m, s, ErrataTxBytes(m));
    }
  }

  // ----- messages with embedded and repeated ones -----

  /** In the order of their numbers, repeated ones in a row. */
  lemma QuorumInOrder(m: QuorumNetworkFeeValue)
    requires |QuorumBytes(m)| <= MAX_INT
    ensures IsForm(QuorumSchema(), 0, EMPTY_QUORUM, m, QuorumBytes(m))
  {
    hide Decode, MessageBytes, IsList, NetworkFeeBytes, AttestationBytes, RepeatedBytes, IsForm;
    var sc, ok := QuorumSchema(), AnyField;
    PartsFit(m);
    var ps := AttestationPayloads(m.attestations);
    AttestationsAreRepeated(m.attestations);
    RepeatedList(sc.kind, ok, 2, ps);
    var e1 := if m.networkFee.None? then [] else [MessageElement(1, NetworkFeeBytes(m.networkFee.value))];
    NoList(sc.kind, ok, 0, 1);
    if m.networkFee.Some? {
      MessageList(sc.kind, ok, 0, 1, NetworkFeeBytes(m.networkFee.value));
    }
    ListConcat(sc.kind, ok, e1, RepeatedElements(2, ps), 0, 1, 1, 2,
               OptionalNetworkFeeBytes(m.networkFee), RepeatedBytes(2, ps));
    QuorumRoundTrip(m);
    ListIsForm(sc, ok, e1 + RepeatedElements(2, ps), 2, EMPTY_QUORUM, m, QuorumBytes(m));
  }

  predicate AttestationsFit(ms: seq<AttestationValue>) {
    forall k :: 0 <= k < |ms| ==> |AttestationBytes(ms[k])| <= MAX_INT
  }

  function AttestationPayloads(ms: seq<AttestationValue>): (ps: seq<Slice>)
    requires AttestationsFit(ms)
    ensures |ps| == |ms|
    ensures forall k :: 0 <= k < |ms| ==> ps[k] == AttestationBytes(ms[k])
  {
    seq(|ms|, k requires 0 <= k < |ms| => AttestationBytes(ms[k]))
  }

  lemma {:induction false} AttestationsFitIn(ms: seq<AttestationValue>)
    requires |AttestationsBytes(ms)| <= MAX_INT
    ensures AttestationsFit(ms)
  {
    hide AttestationBytes, MessageBytes;
    if |ms| > 0 {
      PayloadFits(2, AttestationBytes(ms[0]));
      AttestationsFitIn(ms[1..]);
      assert forall k :: 1 <= k < |ms| ==> ms[k] == ms[1..][k - 1];
    }
  }

  lemma PartsFit(m: QuorumNetworkFeeValue)
    requires |QuorumBytes(m)| <= MAX_INT
    ensures AttestationsFit(m.attestations)
    ensures m.networkFee.Some? ==> |NetworkFeeBytes(m.networkFee.value)| <= MAX_INT
  {
    hide MessageBytes, NetworkFeeBytes, AttestationsBytes;
    AttestationsFitIn(m.attestations);
    if m.networkFee.Some? {
      PayloadFits(1, NetworkFeeBytes(m.networkFee.value));
    }
  }

  lemma {:induction false} AttestationsAreRepeated(ms: seq<AttestationValue>)
    requires AttestationsFit(ms)
    ensures RepeatedBytes(2, AttestationPayloads(ms)) == AttestationsBytes(ms)
  {
    hide AttestationBytes, MessageBytes;
    if |ms| > 0 {
      AttestationsAreRepeated(ms[1..]);
      assert AttestationPayloads(ms)[1..] == AttestationPayloads(ms[1..]);
    }
  }

  lemma CoinInOrder(c: CoinValue)
    requires |CoinBytes(c)| <= MAX_INT
    ensures IsForm(CoinSchema(), 0, EMPTY_COIN, c, CoinBytes(c))
  {
    hide Decode, MessageBytes, VarintBytes, IsList, AssetBytes, IsForm;
    var sc, ok := CoinSchema(), AnyField;
    var k := sc.kind;
    PayloadFits(1, AssetBytes(c.asset));
    var e1, e2 := [MessageElement(1, AssetBytes(c.asset))], [MessageElement(2, c.amount)];
    var e3 := VarintElements(3, Uint64(c.decimals));
    var s1, s2 := MessageBytes(1, AssetBytes(c.asset)), MessageBytes(2, c.amount);
    var s3 := VarintBytes(3, Uint64(c.decimals));
    MessageList(k, ok, 0, 1, AssetBytes(c.asset));
    MessageList(k, ok, 0, 2, c.amount);
    VarintList(k, ok, 0, 3, Uint64(c.decimals));
    ListConcat(k, ok, e2, e3, 0, 2, 2, 3, s2, s3);
    ListConcat(k, ok, e1, e2 + e3, 0, 1, 1, 3, s1, s2 + s3);
    CoinRoundTrip(c);
    ListIsForm(sc, ok, e1 + (e2 + e3), 3, EMPTY_COIN, c, CoinBytes(c));
  }

  lemma TxInOrder(m: TxMessage)
    requires CoinsFit(m.coins) && CoinsFit(m.gas) && |TxBytes(m)| <= MAX_INT
    ensures IsForm(TxSchema(), 0, EMPTY_TX, m, TxBytes(m))
  {
    hide Decode, StringBytes, RepeatedBytes, IsList, CoinPayloads, CoinsFit, IsForm;
    var sc, ok := TxSchema(), AnyField;
    var k := sc.kind;
    var e1, e2 := StringElements(1, m.id), StringElements(2, m.chain);
    var e3, e4 := StringElements(3, m.fromAddress), StringElements(4, m.toAddress);
    var p5, p6 := CoinPayloads(m.coins), CoinPayloads(m.gas);
    var e5, e6, e7 := RepeatedElements(5, p5), RepeatedElements(6, p6), StringElements(7, m.memo);
    var s1, s2, s3 := StringBytes(1, m.id), StringBytes(2, m.chain), StringBytes(3, m.fromAddress);
    var s4, s5, s6 := StringBytes(4, m.toAddress), RepeatedBytes(5, p5), RepeatedBytes(6, p6);
    var s7 := StringBytes(7, m.memo);
    StringList(k, ok, 0, 1, m.id);
    StringList(k, ok, 0, 2, m.chain);
    StringList(k, ok, 0, 3, m.fromAddress);
    StringList(k, ok, 0, 4, m.toAddress);
    RepeatedList(k, ok, 5, p5);
    RepeatedList(k, ok, 6, p6);
    StringList(k, ok, 0, 7, m.memo);
    ListConcat(k, ok, e6, e7, 0, 6, 6, 7, s6, s7);
    ListConcat(k, ok, e5, e6 + e7, 0, 5, 5, 7, s5, s6 + s7);
    ListConcat(k, ok, e4, e5 + (e6 + e7), 0, 4, 4, 7, s4, s5 + (s6 + s7));
    ListConcat(k, ok, e3, e4 + (e5 + (e6 + e7)), 0, 3, 3, 7, s3, s4 + (s5 + (s6 + s7)));
    ListConcat(k, ok, e2, e3 + (e4 + (e5 + (e6 + e7))), 0, 2, 2, 7, s2, s3 + (s4 + (s5 + (s6 + s7))));
    ListConcat(k, ok, e1, e2 + (e3 + (e4 + (e5 + (e6 + e7)))), 0, 1, 1, 7, s1, s2 + (s3 + (s4 + (s5 + (s6 + s7)))));
    TxRoundTrip(m);
    ListIsForm(sc, ok, e1 + (e2 + (e3 + (e4 + (e5 + (e6 + e7))))), 7, EMPTY_TX, m, TxBytes(m));
  }

  lemma SolvencyInOrder(m: SolvencyMessage)
    requires CoinsFit(m.coins) && |SolvencyBytes(m)| <= MAX_INT
    ensures IsForm(SolvencySchema(), 0, EMPTY_SOLVENCY, m, SolvencyBytes(m))
  {
    hide Decode, StringBytes, VarintBytes, RepeatedBytes, IsList, CoinPayloads, CoinsFit, IsForm;
    var sc, ok := SolvencySchema(), AnyField;
    var k := sc.kind;
    var p4 := CoinPayloads(m.coins);
    var e1, e2, e3 := StringElements(1, m.id), StringElements(2, m.chain), StringElements(3, m.pubKey);
    var e4, e5 := RepeatedElements(4, p4), VarintElements(5, Uint64(m.height));
    var s1, s2, s3 := StringBytes(1, m.id), StringBytes(2, m.chain), StringBytes(3, m.pubKey);
    var s4, s5 := RepeatedBytes(4, p4), VarintBytes(5, Uint64(m.height));
    StringList(k, ok, 0, 1, m.id);
    StringList(k, ok, 0, 2, m.chain);
    StringList(k, ok, 0, 3, m.pubKey);
    RepeatedList(k, ok, 4, p4);
    VarintList(k, ok, 0, 5, Uint64(m.height));
    ListConcat(k, ok, e4, e5, 0, 4, 4, 5, s4, s5);
    ListConcat(k, ok, e3, e4 + e5, 0, 3, 3, 5, s3, s4 + s5);
    ListConcat(k, ok, e2, e3 + (e4 + e5), 0, 2, 2, 5, s2, s3 + (s4 + s5));
    ListConcat(k, ok, e1, e2 + (e3 + (e4 + e5)), 0, 1, 1, 5, s1, s2 + (s3 + (s4 + s5)));
    SolvencyRoundTrip(m);
    ListIsForm(sc, ok, e1 + (e2 + (e3 + (e4 + e5))), 5, EMPTY_SOLVENCY, m, SolvencyBytes(m));
  }

  // ----- one encoding of each message in full -----

  lemma SmallVarint(num: nat, v: uint64)
    requires 0 < num < 16 && v < 0x80
    ensures VarintBytes(num, v) == if v == 0 then [] else [8 * num, v]
  {
    hide TagBytes;
    TagIsByte(num, 0);
    assert Encode(v) == [v];
  }

  lemma SmallMessage(num: nat, payload: Slice)
    requires 0 < num < 16 && |payload| < 0x80
    ensures MessageBytes(num, payload) == [8 * num + 2, |payload|] + payload
    ensures StringBytes(num, payload) == if |payload| == 0 then [] else [8 * num + 2, |payload|] + payload
  {
    hide TagBytes;
    TagIsByte(num, 2);
    assert Encode(|payload|) == [|payload|];
    assert [8 * num + 2] + [|payload|] + payload == [8 * num + 2, |payload|] + payload;
  }

  /** Nothing is written for a message of defaults. */
  lemma NothingWritten()
    ensures AssetBytes(EMPTY_ASSET) == [] && NetworkFeeBytes(EMPTY_NETWORK_FEE) == []
    ensures AttestationBytes(EMPTY_ATTESTATION) == [] && ErrataTxBytes(EMPTY_ERRATA_TX) == []
    ensures QuorumBytes(EMPTY_QUORUM) == []
  {
  }

  /** The flags one by one. */
  lemma AssetInFull(synth: bool, trade: bool, secured: bool)
    ensures AssetBytes(AssetValue([0x42], [0x43, 0x44], [0x45], synth, trade, secured))
         == [0x0a, 1, 0x42] + ([0x12, 2, 0x43, 0x44] + ([0x1a, 1, 0x45] + ((if synth then [0x20, 1] else [])
            + ((if trade then [0x28, 1] else []) + (if secured then [0x30, 1] else [])))))
  {
    hide StringBytes, VarintBytes, Bit;
    Names();
    Flag(4, synth);
    Flag(5, trade);
    Flag(6, secured);
  }

  lemma Names()
    ensures StringBytes(1, [0x42]) == [0x0a, 1, 0x42] && StringBytes(2, [0x43, 0x44]) == [0x12, 2, 0x43, 0x44]
    ensures StringBytes(3, [0x45]) == [0x1a, 1, 0x45]
  {
    hide StringBytes;
    SmallMessage(1, [0x42]);
    SmallMessage(2, [0x43, 0x44]);
    SmallMessage(3, [0x45]);
  }

  lemma Flag(num: nat, b: bool)
    requires 0 < num < 16
    ensures VarintBytes(num, Bit(b)) == if b then [8 * num, 1] else []
  {
    SmallVarint(num, Bit(b));
  }

  lemma NetworkFeeInFull()
    ensures NetworkFeeBytes(NetworkFeeValue(1, [0x42, 0x43], 2, 3)) == [0x08, 1, 0x12, 2, 0x42, 0x43, 0x18, 2, 0x20, 3]
    ensures NetworkFeeBytes(NetworkFeeValue(0, [], 1, 2)) == [0x18, 1, 0x20, 2]
  {
    hide StringBytes, VarintBytes;
    SmallVarint(1, 1);
    SmallVarint(1, 0);
    SmallMessage(2, [0x42, 0x43]);
    SmallMessage(2, []);
    SmallVarint(3, 2);
    SmallVarint(4, 3);
    SmallVarint(3, 1);
    SmallVarint(4, 2);
  }

  lemma AttestationInFull()
    ensures AttestationBytes(AttestationValue([0x41], [0x42, 0x43])) == [0x0a, 1, 0x41, 0x12, 2, 0x42, 0x43]
  {
    hide StringBytes;
    SmallMessage(1, [0x41]);
    SmallMessage(2, [0x42, 0x43]);
  }

  lemma ErrataTxInFull()
    ensures ErrataTxBytes(ErrataTxValue([0x41], [0x42, 0x43])) == [0x0a, 1, 0x41, 0x12, 2, 0x42, 0x43]
  {
    hide StringBytes;
    SmallMessage(1, [0x41]);
    SmallMessage(2, [0x42, 0x43]);
  }

  lemma QuorumInFull()
    ensures QuorumBytes(QuorumNetworkFeeValue(
                          Some(NetworkFeeValue(0, [], 1, 2)),
                          [AttestationValue([0x41], [0x42, 0x43]), EMPTY_ATTESTATION]))
         == [0x0a, 4, 0x18, 1, 0x20, 2] + [0x12, 7, 0x0a, 1, 0x41, 0x12, 2, 0x42, 0x43, 0x12, 0]
    ensures QuorumBytes(QuorumNetworkFeeValue(Some(EMPTY_NETWORK_FEE), [])) == [0x0a, 0]
  {
    hide OptionalNetworkFeeBytes, AttestationsBytes;
    OneFee();
    NoFields();
    TwoAttestations();
  }

  lemma OneFee()
    ensures OptionalNetworkFeeBytes(Some(NetworkFeeValue(0, [], 1, 2))) == [0x0a, 4, 0x18, 1, 0x20, 2]
  {
    hide MessageBytes, NetworkFeeBytes;
    NetworkFeeInFull();
    SmallMessage(1, [0x18, 1, 0x20, 2]);
    assert [0x0a, 4] + [0x18, 1, 0x20, 2] == [0x0a, 4, 0x18, 1, 0x20, 2];
  }

  lemma NoFields()
    ensures OptionalNetworkFeeBytes(Some(EMPTY_NETWORK_FEE)) == [0x0a, 0] && AttestationsBytes([]) == []
  {
    hide MessageBytes, NetworkFeeBytes;
    NothingWritten();
    SmallMessage(1, []);
  }

  lemma TwoAttestations()
    ensures AttestationsBytes([AttestationValue([0x41], [0x42, 0x43]), EMPTY_ATTESTATION])
         == [0x12, 7, 0x0a, 1, 0x41, 0x12, 2, 0x42, 0x43, 0x12, 0]
  {
    hide MessageBytes, AttestationBytes;
    AttestationInFull();
    NothingWritten();
    var a, b := AttestationValue([0x41], [0x42, 0x43]), EMPTY_ATTESTATION;
    assert [a, b][1..] == [b] && [b][1..] == [];
    SmallMessage(2, [0x0a, 1, 0x41, 0x12, 2, 0x42, 0x43]);
    SmallMessage(2, []);
    assert AttestationsBytes([b]) == [0x12, 0];
    assert [0x12, 7] + [0x0a, 1, 0x41, 0x12, 2, 0x42, 0x43] == [0x12, 7, 0x0a, 1, 0x41, 0x12, 2, 0x42, 0x43];
  }

  const COIN := CoinValue(AssetValue([0x42], [], [], false, false, false), [0x35], 8)
  const COIN_BYTES: seq<byte> := [0x0a, 3, 0x0a, 1, 0x42, 0x12, 1, 0x35, 0x18, 8]

  lemma ChainOnly()
    ensures AssetBytes(COIN.asset) == [0x0a, 1, 0x42]
  {
    hide StringBytes, VarintBytes;
    SmallMessage(1, [0x42]);
    NoField(2);
    NoField(3);
    NoField(4);
    NoField(5);
    NoField(6);
  }

  lemma NoField(num: nat)
    ensures StringBytes(num, []) == [] && VarintBytes(num, 0) == []
  {
  }

  lemma CoinInFull()
    ensures CoinBytes(COIN) == COIN_BYTES
    ensures CoinBytes(EMPTY_COIN) == [0x0a, 0, 0x12, 0]
  {
    hide MessageBytes, AssetBytes, VarintBytes;
    ChainOnly();
    NothingWritten();
    SmallMessage(1, [0x0a, 1, 0x42]);
    SmallMessage(1, []);
    SmallMessage(2, [0x35]);
    SmallMessage(2, []);
    SmallVarint(3, 8);
    NoField(3);
  }

  lemma OneCoin(num: nat, c: CoinValue)
    requires 0 < num < 16 && |CoinBytes(c)| < 0x80
    ensures CoinsFit([c]) && RepeatedBytes(num, CoinPayloads([c])) == [8 * num + 2, |CoinBytes(c)|] + CoinBytes(c)
  {
    hide CoinBytes, MessageBytes;
    SmallMessage(num, CoinBytes(c));
    var ps := CoinPayloads([c]);
    assert ps[1..] == [];
    assert MessageBytes(num, CoinBytes(c)) + [] == MessageBytes(num, CoinBytes(c));
  }

  lemma TxInFull()
    ensures CoinsFit([COIN]) && CoinsFit([EMPTY_COIN])
    ensures TxBytes(TxMessage([0x31], [0x32], [0x33], [0x34], [COIN], [EMPTY_COIN], [0x37]))
         == [0x0a, 1, 0x31] + ([0x12, 1, 0x32] + ([0x1a, 1, 0x33] + ([0x22, 1, 0x34]
            + (([0x2a, 10] + COIN_BYTES) + (([0x32, 4] + [0x0a, 0, 0x12, 0]) + [0x3a, 1, 0x37])))))
  {
    hide StringBytes, RepeatedBytes, CoinBytes, CoinsFit;
    CoinInFull();
    Small7();
    OneCoin(5, COIN);
    OneCoin(6, EMPTY_COIN);
  }

  lemma Small7()
    ensures StringBytes(1, [0x31]) == [0x0a, 1, 0x31] && StringBytes(2, [0x32]) == [0x12, 1, 0x32]
    ensures StringBytes(3, [0x33]) == [0x1a, 1, 0x33] && StringBytes(4, [0x34]) == [0x22, 1, 0x34]
    ensures StringBytes(7, [0x37]) == [0x3a, 1, 0x37]
  {
    hide StringBytes;
    SmallMessage(1, [0x31]);
    SmallMessage(2, [0x32]);
    SmallMessage(3, [0x33]);
    SmallMessage(4, [0x34]);
    SmallMessage(7, [0x37]);
  }

  lemma SolvencyInFull()
    ensures CoinsFit([COIN])
    ensures SolvencyBytes(SolvencyMessage([0x31], [0x32], [0x33], [COIN], 5))
         == [0x0a, 1, 0x31] + ([0x12, 1, 0x32] + ([0x1a, 1, 0x33] + (([0x22, 10] + COIN_BYTES) + [0x28, 5])))
  {
    hide StringBytes, VarintBytes, RepeatedBytes, CoinBytes, CoinsFit, CoinPayloads;
    CoinInFull();
    OneCoin(4, COIN);
    SmallMessage(1, [0x31]);
    SmallMessage(2, [0x32]);
    SmallMessage(3, [0x33]);
    SmallVarint(5, 5);
  }

  /** Numbers of two bytes and more, and a negative one. */
  lemma LongVarints()
    ensures Encode(300) == [0xac, 0x02] && Base128([0xac, 0x02]) == 300
    ensures ReadVarint([0xac, 0x02, 0xff]) == Read(300, 2)
    ensures Encode(Uint64(-1)) == [0xff, 0xff, 0xff, 0xff, 0xff, 0xff, 0xff, 0xff, 0xff, 0x01]
  {
    assert Encode(2) == [2];
    assert Encode(300) == [0xac] + Encode(2);
    VarintRoundTrip(300, [0xff]);
    assert [0xac, 0x02] + [0xff] == [0xac, 0x02, 0xff];
    assert [0xac, 0x02][1..] == [0x02] && [0x02][1..] == [];
    AllOnes();
  }

  lemma AllOnes()
    ensures Encode(TWO_64 - 1) == [0xff, 0xff, 0xff, 0xff, 0xff, 0xff, 0xff, 0xff, 0xff, 0x01]
  {
    hide Encode;
    assert Encode(1) == [1] by { OneByte(1); }
    NextByte(0x7f, 1);
    NextByte(0x7f, 0xff);
    NextByte(0x7f, 0x7fff);
    NextByte(0x7f, 0x3f_ffff);
    NextByte(0x7f, 0x1fff_ffff);
    NextByte(0x7f, 0xf_ffff_ffff);
    NextByte(0x7f, 0x7ff_ffff_ffff);
    NextByte(0x7f, 0x3_ffff_ffff_ffff);
    NextByte(0x7f, 0x1ff_ffff_ffff_ffff);
  }

  lemma OneByte(v: nat)
    requires v < 0x80
    ensures Encode(v) == [v]
  {
  }

  lemma NextByte(low: nat, high: nat)
    requires low < 0x80 && high > 0
    ensures Encode(low + 0x80 * high) == [low + 0x80] + Encode(high)
  {
    EncodeStep(low + 0x80, high);
  }
}
