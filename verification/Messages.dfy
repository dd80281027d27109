/** The messages as values: what is written for each, what each field number means to each, and how a message is
    merged into another. */
module Messages {
  import opened Machine
  import opened Results
  import opened Skipper
  import opened Wire

  datatype AssetValue = AssetValue(
    chain: Slice, symbol: Slice, ticker: Slice, synth: bool, trade: bool, secured: bool)

  datatype NetworkFeeValue = NetworkFeeValue(
    height: int64, chain: Slice, transactionSize: uint64, transactionRate: uint64)

  datatype AttestationValue = AttestationValue(pubKey: Slice, signature: Slice)

  datatype ErrataTxValue = ErrataTxValue(id: Slice, chain: Slice)

  datatype QuorumNetworkFeeValue = QuorumNetworkFeeValue(
    networkFee: Option<NetworkFeeValue>, attestations: seq<AttestationValue>)

  const EMPTY_ASSET := AssetValue([], [], [], false, false, false)
  const EMPTY_NETWORK_FEE := NetworkFeeValue(0, [], 0, 0)
  const EMPTY_ATTESTATION := AttestationValue([], [])
  const EMPTY_ERRATA_TX := ErrataTxValue([], [])
  const EMPTY_QUORUM := QuorumNetworkFeeValue(None, [])

  // ----- what is written -----

  function Bit(b: bool): uint64 {
    if b then 1 else 0
  }

  function AssetBytes(m: AssetValue): seq<byte> {
    StringBytes(1, m.chain) + (StringBytes(2, m.symbol) + (StringBytes(3, m.ticker)
    + (VarintBytes(4, Bit(m.synth)) + (VarintBytes(5, Bit(m.trade)) + VarintBytes(6, Bit(m.secured))))))
  }

  function NetworkFeeBytes(m: NetworkFeeValue): seq<byte> {
    VarintBytes(1, Uint64(m.height)) + (StringBytes(2, m.chain)
    + (VarintBytes(3, m.transactionSize) + VarintBytes(4, m.transactionRate)))
  }

  function AttestationBytes(m: AttestationValue): seq<byte> {
    StringBytes(1, m.pubKey) + StringBytes(2, m.signature)
  }

  function ErrataTxBytes(m: ErrataTxValue): seq<byte> {
    StringBytes(1, m.id) + StringBytes(2, m.chain)
  }

  function AttestationsBytes(ms: seq<AttestationValue>): seq<byte> {
    if |ms| == 0 then [] else MessageBytes(2, AttestationBytes(ms[0])) + AttestationsBytes(ms[1..])
  }

  function OptionalNetworkFeeBytes(m: Option<NetworkFeeValue>): seq<byte> {
    if m.None? then [] else MessageBytes(1, NetworkFeeBytes(m.value))
  }

  function QuorumBytes(m: QuorumNetworkFeeValue): seq<byte> {
    OptionalNetworkFeeBytes(m.networkFee) + AttestationsBytes(m.attestations)
  }

  // ----- what a field number means -----

  function AssetKind(num: int): Kind {
    if 1 <= num <= 3 then BytesKind else if 4 <= num <= 6 then VarintKind else UnknownKind
  }

  function AssetApply(m: AssetValue, f: Field): Outcome<AssetValue> {
    Done(match f
         case BytesField(1, s) => m.(chain := s)
         case BytesField(2, s) => m.(symbol := s)
         case BytesField(3, s) => m.(ticker := s)
         case VarintField(4, v) => m.(synth := v != 0)
         case VarintField(5, v) => m.(trade := v != 0)
         case VarintField(6, v) => m.(secured := v != 0)
         case _ => m)
  }

  /** A boolean is read into a local variable first, so nothing of a broken one arrives. */
  function AssetPartial(m: AssetValue, num: int, v: uint64): AssetValue {
    m
  }

  function AssetSchema(): Schema<AssetValue> {
    Schema(AssetKind, AssetApply, AssetPartial)
  }

  function NetworkFeeKind(num: int): Kind {
    if num == 2 then BytesKind else if 1 <= num <= 4 then VarintKind else UnknownKind
  }

  function NetworkFeeApply(m: NetworkFeeValue, f: Field): Outcome<NetworkFeeValue> {
    Done(match f
         case VarintField(num, v) => NetworkFeePartial(m, num, v)
         case BytesField(2, s) => m.(chain := s)
         case _ => m)
  }

  /** The integer fields are or-ed together in place, so what was read of a broken varint stays in the field. */
  function NetworkFeePartial(m: NetworkFeeValue, num: int, v: uint64): NetworkFeeValue {
    match num
    case 1 => m.(height := Int64(v))
    case 3 => m.(transactionSize := v)
    case 4 => m.(transactionRate := v)
    case _ => m
  }

  function NetworkFeeSchema(): Schema<NetworkFeeValue> {
    Schema(NetworkFeeKind, NetworkFeeApply, NetworkFeePartial)
  }

  function TwoBytesKind(num: int): Kind {
    if num == 1 || num == 2 then BytesKind else UnknownKind
  }

  function AttestationApply(m: AttestationValue, f: Field): Outcome<AttestationValue> {
    Done(match f
         case BytesField(1, s) => m.(pubKey := s)
         case BytesField(2, s) => m.(signature := s)
         case _ => m)
  }

  function AttestationPartial(m: AttestationValue, num: int, v: uint64): AttestationValue {
    m
  }

  function AttestationSchema(): Schema<AttestationValue> {
    Schema(TwoBytesKind, AttestationApply, AttestationPartial)
  }

  function ErrataTxApply(m: ErrataTxValue, f: Field): Outcome<ErrataTxValue> {
    Done(match f
         case BytesField(1, s) => m.(id := s)
         case BytesField(2, s) => m.(chain := s)
         case _ => m)
  }

  function ErrataTxPartial(m: ErrataTxValue, num: int, v: uint64): ErrataTxValue {
    m
  }

  function ErrataTxSchema(): Schema<ErrataTxValue> {
    Schema(TwoBytesKind, ErrataTxApply, ErrataTxPartial)
  }

  function NetworkFeeOrEmpty(m: Option<NetworkFeeValue>): NetworkFeeValue {
    if m.Some? then m.value else EMPTY_NETWORK_FEE
  }

  /** Field 1 unmarshals into the network fee that is already there; field 2 into an attestation that is appended
      first, and that stays behind when its bytes turn out to be bad. */
  function QuorumApply(m: QuorumNetworkFeeValue, f: Field): Outcome<QuorumNetworkFeeValue> {
    match f
    case BytesField(1, s) =>
      (match Decode(NetworkFeeSchema(), s, 0, NetworkFeeOrEmpty(m.networkFee))
       case Done(fee) => Done(m.(networkFee := Some(fee)))
       case Failed(fee, e) => Failed(m.(networkFee := Some(fee)), e))
    case BytesField(2, s) =>
      (match Decode(AttestationSchema(), s, 0, EMPTY_ATTESTATION)
       case Done(att) => Done(m.(attestations := m.attestations + [att]))
       case Failed(att, e) => Failed(m.(attestations := m.attestations + [att]), e))
    case _ => Done(m)
  }

  function QuorumPartial(m: QuorumNetworkFeeValue, num: int, v: uint64): QuorumNetworkFeeValue {
    m
  }

  function QuorumSchema(): Schema<QuorumNetworkFeeValue> {
    Schema(TwoBytesKind, QuorumApply, QuorumPartial)
  }

  // ----- merging: b into a -----

  function Later(a: Slice, b: Slice): Slice {
    if |b| > 0 then b else a
  }

  function LaterWord(a: int, b: int): int {
    if b != 0 then b else a
  }

  function MergeAsset(a: AssetValue, b: AssetValue): AssetValue {
    AssetValue(Later(a.chain, b.chain), Later(a.symbol, b.symbol), Later(a.ticker, b.ticker),
               a.synth || b.synth, a.trade || b.trade, a.secured || b.secured)
  }

  function MergeNetworkFee(a: NetworkFeeValue, b: NetworkFeeValue): NetworkFeeValue {
    NetworkFeeValue(LaterWord(a.height, b.height), Later(a.chain, b.chain),
                    LaterWord(a.transactionSize, b.transactionSize), LaterWord(a.transactionRate, b.transactionRate))
  }

  function MergeAttestation(a: AttestationValue, b: AttestationValue): AttestationValue {
    AttestationValue(Later(a.pubKey, b.pubKey), Later(a.signature, b.signature))
  }

  function MergeErrataTx(a: ErrataTxValue, b: ErrataTxValue): ErrataTxValue {
    ErrataTxValue(Later(a.id, b.id), Later(a.chain, b.chain))
  }

  function MergeOptionalFee(a: Option<NetworkFeeValue>, b: Option<NetworkFeeValue>): Option<NetworkFeeValue> {
    if b.None? then a else Some(MergeNetworkFee(NetworkFeeOrEmpty(a), b.value))
  }

  function MergeQuorum(a: QuorumNetworkFeeValue, b: QuorumNetworkFeeValue): QuorumNetworkFeeValue {
    QuorumNetworkFeeValue(MergeOptionalFee(a.networkFee, b.networkFee), a.attestations + b.attestations)
  }

  // ----- decoding what was written merges it in -----

  lemma AssetMerges(a: AssetValue, b: AssetValue, at: nat)
    requires at + |AssetBytes(b)| <= MAX_INT
    ensures Decode(AssetSchema(), AssetBytes(b), at, a) == Done(MergeAsset(a, b))
  {
    hide Decode, StringBytes, VarintBytes;
    var sc := AssetSchema();
    var f1, f2, f3 := StringBytes(1, b.chain), StringBytes(2, b.symbol), StringBytes(3, b.ticker);
    var f4, f5, f6 := VarintBytes(4, Bit(b.synth)), VarintBytes(5, Bit(b.trade)), VarintBytes(6, Bit(b.secured));
    var i2 := at + |f1|;
    var i3 := i2 + |f2|;
    var i4 := i3 + |f3|;
    var i5 := i4 + |f4|;
    var i6 := i5 + |f5|;
    var m := MergeAsset(a, b);
    var m1 := a.(chain := m.chain);
    var m2 := m1.(symbol := m.symbol);
    var m3 := m2.(ticker := m.ticker);
    var m4 := m3.(synth := m.synth);
    var m5 := m4.(trade := m.trade);
    DecodeStringBytes(sc, 1, b.chain, at, a);
    DecodeStringBytes(sc, 2, b.symbol, i2, m1);
    DecodeStringBytes(sc, 3, b.ticker, i3, m2);
    DecodeVarintBytes(sc, 4, Bit(b.synth), i4, m3);
    DecodeVarintBytes(sc, 5, Bit(b.trade), i5, m4);
    DecodeVarintBytes(sc, 6, Bit(b.secured), i6, m5);
    DecodeBoth(sc, f5, f6, i5, m4, m5, m);
    DecodeBoth(sc, f4, f5 + f6, i4, m3, m4, m);
    DecodeBoth(sc, f3, f4 + (f5 + f6), i3, m2, m3, m);
    DecodeBoth(sc, f2, f3 + (f4 + (f5 + f6)), i2, m1, m2, m);
    DecodeBoth(sc, f1, f2 + (f3 + (f4 + (f5 + f6))), at, a, m1, m);
  }

  lemma NetworkFeeMerges(a: NetworkFeeValue, b: NetworkFeeValue, at: nat)
    requires at + |NetworkFeeBytes(b)| <= MAX_INT
    ensures Decode(NetworkFeeSchema(), NetworkFeeBytes(b), at, a) == Done(MergeNetworkFee(a, b))
  {
    hide Decode, StringBytes, VarintBytes;
    var sc := NetworkFeeSchema();
    var f1, f2 := VarintBytes(1, Uint64(b.height)), StringBytes(2, b.chain);
    var f3, f4 := VarintBytes(3, b.transactionSize), VarintBytes(4, b.transactionRate);
    var i2 := at + |f1|;
    var i3 := i2 + |f2|;
    var i4 := i3 + |f3|;
    var m := MergeNetworkFee(a, b);
    var m1 := a.(height := m.height);
    var m2 := m1.(chain := m.chain);
    var m3 := m2.(transactionSize := m.transactionSize);
    Int64RoundTrip(b.height, 0);
    DecodeVarintBytes(sc, 1, Uint64(b.height), at, a);
    DecodeStringBytes(sc, 2, b.chain, i2, m1);
    DecodeVarintBytes(sc, 3, b.transactionSize, i3, m2);
    DecodeVarintBytes(sc, 4, b.transactionRate, i4, m3);
    DecodeBoth(sc, f3, f4, i3, m2, m3, m);
    DecodeBoth(sc, f2, f3 + f4, i2, m1, m2, m);
    DecodeBoth(sc, f1, f2 + (f3 + f4), at, a, m1, m);
  }

  lemma AttestationMerges(a: AttestationValue, b: AttestationValue, at: nat)
    requires at + |AttestationBytes(b)| <= MAX_INT
    ensures Decode(AttestationSchema(), AttestationBytes(b), at, a) == Done(MergeAttestation(a, b))
  {
    hide Decode, StringBytes;
    var sc := AttestationSchema();
    var f1, f2 := StringBytes(1, b.pubKey), StringBytes(2, b.signature);
    var m := MergeAttestation(a, b);
    var m1 := a.(pubKey := m.pubKey);
    DecodeStringBytes(sc, 1, b.pubKey, at, a);
    DecodeStringBytes(sc, 2, b.signature, at + |f1|, m1);
    DecodeBoth(sc, f1, f2, at, a, m1, m);
  }

  lemma ErrataTxMerges(a: ErrataTxValue, b: ErrataTxValue, at: nat)
    requires at + |ErrataTxBytes(b)| <= MAX_INT
    ensures Decode(ErrataTxSchema(), ErrataTxBytes(b), at, a) == Done(MergeErrataTx(a, b))
  {
    hide Decode, StringBytes;
    var sc := ErrataTxSchema();
    var f1, f2 := StringBytes(1, b.id), StringBytes(2, b.chain);
    var m := MergeErrataTx(a, b);
    var m1 := a.(id := m.id);
    DecodeStringBytes(sc, 1, b.id, at, a);
    DecodeStringBytes(sc, 2, b.chain, at + |f1|, m1);
    DecodeBoth(sc, f1, f2, at, a, m1, m);
  }

  lemma AttestationApplied(a: QuorumNetworkFeeValue, m: AttestationValue)
    requires |AttestationBytes(m)| <= MAX_INT
    ensures QuorumApply(a, BytesField(2, AttestationBytes(m))) == Done(a.(attestations := a.attestations + [m]))
  {
    hide Decode, AttestationBytes;
    AttestationMerges(EMPTY_ATTESTATION, m, 0);
  }

  lemma NetworkFeeApplied(a: QuorumNetworkFeeValue, m: NetworkFeeValue)
    requires |NetworkFeeBytes(m)| <= MAX_INT
    ensures QuorumApply(a, BytesField(1, NetworkFeeBytes(m)))
         == Done(a.(networkFee := MergeOptionalFee(a.networkFee, Some(m))))
  {
    hide Decode, NetworkFeeBytes;
    NetworkFeeMerges(NetworkFeeOrEmpty(a.networkFee), m, 0);
  }

  /** Every written attestation is appended, in order. */
  lemma {:induction false} AttestationsAppend(a: QuorumNetworkFeeValue, ms: seq<AttestationValue>, at: nat)
    requires at + |AttestationsBytes(ms)| <= MAX_INT
    ensures Decode(QuorumSchema(), AttestationsBytes(ms), at, a) == Done(a.(attestations := a.attestations + ms))
    decreases |ms|
  {
    hide Decode, AttestationBytes, MessageBytes, QuorumApply;
    if |ms| == 0 {
      assert a.attestations + ms == a.attestations;
      DecodeNothing(QuorumSchema(), at, a);
    } else {
      var payload := AttestationBytes(ms[0]);
      var field, rest := MessageBytes(2, payload), AttestationsBytes(ms[1..]);
      var next := a.(attestations := a.attestations + [ms[0]]);
      PayloadFits(2, payload);
      DecodeMessageBytes(QuorumSchema(), 2, payload, at, a);
      AttestationApplied(a, ms[0]);
      AttestationsAppend(next, ms[1..], at + |field|);
      assert a.attestations + [ms[0]] + ms[1..] == a.attestations + ms;
      DecodeBoth(QuorumSchema(), field, rest, at, a, next, a.(attestations := a.attestations + ms));
    }
  }

  lemma PayloadFits(num: nat, payload: seq<byte>)
    ensures |payload| < |MessageBytes(num, payload)|
  {
  }

  lemma OptionalNetworkFeeMerges(a: QuorumNetworkFeeValue, b: Option<NetworkFeeValue>, at: nat)
    requires at + |OptionalNetworkFeeBytes(b)| <= MAX_INT
    ensures Decode(QuorumSchema(), OptionalNetworkFeeBytes(b), at, a)
         == Done(a.(networkFee := MergeOptionalFee(a.networkFee, b)))
  {
    hide Decode, MessageBytes, NetworkFeeBytes, QuorumApply, MergeNetworkFee;
    if b.None? {
      DecodeNothing(QuorumSchema(), at, a);
    } else {
      var payload := NetworkFeeBytes(b.value);
      PayloadFits(1, payload);
      DecodeMessageBytes(QuorumSchema(), 1, payload, at, a);
      NetworkFeeApplied(a, b.value);
    }
  }

  lemma QuorumMerges(a: QuorumNetworkFeeValue, b: QuorumNetworkFeeValue, at: nat)
    requires at + |QuorumBytes(b)| <= MAX_INT
    ensures Decode(QuorumSchema(), QuorumBytes(b), at, a) == Done(MergeQuorum(a, b))
  {
    hide Decode, OptionalNetworkFeeBytes, AttestationsBytes, QuorumApply;
    var next := a.(networkFee := MergeOptionalFee(a.networkFee, b.networkFee));
    var field := OptionalNetworkFeeBytes(b.networkFee);
    OptionalNetworkFeeMerges(a, b.networkFee, at);
    AttestationsAppend(next, b.attestations, at + |field|);
    DecodeBoth(QuorumSchema(), field, AttestationsBytes(b.attestations), at, a, next, MergeQuorum(a, b));
  }

  // ----- round trips: merging into the empty message -----

  lemma AssetRoundTrip(m: AssetValue)
    requires |AssetBytes(m)| <= MAX_INT
    ensures Decode(AssetSchema(), AssetBytes(m), 0, EMPTY_ASSET) == Done(m)
  {
    hide Decode, AssetBytes;
    AssetMerges(EMPTY_ASSET, m, 0);
  }

  lemma NetworkFeeRoundTrip(m: NetworkFeeValue)
    requires |NetworkFeeBytes(m)| <= MAX_INT
    ensures Decode(NetworkFeeSchema(), NetworkFeeBytes(m), 0, EMPTY_NETWORK_FEE) == Done(m)
  {
    hide Decode, NetworkFeeBytes;
    NetworkFeeMerges(EMPTY_NETWORK_FEE, m, 0);
  }

  lemma AttestationRoundTrip(m: AttestationValue)
    requires |AttestationBytes(m)| <= MAX_INT
    ensures Decode(AttestationSchema(), AttestationBytes(m), 0, EMPTY_ATTESTATION) == Done(m)
  {
    hide Decode, AttestationBytes;
    AttestationMerges(EMPTY_ATTESTATION, m, 0);
  }

  lemma ErrataTxRoundTrip(m: ErrataTxValue)
    requires |ErrataTxBytes(m)| <= MAX_INT
    ensures Decode(ErrataTxSchema(), ErrataTxBytes(m), 0, EMPTY_ERRATA_TX) == Done(m)
  {
    hide Decode, ErrataTxBytes;
    ErrataTxMerges(EMPTY_ERRATA_TX, m, 0);
  }

  /** With or without a network fee, with any number of attestations. */
  lemma QuorumRoundTrip(m: QuorumNetworkFeeValue)
    requires |QuorumBytes(m)| <= MAX_INT
    ensures Decode(QuorumSchema(), QuorumBytes(m), 0, EMPTY_QUORUM) == Done(m)
  {
    hide Decode, QuorumBytes;
    QuorumMerges(EMPTY_QUORUM, m, 0);
    assert [] + m.attestations == m.attestations;
  }

  /** Last one wins: the concatenation of two encodings decodes to the merge of the two messages. */
  lemma QuorumConcatenation(a: QuorumNetworkFeeValue, b: QuorumNetworkFeeValue)
    requires |QuorumBytes(a) + QuorumBytes(b)| <= MAX_INT
    ensures Decode(QuorumSchema(), QuorumBytes(a) + QuorumBytes(b), 0, EMPTY_QUORUM) == Done(MergeQuorum(a, b))
  {
    hide Decode, QuorumBytes;
    QuorumRoundTrip(a);
    QuorumMerges(a, b, |QuorumBytes(a)|);
    DecodeBoth(QuorumSchema(), QuorumBytes(a), QuorumBytes(b), 0, EMPTY_QUORUM, a, MergeQuorum(a, b));
  }

  lemma AssetConcatenation(a: AssetValue, b: AssetValue)
    requires |AssetBytes(a) + AssetBytes(b)| <= MAX_INT
    ensures Decode(AssetSchema(), AssetBytes(a) + AssetBytes(b), 0, EMPTY_ASSET) == Done(MergeAsset(a, b))
  {
    hide Decode, AssetBytes;
    AssetRoundTrip(a);
    AssetMerges(a, b, |AssetBytes(a)|);
    DecodeBoth(AssetSchema(), AssetBytes(a), AssetBytes(b), 0, EMPTY_ASSET, a, MergeAsset(a, b));
  }

  // ----- signed payloads -----

  /** The bytes that are signed for a network fee are the same exactly when `Equals` holds. */
  lemma NetworkFeePayloadExact(a: NetworkFeeValue, b: NetworkFeeValue)
    requires |NetworkFeeBytes(a)| <= MAX_INT && |NetworkFeeBytes(b)| <= MAX_INT
    ensures NetworkFeeBytes(a) == NetworkFeeBytes(b) <==> a == b
  {
    hide Decode, NetworkFeeBytes;
    NetworkFeeRoundTrip(a);
    NetworkFeeRoundTrip(b);
  }

  lemma ErrataTxPayloadExact(a: ErrataTxValue, b: ErrataTxValue)
    requires |ErrataTxBytes(a)| <= MAX_INT && |ErrataTxBytes(b)| <= MAX_INT
    ensures ErrataTxBytes(a) == ErrataTxBytes(b) <==> a == b
  {
    hide Decode, ErrataTxBytes;
    ErrataTxRoundTrip(a);
    ErrataTxRoundTrip(b);
  }

  // ----- unknown fields in the messages -----

  /** An unknown field anywhere between the fields of a message's encoding, say behind the encoding of a and before
      more input, does not show. */
  lemma QuorumIgnoresUnknown(a: QuorumNetworkFeeValue, e: Element, b: QuorumNetworkFeeValue)
    requires WellFormed(e) && FieldNumber(e) > 2
    requires |QuorumBytes(a)| + |Bytes(e)| + |QuorumBytes(b)| <= MAX_INT
    ensures Decode(QuorumSchema(), QuorumBytes(a) + Bytes(e) + QuorumBytes(b), 0, EMPTY_QUORUM)
         == Done(MergeQuorum(a, b))
  {
    hide Decode, QuorumBytes, WellFormed, Bytes, FieldNumber;
    QuorumRoundTrip(a);
    QuorumConcatenation(a, b);
    UnknownFieldsAreTransparent(QuorumSchema(), QuorumBytes(a), e, QuorumBytes(b), EMPTY_QUORUM);
  }

  /** An unknown field inside the embedded network fee, with the length in front adjusted, does not show either: behind
      any bytes a, and within the payload behind any p that the network fee there can be unmarshalled from. */
  lemma UnknownInNetworkFee(
    a: seq<byte>, p: seq<byte>, e: Element, q: seq<byte>, b: seq<byte>, m: QuorumNetworkFeeValue)
    requires |a| + |MessageBytes(1, p + Bytes(e) + q)| + |b| <= MAX_INT
    requires |a| + |MessageBytes(1, p + q)| + |b| <= MAX_INT
    requires Decode(QuorumSchema(), a, 0, m).Done? && UnknownTo(NetworkFeeKind, e)
    requires |p| <= MAX_INT
    requires Decode(NetworkFeeSchema(), p, 0, NetworkFeeOrEmpty(Decode(QuorumSchema(), a, 0, m).msg.networkFee)).Done?
    ensures SameOutcome(Decode(QuorumSchema(), a + MessageBytes(1, p + Bytes(e) + q) + b, 0, m),
                        Decode(QuorumSchema(), a + MessageBytes(1, p + q) + b, 0, m))
  {
    hide Decode, WellFormed, Bytes, FieldNumber, MessageBytes;
    PayloadFits(1, p + Bytes(e) + q);
    PayloadFits(1, p + q);
    var m1 := Decode(QuorumSchema(), a, 0, m).msg;
    UnknownFieldsAreTransparent(NetworkFeeSchema(), p, e, q, NetworkFeeOrEmpty(m1.networkFee));
    PayloadReplaced(QuorumSchema(), a, 1, p + Bytes(e) + q, p + q, b, m);
  }

  /** The same inside an attestation. */
  lemma UnknownInAttestation(
    a: seq<byte>, p: seq<byte>, e: Element, q: seq<byte>, b: seq<byte>, m: QuorumNetworkFeeValue)
    requires |a| + |MessageBytes(2, p + Bytes(e) + q)| + |b| <= MAX_INT
    requires |a| + |MessageBytes(2, p + q)| + |b| <= MAX_INT
    requires Decode(QuorumSchema(), a, 0, m).Done? && UnknownTo(TwoBytesKind, e)
    requires |p| <= MAX_INT && Decode(AttestationSchema(), p, 0, EMPTY_ATTESTATION).Done?
    ensures SameOutcome(Decode(QuorumSchema(), a + MessageBytes(2, p + Bytes(e) + q) + b, 0, m),
                        Decode(QuorumSchema(), a + MessageBytes(2, p + q) + b, 0, m))
  {
    hide Decode, WellFormed, Bytes, FieldNumber, MessageBytes;
    PayloadFits(2, p + Bytes(e) + q);
    PayloadFits(2, p + q);
    UnknownFieldsAreTransparent(AttestationSchema(), p, e, q, EMPTY_ATTESTATION);
    PayloadReplaced(QuorumSchema(), a, 2, p + Bytes(e) + q, p + q, b, m);
  }

  // ----- which inputs are accepted -----

  /** The messages without embedded ones accept every list of elements of the wanted wire types. */
  lemma AssetAcceptsExactly(s: seq<byte>, m: AssetValue)
    requires |s| <= MAX_INT
    ensures Decode(AssetSchema(), s, 0, m).Done? <==> IsFields(AssetKind, AnyField, s)
  {
    hide Decode, IsFields;
    AcceptsExactly(AssetSchema(), AnyField, s, 0, m);
  }

  lemma NetworkFeeAcceptsExactly(s: seq<byte>, m: NetworkFeeValue)
    requires |s| <= MAX_INT
    ensures Decode(NetworkFeeSchema(), s, 0, m).Done? <==> IsFields(NetworkFeeKind, AnyField, s)
  {
    hide Decode, IsFields;
    AcceptsExactly(NetworkFeeSchema(), AnyField, s, 0, m);
  }

  lemma AttestationAcceptsExactly(s: seq<byte>, m: AttestationValue)
    requires |s| <= MAX_INT
    ensures Decode(AttestationSchema(), s, 0, m).Done? <==> IsFields(TwoBytesKind, AnyField, s)
  {
    hide Decode, IsFields;
    AcceptsExactly(AttestationSchema(), AnyField, s, 0, m);
  }

  lemma ErrataTxAcceptsExactly(s: seq<byte>, m: ErrataTxValue)
    requires |s| <= MAX_INT
    ensures Decode(ErrataTxSchema(), s, 0, m).Done? <==> IsFields(TwoBytesKind, AnyField, s)
  {
    hide Decode, IsFields;
    AcceptsExactly(ErrataTxSchema(), AnyField, s, 0, m);
  }

  /** The payloads that the quorum message accepts. */
  ghost predicate QuorumField(f: Field) {
    match f
    case BytesField(1, s) => IsFields(NetworkFeeKind, AnyField, s)
    case BytesField(2, s) => IsFields(TwoBytesKind, AnyField, s)
    case _ => true
  }

  /** The quorum message accepts exactly the lists of elements whose payloads under 1 and 2 are in turn lists that a
      network fee and an attestation accept. */
  lemma QuorumAcceptsExactly(s: seq<byte>, m: QuorumNetworkFeeValue)
    requires |s| <= MAX_INT
    ensures Decode(QuorumSchema(), s, 0, m).Done? <==> IsFields(TwoBytesKind, QuorumField, s)
  {
    hide Decode, IsFields;
    forall m', f ensures ApplyField(QuorumSchema(), m', f).Done? <==> QuorumField(f) {
      match f
      case BytesField(1, p) => NetworkFeeAcceptsExactly(p, NetworkFeeOrEmpty(m'.networkFee));
      case BytesField(2, p) => AttestationAcceptsExactly(p, EMPTY_ATTESTATION);
      case _ =>
    }
    AcceptsExactly(QuorumSchema(), QuorumField, s, 0, m);
  }

  // ----- the numbers and wire types of the fields -----

  lemma AssetTakes(e: Element)
    ensures Takes(AssetKind, e)
       <==> && WellFormed(e) && FieldNumber(e) > 0
            && (FieldNumber(e) == 1 || FieldNumber(e) == 2 || FieldNumber(e) == 3 ==> e.Delimited?)
            && (FieldNumber(e) == 4 || FieldNumber(e) == 5 || FieldNumber(e) == 6 ==> e.VarintElement?)
  {
    hide WellFormed, FieldNumber;
  }

  lemma NetworkFeeTakes(e: Element)
    ensures Takes(NetworkFeeKind, e)
       <==> && WellFormed(e) && FieldNumber(e) > 0
            && (FieldNumber(e) == 2 ==> e.Delimited?)
            && (FieldNumber(e) == 1 || FieldNumber(e) == 3 || FieldNumber(e) == 4 ==> e.VarintElement?)
  {
    hide WellFormed, FieldNumber;
  }

  /** Attestations, errata and quorum messages. */
  lemma TwoBytesTakes(e: Element)
    ensures Takes(TwoBytesKind, e)
       <==> && WellFormed(e) && FieldNumber(e) > 0
            && (FieldNumber(e) == 1 || FieldNumber(e) == 2 ==> e.Delimited?)
  {
    hide WellFormed, FieldNumber;
  }
}
