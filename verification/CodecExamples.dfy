/** One message object of each type, written and read back field by field. */
module CodecExamples {
  import opened Machine
  import opened Results
  import opened Varints
  import opened Wire
  import opened Messages
  import opened Codec
  import opened Forms

  method NetworkFeeExample() returns (m: NetworkFee, error: Option<Error>, dAtA: array<byte>)
    ensures dAtA[..] == [0x08, 1, 0x12, 2, 0x42, 0x43, 0x18, 2, 0x20, 3] && error == None
    ensures m.height == 1 && m.chain == [0x42, 0x43] && m.transactionSize == 2 && m.transactionRate == 3
  {
    hide Decode, NetworkFeeBytes;
    NetworkFeeInFull();
    var first := new NetworkFee();
    first.height, first.chain, first.transactionSize, first.transactionRate := 1, [0x42, 0x43], 2, 3;
    dAtA := first.Marshal();
    NetworkFeeRoundTrip(first.Value());
    m := new NetworkFee();
    error := m.Unmarshal(dAtA[..]);
  }

  method AttestationExample() returns (m: Attestation, error: Option<Error>, dAtA: array<byte>)
    ensures dAtA[..] == [0x0a, 1, 0x41, 0x12, 2, 0x42, 0x43] && error == None
    ensures m.pubKey == [0x41] && m.signature == [0x42, 0x43]
  {
    hide Decode, AttestationBytes;
    AttestationInFull();
    var first := new Attestation();
    first.pubKey, first.signature := [0x41], [0x42, 0x43];
    dAtA := first.Marshal();
    AttestationRoundTrip(first.Value());
    m := new Attestation();
    error := m.Unmarshal(dAtA[..]);
  }

  method ErrataTxExample() returns (m: ErrataTx, error: Option<Error>, dAtA: array<byte>)
    ensures dAtA[..] == [0x0a, 1, 0x41, 0x12, 2, 0x42, 0x43] && error == None
    ensures m.id == [0x41] && m.chain == [0x42, 0x43]
  {
    hide Decode, ErrataTxBytes;
    ErrataTxInFull();
    var first := new ErrataTx();
    first.id, first.chain := [0x41], [0x42, 0x43];
    dAtA := first.Marshal();
    ErrataTxRoundTrip(first.Value());
    m := new ErrataTx();
    error := m.Unmarshal(dAtA[..]);
  }

  /** The flags one by one, so that no two can be mistaken for each other. */
  method AssetExample(synth: bool, trade: bool, secured: bool)
    returns (m: Asset, error: Option<Error>, dAtA: array<byte>)
    ensures dAtA[..] == [0x0a, 1, 0x42] + ([0x12, 2, 0x43, 0x44] + ([0x1a, 1, 0x45] + ((if synth then [0x20, 1] else [])
                        + ((if trade then [0x28, 1] else []) + (if secured then [0x30, 1] else [])))))
    ensures error == None && m.chain == [0x42] && m.symbol == [0x43, 0x44] && m.ticker == [0x45]
    ensures m.synth == synth && m.trade == trade && m.secured == secured
  {
    hide Decode, AssetBytes;
    AssetInFull(synth, trade, secured);
    var first := new Asset();
    first.chain, first.symbol, first.ticker := [0x42], [0x43, 0x44], [0x45];
    first.synth, first.trade, first.secured := synth, trade, secured;
    dAtA := first.Marshal();
    AssetRoundTrip(first.Value());
    m := new Asset();
    error := m.Unmarshal(dAtA[..]);
  }

  const FEE := NetworkFeeValue(0, [], 1, 2)
  const ATTESTATIONS := [AttestationValue([0x41], [0x42, 0x43]), EMPTY_ATTESTATION]

  method SomeQuorum() returns (m: QuorumNetworkFee)
    ensures fresh(m) && m.Value() == QuorumNetworkFeeValue(Some(FEE), ATTESTATIONS)
  {
    var fee := new NetworkFee();
    fee.transactionSize, fee.transactionRate := 1, 2;
    var a := new Attestation();
    a.pubKey, a.signature := [0x41], [0x42, 0x43];
    var b := new Attestation();
    m := new QuorumNetworkFee();
    m.networkFee, m.attestations := fee, [a, b];
    assert m.Value().attestations == ATTESTATIONS;
  }

  method QuorumExample() returns (m: QuorumNetworkFee, error: Option<Error>, dAtA: array<byte>)
    ensures dAtA[..] == [0x0a, 4, 0x18, 1, 0x20, 2] + [0x12, 7, 0x0a, 1, 0x41, 0x12, 2, 0x42, 0x43, 0x12, 0]
    ensures error == None && m.networkFee != null && |m.attestations| == 2
    ensures m.networkFee.height == 0 && m.networkFee.chain == []
    ensures m.networkFee.transactionSize == 1 && m.networkFee.transactionRate == 2
    ensures m.attestations[0].pubKey == [0x41] && m.attestations[0].signature == [0x42, 0x43]
    ensures m.attestations[1].pubKey == [] && m.attestations[1].signature == []
  {
    hide Decode, QuorumBytes, Values;
    QuorumInFull();
    var first := SomeQuorum();
    dAtA := first.Marshal();
    m, error := QuorumThereAndBack(first);
    QuorumFields(m);
  }

  lemma QuorumFields(m: QuorumNetworkFee)
    requires m.Value() == QuorumNetworkFeeValue(Some(FEE), ATTESTATIONS)
    ensures m.networkFee != null && |m.attestations| == 2 && m.networkFee.Value() == FEE
    ensures m.attestations[0].Value() == ATTESTATIONS[0] && m.attestations[1].Value() == ATTESTATIONS[1]
  {
    assert Values(m.attestations) == ATTESTATIONS;
    assert Values(m.attestations)[0] == m.attestations[0].Value();
    assert Values(m.attestations)[1] == m.attestations[1].Value();
  }
}
