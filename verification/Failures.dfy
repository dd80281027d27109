/** Inputs that are refused: which error they give, and what is left in the message. */
module Failures {
  import opened Machine
  import opened Results
  import opened Varints
  import opened Skipper
  import opened Wire
  import opened Messages
  import opened CoinMessages

  // ----- what a failure leaves behind -----

  /** The first field of s, at index `at`, is not read or not taken; m2 and e are what it leaves. */
  ghost predicate FirstFails<M>(sc: Schema<M>, s: seq<byte>, at: nat, m: M, e: Error, m2: M)
    requires at + |s| <= MAX_INT
  {
    match ReadField(sc.kind, s, at)
    case Bad(error, None) => e == error && m2 == m
    case Bad(error, Some((num, v))) => e == error && m2 == sc.partial(m, num, v)
    case Got(f, _) => ApplyField(sc, m, f) == Failed(m2, e)
  }

  /** The fields in the first i bytes are taken, and the one behind them fails. */
  ghost predicate FailsBehind<M>(sc: Schema<M>, s: seq<byte>, at: nat, m: M, e: Error, m2: M, i: nat)
    requires at + |s| <= MAX_INT
  {
    && i < |s| && Decode(sc, s[..i], at, m).Done?
    && FirstFails(sc, s[i..], at + i, Decode(sc, s[..i], at, m).msg, e, m2)
  }

  /** A failed unmarshalling keeps all that the fields before the bad one say, and of the bad one what had arrived. */
  lemma FailsExactly<M>(sc: Schema<M>, s: seq<byte>, m: M, e: Error, m2: M)
    requires |s| <= MAX_INT
    ensures Decode(sc, s, 0, m) == Failed(m2, e) <==> exists i :: FailsBehind(sc, s, 0, m, e, m2, i)
  {
    hide Decode, FailsBehind;
    if Decode(sc, s, 0, m) == Failed(m2, e) {
      var i := FailurePoint(sc, s, 0, m);
    }
    forall i | FailsBehind(sc, s, 0, m, e, m2, i) ensures Decode(sc, s, 0, m) == Failed(m2, e) {
      FailureBehind(sc, s, m, e, m2, i);
    }
  }

  lemma FailureBehind<M>(sc: Schema<M>, s: seq<byte>, m: M, e: Error, m2: M, i: nat)
    requires |s| <= MAX_INT && FailsBehind(sc, s, 0, m, e, m2, i)
    ensures Decode(sc, s, 0, m) == Failed(m2, e)
  {
    hide Decode, ReadField, ApplyField;
    assert s == s[..i] + s[i..];
    DecodeConcat(sc, s[..i], s[i..], 0, m);
    DecodeStep(sc, s[i..], i, Decode(sc, s[..i], 0, m).msg);
  }

  lemma {:induction false} FailurePoint<M>(sc: Schema<M>, s: seq<byte>, at: nat, m: M) returns (i: nat)
    requires at + |s| <= MAX_INT && Decode(sc, s, at, m).Failed?
    ensures var r := Decode(sc, s, at, m); FailsBehind(sc, s, at, m, r.error, r.msg, i)
    decreases |s|
  {
    hide ReadField, ApplyField;
    var r := ReadField(sc.kind, s, at);
    if r.Bad? || ApplyField(sc, m, r.field).Failed? {
      i := 0;
      assert s[..0] == [] && s[0..] == s;
    } else {
      var n, m1 := r.size, ApplyField(sc, m, r.field).msg;
      var j := FailurePoint(sc, s[n..], at + n, m1);
      i := n + j;
      PrefixRead(sc, s, at, m, n, j);
      assert s[n..][j..] == s[i..];
    }
  }

  lemma FieldPrefix(kind: int -> Kind, s: seq<byte>, at: nat, k: nat)
    requires at + |s| <= MAX_INT && ReadField(kind, s, at).Got? && ReadField(kind, s, at).size <= k <= |s|
    ensures ReadField(kind, s[..k], at) == ReadField(kind, s, at)
  {
    hide ReadField, Takes, FieldOf, Bytes;
    var e := ReadElement(kind, s, at);
    var n := ReadField(kind, s, at).size;
    ElementRead(kind, e, s[n..k], at);
    assert s[..k] == Bytes(e) + s[n..k];
    assert |Bytes(e)| == n;
  }

  /** A field that is taken is taken in any longer beginning of the input. */
  lemma PrefixRead<M>(sc: Schema<M>, s: seq<byte>, at: nat, m: M, n: nat, j: nat)
    requires at + |s| <= MAX_INT && n + j <= |s| && ReadField(sc.kind, s, at).Got?
    requires n == ReadField(sc.kind, s, at).size && ApplyField(sc, m, ReadField(sc.kind, s, at).field).Done?
    ensures Decode(sc, s[..n + j], at, m)
         == Decode(sc, s[n..][..j], at + n, ApplyField(sc, m, ReadField(sc.kind, s, at).field).msg)
  {
    hide ReadField, ApplyField, Decode;
    FieldPrefix(sc.kind, s, at, n + j);
    DecodeStep(sc, s[..n + j], at, m);
    assert s[..n + j][n..] == s[n..][..j];
  }

  // ----- the errors -----

  lemma ReadTagByte(b: byte, t: seq<byte>)
    requires b < 0x80
    ensures ReadTag([b] + t)
         == if b % 8 == 4 then NoTag(EndGroupForNonGroup)
            else if b < 8 then NoTag(IllegalTag(0, b))
            else Tag(b / 8, b % 8, 1)
    ensures ([b] + t)[1..] == t
  {
    hide ReadVarint;
    ReadSmall(b, t);
  }

  /** Tags of one byte that are refused, for any message and whatever it held. */
  lemma RefusedTag<M>(sc: Schema<M>, b: byte, t: seq<byte>, m: M)
    requires b < 0x80 && |[b] + t| <= MAX_INT
    ensures b % 8 == 4 ==> Decode(sc, [b] + t, 0, m) == Failed(m, EndGroupForNonGroup)
    ensures b < 8 && b != 4 ==> Decode(sc, [b] + t, 0, m) == Failed(m, IllegalTag(0, b))
    ensures b >= 8 && b % 8 != 4 && b % 8 != 0 && sc.kind(b / 8) == VarintKind
        ==> Decode(sc, [b] + t, 0, m) == Failed(m, WrongWireType(b % 8, b / 8))
    ensures b >= 8 && b % 8 != 4 && b % 8 != 2 && sc.kind(b / 8) == BytesKind
        ==> Decode(sc, [b] + t, 0, m) == Failed(m, WrongWireType(b % 8, b / 8))
  {
    hide ReadVarint, ReadPayload, ReadUnknown, ReadTag, Decode;
    ReadTagByte(b, t);
    DecodeStep(sc, [b] + t, 0, m);
  }

  /** A varint that has no final byte: the groups that are there have arrived. */
  lemma BrokenVarint<M>(sc: Schema<M>, b: byte, s: seq<byte>, m: M)
    requires 8 <= b < 0x80 && b % 8 == 0 && sc.kind(b / 8) == VarintKind && |[b] + s| <= MAX_INT
    requires forall j :: 0 <= j < |s| && j < 10 ==> s[j] >= 0x80
    ensures Decode(sc, [b] + s, 0, m)
         == Failed(sc.partial(m, b / 8, Base128(if |s| >= 10 then s[..10] else s) % TWO_64),
                   if |s| >= 10 then IntOverflow else UnexpectedEOF)
  {
    hide ReadPayload, ReadUnknown, ReadTag, Decode, ReadVarint, Base128;
    ReadTagByte(b, s);
    ReadVarintFails(s);
    DecodeStep(sc, [b] + s, 0, m);
  }

  lemma BrokenByte<M>(sc: Schema<M>, b: byte, m: M)
    requires 8 <= b < 0x80 && b % 8 == 0 && sc.kind(b / 8) == VarintKind
    ensures Decode(sc, [b] + [0x85], 0, m) == Failed(sc.partial(m, b / 8, 5), UnexpectedEOF)
  {
    hide Decode;
    assert [0x85][1..] == [];
    BrokenVarint(sc, b, [0x85], m);
  }

  /** A length, in bytes of its own: one with which the end of the payload would be at 2^63 or above is invalid, and one
      that only reaches behind the input is an unexpected end. */
  lemma BadLength<M>(sc: Schema<M>, b: byte, v: uint64, t: seq<byte>, m: M)
    requires 8 <= b < 0x80 && b % 8 == 2 && sc.kind(b / 8) == BytesKind && |t| < v
    requires |[b] + (Encode(v) + t)| <= MAX_INT
    ensures Decode(sc, [b] + (Encode(v) + t), 0, m)
         == Failed(m, if 1 + |Encode(v)| + v >= TWO_63 then InvalidLength else UnexpectedEOF)
  {
    hide ReadUnknown, ReadTag, Decode, ReadVarint, Encode;
    ReadTagByte(b, Encode(v) + t);
    VarintRoundTrip(v, t);
    SovIsEncodedLength(v);
    DecodeStep(sc, [b] + (Encode(v) + t), 0, m);
  }

  /** The same for a payload that is skipped. */
  lemma BadUnknownLength<M>(sc: Schema<M>, b: byte, v: uint64, t: seq<byte>, m: M)
    requires 8 <= b < 0x80 && b % 8 == 2 && sc.kind(b / 8) == UnknownKind && |t| < v
    requires |[b] + (Encode(v) + t)| <= MAX_INT
    ensures Decode(sc, [b] + (Encode(v) + t), 0, m)
         == Failed(m, if 1 + |Encode(v)| + v >= TWO_63 then InvalidLength else UnexpectedEOF)
  {
    hide ReadTag, Decode, ReadVarint, Encode, Skip;
    ReadTagByte(b, Encode(v) + t);
    LengthSkipped(b, v, t);
    SovIsEncodedLength(v);
    DecodeStep(sc, [b] + (Encode(v) + t), 0, m);
  }

  lemma LengthSkipped(b: byte, v: uint64, t: seq<byte>)
    requires 8 <= b < 0x80 && b % 8 == 2 && |[b] + (Encode(v) + t)| <= MAX_INT
    ensures Skip([b] + (Encode(v) + t), 0, 0)
         == if 1 + |Encode(v)| + v >= TWO_63 then SkipFails(InvalidLength) else SkipTo(1 + |Encode(v)| + v)
  {
    hide ReadVarint, Encode;
    ReadSmall(b, Encode(v) + t);
    VarintRoundTrip(v, t);
    SovIsEncodedLength(v);
  }

  /** A tag, or a length, that has no final byte. */
  lemma BrokenTag<M>(sc: Schema<M>, s: seq<byte>, m: M)
    requires 0 < |s| <= MAX_INT && forall j :: 0 <= j < |s| && j < 10 ==> s[j] >= 0x80
    ensures Decode(sc, s, 0, m) == Failed(m, if |s| >= 10 then IntOverflow else UnexpectedEOF)
  {
    hide ReadVarint, Decode, ReadUnknown, ReadPayload;
    ReadVarintFails(s);
    DecodeStep(sc, s, 0, m);
  }

  lemma BrokenLength<M>(sc: Schema<M>, b: byte, s: seq<byte>, m: M)
    requires 8 <= b < 0x80 && b % 8 == 2 && sc.kind(b / 8) == BytesKind && |[b] + s| <= MAX_INT
    requires forall j :: 0 <= j < |s| && j < 10 ==> s[j] >= 0x80
    ensures Decode(sc, [b] + s, 0, m) == Failed(m, if |s| >= 10 then IntOverflow else UnexpectedEOF)
  {
    hide ReadVarint, Decode, ReadUnknown, ReadTag;
    ReadTagByte(b, s);
    ReadVarintFails(s);
    DecodeStep(sc, [b] + s, 0, m);
  }

  /** A field that the message does not know and that cannot be skipped. */
  lemma Unskippable<M>(sc: Schema<M>, b: byte, t: seq<byte>, m: M)
    requires 8 <= b < 0x80 && b % 8 != 4 && sc.kind(b / 8) == UnknownKind && |[b] + t| <= MAX_INT
    requires Skip([b] + t, 0, 0).SkipFails?
    ensures Decode(sc, [b] + t, 0, m) == Failed(m, Skip([b] + t, 0, 0).error)
  {
    hide ReadTag, Decode, ReadVarint, Skip;
    ReadTagByte(b, t);
    DecodeStep(sc, [b] + t, 0, m);
  }

  lemma NetworkFeeFailures()
    ensures Decode(NetworkFeeSchema(), [0x0c] + [], 0, EMPTY_NETWORK_FEE)
         == Failed(EMPTY_NETWORK_FEE, EndGroupForNonGroup)
    ensures Decode(NetworkFeeSchema(), [0x00] + [], 0, EMPTY_NETWORK_FEE) == Failed(EMPTY_NETWORK_FEE, IllegalTag(0, 0))
    ensures Decode(NetworkFeeSchema(), [0x0a] + [], 0, EMPTY_NETWORK_FEE)
         == Failed(EMPTY_NETWORK_FEE, WrongWireType(2, 1))
    ensures Decode(NetworkFeeSchema(), [0x10] + [], 0, EMPTY_NETWORK_FEE)
         == Failed(EMPTY_NETWORK_FEE, WrongWireType(0, 2))
    ensures Decode(NetworkFeeSchema(), [0x08] + [0x85], 0, EMPTY_NETWORK_FEE)
         == Failed(NetworkFeeValue(5, [], 0, 0), UnexpectedEOF)
    ensures Decode(NetworkFeeSchema(), [0x18] + [0x85], 0, EMPTY_NETWORK_FEE)
         == Failed(NetworkFeeValue(0, [], 5, 0), UnexpectedEOF)
    ensures Decode(NetworkFeeSchema(), [0x20] + [0x85], 0, EMPTY_NETWORK_FEE)
         == Failed(NetworkFeeValue(0, [], 0, 5), UnexpectedEOF)
    ensures Decode(NetworkFeeSchema(), [0x2b] + [], 0, EMPTY_NETWORK_FEE) == Failed(EMPTY_NETWORK_FEE, UnexpectedEOF)
  {
    hide Decode, Skip;
    var sc, m := NetworkFeeSchema(), EMPTY_NETWORK_FEE;
    RefusedTag(sc, 0x0c, [], m);
    RefusedTag(sc, 0x00, [], m);
    RefusedTag(sc, 0x0a, [], m);
    RefusedTag(sc, 0x10, [], m);
    BrokenByte(sc, 0x08, m);
    BrokenByte(sc, 0x18, m);
    BrokenByte(sc, 0x20, m);
    OpenGroup();
    Unskippable(sc, 0x2b, [], m);
  }

  lemma OpenGroup()
    ensures Skip([0x2b] + [], 0, 0) == SkipFails(UnexpectedEOF)
  {
    hide ReadVarint;
    ReadSmall(0x2b, []);
  }

  /** Nested messages that fail: the network fee and the attestation, as far as they were read, are in the message. */
  lemma QuorumFailures()
    ensures Decode(QuorumSchema(), [0x0a] + ([2] + [0x08, 0x85]), 0, EMPTY_QUORUM)
         == Failed(QuorumNetworkFeeValue(Some(NetworkFeeValue(5, [], 0, 0)), []), UnexpectedEOF)
    ensures Decode(QuorumSchema(), [0x12] + ([1] + [0x0c]), 0, EMPTY_QUORUM)
         == Failed(QuorumNetworkFeeValue(None, [EMPTY_ATTESTATION]), EndGroupForNonGroup)
  {
    hide Decode, NetworkFeeSchema, AttestationSchema, ReadField;
    NetworkFeeFailures();
    RefusedTag(AttestationSchema(), 0x0c, [], EMPTY_ATTESTATION);
    assert [0x08] + [0x85] == [0x08, 0x85] && [0x0c] + [] == [0x0c];
    ReadsPayload(QuorumSchema().kind, 0x0a, [0x08, 0x85]);
    ReadsPayload(QuorumSchema().kind, 0x12, [0x0c]);
    DecodeStep(QuorumSchema(), [0x0a] + ([2] + [0x08, 0x85]), 0, EMPTY_QUORUM);
    DecodeStep(QuorumSchema(), [0x12] + ([1] + [0x0c]), 0, EMPTY_QUORUM);
    assert [] + [EMPTY_ATTESTATION] == [EMPTY_ATTESTATION];
  }

  /** The flags of an asset are read into a variable first; the integers of the others are assigned as they arrive. */
  lemma CoinFailures()
    ensures Decode(AssetSchema(), [0x20] + [0x85], 0, EMPTY_ASSET) == Failed(EMPTY_ASSET, UnexpectedEOF)
    ensures Decode(CoinSchema(), [0x18] + [0x85], 0, EMPTY_COIN) == Failed(EMPTY_COIN.(decimals := 5), UnexpectedEOF)
    ensures Decode(SolvencySchema(), [0x28] + [0x85], 0, EMPTY_SOLVENCY)
         == Failed(EMPTY_SOLVENCY.(height := 5), UnexpectedEOF)
  {
    hide Decode;
    BrokenByte(AssetSchema(), 0x20, EMPTY_ASSET);
    BrokenByte(CoinSchema(), 0x18, EMPTY_COIN);
    BrokenByte(SolvencySchema(), 0x28, EMPTY_SOLVENCY);
  }

  /** A coin that fails is in the list it belongs to. */
  lemma TxFailures()
    ensures Decode(TxSchema(), [0x2a] + ([2] + [0x18, 0x85]), 0, EMPTY_TX)
         == Failed(EMPTY_TX.(coins := [EMPTY_COIN.(decimals := 5)]), UnexpectedEOF)
    ensures Decode(TxSchema(), [0x32] + ([2] + [0x18, 0x85]), 0, EMPTY_TX)
         == Failed(EMPTY_TX.(gas := [EMPTY_COIN.(decimals := 5)]), UnexpectedEOF)
    ensures Decode(SolvencySchema(), [0x22] + ([2] + [0x18, 0x85]), 0, EMPTY_SOLVENCY)
         == Failed(EMPTY_SOLVENCY.(coins := [EMPTY_COIN.(decimals := 5)]), UnexpectedEOF)
  {
    hide Decode, CoinSchema, ReadField;
    CoinFailures();
    assert [0x18] + [0x85] == [0x18, 0x85];
    assert [] + [EMPTY_COIN.(decimals := 5)] == [EMPTY_COIN.(decimals := 5)];
    ReadsPayload(TxKind, 0x2a, [0x18, 0x85]);
    ReadsPayload(TxKind, 0x32, [0x18, 0x85]);
    ReadsPayload(SolvencyKind, 0x22, [0x18, 0x85]);
    DecodeStep(TxSchema(), [0x2a] + ([2] + [0x18, 0x85]), 0, EMPTY_TX);
    DecodeStep(TxSchema(), [0x32] + ([2] + [0x18, 0x85]), 0, EMPTY_TX);
    DecodeStep(SolvencySchema(), [0x22] + ([2] + [0x18, 0x85]), 0, EMPTY_SOLVENCY);
  }

  lemma ReadsPayload(kind: int -> Kind, b: byte, payload: seq<byte>)
    requires 8 <= b < 0x80 && b % 8 == 2 && kind(b / 8) == BytesKind && |payload| < 0x80
    ensures ReadField(kind, [b] + ([|payload|] + payload), 0) == Got(BytesField(b / 8, payload), 2 + |payload|)
  {
    hide ReadUnknown, ReadTag, ReadVarint;
    ReadTagByte(b, [|payload|] + payload);
    ReadSmall(|payload|, payload);
  }
}
