/** The field loop that every Unmarshal repeats, over the field numbers a message knows. */
module Wire {
  import opened Machine
  import opened Results
  import opened Varints
  import opened Skipper

  /** How a message treats a field number: as a varint, as length-delimited bytes, or not at all. */
  datatype Kind = VarintKind | BytesKind | UnknownKind

  datatype Field =
    | VarintField(num: int, value: uint64)
    | BytesField(num: int, payload: Slice)
    | SkippedField

  /** One field, and how many bytes it took. When the varint of a field breaks off, what was read of it stays. */
  datatype FieldRead =
    | Got(field: Field, size: nat)
    | Bad(error: Error, partial: Option<(int, uint64)>)

  /** Unmarshalling assigns into a message that also survives a failure. */
  datatype Outcome<+M> =
    | Done(msg: M)
    | Failed(msg: M, error: Error)

  /** What distinguishes one message type's field loop from another's. */
  datatype Schema<!M> = Schema(
    kind: int -> Kind,
    apply: (M, Field) -> Outcome<M>,
    partial: (M, int, uint64) -> M)

  // ----- one field -----

  datatype TagRead =
    | Tag(num: int32, wireType: nat, size: nat)
    | NoTag(error: Error)

  function ReadTag(s: seq<byte>): (r: TagRead)
    ensures r.Tag? ==> 0 < r.size <= |s| && r.num > 0
  {
    match ReadVarint(s)
    case Unread(e, _) => NoTag(e)
    case Read(wire, n) =>
      var num, wireType := Int32(wire / 8), wire % 8;
      if wireType == 4 then NoTag(EndGroupForNonGroup)
      else if num <= 0 then NoTag(IllegalTag(num, wire))
      else Tag(num, wireType, n)
  }

  /** A length and as many bytes; `at` is the index of s in the input of Unmarshal, for the wrap-around test. */
  datatype PayloadRead =
    | Payload(start: nat, end: nat)
    | NoPayload(error: Error)

  function ReadPayload(s: seq<byte>, at: nat): (r: PayloadRead)
    requires at + |s| <= MAX_INT
    ensures r.Payload? ==> 0 < r.start <= r.end <= |s|
  {
    match ReadVarint(s)
    case Unread(e, _) => NoPayload(e)
    case Read(v, k) =>
      var length := Int64(v);
      if length < 0 then NoPayload(InvalidLength)
      else if Int64(at + k + length) < 0 then NoPayload(InvalidLength)
      else if at + k + length > at + |s| then NoPayload(UnexpectedEOF)
      else Payload(k, k + length)
  }

  function ReadUnknown(s: seq<byte>, at: nat): (r: FieldRead)
    requires at + |s| <= MAX_INT
    ensures if r.Got? then 0 < r.size <= |s| && r.field == SkippedField else r.partial == None
  {
    match Skip(s, 0, 0)
    case SkipFails(e) => Bad(e, None)
    case SkipTo(skippy) =>
      if Int64(at + skippy) < 0 then Bad(InvalidLength, None)
      else if at + skippy > at + |s| then Bad(UnexpectedEOF, None)
      else Got(SkippedField, skippy)
  }

  /** One arm of the switch over field numbers; s starts at the tag. */
  function ReadBody(kind: Kind, tag: TagRead, s: seq<byte>, at: nat): (r: FieldRead)
    requires at + |s| <= MAX_INT && tag.Tag? && 0 < tag.size <= |s|
    ensures r.Got? ==> 0 < r.size <= |s|
    ensures r.Got? ==> match kind
                       case VarintKind => r.field.VarintField? && r.field.num == tag.num
                       case BytesKind => r.field.BytesField? && r.field.num == tag.num
                       case UnknownKind => r.field == SkippedField
    ensures r.Bad? && r.partial.Some? ==> kind == VarintKind && r.partial.value.0 == tag.num
  {
    match kind
    case VarintKind =>
      if tag.wireType != 0 then Bad(WrongWireType(tag.wireType, tag.num), None)
      else
        (match ReadVarint(s[tag.size..])
         case Unread(e, v) => Bad(e, Some((tag.num, v)))
         case Read(v, k) => Got(VarintField(tag.num, v), tag.size + k))
    case BytesKind =>
      if tag.wireType != 2 then Bad(WrongWireType(tag.wireType, tag.num), None)
      else
        (match ReadPayload(s[tag.size..], at + tag.size)
         case NoPayload(e) => Bad(e, None)
         case Payload(i, j) =>
           var payload := s[tag.size..][i..j];
           assert |payload| == j - i;
           Got(BytesField(tag.num, payload), tag.size + j))
    case UnknownKind => ReadUnknown(s, at)
  }

  function ReadField(kind: int -> Kind, s: seq<byte>, at: nat): (r: FieldRead)
    requires at + |s| <= MAX_INT
    ensures r.Got? ==> 0 < r.size <= |s|
  {
    match ReadTag(s)
    case NoTag(e) => Bad(e, None)
    case Tag(num, wireType, n) => ReadBody(kind(num), Tag(num, wireType, n), s, at)
  }

  // ----- the loop -----

  function ApplyField<M>(sc: Schema<M>, m: M, f: Field): Outcome<M> {
    if f.SkippedField? then Done(m) else sc.apply(m, f)
  }

  /** Unmarshal from index `at` on, into m; s is what is left of the input. */
  function Decode<M>(sc: Schema<M>, s: seq<byte>, at: nat, m: M): Outcome<M>
    requires at + |s| <= MAX_INT
    decreases |s|
  {
    if |s| == 0 then Done(m)
    else
      match ReadField(sc.kind, s, at)
      case Bad(e, None) => Failed(m, e)
      case Bad(e, Some((num, v))) => Failed(sc.partial(m, num, v), e)
      case Got(f, n) =>
        match ApplyField(sc, m, f)
        case Failed(m', e) => Failed(m', e)
        case Done(m') => Decode(sc, s[n..], at + n, m')
  }

  /** One round of the loop. */
  lemma DecodeStep<M>(sc: Schema<M>, s: seq<byte>, at: nat, m: M)
    requires 0 < |s| && at + |s| <= MAX_INT
    ensures match ReadField(sc.kind, s, at)
            case Bad(e, None) => Decode(sc, s, at, m) == Failed(m, e)
            case Bad(e, Some((num, v))) => Decode(sc, s, at, m) == Failed(sc.partial(m, num, v), e)
            case Got(f, n) =>
              match ApplyField(sc, m, f)
              case Failed(m', e) => Decode(sc, s, at, m) == Failed(m', e)
              case Done(m') => Decode(sc, s, at, m) == Decode(sc, s[n..], at + n, m')
  {
    hide ReadField, ApplyField;
  }

  // ----- the loop's pieces, as the methods share them -----

  method ReadTagAt(dAtA: seq<byte>, iNdEx: int) returns (r: TagRead, next: int)
    requires 0 <= iNdEx < |dAtA| <= MAX_INT
    ensures r == ReadTag(dAtA[iNdEx..])
    ensures r.Tag? ==> next == iNdEx + r.size
  {
    hide ReadVarint, Int32;
    var wire, after := ReadVarintAt(dAtA, iNdEx);
    next := after;
    if wire.Unread? {
      return NoTag(wire.error), next;
    }
    var fieldNum, wireType := Int32(wire.value / 8), wire.value % 8;
    if wireType == 4 {
      return NoTag(EndGroupForNonGroup), next;
    }
    if fieldNum <= 0 {
      return NoTag(IllegalTag(fieldNum, wire.value)), next;
    }
    return Tag(fieldNum, wireType, wire.size), next;
  }

  method ReadPayloadAt(dAtA: seq<byte>, iNdEx: int) returns (r: PayloadRead, start: int, postIndex: int)
    requires 0 <= iNdEx <= |dAtA| <= MAX_INT
    ensures r == ReadPayload(dAtA[iNdEx..], iNdEx)
    ensures r.Payload? ==> start == iNdEx + r.start && postIndex == iNdEx + r.end
  {
    hide ReadVarint, Int64;
    var v, after := ReadVarintAt(dAtA, iNdEx);
    start, postIndex := after, after;
    if v.Unread? {
      return NoPayload(v.error), start, postIndex;
    }
    var length := Int64(v.value);
    if length < 0 {
      return NoPayload(InvalidLength), start, postIndex;
    }
    postIndex := Int64(after + length);
    if postIndex < 0 {
      return NoPayload(InvalidLength), start, postIndex;
    }
    if postIndex > |dAtA| {
      return NoPayload(UnexpectedEOF), start, postIndex;
    }
    return Payload(v.size, v.size + length), start, postIndex;
  }

  method UnknownFieldAt(dAtA: seq<byte>, iNdEx: int, ghost tag: TagRead) returns (r: FieldRead, next: int)
    requires 0 <= iNdEx < |dAtA| <= MAX_INT
    requires tag.Tag? && 0 < tag.size <= |dAtA| - iNdEx
    ensures r == ReadBody(UnknownKind, tag, dAtA[iNdEx..], iNdEx)
    ensures r.Got? ==> next == iNdEx + r.size
  {
    hide Int64;
    next := iNdEx;
    var skipped := SkipCommon(dAtA[iNdEx..]);
    if skipped.SkipFails? {
      return Bad(skipped.error, None), next;
    }
    var skippy := skipped.end;
    if skippy < 0 || Int64(iNdEx + skippy) < 0 {
      return Bad(InvalidLength, None), next;
    }
    if Int64(iNdEx + skippy) > |dAtA| {
      return Bad(UnexpectedEOF, None), next;
    }
    return Got(SkippedField, skippy), iNdEx + skippy;
  }

  method VarintFieldAt(dAtA: seq<byte>, preIndex: int, tag: TagRead) returns (r: FieldRead, iNdEx: int)
    requires 0 <= preIndex < |dAtA| <= MAX_INT
    requires tag.Tag? && 0 < tag.size <= |dAtA| - preIndex
    ensures r == ReadBody(VarintKind, tag, dAtA[preIndex..], preIndex)
    ensures r.Got? ==> iNdEx == preIndex + r.size
  {
    hide ReadVarint;
    iNdEx := preIndex + tag.size;
    if tag.wireType != 0 {
      return Bad(WrongWireType(tag.wireType, tag.num), None), iNdEx;
    }
    assert dAtA[preIndex..][tag.size..] == dAtA[iNdEx..];
    var v, after := ReadVarintAt(dAtA, iNdEx);
    if v.Unread? {
      return Bad(v.error, Some((tag.num, v.value))), iNdEx;
    }
    return Got(VarintField(tag.num, v.value), tag.size + v.size), after;
  }

  method BytesFieldAt(dAtA: seq<byte>, preIndex: int, tag: TagRead) returns (r: FieldRead, iNdEx: int)
    requires 0 <= preIndex < |dAtA| <= MAX_INT
    requires tag.Tag? && 0 < tag.size <= |dAtA| - preIndex
    ensures r == ReadBody(BytesKind, tag, dAtA[preIndex..], preIndex)
    ensures r.Got? ==> iNdEx == preIndex + r.size
  {
    hide ReadPayload;
    iNdEx := preIndex + tag.size;
    if tag.wireType != 2 {
      return Bad(WrongWireType(tag.wireType, tag.num), None), iNdEx;
    }
    assert dAtA[preIndex..][tag.size..] == dAtA[iNdEx..];
    var p, start, postIndex := ReadPayloadAt(dAtA, iNdEx);
    if p.NoPayload? {
      return Bad(p.error, None), iNdEx;
    }
    var payload := dAtA[start..postIndex];
    assert payload == dAtA[iNdEx..][p.start..p.end];
    return Got(BytesField(tag.num, payload), tag.size + p.end), postIndex;
  }

  // ----- appending bytes -----

  lemma SkipLocal(s: seq<byte>, t: seq<byte>, n: nat)
    requires n <= |s| && |s + t| <= MAX_INT && Skip(s, 0, 0) == SkipTo(n)
    ensures Skip(s + t, 0, 0) == SkipTo(n)
  {
    hide Skip, WellFormed, Bytes;
    SkipExact(s, n);
    SkipExact(s + t, n);
    assert (s + t)[..n] == s[..n];
  }

  lemma PayloadLocal(s: seq<byte>, t: seq<byte>, at: nat, at': nat)
    requires at + |s| <= MAX_INT && at' + |s + t| <= MAX_INT
    requires ReadPayload(s, at).Payload?
    ensures ReadPayload(s + t, at') == ReadPayload(s, at)
  {
    hide ReadVarint, Int64;
    ReadVarintLocal(s, t);
  }

  /** A field that was read is read the same wherever it stands and whatever follows it. */
  lemma FieldLocal(kind: int -> Kind, s: seq<byte>, t: seq<byte>, at: nat, at': nat)
    requires at + |s| <= MAX_INT && at' + |s + t| <= MAX_INT
    requires ReadField(kind, s, at).Got?
    ensures ReadField(kind, s + t, at') == ReadField(kind, s, at)
  {
    hide ReadVarint, ReadPayload, Skip, Int64, Int32;
    ReadVarintLocal(s, t);
    var tag := ReadTag(s);
    var rest := s[tag.size..];
    assert (s + t)[tag.size..] == rest + t;
    match kind(tag.num)
    case VarintKind => ReadVarintLocal(rest, t);
    case BytesKind =>
      PayloadLocal(rest, t, at + tag.size, at' + tag.size);
      var p := ReadPayload(rest, at + tag.size);
      assert (rest + t)[p.start..p.end] == rest[p.start..p.end];
    case UnknownKind => SkipLocal(s, t, Skip(s, 0, 0).end);
  }

  /** Unmarshalling a + b is unmarshalling b into what a leaves. */
  lemma {:induction false} DecodeConcat<M>(sc: Schema<M>, a: seq<byte>, b: seq<byte>, at: nat, m: M)
    requires at + |a + b| <= MAX_INT
    requires Decode(sc, a, at, m).Done?
    ensures Decode(sc, a + b, at, m) == Decode(sc, b, at + |a|, Decode(sc, a, at, m).msg)
    decreases |a|
  {
    hide ReadField, ApplyField;
    if |a| == 0 {
      assert a + b == b;
    } else {
      FieldLocal(sc.kind, a, b, at, at);
      var f, n := ReadField(sc.kind, a, at).field, ReadField(sc.kind, a, at).size;
      assert (a + b)[n..] == a[n..] + b;
      DecodeConcat(sc, a[n..], b, at + n, ApplyField(sc, m, f).msg);
    }
  }

  /** A successful unmarshalling does not depend on where in a larger input the bytes stand. */
  lemma {:induction false} DecodeAnywhere<M>(sc: Schema<M>, s: seq<byte>, at: nat, at': nat, m: M)
    requires at + |s| <= MAX_INT && at' + |s| <= MAX_INT
    requires Decode(sc, s, at, m).Done?
    ensures Decode(sc, s, at', m) == Decode(sc, s, at, m)
    decreases |s|
  {
    hide ReadField, ApplyField;
    if |s| > 0 {
      assert s + [] == s;
      FieldLocal(sc.kind, s, [], at, at');
      var f, n := ReadField(sc.kind, s, at).field, ReadField(sc.kind, s, at).size;
      DecodeAnywhere(sc, s[n..], at + n, at' + n, ApplyField(sc, m, f).msg);
    }
  }

  // ----- unknown fields -----

  /** The field number that the message sees for an element: 32 bits of the tag. */
  function FieldNumber(e: Element): int32 {
    Int32(Base128(e.tag) % TWO_64 / 8)
  }

  predicate UnknownTo(kind: int -> Kind, e: Element) {
    WellFormed(e) && FieldNumber(e) > 0 && kind(FieldNumber(e)) == UnknownKind
  }

  /** The field loop passes over n bytes without a trace exactly when they are one field of the grammar under a number
      the message does not know. */
  lemma SkippedExact(kind: int -> Kind, s: seq<byte>, at: nat, n: nat)
    requires at + |s| <= MAX_INT && n <= |s|
    ensures ReadField(kind, s, at) == Got(SkippedField, n) <==> exists e :: UnknownTo(kind, e) && Bytes(e) == s[..n]
  {
    hide Skip, WellFormed, Bytes, ReadTag, FieldNumber, Int64;
    SkipExact(s, n);
    forall e | WellFormed(e) && Bytes(e) == s[..n]
      ensures ReadTag(s).Tag? <==> FieldNumber(e) > 0
      ensures ReadTag(s).Tag? ==> ReadTag(s).num == FieldNumber(e)
    {
      assert s == Bytes(e) + s[n..];
      ElementNumber(e, s[n..]);
    }
  }

  lemma ElementNumber(e: Element, t: seq<byte>)
    requires WellFormed(e)
    ensures ReadTag(Bytes(e) + t).Tag? <==> FieldNumber(e) > 0
    ensures ReadTag(Bytes(e) + t).Tag? ==> ReadTag(Bytes(e) + t).num == FieldNumber(e)
  {
    hide ReadVarint, Base128, Int32, AllBytes, AllWellFormed;
    var rest := Bytes(e)[|e.tag|..] + t;
    assert Bytes(e) + t == e.tag + rest;
    ReadIsVarint(e.tag, rest);
  }

  lemma DecodeUnknown<M>(sc: Schema<M>, e: Element, at: nat, m: M)
    requires UnknownTo(sc.kind, e) && at + |Bytes(e)| <= MAX_INT
    ensures Decode(sc, Bytes(e), at, m) == Done(m)
  {
    hide ReadField, WellFormed, Bytes;
    var s := Bytes(e);
    assert s[..|s|] == s;
    SkippedExact(sc.kind, s, at, |s|);
  }

  /** Both succeed with the same message, or both fail. */
  predicate SameOutcome<M(==)>(a: Outcome<M>, b: Outcome<M>) {
    if a.Done? then a == b else b.Failed?
  }

  /** Unknown fields are transparent: inserting one behind any decodable bytes a changes neither whether the input
      decodes nor what it decodes to. */
  lemma UnknownFieldsAreTransparent<M>(sc: Schema<M>, a: seq<byte>, e: Element, b: seq<byte>, m: M)
    requires |a| + |Bytes(e)| + |b| <= MAX_INT
    requires Decode(sc, a, 0, m).Done? && UnknownTo(sc.kind, e)
    ensures SameOutcome(Decode(sc, a + Bytes(e) + b, 0, m), Decode(sc, a + b, 0, m))
  {
    hide Decode, ReadField, WellFormed, Bytes, UnknownTo;
    var m1 := Decode(sc, a, 0, m).msg;
    DecodeConcat(sc, a, b, 0, m);
    assert a + Bytes(e) + b == a + (Bytes(e) + b);
    DecodeConcat(sc, a, Bytes(e) + b, 0, m);
    DecodeUnknown(sc, e, |a|, m1);
    DecodeConcat(sc, Bytes(e), b, |a|, m1);
    DecodeElsewhere(sc, b, |a|, |a| + |Bytes(e)|, m1);
  }

  lemma DecodeElsewhere<M>(sc: Schema<M>, s: seq<byte>, at: nat, at': nat, m: M)
    requires at + |s| <= MAX_INT && at' + |s| <= MAX_INT
    ensures SameOutcome(Decode(sc, s, at, m), Decode(sc, s, at', m))
  {
    hide Decode;
    if Decode(sc, s, at, m).Done? {
      DecodeAnywhere(sc, s, at, at', m);
    }
    if Decode(sc, s, at', m).Done? {
      DecodeAnywhere(sc, s, at', at, m);
    }
  }

  lemma DecodeNothing<M>(sc: Schema<M>, at: nat, m: M)
    requires at <= MAX_INT
    ensures Decode(sc, [], at, m) == Done(m)
  {
  }

  /** Two successful stretches make one. */
  lemma DecodeBoth<M>(sc: Schema<M>, a: seq<byte>, b: seq<byte>, at: nat, m: M, m1: M, m2: M)
    requires at + |a + b| <= MAX_INT
    requires Decode(sc, a, at, m) == Done(m1) && Decode(sc, b, at + |a|, m1) == Done(m2)
    ensures Decode(sc, a + b, at, m) == Done(m2)
  {
    DecodeConcat(sc, a, b, at, m);
  }

  // ----- fields as they are written -----

  function TagBytes(num: nat, wireType: nat): seq<byte> {
    Encode(8 * num + wireType)
  }

  /** A varint field, which proto3 leaves out when it is zero. */
  function VarintBytes(num: nat, v: uint64): seq<byte> {
    if v == 0 then [] else TagBytes(num, 0) + Encode(v)
  }

  /** A length-delimited field that is always written: an embedded message. */
  function MessageBytes(num: nat, payload: seq<byte>): seq<byte> {
    TagBytes(num, 2) + Encode(|payload|) + payload
  }

  /** A string or bytes field, which proto3 leaves out when it is empty. */
  function StringBytes(num: nat, payload: seq<byte>): seq<byte> {
    if |payload| == 0 then [] else MessageBytes(num, payload)
  }

  lemma TagIsByte(num: nat, wireType: nat)
    requires 8 * num + wireType < 0x80
    ensures TagBytes(num, wireType) == [8 * num + wireType]
  {
  }

  /** The field number that is seen is the low 32 bits of the one that was written: a tag of field 2^32 + 1 is taken
      for field 1. The Protocol Buffers Encoding guide has no such numbers. */
  lemma TagNumberIsTruncated(num: nat, wireType: nat, t: seq<byte>)
    requires 8 * num + wireType < TWO_64 && wireType < 8 && wireType != 4
    ensures ReadTag(TagBytes(num, wireType) + t)
         == if Int32(num) > 0 then Tag(Int32(num), wireType, |TagBytes(num, wireType)|)
            else NoTag(IllegalTag(Int32(num), 8 * num + wireType))
  {
    hide ReadVarint, Encode, Int32;
    VarintRoundTrip(8 * num + wireType, t);
    assert (8 * num + wireType) / 8 == num;
  }

  /** So a field number is seen as it was written exactly when it is a positive 32-bit integer. */
  lemma TagNumberExactly(num: nat, wireType: nat, t: seq<byte>)
    requires 8 * num + wireType < TWO_64 && wireType < 8 && wireType != 4
    ensures ReadTag(TagBytes(num, wireType) + t).Tag? && ReadTag(TagBytes(num, wireType) + t).num == num
       <==> 0 < num < TWO_31
  {
    hide ReadTag, TagBytes;
    TagNumberIsTruncated(num, wireType, t);
  }

  lemma TagRoundTrip(num: int32, wireType: nat, t: seq<byte>)
    requires num > 0 && wireType < 8 && wireType != 4
    ensures ReadTag(TagBytes(num, wireType) + t) == Tag(num, wireType, |TagBytes(num, wireType)|)
  {
    hide ReadTag, TagBytes;
    TagNumberIsTruncated(num, wireType, t);
  }

  lemma ReadVarintBytes(kind: int -> Kind, num: int32, v: uint64, at: nat)
    requires num > 0 && v != 0 && kind(num) == VarintKind && at + |VarintBytes(num, v)| <= MAX_INT
    ensures ReadField(kind, VarintBytes(num, v), at) == Got(VarintField(num, v), |VarintBytes(num, v)|)
  {
    hide ReadVarint, Encode, ReadTag, TagBytes;
    TagRoundTrip(num, 0, Encode(v));
    VarintRoundTrip(v, []);
    assert Encode(v) + [] == Encode(v);
    assert VarintBytes(num, v)[|TagBytes(num, 0)|..] == Encode(v);
  }

  lemma ReadMessageBytes(kind: int -> Kind, num: int32, payload: Slice, at: nat)
    requires num > 0 && kind(num) == BytesKind && at + |MessageBytes(num, payload)| <= MAX_INT
    ensures ReadField(kind, MessageBytes(num, payload), at)
         == Got(BytesField(num, payload), |MessageBytes(num, payload)|)
  {
    hide ReadVarint, Encode, ReadTag, TagBytes, Int64;
    var rest := Encode(|payload|) + payload;
    assert MessageBytes(num, payload) == TagBytes(num, 2) + rest;
    TagRoundTrip(num, 2, rest);
    VarintRoundTrip(|payload|, payload);
    assert (TagBytes(num, 2) + rest)[|TagBytes(num, 2)|..] == rest;
    var k := |Encode(|payload|)|;
    assert ReadPayload(rest, at + |TagBytes(num, 2)|) == Payload(k, k + |payload|);
    assert rest[k..k + |payload|] == payload;
  }

  /** One written field decodes to its application. */
  lemma DecodeVarintBytes<M>(sc: Schema<M>, num: int32, v: uint64, at: nat, m: M)
    requires num > 0 && sc.kind(num) == VarintKind && at + |VarintBytes(num, v)| <= MAX_INT
    ensures Decode(sc, VarintBytes(num, v), at, m) == if v == 0 then Done(m) else sc.apply(m, VarintField(num, v))
  {
    hide ReadField, TagBytes, Encode;
    if v != 0 {
      ReadVarintBytes(sc.kind, num, v, at);
      assert |VarintBytes(num, v)| > 0;
    }
  }

  lemma DecodeMessageBytes<M>(sc: Schema<M>, num: int32, payload: Slice, at: nat, m: M)
    requires num > 0 && sc.kind(num) == BytesKind && at + |MessageBytes(num, payload)| <= MAX_INT
    ensures Decode(sc, MessageBytes(num, payload), at, m) == sc.apply(m, BytesField(num, payload))
  {
    hide ReadField, TagBytes, Encode;
    ReadMessageBytes(sc.kind, num, payload, at);
    assert |MessageBytes(num, payload)| > 0;
  }

  lemma DecodeStringBytes<M>(sc: Schema<M>, num: int32, payload: Slice, at: nat, m: M)
    requires num > 0 && sc.kind(num) == BytesKind && at + |StringBytes(num, payload)| <= MAX_INT
    ensures Decode(sc, StringBytes(num, payload), at, m)
         == if |payload| == 0 then Done(m) else sc.apply(m, BytesField(num, payload))
  {
    hide MessageBytes;
    if |payload| > 0 {
      DecodeMessageBytes(sc, num, payload, at, m);
    }
  }

  // ----- replacing the payload of one field -----

  /** A length-delimited field and what follows it. */
  lemma DecodeFieldThen<M>(sc: Schema<M>, num: int32, payload: Slice, b: seq<byte>, at: nat, m: M)
    requires num > 0 && sc.kind(num) == BytesKind && at + |MessageBytes(num, payload)| + |b| <= MAX_INT
    ensures Decode(sc, MessageBytes(num, payload) + b, at, m)
         == match sc.apply(m, BytesField(num, payload))
            case Failed(m', e) => Failed(m', e)
            case Done(m') => Decode(sc, b, at + |MessageBytes(num, payload)|, m')
  {
    hide Decode, ReadField, MessageBytes;
    var f := MessageBytes(num, payload);
    ReadMessageBytes(sc.kind, num, payload, at);
    FieldLocal(sc.kind, f, b, at, at);
    assert (f + b)[|f|..] == b;
    DecodeStep(sc, f + b, at, m);
  }

  /** Two payloads that the message takes alike can replace each other, lengths and all, behind any decodable bytes. */
  lemma PayloadReplaced<M>(sc: Schema<M>, a: seq<byte>, num: int32, x: Slice, y: Slice, b: seq<byte>, m: M)
    requires num > 0 && sc.kind(num) == BytesKind
    requires |a| + |MessageBytes(num, x)| + |b| <= MAX_INT && |a| + |MessageBytes(num, y)| + |b| <= MAX_INT
    requires Decode(sc, a, 0, m).Done?
    requires var m1 := Decode(sc, a, 0, m).msg;
             SameOutcome(sc.apply(m1, BytesField(num, x)), sc.apply(m1, BytesField(num, y)))
    ensures SameOutcome(Decode(sc, a + MessageBytes(num, x) + b, 0, m), Decode(sc, a + MessageBytes(num, y) + b, 0, m))
  {
    hide Decode, MessageBytes;
    var m1, f, g := Decode(sc, a, 0, m).msg, MessageBytes(num, x), MessageBytes(num, y);
    assert a + f + b == a + (f + b) && a + g + b == a + (g + b);
    DecodeConcat(sc, a, f + b, 0, m);
    DecodeConcat(sc, a, g + b, 0, m);
    DecodeFieldThen(sc, num, x, b, |a|, m1);
    DecodeFieldThen(sc, num, y, b, |a|, m1);
    if sc.apply(m1, BytesField(num, x)).Done? {
      DecodeElsewhere(sc, b, |a| + |f|, |a| + |g|, sc.apply(m1, BytesField(num, x)).msg);
    }
  }

  // ----- repeated fields -----

  function RepeatedBytes(num: nat, payloads: seq<Slice>): seq<byte> {
    if |payloads| == 0 then [] else MessageBytes(num, payloads[0]) + RepeatedBytes(num, payloads[1..])
  }

  /** Repeated fields take a message through one state after the other. */
  lemma {:induction false} DecodeRepeated<M>(sc: Schema<M>, num: int32, payloads: seq<Slice>, at: nat, states: seq<M>)
    requires num > 0 && sc.kind(num) == BytesKind && at + |RepeatedBytes(num, payloads)| <= MAX_INT
    requires |states| == |payloads| + 1
    requires forall k :: 0 <= k < |payloads|
               ==> sc.apply(states[k], BytesField(num, payloads[k])) == Done(states[k + 1])
    ensures Decode(sc, RepeatedBytes(num, payloads), at, states[0]) == Done(states[|payloads|])
    decreases |payloads|
  {
    hide Decode, MessageBytes;
    if |payloads| == 0 {
      DecodeNothing(sc, at, states[0]);
    } else {
      var f, rest := MessageBytes(num, payloads[0]), RepeatedBytes(num, payloads[1..]);
      DecodeMessageBytes(sc, num, payloads[0], at, states[0]);
      forall k | 0 <= k < |payloads[1..]|
        ensures sc.apply(states[1..][k], BytesField(num, payloads[1..][k])) == Done(states[1..][k + 1])
      {
        assert sc.apply(states[k + 1], BytesField(num, payloads[k + 1])) == Done(states[k + 2]);
      }
      DecodeRepeated(sc, num, payloads[1..], at + |f|, states[1..]);
      DecodeBoth(sc, f, rest, at, states[0], states[1], states[|payloads|]);
    }
  }

  // ----- which inputs are accepted -----

  /** An element that the field loop takes: with a positive number, and of the wire type that the message wants for
      that number. */
  predicate Takes(kind: int -> Kind, e: Element) {
    && WellFormed(e) && FieldNumber(e) > 0
    && match kind(FieldNumber(e))
       case VarintKind => e.VarintElement?
       case BytesKind => e.Delimited?
       case UnknownKind => true
  }

  function FieldOf(kind: int -> Kind, e: Element): Field
    requires Takes(kind, e)
  {
    match kind(FieldNumber(e))
    case VarintKind => VarintField(FieldNumber(e), Base128(e.raw) % TWO_64)
    case BytesKind => BytesField(FieldNumber(e), e.payload)
    case UnknownKind => SkippedField
  }

  predicate TakesAll(kind: int -> Kind, es: seq<Element>) {
    |es| == 0 || (Takes(kind, es[0]) && TakesAll(kind, es[1..]))
  }

  lemma ElementRead(kind: int -> Kind, e: Element, t: seq<byte>, at: nat)
    requires Takes(kind, e) && at + |Bytes(e) + t| <= MAX_INT
    ensures ReadField(kind, Bytes(e) + t, at) == Got(FieldOf(kind, e), |Bytes(e)|)
  {
    hide ReadVarint, Base128, Int32, Int64, Skip, ReadTag, WellFormed, Bytes, FieldNumber;
    var s := Bytes(e) + t;
    assert s[..|Bytes(e)|] == Bytes(e);
    match kind(FieldNumber(e))
    case VarintKind => VarintElementRead(kind, e, t, at);
    case BytesKind => DelimitedRead(kind, e, t, at);
    case UnknownKind => SkippedExact(kind, s, at, |Bytes(e)|);
  }

  lemma VarintElementRead(kind: int -> Kind, e: Element, t: seq<byte>, at: nat)
    requires Takes(kind, e) && at + |Bytes(e) + t| <= MAX_INT && kind(FieldNumber(e)) == VarintKind
    ensures ReadField(kind, Bytes(e) + t, at) == Got(FieldOf(kind, e), |Bytes(e)|)
  {
    hide ReadVarint, Base128, Int32;
    assert Bytes(e) + t == e.tag + (e.raw + t);
    ReadIsVarint(e.tag, e.raw + t);
    ReadIsVarint(e.raw, t);
  }

  lemma DelimitedRead(kind: int -> Kind, e: Element, t: seq<byte>, at: nat)
    requires Takes(kind, e) && at + |Bytes(e) + t| <= MAX_INT && kind(FieldNumber(e)) == BytesKind
    ensures ReadField(kind, Bytes(e) + t, at) == Got(FieldOf(kind, e), |Bytes(e)|)
  {
    hide ReadVarint, Base128, Int32, Int64;
    var rest := e.length + (e.payload + t);
    assert Bytes(e) + t == e.tag + rest;
    ReadIsVarint(e.tag, rest);
    ReadIsVarint(e.length, e.payload + t);
    var n := |e.length|;
    assert ReadPayload(rest, at + |e.tag|) == Payload(n, n + |e.payload|);
    assert rest[n..n + |e.payload|] == e.payload;
  }

  /** The element that a field was read from. */
  lemma ReadElement(kind: int -> Kind, s: seq<byte>, at: nat) returns (e: Element)
    requires at + |s| <= MAX_INT && ReadField(kind, s, at).Got?
    ensures var r := ReadField(kind, s, at);
            Takes(kind, e) && Bytes(e) == s[..r.size] && r.field == FieldOf(kind, e)
  {
    hide ReadVarint, Base128, Int32, Int64, Skip, ReadTag, WellFormed, Bytes, FieldNumber, ReadPayload;
    var tag := ReadTag(s);
    match kind(tag.num)
    case VarintKind => e := ReadVarintElement(kind, s, at);
    case BytesKind => e := ReadDelimited(kind, s, at);
    case UnknownKind =>
      SkippedExact(kind, s, at, ReadField(kind, s, at).size);
      e :| UnknownTo(kind, e) && Bytes(e) == s[..ReadField(kind, s, at).size];
  }

  /** The tag that was read, as bytes. */
  lemma ReadTagBytes(s: seq<byte>)
    requires ReadTag(s).Tag?
    ensures var tag := s[..ReadTag(s).size];
            IsTag(tag, ReadTag(s).wireType) && Int32(Base128(tag) % TWO_64 / 8) == ReadTag(s).num
  {
    hide Base128, Int32;
    ReadVarintExact(s, ReadVarint(s).value, ReadVarint(s).size);
  }

  lemma ReadVarintElement(kind: int -> Kind, s: seq<byte>, at: nat) returns (e: Element)
    requires at + |s| <= MAX_INT && ReadField(kind, s, at).Got? && kind(ReadTag(s).num) == VarintKind
    ensures var r := ReadField(kind, s, at);
            Takes(kind, e) && Bytes(e) == s[..r.size] && r.field == FieldOf(kind, e)
  {
    hide ReadVarint, Base128, Int32, ReadTag;
    ReadTagBytes(s);
    var n := ReadTag(s).size;
    var rest := s[n..];
    ReadVarintExact(rest, ReadVarint(rest).value, ReadVarint(rest).size);
    e := VarintElement(s[..n], rest[..ReadVarint(rest).size]);
  }

  lemma ReadDelimited(kind: int -> Kind, s: seq<byte>, at: nat) returns (e: Element)
    requires at + |s| <= MAX_INT && ReadField(kind, s, at).Got? && kind(ReadTag(s).num) == BytesKind
    ensures var r := ReadField(kind, s, at);
            Takes(kind, e) && Bytes(e) == s[..r.size] && r.field == FieldOf(kind, e)
  {
    hide ReadVarint, Base128, Int32, ReadTag;
    ReadTagBytes(s);
    var n := ReadTag(s).size;
    var rest := s[n..];
    var p := ReadPayload(rest, at + n);
    ReadVarintExact(rest, ReadVarint(rest).value, ReadVarint(rest).size);
    e := Delimited(s[..n], rest[..p.start], rest[p.start..p.end]);
    assert s[..n + p.end] == s[..n] + rest[..p.start] + rest[p.start..p.end];
  }

  /** The fields of the elements, applied one after the other. */
  function ApplyAll<M>(sc: Schema<M>, es: seq<Element>, m: M): Outcome<M>
    requires TakesAll(sc.kind, es)
  {
    if |es| == 0 then Done(m)
    else
      match ApplyField(sc, m, FieldOf(sc.kind, es[0]))
      case Failed(m', e) => Failed(m', e)
      case Done(m') => ApplyAll(sc, es[1..], m')
  }

  lemma {:induction false} DecodeElements<M>(sc: Schema<M>, es: seq<Element>, at: nat, m: M)
    requires TakesAll(sc.kind, es) && at + |AllBytes(es)| <= MAX_INT && ApplyAll(sc, es, m).Done?
    ensures Decode(sc, AllBytes(es), at, m) == ApplyAll(sc, es, m)
    decreases |es|
  {
    hide Decode, Takes, FieldOf, Bytes, ApplyField, ReadField;
    if |es| == 0 {
      DecodeNothing(sc, at, m);
    } else {
      var s, rest := AllBytes(es), AllBytes(es[1..]);
      ElementRead(sc.kind, es[0], rest, at);
      assert s[|Bytes(es[0])|..] == rest;
      DecodeStep(sc, s, at, m);
      DecodeElements(sc, es[1..], at + |Bytes(es[0])|, ApplyField(sc, m, FieldOf(sc.kind, es[0])).msg);
    }
  }

  lemma {:induction false} DecodedElements<M>(sc: Schema<M>, s: seq<byte>, at: nat, m: M) returns (es: seq<Element>)
    requires at + |s| <= MAX_INT && Decode(sc, s, at, m).Done?
    ensures TakesAll(sc.kind, es) && AllBytes(es) == s && ApplyAll(sc, es, m) == Decode(sc, s, at, m)
    decreases |s|
  {
    hide Decode, Takes, FieldOf, Bytes, ApplyField, ReadField;
    if |s| == 0 {
      es := [];
      DecodeNothing(sc, at, m);
    } else {
      DecodeStep(sc, s, at, m);
      var e := ReadElement(sc.kind, s, at);
      var n := ReadField(sc.kind, s, at).size;
      var rest := DecodedElements(sc, s[n..], at + n, ApplyField(sc, m, ReadField(sc.kind, s, at).field).msg);
      es := [e] + rest;
      assert es[1..] == rest;
      assert s == s[..n] + s[n..];
    }
  }

  /** Unmarshalling succeeds with r exactly when the input is a list of elements that the message takes, and applying
      their fields one after the other gives r. */
  lemma DecodesExactly<M>(sc: Schema<M>, s: seq<byte>, at: nat, m: M, r: M)
    requires at + |s| <= MAX_INT
    ensures Decode(sc, s, at, m) == Done(r)
       <==> exists es :: TakesAll(sc.kind, es) && AllBytes(es) == s && ApplyAll(sc, es, m) == Done(r)
  {
    hide Decode, TakesAll, AllBytes, ApplyAll;
    if Decode(sc, s, at, m).Done? {
      var es := DecodedElements(sc, s, at, m);
    }
    forall es | TakesAll(sc.kind, es) && AllBytes(es) == s && ApplyAll(sc, es, m) == Done(r)
      ensures Decode(sc, s, at, m) == Done(r)
    {
      DecodeElements(sc, es, at, m);
    }
  }

  /** Lists of elements that the message takes and whose fields pass a test. */
  predicate PassAll(kind: int -> Kind, ok: Field -> bool, es: seq<Element>) {
    |es| == 0 || (Takes(kind, es[0]) && ok(FieldOf(kind, es[0])) && PassAll(kind, ok, es[1..]))
  }

  /** Bytes that are such a list. */
  ghost predicate IsFields(kind: int -> Kind, ok: Field -> bool, s: seq<byte>) {
    exists es :: PassAll(kind, ok, es) && AllBytes(es) == s
  }

  predicate AnyField(f: Field) {
    true
  }

  lemma {:induction false} PassAllApplies<M(!new)>(sc: Schema<M>, ok: Field -> bool, es: seq<Element>, m: M)
    requires forall m', f :: ApplyField(sc, m', f).Done? <==> ok(f)
    ensures PassAll(sc.kind, ok, es) <==> TakesAll(sc.kind, es) && ApplyAll(sc, es, m).Done?
    decreases |es|
  {
    hide Takes, FieldOf, ApplyField;
    if |es| > 0 && Takes(sc.kind, es[0]) {
      var r := ApplyField(sc, m, FieldOf(sc.kind, es[0]));
      PassAllApplies(sc, ok, es[1..], if r.Done? then r.msg else m);
    }
  }

  /** Which inputs are accepted, when that depends on the fields only and not on the message they are read into: exactly
      the lists of elements that the message takes and whose fields it accepts. */
  lemma AcceptsExactly<M(!new)>(sc: Schema<M>, ok: Field -> bool, s: seq<byte>, at: nat, m: M)
    requires at + |s| <= MAX_INT
    requires forall m', f :: ApplyField(sc, m', f).Done? <==> ok(f)
    ensures Decode(sc, s, at, m).Done? <==> IsFields(sc.kind, ok, s)
  {
    hide Decode, TakesAll, PassAll, AllBytes, ApplyAll, ApplyField;
    if Decode(sc, s, at, m).Done? {
      var es := DecodedElements(sc, s, at, m);
      PassAllApplies(sc, ok, es, m);
    }
    forall es | PassAll(sc.kind, ok, es) && AllBytes(es) == s ensures Decode(sc, s, at, m).Done? {
      PassAllApplies(sc, ok, es, m);
      DecodeElements(sc, es, at, m);
    }
  }
}
