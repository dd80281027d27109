/** The message objects: Size, Marshal, MarshalToSizedBuffer and Unmarshal on their fields and on a shared buffer. */
module Codec {
  import opened Machine
  import opened Results
  import opened Selections
  import opened Varints
  import opened Wire
  import opened Messages

  // ----- writing one field just below index i of the buffer -----

  lemma Prepend(a: seq<byte>, i: nat, s: seq<byte>, b: seq<byte>, mid: seq<byte>, j: nat, f: seq<byte>, now: seq<byte>)
    requires j <= i <= |a| && mid == a[..i] + s + b
    requires now == mid[..j] + f + mid[i..]
    ensures now == a[..j] + (f + s) + b
  {
    assert mid[i..] == s + b;
    assert mid[..j] == a[..j];
  }

  method PutTag(dAtA: array<byte>, i: int, tag: byte, ghost num: nat, ghost wireType: nat) returns (j: int)
    requires 0 < i <= dAtA.Length && tag < 0x80 && tag == 8 * num + wireType
    modifies dAtA
    ensures j == i - 1
    ensures dAtA[..] == old(dAtA[..j]) + TagBytes(num, wireType) + old(dAtA[i..])
  {
    j := i - 1;
    dAtA[j] := tag;
  }

  /** Length and tag of the payload that already stands at [start, i). */
  method PutHeader(dAtA: array<byte>, i: int, start: int, tag: byte, ghost num: nat) returns (j: int)
    requires 0 <= start <= i <= dAtA.Length <= MAX_INT
    requires |MessageBytes(num, dAtA[start..i])| <= i
    requires tag < 0x80 && tag == 8 * num + 2
    modifies dAtA
    ensures j == i - |MessageBytes(num, old(dAtA[start..i]))|
    ensures dAtA[..] == old(dAtA[..j]) + MessageBytes(num, old(dAtA[start..i])) + old(dAtA[i..])
  {
    hide Encode, Sov, TagBytes;
    ghost var all, payload := dAtA[..], dAtA[start..i];
    assert all == all[..start] + payload + all[i..];
    SovIsEncodedLength(i - start);
    TagIsByte(num, 2);
    var at := EncodeVarintCommon(dAtA, start, i - start);
    ghost var mid := dAtA[..];
    Prepend(all, start, payload, all[i..], all, at, Encode(|payload|), mid);
    j := PutTag(dAtA, at, tag, num, 2);
    Prepend(all, at, Encode(|payload|) + payload, all[i..], mid, j, TagBytes(num, 2), dAtA[..]);
    assert TagBytes(num, 2) + (Encode(|payload|) + payload) == MessageBytes(num, payload);
  }

  method PutString(dAtA: array<byte>, i: int, tag: byte, ghost num: nat, s: Slice) returns (j: int)
    requires |StringBytes(num, s)| <= i <= dAtA.Length <= MAX_INT
    requires tag < 0x80 && tag == 8 * num + 2
    modifies dAtA
    ensures j == i - |StringBytes(num, s)|
    ensures dAtA[..] == old(dAtA[..j]) + StringBytes(num, s) + old(dAtA[i..])
  {
    hide Encode, TagBytes;
    j := i;
    if |s| > 0 {
      var start := i - |s|;
      ghost var all := dAtA[..];
      forall k | 0 <= k < |s| {
        dAtA[start + k] := s[k];
      }
      ghost var mid := dAtA[..];
      assert mid[start..i] == s;
      j := PutHeader(dAtA, i, start, tag, num);
      assert mid[..j] == all[..j] && mid[i..] == all[i..];
    }
  }

  method PutVarint(dAtA: array<byte>, i: int, tag: byte, ghost num: nat, v: uint64) returns (j: int)
    requires |VarintBytes(num, v)| <= i <= dAtA.Length
    requires tag < 0x80 && tag == 8 * num
    modifies dAtA
    ensures j == i - |VarintBytes(num, v)|
    ensures dAtA[..] == old(dAtA[..j]) + VarintBytes(num, v) + old(dAtA[i..])
  {
    hide Encode, Sov, TagBytes;
    j := i;
    if v != 0 {
      ghost var all := dAtA[..];
      SovIsEncodedLength(v);
      TagIsByte(num, 0);
      j := EncodeVarintCommon(dAtA, i, v);
      ghost var at, mid := j, dAtA[..];
      assert all == all[..i] + [] + all[i..];
      Prepend(all, i, [], all[i..], all, at, Encode(v), mid);
      j := PutTag(dAtA, j, tag, num, 0);
      Prepend(all, at, Encode(v) + [], all[i..], mid, j, TagBytes(num, 0), dAtA[..]);
      assert TagBytes(num, 0) + (Encode(v) + []) == VarintBytes(num, v);
    }
  }

  // ----- predicting lengths -----

  function SizeOfString(s: Slice): nat {
    if |s| > 0 then 1 + |s| + Sov(|s|) else 0
  }

  function SizeOfVarint(v: uint64): nat {
    if v != 0 then 1 + Sov(v) else 0
  }

  lemma SizesAreLengths(num: nat, s: Slice, v: uint64)
    requires 0 < num < 16
    ensures SizeOfString(s) == |StringBytes(num, s)|
    ensures SizeOfVarint(v) == |VarintBytes(num, v)|
  {
    hide Sov, Encode, TagBytes;
    TagIsByte(num, 2);
    TagIsByte(num, 0);
    SovIsEncodedLength(|s|);
    SovIsEncodedLength(v);
  }

  class NetworkFee {
    var height: int64
    var chain: Slice
    var transactionSize: uint64
    var transactionRate: uint64

    function Value(): NetworkFeeValue
      reads this
    {
      NetworkFeeValue(height, chain, transactionSize, transactionRate)
    }

    constructor ()
      ensures Value() == EMPTY_NETWORK_FEE
    {
      height, chain, transactionSize, transactionRate := 0, [], 0, 0;
    }

    predicate Equals(other: NetworkFee)
      reads this, other
      ensures Equals(other) <==> Value() == other.Value()
    {
      if chain != other.chain then false
      else if height != other.height then false
      else if transactionSize != other.transactionSize then false
      else if transactionRate != other.transactionRate then false
      else true
    }

    method Size() returns (n: int64)
      requires |NetworkFeeBytes(Value())| <= MAX_INT
      ensures n == |NetworkFeeBytes(Value())|
    {
      hide Sov, StringBytes, VarintBytes;
      n := 0;
      n := Int64(n + SizeOfVarint(Uint64(height)));
      n := Int64(n + SizeOfString(chain));
      n := Int64(n + SizeOfVarint(transactionSize));
      n := Int64(n + SizeOfVarint(transactionRate));
      SizesAreLengths(1, [], Uint64(height));
      SizesAreLengths(2, chain, 0);
      SizesAreLengths(3, [], transactionSize);
      SizesAreLengths(4, [], transactionRate);
    }

    method MarshalToSizedBuffer(dAtA: array<byte>, end: int) returns (n: int)
      requires |NetworkFeeBytes(Value())| <= end <= dAtA.Length <= MAX_INT
      modifies dAtA
      ensures n == |NetworkFeeBytes(Value())|
      ensures dAtA[..] == old(dAtA[..end - n]) + NetworkFeeBytes(Value()) + old(dAtA[end..])
    {
      hide StringBytes, VarintBytes;
      ghost var all := dAtA[..];
      ghost var b := all[end..];
      ghost var f1, f2 := VarintBytes(1, Uint64(height)), StringBytes(2, chain);
      ghost var f3, f4 := VarintBytes(3, transactionSize), VarintBytes(4, transactionRate);
      var i4 := PutVarint(dAtA, end, 0x20, 4, transactionRate);
      ghost var d4 := dAtA[..];
      var i3 := PutVarint(dAtA, i4, 0x18, 3, transactionSize);
      ghost var d3 := dAtA[..];
      Prepend(all, i4, f4, b, d4, i3, f3, d3);
      var i2 := PutString(dAtA, i3, 0x12, 2, chain);
      ghost var d2 := dAtA[..];
      Prepend(all, i3, f3 + f4, b, d3, i2, f2, d2);
      var i1 := PutVarint(dAtA, i2, 0x8, 1, Uint64(height));
      Prepend(all, i2, f2 + (f3 + f4), b, d2, i1, f1, dAtA[..]);
      n := end - i1;
    }

    method Marshal() returns (dAtA: array<byte>)
      requires |NetworkFeeBytes(Value())| <= MAX_INT
      ensures fresh(dAtA) && dAtA[..] == NetworkFeeBytes(Value())
    {
      hide NetworkFeeBytes;
      var size := Size();
      dAtA := new byte[size];
      var n := MarshalToSizedBuffer(dAtA, size);
    }

    // The loop keeps iNdEx <= l, so the test iNdEx > l that every Unmarshal ends with can never be true; it is not
    // written here or below.
    method Unmarshal(dAtA: seq<byte>) returns (error: Option<Error>)
      requires |dAtA| <= MAX_INT
      modifies this
      ensures Decode(NetworkFeeSchema(), dAtA, 0, old(Value()))
           == match error case None => Done(Value()) case Some(e) => Failed(Value(), e)
    {
      hide Decode, ReadTag, ReadBody, Int64;
      var l, iNdEx := |dAtA|, 0;
      assert dAtA[0..] == dAtA;
      while iNdEx < l
        invariant 0 <= iNdEx <= l
        invariant Decode(NetworkFeeSchema(), dAtA, 0, old(Value()))
               == Decode(NetworkFeeSchema(), dAtA[iNdEx..], iNdEx, Value())
        decreases l - iNdEx
      {
        var preIndex := iNdEx;
        ghost var rest := dAtA[preIndex..];
        DecodeStep(NetworkFeeSchema(), rest, preIndex, Value());
        var tag, after := ReadTagAt(dAtA, iNdEx);
        if tag.NoTag? {
          return Some(tag.error);
        }
        var r;
        match tag.num {
          case 1 =>
            r, iNdEx := VarintFieldAt(dAtA, preIndex, tag);
            if r.Bad? {
              if r.partial.Some? {
                height := Int64(r.partial.value.1);
              }
              return Some(r.error);
            }
            height := Int64(r.field.value);
          case 2 =>
            r, iNdEx := BytesFieldAt(dAtA, preIndex, tag);
            if r.Bad? {
              return Some(r.error);
            }
            chain := r.field.payload;
          case 3 =>
            r, iNdEx := VarintFieldAt(dAtA, preIndex, tag);
            if r.Bad? {
              if r.partial.Some? {
                transactionSize := r.partial.value.1;
              }
              return Some(r.error);
            }
            transactionSize := r.field.value;
          case 4 =>
            r, iNdEx := VarintFieldAt(dAtA, preIndex, tag);
            if r.Bad? {
              if r.partial.Some? {
                transactionRate := r.partial.value.1;
              }
              return Some(r.error);
            }
            transactionRate := r.field.value;
          case _ =>
            r, iNdEx := UnknownFieldAt(dAtA, preIndex, tag);
            if r.Bad? {
              return Some(r.error);
            }
        }
        assert rest[r.size..] == dAtA[iNdEx..];
      }
      assert dAtA[l..] == [];
      DecodeNothing(NetworkFeeSchema(), l, Value());
      return None;
    }
  }

  class Attestation {
    var pubKey: Slice
    var signature: Slice

    function Value(): AttestationValue
      reads this
    {
      AttestationValue(pubKey, signature)
    }

    constructor ()
      ensures Value() == EMPTY_ATTESTATION
    {
      pubKey, signature := [], [];
    }

    predicate Equals(att: Attestation)
      reads this, att
      ensures Equals(att) <==> Value() == att.Value()
    {
      if signature != att.signature then false
      else if pubKey != att.pubKey then false
      else true
    }

    method Size() returns (n: int64)
      requires |AttestationBytes(Value())| <= MAX_INT
      ensures n == |AttestationBytes(Value())|
    {
      hide Sov, StringBytes;
      n := 0;
      n := Int64(n + SizeOfString(pubKey));
      n := Int64(n + SizeOfString(signature));
      SizesAreLengths(1, pubKey, 0);
      SizesAreLengths(2, signature, 0);
    }

    method MarshalToSizedBuffer(dAtA: array<byte>, end: int) returns (n: int)
      requires |AttestationBytes(Value())| <= end <= dAtA.Length <= MAX_INT
      modifies dAtA
      ensures n == |AttestationBytes(Value())|
      ensures dAtA[..] == old(dAtA[..end - n]) + AttestationBytes(Value()) + old(dAtA[end..])
    {
      hide StringBytes;
      ghost var all := dAtA[..];
      var i2 := PutString(dAtA, end, 0x12, 2, signature);
      ghost var d2 := dAtA[..];
      var i1 := PutString(dAtA, i2, 0xa, 1, pubKey);
      Prepend(all, i2, StringBytes(2, signature), all[end..], d2, i1, StringBytes(1, pubKey), dAtA[..]);
      n := end - i1;
    }

    method Marshal() returns (dAtA: array<byte>)
      requires |AttestationBytes(Value())| <= MAX_INT
      ensures fresh(dAtA) && dAtA[..] == AttestationBytes(Value())
    {
      hide AttestationBytes;
      var size := Size();
      dAtA := new byte[size];
      var n := MarshalToSizedBuffer(dAtA, size);
    }

    method Unmarshal(dAtA: seq<byte>) returns (error: Option<Error>)
      requires |dAtA| <= MAX_INT
      modifies this
      ensures Decode(AttestationSchema(), dAtA, 0, old(Value()))
           == match error case None => Done(Value()) case Some(e) => Failed(Value(), e)
    {
      hide Decode, ReadTag, ReadBody;
      var l, iNdEx := |dAtA|, 0;
      assert dAtA[0..] == dAtA;
      while iNdEx < l
        invariant 0 <= iNdEx <= l
        invariant Decode(AttestationSchema(), dAtA, 0, old(Value()))
               == Decode(AttestationSchema(), dAtA[iNdEx..], iNdEx, Value())
        decreases l - iNdEx
      {
        var preIndex := iNdEx;
        ghost var rest := dAtA[preIndex..];
        DecodeStep(AttestationSchema(), rest, preIndex, Value());
        var tag, after := ReadTagAt(dAtA, iNdEx);
        if tag.NoTag? {
          return Some(tag.error);
        }
        var r;
        match tag.num {
          case 1 =>
            r, iNdEx := BytesFieldAt(dAtA, preIndex, tag);
            if r.Bad? {
              return Some(r.error);
            }
            pubKey := r.field.payload;
          case 2 =>
            r, iNdEx := BytesFieldAt(dAtA, preIndex, tag);
            if r.Bad? {
              return Some(r.error);
            }
            signature := r.field.payload;
          case _ =>
            r, iNdEx := UnknownFieldAt(dAtA, preIndex, tag);
            if r.Bad? {
              return Some(r.error);
            }
        }
        assert rest[r.size..] == dAtA[iNdEx..];
      }
      assert dAtA[l..] == [];
      DecodeNothing(AttestationSchema(), l, Value());
      return None;
    }
  }

  class ErrataTx {
    var id: Slice
    var chain: Slice

    function Value(): ErrataTxValue
      reads this
    {
      ErrataTxValue(id, chain)
    }

    constructor ()
      ensures Value() == EMPTY_ERRATA_TX
    {
      id, chain := [], [];
    }

    predicate Equals(other: ErrataTx)
      reads this, other
      ensures Equals(other) <==> Value() == other.Value()
    {
      if chain != other.chain then false
      else if id != other.id then false
      else true
    }

    method Size() returns (n: int64)
      requires |ErrataTxBytes(Value())| <= MAX_INT
      ensures n == |ErrataTxBytes(Value())|
    {
      hide Sov, StringBytes;
      n := 0;
      n := Int64(n + SizeOfString(id));
      n := Int64(n + SizeOfString(chain));
      SizesAreLengths(1, id, 0);
      SizesAreLengths(2, chain, 0);
    }

    method MarshalToSizedBuffer(dAtA: array<byte>, end: int) returns (n: int)
      requires |ErrataTxBytes(Value())| <= end <= dAtA.Length <= MAX_INT
      modifies dAtA
      ensures n == |ErrataTxBytes(Value())|
      ensures dAtA[..] == old(dAtA[..end - n]) + ErrataTxBytes(Value()) + old(dAtA[end..])
    {
      hide StringBytes;
      ghost var all := dAtA[..];
      var i2 := PutString(dAtA, end, 0x12, 2, chain);
      ghost var d2 := dAtA[..];
      var i1 := PutString(dAtA, i2, 0xa, 1, id);
      Prepend(all, i2, StringBytes(2, chain), all[end..], d2, i1, StringBytes(1, id), dAtA[..]);
      n := end - i1;
    }

    method Marshal() returns (dAtA: array<byte>)
      requires |ErrataTxBytes(Value())| <= MAX_INT
      ensures fresh(dAtA) && dAtA[..] == ErrataTxBytes(Value())
    {
      hide ErrataTxBytes;
      var size := Size();
      dAtA := new byte[size];
      var n := MarshalToSizedBuffer(dAtA, size);
    }

    method Unmarshal(dAtA: seq<byte>) returns (error: Option<Error>)
      requires |dAtA| <= MAX_INT
      modifies this
      ensures Decode(ErrataTxSchema(), dAtA, 0, old(Value()))
           == match error case None => Done(Value()) case Some(e) => Failed(Value(), e)
    {
      hide Decode, ReadTag, ReadBody;
      var l, iNdEx := |dAtA|, 0;
      assert dAtA[0..] == dAtA;
      while iNdEx < l
        invariant 0 <= iNdEx <= l
        invariant Decode(ErrataTxSchema(), dAtA, 0, old(Value()))
               == Decode(ErrataTxSchema(), dAtA[iNdEx..], iNdEx, Value())
        decreases l - iNdEx
      {
        var preIndex := iNdEx;
        ghost var rest := dAtA[preIndex..];
        DecodeStep(ErrataTxSchema(), rest, preIndex, Value());
        var tag, after := ReadTagAt(dAtA, iNdEx);
        if tag.NoTag? {
          return Some(tag.error);
        }
        var r;
        match tag.num {
          case 1 =>
            r, iNdEx := BytesFieldAt(dAtA, preIndex, tag);
            if r.Bad? {
              return Some(r.error);
            }
            id := r.field.payload;
          case 2 =>
            r, iNdEx := BytesFieldAt(dAtA, preIndex, tag);
            if r.Bad? {
              return Some(r.error);
            }
            chain := r.field.payload;
          case _ =>
            r, iNdEx := UnknownFieldAt(dAtA, preIndex, tag);
            if r.Bad? {
              return Some(r.error);
            }
        }
        assert rest[r.size..] == dAtA[iNdEx..];
      }
      assert dAtA[l..] == [];
      DecodeNothing(ErrataTxSchema(), l, Value());
      return None;
    }
  }

  class Asset {
    var chain: Slice
    var symbol: Slice
    var ticker: Slice
    var synth: bool
    var trade: bool
    var secured: bool

    function Value(): AssetValue
      reads this
    {
      AssetValue(chain, symbol, ticker, synth, trade, secured)
    }

    constructor ()
      ensures Value() == EMPTY_ASSET
    {
      chain, symbol, ticker, synth, trade, secured := [], [], [], false, false, false;
    }

    method Size() returns (n: int64)
      requires |AssetBytes(Value())| <= MAX_INT
      ensures n == |AssetBytes(Value())|
    {
      hide Sov, StringBytes;
      n := 0;
      n := Int64(n + SizeOfString(chain));
      n := Int64(n + SizeOfString(symbol));
      n := Int64(n + SizeOfString(ticker));
      if synth {
        n := Int64(n + 2);
      }
      if trade {
        n := Int64(n + 2);
      }
      if secured {
        n := Int64(n + 2);
      }
      SizesAreLengths(1, chain, 0);
      SizesAreLengths(2, symbol, 0);
      SizesAreLengths(3, ticker, 0);
      BitTakesTwoBytes(4);
      BitTakesTwoBytes(5);
      BitTakesTwoBytes(6);
    }

    method MarshalToSizedBuffer(dAtA: array<byte>, end: int) returns (n: int)
      requires |AssetBytes(Value())| <= end <= dAtA.Length <= MAX_INT
      modifies dAtA
      ensures n == |AssetBytes(Value())|
      ensures dAtA[..] == old(dAtA[..end - n]) + AssetBytes(Value()) + old(dAtA[end..])
    {
      hide StringBytes, VarintBytes;
      ghost var all := dAtA[..];
      ghost var b := all[end..];
      ghost var f1, f2, f3 := StringBytes(1, chain), StringBytes(2, symbol), StringBytes(3, ticker);
      ghost var f4, f5, f6 := VarintBytes(4, Bit(synth)), VarintBytes(5, Bit(trade)), VarintBytes(6, Bit(secured));
      var i6 := PutBit(dAtA, end, 0x30, 6, secured);
      ghost var d6 := dAtA[..];
      var i5 := PutBit(dAtA, i6, 0x28, 5, trade);
      ghost var d5 := dAtA[..];
      Prepend(all, i6, f6, b, d6, i5, f5, d5);
      var i4 := PutBit(dAtA, i5, 0x20, 4, synth);
      ghost var d4 := dAtA[..];
      Prepend(all, i5, f5 + f6, b, d5, i4, f4, d4);
      var i3 := PutString(dAtA, i4, 0x1a, 3, ticker);
      ghost var d3 := dAtA[..];
      Prepend(all, i4, f4 + (f5 + f6), b, d4, i3, f3, d3);
      var i2 := PutString(dAtA, i3, 0x12, 2, symbol);
      ghost var d2 := dAtA[..];
      Prepend(all, i3, f3 + (f4 + (f5 + f6)), b, d3, i2, f2, d2);
      var i1 := PutString(dAtA, i2, 0xa, 1, chain);
      Prepend(all, i2, f2 + (f3 + (f4 + (f5 + f6))), b, d2, i1, f1, dAtA[..]);
      n := end - i1;
    }

    method Marshal() returns (dAtA: array<byte>)
      requires |AssetBytes(Value())| <= MAX_INT
      ensures fresh(dAtA) && dAtA[..] == AssetBytes(Value())
    {
      hide AssetBytes;
      var size := Size();
      dAtA := new byte[size];
      var n := MarshalToSizedBuffer(dAtA, size);
    }

    method Unmarshal(dAtA: seq<byte>) returns (error: Option<Error>)
      requires |dAtA| <= MAX_INT
      modifies this
      ensures Decode(AssetSchema(), dAtA, 0, old(Value()))
           == match error case None => Done(Value()) case Some(e) => Failed(Value(), e)
    {
      hide Decode, ReadTag, ReadBody, Int64;
      var l, iNdEx := |dAtA|, 0;
      assert dAtA[0..] == dAtA;
      while iNdEx < l
        invariant 0 <= iNdEx <= l
        invariant Decode(AssetSchema(), dAtA, 0, old(Value()))
               == Decode(AssetSchema(), dAtA[iNdEx..], iNdEx, Value())
        decreases l - iNdEx
      {
        var preIndex := iNdEx;
        ghost var rest := dAtA[preIndex..];
        DecodeStep(AssetSchema(), rest, preIndex, Value());
        var tag, after := ReadTagAt(dAtA, iNdEx);
        if tag.NoTag? {
          return Some(tag.error);
        }
        var r;
        match tag.num {
          case 1 =>
            r, iNdEx := BytesFieldAt(dAtA, preIndex, tag);
            if r.Bad? {
              return Some(r.error);
            }
            chain := r.field.payload;
          case 2 =>
            r, iNdEx := BytesFieldAt(dAtA, preIndex, tag);
            if r.Bad? {
              return Some(r.error);
            }
            symbol := r.field.payload;
          case 3 =>
            r, iNdEx := BytesFieldAt(dAtA, preIndex, tag);
            if r.Bad? {
              return Some(r.error);
            }
            ticker := r.field.payload;
          case 4 =>
            r, iNdEx := VarintFieldAt(dAtA, preIndex, tag);
            if r.Bad? {
              return Some(r.error);
            }
            synth := Int64(r.field.value) != 0;
          case 5 =>
            r, iNdEx := VarintFieldAt(dAtA, preIndex, tag);
            if r.Bad? {
              return Some(r.error);
            }
            trade := Int64(r.field.value) != 0;
          case 6 =>
            r, iNdEx := VarintFieldAt(dAtA, preIndex, tag);
            if r.Bad? {
              return Some(r.error);
            }
            secured := Int64(r.field.value) != 0;
          case _ =>
            r, iNdEx := UnknownFieldAt(dAtA, preIndex, tag);
            if r.Bad? {
              return Some(r.error);
            }
        }
        assert rest[r.size..] == dAtA[iNdEx..];
      }
      assert dAtA[l..] == [];
      DecodeNothing(AssetSchema(), l, Value());
      return None;
    }
  }

  lemma BitTakesTwoBytes(num: nat)
    requires 0 < num < 16
    ensures |VarintBytes(num, 1)| == 2
    ensures VarintBytes(num, 1) == [8 * num, 1]
  {
    TagIsByte(num, 0);
  }

  /** A boolean field is one tag byte and a one, written only when it is set. */
  method PutBit(dAtA: array<byte>, i: int, tag: byte, ghost num: nat, b: bool) returns (j: int)
    requires |VarintBytes(num, Bit(b))| <= i <= dAtA.Length
    requires tag < 0x80 && tag == 8 * num && num > 0
    modifies dAtA
    ensures j == i - |VarintBytes(num, Bit(b))|
    ensures dAtA[..] == old(dAtA[..j]) + VarintBytes(num, Bit(b)) + old(dAtA[i..])
  {
    hide VarintBytes;
    j := i;
    if b {
      BitTakesTwoBytes(num);
      j := j - 1;
      dAtA[j] := 1;
      j := j - 1;
      dAtA[j] := tag;
    } else {
      NoBit(num);
    }
  }

  lemma NoBit(num: nat)
    ensures VarintBytes(num, 0) == []
  {
  }

  // ----- the message that holds other messages -----

  function Values(atts: seq<Attestation>): (vs: seq<AttestationValue>)
    reads atts
    ensures |vs| == |atts|
    ensures forall k :: 0 <= k < |atts| ==> vs[k] == atts[k].Value()
  {
    seq(|atts|, k requires 0 <= k < |atts| reads atts => atts[k].Value())
  }

  lemma {:induction false} AttestationsBytesConcat(a: seq<AttestationValue>, b: seq<AttestationValue>)
    ensures AttestationsBytes(a + b) == AttestationsBytes(a) + AttestationsBytes(b)
  {
    hide MessageBytes, AttestationBytes;
    if |a| == 0 {
      assert a + b == b;
    } else {
      AttestationsBytesConcat(a[1..], b);
      assert (a + b)[1..] == a[1..] + b;
    }
  }

  /** The encodings up to k, of the k-th and after it make up the whole. */
  lemma AttestationsBytesAt(vs: seq<AttestationValue>, k: nat)
    requires k < |vs|
    ensures AttestationsBytes(vs[..k + 1]) == AttestationsBytes(vs[..k]) + MessageBytes(2, AttestationBytes(vs[k]))
    ensures AttestationsBytes(vs[k..]) == MessageBytes(2, AttestationBytes(vs[k])) + AttestationsBytes(vs[k + 1..])
    ensures AttestationsBytes(vs) == AttestationsBytes(vs[..k]) + AttestationsBytes(vs[k..])
  {
    hide MessageBytes, AttestationBytes, AttestationsBytes;
    AttestationsBytesUpTo(vs, k);
    AttestationsBytesFrom(vs, k);
    AttestationsBytesCut(vs, k);
  }

  lemma AttestationsBytesUpTo(vs: seq<AttestationValue>, k: nat)
    requires k < |vs|
    ensures AttestationsBytes(vs[..k + 1]) == AttestationsBytes(vs[..k]) + MessageBytes(2, AttestationBytes(vs[k]))
  {
    hide MessageBytes, AttestationBytes, AttestationsBytes;
    AttestationsBytesOne(vs[k]);
    assert vs[..k + 1] == vs[..k] + [vs[k]];
    AttestationsBytesConcat(vs[..k], [vs[k]]);
  }

  lemma AttestationsBytesFrom(vs: seq<AttestationValue>, k: nat)
    requires k < |vs|
    ensures AttestationsBytes(vs[k..]) == MessageBytes(2, AttestationBytes(vs[k])) + AttestationsBytes(vs[k + 1..])
  {
    hide MessageBytes, AttestationBytes;
    assert vs[k..][1..] == vs[k + 1..];
  }

  lemma AttestationsBytesCut(vs: seq<AttestationValue>, k: nat)
    requires k < |vs|
    ensures AttestationsBytes(vs) == AttestationsBytes(vs[..k]) + AttestationsBytes(vs[k..])
  {
    hide AttestationsBytes;
    assert vs == vs[..k] + vs[k..];
    AttestationsBytesConcat(vs[..k], vs[k..]);
  }

  lemma AttestationsBytesOne(v: AttestationValue)
    ensures AttestationsBytes([v]) == MessageBytes(2, AttestationBytes(v))
  {
    hide MessageBytes, AttestationBytes;
    assert [v][1..] == [];
    assert MessageBytes(2, AttestationBytes(v)) + [] == MessageBytes(2, AttestationBytes(v));
  }

  lemma MessageSize(num: nat, payload: Slice)
    requires 0 < num < 16
    ensures |MessageBytes(num, payload)| == 1 + |payload| + Sov(|payload|)
  {
    hide Sov, Encode, TagBytes;
    TagIsByte(num, 2);
    SovIsEncodedLength(|payload|);
  }

  /** The values that are not among the removed ones, in order. */
  function Remaining(vs: seq<AttestationValue>, removed: seq<AttestationValue>): seq<AttestationValue> {
    if |vs| == 0 then [] else (if vs[0] in removed then [] else [vs[0]]) + Remaining(vs[1..], removed)
  }

  lemma {:induction false} RemainingAppend(
    vs: seq<AttestationValue>, v: AttestationValue, removed: seq<AttestationValue>)
    ensures Remaining(vs + [v], removed) == Remaining(vs, removed) + if v in removed then [] else [v]
  {
    if |vs| > 0 {
      assert (vs + [v])[1..] == vs[1..] + [v];
      RemainingAppend(vs[1..], v, removed);
    } else {
      assert vs + [v] == [v];
    }
  }

  lemma {:induction false} RemainingEmpty(vs: seq<AttestationValue>, removed: seq<AttestationValue>)
    ensures |Remaining(vs, removed)| == 0 <==> forall v :: v in vs ==> v in removed
  {
    if |vs| > 0 {
      RemainingEmpty(vs[1..], removed);
      assert vs[0] in vs;
      assert forall v :: v in vs ==> v == vs[0] || v in vs[1..];
    }
  }

  /** What remains are the values that are not removed, in their order. */
  lemma {:induction false} RemainingExactly(vs: seq<AttestationValue>, removed: seq<AttestationValue>)
    returns (at: seq<nat>)
    ensures Increasing(at) && forall k: nat :: k in at <==> k < |vs| && vs[k] !in removed
    ensures Within(at, |vs|) && Remaining(vs, removed) == Picked(vs, at)
  {
    if |vs| == 0 {
      at := [];
    } else {
      var rest := RemainingExactly(vs[1..], removed);
      var head := vs[0] !in removed;
      at := Shift(rest, head);
      ShiftPicks(vs, rest, head);
      forall k: nat ensures k in at <==> k < |vs| && vs[k] !in removed {
        ShiftHas(rest, head, k);
        assert 0 < k < |vs| ==> vs[1..][k - 1] == vs[k];
      }
    }
  }

  /** Removing in two rounds is removing all at once. */
  lemma {:induction false} RemainingTwice(
    vs: seq<AttestationValue>, a: seq<AttestationValue>, b: seq<AttestationValue>)
    ensures Remaining(Remaining(vs, a), b) == Remaining(vs, a + b)
  {
    if |vs| > 0 {
      RemainingTwice(vs[1..], a, b);
      assert vs[0] in a + b <==> vs[0] in a || vs[0] in b;
      if vs[0] !in a {
        assert Remaining(vs, a) == [vs[0]] + Remaining(vs[1..], a);
        assert Remaining(vs, a)[1..] == Remaining(vs[1..], a);
      } else {
        assert Remaining(vs, a) == Remaining(vs[1..], a);
      }
    }
  }

  /** `removeAttestations`. */
  method RemainingAttestations(existing: seq<Attestation>, toRemove: seq<Attestation>)
    returns (newAtts: seq<Attestation>)
    ensures Values(newAtts) == Remaining(Values(existing), Values(toRemove))
    ensures forall a :: a in newAtts ==> a in existing
  {
    hide Values, Remaining;
    newAtts := [];
    ghost var vs, removed := Values(existing), Values(toRemove);
    var i := 0;
    NoneRemaining(removed);
    assert vs[..0] == [];
    while i < |existing|
      invariant 0 <= i <= |existing|
      invariant Values(newAtts) == Remaining(vs[..i], removed)
      invariant forall a :: a in newAtts ==> a in existing
    {
      var found := false;
      var j := 0;
      while j < |toRemove|
        invariant 0 <= j <= |toRemove|
        invariant found <==> vs[i] in removed[..j]
      {
        if existing[i].Equals(toRemove[j]) {
          found := true;
        }
        assert removed[..j + 1] == removed[..j] + [removed[j]];
        j := j + 1;
      }
      assert removed[..j] == removed;
      assert vs[..i + 1] == vs[..i] + [vs[i]];
      RemainingAppend(vs[..i], vs[i], removed);
      if !found {
        ghost var shorter := newAtts;
        newAtts := newAtts + [existing[i]];
        assert Values(newAtts) == Values(shorter) + [vs[i]];
      } else {
        assert Values(newAtts) + [] == Values(newAtts);
      }
      i := i + 1;
    }
    assert vs[..i] == vs;
  }

  lemma NoneRemaining(removed: seq<AttestationValue>)
    ensures Remaining([], removed) == []
  {
  }

  class QuorumNetworkFee {
    var networkFee: NetworkFee?
    var attestations: seq<Attestation>

    function FeeValue(): Option<NetworkFeeValue>
      reads this, networkFee
    {
      if networkFee == null then None else Some(networkFee.Value())
    }

    function Value(): QuorumNetworkFeeValue
      reads this, networkFee, attestations
    {
      QuorumNetworkFeeValue(FeeValue(), Values(attestations))
    }

    constructor ()
      ensures Value() == EMPTY_QUORUM
    {
      networkFee, attestations := null, [];
    }

    /** The grouping test looks at the network fee only; it is called on messages that have one. */
    predicate Equals(other: QuorumNetworkFee)
      requires networkFee != null && other.networkFee != null
      reads this, networkFee, other, other.networkFee
      ensures Equals(other) <==> FeeValue() == other.FeeValue()
    {
      networkFee.Equals(other.networkFee)
    }

    /** Drops the attestations that equal one of the given ones, and tells whether none is left. */
    method RemoveAttestations(atts: seq<Attestation>) returns (none: bool)
      modifies this`attestations
      ensures Values(attestations) == Remaining(old(Values(attestations)), Values(atts))
      ensures forall a :: a in attestations ==> a in old(attestations)
      ensures none <==> forall v :: v in old(Values(attestations)) ==> v in Values(atts)
    {
      hide Values;
      RemainingEmpty(Values(attestations), Values(atts));
      var newAtts := RemainingAttestations(attestations, atts);
      assert |Values(newAtts)| == |newAtts|;
      attestations := newAtts;
      return |newAtts| == 0;
    }

    method Size() returns (n: int64)
      requires |QuorumBytes(Value())| <= MAX_INT
      ensures n == |QuorumBytes(Value())|
    {
      hide NetworkFeeBytes, AttestationBytes, AttestationsBytes, MessageBytes, Sov;
      n := 0;
      ghost var vs := Values(attestations);
      EmptyAttestations();
      if networkFee != null {
        PayloadFits(1, NetworkFeeBytes(networkFee.Value()));
        var l := networkFee.Size();
        MessageSize(1, NetworkFeeBytes(networkFee.Value()));
        n := Int64(n + 1 + l + Sov(Uint64(l)));
      }
      var k := 0;
      assert vs[..0] == [];
      while k < |attestations|
        invariant 0 <= k <= |attestations|
        invariant n == |OptionalNetworkFeeBytes(FeeValue())| + |AttestationsBytes(vs[..k])|
      {
        AttestationsBytesAt(vs, k);
        PayloadFits(2, AttestationBytes(vs[k]));
        var l := attestations[k].Size();
        MessageSize(2, AttestationBytes(vs[k]));
        n := Int64(n + 1 + l + Sov(Uint64(l)));
        k := k + 1;
      }
      assert vs[..k] == vs;
    }

    /** The attestations, last one first, each below the one written before it. */
    method MarshalAttestations(dAtA: array<byte>, end: int) returns (i: int)
      requires |AttestationsBytes(Values(attestations))| <= end <= dAtA.Length <= MAX_INT
      modifies dAtA
      ensures i == end - |AttestationsBytes(Values(attestations))|
      ensures dAtA[..] == old(dAtA[..i]) + AttestationsBytes(Values(attestations)) + old(dAtA[end..])
    {
      hide AttestationBytes, AttestationsBytes, MessageBytes, Values;
      ghost var all := dAtA[..];
      ghost var vs, b := Values(attestations), all[end..];
      EmptyAttestations();
      var iNdEx := |attestations|;
      i := end;
      assert vs[iNdEx..] == [] && vs[..iNdEx] == vs;
      while iNdEx > 0
        invariant 0 <= iNdEx <= |attestations|
        invariant i == end - |AttestationsBytes(vs[iNdEx..])|
        invariant |AttestationsBytes(vs[..iNdEx])| <= i
        invariant dAtA[..] == all[..i] + AttestationsBytes(vs[iNdEx..]) + b
      {
        iNdEx := iNdEx - 1;
        AttestationsBytesAt(vs, iNdEx);
        ghost var d0, p := dAtA[..], AttestationBytes(vs[iNdEx]);
        PayloadFits(2, p);
        var size := attestations[iNdEx].MarshalToSizedBuffer(dAtA, i);
        ghost var d1, i0 := dAtA[..], i;
        PayloadPlaced(d0, d1, i, p);
        i := PutHeader(dAtA, i, i - size, 0x12, 2);
        assert d1[..i] == d0[..i];
        Prepend(all, i0, AttestationsBytes(vs[iNdEx + 1..]), b, d0, i, MessageBytes(2, p), dAtA[..]);
      }
      assert vs[0..] == vs;
    }

    method MarshalToSizedBuffer(dAtA: array<byte>, end: int) returns (n: int)
      requires |QuorumBytes(Value())| <= end <= dAtA.Length <= MAX_INT
      modifies dAtA
      ensures n == |QuorumBytes(Value())|
      ensures dAtA[..] == old(dAtA[..end - n]) + QuorumBytes(Value()) + old(dAtA[end..])
    {
      hide NetworkFeeBytes, AttestationsBytes, MessageBytes, Values;
      ghost var all := dAtA[..];
      ghost var atts, b := AttestationsBytes(Values(attestations)), all[end..];
      var i := MarshalAttestations(dAtA, end);
      if networkFee != null {
        ghost var d0, p := dAtA[..], NetworkFeeBytes(networkFee.Value());
        PayloadFits(1, p);
        var size := networkFee.MarshalToSizedBuffer(dAtA, i);
        ghost var d1, i0 := dAtA[..], i;
        PayloadPlaced(d0, d1, i, p);
        i := PutHeader(dAtA, i, i - size, 0xa, 1);
        assert d1[..i] == d0[..i];
        Prepend(all, i0, atts, b, d0, i, MessageBytes(1, p), dAtA[..]);
      }
      n := end - i;
    }

    method Marshal() returns (dAtA: array<byte>)
      requires |QuorumBytes(Value())| <= MAX_INT
      ensures fresh(dAtA) && dAtA[..] == QuorumBytes(Value())
    {
      hide QuorumBytes;
      var size := Size();
      dAtA := new byte[size];
      var n := MarshalToSizedBuffer(dAtA, size);
    }

    /** Field 1: into the network fee that is there, or into a new one. */
    method UnmarshalNetworkFee(payload: Slice) returns (error: Option<Error>)
      modifies this`networkFee, networkFee
      ensures QuorumApply(old(Value()), BytesField(1, payload))
           == match error case None => Done(Value()) case Some(e) => Failed(Value(), e)
      ensures networkFee != null
      ensures if old(networkFee) == null then fresh(networkFee) else networkFee == old(networkFee)
    {
      hide Decode;
      ghost var before := old(FeeValue());
      if networkFee == null {
        networkFee := new NetworkFee();
      }
      error := networkFee.Unmarshal(payload);
      assert Values(attestations) == old(Values(attestations));
    }

    /** Field 2: into a new attestation, appended before its bytes are looked at. */
    method UnmarshalAttestation(payload: Slice) returns (error: Option<Error>)
      modifies this`attestations
      ensures QuorumApply(old(Value()), BytesField(2, payload))
           == match error case None => Done(Value()) case Some(e) => Failed(Value(), e)
      ensures exists a :: fresh(a) && attestations == old(attestations) + [a]
    {
      hide Decode;
      var a := new Attestation();
      attestations := attestations + [a];
      error := a.Unmarshal(payload);
      assert Values(attestations) == old(Values(attestations)) + [a.Value()];
    }

    /** One round of the loop of Unmarshal. */
    method UnmarshalField(dAtA: seq<byte>, preIndex: int) returns (error: Option<Error>, iNdEx: int)
      requires 0 <= preIndex < |dAtA| <= MAX_INT
      modifies this, networkFee
      ensures error.None? ==> preIndex < iNdEx <= |dAtA|
      ensures Decode(QuorumSchema(), dAtA[preIndex..], preIndex, old(Value()))
           == match error
              case None => Decode(QuorumSchema(), dAtA[iNdEx..], iNdEx, Value())
              case Some(e) => Failed(Value(), e)
      ensures networkFee == old(networkFee) || (old(networkFee) == null && fresh(networkFee))
      ensures attestations == old(attestations) || exists a :: fresh(a) && attestations == old(attestations) + [a]
    {
      hide Decode, ReadTag, ReadBody, QuorumApply, Value, Values, FeeValue;
      iNdEx := preIndex;
      ghost var rest := dAtA[preIndex..];
      DecodeStep(QuorumSchema(), rest, preIndex, Value());
      var tag, after := ReadTagAt(dAtA, preIndex);
      if tag.NoTag? {
        return Some(tag.error), iNdEx;
      }
      error := None;
      var r;
      match tag.num {
        case 1 =>
          r, iNdEx := BytesFieldAt(dAtA, preIndex, tag);
          if r.Bad? {
            return Some(r.error), iNdEx;
          }
          error := UnmarshalNetworkFee(r.field.payload);
        case 2 =>
          r, iNdEx := BytesFieldAt(dAtA, preIndex, tag);
          if r.Bad? {
            return Some(r.error), iNdEx;
          }
          error := UnmarshalAttestation(r.field.payload);
        case _ =>
          r, iNdEx := UnknownFieldAt(dAtA, preIndex, tag);
          if r.Bad? {
            return Some(r.error), iNdEx;
          }
      }
      assert rest[r.size..] == dAtA[iNdEx..];
    }

    method Unmarshal(dAtA: seq<byte>) returns (error: Option<Error>)
      requires |dAtA| <= MAX_INT
      modifies this, networkFee
      ensures Decode(QuorumSchema(), dAtA, 0, old(Value()))
           == match error case None => Done(Value()) case Some(e) => Failed(Value(), e)
      ensures networkFee == old(networkFee) || (old(networkFee) == null && fresh(networkFee))
      ensures old(attestations) <= attestations
      ensures forall k :: |old(attestations)| <= k < |attestations| ==> fresh(attestations[k])
    {
      hide Decode, Value, Values, FeeValue;
      var l, iNdEx := |dAtA|, 0;
      assert dAtA[0..] == dAtA;
      while iNdEx < l
        invariant 0 <= iNdEx <= l
        invariant Decode(QuorumSchema(), dAtA, 0, old(Value()))
               == Decode(QuorumSchema(), dAtA[iNdEx..], iNdEx, Value())
        invariant networkFee == old(networkFee) || (old(networkFee) == null && fresh(networkFee))
        invariant old(attestations) <= attestations
        invariant forall k :: |old(attestations)| <= k < |attestations| ==> fresh(attestations[k])
        decreases l - iNdEx
      {
        error, iNdEx := UnmarshalField(dAtA, iNdEx);
        if error.Some? {
          return error;
        }
      }
      assert dAtA[l..] == [];
      DecodeNothing(QuorumSchema(), l, Value());
      return None;
    }
  }

  lemma EmptyAttestations()
    ensures AttestationsBytes([]) == []
  {
  }

  /** A nested message has put its bytes p right below index i. */
  lemma PayloadPlaced(d0: seq<byte>, d1: seq<byte>, i: nat, p: seq<byte>)
    requires |p| <= i <= |d0| && d1 == d0[..i - |p|] + p + d0[i..]
    ensures |d1| == |d0| && d1[i - |p|..i] == p && d1[i..] == d0[i..]
    ensures forall j :: 0 <= j <= i - |p| ==> d1[..j] == d0[..j]
  {
  }

  // ----- there and back -----

  /** Marshal, and unmarshalling into a new object: no error, and the same value. */
  method NetworkFeeThereAndBack(m: NetworkFee) returns (copy: NetworkFee, error: Option<Error>)
    requires |NetworkFeeBytes(m.Value())| <= MAX_INT
    ensures error == None && fresh(copy) && copy.Value() == m.Value() == old(m.Value())
  {
    hide Decode, NetworkFeeBytes;
    NetworkFeeRoundTrip(m.Value());
    var dAtA := m.Marshal();
    copy := new NetworkFee();
    error := copy.Unmarshal(dAtA[..]);
  }

  method AttestationThereAndBack(m: Attestation) returns (copy: Attestation, error: Option<Error>)
    requires |AttestationBytes(m.Value())| <= MAX_INT
    ensures error == None && fresh(copy) && copy.Value() == m.Value() == old(m.Value())
  {
    hide Decode, AttestationBytes;
    AttestationRoundTrip(m.Value());
    var dAtA := m.Marshal();
    copy := new Attestation();
    error := copy.Unmarshal(dAtA[..]);
  }

  method ErrataTxThereAndBack(m: ErrataTx) returns (copy: ErrataTx, error: Option<Error>)
    requires |ErrataTxBytes(m.Value())| <= MAX_INT
    ensures error == None && fresh(copy) && copy.Value() == m.Value() == old(m.Value())
  {
    hide Decode, ErrataTxBytes;
    ErrataTxRoundTrip(m.Value());
    var dAtA := m.Marshal();
    copy := new ErrataTx();
    error := copy.Unmarshal(dAtA[..]);
  }

  method AssetThereAndBack(m: Asset) returns (copy: Asset, error: Option<Error>)
    requires |AssetBytes(m.Value())| <= MAX_INT
    ensures error == None && fresh(copy) && copy.Value() == m.Value() == old(m.Value())
  {
    hide Decode, AssetBytes;
    AssetRoundTrip(m.Value());
    var dAtA := m.Marshal();
    copy := new Asset();
    error := copy.Unmarshal(dAtA[..]);
  }

  method QuorumThereAndBack(m: QuorumNetworkFee) returns (copy: QuorumNetworkFee, error: Option<Error>)
    requires |QuorumBytes(m.Value())| <= MAX_INT
    ensures error == None && fresh(copy) && copy.Value() == m.Value() == old(m.Value())
    ensures copy.networkFee == null || fresh(copy.networkFee)
  {
    hide Decode, QuorumBytes;
    QuorumRoundTrip(m.Value());
    var dAtA := m.Marshal();
    copy := new QuorumNetworkFee();
    error := copy.Unmarshal(dAtA[..]);
  }

  /** Unmarshalling what was marshalled for one message and then what was marshalled for another gives their merge, and
      leaves both as they were. */
  method QuorumOntoAnother(a: QuorumNetworkFee, b: QuorumNetworkFee)
    returns (merged: QuorumNetworkFee, error: Option<Error>)
    requires |QuorumBytes(a.Value())| <= MAX_INT && |QuorumBytes(b.Value())| <= MAX_INT
    ensures error == None && fresh(merged) && merged.Value() == MergeQuorum(a.Value(), b.Value())
    ensures a.Value() == old(a.Value()) && b.Value() == old(b.Value())
  {
    hide Decode, QuorumBytes, MergeQuorum;
    QuorumMerges(a.Value(), b.Value(), 0);
    var dAtA := b.Marshal();
    merged, error := QuorumThereAndBack(a);
    error := merged.Unmarshal(dAtA[..]);
  }
}
