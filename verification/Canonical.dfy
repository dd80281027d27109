/** What is written, looked at as elements: shortest varints, known fields only, in the order of their numbers. */
module Canonical {
  import opened Machine
  import opened Results
  import opened Varints
  import opened Skipper
  import opened Wire

  // ----- shortest varints -----

  /** A varint of a 64-bit word without a superfluous last group. */
  predicate IsShortest(raw: seq<byte>) {
    IsVarint(raw) && Base128(raw) < TWO_64 && (|raw| > 1 ==> raw[|raw| - 1] != 0)
  }

  lemma EncodeStep(b: byte, n: nat)
    requires b >= 0x80 && n > 0
    ensures Encode(b % 0x80 + 0x80 * n) == [b] + Encode(n)
  {
    var v := b % 0x80 + 0x80 * n;
    assert v / 0x80 == n && v % 0x80 == b % 0x80;
  }

  lemma {:induction false} ShortestIsEncoded(raw: seq<byte>)
    requires Delimits(raw, |raw|) && (|raw| > 1 ==> raw[|raw| - 1] != 0)
    ensures raw == Encode(Base128(raw))
    ensures raw[|raw| - 1] != 0 ==> Base128(raw) > 0
  {
    hide Encode;
    if |raw| == 1 {
      OneGroup(raw);
    } else {
      var rest := raw[1..];
      assert Delimits(rest, |rest|) by {
        assert forall j :: 0 <= j < |rest| - 1 ==> rest[j] == raw[j + 1];
      }
      ShortestIsEncoded(rest);
      EncodeStep(raw[0], Base128(rest));
      assert raw == [raw[0]] + rest;
    }
  }

  lemma OneGroup(raw: seq<byte>)
    requires |raw| == 1 && raw[0] < 0x80
    ensures Base128(raw) == raw[0] && Encode(raw[0]) == raw
  {
    assert raw[1..] == [];
  }

  lemma {:induction false} EncodeHasNoSpare(v: nat)
    ensures |Encode(v)| > 1 ==> Encode(v)[|Encode(v)| - 1] != 0
    ensures v > 0 ==> Encode(v)[|Encode(v)| - 1] != 0
  {
    if v >= 0x80 {
      EncodeHasNoSpare(v / 0x80);
    }
  }

  lemma EncodeIsShortest(v: uint64)
    ensures IsShortest(Encode(v)) && Base128(Encode(v)) == v
  {
    hide Base128, Encode;
    EncodeMeaning(v);
    EncodeHasNoSpare(v);
    VarintRoundTrip(v, []);
  }

  // ----- elements in order -----

  /** An element whose tag, length and value are as short as can be, and whose number has no more than 31 bits. */
  predicate IsShort(e: Element) {
    match e
    case VarintElement(tag, raw) => IsShortest(tag) && IsShortest(raw) && TagNumber(tag) < TWO_31
    case Delimited(tag, length, _) => IsShortest(tag) && IsShortest(length) && TagNumber(tag) < TWO_31
    case _ => false
  }

  /** Short elements that the message takes and knows, with numbers from `lo` to `hi`, each one at least `step` above
      the one before: 1 for increasing numbers, 0 when a number may be repeated. */
  predicate InOrder(kind: int -> Kind, es: seq<Element>, step: nat, lo: int, hi: int)
    decreases |es|
  {
    |es| == 0
    || (&& Takes(kind, es[0]) && kind(FieldNumber(es[0])) != UnknownKind && IsShort(es[0])
        && lo <= FieldNumber(es[0]) <= hi
        && InOrder(kind, es[1..], step, FieldNumber(es[0]) + step, hi))
  }

  /** In such a list, numbers increase from any element to any later one. */
  lemma {:induction false} InOrderAt(kind: int -> Kind, es: seq<Element>, step: nat, lo: int, hi: int, i: nat, j: nat)
    requires InOrder(kind, es, step, lo, hi) && i < j < |es|
    ensures FieldNumber(es[i]) + step <= FieldNumber(es[j])
    decreases |es|
  {
    hide Takes, IsShort, FieldNumber;
    if i > 0 {
      InOrderAt(kind, es[1..], step, FieldNumber(es[0]) + step, hi, i - 1, j - 1);
    } else {
      AtLeast(kind, es[1..], step, FieldNumber(es[0]) + step, hi, j - 1);
    }
  }

  lemma {:induction false} AtLeast(kind: int -> Kind, es: seq<Element>, step: nat, lo: int, hi: int, j: nat)
    requires InOrder(kind, es, step, lo, hi) && j < |es|
    ensures lo <= FieldNumber(es[j]) <= hi && Takes(kind, es[j]) && IsShort(es[j])
    ensures kind(FieldNumber(es[j])) != UnknownKind
    decreases |es|
  {
    hide Takes, IsShort, FieldNumber;
    if j > 0 {
      AtLeast(kind, es[1..], step, FieldNumber(es[0]) + step, hi, j - 1);
    }
  }

  lemma {:induction false} InOrderWider(
    kind: int -> Kind, es: seq<Element>, step: nat, lo: int, hi: int, lo': int, hi': int)
    requires InOrder(kind, es, step, lo, hi) && lo' <= lo && hi <= hi'
    ensures InOrder(kind, es, step, lo', hi')
    decreases |es|
  {
    hide Takes, IsShort, FieldNumber;
    if |es| > 0 {
      var n := FieldNumber(es[0]) + step;
      InOrderWider(kind, es[1..], step, n, hi, n, hi');
    }
  }

  lemma {:induction false} InOrderConcat(
    kind: int -> Kind, es: seq<Element>, fs: seq<Element>, step: nat, lo: int, mid: int, hi: int)
    requires InOrder(kind, es, step, lo, mid) && InOrder(kind, fs, step, mid + step, hi)
    requires lo <= mid + step && mid <= hi
    ensures InOrder(kind, es + fs, step, lo, hi)
    decreases |es|
  {
    hide Takes, IsShort, FieldNumber;
    if |es| == 0 {
      assert es + fs == fs;
      InOrderWider(kind, fs, step, mid + step, hi, lo, hi);
    } else {
      assert (es + fs)[1..] == es[1..] + fs;
      InOrderConcat(kind, es[1..], fs, step, FieldNumber(es[0]) + step, mid, hi);
    }
  }

  lemma {:induction false} AllBytesConcat(es: seq<Element>, fs: seq<Element>)
    ensures AllBytes(es + fs) == AllBytes(es) + AllBytes(fs)
  {
    hide Bytes;
    if |es| == 0 {
      assert es + fs == fs;
    } else {
      assert (es + fs)[1..] == es[1..] + fs;
      AllBytesConcat(es[1..], fs);
    }
  }

  lemma {:induction false} InOrderTaken(kind: int -> Kind, es: seq<Element>, step: nat, lo: int, hi: int)
    requires InOrder(kind, es, step, lo, hi)
    ensures TakesAll(kind, es)
    decreases |es|
  {
    hide Takes, IsShort, FieldNumber;
    if |es| > 0 {
      InOrderTaken(kind, es[1..], step, FieldNumber(es[0]) + step, hi);
    }
  }

  // ----- the elements that are written -----

  function VarintElements(num: nat, v: uint64): seq<Element> {
    if v == 0 then [] else [VarintElement(TagBytes(num, 0), Encode(v))]
  }

  function MessageElement(num: nat, payload: Slice): Element {
    Delimited(TagBytes(num, 2), Encode(|payload|), payload)
  }

  function StringElements(num: nat, payload: Slice): seq<Element> {
    if |payload| == 0 then [] else [MessageElement(num, payload)]
  }

  function RepeatedElements(num: nat, payloads: seq<Slice>): seq<Element> {
    if |payloads| == 0 then [] else [MessageElement(num, payloads[0])] + RepeatedElements(num, payloads[1..])
  }

  lemma TagOf(num: int32, wireType: nat)
    requires num > 0 && wireType < 8
    ensures IsTag(TagBytes(num, wireType), wireType) && IsShortest(TagBytes(num, wireType))
    ensures TagNumber(TagBytes(num, wireType)) == num == Int32(TagNumber(TagBytes(num, wireType)))
  {
    hide Base128, Encode;
    EncodeIsShortest(8 * num + wireType);
    assert (8 * num + wireType) / 8 == num;
  }

  lemma OneElement(e: Element)
    ensures AllBytes([e]) == Bytes(e)
  {
    hide Bytes;
    assert [e][1..] == [];
    assert Bytes(e) + [] == Bytes(e);
  }

  lemma MessageElementIs(kind: int -> Kind, num: int32, payload: Slice)
    requires num > 0 && kind(num) == BytesKind
    ensures Bytes(MessageElement(num, payload)) == MessageBytes(num, payload)
    ensures var e := MessageElement(num, payload); Takes(kind, e) && IsShort(e) && FieldNumber(e) == num
  {
    hide Base128, Encode, TagBytes, Int32, IsShortest;
    TagOf(num, 2);
    EncodeIsShortest(|payload|);
    VarintRoundTrip(|payload|, []);
  }

  // ----- reading lists of elements -----

  lemma ElementNotEmpty(e: Element)
    requires WellFormed(e)
    ensures |Bytes(e)| > 0
  {
    hide Base128, AllBytes, AllWellFormed;
  }

  /** Bytes are those of one list of elements at most. */
  lemma {:induction false} ListUnique(kind: int -> Kind, es: seq<Element>, fs: seq<Element>)
    requires TakesAll(kind, es) && TakesAll(kind, fs) && AllBytes(es) == AllBytes(fs)
    ensures es == fs
    decreases |es|
  {
    hide WellFormed, Bytes, FieldNumber;
    if |es| > 0 {
      ElementNotEmpty(es[0]);
    }
    if |fs| > 0 {
      ElementNotEmpty(fs[0]);
    }
    if |es| > 0 && |fs| > 0 {
      ElementUnique(es[0], AllBytes(es[1..]), fs[0], AllBytes(fs[1..]));
      ListUnique(kind, es[1..], fs[1..]);
      assert es == [es[0]] + es[1..] && fs == [fs[0]] + fs[1..];
    }
  }

  /** What a list of elements decodes to, its fields give. */
  lemma ListMeans<M>(sc: Schema<M>, es: seq<Element>, m: M, r: M)
    requires TakesAll(sc.kind, es) && |AllBytes(es)| <= MAX_INT
    requires Decode(sc, AllBytes(es), 0, m) == Done(r)
    ensures ApplyAll(sc, es, m) == Done(r)
  {
    hide Decode, TakesAll, AllBytes, ApplyAll;
    var fs := DecodedElements(sc, AllBytes(es), 0, m);
    ListUnique(sc.kind, es, fs);
  }

  /** The canonical form of a message: elements in the order of their numbers that mean the message. */
  ghost predicate IsForm<M(!new)>(sc: Schema<M>, step: nat, empty: M, m: M, s: seq<byte>) {
    exists es, hi :: InOrder(sc.kind, es, step, 1, hi) && AllBytes(es) == s
                     && TakesAll(sc.kind, es) && ApplyAll(sc, es, empty) == Done(m)
  }

  // ----- there is one canonical form -----

  predicate AllSet(kind: int -> Kind, isSet: Field -> bool, es: seq<Element>)
    requires TakesAll(kind, es)
  {
    |es| == 0 || (isSet(FieldOf(kind, es[0])) && AllSet(kind, isSet, es[1..]))
  }

  lemma {:induction false} AllSetConcat(
    kind: int -> Kind, isSet: Field -> bool, es: seq<Element>, fs: seq<Element>)
    requires TakesAll(kind, es) && TakesAll(kind, fs) && AllSet(kind, isSet, es) && AllSet(kind, isSet, fs)
    ensures TakesAll(kind, es + fs) && AllSet(kind, isSet, es + fs)
  {
    hide Takes, FieldOf;
    if |es| == 0 {
      assert es + fs == fs;
    } else {
      assert (es + fs)[1..] == es[1..] + fs;
      AllSetConcat(kind, isSet, es[1..], fs);
    }
  }

  /** Numbers increasing, everything short, and every field set to something else than its default. */
  ghost predicate IsCanonical<M(!new)>(sc: Schema<M>, isSet: Field -> bool, empty: M, m: M, s: seq<byte>) {
    exists es, hi :: InOrder(sc.kind, es, 1, 1, hi) && AllBytes(es) == s && TakesAll(sc.kind, es)
                     && AllSet(sc.kind, isSet, es) && ApplyAll(sc, es, empty) == Done(m)
  }

  /** The fields that are set can be read off the message, each under its number. */
  ghost predicate Tracks<M(!new)>(sc: Schema<M>, isSet: Field -> bool, content: (M, int) -> Option<Field>) {
    forall m: M, f: Field ::
      !f.SkippedField? && isSet(f) && sc.kind(f.num) == (if f.VarintField? then VarintKind else BytesKind)
      ==> sc.apply(m, f).Done?
          && forall n :: content(sc.apply(m, f).msg, n) == if n == f.num then Some(f) else content(m, n)
  }

  lemma KnownField(kind: int -> Kind, e: Element)
    requires Takes(kind, e) && kind(FieldNumber(e)) != UnknownKind
    ensures var f := FieldOf(kind, e);
            !f.SkippedField? && f.num == FieldNumber(e)
            && kind(f.num) == (if f.VarintField? then VarintKind else BytesKind)
  {
    hide FieldNumber, WellFormed;
  }

  /** After applying a list in order, the message holds the fields of the list, and otherwise what it held before. */
  lemma {:induction false} ContentAfter<M(!new)>(
    sc: Schema<M>, isSet: Field -> bool, content: (M, int) -> Option<Field>, es: seq<Element>, lo: int, hi: int, m: M)
    requires Tracks(sc, isSet, content) && InOrder(sc.kind, es, 1, lo, hi)
    requires TakesAll(sc.kind, es) && AllSet(sc.kind, isSet, es)
    ensures ApplyAll(sc, es, m).Done?
    ensures forall i :: 0 <= i < |es| ==> Takes(sc.kind, es[i])
    ensures forall i :: 0 <= i < |es|
                 ==> content(ApplyAll(sc, es, m).msg, FieldNumber(es[i])) == Some(FieldOf(sc.kind, es[i]))
    ensures forall n :: (forall i :: 0 <= i < |es| ==> FieldNumber(es[i]) != n)
                 ==> content(ApplyAll(sc, es, m).msg, n) == content(m, n)
    decreases |es|
  {
    hide Takes, FieldOf, FieldNumber, IsShort, Tracks;
    if |es| > 0 {
      var f := FieldOf(sc.kind, es[0]);
      KnownField(sc.kind, es[0]);
      TracksOne(sc, isSet, content, m, f);
      var m1 := sc.apply(m, f).msg;
      ContentAfter(sc, isSet, content, es[1..], FieldNumber(es[0]) + 1, hi, m1);
      var r := ApplyAll(sc, es, m).msg;
      forall i | 0 <= i < |es[1..]| ensures FieldNumber(es[1..][i]) != FieldNumber(es[0]) {
        AtLeast(sc.kind, es[1..], 1, FieldNumber(es[0]) + 1, hi, i);
      }
      assert forall i :: 1 <= i < |es| ==> es[i] == es[1..][i - 1];
      assert forall i :: 0 <= i < |es[1..]| ==> es[1..][i] == es[i + 1];
    }
  }

  lemma TracksOne<M(!new)>(
    sc: Schema<M>, isSet: Field -> bool, content: (M, int) -> Option<Field>, m: M, f: Field)
    requires Tracks(sc, isSet, content) && !f.SkippedField? && isSet(f)
    requires sc.kind(f.num) == (if f.VarintField? then VarintKind else BytesKind)
    ensures sc.apply(m, f).Done?
    ensures forall n :: content(sc.apply(m, f).msg, n) == if n == f.num then Some(f) else content(m, n)
  {
  }

  /** A short element is determined by the field it stands for. */
  lemma ElementOfField(kind: int -> Kind, e: Element, f: Element)
    requires Takes(kind, e) && Takes(kind, f) && IsShort(e) && IsShort(f)
    requires kind(FieldNumber(e)) != UnknownKind && FieldOf(kind, e) == FieldOf(kind, f)
    requires FieldNumber(e) == FieldNumber(f)
    ensures e == f
  {
    hide Base128, Encode, FieldOf;
    KnownField(kind, e);
    ShortTag(kind, e);
    ShortTag(kind, f);
    SameTag(e, f);
    SameValue(kind, e, f);
  }

  lemma ShortTag(kind: int -> Kind, e: Element)
    requires Takes(kind, e) && IsShort(e) && kind(FieldNumber(e)) != UnknownKind
    ensures Base128(e.tag) == 8 * FieldNumber(e) + WireType(e) && e.tag == Encode(Base128(e.tag))
    ensures e.VarintElement? <==> kind(FieldNumber(e)) == VarintKind
    ensures e.Delimited? <==> kind(FieldNumber(e)) == BytesKind
  {
    hide Base128, Encode;
    ShortestIsEncoded(e.tag);
  }

  lemma SameTag(e: Element, f: Element)
    requires Base128(e.tag) == 8 * FieldNumber(e) + WireType(e) && e.tag == Encode(Base128(e.tag))
    requires Base128(f.tag) == 8 * FieldNumber(f) + WireType(f) && f.tag == Encode(Base128(f.tag))
    requires FieldNumber(e) == FieldNumber(f) && WireType(e) == WireType(f)
    ensures e.tag == f.tag
  {
  }

  lemma SameValue(kind: int -> Kind, e: Element, f: Element)
    requires Takes(kind, e) && Takes(kind, f) && IsShort(e) && IsShort(f) && e.tag == f.tag
    requires FieldOf(kind, e) == FieldOf(kind, f) && kind(FieldNumber(e)) != UnknownKind
    ensures e == f
  {
    hide Base128, Encode, FieldNumber;
    if e.VarintElement? {
      ShortestIsEncoded(e.raw);
      ShortestIsEncoded(f.raw);
    } else {
      ShortestIsEncoded(e.length);
      ShortestIsEncoded(f.length);
    }
  }

  /** Two lists in order with the same elements are the same. */
  lemma {:induction false} SameElementsSame(
    kind: int -> Kind, es: seq<Element>, fs: seq<Element>, lo: int, lo': int, hi: int)
    requires InOrder(kind, es, 1, lo, hi) && InOrder(kind, fs, 1, lo', hi)
    requires (forall e :: e in es ==> e in fs) && (forall e :: e in fs ==> e in es)
    ensures es == fs
    decreases |es|
  {
    hide InOrder;
    if |es| > 0 {
      assert es[0] in fs && |fs| > 0 && fs[0] in es;
      HeadsMeet(kind, es, fs, lo, lo', hi);
      var n := TailInOrder(kind, es, lo, hi);
      var n' := TailInOrder(kind, fs, lo', hi);
      HeadNotInTail(kind, es, lo, hi);
      HeadNotInTail(kind, fs, lo', hi);
      TailsMeet(es, fs);
      SameElementsSame(kind, es[1..], fs[1..], n, n', hi);
      assert es == [es[0]] + es[1..] && fs == [fs[0]] + fs[1..];
    } else {
      HeadIsMember(fs);
    }
  }

  lemma HeadIsMember(fs: seq<Element>)
    ensures |fs| > 0 ==> fs[0] in fs
  {
  }

  lemma HeadsMeet(kind: int -> Kind, es: seq<Element>, fs: seq<Element>, lo: int, lo': int, hi: int)
    requires InOrder(kind, es, 1, lo, hi) && InOrder(kind, fs, 1, lo', hi)
    requires |es| > 0 && |fs| > 0 && es[0] in fs && fs[0] in es
    ensures es[0] == fs[0]
  {
    hide InOrder, FieldNumber;
    var j :| 0 <= j < |fs| && fs[j] == es[0];
    var i :| 0 <= i < |es| && es[i] == fs[0];
    if i > 0 {
      InOrderAt(kind, es, 1, lo, hi, 0, i);
    }
    if j > 0 {
      InOrderAt(kind, fs, 1, lo', hi, 0, j);
    }
  }

  lemma TailInOrder(kind: int -> Kind, es: seq<Element>, lo: int, hi: int) returns (n: int)
    requires InOrder(kind, es, 1, lo, hi) && |es| > 0
    ensures InOrder(kind, es[1..], 1, n, hi)
  {
    hide Takes, FieldNumber, IsShort;
    n := FieldNumber(es[0]) + 1;
  }

  lemma HeadNotInTail(kind: int -> Kind, es: seq<Element>, lo: int, hi: int)
    requires InOrder(kind, es, 1, lo, hi) && |es| > 0
    ensures es[0] !in es[1..]
  {
    hide InOrder, FieldNumber;
    forall j | 0 <= j < |es[1..]| ensures es[1..][j] != es[0] {
      InOrderAt(kind, es, 1, lo, hi, 0, j + 1);
    }
  }

  lemma TailsMeet(es: seq<Element>, fs: seq<Element>)
    requires |es| > 0 && |fs| > 0 && es[0] == fs[0] && es[0] !in es[1..] && fs[0] !in fs[1..]
    requires (forall e :: e in es ==> e in fs) && (forall e :: e in fs ==> e in es)
    ensures (forall e :: e in es[1..] ==> e in fs[1..]) && (forall e :: e in fs[1..] ==> e in es[1..])
  {
    forall e | e in es[1..] ensures e in fs[1..] {
      assert e in es;
      assert e in fs && e != fs[0];
    }
    forall e | e in fs[1..] ensures e in es[1..] {
      assert e in fs;
      assert e in es && e != es[0];
    }
  }

  /** An element of one list is in the other, when that has a field under its number and the fields agree. */
  lemma Found(
    kind: int -> Kind, es: seq<Element>, lo: int, fs: seq<Element>, lo': int, hi: int, content: int -> Option<Field>)
    requires InOrder(kind, es, 1, lo, hi) && InOrder(kind, fs, 1, lo', hi)
    requires TakesAll(kind, es) && TakesAll(kind, fs)
    requires Shows(kind, es, content) && Shows(kind, fs, content)
    ensures forall e :: e in es ==> e in fs
  {
    hide Takes, FieldOf, FieldNumber, IsShort, InOrder, TakesAll;
    forall i | 0 <= i < |es| ensures es[i] in fs {
      var n := FieldNumber(es[i]);
      assert content(n) != None;
      var j :| 0 <= j < |fs| && FieldNumber(fs[j]) == n;
      AtLeast(kind, es, 1, lo, hi, i);
      AtLeast(kind, fs, 1, lo', hi, j);
      ElementOfField(kind, es[i], fs[j]);
    }
  }

  /** The fields of the list are what `content` says, under each number. */
  ghost predicate Shows(kind: int -> Kind, es: seq<Element>, content: int -> Option<Field>) {
    && (forall i :: 0 <= i < |es| ==> Takes(kind, es[i]))
    && (forall i :: 0 <= i < |es| ==> content(FieldNumber(es[i])) == Some(FieldOf(kind, es[i])))
    && (forall n :: content(n) != None ==> exists i :: 0 <= i < |es| && FieldNumber(es[i]) == n)
  }

  lemma ListShows<M(!new)>(
    sc: Schema<M>, isSet: Field -> bool, content: (M, int) -> Option<Field>, es: seq<Element>, hi: int, empty: M, m: M)
    requires Tracks(sc, isSet, content) && forall n :: content(empty, n) == None
    requires InOrder(sc.kind, es, 1, 1, hi) && TakesAll(sc.kind, es) && AllSet(sc.kind, isSet, es)
    requires ApplyAll(sc, es, empty) == Done(m)
    ensures Shows(sc.kind, es, n => content(m, n))
  {
    hide Tracks, InOrder, TakesAll, AllSet, ApplyAll, Takes, FieldOf, FieldNumber;
    ContentAfter(sc, isSet, content, es, 1, hi, empty);
  }

  /** A message has one canonical form. */
  lemma CanonicalUnique<M(!new)>(
    sc: Schema<M>, isSet: Field -> bool, content: (M, int) -> Option<Field>, empty: M, m: M,
    s: seq<byte>, t: seq<byte>)
    requires Tracks(sc, isSet, content) && forall n :: content(empty, n) == None
    requires IsCanonical(sc, isSet, empty, m, s) && IsCanonical(sc, isSet, empty, m, t)
    ensures s == t
  {
    hide Tracks, InOrder, TakesAll, AllSet, ApplyAll, AllBytes, Shows;
    var es, hi :| InOrder(sc.kind, es, 1, 1, hi) && AllBytes(es) == s && TakesAll(sc.kind, es)
                  && AllSet(sc.kind, isSet, es) && ApplyAll(sc, es, empty) == Done(m);
    var fs, hi' :| InOrder(sc.kind, fs, 1, 1, hi') && AllBytes(fs) == t && TakesAll(sc.kind, fs)
                   && AllSet(sc.kind, isSet, fs) && ApplyAll(sc, fs, empty) == Done(m);
    ListShows(sc, isSet, content, es, hi, empty, m);
    ListShows(sc, isSet, content, fs, hi', empty, m);
    var top := if hi < hi' then hi' else hi;
    InOrderWider(sc.kind, es, 1, 1, hi, 1, top);
    InOrderWider(sc.kind, fs, 1, 1, hi', 1, top);
    var shown := n => content(m, n);
    Found(sc.kind, es, 1, fs, 1, top, shown);
    Found(sc.kind, fs, 1, es, 1, top, shown);
    SameElementsSame(sc.kind, es, fs, 1, 1, top);
  }

  // ----- building canonical lists -----

  /** A list of elements in order, all set, with its bytes. */
  predicate IsList(
    kind: int -> Kind, isSet: Field -> bool, es: seq<Element>, step: nat, lo: int, hi: int, s: seq<byte>) {
    InOrder(kind, es, step, lo, hi) && TakesAll(kind, es) && AllSet(kind, isSet, es) && AllBytes(es) == s
  }

  lemma ListConcat(
    kind: int -> Kind, isSet: Field -> bool, es: seq<Element>, fs: seq<Element>, step: nat, lo: int, mid: int,
    hi: int, s: seq<byte>, t: seq<byte>)
    requires IsList(kind, isSet, es, step, lo, mid, s) && IsList(kind, isSet, fs, step, mid + 1, hi, t)
    requires step <= 1 && lo <= mid <= hi
    ensures IsList(kind, isSet, es + fs, step, lo, hi, s + t)
  {
    hide InOrder, TakesAll, AllSet, AllBytes;
    InOrderWider(kind, fs, step, mid + 1, hi, mid + step, hi);
    InOrderConcat(kind, es, fs, step, lo, mid, hi);
    AllSetConcat(kind, isSet, es, fs);
    AllBytesConcat(es, fs);
  }

  lemma NoList(kind: int -> Kind, isSet: Field -> bool, step: nat, num: int)
    ensures IsList(kind, isSet, [], step, num, num, [])
  {
  }

  lemma OneList(kind: int -> Kind, isSet: Field -> bool, e: Element, step: nat, num: int)
    requires Takes(kind, e) && kind(FieldNumber(e)) != UnknownKind && IsShort(e) && FieldNumber(e) == num
    requires isSet(FieldOf(kind, e))
    ensures IsList(kind, isSet, [e], step, num, num, Bytes(e))
  {
    hide Takes, FieldOf, FieldNumber, IsShort, Bytes;
    OneElement(e);
    var es := [e];
    assert es[1..] == [];
    assert InOrder(kind, es[1..], step, num + step, num);
    assert TakesAll(kind, es[1..]) && AllSet(kind, isSet, es[1..]);
  }

  lemma VarintList(kind: int -> Kind, isSet: Field -> bool, step: nat, num: int32, v: uint64)
    requires num > 0 && kind(num) == VarintKind && (v != 0 ==> isSet(VarintField(num, v)))
    ensures IsList(kind, isSet, VarintElements(num, v), step, num, num, VarintBytes(num, v))
  {
    hide IsList, Bytes, FieldOf, Takes, IsShort, FieldNumber, TagBytes, Encode;
    NoList(kind, isSet, step, num);
    if v != 0 {
      VarintElementIs(kind, num, v);
      OneList(kind, isSet, VarintElements(num, v)[0], step, num);
    }
  }

  lemma VarintElementIs(kind: int -> Kind, num: int32, v: uint64)
    requires num > 0 && kind(num) == VarintKind && v != 0
    ensures var e := VarintElements(num, v)[0];
            && Takes(kind, e) && IsShort(e) && FieldNumber(e) == num && FieldOf(kind, e) == VarintField(num, v)
            && Bytes(e) == VarintBytes(num, v)
  {
    hide Base128, Encode, TagBytes, Int32, IsShortest;
    TagOf(num, 0);
    EncodeIsShortest(v);
    VarintRoundTrip(v, []);
  }

  lemma StringList(kind: int -> Kind, isSet: Field -> bool, step: nat, num: int32, payload: Slice)
    requires num > 0 && kind(num) == BytesKind && (|payload| > 0 ==> isSet(BytesField(num, payload)))
    ensures IsList(kind, isSet, StringElements(num, payload), step, num, num, StringBytes(num, payload))
  {
    hide IsList, MessageBytes, MessageElement;
    NoList(kind, isSet, step, num);
    if |payload| > 0 {
      MessageList(kind, isSet, step, num, payload);
    }
  }

  lemma MessageList(kind: int -> Kind, isSet: Field -> bool, step: nat, num: int32, payload: Slice)
    requires num > 0 && kind(num) == BytesKind && isSet(BytesField(num, payload))
    ensures IsList(kind, isSet, [MessageElement(num, payload)], step, num, num, MessageBytes(num, payload))
  {
    hide IsList, MessageBytes, WellFormed, FieldNumber, IsShort, Bytes;
    MessageElementIs(kind, num, payload);
    OneList(kind, isSet, MessageElement(num, payload), step, num);
  }

  lemma {:induction false} RepeatedList(kind: int -> Kind, isSet: Field -> bool, num: int32, payloads: seq<Slice>)
    requires num > 0 && kind(num) == BytesKind && forall p: Slice :: isSet(BytesField(num, p))
    ensures IsList(kind, isSet, RepeatedElements(num, payloads), 0, num, num, RepeatedBytes(num, payloads))
  {
    hide MessageBytes, WellFormed, FieldNumber, IsShort, Bytes;
    if |payloads| > 0 {
      MessageElementIs(kind, num, payloads[0]);
      RepeatedList(kind, isSet, num, payloads[1..]);
      var es := RepeatedElements(num, payloads);
      assert es[1..] == RepeatedElements(num, payloads[1..]);
    }
  }

  /** Such a list, if it decodes to the message, is its canonical form. */
  lemma ListIsCanonical<M(!new)>(
    sc: Schema<M>, isSet: Field -> bool, es: seq<Element>, hi: int, empty: M, m: M, s: seq<byte>)
    requires IsList(sc.kind, isSet, es, 1, 1, hi, s) && |s| <= MAX_INT && Decode(sc, s, 0, empty) == Done(m)
    ensures IsCanonical(sc, isSet, empty, m, s)
  {
    hide Decode, InOrder, AllBytes, ApplyAll, TakesAll, AllSet;
    ListMeans(sc, es, empty, m);
  }

  lemma ListIsForm<M(!new)>(
    sc: Schema<M>, isSet: Field -> bool, es: seq<Element>, hi: int, empty: M, m: M, s: seq<byte>)
    requires IsList(sc.kind, isSet, es, 0, 1, hi, s) && |s| <= MAX_INT && Decode(sc, s, 0, empty) == Done(m)
    ensures IsForm(sc, 0, empty, m, s)
  {
    hide Decode, InOrder, AllBytes, ApplyAll, TakesAll, AllSet;
    ListMeans(sc, es, empty, m);
  }
}
