/** Skipping one field whose number the message does not know, groups of any depth included. */
module Skipper {
  import opened Machine
  import opened Varints

  // ----- the skipper -----

  datatype TokenKind = Scalar | Open | Close

  /** One round of the skipper: a scalar field, or the tag that opens or closes a group. The size of a scalar is
      taken from its tag and length and may reach beyond the input. */
  datatype TokenRead =
    | Token(kind: TokenKind, size: nat)
    | Broken(error: Error)

  function ReadToken(s: seq<byte>): (r: TokenRead)
    ensures r.Token? ==> 0 < r.size <= |s| + MAX_INT
    ensures r.Token? && r.kind != Scalar ==> r.size <= |s|
  {
    match ReadVarint(s)
    case Unread(e, _) => Broken(e)
    case Read(wire, n) =>
      match wire % 8
      case 0 =>
        (match ReadVarint(s[n..])
         case Unread(e, _) => Broken(e)
         case Read(_, k) => Token(Scalar, n + k))
      case 1 => Token(Scalar, n + 8)
      case 2 =>
        (match ReadVarint(s[n..])
         case Unread(e, _) => Broken(e)
         case Read(length, k) =>
           if Int64(length) < 0 then Broken(InvalidLength) else Token(Scalar, n + k + Int64(length)))
      case 3 => Token(Open, n)
      case 4 => Token(Close, n)
      case 5 => Token(Scalar, n + 4)
      case wireType => Broken(IllegalWireType(wireType))
  }

  datatype SkipResult =
    | SkipTo(end: nat)
    | SkipFails(error: Error)

  function DepthAfter(kind: TokenKind, depth: nat): nat
    requires kind == Close ==> depth > 0
  {
    match kind
    case Scalar => depth
    case Open => depth + 1
    case Close => depth - 1
  }

  /** `skipCommon` from index `at` on, inside `depth` open groups; s is what is left of the input. */
  function Skip(s: seq<byte>, at: nat, depth: nat): (r: SkipResult)
    requires at + |s| <= MAX_INT
    ensures r.SkipTo? ==> at < r.end <= MAX_INT
    decreases |s|
  {
    if |s| == 0 then SkipFails(UnexpectedEOF)
    else
      match ReadToken(s)
      case Broken(e) => SkipFails(e)
      case Token(kind, size) =>
        if kind == Close && depth == 0 then SkipFails(UnexpectedEndOfGroup)
        else if Int64(at + size) < 0 then SkipFails(InvalidLength)
        else if DepthAfter(kind, depth) == 0 then SkipTo(at + size)
        else if size >= |s| then SkipFails(UnexpectedEOF)
        else Skip(s[size..], at + size, DepthAfter(kind, depth))
  }

  /** The switch of one round: reads a tag and steps over what its wire type says. */
  method SkipToken(dAtA: seq<byte>, start: int) returns (r: TokenRead, iNdEx: int64)
    requires 0 <= start < |dAtA| <= MAX_INT
    ensures r == ReadToken(dAtA[start..])
    ensures r.Token? ==> iNdEx == Int64(start + r.size)
  {
    hide ReadVarint, Int64;
    iNdEx := start;
    ghost var rest := dAtA[start..];
    var tag, next := ReadVarintAt(dAtA, start);
    if tag.Unread? {
      return Broken(tag.error), iNdEx;
    }
    assert rest[tag.size..] == dAtA[next..];
    iNdEx := next;
    var wireType := tag.value % 8;
    if wireType == 0 {
      var v, after := ReadVarintAt(dAtA, next);
      if v.Unread? {
        return Broken(v.error), iNdEx;
      }
      return Token(Scalar, after - start), after;
    } else if wireType == 1 {
      return Token(Scalar, next - start + 8), Int64(next + 8);
    } else if wireType == 2 {
      var v, after := ReadVarintAt(dAtA, next);
      if v.Unread? {
        return Broken(v.error), iNdEx;
      }
      var length := Int64(v.value);
      if length < 0 {
        return Broken(InvalidLength), iNdEx;
      }
      return Token(Scalar, after - start + length), Int64(after + length);
    } else if wireType == 3 {
      return Token(Open, tag.size), iNdEx;
    } else if wireType == 4 {
      return Token(Close, tag.size), iNdEx;
    } else if wireType == 5 {
      return Token(Scalar, next - start + 4), Int64(next + 4);
    } else {
      return Broken(IllegalWireType(wireType)), iNdEx;
    }
  }

  method SkipCommon(dAtA: seq<byte>) returns (r: SkipResult)
    requires |dAtA| <= MAX_INT
    ensures r == Skip(dAtA, 0, 0)
  {
    hide ReadToken, Int64;
    var l, iNdEx, depth := |dAtA|, 0, 0;
    assert dAtA[0..] == dAtA;
    while iNdEx < l
      invariant 0 <= iNdEx <= MAX_INT && 0 <= depth
      invariant Skip(dAtA, 0, 0) == if iNdEx < l then Skip(dAtA[iNdEx..], iNdEx, depth) else SkipFails(UnexpectedEOF)
      decreases l - iNdEx
    {
      ghost var start := iNdEx;
      var token, next := SkipToken(dAtA, iNdEx);
      if token.Broken? {
        return SkipFails(token.error);
      }
      iNdEx := next;
      if token.kind == Open {
        depth := depth + 1;
      } else if token.kind == Close {
        if depth == 0 {
          return SkipFails(UnexpectedEndOfGroup);
        }
        depth := depth - 1;
      }
      if iNdEx < 0 {
        return SkipFails(InvalidLength);
      }
      if depth == 0 {
        return SkipTo(iNdEx);
      }
      assert iNdEx < l ==> dAtA[start..][token.size..] == dAtA[iNdEx..];
    }
    return SkipFails(UnexpectedEOF);
  }

  // ----- what can be skipped, as a grammar -----

  /** A field on the wire, with the bytes of its tags and lengths as they stand there, shortest or not. The tag that
      ends a group may have any field number. */
  datatype Element =
    | VarintElement(tag: seq<byte>, raw: seq<byte>)
    | Fixed64(tag: seq<byte>, raw: seq<byte>)
    | Delimited(tag: seq<byte>, length: seq<byte>, payload: seq<byte>)
    | Group(tag: seq<byte>, body: seq<Element>, end: seq<byte>)
    | Fixed32(tag: seq<byte>, raw: seq<byte>)

  predicate IsTag(tag: seq<byte>, wireType: nat) {
    IsVarint(tag) && Base128(tag) % TWO_64 % 8 == wireType
  }

  predicate WellFormed(e: Element) {
    match e
    case VarintElement(tag, raw) => IsTag(tag, 0) && IsVarint(raw)
    case Fixed64(tag, raw) => IsTag(tag, 1) && |raw| == 8
    case Delimited(tag, length, payload) =>
      IsTag(tag, 2) && IsVarint(length) && Base128(length) % TWO_64 == |payload| <= MAX_INT
    case Group(tag, body, end) => IsTag(tag, 3) && AllWellFormed(body) && IsTag(end, 4)
    case Fixed32(tag, raw) => IsTag(tag, 5) && |raw| == 4
  }

  predicate AllWellFormed(es: seq<Element>) {
    |es| == 0 || (WellFormed(es[0]) && AllWellFormed(es[1..]))
  }

  function Bytes(e: Element): seq<byte> {
    match e
    case VarintElement(tag, raw) => tag + raw
    case Fixed64(tag, raw) => tag + raw
    case Delimited(tag, length, payload) => tag + length + payload
    case Group(tag, body, end) => tag + AllBytes(body) + end
    case Fixed32(tag, raw) => tag + raw
  }

  function AllBytes(es: seq<Element>): seq<byte> {
    if |es| == 0 then [] else Bytes(es[0]) + AllBytes(es[1..])
  }

  // ----- tokens of the grammar -----

  lemma ReadIsVarint(raw: seq<byte>, t: seq<byte>)
    requires IsVarint(raw)
    ensures ReadVarint(raw + t) == Read(Base128(raw) % TWO_64, |raw|)
    ensures (raw + t)[|raw|..] == t
  {
    assert (raw + t)[..|raw|] == raw;
    ReadVarintExact(raw + t, Base128(raw) % TWO_64, |raw|);
  }

  lemma ScalarToken(e: Element, t: seq<byte>)
    requires WellFormed(e) && !e.Group?
    ensures ReadToken(Bytes(e) + t) == Token(Scalar, |Bytes(e)|)
  {
    hide ReadVarint, Base128, Int64;
    var rest := Bytes(e)[|e.tag|..] + t;
    assert Bytes(e) + t == e.tag + rest;
    ReadIsVarint(e.tag, rest);
    match e
    case VarintElement(_, raw) =>
      assert rest == raw + t;
      ReadIsVarint(raw, t);
    case Delimited(_, length, payload) =>
      assert rest == length + (payload + t);
      ReadIsVarint(length, payload + t);
    case _ =>
  }

  /** A scalar token that lies within the input is a scalar of the grammar. */
  lemma TokenScalar(s: seq<byte>, size: nat) returns (e: Element)
    requires ReadToken(s) == Token(Scalar, size) && size <= |s|
    ensures WellFormed(e) && !e.Group? && Bytes(e) == s[..size]
  {
    hide ReadVarint, Base128, Int64;
    var n := ReadVarint(s).size;
    ReadVarintExact(s, ReadVarint(s).value, n);
    var tag, rest := s[..n], s[n..];
    match ReadVarint(s).value % 8
    case 0 =>
      var k := ReadVarint(rest).size;
      ReadVarintExact(rest, ReadVarint(rest).value, k);
      e := VarintElement(tag, rest[..k]);
    case 1 =>
      e := Fixed64(tag, rest[..8]);
    case 2 =>
      var k := ReadVarint(rest).size;
      ReadVarintExact(rest, ReadVarint(rest).value, k);
      e := Delimited(tag, rest[..k], rest[k..size - n]);
    case _ =>
      e := Fixed32(tag, rest[..4]);
  }

  lemma GroupToken(s: seq<byte>, size: nat)
    requires ReadToken(s).Token? && ReadToken(s).kind != Scalar && ReadToken(s).size == size
    ensures IsTag(s[..size], if ReadToken(s).kind == Open then 3 else 4)
  {
    ReadVarintExact(s, ReadVarint(s).value, size);
  }

  lemma TagToken(tag: seq<byte>, rest: seq<byte>)
    requires IsTag(tag, 3) || IsTag(tag, 4)
    ensures ReadToken(tag + rest) == Token(if IsTag(tag, 3) then Open else Close, |tag|)
    ensures (tag + rest)[|tag|..] == rest
  {
    hide ReadVarint, Base128, Int64;
    ReadIsVarint(tag, rest);
  }

  lemma SplitPrefix(s: seq<byte>, size: nat, n: nat)
    requires size <= n <= |s|
    ensures s[..n] == s[..size] + s[size..][..n - size]
  {
  }

  // ----- the skipper accepts exactly the grammar -----

  /** Skipping a field at the top stops right behind it; inside a group it goes on behind it. */
  lemma {:induction false} SkipElement(e: Element, t: seq<byte>, at: nat, depth: nat)
    requires WellFormed(e) && at + |Bytes(e) + t| <= MAX_INT
    ensures Skip(Bytes(e) + t, at, depth)
         == if depth == 0 then SkipTo(at + |Bytes(e)|) else Skip(t, at + |Bytes(e)|, depth)
    decreases e
  {
    hide ReadToken, IsTag, Int64;
    if e.Group? {
      SkipGroup(e, t, at, depth);
    } else {
      ScalarToken(e, t);
      assert (Bytes(e) + t)[|Bytes(e)|..] == t;
    }
  }

  lemma SkipClose(end: seq<byte>, t: seq<byte>, at: nat, depth: nat)
    requires IsTag(end, 4) && at + |end + t| <= MAX_INT
    ensures Skip(end + t, at, depth + 1) == if depth == 0 then SkipTo(at + |end|) else Skip(t, at + |end|, depth)
  {
    hide ReadToken, Int64;
    TagToken(end, t);
  }

  lemma {:induction false} SkipGroup(e: Element, t: seq<byte>, at: nat, depth: nat)
    requires WellFormed(e) && e.Group? && at + |Bytes(e) + t| <= MAX_INT
    ensures Skip(Bytes(e) + t, at, depth)
         == if depth == 0 then SkipTo(at + |Bytes(e)|) else Skip(t, at + |Bytes(e)|, depth)
    decreases e, 0
  {
    hide ReadToken, IsTag, Int64, AllWellFormed, AllBytes;
    var inner, close := AllBytes(e.body), e.end + t;
    assert Bytes(e) + t == e.tag + (inner + close);
    TagToken(e.tag, inner + close);
    TagToken(e.end, t);
    assert |e.tag| > 0 && |e.end| > 0;
    assert |Bytes(e)| == |e.tag| + |inner| + |e.end|;
    assert Skip(Bytes(e) + t, at, depth) == Skip(inner + close, at + |e.tag|, depth + 1);
    SkipAll(e.body, close, at + |e.tag|, depth + 1);
    SkipClose(e.end, t, at + |e.tag| + |inner|, depth);
  }

  lemma {:induction false} SkipAll(es: seq<Element>, t: seq<byte>, at: nat, depth: nat)
    requires AllWellFormed(es) && at + |AllBytes(es) + t| <= MAX_INT && depth > 0
    ensures Skip(AllBytes(es) + t, at, depth) == Skip(t, at + |AllBytes(es)|, depth)
    decreases es
  {
    hide ReadToken, WellFormed, Bytes, Skip;
    if |es| == 0 {
      assert AllBytes(es) + t == t;
    } else {
      var rest := AllBytes(es[1..]) + t;
      assert AllBytes(es) + t == Bytes(es[0]) + rest by {
        hide Skip, AllWellFormed;
      }
      SkipElement(es[0], rest, at, depth);
      SkipAll(es[1..], t, at + |Bytes(es[0])|, depth);
    }
  }

  /** What is still to come of an open group: its remaining fields and the tag that ends it. */
  datatype Level = Level(body: seq<Element>, end: seq<byte>)

  predicate WellFormedLevels(ls: seq<Level>) {
    |ls| == 0 || (AllWellFormed(ls[0].body) && IsTag(ls[0].end, 4) && WellFormedLevels(ls[1..]))
  }

  function LevelBytes(ls: seq<Level>): seq<byte> {
    if |ls| == 0 then [] else AllBytes(ls[0].body) + ls[0].end + LevelBytes(ls[1..])
  }

  lemma PushElement(e: Element, ls: seq<Level>) returns (r: seq<Level>)
    requires WellFormed(e) && WellFormedLevels(ls) && |ls| > 0
    ensures |r| == |ls| && WellFormedLevels(r) && LevelBytes(r) == Bytes(e) + LevelBytes(ls)
  {
    hide WellFormed, Bytes, IsTag;
    r := [Level([e] + ls[0].body, ls[0].end)] + ls[1..];
    assert ([e] + ls[0].body)[1..] == ls[0].body;
    assert r[1..] == ls[1..];
  }

  lemma PushEnd(end: seq<byte>, ls: seq<Level>) returns (r: seq<Level>)
    requires IsTag(end, 4) && WellFormedLevels(ls)
    ensures |r| == |ls| + 1 && WellFormedLevels(r) && LevelBytes(r) == end + LevelBytes(ls)
  {
    hide WellFormed, Bytes, IsTag;
    r := [Level([], end)] + ls;
    assert r[1..] == ls;
  }

  /** What the skipper passed inside `depth` open groups is the rest of exactly those groups. */
  lemma {:induction false} SkippedLevels(s: seq<byte>, at: nat, depth: nat) returns (ls: seq<Level>)
    requires at + |s| <= MAX_INT && depth > 0
    requires Skip(s, at, depth).SkipTo? && Skip(s, at, depth).end <= at + |s|
    ensures |ls| == depth && WellFormedLevels(ls)
    ensures at <= Skip(s, at, depth).end && LevelBytes(ls) == s[..Skip(s, at, depth).end - at]
    decreases |s|
  {
    hide ReadToken, IsTag, Int64, WellFormed, WellFormedLevels, LevelBytes;
    var size, n := ReadToken(s).size, Skip(s, at, depth).end - at;
    match ReadToken(s).kind
    case Scalar =>
      var e := TokenScalar(s, size);
      var rest := SkippedLevels(s[size..], at + size, depth);
      ls := PushElement(e, rest);
      SplitPrefix(s, size, n);
    case Open =>
      GroupToken(s, size);
      var rest := SkippedLevels(s[size..], at + size, depth + 1);
      ls := CloseLevel(s[..size], rest);
      SplitPrefix(s, size, n);
    case Close =>
      GroupToken(s, size);
      if depth == 1 {
        EmptyLevels();
        ls := PushEnd(s[..size], []);
      } else {
        var rest := SkippedLevels(s[size..], at + size, depth - 1);
        ls := PushEnd(s[..size], rest);
        SplitPrefix(s, size, n);
      }
  }

  lemma EmptyLevels()
    ensures WellFormedLevels([]) && LevelBytes([]) == []
  {
  }

  /** A group opened at depth n and the levels below it: the first level completes the group. */
  lemma CloseGroup(tag: seq<byte>, ls: seq<Level>) returns (e: Element)
    requires IsTag(tag, 3) && WellFormedLevels(ls) && |ls| > 0
    ensures WellFormed(e) && WellFormedLevels(ls[1..])
    ensures Bytes(e) + LevelBytes(ls[1..]) == tag + LevelBytes(ls)
  {
    hide IsTag, AllWellFormed, AllBytes;
    e := Group(tag, ls[0].body, ls[0].end);
    var body, end, rest := AllBytes(ls[0].body), ls[0].end, LevelBytes(ls[1..]);
    assert tag + body + end + rest == tag + (body + end + rest);
  }

  lemma CloseLevel(tag: seq<byte>, ls: seq<Level>) returns (r: seq<Level>)
    requires IsTag(tag, 3) && WellFormedLevels(ls) && |ls| > 1
    ensures |r| == |ls| - 1 && WellFormedLevels(r) && LevelBytes(r) == tag + LevelBytes(ls)
  {
    hide IsTag, WellFormed, Bytes, WellFormedLevels, LevelBytes;
    var e := CloseGroup(tag, ls);
    r := PushElement(e, ls[1..]);
  }

  lemma SkippedElement(s: seq<byte>, n: nat) returns (e: Element)
    requires n <= |s| <= MAX_INT && Skip(s, 0, 0) == SkipTo(n)
    ensures WellFormed(e) && Bytes(e) == s[..n]
  {
    hide ReadToken, IsTag, Int64, WellFormed, Bytes, LevelBytes, WellFormedLevels;
    var size := ReadToken(s).size;
    if ReadToken(s).kind == Scalar {
      e := TokenScalar(s, size);
    } else {
      GroupToken(s, size);
      var ls := SkippedLevels(s[size..], size, 1);
      e := CloseGroup(s[..size], ls);
      EmptyLevels();
      assert ls[1..] == [];
      SplitPrefix(s, size, n);
    }
  }

  /** `skipCommon` passes n bytes that are there exactly when those n bytes are one field of the grammar. */
  lemma SkipExact(s: seq<byte>, n: nat)
    requires n <= |s| <= MAX_INT
    ensures Skip(s, 0, 0) == SkipTo(n) <==> exists e :: WellFormed(e) && Bytes(e) == s[..n]
  {
    hide Skip, WellFormed, Bytes;
    if Skip(s, 0, 0) == SkipTo(n) {
      var e := SkippedElement(s, n);
    }
    forall e | WellFormed(e) && Bytes(e) == s[..n] ensures Skip(s, 0, 0) == SkipTo(n) {
      assert s == Bytes(e) + s[n..];
      SkipElement(e, s[n..], 0, 0);
    }
  }

  // ----- the grammar is unambiguous -----

  lemma VarintUnique(a: seq<byte>, s: seq<byte>, b: seq<byte>, t: seq<byte>)
    requires IsVarint(a) && IsVarint(b) && a + s == b + t
    ensures a == b && s == t
  {
    hide ReadVarint, Base128;
    ReadIsVarint(a, s);
    ReadIsVarint(b, t);
    assert a == (a + s)[..|a|] && b == (b + t)[..|a|];
  }

  /** What an element's wire type says of its tag. */
  function WireType(e: Element): nat {
    match e
    case VarintElement(_, _) => 0
    case Fixed64(_, _) => 1
    case Delimited(_, _, _) => 2
    case Group(_, _, _) => 3
    case Fixed32(_, _) => 5
  }

  function Body(e: Element): seq<byte> {
    match e
    case VarintElement(_, raw) => raw
    case Fixed64(_, raw) => raw
    case Delimited(_, length, payload) => length + payload
    case Group(_, body, end) => AllBytes(body) + end
    case Fixed32(_, raw) => raw
  }

  lemma TagAndBody(e: Element)
    requires WellFormed(e)
    ensures IsTag(e.tag, WireType(e)) && Bytes(e) == e.tag + Body(e)
  {
    hide AllBytes, AllWellFormed, IsTag;
  }

  /** The bytes of an element, whatever follows, are the bytes of no other element. */
  lemma {:induction false} ElementUnique(e: Element, s: seq<byte>, f: Element, t: seq<byte>)
    requires WellFormed(e) && WellFormed(f) && Bytes(e) + s == Bytes(f) + t
    ensures e == f && s == t
    decreases e, 1
  {
    hide WellFormed, Bytes, Body, AllBytes, Base128;
    TagAndBody(e);
    TagAndBody(f);
    Associate(e.tag, Body(e), s);
    Associate(f.tag, Body(f), t);
    VarintUnique(e.tag, Body(e) + s, f.tag, Body(f) + t);
    BodyUnique(e, s, f, t);
  }

  lemma {:induction false} BodyUnique(e: Element, s: seq<byte>, f: Element, t: seq<byte>)
    requires WellFormed(e) && WellFormed(f) && e.tag == f.tag && WireType(e) == WireType(f)
    requires Body(e) + s == Body(f) + t
    ensures e == f && s == t
    decreases e, 0
  {
    hide Base128, AllBytes, AllWellFormed;
    match e
    case VarintElement(_, raw) => VarintUnique(raw, s, f.raw, t);
    case Fixed64(_, raw) => SameLength(raw, s, f.raw, t);
    case Delimited(_, length, payload) =>
      Associate(length, payload, s);
      Associate(f.length, f.payload, t);
      VarintUnique(length, payload + s, f.length, f.payload + t);
      SameLength(payload, s, f.payload, t);
    case Group(_, body, end) =>
      Associate(AllBytes(body), end, s);
      Associate(AllBytes(f.body), f.end, t);
      ElementsUnique(body, end, s, f.body, f.end, t);
    case Fixed32(_, raw) => SameLength(raw, s, f.raw, t);
  }

  lemma Associate(a: seq<byte>, b: seq<byte>, c: seq<byte>)
    ensures (a + b) + c == a + (b + c)
  {
  }

  lemma SameLength(a: seq<byte>, s: seq<byte>, b: seq<byte>, t: seq<byte>)
    requires |a| == |b| && a + s == b + t
    ensures a == b && s == t
  {
    assert a == (a + s)[..|a|] && b == (b + t)[..|a|] && s == (a + s)[|a|..] && t == (b + t)[|a|..];
  }

  /** No element begins with the tag that ends a group. */
  lemma NotAnEnd(e: Element, s: seq<byte>, end: seq<byte>, t: seq<byte>)
    requires WellFormed(e) && IsTag(end, 4)
    ensures Bytes(e) + s != end + t
  {
    hide WellFormed, Bytes, Body, Base128;
    TagAndBody(e);
    if Bytes(e) + s == end + t {
      assert e.tag + (Body(e) + s) == end + t;
      VarintUnique(e.tag, Body(e) + s, end, t);
    }
  }

  lemma {:induction false} ElementsUnique(
    es: seq<Element>, end: seq<byte>, s: seq<byte>, fs: seq<Element>, end': seq<byte>, t: seq<byte>)
    requires AllWellFormed(es) && AllWellFormed(fs) && IsTag(end, 4) && IsTag(end', 4)
    requires AllBytes(es) + (end + s) == AllBytes(fs) + (end' + t)
    ensures es == fs && end == end' && s == t
    decreases es, 2
  {
    hide WellFormed, Bytes, Base128;
    if |es| == 0 && |fs| == 0 {
      assert [] + (end + s) == end + s && [] + (end' + t) == end' + t;
      VarintUnique(end, s, end', t);
    } else if |es| == 0 {
      var rest := AllBytes(fs[1..]) + (end' + t);
      assert AllBytes(fs) + (end' + t) == Bytes(fs[0]) + rest;
      NotAnEnd(fs[0], rest, end, s);
    } else {
      var rest := AllBytes(es[1..]) + (end + s);
      assert AllBytes(es) + (end + s) == Bytes(es[0]) + rest;
      if |fs| == 0 {
        NotAnEnd(es[0], rest, end', t);
      } else {
        var rest' := AllBytes(fs[1..]) + (end' + t);
        assert AllBytes(fs) + (end' + t) == Bytes(fs[0]) + rest';
        ElementUnique(es[0], rest, fs[0], rest');
        ElementsUnique(es[1..], end, s, fs[1..], end', t);
        assert es == [es[0]] + es[1..] && fs == [fs[0]] + fs[1..];
      }
    }
  }

  /** Bytes are those of one element at most. */
  lemma ParseUnique(e: Element, f: Element)
    requires WellFormed(e) && WellFormed(f)
    ensures Bytes(e) == Bytes(f) <==> e == f
  {
    hide WellFormed, Bytes;
    if Bytes(e) == Bytes(f) {
      ElementUnique(e, [], f, []);
    }
  }

  // ----- groups whose end tag has another number -----

  /** The field number of a tag. */
  function TagNumber(tag: seq<byte>): nat {
    Base128(tag) % TWO_64 / 8
  }

  /** Every group in the element ends with the number it began with. */
  predicate EndsMatch(e: Element) {
    match e
    case Group(tag, body, end) => TagNumber(end) == TagNumber(tag) && AllEndsMatch(body)
    case _ => true
  }

  predicate AllEndsMatch(es: seq<Element>) {
    |es| == 0 || (EndsMatch(es[0]) && AllEndsMatch(es[1..]))
  }

  /** What the Groups section of the Protocol Buffers Encoding guide asks of a field. */
  ghost predicate FollowsGuide(s: seq<byte>) {
    exists e :: WellFormed(e) && EndsMatch(e) && Bytes(e) == s
  }

  /** Of the n bytes that the skipper passes, the guide accepts exactly those whose one reading has matching end
      tags. */
  lemma FollowsGuideExactly(s: seq<byte>, n: nat, e: Element)
    requires n <= |s| <= MAX_INT && Skip(s, 0, 0) == SkipTo(n)
    requires WellFormed(e) && Bytes(e) == s[..n]
    ensures FollowsGuide(s[..n]) <==> EndsMatch(e)
  {
    hide Skip, WellFormed, Bytes, EndsMatch;
    forall f | WellFormed(f) && Bytes(f) == s[..n] ensures f == e {
      ParseUnique(e, f);
    }
  }

  /** The skipper does not look at the number of an end tag: a group of field 1 is closed by an end tag of field 2. */
  lemma MismatchedEndTagIsAccepted()
    ensures Skip([0x0b, 0x14], 0, 0) == SkipTo(2) && !FollowsGuide([0x0b, 0x14])
  {
    var e := Group([0x0b], [], [0x14]);
    assert Base128([0x0b]) == 0x0b && Base128([0x14]) == 0x14;
    SkipElement(e, [], 0, 0);
    assert Bytes(e) + [] == [0x0b, 0x14] == Bytes(e);
    assert [0x0b, 0x14][..2] == Bytes(e);
    FollowsGuideExactly([0x0b, 0x14], 2, e);
  }

  // ----- every wire type, and every error -----

  lemma ReadSmall(b: byte, t: seq<byte>)
    requires b < 0x80
    ensures ReadVarint([b] + t) == Read(b, 1) && ([b] + t)[1..] == t
    ensures IsVarint([b]) && Base128([b]) == b
  {
    hide ReadVarint;
    assert [b][1..] == [];
    ReadIsVarint([b], t);
  }

  lemma SkipsOver(e: Element, t: seq<byte>)
    requires WellFormed(e) && |Bytes(e) + t| <= MAX_INT
    ensures Skip(Bytes(e) + t, 0, 0) == SkipTo(|Bytes(e)|)
  {
    hide Skip, WellFormed, Bytes;
    SkipElement(e, t, 0, 0);
  }

  lemma VarintExample()
    ensures Skip([0x38, 5] + [9], 0, 0) == SkipTo(2)
  {
    hide Skip;
    ReadSmall(0x38, []);
    ReadSmall(5, []);
    SkipsOver(VarintElement([0x38], [5]), [9]);
    assert [0x38] + [5] == [0x38, 5];
  }

  lemma Fixed64Example()
    ensures Skip([0x39, 1, 2, 3, 4, 5, 6, 7, 8] + [9], 0, 0) == SkipTo(9)
  {
    hide Skip;
    ReadSmall(0x39, []);
    SkipsOver(Fixed64([0x39], [1, 2, 3, 4, 5, 6, 7, 8]), [9]);
    assert [0x39] + [1, 2, 3, 4, 5, 6, 7, 8] == [0x39, 1, 2, 3, 4, 5, 6, 7, 8];
  }

  lemma DelimitedExample()
    ensures Skip([0x3a, 2, 7, 8] + [9], 0, 0) == SkipTo(4)
  {
    hide Skip;
    ReadSmall(0x3a, []);
    ReadSmall(2, []);
    SkipsOver(Delimited([0x3a], [2], [7, 8]), [9]);
    assert [0x3a] + [2] + [7, 8] == [0x3a, 2, 7, 8];
  }

  lemma GroupExample()
    ensures Skip([0x3b, 0x3c] + [9], 0, 0) == SkipTo(2)
  {
    hide Skip;
    ReadSmall(0x3b, []);
    ReadSmall(0x3c, []);
    SkipsOver(Group([0x3b], [], [0x3c]), [9]);
    assert [0x3b] + [] + [0x3c] == [0x3b, 0x3c];
  }

  lemma Fixed32Example()
    ensures Skip([0x3d, 1, 2, 3, 4] + [9], 0, 0) == SkipTo(5)
  {
    hide Skip;
    ReadSmall(0x3d, []);
    SkipsOver(Fixed32([0x3d], [1, 2, 3, 4]), [9]);
    assert [0x3d] + [1, 2, 3, 4] == [0x3d, 1, 2, 3, 4];
  }

  /** Field 7 with each wire type, and a byte behind it. */
  lemma SkipExamples()
    ensures Skip([0x38, 5] + [9], 0, 0) == SkipTo(2)
    ensures Skip([0x39, 1, 2, 3, 4, 5, 6, 7, 8] + [9], 0, 0) == SkipTo(9)
    ensures Skip([0x3a, 2, 7, 8] + [9], 0, 0) == SkipTo(4)
    ensures Skip([0x3b, 0x3c] + [9], 0, 0) == SkipTo(2)
    ensures Skip([0x3d, 1, 2, 3, 4] + [9], 0, 0) == SkipTo(5)
  {
    hide Skip;
    VarintExample();
    Fixed64Example();
    DelimitedExample();
    GroupExample();
    Fixed32Example();
  }

  /** What one byte alone is to the skipper. */
  lemma OneByte(b: byte)
    requires b < 0x80
    ensures ReadVarint([b]) == Read(b, 1)
  {
    ReadSmall(b, []);
    assert [b] + [] == [b];
  }

  /** Bytes that break off, an end without a start, and a wire type that is none. */
  lemma SkipErrors()
    ensures Skip([], 0, 0) == SkipFails(UnexpectedEOF)
    ensures Skip([0x3b], 0, 0) == SkipFails(UnexpectedEOF)
    ensures Skip([0x3c], 0, 0) == SkipFails(UnexpectedEndOfGroup)
    ensures Skip([0x3e], 0, 0) == SkipFails(IllegalWireType(6))
    ensures Skip([0x3f], 0, 0) == SkipFails(IllegalWireType(7))
  {
    hide ReadVarint;
    OneByte(0x3b);
    OneByte(0x3c);
    OneByte(0x3e);
    OneByte(0x3f);
  }
}
