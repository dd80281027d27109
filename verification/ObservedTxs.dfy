/** Transaction ids, and the list of outbound hashes by which an observed transaction gets done. */
module ObservedTxs {
  import opened Results
  import opened Selections
  import opened Text

  datatype Status = Incomplete | Done

  // ----- transaction ids -----

  /** `NewTxID`: 64 bytes, or 66 with a lower-case `0x` in front; the id is in upper case. */
  function NewTxID(hash: string): Option<string> {
    if ByteLen(hash) == 64 then Some(Upper(hash))
    else if ByteLen(hash) == 66 then
      if "0x" <= hash then Some(Upper(hash)) else None
    else None
  }

  /** Sixty-four zeros. */
  predicate IsBlank(id: string) {
    EqualFold(id, BlankTxID())
  }

  function BlankTxID(): string {
    seq(64, _ => '0')
  }

  predicate Parses(hash: string) {
    NewTxID(hash).Some?
  }

  lemma UpperLacksPrefix(s: string)
    ensures !("0x" <= Upper(s))
  {
    assert "0x"[1] == 'x';
    assert |s| > 1 ==> Upper(s)[1] != 'x';
  }

  /** An id that was made of a hash parses again exactly when it has 64 bytes: with 66, its prefix is `0X`. */
  lemma ReparsesExactly(hash: string)
    requires Parses(hash)
    ensures Parses(NewTxID(hash).value) <==> ByteLen(NewTxID(hash).value) == 64
    ensures IsAscii(hash) ==> ByteLen(NewTxID(hash).value) == |hash|
  {
    hide ByteLen;
    UpperLacksPrefix(hash);
    if IsAscii(hash) {
      ByteLenAscii(Upper(hash));
    }
  }

  /** Which ASCII texts are ids, by their length alone or with two characters of it, and how an id is spelled. */
  lemma NewTxIDExactly(hash: string)
    requires IsAscii(hash)
    ensures Parses(hash) <==> |hash| == 64 || (|hash| == 66 && hash[0] == '0' && hash[1] == 'x')
    ensures Parses(hash) ==> NewTxID(hash) == Some(Upper(hash))
  {
    hide ByteLen;
    ByteLenAscii(hash);
  }

  /** The blank id is sixty-four zeros, in the one spelling there is. */
  lemma BlankExactly(id: string)
    ensures IsBlank(id) <==> |id| == 64 && forall k :: 0 <= k < 64 ==> id[k] == '0'
  {
    var f, zeros := Fold(id), Fold(BlankTxID());
    if IsBlank(id) {
      forall k | 0 <= k < 64 ensures id[k] == '0' {
        assert f[k] == zeros[k];
      }
    } else if |id| == 64 {
      assert f != zeros;
    }
  }

  // ----- the out hashes -----

  datatype State = State(outHashes: seq<string>, status: Status)

  /** `GetOutHashes`: the stored hashes that parse, parsed. */
  function Parsed(hashes: seq<string>): seq<string> {
    if |hashes| == 0 then []
    else (if Parses(hashes[0]) then [NewTxID(hashes[0]).value] else []) + Parsed(hashes[1..])
  }

  /** These are the hashes that parse, in their order, in upper case. */
  lemma {:induction false} ParsedExactly(hashes: seq<string>) returns (at: seq<nat>)
    ensures Increasing(at) && forall k: nat :: k in at <==> k < |hashes| && Parses(hashes[k])
    ensures Within(at, |hashes|) && |Parsed(hashes)| == |at|
    ensures forall i :: 0 <= i < |at| ==> Parsed(hashes)[i] == Upper(hashes[at[i]])
  {
    hide ByteLen, Upper;
    if |hashes| == 0 {
      at := [];
    } else {
      var rest := ParsedExactly(hashes[1..]);
      var head := Parses(hashes[0]);
      at := Shift(rest, head);
      ShiftPicks(hashes, rest, head);
      forall k: nat ensures k in at <==> k < |hashes| && Parses(hashes[k]) {
        ShiftHas(rest, head, k);
        assert 0 < k < |hashes| ==> hashes[1..][k - 1] == hashes[k];
      }
      assert Picked(hashes, at) == (if head then [hashes[0]] else []) + Picked(hashes[1..], rest);
      forall i | 0 <= i < |at| ensures Parsed(hashes)[i] == Upper(hashes[at[i]]) {
        assert Picked(hashes, at)[i] == hashes[at[i]];
      }
    }
  }

  /** What the duplicate check finds. */
  predicate IsKnown(hashes: seq<string>, hash: string) {
    exists k :: 0 <= k < |Parsed(hashes)| && EqualFold(Parsed(hashes)[k], hash)
  }

  function AfterDone(st: State, hash: string, numOuts: int): State {
    if !IsBlank(hash) && IsKnown(st.outHashes, hash) then st
    else
      var hashes := st.outHashes + [hash];
      State(hashes, if |hashes| >= numOuts then Done else st.status)
  }

  class ObservedTx {
    var outHashes: seq<string>
    var status: Status

    function Value(): State
      reads this
    {
      State(outHashes, status)
    }

    constructor ()
      ensures Value() == State([], Incomplete)
    {
      outHashes, status := [], Incomplete;
    }

    method GetOutHashes() returns (txIDs: seq<string>)
      ensures txIDs == Parsed(outHashes)
    {
      hide NewTxID;
      txIDs := [];
      var i := 0;
      while i < |outHashes|
        invariant 0 <= i <= |outHashes|
        invariant txIDs + Parsed(outHashes[i..]) == Parsed(outHashes)
      {
        var o := outHashes[i];
        assert outHashes[i..][0] == o && outHashes[i..][1..] == outHashes[i + 1..];
        var txID := NewTxID(o);
        if txID.Some? {
          txIDs := txIDs + [txID.value];
        }
        i := i + 1;
      }
    }

    predicate IsDone(numOuts: int)
      reads this
    {
      |outHashes| >= numOuts
    }

    method SetDone(hash: string, numOuts: int)
      modifies this
      ensures Value() == AfterDone(old(Value()), hash, numOuts)
    {
      hide Parsed, EqualFold, BlankTxID;
      if !EqualFold(hash, BlankTxID()) {
        var known := GetOutHashes();
        var i := 0;
        while i < |known|
          invariant 0 <= i <= |known|
          invariant forall k :: 0 <= k < i ==> !EqualFold(known[k], hash)
        {
          if EqualFold(known[i], hash) {
            return;
          }
          i := i + 1;
        }
      }
      outHashes := outHashes + [hash];
      if IsDone(numOuts) {
        status := Done;
      }
    }
  }

  // ----- whole runs -----

  /** Every call of SetDone from a new observed transaction on, with the same number of outputs. */
  function Run(calls: seq<string>, numOuts: int): State {
    if |calls| == 0 then State([], Incomplete)
    else AfterDone(Run(calls[..|calls| - 1], numOuts), calls[|calls| - 1], numOuts)
  }

  function Blanks(calls: seq<string>): nat {
    if |calls| == 0 then 0
    else Blanks(calls[..|calls| - 1]) + if IsBlank(calls[|calls| - 1]) then 1 else 0
  }

  /** The hashes that are not blank, each once, whatever its case. */
  function Distinct(calls: seq<string>): set<string> {
    if |calls| == 0 then {}
    else Distinct(calls[..|calls| - 1]) + if IsBlank(calls[|calls| - 1]) then {} else {Fold(calls[|calls| - 1])}
  }

  /** Hashes that parse, and to an id that folds like the hash: the dotless i is the one letter that does not. */
  predicate IsStable(hash: string) {
    Parses(hash) && Lacks(hash, DOTLESS_I)
  }

  predicate AllStable(hashes: seq<string>) {
    forall k :: 0 <= k < |hashes| ==> IsStable(hashes[k])
  }

  /** An id that NewTxID makes is such a hash exactly when it has 64 bytes. */
  lemma IdsAreStableExactly(hash: string)
    requires Parses(hash)
    ensures IsStable(NewTxID(hash).value) <==> ByteLen(NewTxID(hash).value) == 64
  {
    hide ByteLen;
    UpperLacksDotlessI(hash);
    ReparsesExactly(hash);
  }

  predicate Finds(stored: string, hash: string) {
    Parses(stored) && EqualFold(Upper(stored), hash)
  }

  /** The duplicate check finds exactly the hashes that are stored, parse, and in upper case fold like the hash. */
  lemma {:induction false} KnownExactly(hashes: seq<string>, hash: string)
    ensures IsKnown(hashes, hash) <==> exists k :: 0 <= k < |hashes| && Finds(hashes[k], hash)
  {
    hide EqualFold, Upper, Parses;
    if |hashes| > 0 {
      var rest := hashes[1..];
      KnownExactly(rest, hash);
      KnownHead(hashes, hash);
      assert forall k :: 1 <= k < |hashes| ==> hashes[k] == rest[k - 1];
      assert forall k :: 0 <= k < |rest| ==> rest[k] == hashes[k + 1];
    }
  }

  lemma KnownHead(hashes: seq<string>, hash: string)
    requires |hashes| > 0
    ensures IsKnown(hashes, hash) <==> Finds(hashes[0], hash) || IsKnown(hashes[1..], hash)
  {
    hide EqualFold, Upper;
    var all, rest := Parsed(hashes), Parsed(hashes[1..]);
    if Parses(hashes[0]) {
      assert all == [Upper(hashes[0])] + rest;
      assert forall k :: 1 <= k < |all| ==> all[k] == rest[k - 1];
      assert forall k :: 0 <= k < |rest| ==> rest[k] == all[k + 1];
      assert EqualFold(all[0], hash) <==> Finds(hashes[0], hash);
    } else {
      assert all == rest;
    }
  }

  /** When every stored hash is stable, these are the hashes stored, whatever their case. */
  lemma KnownWhenStable(hashes: seq<string>, hash: string)
    requires AllStable(hashes)
    ensures IsKnown(hashes, hash) <==> exists k :: 0 <= k < |hashes| && EqualFold(hashes[k], hash)
  {
    hide Parses, IsKnown, Upper, Fold;
    KnownExactly(hashes, hash);
    forall k | 0 <= k < |hashes| ensures Finds(hashes[k], hash) <==> EqualFold(hashes[k], hash) {
      assert IsStable(hashes[k]);
      UpperFolds(hashes[k]);
    }
  }

  /** A first hash is stored as it is given, and is enough for up to one output. */
  lemma FirstHash(hash: string, numOuts: int)
    ensures Run([hash], numOuts) == State([hash], if numOuts <= 1 then Done else Incomplete)
  {
    hide IsBlank;
    assert [hash][..0] == [];
    assert !IsKnown([], hash);
  }

  /** In any state of a run, an earlier state's list is a prefix of the list. */
  lemma {:induction false} ListOnlyGrows(calls: seq<string>, k: nat, numOuts: int)
    requires k <= |calls|
    ensures Run(calls[..k], numOuts).outHashes <= Run(calls, numOuts).outHashes
    decreases |calls|
  {
    hide IsKnown, IsBlank;
    if k < |calls| {
      var shorter := calls[..|calls| - 1];
      assert shorter[..k] == calls[..k];
      ListOnlyGrows(shorter, k, numOuts);
    } else {
      assert calls[..k] == calls;
    }
  }

  /** Done exactly from the moment on when the list is long enough; a call is needed even for no outputs. */
  lemma {:induction false} DoneExactly(calls: seq<string>, numOuts: int)
    ensures var st := Run(calls, numOuts);
            st.status == Done <==> |st.outHashes| >= numOuts && |st.outHashes| > 0
  {
    hide IsKnown, IsBlank;
    if |calls| > 0 {
      DoneExactly(calls[..|calls| - 1], numOuts);
    }
  }

  predicate NoRepeats(hashes: seq<string>) {
    forall i, j :: 0 <= i < j < |hashes| && !IsBlank(hashes[j]) ==> !EqualFold(hashes[i], hashes[j])
  }

  /** Whether the list holds the hash, whatever its case. */
  predicate Holds(hashes: seq<string>, u: string) {
    exists k :: 0 <= k < |hashes| && Fold(hashes[k]) == u
  }

  lemma HoldsAppend(hashes: seq<string>, h: string, u: string)
    ensures Holds(hashes + [h], u) <==> Holds(hashes, u) || Fold(h) == u
  {
    var all := hashes + [h];
    assert forall k :: 0 <= k < |hashes| ==> all[k] == hashes[k];
    if Fold(h) == u {
      assert all[|hashes|] == h;
    }
  }

  /** What every run of stable hashes keeps: stored hashes are stable, no hash that is not blank is stored twice, and
      the stored hashes that are not blank are exactly those called with. */
  lemma {:induction false} RunInvariant(calls: seq<string>, numOuts: int)
    requires AllStable(calls)
    ensures var hashes := Run(calls, numOuts).outHashes;
            && AllStable(hashes) && NoRepeats(hashes)
            && (forall u :: u in Distinct(calls) <==> Holds(hashes, u) && !IsBlank(u))
            && |hashes| == |Distinct(calls)| + Blanks(calls)
    decreases |calls|
  {
    hide IsStable, IsKnown, Fold, BlankTxID;
    if |calls| > 0 {
      var rest, hash := calls[..|calls| - 1], calls[|calls| - 1];
      RunInvariant(rest, numOuts);
      RunStep(Run(rest, numOuts), hash, numOuts, Distinct(rest), Blanks(rest));
    } else {
      forall u ensures u in Distinct(calls) <==> Holds(Run(calls, numOuts).outHashes, u) && !IsBlank(u) {
      }
    }
  }

  lemma RunStep(st: State, hash: string, numOuts: int, distinct: set<string>, blanks: nat)
    requires IsStable(hash)
    requires AllStable(st.outHashes) && NoRepeats(st.outHashes)
    requires forall u :: u in distinct <==> Holds(st.outHashes, u) && !IsBlank(u)
    requires |st.outHashes| == |distinct| + blanks
    ensures var hashes := AfterDone(st, hash, numOuts).outHashes;
            var distinct' := distinct + if IsBlank(hash) then {} else {Fold(hash)};
            && AllStable(hashes) && NoRepeats(hashes)
            && (forall u :: u in distinct' <==> Holds(hashes, u) && !IsBlank(u))
            && |hashes| == |distinct'| + blanks + if IsBlank(hash) then 1 else 0
  {
    hide IsStable, IsKnown, Fold, BlankTxID, Holds;
    var hashes := AfterDone(st, hash, numOuts).outHashes;
    KnownWhenStable(st.outHashes, hash);
    FoldIdempotent(hash);
    KnownHolds(st.outHashes, hash);
    forall u ensures Holds(st.outHashes + [hash], u) <==> Holds(st.outHashes, u) || Fold(hash) == u {
      HoldsAppend(st.outHashes, hash, u);
    }
    var u := Fold(hash);
    assert u in distinct <==> Holds(st.outHashes, u) && !IsBlank(u);
    assert IsBlank(u) == IsBlank(hash);
    if IsBlank(hash) || !IsKnown(st.outHashes, hash) {
      assert hashes == st.outHashes + [hash];
      NoRepeatsAppend(st.outHashes, hash);
    } else {
      assert distinct + {u} == distinct;
    }
  }

  lemma NoRepeatsAppend(hashes: seq<string>, hash: string)
    requires AllStable(hashes) && NoRepeats(hashes)
    requires IsBlank(hash) || !IsKnown(hashes, hash)
    ensures NoRepeats(hashes + [hash])
  {
    hide IsStable, IsKnown, EqualFold, IsBlank;
    KnownWhenStable(hashes, hash);
  }

  lemma KnownHolds(hashes: seq<string>, hash: string)
    requires AllStable(hashes)
    ensures IsKnown(hashes, hash) <==> Holds(hashes, Fold(hash))
  {
    hide IsStable, Fold;
    KnownWhenStable(hashes, hash);
  }

  // ----- ids that do not parse again -----

  /** Calling SetDone a second time with the same hash that was not known before is ignored exactly when the hash
      parses and has no dotless i; otherwise it counts twice. */
  lemma RepeatIsIgnoredExactly(st: State, hash: string, numOuts: int)
    requires !IsBlank(hash) && !IsKnown(st.outHashes, hash)
    ensures AfterDone(AfterDone(st, hash, numOuts), hash, numOuts) == AfterDone(st, hash, numOuts) <==> IsStable(hash)
  {
    hide Parsed, Parses, IsBlank, EqualFold, Upper;
    var hashes := st.outHashes + [hash];
    KnownExactly(st.outHashes, hash);
    KnownExactly(hashes, hash);
    UpperFolds(hash);
    assert hashes[|st.outHashes|] == hash;
    assert forall k :: 0 <= k < |st.outHashes| ==> hashes[k] == st.outHashes[k];
  }

  /** Two calls with the id store it twice. */
  predicate StoredTwice(st: State, id: string, numOuts: int) {
    AfterDone(AfterDone(st, id, numOuts), id, numOuts).outHashes == st.outHashes + [id, id]
  }

  /** So an id that NewTxID made is stored a second time exactly when it does not have 64 bytes. */
  lemma IdIsStoredTwiceExactly(st: State, hash: string, numOuts: int)
    requires Parses(hash)
    requires !IsBlank(NewTxID(hash).value) && !IsKnown(st.outHashes, NewTxID(hash).value)
    ensures StoredTwice(st, NewTxID(hash).value, numOuts) <==> ByteLen(NewTxID(hash).value) != 64
  {
    hide IsKnown, IsBlank, ByteLen;
    var id := NewTxID(hash).value;
    IdsAreStableExactly(hash);
    RepeatIsIgnoredExactly(st, id, numOuts);
    assert st.outHashes + [id] + [id] == st.outHashes + [id, id];
    assert |st.outHashes + [id]| != |st.outHashes + [id, id]|;
  }

  /** With ASCII letters only: every id of 66 characters. */
  lemma LongIdsAreNeverKnown(st: State, hash: string, numOuts: int)
    requires IsAscii(hash) && |hash| == 66 && Parses(hash) && !IsKnown(st.outHashes, NewTxID(hash).value)
    ensures StoredTwice(st, NewTxID(hash).value, numOuts)
  {
    hide ByteLen, IsKnown;
    ByteLenAscii(hash);
    ReparsesExactly(hash);
    var id := NewTxID(hash).value;
    assert !IsBlank(id) by {
      assert |Fold(id)| == 66 && |Fold(BlankTxID())| == 64;
    }
    IdIsStoredTwiceExactly(st, hash, numOuts);
  }

  // ----- letters of two bytes whose upper case has one -----

  function Letters(n: nat): (s: string)
    ensures |s| == n && forall k :: 0 <= k < n ==> s[k] == 'A'
  {
    seq(n, _ => 'A')
  }

  lemma LettersLength(n: nat)
    ensures ByteLen(Letters(n)) == n && Upper(Letters(n)) == Letters(n)
  {
    ByteLenAscii(Letters(n));
  }

  /** Sixty-four characters, one of them a long s, are 65 bytes and do not parse. */
  lemma LongSIsRefused()
    ensures !Parses([LONG_S] + Letters(63))
  {
    hide ByteLen;
    LettersLength(63);
    ByteLenConcat([LONG_S], Letters(63));
    OneByteLen(LONG_S);
  }

  lemma OneByteLen(c: char)
    ensures ByteLen([c]) == Width(c)
  {
  }

  /** Sixty-six bytes, two long s among them: the id has 64 bytes, parses again, and is known. */
  lemma LongSShrinks()
    ensures var hash := "0x" + [LONG_S] + [LONG_S] + Letters(60);
            Parses(hash) && ByteLen(NewTxID(hash).value) == 64 && IsStable(NewTxID(hash).value)
  {
    hide ByteLen;
    var hash := "0x" + [LONG_S] + [LONG_S] + Letters(60);
    LettersLength(60);
    ByteLenConcat("0x" + [LONG_S] + [LONG_S], Letters(60));
    ByteLenConcat("0x" + [LONG_S], [LONG_S]);
    ByteLenConcat("0x", [LONG_S]);
    ByteLenAscii("0x");
    OneByteLen(LONG_S);
    assert IsAscii(Upper(hash));
    ByteLenAscii(Upper(hash));
    IdsAreStableExactly(hash);
  }
}
