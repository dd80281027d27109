/** Comparing two transactions, and what that does to their gas lists. */
module TxEquality {
  import opened Text
  import opened Coins
  import opened CoinEquality
  import opened Sorting
  import opened ComparisonSorts

  datatype TxValue = TxValue(
    id: string, chain: string, fromAddress: string, toAddress: string, coins: seq<Coin>, gas: seq<Coin>, memo: string)

  predicate SameHeader(t: TxValue, u: TxValue) {
    && EqualFold(t.id, u.id) && SameName(t.chain, u.chain)
    && EqualFold(t.fromAddress, u.fromAddress) && EqualFold(t.toAddress, u.toAddress)
  }

  /** The verdict of comparing two transactions, with the given sort. */
  predicate TxEquals(order: Sorter, t: TxValue, u: TxValue)
    requires IsSort(order)
  {
    && SameHeader(t, u) && Compares(order, t.coins, u.coins) && Compares(order, t.gas, u.gas)
    && EqualFold(t.memo, u.memo)
  }

  class Tx {
    var id: string
    var chain: string
    var fromAddress: string
    var toAddress: string
    var coins: seq<Coin>
    var gas: array<Coin>
    var memo: string

    function Value(): TxValue
      reads this, gas
    {
      TxValue(id, chain, fromAddress, toAddress, coins, gas[..], memo)
    }

    constructor (id: string, chain: string, fromAddress: string, toAddress: string, coins: seq<Coin>,
                 gas: array<Coin>, memo: string)
      ensures this.id == id && this.chain == chain && this.fromAddress == fromAddress && this.toAddress == toAddress
      ensures this.coins == coins && this.gas == gas && this.memo == memo
      ensures Value() == TxValue(id, chain, fromAddress, toAddress, coins, gas[..], memo)
    {
      this.id, this.chain, this.fromAddress, this.toAddress := id, chain, fromAddress, toAddress;
      this.coins, this.gas, this.memo := coins, gas, memo;
    }

    /** `EqualsEx`. The gas lists are compared, and thereby sorted in place, only when all before them compared
        equal; `gasCompared` tells whether that happened. */
    method EqualsEx(order: Sorter, tx2: Tx) returns (equal: bool, ghost gasCompared: bool)
      requires IsSort(order)
      modifies gas, tx2.gas
      ensures equal == TxEquals(order, old(Value()), old(tx2.Value()))
      ensures equal ==> EqualFold(id, tx2.id) && SameName(chain, tx2.chain) && EqualFold(memo, tx2.memo)
      ensures equal ==> EqualFold(fromAddress, tx2.fromAddress) && EqualFold(toAddress, tx2.toAddress)
      ensures equal ==> Paired(coins, tx2.coins) && Paired(old(gas[..]), old(tx2.gas[..]))
      ensures gasCompared <==> SameHeader(old(Value()), old(tx2.Value())) && Compares(order, coins, tx2.coins)
      ensures if !gasCompared || gas.Length != tx2.gas.Length
              then gas[..] == old(gas[..]) && tx2.gas[..] == old(tx2.gas[..])
              else if gas == tx2.gas then gas[..] == Arranged(order, Arranged(order, old(gas[..])))
              else gas[..] == Arranged(order, old(gas[..])) && tx2.gas[..] == Arranged(order, old(tx2.gas[..]))
    {
      hide EqualFold, SameName, Compares, Arranged, Paired, IsSort;
      equal, gasCompared := false, false;
      ghost var t, u := Value(), tx2.Value();
      if !EqualFold(id, tx2.id) || !SameName(chain, tx2.chain) {
        return;
      }
      if !EqualFold(fromAddress, tx2.fromAddress) || !EqualFold(toAddress, tx2.toAddress) {
        return;
      }
      var sameCoins := CoinEquality.EqualsEx(order, coins, tx2.coins);
      if !sameCoins {
        return;
      }
      gasCompared := true;
      TrueMeansPaired(order, coins, tx2.coins);
      var sameGas := GasEquals(order, gas, tx2.gas);
      if !sameGas {
        return;
      }
      TrueMeansPaired(order, t.gas, u.gas);
      if !EqualFold(memo, tx2.memo) {
        return;
      }
      equal := true;
    }
  }

  /** Comparing transactions is an equivalence; in particular, a transaction always equals itself. */
  lemma TxEqualsIsEquivalence(order: Sorter, t: TxValue, u: TxValue, v: TxValue)
    requires IsSort(order)
    ensures TxEquals(order, t, t)
    ensures TxEquals(order, t, u) ==> TxEquals(order, u, t)
    ensures TxEquals(order, t, u) && TxEquals(order, u, v) ==> TxEquals(order, t, v)
  {
    hide Compares, IsSort, Fold, Upper;
    ComparesIsEquivalence(order, t.coins, u.coins, v.coins);
    ComparesIsEquivalence(order, t.gas, u.gas, v.gas);
  }

  /** Upper-case ASCII text, as the parts of a normalized transaction are. */
  predicate IsCanonical(s: string) {
    IsUpper(s) && IsAscii(s)
  }

  /** A transaction of such text, with coins of parsed assets, none listed twice. */
  predicate IsNormal(t: TxValue) {
    && IsCanonical(t.id) && IsCanonical(t.chain) && IsCanonical(t.fromAddress) && IsCanonical(t.toAddress)
    && IsCanonical(t.memo) && AllParsed(t.coins) && AllParsed(t.gas)
    && DistinctAssets(t.coins) && DistinctAssets(t.gas)
  }

  lemma CanonicalFold(s: string, t: string)
    requires IsCanonical(s) && IsCanonical(t)
    ensures EqualFold(s, t) <==> s == t
    ensures SameName(s, t) <==> s == t
  {
    UpperAsciiFolds(s);
    UpperAsciiFolds(t);
  }

  /** What the comparison of two such transactions is, field by field: all texts are the same, and coins and gas hold
      the same amounts of the same assets. */
  lemma TxEqualsExactly(order: Sorter, t: TxValue, u: TxValue)
    requires IsSort(order) && IsNormal(t) && IsNormal(u)
    ensures TxEquals(order, t, u)
       <==> && t.id == u.id && t.chain == u.chain && t.fromAddress == u.fromAddress && t.toAddress == u.toAddress
            && t.memo == u.memo
            && multiset(Amounts(t.coins)) == multiset(Amounts(u.coins))
            && multiset(Amounts(t.gas)) == multiset(Amounts(u.gas))
  {
    hide IsSort, Compares, IsCanonical, AllParsed, DistinctAssets, EqualFold, SameName;
    CanonicalFold(t.id, u.id);
    CanonicalFold(t.chain, u.chain);
    CanonicalFold(t.fromAddress, u.fromAddress);
    CanonicalFold(t.toAddress, u.toAddress);
    CanonicalFold(t.memo, u.memo);
    ComparesExactly(order, t.coins, u.coins);
    ComparesExactly(order, t.gas, u.gas);
  }

  /** Two different coins of one key: some sort does not leave both where they are. */
  lemma TieMayMove(before: seq<Coin>, i: nat, j: nat) returns (order: Sorter)
    requires i < j < |before| && Key(before[i]) == Key(before[j]) && before[i] != before[j]
    ensures IsSort(order) && Arranged(order, before) != before
  {
    hide Key, Stable, IsArrangement, IsSort;
    var ks := Keys(before);
    var p := Stable(ks);
    StableArranges(ks);
    ArrangementRange(p, ks);
    order := SorterWith(ks, p);
    if Permuted(p, before) == before {
      assert before[p[i]] == before[i] && before[p[j]] == before[j];
      assert ks[p[i]] == Key(before[i]) && ks[p[j]] == Key(before[j]);
      SwapArrangement(p, ks, i, j);
      ArrangementRange(Swapped(p, i, j), ks);
      assert Permuted(Swapped(p, i, j), before)[i] == before[j];
      order := SorterWith(ks, Swapped(p, i, j));
    }
  }

  predicate TiesIdentical(cs: seq<Coin>) {
    forall i, j :: 0 <= i < j < |cs| && Key(cs[i]) == Key(cs[j]) ==> cs[i] == cs[j]
  }

  /** Every sort leaves the list as it is. */
  ghost predicate AlwaysKept(cs: seq<Coin>) {
    forall order: Sorter :: IsSort(order) ==> Arranged(order, cs) == cs
  }

  /** The comparison changes a gas list that was not in order: the documented promise that it leaves both transactions
      as they were holds, for every sort, exactly for lists that are in order and whose coins of the same text are
      identical. */
  lemma GasIsKeptExactly(before: seq<Coin>)
    ensures AlwaysKept(before) <==> Sorted(KeyLeq, before) && TiesIdentical(before)
  {
    hide Key, Leq, IsSort, Arranged, Sorted;
    if AlwaysKept(before) {
      var order := SomeSorter();
      ArrangedIsSort(order, before);
      forall i, j | 0 <= i < j < |before| && Key(before[i]) == Key(before[j]) ensures before[i] == before[j] {
        if before[i] != before[j] {
          var other := TieMayMove(before, i, j);
        }
      }
    }
    if Sorted(KeyLeq, before) && TiesIdentical(before) {
      forall order: Sorter | IsSort(order) ensures Arranged(order, before) == before {
        ArrangedIsSort(order, before);
        OnlyOneSort(before, Arranged(order, before));
      }
    }
  }

  lemma SomeSorter() returns (order: Sorter)
    ensures IsSort(order)
  {
    StableArranges([]);
    order := SorterWith([], Stable([]));
  }

  lemma OnlyOneSort(before: seq<Coin>, after: seq<Coin>)
    requires Sorted(KeyLeq, before) && SortOfCoins(after, before) && TiesIdentical(before)
    ensures after == before
  {
    hide Key, Leq;
    SameBagLength(after, before);
    KeysOfBag(after, before);
    LeqIsOrder();
    SortIsUnique(Leq, Keys(after), Keys(before));
    forall i | 0 <= i < |before| ensures after[i] == before[i] {
      assert after[i] in multiset(after);
      assert after[i] in multiset(before);
      var j :| 0 <= j < |before| && before[j] == after[i];
      assert Keys(after)[i] == Keys(before)[i];
    }
  }

  /** For example, two gas coins that are out of order always change places. */
  lemma GasOutOfOrderChanges(order: Sorter)
    requires IsSort(order)
    ensures Arranged(order, [Letter('L'), Letter('K')]) == [Letter('K'), Letter('L')]
  {
    hide IsSort, Arranged, SortOfCoins, KeyLeq, Key, Letter;
    LetterOrder('L', 'K');
    ArrangedIsSort(order, [Letter('L'), Letter('K')]);
    TwoCoins(Arranged(order, [Letter('L'), Letter('K')]), Letter('K'), Letter('L'));
  }
}
