/** Comparing two lists of public keys by sorting copies of both. */
module PubKeyLists {
  import opened Sorting

  /** The key sorted by is all that is compared, so that the comparison is exactly equality of bags, however the sorts
      turn out. */
  method Equals(p: seq<string>, newPks: seq<string>) returns (b: bool)
    ensures b <==> multiset(p) == multiset(newPks)
  {
    hide Leq, Sorted, Order, Preorder;
    if |p| != |newPks| {
      if multiset(p) == multiset(newPks) {
        SameBagLength(p, newPks);
      }
      return false;
    }
    LeqIsOrder();
    OrderIsPreorder(Leq);
    var source := Sort(Leq, p);
    var dest := Sort(Leq, newPks);
    SameBagLength(source, p);
    SameBagLength(dest, newPks);
    if multiset(p) == multiset(newPks) {
      SortIsUnique(Leq, source, dest);
    }
    var i := 0;
    while i < |source|
      invariant 0 <= i <= |source|
      invariant source[..i] == dest[..i]
    {
      if source[i] != dest[i] {
        return false;
      }
      assert source[..i + 1] == source[..i] + [source[i]] && dest[..i + 1] == dest[..i] + [dest[i]];
      i := i + 1;
    }
    assert source == source[..i] && dest == dest[..i];
    return true;
  }

  lemma OrderIsPreorder(leq: (string, string) -> bool)
    requires Order(leq)
    ensures Preorder(leq)
  {
  }
}
