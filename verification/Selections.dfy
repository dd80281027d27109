/** Lists of indices, in order, at which a list was read. */
module Selections {

  predicate Increasing(at: seq<nat>) {
    forall i, j :: 0 <= i < j < |at| ==> at[i] < at[j]
  }

  /** The indices in a list with one more element in front, which is selected or not. */
  function Shift(at: seq<nat>, head: bool): (r: seq<nat>)
    ensures Increasing(at) ==> Increasing(r)
  {
    (if head then [0] else []) + seq(|at|, i requires 0 <= i < |at| => at[i] + 1)
  }

  lemma ShiftHas(at: seq<nat>, head: bool, k: nat)
    ensures k in Shift(at, head) <==> if k == 0 then head else k - 1 in at
  {
    var r := Shift(at, head);
    var n := |r| - |at|;
    assert forall i :: n <= i < |r| ==> r[i] == at[i - n] + 1;
    if k == 0 && head {
      assert r[0] == 0;
    }
    if k > 0 && k - 1 in at {
      var i :| 0 <= i < |at| && at[i] == k - 1;
      assert r[n + i] == k;
    }
  }

  predicate Within(at: seq<nat>, n: nat) {
    forall i :: 0 <= i < |at| ==> at[i] < n
  }

  /** The elements at the indices. */
  function Picked<T>(s: seq<T>, at: seq<nat>): (r: seq<T>)
    requires Within(at, |s|)
    ensures |r| == |at| && forall i :: 0 <= i < |at| ==> r[i] == s[at[i]]
  {
    seq(|at|, i requires 0 <= i < |at| => s[at[i]])
  }

  lemma ShiftPicks<T>(s: seq<T>, at: seq<nat>, head: bool)
    requires |s| > 0 && Within(at, |s[1..]|)
    ensures Within(Shift(at, head), |s|)
    ensures Picked(s, Shift(at, head)) == (if head then [s[0]] else []) + Picked(s[1..], at)
  {
    var r := Shift(at, head);
    var n := |r| - |at|;
    assert forall i :: n <= i < |r| ==> r[i] == at[i - n] + 1;
  }
}
