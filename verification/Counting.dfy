/** Weighted counts over the threads of a protocol.  A thread's weight of each kind is a function of
    its own state, so one step of one thread changes a count by the difference of two weights. */
module Counting {

  function Sum<K, T>(w: (K, T) -> nat, k: K, s: seq<T>): nat {
    if s == [] then 0 else w(k, s[0]) + Sum(w, k, s[1..])
  }

  lemma {:induction false} SumUpdate<K, T>(w: (K, T) -> nat, k: K, s: seq<T>, i: nat, x: T)
    requires i < |s|
    ensures Sum(w, k, s[i := x]) == Sum(w, k, s) - w(k, s[i]) + w(k, x)
  {
    if i == 0 {
      assert s[i := x][1..] == s[1..];
    } else {
      SumUpdate(w, k, s[1..], i - 1, x);
      assert s[i := x][1..] == s[1..][i - 1 := x];
    }
  }

  lemma {:induction false} SumCovers<K, T>(w: (K, T) -> nat, k: K, s: seq<T>, i: nat)
    requires i < |s|
    ensures w(k, s[i]) <= Sum(w, k, s)
  {
    if i > 0 {
      SumCovers(w, k, s[1..], i - 1);
    }
  }

  lemma {:induction false} SumWitness<K, T>(w: (K, T) -> nat, k: K, s: seq<T>) returns (i: nat)
    requires Sum(w, k, s) > 0
    ensures i < |s| && w(k, s[i]) > 0
  {
    if w(k, s[0]) > 0 {
      i := 0;
    } else {
      i := SumWitness(w, k, s[1..]);
      i := i + 1;
    }
  }

  lemma {:induction false} SumNone<K, T>(w: (K, T) -> nat, k: K, s: seq<T>)
    requires forall i :: 0 <= i < |s| ==> w(k, s[i]) == 0
    ensures Sum(w, k, s) == 0
  {
    if s != [] {
      SumNone(w, k, s[1..]);
    }
  }

  /** A pointwise bound of one kind by another also bounds what the other threads contribute. */
  lemma {:induction false} SumOthers<K, T>(w: (K, T) -> nat, k: K, l: K, s: seq<T>, i: nat)
    requires i < |s| && forall j :: 0 <= j < |s| ==> w(k, s[j]) <= w(l, s[j])
    ensures Sum(w, k, s) - w(k, s[i]) <= Sum(w, l, s) - w(l, s[i])
  {
    if i > 0 {
      SumOthers(w, k, l, s[1..], i - 1);
    } else if |s| > 1 {
      SumOthers(w, k, l, s[1..], 0);
    }
  }
}
