/** Insertion sort as a function, and why its result is the one stable sorted arrangement. */
module StableSort {

  ghost predicate TotalPreorder<T(!new)>(cmp: (T, T) -> int) {
    && (forall x, y :: cmp(x, y) < 0 <==> cmp(y, x) > 0)
    && forall x, y, z :: cmp(x, y) <= 0 && cmp(y, z) <= 0 ==> cmp(x, z) <= 0
  }

  lemma Flip<T(!new)>(cmp: (T, T) -> int, x: T, y: T)
    requires TotalPreorder(cmp)
    ensures cmp(x, y) < 0 <==> cmp(y, x) > 0
    ensures cmp(x, y) > 0 <==> cmp(y, x) < 0
    ensures cmp(x, x) == 0
  {
  }

  lemma Chain<T(!new)>(cmp: (T, T) -> int, x: T, y: T, z: T)
    requires TotalPreorder(cmp) && cmp(x, y) <= 0 && cmp(y, z) <= 0
    ensures cmp(x, z) <= 0
  {
  }

  ghost predicate Sorted<T>(cmp: (T, T) -> int, s: seq<T>) {
    forall i, j :: 0 <= i < j < |s| ==> cmp(s[i], s[j]) <= 0
  }

  /** x goes behind the last item that is not greater. */
  function Insert<T>(cmp: (T, T) -> int, s: seq<T>, x: T): seq<T> {
    if s == [] || cmp(s[|s| - 1], x) <= 0 then s + [x]
    else Insert(cmp, s[..|s| - 1], x) + [s[|s| - 1]]
  }

  function InsertionSort<T>(cmp: (T, T) -> int, s: seq<T>): seq<T> {
    if s == [] then [] else Insert(cmp, InsertionSort(cmp, s[..|s| - 1]), s[|s| - 1])
  }

  /** The items equivalent to x, in their order. */
  function Class<T>(cmp: (T, T) -> int, s: seq<T>, x: T): seq<T> {
    if s == [] then []
    else Class(cmp, s[..|s| - 1], x) + if cmp(s[|s| - 1], x) == 0 then [s[|s| - 1]] else []
  }

  lemma {:induction false} InsertAdds<T>(cmp: (T, T) -> int, s: seq<T>, x: T)
    ensures multiset(Insert(cmp, s, x)) == multiset(s) + multiset{x}
    ensures |Insert(cmp, s, x)| == |s| + 1
  {
    if s != [] && cmp(s[|s| - 1], x) > 0 {
      InsertAdds(cmp, s[..|s| - 1], x);
      assert s == s[..|s| - 1] + [s[|s| - 1]];
    }
  }

  lemma SortedExtends<T>(cmp: (T, T) -> int, s: seq<T>, x: T)
    requires Sorted(cmp, s) && forall i :: 0 <= i < |s| ==> cmp(s[i], x) <= 0
    ensures Sorted(cmp, s + [x])
  {
  }

  /** The items of a sorted sequence do not exceed an item its last one does not exceed. */
  lemma LastBounds<T(!new)>(cmp: (T, T) -> int, s: seq<T>, x: T)
    requires TotalPreorder(cmp) && Sorted(cmp, s) && s != [] && cmp(s[|s| - 1], x) <= 0
    ensures forall i :: 0 <= i < |s| ==> cmp(s[i], x) <= 0
  {
    hide TotalPreorder;
    forall i | 0 <= i < |s| - 1
      ensures cmp(s[i], x) <= 0
    {
      Chain(cmp, s[i], s[|s| - 1], x);
    }
  }

  lemma {:induction false} InsertKeepsSorted<T(!new)>(cmp: (T, T) -> int, s: seq<T>, x: T)
    requires TotalPreorder(cmp) && Sorted(cmp, s)
    ensures Sorted(cmp, Insert(cmp, s, x))
  {
    hide TotalPreorder;
    if s == [] {
      SortedExtends(cmp, s, x);
    } else if cmp(s[|s| - 1], x) <= 0 {
      LastBounds(cmp, s, x);
      SortedExtends(cmp, s, x);
    } else {
      var t, last := s[..|s| - 1], s[|s| - 1];
      InsertKeepsSorted(cmp, t, x);
      InsertAdds(cmp, t, x);
      Flip(cmp, last, x);
      var u := Insert(cmp, t, x);
      forall i | 0 <= i < |u|
        ensures cmp(u[i], last) <= 0
      {
        assert u[i] in multiset(u);
      }
      SortedExtends(cmp, u, last);
    }
  }

  lemma {:induction false} InsertKeepsClass<T(!new)>(cmp: (T, T) -> int, s: seq<T>, x: T, z: T)
    requires TotalPreorder(cmp)
    ensures Class(cmp, Insert(cmp, s, x), z) == Class(cmp, s + [x], z)
  {
    hide TotalPreorder;
    if s != [] && cmp(s[|s| - 1], x) > 0 {
      var t, last := s[..|s| - 1], s[|s| - 1];
      InsertKeepsClass(cmp, t, x, z);
      var r := Insert(cmp, t, x) + [last];
      assert r[..|r| - 1] == Insert(cmp, t, x);
      assert (t + [x])[..|t|] == t && (s + [x])[..|s|] == s;
      DifferentClasses(cmp, last, x, z);
    }
  }

  /** Items of different ranks are not both equivalent to a third. */
  lemma DifferentClasses<T(!new)>(cmp: (T, T) -> int, a: T, b: T, z: T)
    requires TotalPreorder(cmp) && cmp(a, b) > 0
    ensures !(cmp(a, z) == 0 && cmp(b, z) == 0)
  {
    hide TotalPreorder;
    Flip(cmp, b, z);
    if cmp(a, z) == 0 && cmp(b, z) == 0 {
      Chain(cmp, a, z, b);
      assert false;
    }
  }

  lemma NothingIsSorted<T>(cmp: (T, T) -> int, s: seq<T>)
    requires s == []
    ensures Sorted(cmp, s)
  {
  }

  /** For a total preorder the result is a sorted permutation that keeps the order of equivalent items. */
  lemma {:induction false} SortIsStable<T(!new)>(cmp: (T, T) -> int, s: seq<T>)
    requires TotalPreorder(cmp)
    ensures Sorted(cmp, InsertionSort(cmp, s)) && multiset(InsertionSort(cmp, s)) == multiset(s)
    ensures forall z :: Class(cmp, InsertionSort(cmp, s), z) == Class(cmp, s, z)
  {
    hide TotalPreorder, Sorted, Insert;
    if s == [] {
      assert Sorted(cmp, s) by { NothingIsSorted(cmp, s); }
    } else {
      var t, x := s[..|s| - 1], s[|s| - 1];
      SortIsStable(cmp, t);
      InsertKeepsSorted(cmp, InsertionSort(cmp, t), x);
      InsertAdds(cmp, InsertionSort(cmp, t), x);
      assert s == t + [x];
      forall z
        ensures Class(cmp, InsertionSort(cmp, s), z) == Class(cmp, s, z)
      {
        InsertKeepsClass(cmp, InsertionSort(cmp, t), x, z);
        var u := InsertionSort(cmp, t) + [x];
        assert u[..|u| - 1] == InsertionSort(cmp, t);
      }
    }
  }

  // ------------------------------------------------------------ uniqueness

  lemma {:induction false} ClassHas<T>(cmp: (T, T) -> int, s: seq<T>, x: T, i: nat)
    requires i < |s| && cmp(s[i], x) == 0
    ensures Class(cmp, s, x) != []
  {
    if i < |s| - 1 {
      ClassHas(cmp, s[..|s| - 1], x, i);
    }
  }

  lemma {:induction false} ClassItem<T>(cmp: (T, T) -> int, s: seq<T>, x: T) returns (i: nat)
    requires Class(cmp, s, x) != []
    ensures i < |s| && cmp(s[i], x) == 0
  {
    if cmp(s[|s| - 1], x) == 0 {
      i := |s| - 1;
    } else {
      i := ClassItem(cmp, s[..|s| - 1], x);
    }
  }

  lemma ClassLast<T>(cmp: (T, T) -> int, s: seq<T>, x: T)
    requires s != [] && cmp(s[|s| - 1], x) == 0
    ensures var c := Class(cmp, s, x); c != [] && c[|c| - 1] == s[|s| - 1]
  {
  }

  /** The last item of a sorted sequence is no less than any item whose class it holds. */
  lemma LastIsNoLess<T(!new)>(cmp: (T, T) -> int, s: seq<T>, x: T)
    requires TotalPreorder(cmp) && Sorted(cmp, s) && Class(cmp, s, x) != []
    ensures s != [] && cmp(x, s[|s| - 1]) <= 0
  {
    hide TotalPreorder, Class;
    var i := ClassItem(cmp, s, x);
    Flip(cmp, s[i], x);
    Flip(cmp, s[i], s[i]);
    assert i == |s| - 1 || cmp(s[i], s[|s| - 1]) <= 0;
    Chain(cmp, x, s[i], s[|s| - 1]);
  }

  /** The last items of two sorted arrangements of the same classes agree. */
  lemma LastAgrees<T(!new)>(cmp: (T, T) -> int, a: seq<T>, b: seq<T>)
    requires TotalPreorder(cmp) && Sorted(cmp, a) && Sorted(cmp, b) && a != []
    requires forall z :: Class(cmp, a, z) == Class(cmp, b, z)
    ensures b != [] && a[|a| - 1] == b[|b| - 1]
  {
    hide TotalPreorder, Class, Sorted;
    var x := a[|a| - 1];
    Flip(cmp, x, x);
    ClassLast(cmp, a, x);
    LastIsNoLess(cmp, b, x);
    var y := b[|b| - 1];
    Flip(cmp, y, y);
    ClassLast(cmp, b, y);
    LastIsNoLess(cmp, a, y);
    Flip(cmp, x, y);
    ClassLast(cmp, b, x);
  }

  /** There is only one stable sorted arrangement. */
  lemma {:induction false} StableSortIsUnique<T(!new)>(cmp: (T, T) -> int, a: seq<T>, b: seq<T>)
    requires TotalPreorder(cmp) && Sorted(cmp, a) && Sorted(cmp, b)
    requires forall z :: Class(cmp, a, z) == Class(cmp, b, z)
    ensures a == b
    decreases |a|
  {
    hide TotalPreorder;
    if a == [] {
      if b != [] {
        LastAgrees(cmp, b, a);
      }
    } else {
      LastAgrees(cmp, a, b);
      var a', b', x := a[..|a| - 1], b[..|b| - 1], a[|a| - 1];
      forall z
        ensures Class(cmp, a', z) == Class(cmp, b', z)
      {
        assert Class(cmp, a, z) == Class(cmp, b, z);
        SameFront(Class(cmp, a', z), Class(cmp, b', z), if cmp(x, z) == 0 then [x] else []);
      }
      StableSortIsUnique(cmp, a', b');
      assert a == a' + [x] && b == b' + [x];
    }
  }

  lemma SameFront<T>(p: seq<T>, q: seq<T>, r: seq<T>)
    requires p + r == q + r
    ensures p == q
  {
    assert |p| == |q|;
    forall i | 0 <= i < |p|
      ensures p[i] == q[i]
    {
      assert (p + r)[i] == (q + r)[i];
    }
  }
}
