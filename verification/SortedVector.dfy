/** Sorted vectors as sets ordered by a comparison: binary search, adding, merging. */
module SortedVector {
  import opened StableSort
  import opened VectorImpl
  import opened Wrappers

  ghost predicate Increasing<T>(cmp: (T, T) -> int, s: seq<T>) {
    forall i, j :: 0 <= i < j < |s| ==> cmp(s[i], s[j]) < 0
  }

  /** The number of leading items that are less than x. */
  function LowerBound<T>(cmp: (T, T) -> int, s: seq<T>, x: T): (p: nat)
    ensures p <= |s|
  {
    if s == [] || cmp(s[0], x) >= 0 then 0 else 1 + LowerBound(cmp, s[1..], x)
  }

  /** Adding replaces the equivalent item, if there is one. */
  function AddTo<T>(cmp: (T, T) -> int, s: seq<T>, x: T): seq<T> {
    var p := LowerBound(cmp, s, x);
    if p < |s| && cmp(s[p], x) == 0 then s[p := x] else Spliced(s, p, [x])
  }

  function AddAll<T>(cmp: (T, T) -> int, s: seq<T>, xs: seq<T>): seq<T>
    decreases |xs|
  {
    if xs == [] then s else AddAll(cmp, AddTo(cmp, s, xs[0]), xs[1..])
  }

  // ------------------------------------------------------------ order

  lemma Less<T(!new)>(cmp: (T, T) -> int, x: T, y: T, z: T)
    requires TotalPreorder(cmp)
    requires cmp(x, y) <= 0 && cmp(y, z) <= 0 && (cmp(x, y) < 0 || cmp(y, z) < 0)
    ensures cmp(x, z) < 0
  {
    hide TotalPreorder;
    Chain(cmp, x, y, z);
    Flip(cmp, x, y);
    Flip(cmp, y, z);
    Flip(cmp, x, z);
    if cmp(x, z) == 0 {
      Chain(cmp, y, z, x);
      Chain(cmp, z, x, y);
      assert false;
    }
  }

  /** Where the order of the items places x. */
  lemma {:induction false} LowerBoundIs<T(!new)>(cmp: (T, T) -> int, s: seq<T>, x: T)
    requires TotalPreorder(cmp) && Increasing(cmp, s)
    ensures var p := LowerBound(cmp, s, x);
      && (forall i :: 0 <= i < p ==> cmp(s[i], x) < 0)
      && (p < |s| ==> cmp(s[p], x) >= 0)
      && (forall i :: p < i < |s| ==> cmp(s[i], x) > 0)
  {
    hide TotalPreorder;
    if s != [] {
      if cmp(s[0], x) >= 0 {
        forall i | 0 < i < |s|
          ensures cmp(s[i], x) > 0
        {
          Flip(cmp, s[0], x);
          Flip(cmp, s[i], x);
          Less(cmp, x, s[0], s[i]);
        }
      } else {
        LowerBoundIs(cmp, s[1..], x);
        var p := LowerBound(cmp, s[1..], x);
        forall i | 0 < i < p + 1
          ensures cmp(s[i], x) < 0
        {
          assert s[i] == s[1..][i - 1];
        }
        forall i | p + 1 < i < |s|
          ensures cmp(s[i], x) > 0
        {
          assert s[i] == s[1..][i - 1];
        }
      }
    }
  }

  lemma LowerBoundUnique<T(!new)>(cmp: (T, T) -> int, s: seq<T>, x: T, p: nat)
    requires TotalPreorder(cmp) && Increasing(cmp, s) && p <= |s|
    requires forall i :: 0 <= i < p ==> cmp(s[i], x) < 0
    requires p < |s| ==> cmp(s[p], x) >= 0
    ensures LowerBound(cmp, s, x) == p
  {
    hide TotalPreorder, LowerBound;
    LowerBoundIs(cmp, s, x);
    var q := LowerBound(cmp, s, x);
    if q != p {
      assert false;
    }
  }

  lemma AddKeepsIncreasing<T(!new)>(cmp: (T, T) -> int, s: seq<T>, x: T)
    requires TotalPreorder(cmp) && Increasing(cmp, s)
    ensures Increasing(cmp, AddTo(cmp, s, x))
  {
    hide TotalPreorder, LowerBound;
    LowerBoundIs(cmp, s, x);
    var p := LowerBound(cmp, s, x);
    var r := AddTo(cmp, s, x);
    forall i | p <= i < |s| && cmp(s[i], x) > 0
      ensures cmp(x, s[i]) < 0
    {
      Flip(cmp, x, s[i]);
    }
  }

  /** The result holds x, and every old item that is not equivalent to it. */
  lemma AddHolds<T(!new)>(cmp: (T, T) -> int, s: seq<T>, x: T, y: T)
    requires TotalPreorder(cmp) && Increasing(cmp, s)
    ensures y in AddTo(cmp, s, x) <==> y == x || (y in s && cmp(y, x) != 0)
  {
    hide TotalPreorder, LowerBound;
    Flip(cmp, x, x);
    LowerBoundIs(cmp, s, x);
    var p := LowerBound(cmp, s, x);
    var r := AddTo(cmp, s, x);
    if y in r && y != x {
      var i :| 0 <= i < |r| && r[i] == y;
      if |r| == |s| {
        assert s[i] == y;
      } else if i < p {
        assert s[i] == y;
      } else {
        assert s[i - 1] == y;
      }
    }
    if y in s && cmp(y, x) != 0 {
      var i :| 0 <= i < |s| && s[i] == y;
      assert |r| == |s| ==> r[i] == y;
      assert |r| != |s| && i < p ==> r[i] == y;
      assert |r| != |s| && i >= p ==> r[i + 1] == y;
    }
    assert r[p] == x;
  }

  /** An increasing sequence is determined by the set of its items. */
  lemma {:induction false} IncreasingIsUnique<T(!new)>(cmp: (T, T) -> int, a: seq<T>, b: seq<T>)
    requires TotalPreorder(cmp) && Increasing(cmp, a) && Increasing(cmp, b)
    requires forall y :: y in a <==> y in b
    ensures a == b
  {
    hide TotalPreorder;
    if b != [] {
      assert b[0] in a;
    }
    if a != [] {
      assert a[0] in b;
      var i :| 0 <= i < |b| && b[i] == a[0];
      var j :| 0 <= j < |a| && a[j] == b[0];
      Flip(cmp, a[0], b[0]);
      assert i == 0;
      forall y
        ensures y in a[1..] <==> y in b[1..]
      {
        TailHas(cmp, a, y);
        TailHas(cmp, b, y);
      }
      IncreasingIsUnique(cmp, a[1..], b[1..]);
    }
  }

  lemma TailHas<T(!new)>(cmp: (T, T) -> int, s: seq<T>, y: T)
    requires TotalPreorder(cmp) && Increasing(cmp, s) && s != []
    ensures y in s[1..] <==> y in s && y != s[0]
  {
    hide TotalPreorder;
    Flip(cmp, s[0], s[0]);
  }

  // ------------------------------------------------------------ merging

  /** The merge of a non-empty receiver s with a sorted vector xs, with its two fast paths. */
  function Merged<T>(cmp: (T, T) -> int, s: seq<T>, xs: seq<T>): seq<T>
    requires s != [] || xs == []
  {
    if xs == [] then s
    else if cmp(xs[|xs| - 1], s[0]) <= 0 then xs + s
    else if cmp(xs[0], s[|s| - 1]) >= 0 then s + xs
    else AddAll(cmp, s, xs)
  }

  predicate Tied<T>(cmp: (T, T) -> int, s: seq<T>, xs: seq<T>)
    requires s != [] && xs != []
  {
    cmp(xs[|xs| - 1], s[0]) == 0 || cmp(xs[0], s[|s| - 1]) == 0
  }

  lemma {:induction false} AddAllKeepsIncreasing<T(!new)>(cmp: (T, T) -> int, s: seq<T>, xs: seq<T>)
    requires TotalPreorder(cmp) && Increasing(cmp, s)
    ensures Increasing(cmp, AddAll(cmp, s, xs))
    decreases |xs|
  {
    hide TotalPreorder, AddTo, Increasing;
    if xs != [] {
      AddKeepsIncreasing(cmp, s, xs[0]);
      AddAllKeepsIncreasing(cmp, AddTo(cmp, s, xs[0]), xs[1..]);
    }
  }

  /** No item of xs is equivalent to y. */
  predicate NoneLike<T>(cmp: (T, T) -> int, xs: seq<T>, y: T) { forall i :: 0 <= i < |xs| ==> cmp(y, xs[i]) != 0 }

  /** y is an item of xs with no equivalent one behind it. */
  predicate LastLike<T(==)>(cmp: (T, T) -> int, xs: seq<T>, y: T) {
    exists i :: 0 <= i < |xs| && xs[i] == y && NoneLike(cmp, xs[i + 1..], y)
  }

  lemma LastLikeStep<T>(cmp: (T, T) -> int, xs: seq<T>, y: T)
    requires xs != []
    ensures LastLike(cmp, xs, y) <==> LastLike(cmp, xs[1..], y) || (xs[0] == y && NoneLike(cmp, xs[1..], y))
    ensures NoneLike(cmp, xs, y) <==> cmp(y, xs[0]) != 0 && NoneLike(cmp, xs[1..], y)
  {
    hide NoneLike;
    if i :| 0 <= i < |xs| && xs[i] == y && NoneLike(cmp, xs[i + 1..], y) {
      if i > 0 {
        assert xs[1..][i - 1] == y && xs[1..][i..] == xs[i + 1..];
      }
    }
    if i :| 0 <= i < |xs[1..]| && xs[1..][i] == y && NoneLike(cmp, xs[1..][i + 1..], y) {
      assert xs[i + 1] == y && xs[i + 2..] == xs[1..][i + 1..];
    }
    if xs[0] == y && NoneLike(cmp, xs[1..], y) {
      assert xs[0 + 1..] == xs[1..];
    }
    assert NoneLike(cmp, xs, y) <==> cmp(y, xs[0]) != 0 && NoneLike(cmp, xs[1..], y) by { NoneLikeStep(cmp, xs, y); }
  }

  lemma NoneLikeStep<T>(cmp: (T, T) -> int, xs: seq<T>, y: T)
    requires xs != []
    ensures NoneLike(cmp, xs, y) <==> cmp(y, xs[0]) != 0 && NoneLike(cmp, xs[1..], y)
  {
    forall i | 0 <= i < |xs| && cmp(y, xs[0]) != 0 && NoneLike(cmp, xs[1..], y)
      ensures cmp(y, xs[i]) != 0
    {
      assert i == 0 || xs[i] == xs[1..][i - 1];
    }
    forall i | 0 <= i < |xs[1..]| && NoneLike(cmp, xs, y)
      ensures cmp(y, xs[1..][i]) != 0
    {
      assert xs[1..][i] == xs[i + 1];
    }
  }

  /** Adding all of xs leaves the last of each kind in xs, and the old items that are like none of them: a later
      item replaces an earlier equivalent one.  With AddAllKeepsIncreasing this determines the result. */
  lemma {:induction false} AddAllHolds<T(!new)>(cmp: (T, T) -> int, s: seq<T>, xs: seq<T>, y: T)
    requires TotalPreorder(cmp) && Increasing(cmp, s)
    ensures y in AddAll(cmp, s, xs) <==> LastLike(cmp, xs, y) || (y in s && NoneLike(cmp, xs, y))
    decreases |xs|
  {
    hide TotalPreorder, AddTo, Increasing, NoneLike, LastLike;
    if xs == [] {
      NothingLike(cmp, xs, y);
    } else {
      var s' := AddTo(cmp, s, xs[0]);
      AddKeepsIncreasing(cmp, s, xs[0]);
      AddHolds(cmp, s, xs[0], y);
      AddAllHolds(cmp, s', xs[1..], y);
      LastLikeStep(cmp, xs, y);
    }
  }

  lemma NothingLike<T>(cmp: (T, T) -> int, xs: seq<T>, y: T)
    requires xs == []
    ensures !LastLike(cmp, xs, y) && NoneLike(cmp, xs, y)
  {
  }

  /** There is only one increasing sequence of those items. */
  lemma AddAllIsUnique<T(!new)>(cmp: (T, T) -> int, s: seq<T>, xs: seq<T>, r: seq<T>)
    requires TotalPreorder(cmp) && Increasing(cmp, s) && Increasing(cmp, r)
    requires forall y :: y in r <==> LastLike(cmp, xs, y) || (y in s && NoneLike(cmp, xs, y))
    ensures r == AddAll(cmp, s, xs)
  {
    hide TotalPreorder, AddTo, AddAll, Increasing, NoneLike, LastLike;
    AddAllKeepsIncreasing(cmp, s, xs);
    forall y
      ensures y in r <==> y in AddAll(cmp, s, xs)
    {
      AddAllHolds(cmp, s, xs, y);
    }
    IncreasingIsUnique(cmp, r, AddAll(cmp, s, xs));
  }

  lemma AddAt<T(!new)>(cmp: (T, T) -> int, p: seq<T>, x: T, s: seq<T>)
    requires TotalPreorder(cmp) && Increasing(cmp, p + [x] + s)
    ensures AddTo(cmp, p + s, x) == p + [x] + s
  {
    hide TotalPreorder, LowerBound;
    var r, t := p + [x] + s, p + s;
    forall i, j | 0 <= i < j < |t|
      ensures cmp(t[i], t[j]) < 0
    {
      var i' := if i < |p| then i else i + 1;
      var j' := if j < |p| then j else j + 1;
      assert r[i'] == t[i] && r[j'] == t[j];
    }
    forall i | 0 <= i < |p|
      ensures cmp(t[i], x) < 0
    {
      assert r[i] == t[i] && r[|p|] == x;
    }
    if s != [] {
      assert r[|p|] == x && r[|p| + 1] == s[0];
      Flip(cmp, x, s[0]);
    }
    LowerBoundUnique(cmp, t, x, |p|);
  }

  /** Adding xs one by one between p and s, where they belong. */
  lemma {:induction false} AddBetween<T(!new)>(cmp: (T, T) -> int, p: seq<T>, xs: seq<T>, s: seq<T>)
    requires TotalPreorder(cmp) && Increasing(cmp, p + xs + s)
    ensures AddAll(cmp, p + s, xs) == p + xs + s
    decreases |xs|
  {
    hide TotalPreorder, AddTo;
    var r := p + xs + s;
    if xs == [] {
      assert p + xs + s == p + s;
    } else {
      var t := p + [xs[0]] + s;
      forall i, j | 0 <= i < j < |t|
        ensures cmp(t[i], t[j]) < 0
      {
        var i' := if i <= |p| then i else i + |xs| - 1;
        var j' := if j <= |p| then j else j + |xs| - 1;
        assert r[i'] == t[i] && r[j'] == t[j];
      }
      AddAt(cmp, p, xs[0], s);
      assert p + [xs[0]] + xs[1..] + s == r;
      AddBetween(cmp, p + [xs[0]], xs[1..], s);
    }
  }

  /** Two increasing sequences whose ends are in order form one. */
  lemma Joined<T(!new)>(cmp: (T, T) -> int, a: seq<T>, b: seq<T>)
    requires TotalPreorder(cmp) && Increasing(cmp, a) && Increasing(cmp, b) && a != [] && b != []
    requires cmp(a[|a| - 1], b[0]) < 0
    ensures Increasing(cmp, a + b)
  {
    hide TotalPreorder;
    forall i, j | 0 <= i < |a| && 0 <= j < |b|
      ensures cmp(a[i], b[j]) < 0
    {
      Flip(cmp, b[j], b[j]);
      if j > 0 {
        Less(cmp, a[|a| - 1], b[0], b[j]);
      }
      if i < |a| - 1 {
        Less(cmp, a[i], a[|a| - 1], b[j]);
      }
    }
  }

  lemma TieIsNotIncreasing<T>(cmp: (T, T) -> int, a: seq<T>, b: seq<T>)
    requires a != [] && b != [] && cmp(a[|a| - 1], b[0]) == 0
    ensures !Increasing(cmp, a + b)
  {
    var r := a + b;
    assert r[|a| - 1] == a[|a| - 1] && r[|a|] == b[0];
  }

  lemma EndsInOrder<T(!new)>(cmp: (T, T) -> int, s: seq<T>)
    requires TotalPreorder(cmp) && Increasing(cmp, s) && s != []
    ensures cmp(s[0], s[|s| - 1]) <= 0
  {
    hide TotalPreorder;
    Flip(cmp, s[0], s[0]);
  }

  lemma AddInFront<T(!new)>(cmp: (T, T) -> int, s: seq<T>, xs: seq<T>)
    requires TotalPreorder(cmp) && Increasing(cmp, s) && Increasing(cmp, xs) && s != [] && xs != []
    requires cmp(xs[|xs| - 1], s[0]) < 0
    ensures AddAll(cmp, s, xs) == xs + s && cmp(xs[0], s[|s| - 1]) < 0
  {
    hide TotalPreorder, AddAll, Increasing;
    Joined(cmp, xs, s);
    assert [] + xs + s == xs + s && [] + s == s;
    AddBetween(cmp, [], xs, s);
    EndsInOrder(cmp, s);
    EndsInOrder(cmp, xs);
    Less(cmp, xs[0], xs[|xs| - 1], s[0]);
    Less(cmp, xs[0], s[0], s[|s| - 1]);
  }

  lemma AddBehind<T(!new)>(cmp: (T, T) -> int, s: seq<T>, xs: seq<T>)
    requires TotalPreorder(cmp) && Increasing(cmp, s) && Increasing(cmp, xs) && s != [] && xs != []
    requires cmp(xs[0], s[|s| - 1]) > 0
    ensures AddAll(cmp, s, xs) == s + xs
  {
    hide TotalPreorder, AddAll, Increasing;
    Flip(cmp, xs[0], s[|s| - 1]);
    Joined(cmp, s, xs);
    assert s + xs + [] == s + xs && s + [] == s;
    AddBetween(cmp, s, xs, []);
  }

  /** The fast paths agree with adding one by one exactly when the ends do not tie. */
  lemma MergeAgreesUnlessTied<T(!new)>(cmp: (T, T) -> int, s: seq<T>, xs: seq<T>)
    requires TotalPreorder(cmp) && Increasing(cmp, s) && Increasing(cmp, xs) && s != [] && xs != []
    ensures Merged(cmp, s, xs) == AddAll(cmp, s, xs) <==> !Tied(cmp, s, xs)
  {
    hide TotalPreorder, AddAll, Increasing;
    AddAllKeepsIncreasing(cmp, s, xs);
    if cmp(xs[|xs| - 1], s[0]) < 0 {
      AddInFront(cmp, s, xs);
    } else if cmp(xs[|xs| - 1], s[0]) == 0 {
      TieIsNotIncreasing(cmp, xs, s);
    } else if cmp(xs[0], s[|s| - 1]) > 0 {
      AddBehind(cmp, s, xs);
    } else if cmp(xs[0], s[|s| - 1]) == 0 {
      Flip(cmp, xs[0], s[|s| - 1]);
      TieIsNotIncreasing(cmp, s, xs);
    }
  }

  /** Where the ends tie, the merge holds all items of both, still in order. */
  lemma TiedMergeKeepsAll<T(!new)>(cmp: (T, T) -> int, s: seq<T>, xs: seq<T>)
    requires TotalPreorder(cmp) && Increasing(cmp, s) && Increasing(cmp, xs) && s != [] && xs != [] && Tied(cmp, s, xs)
    ensures multiset(Merged(cmp, s, xs)) == multiset(s) + multiset(xs)
    ensures Sorted(cmp, Merged(cmp, s, xs))
  {
    hide TotalPreorder, AddAll, Sorted, Increasing;
    if cmp(xs[|xs| - 1], s[0]) <= 0 {
      SortedTogether(cmp, xs, s);
    } else {
      Flip(cmp, xs[0], s[|s| - 1]);
      SortedTogether(cmp, s, xs);
    }
  }

  lemma SortedTogether<T(!new)>(cmp: (T, T) -> int, a: seq<T>, b: seq<T>)
    requires TotalPreorder(cmp) && Increasing(cmp, a) && Increasing(cmp, b) && a != [] && b != []
    requires cmp(a[|a| - 1], b[0]) <= 0
    ensures Sorted(cmp, a + b)
  {
    hide TotalPreorder;
    forall i, j | 0 <= i < |a| && 0 <= j < |b|
      ensures cmp(a[i], b[j]) <= 0
    {
      Flip(cmp, a[i], a[i]);
      Flip(cmp, b[j], b[j]);
      assert i == |a| - 1 || cmp(a[i], a[|a| - 1]) < 0;
      assert j == 0 || cmp(b[0], b[j]) < 0;
      Flip(cmp, a[|a| - 1], a[|a| - 1]);
      Chain(cmp, a[i], a[|a| - 1], b[0]);
      Chain(cmp, a[i], b[0], b[j]);
    }
  }

  // ------------------------------------------------------------ the operations

  /** _indexOrderOf: the index of an equivalent item, or -1, and the place where one belongs. */
  method IndexOrderOf<T(!new)>(v: Vector<T>, item: T, cmp: (T, T) -> int) returns (index: int, order: nat)
    requires v.Valid() && TotalPreorder(cmp) && Increasing(cmp, v.Items())
    ensures order == LowerBound(cmp, v.Items(), item)
    ensures index == if order < |v.Items()| && cmp(v.Items()[order], item) == 0 then order else -1
  {
    hide TotalPreorder, Holds, Values, LowerBound;
    ghost var s := v.Items();
    v.ItemCount();
    if v.mStorage != null {
      v.ItemsAt();
    }
    LowerBoundIs(cmp, s, item);
    ghost var p := LowerBound(cmp, s, item);
    index := -1;
    var l: int, h: int := 0, v.mCount - 1;
    while l <= h
      invariant 0 <= l <= p <= h + 1 <= |s|
      invariant p < |s| && cmp(s[p], item) == 0 ==> p <= h
    {
      var mid := l + (h - l) / 2;
      var c := cmp(v.mStorage.data[mid].value, item);
      if c == 0 {
        return mid, mid;
      } else if c < 0 {
        l := mid + 1;
      } else {
        h := mid - 1;
      }
    }
    order := l;
  }

  method Add<T(!new)>(v: Vector<T>, ghost world: set<Vector<T>>, item: T, cmp: (T, T) -> int)
    returns (status: Status)
    requires Coherent(world) && v in world && TotalPreorder(cmp) && Increasing(cmp, v.Items())
    modifies v, v.mStorage, if v.mStorage == null then {} else {v.mStorage.data}
    ensures Coherent(world) && v.Items() == AddTo(cmp, old(v.Items()), item) && status.At?
    ensures v.mStorage != null && v.mStorage.mRefs == 1
    ensures v.mStorage == old(v.mStorage) || (fresh(v.mStorage) && fresh(v.mStorage.data))
    ensures old(v.mStorage) != null && old(v.mStorage.mRefs) == 1 && |v.Items()| == |old(v.Items())| ==>
      v.mStorage == old(v.mStorage)
    ensures forall u :: u in world && u != v ==> u.Items() == old(u.Items())
  {
    hide TotalPreorder, Linked, Holds, Values, LowerBound, Spliced;
    v.ItemCount();
    var index, order := IndexOrderOf(v, item, cmp);
    if index < 0 {
      ghost var copied;
      status, copied := v.InsertAt(world, item, order);
    } else {
      status := v.ReplaceAt(world, item, index);
    }
  }

  /** A vector other than v, or v itself if nobody shares its buffer, that keeps the items of the other one. */
  lemma Keeper<T>(world: set<Vector<T>>, v: Vector<T>, other: Vector<T>) returns (keeper: Vector<T>)
    requires Coherent(world) && v in world && other in world && other.mStorage != null
    ensures keeper in world && keeper.mStorage == other.mStorage && keeper.mCount == other.mCount
    ensures keeper.Items() == other.Items() && (keeper == v ==> v == other && v.mStorage.mRefs == 1)
  {
    hide Values, Holds, Linked;
    if v == other && v.mStorage.mRefs > 1 {
      keeper := v.Sharer(world);
    } else {
      keeper := other;
    }
  }

  /** merge with any vector, also with itself: its items are added one by one. */
  method MergeItems<T(!new)>(v: Vector<T>, ghost world: set<Vector<T>>, other: Vector<T>, cmp: (T, T) -> int)
    requires Coherent(world) && v in world && other in world
    requires TotalPreorder(cmp) && Increasing(cmp, v.Items())
    modifies v, v.mStorage, if v.mStorage == null then {} else {v.mStorage.data}
    ensures Coherent(world) && v.Items() == AddAll(cmp, old(v.Items()), old(other.Items()))
    ensures forall u :: u in world && u != v ==> u.Items() == old(u.Items())
  {
    hide TotalPreorder, Linked, Holds, Values, AddTo, Increasing;
    ghost var s, xs := v.Items(), other.Items();
    other.ItemCount();
    if other.mCount != 0 {
      other.CountHasStorage();
      var buffer, n := other.mStorage, other.mCount;
      ghost var keeper := Keeper(world, v, other);
      var i := 0;
      assert xs[0..] == xs;
      while i < n
        invariant Coherent(world) && Increasing(cmp, v.Items()) && 0 <= i <= n
        invariant keeper in world && keeper.mStorage == buffer && keeper.mCount == n && keeper.Items() == xs
        invariant keeper == v ==> buffer.mRefs == 1
        invariant v == other ==> v.Items() == s
        invariant AddAll(cmp, v.Items(), xs[i..]) == AddAll(cmp, s, xs)
        invariant v.mStorage == old(v.mStorage) || (v.mStorage != null && fresh(v.mStorage) && fresh(v.mStorage.data))
        invariant forall u :: u in world && u != v ==> u.Items() == old(u.Items())
      {
        keeper.ItemsAt();
        AddKeepsIncreasing(cmp, v.Items(), xs[i]);
        if v == other {
          AddOwn(cmp, s, i);
        }
        assert xs[i..][1..] == xs[i + 1..];
        var status := Add(v, world, buffer.data[i].value, cmp);
        i := i + 1;
      }
    }
  }

  /** Adding an item of an increasing sequence again changes nothing. */
  lemma AddOwn<T(!new)>(cmp: (T, T) -> int, s: seq<T>, i: nat)
    requires TotalPreorder(cmp) && Increasing(cmp, s) && i < |s|
    ensures AddTo(cmp, s, s[i]) == s
  {
    hide TotalPreorder, LowerBound;
    Flip(cmp, s[i], s[i]);
    LowerBoundUnique(cmp, s, s[i], i);
  }

  lemma {:induction false} AddAllOwn<T(!new)>(cmp: (T, T) -> int, s: seq<T>, i: nat)
    requires TotalPreorder(cmp) && Increasing(cmp, s) && i <= |s|
    ensures AddAll(cmp, s, s[i..]) == s
    decreases |s| - i
  {
    hide TotalPreorder, LowerBound, AddTo;
    if i < |s| {
      AddOwn(cmp, s, i);
      assert s[i..][1..] == s[i + 1..];
      AddAllOwn(cmp, s, i + 1);
    }
  }

  /** The items of the other vector stay where they are while v makes room for them. */
  ghost predicate SourceStays<T>(v: Vector<T>, other: Vector<T>, index: nat)
    reads v, v.mStorage
  {
    v != other || v.mStorage == null || v.mCount == 0 || v.mStorage.mRefs > 1
    || (index == v.mCount && 2 * v.mCount <= v.Capacity())
  }

  /** Inserts the items of a vector, which are read after making room for them.  Inserting a vector whose buffer
      nobody shares into itself goes wrong unless they stay where they are: it reads raw memory, or the first
      item twice. */
  method InsertVectorAt<T>(v: Vector<T>, ghost world: set<Vector<T>>, other: Vector<T>, index: nat)
    returns (status: Status, ghost read: seq<Option<T>>)
    requires Coherent(world) && v in world && other in world
    modifies v, v.mStorage, if v.mStorage == null then {} else {v.mStorage.data}
    ensures Linked(world) && (forall u :: u in world && u != v ==> u.Valid() && u.Items() == old(u.Items()))
    ensures |old(v.Items())| == old(v.mCount) && (status.BadIndex? <==> index > old(v.mCount))
    ensures status.BadIndex? ==> v.Valid() && v.Items() == old(v.Items())
    ensures !status.BadIndex? && old(SourceStays(v, other, index)) ==>
      v.Valid() && v.Items() == Spliced(old(v.Items()), index, old(other.Items()))
    ensures !status.BadIndex? && !old(SourceStays(v, other, index)) ==>
      && |read| == old(v.mCount) && read != []
      && if index == 0 || 2 * old(v.mCount) > old(v.Capacity()) then read[0] == None
         else index < |read| && read[index] == Some(old(v.Items())[0])
  {
    hide Linked, Holds, Values, Spliced, ReadAs;
    ghost var xs := other.Items();
    ghost var s := v.Items();
    other.ItemCount();
    v.ItemCount();
    ghost var n, room, copied := v.mCount, other.mCount + v.mCount <= v.Capacity(), 0;
    if other.mStorage == null {
      status, read, copied := v.InsertArrayAt(world, null, 0, false, 0, index);
      assert Those(read) == xs;
    } else {
      other.ItemsAt();
      ghost var was := other.mStorage.data[..];
      ghost var own := v.mStorage != null && other.mStorage == v.mStorage && v.mStorage.mRefs == 1;
      if v.mStorage != null {
        OwnMeansSelf(world, v, other);
      }
      status, read, copied := v.InsertArrayAt(world, other.mStorage.data, 0, false, other.mCount, index);
      if !status.BadIndex? && |xs| > 0 {
        VectorRead(read, was, xs, index, own, room);
      } else {
        assert |read| == 0;
      }
    }
  }

  lemma OwnMeansSelf<T>(world: set<Vector<T>>, v: Vector<T>, other: Vector<T>)
    requires Coherent(world) && v in world && other in world && other.mStorage != null && v.mStorage != null
    ensures v.mStorage == other.mStorage && v.mStorage.mRefs == 1 ==> v == other
    ensures v.mStorage.data == other.mStorage.data ==> v.mStorage == other.mStorage
  {
    hide Holds, Values, Counted;
    if v.mStorage.mRefs == 1 {
      v.OthersUseOthers(world);
    }
  }

  lemma VectorRead<T>(read: seq<Option<T>>, was: seq<Option<T>>, xs: seq<T>, index: nat, own: bool, room: bool)
    requires 0 < |xs| <= |was| && forall i :: 0 <= i < |xs| ==> was[i] == Some(xs[i])
    requires ReadAs(read, was, 0, false, |xs|, index, own, room)
    requires own ==> index <= |xs|
    ensures if !own || (room && |xs| <= index) then AllThere(read) && Those(read) == xs
      else |read| == |xs| && if !room || index == 0 then read[0] == None else index < |xs| && read[index] == Some(xs[0])
  {
    if !own || (room && |xs| <= index) {
      forall k | 0 <= k < |xs|
        ensures read[k] == Some(xs[k])
      {
        assert read[k] == was[Slot(0, k, false)];
      }
    }
  }

  /** merge with a sorted vector.  "raw" tells that it reads memory that holds no item: the first item of an
      empty receiver, where this stops, or a single item of its own that it has moved away. */
  method MergeSorted<T(!new)>(v: Vector<T>, ghost world: set<Vector<T>>, other: Vector<T>, cmp: (T, T) -> int)
    returns (ghost raw: bool)
    requires Coherent(world) && v in world && other in world
    requires TotalPreorder(cmp) && Increasing(cmp, v.Items())
    modifies v, v.mStorage, if v.mStorage == null then {} else {v.mStorage.data}
    ensures |old(v.Items())| == old(v.mCount) && |old(other.Items())| == old(other.mCount)
    ensures raw <==>
      && old(other.mCount) > 0
      && (old(v.mCount) == 0 || (v == other && old(v.mCount) == 1 && old(v.mStorage != null && v.mStorage.mRefs == 1)))
    ensures !raw ==> v.Valid() && v.Items() == Merged(cmp, old(v.Items()), old(other.Items()))
    ensures Linked(world) && (forall u :: u in world && u != v ==> u.Valid() && u.Items() == old(u.Items()))
  {
    hide TotalPreorder, Linked, Holds, Values, AddAll, Increasing, Spliced;
    raw := false;
    v.ItemCount();
    other.ItemCount();
    ghost var s, xs := v.Items(), other.Items();
    SplicedAtEnds(s, xs);
    if other.mCount != 0 {
      if v.mCount == 0 {
        return true;
      }
      v.CountHasStorage();
      other.CountHasStorage();
      v.ItemsAt();
      other.ItemsAt();
      var a, b := v.mStorage.data, other.mStorage.data;
      ghost var status, read;
      SelfIsSingle(cmp, s, xs, v == other);
      if cmp(b[other.mCount - 1].value, a[0].value) <= 0 {
        raw := !SourceStays(v, other, 0);
        status, read := InsertVectorAt(v, world, other, 0);
      } else if cmp(b[0].value, a[v.mCount - 1].value) >= 0 {
        status, read := InsertVectorAt(v, world, other, v.mCount);
      } else {
        MergeItems(v, world, other, cmp);
      }
    }
  }

  /** A sorted vector is tied with itself only if it has one item. */
  lemma SelfIsSingle<T(!new)>(cmp: (T, T) -> int, s: seq<T>, xs: seq<T>, same: bool)
    requires TotalPreorder(cmp) && Increasing(cmp, s) && s != [] && xs != [] && (same ==> s == xs)
    ensures same ==> (cmp(xs[|xs| - 1], s[0]) <= 0 <==> |s| == 1)
    ensures same && |s| > 1 ==> cmp(xs[0], s[|s| - 1]) < 0
  {
    hide TotalPreorder;
    Flip(cmp, s[0], s[0]);
    if same && |s| > 1 {
      assert cmp(s[0], s[|s| - 1]) < 0;
      Flip(cmp, s[0], s[|s| - 1]);
    }
  }

  /** No item is equivalent unless the one at the lower bound is. */
  lemma Equivalents<T(!new)>(cmp: (T, T) -> int, s: seq<T>, x: T)
    requires TotalPreorder(cmp) && Increasing(cmp, s)
    ensures var p := LowerBound(cmp, s, x); !(p < |s| && cmp(s[p], x) == 0) ==> forall y :: y in s ==> cmp(y, x) != 0
  {
    hide TotalPreorder, LowerBound;
    LowerBoundIs(cmp, s, x);
  }

  /** remove: takes out the equivalent item, if there is one, and returns where it was. */
  method Remove<T(!new)>(v: Vector<T>, ghost world: set<Vector<T>>, item: T, cmp: (T, T) -> int) returns (index: int)
    requires Coherent(world) && v in world && TotalPreorder(cmp) && Increasing(cmp, v.Items())
    modifies v, v.mStorage, if v.mStorage == null then {} else {v.mStorage.data}
    ensures Coherent(world)
    ensures index == -1 || index == LowerBound(cmp, old(v.Items()), item)
    ensures index == -1 ==> v.Items() == old(v.Items()) && forall y :: y in v.Items() ==> cmp(y, item) != 0
    ensures index >= 0 ==>
      && index < |old(v.Items())| && cmp(old(v.Items())[index], item) == 0
      && v.Items() == Cut(old(v.Items()), index, 1)
    ensures forall u :: u in world && u != v ==> u.Items() == old(u.Items())
  {
    hide TotalPreorder, Linked, Holds, Values, LowerBound, Increasing, Cut;
    v.ItemCount();
    var order;
    index, order := IndexOrderOf(v, item, cmp);
    if index >= 0 {
      var status;
      ghost var copied;
      status, copied := v.RemoveItemsAt(world, index, 1);
    } else {
      Equivalents(cmp, v.Items(), item);
    }
  }
}
