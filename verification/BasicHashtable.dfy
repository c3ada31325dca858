/** The open-addressing hash table with tombstones and copy-on-write bucket storage. */
module BasicHashtable {
  import opened Probing
  import opened BucketTable
  import opened Wrappers

  /** A SharedBuffer of buckets with its owner count. */
  class Storage<K, V> {
    var refs: nat
    const data: array<Bucket<K, V>>

    constructor (count: nat)
      ensures fresh(data) && data.Length == count && refs == 1 && data[..] == Blank(count)
    {
      refs := 1;
      data := new Bucket<K, V>[count](_ => Bucket(false, false, 0, None));
    }

    /** releaseBuckets: the entries are destroyed exactly when the last owner lets go. */
    method Release()
      requires refs >= 1
      modifies this, data
      ensures refs == old(refs) - 1
      ensures old(refs) > 1 ==> data[..] == old(data[..])
      ensures old(refs) == 1 ==> forall i :: 0 <= i < data.Length ==> data[i].present ==> data[i].entry.None?
    {
      refs := refs - 1;
      if refs == 0 {
        DestroyBuckets();
      }
    }

    method DestroyBuckets()
      modifies data
      ensures forall i :: 0 <= i < data.Length ==>
        data[i] == (if old(data[i]).present then old(data[i]).(entry := None) else old(data[i]))
    {
      var i := 0;
      while i < data.Length
        invariant 0 <= i <= data.Length
        invariant forall j :: 0 <= j < i ==>
          data[j] == (if old(data[j]).present then old(data[j]).(entry := None) else old(data[j]))
        invariant forall j :: i <= j < data.Length ==> data[j] == old(data[j])
      {
        if data[i].present {
          data[i] := data[i].(entry := None);
        }
        i := i + 1;
      }
    }
  }

  // ------------------------------------------------------------ capacities

  const PRIMES: seq<nat> := [
    5, 11, 23, 47, 97, 197, 397, 797, 1597, 3203, 6421, 12853, 25717, 51437, 102877, 205759, 411527,
    823117, 1646237, 3292489, 6584983, 13169977, 26339969, 52679969, 105359939, 210719881, 421439783,
    842879579, 1685759167]

  ghost predicate PrimeTable() { forall i :: 0 <= i < |PRIMES| ==> Prime(PRIMES[i]) }

  function Ceil(x: real): (c: int)
    ensures c as real - 1.0 < x <= c as real
  {
    0 - (0.0 - x).Floor
  }

  predicate LoadFactor(f: real) { 0.0 < f <= 1.0 }

  function Quotient(x: real, f: real): (q: real)
    requires f > 0.0
    ensures q * f == x
  {
    x / f
  }

  function Needed(minimum: nat, f: real): (count: int)
    requires LoadFactor(f)
  {
    Ceil(Quotient(minimum as real, f)) + 1
  }

  /** All buckets but one have room for the minimum at the load factor. */
  ghost predicate Enough(minimum: nat, f: real, count: int) { minimum as real <= (count - 1) as real * f }

  lemma NeededIsLeast(minimum: nat, f: real, count: int)
    requires LoadFactor(f)
    ensures Needed(minimum, f) <= count <==> Enough(minimum, f, count)
  {
    hide Quotient, Ceil;
    var q, most := Quotient(minimum as real, f), (count - 1) as real;
    ShareIsEnough(q, most, f, minimum as real);
    CeilIsLeast(q, count - 1);
  }

  lemma ShareIsEnough(q: real, most: real, f: real, m: real)
    requires q * f == m && 0.0 < f
    ensures q <= most <==> m <= most * f
  {
    if q <= most {
      Scale(q, most, f);
    } else {
      ScaleStrictly(most, q, f);
      assert most * f < m;
    }
  }

  lemma ScaleStrictly(a: real, b: real, c: real)
    requires a < b && 0.0 < c
    ensures a * c < b * c
  {
  }

  lemma CeilIsLeast(x: real, n: int)
    ensures Ceil(x) <= n <==> x <= n as real
  {
    var c := Ceil(x);
    assert c <= n || n + 1 <= c;
    assert c > n ==> (n + 1) as real <= c as real;
  }

  /** The bucket count is the first prime of the table that is enough, and the capacity is the load factor's
      share of all buckets but one, rounded up. */
  lemma FitsIs(minimum: nat, f: real, count: nat, capacity: nat)
    requires LoadFactor(f)
    ensures Fits(minimum, f, count, capacity) <==>
      && count in PRIMES && Enough(minimum, f, count)
      && (forall p :: p in PRIMES && Enough(minimum, f, p) ==> count <= p)
      && capacity as real - 1.0 < (count - 1) as real * f <= capacity as real
    ensures CanFit(minimum, f) <==> exists p :: p in PRIMES && Enough(minimum, f, p)
  {
    assert |PRIMES| == 29;
    hide PRIMES, Needed, Enough;
    PrimesAscend();
    forall c: nat
      ensures Needed(minimum, f) <= c <==> Enough(minimum, f, c)
    {
      NeededIsLeast(minimum, f, c);
    }
    if CanFit(minimum, f) {
      assert PRIMES[28] in PRIMES;
    }
  }

  /** Bucket count and capacity chosen for a minimum capacity: the first prime that is large enough. */
  ghost predicate Fits(minimum: nat, f: real, count: nat, capacity: nat)
    requires LoadFactor(f)
  {
    && count in PRIMES && Needed(minimum, f) <= count
    && (forall p :: p in PRIMES && Needed(minimum, f) <= p ==> count <= p)
    && capacity == Ceil((count - 1) as real * f)
  }

  ghost predicate CanFit(minimum: nat, f: real)
    requires LoadFactor(f)
  {
    Needed(minimum, f) <= PRIMES[|PRIMES| - 1]
  }

  lemma PrimeDoubles(i: nat)
    requires i + 1 < |PRIMES|
    ensures 5 <= PRIMES[i] && 2 * PRIMES[i] <= PRIMES[i + 1]
  {
  }

  lemma {:induction false} PrimesAtLeastDouble(i: nat, j: nat)
    requires i < j < |PRIMES|
    ensures 5 <= PRIMES[i] && 2 * PRIMES[i] <= PRIMES[j]
  {
    hide PRIMES;
    PrimeDoubles(j - 1);
    if i + 1 < j {
      PrimesAtLeastDouble(i, j - 1);
    }
  }

  lemma PrimesAscend()
    ensures |PRIMES| == 29
    ensures forall i, j :: 0 <= i <= j < |PRIMES| ==> 5 <= PRIMES[i] <= PRIMES[j]
  {
    assert |PRIMES| == 29 && 5 <= PRIMES[28];
    hide PRIMES;
    forall i, j | 0 <= i <= j < |PRIMES|
      ensures 5 <= PRIMES[i] <= PRIMES[j]
    {
      if i < j {
        PrimesAtLeastDouble(i, j);
      } else if i > 0 {
        PrimesAtLeastDouble(0, i);
      } else {
        PrimesAtLeastDouble(0, 28);
      }
    }
  }

  /** The capacity covers the minimum and leaves at least one bucket free. */
  lemma FitsBounds(minimum: nat, f: real, count: nat, capacity: nat)
    requires LoadFactor(f) && Fits(minimum, f, count, capacity)
    ensures 1 <= capacity < count && minimum <= capacity
  {
    hide PRIMES;
    PrimesAscend();
    CapacityBounds(minimum, f, count);
  }

  lemma CapacityBounds(minimum: nat, f: real, count: nat)
    requires LoadFactor(f) && Needed(minimum, f) <= count && 2 <= count
    ensures 1 <= Ceil((count - 1) as real * f) < count && minimum <= Ceil((count - 1) as real * f)
  {
    hide Quotient;
    var need, most := Quotient(minimum as real, f), (count - 1) as real;
    Scale(need, most, f);
    Scale(0.0, most, f);
    Scale(f, 1.0, most);
    CeilBounds(most * f, minimum, count);
  }

  lemma CeilBounds(z: real, low: nat, high: nat)
    requires low as real <= z && 0.0 < z <= (high - 1) as real
    ensures 1 <= Ceil(z) < high && low <= Ceil(z)
  {
    var c := Ceil(z);
    assert low as real <= c as real && c as real - 1.0 < (high - 1) as real;
  }

  lemma Scale(a: real, b: real, c: real)
    requires a <= b && 0.0 <= c
    ensures a * c <= b * c
  {
  }

  method DetermineCapacity(minimum: nat, f: real) returns (found: bool, count: nat, capacity: nat)
    requires LoadFactor(f)
    ensures found <==> CanFit(minimum, f)
    ensures found ==> Fits(minimum, f, count, capacity)
  {
    hide PRIMES, Ceil, Needed;
    PrimesAscend();
    var needed := Needed(minimum, f);
    var i := 0;
    while i < |PRIMES| && needed > PRIMES[i]
      invariant 0 <= i <= |PRIMES|
      invariant forall j :: 0 <= j < i ==> PRIMES[j] < needed
    {
      i := i + 1;
    }
    if i == |PRIMES| {
      found, count, capacity := false, 0, 0;
    } else {
      found, count := true, PRIMES[i];
      CapacityBounds(minimum, f, count);
      capacity := Ceil((count - 1) as real * f);
    }
  }

  // ------------------------------------------------------------ probing for a free bucket

  /** Follows the chain of hash to its first bucket without an entry, setting COLLISION on the way. */
  method FreeBucket<K, V>(hs: Hashing<K>, hash: nat, a: array<Bucket<K, V>>) returns (index: nat, ghost k: nat)
    requires Prime(a.Length) && ValidHashing(hs) && Filled(a[..]) < a.Length
    modifies a
    ensures FirstFree(hs, hash, old(a[..]), k) && index == Place(hs, hash, a.Length, k)
    ensures Marked(hs, hash, old(a[..]), a[..], k)
  {
    hide Place, Filled;
    ghost var t, n := a[..], a.Length;
    ghost var e := EmptyBucket(t);
    ghost var r := Rank(hs, hash, n, e);
    NextPlace(hs, hash, n, 0);
    index, k := hs.start(hash, a.Length), 0;
    var inc := hs.step(hash, a.Length);
    while a[index].present
      invariant k <= r && index == Place(hs, hash, n, k)
      invariant ProbedPresent(hs, hash, t, k) && Marked(hs, hash, t, a[..], k)
      decreases r - k
    {
      MarkNext(hs, hash, t, a[..], k);
      NextPlace(hs, hash, n, k);
      a[index] := a[index].(collision := true);
      index, k := Seek(index, inc, a.Length), k + 1;
    }
  }

  /** Rebuilds the table of from in the cleared buckets of to: the entry of bucket i ends up in bucket at[i], and
      entries of equal hash on their chain in the order of their old buckets. */
  method MoveEntries<K, V>(hs: Hashing<K>, from: array<Bucket<K, V>>, to: array<Bucket<K, V>>)
    returns (ghost at: seq<nat>)
    requires from != to && Table(hs, from[..])
    requires Prime(to.Length) && to[..] == Blank(to.Length)
    requires Presents(from[..]) < to.Length
    modifies to
    ensures Table(hs, to[..]) && Presents(to[..]) == Filled(to[..]) == Presents(from[..])
    ensures Contents(to[..]) == Contents(from[..])
    ensures Moved(hs, from[..], from.Length, to[..], at)
    ensures to[..] == Rebuilt(hs, from[..], from.Length, to.Length)
  {
    hide Place, Presents, Filled, Contents, Prime, ValidHashing, Rebuilt, Inserted, Moved;
    ghost var t := from[..];
    assert to[..] == Rebuilt(hs, t, 0, to.Length) by { RebuiltStart(hs, t, to.Length); }
    ClearedCounts(to[..]);
    assert Table(hs, to[..]);
    assert t[0..] == t;
    at := [];
    assert Moved(hs, t, 0, to[..], at) by { NothingMoved(hs, t, to[..]); }
    for i := 0 to from.Length
      invariant from[..] == t
      invariant Table(hs, to[..]) && Tight(to[..])
      invariant Presents(to[..]) == Filled(to[..]) && Presents(to[..]) + Presents(t[i..]) == Presents(t)
      invariant Contents(to[..]) + Contents(t[i..]) == Contents(t)
      invariant Moved(hs, t, i, to[..], at)
      invariant to[..] == Rebuilt(hs, t, i, to.Length)
    {
      Unfold(t, i);
      if from[i].present {
        assert BucketInv(hs, t[i]);
        ghost var u := to[..];
        var hash := from[i].hash;
        ghost var k;
        var index;
        index, k := FreeBucket(hs, hash, to);
        ghost var m := to[..];
        InsertKeepsTable(hs, hash, u, m, k, from[i].entry.value);
        MarkedThenStored(hs, hash, u, m, k, from[i].entry.value);
        to[index] := Bucket(true, false, hash, Some(from[i].entry.value));
        InsertKeepsTight(hs, hash, u, m, k, to[index]);
        assert to[..] == m[index := to[index]];
        RebuiltNext(hs, t, i, u, to[..], index);
        MovedNext(hs, t, i, u, to[..], index, at);
        at := at + [index];
      } else {
        RebuiltSkips(hs, t, i, to.Length);
        MovedSkips(hs, t, i, to[..], at);
        at := at + [0];
      }
    }
    UnfoldEnd(t);
  }

  method ClearBuckets<K, V>(data: array<Bucket<K, V>>)
    modifies data
    ensures Cleared(data[..])
    ensures forall i :: 0 <= i < data.Length ==> data[i].entry == old(data[i]).entry
  {
    for i := 0 to data.Length
      invariant forall j :: 0 <= j < i ==> !data[j].present && !data[j].collision
      invariant forall j :: 0 <= j < data.Length ==> data[j].entry == old(data[j]).entry
    {
      data[i] := data[i].(present := false, collision := false, hash := 0);
    }
  }

  // ------------------------------------------------------------ the table

  /** How add ends: the entry is stored; or its rehash dropped the storage of an empty table and the
      loop went on without it; or no bucket count of the table is large enough and the process aborts. */
  datatype Outcome = Added(index: nat) | StorageDropped | NoCapacity

  class Hashtable<K(==), V> {
    const hashing: Hashing<K>
    var mBuckets: Storage?<K, V>
    var mSize: nat
    var mFilledBuckets: nat
    var mBucketCount: nat
    var mCapacity: nat
    var mLoadFactor: real

    ghost function Repr(): set<object>
      reads this
    {
      if mBuckets == null then {this} else {this, mBuckets, mBuckets.data}
    }

    ghost predicate Valid()
      reads Repr()
    {
      && ValidHashing(hashing) && LoadFactor(mLoadFactor)
      && Prime(mBucketCount) && 1 <= mCapacity < mBucketCount
      && if mBuckets == null then mSize == mFilledBuckets == 0
         else
           var t := mBuckets.data[..];
           && mBuckets.refs >= 1 && |t| == mBucketCount && Table(hashing, t)
           && mSize == Presents(t) && mFilledBuckets == Filled(t) <= mCapacity
    }

    /** The multimap the table stands for. */
    ghost function Items(): multiset<Entry<K, V>>
      reads Repr()
    {
      if mBuckets == null then multiset{} else Contents(mBuckets.data[..])
    }

    /** The buckets holding the key behind bucket index of its chain, or all of them if index is negative. */
    ghost function Matches(index: int, key: K): seq<nat>
      requires Valid() && index < mBucketCount
      reads Repr()
    {
      if mBuckets == null then []
      else
        var h := hashing.hashOf(key);
        MatchesFrom(hashing, mBuckets.data[..], key, if index < 0 then 0 else Rank(hashing, h, mBucketCount, index) + 1)
    }

    /** The buckets, or those add would start from. */
    ghost function Buckets(): seq<Bucket<K, V>>
      reads Repr()
    {
      if mBuckets == null then Blank(mBucketCount) else mBuckets.data[..]
    }

    constructor (hs: Hashing<K>, minimum: nat, f: real)
      requires ValidHashing(hs) && PrimeTable() && LoadFactor(f) && CanFit(minimum, f)
      ensures Valid() && hashing == hs && mBuckets == null && mLoadFactor == f
      ensures Fits(minimum, f, mBucketCount, mCapacity)
    {
      var found, count, capacity := DetermineCapacity(minimum, f);
      FitsBounds(minimum, f, count, capacity);
      hashing, mLoadFactor := hs, f;
      mSize, mFilledBuckets, mBuckets := 0, 0, null;
      mBucketCount, mCapacity := count, capacity;
    }

    /** The copy shares the storage of other. */
    constructor Copy(other: Hashtable<K, V>)
      requires other.Valid()
      modifies other.mBuckets
      ensures Valid() && other.Valid() && mBuckets == other.mBuckets && hashing == other.hashing
      ensures mBucketCount == other.mBucketCount && mCapacity == other.mCapacity && mLoadFactor == other.mLoadFactor
      ensures mBuckets != null ==> mBuckets.refs == old(other.mBuckets.refs) + 1
      ensures Items() == other.Items() == old(other.Items())
    {
      hashing, mLoadFactor := other.hashing, other.mLoadFactor;
      mSize, mFilledBuckets, mBuckets := other.mSize, other.mFilledBuckets, other.mBuckets;
      mBucketCount, mCapacity := other.mBucketCount, other.mCapacity;
      new;
      if mBuckets != null {
        mBuckets.refs := mBuckets.refs + 1;
      }
    }

    /** edit: afterwards this table is the only owner of its storage, whose buckets are as before;
        if it was not, the storage of the other owners is left as it is. */
    method Edit()
      requires Valid() && mBuckets != null
      modifies `mBuckets, mBuckets
      ensures Valid() && mBuckets != null && mBuckets.refs == 1
      ensures mBuckets.data[..] == old(mBuckets.data[..])
      ensures if old(mBuckets.refs) == 1 then mBuckets == old(mBuckets) else fresh(mBuckets) && fresh(mBuckets.data)
      ensures old(mBuckets.refs) > 1 ==> old(mBuckets).refs == old(mBuckets.refs) - 1
    {
      hide Prime, ValidHashing, Place, Presents, Filled, Contents, PRIMES;
      if mBuckets.refs != 1 {
        var shared := mBuckets;
        var copy := new Storage(mBucketCount);
        for i := 0 to mBucketCount
          invariant forall j :: 0 <= j < i ==> copy.data[j] == shared.data[j]
          invariant forall j :: i <= j < mBucketCount ==> copy.data[j].entry.None?
          modifies copy.data
        {
          var from := shared.data[i];
          assert BucketInv(hashing, shared.data[..][i]);
          copy.data[i] := from.(entry := copy.data[i].entry);
          if from.present {
            copy.data[i] := copy.data[i].(entry := from.entry);
          }
        }
        assert copy.data[..] == shared.data[..];
        shared.refs := shared.refs - 1;
        mBuckets := copy;
      }
    }

    /** The number of owners of the old storage drops by one and its buckets stay as they are,
        unless this table was the only owner. */
    method Rehash(minimum: nat, f: real) returns (found: bool)
      requires Valid() && PrimeTable() && LoadFactor(f)
      modifies Repr()
      ensures found <==> CanFit(if minimum < old(mSize) then old(mSize) else minimum, f)
      ensures Valid() && Items() == old(Items()) && mSize == old(mSize)
      ensures fresh(Repr() - old(Repr()))
      ensures !found ==> unchanged(this)
      ensures found ==>
        && Fits(if minimum < mSize then mSize else minimum, f, mBucketCount, mCapacity) && mLoadFactor == f
        && if mBucketCount == old(mBucketCount) && mCapacity == old(mCapacity) then mBuckets == old(mBuckets)
           else
             && mFilledBuckets == mSize && (mBuckets == null <==> old(mBuckets) == null || mSize == 0)
             && (mBuckets == old(mBuckets) ==> mBuckets == null)
      ensures mBuckets == old(mBuckets) && mBuckets != null ==> unchanged(mBuckets) && unchanged(mBuckets.data)
      ensures mBuckets != old(mBuckets) && mBuckets != null ==>
        |old(Buckets())| == old(mBucketCount)
        && mBuckets.data[..] == Rebuilt(hashing, old(Buckets()), old(mBucketCount), mBucketCount)
      ensures mBuckets != old(mBuckets) && mBuckets != null ==>
        mBuckets.refs == 1 && fresh(mBuckets) && fresh(mBuckets.data)
      ensures old(mBuckets) != null && mBuckets != old(mBuckets) && old(mBuckets.refs) > 1 ==>
        && old(mBuckets).refs == old(mBuckets.refs) - 1
        && old(mBuckets).data[..] == old(mBuckets.data[..])
    {
      hide Prime, ValidHashing, Place, Presents, Filled, Contents, PRIMES, Rebuilt;
      var least := if minimum < mSize then mSize else minimum;
      var count, capacity;
      found, count, capacity := DetermineCapacity(least, f);
      if found {
        FitsBounds(least, f, count, capacity);
        if count != mBucketCount || capacity != mCapacity {
          if mBuckets != null {
            MoveStorage(count);
          }
          mBucketCount := count;
          mCapacity := capacity;
        }
        mLoadFactor := f;
      }
    }

    /** The part of rehash that replaces existing storage: an empty table ends up with none at all. */
    method MoveStorage(count: nat)
      requires Valid() && mBuckets != null && Prime(count) && mSize < count
      modifies `mBuckets, `mFilledBuckets, mBuckets, mBuckets.data
      ensures mFilledBuckets == mSize && mBuckets != old(mBuckets)
      ensures if mSize == 0 then mBuckets == null
        else
          && fresh(mBuckets) && fresh(mBuckets.data) && mBuckets.refs == 1 && mBuckets.data.Length == count
          && Table(hashing, mBuckets.data[..])
          && Presents(mBuckets.data[..]) == Filled(mBuckets.data[..]) == mSize
          && mBuckets.data[..] == Rebuilt(hashing, old(mBuckets.data[..]), old(mBuckets.data.Length), count)
      ensures Items() == old(Items())
      ensures old(mBuckets.refs) > 1 ==>
        && old(mBuckets).refs == old(mBuckets.refs) - 1
        && old(mBuckets).data[..] == old(mBuckets.data[..])
    {
      hide Prime, ValidHashing, Place, Presents, Filled, Contents, PRIMES, Rebuilt;
      var from := mBuckets;
      var to: Storage?<K, V> := null;
      if mSize != 0 {
        to := new Storage(count);
        ghost var at := MoveEntries(hashing, from.data, to.data);
      } else {
        NonePresent(from.data[..]);
      }
      from.Release();
      mBuckets := to;
      mFilledBuckets := mSize;
    }

    method Clear()
      requires Valid()
      modifies Repr()
      ensures Valid() && mSize == mFilledBuckets == 0 && Items() == multiset{}
      ensures mBucketCount == old(mBucketCount) && mCapacity == old(mCapacity) && mLoadFactor == old(mLoadFactor)
      ensures fresh(Repr() - old(Repr()))
      ensures old(mBuckets) != null && old(mFilledBuckets) > 0 && old(mBuckets.refs) > 1 ==>
        && mBuckets == null && old(mBuckets).refs == old(mBuckets.refs) - 1
        && old(mBuckets).data[..] == old(mBuckets.data[..])
      ensures old(mBuckets) != null && (old(mFilledBuckets) == 0 || old(mBuckets.refs) == 1) ==>
        mBuckets == old(mBuckets) && mBuckets.refs == old(mBuckets.refs)
      ensures old(mBuckets) == null ==> mBuckets == null
      ensures old(mBuckets) != null && old(mBuckets.refs) > 1 ==> old(mBuckets).data[..] == old(mBuckets.data[..])
    {
      hide Prime, ValidHashing, Place, Presents, Filled, Contents, PRIMES;
      if mBuckets != null {
        CountBounds(mBuckets.data[..]);
        if mFilledBuckets != 0 {
          if mBuckets.refs == 1 {
            var data := mBuckets.data;
            mBuckets.DestroyBuckets();
            ClearBuckets(data);
            ClearedCounts(data[..]);
          } else {
            mBuckets.Release();
            mBuckets := null;
          }
          mFilledBuckets := 0;
        } else {
          NonePresent(mBuckets.data[..]);
        }
        mSize := 0;
      }
    }

    /** dispose, for a table about to go. */
    method Dispose()
      requires Valid()
      modifies mBuckets, if mBuckets == null then null else mBuckets.data
      ensures mBuckets != null ==>
        && mBuckets.refs == old(mBuckets.refs) - 1
        && if old(mBuckets.refs) > 1 then mBuckets.data[..] == old(mBuckets.data[..])
           else forall i :: 0 <= i < mBuckets.data.Length ==> mBuckets.data[i].present ==> mBuckets.data[i].entry.None?
    {
      if mBuckets != null {
        mBuckets.Release();
      }
    }

    /** The first present bucket behind index, or -1. */
    method Next(index: int) returns (r: int)
      requires Valid() && index >= -1
      ensures r == -1 || (index < r < mBucketCount && mBuckets != null && mBuckets.data[r].present)
      ensures mBuckets != null ==>
        forall i :: index < i < (if r == -1 then mBucketCount else r) ==> !mBuckets.data[i].present
    {
      if mSize != 0 {
        r := index + 1;
        while r < mBucketCount
          invariant forall i :: index < i < r && i < mBucketCount ==> !mBuckets.data[i].present
        {
          if mBuckets.data[r].present {
            return;
          }
          r := r + 1;
        }
      } else if mBuckets != null {
        NonePresent(mBuckets.data[..]);
      }
      return -1;
    }

    /** The first matching bucket of the chain, or of its part behind the match at index. */
    method Find(index: int, hash: nat, key: K) returns (r: int)
      requires Valid() && hash == hashing.hashOf(key) && index < mBucketCount
      requires index >= 0 ==> mBuckets != null && Match(mBuckets.data[index], key)
      ensures var s := Matches(index, key); r == if s == [] then -1 else s[0]
    {
      hide Prime, ValidHashing, Place, Presents, Filled, Contents, MatchesFrom, Reachable, BucketInv, PRIMES;
      ghost var from := if index < 0 then 0 else Rank(hashing, hash, mBucketCount, index) + 1;
      if mSize == 0 {
        if mBuckets != null {
          NonePresent(mBuckets.data[..]);
          NoMatches(hashing, mBuckets.data[..], key, from);
        }
        return -1;
      }
      ghost var t, n := mBuckets.data[..], mBucketCount;
      ghost var empty := EmptyBucket(t);
      ghost var last := Rank(hashing, hash, n, empty);
      ghost var k := 0;
      r := index;
      if index < 0 {
        r := hashing.start(hash, mBucketCount);
        NextPlace(hashing, hash, n, 0);
        MatchesStep(hashing, t, key, 0);
        PresentEntry(hashing, t, r);
        if mBuckets.data[r].present {
          if mBuckets.data[r].entry.value.key == key {
            return;
          }
        } else if !mBuckets.data[r].collision {
          NoMatchBehind(hashing, t, key, 0);
          return -1;
        }
      } else {
        k := from - 1;
        EmptyBehindMatch(hashing, t, key, index, empty);
      }
      var inc := hashing.step(hash, mBucketCount);
      while true
        invariant k < last && r == Place(hashing, hash, n, k)
        invariant MatchesFrom(hashing, t, key, from) == MatchesFrom(hashing, t, key, k + 1)
        decreases last - k
      {
        NextPlace(hashing, hash, n, k);
        r, k := Seek(r, inc, mBucketCount), k + 1;
        MatchesStep(hashing, t, key, k);
        PresentEntry(hashing, t, r);
        if mBuckets.data[r].present && mBuckets.data[r].hash == hash && mBuckets.data[r].entry.value.key == key {
          return;
        }
        if !mBuckets.data[r].collision {
          NoMatchBehind(hashing, t, key, k);
          return -1;
        }
      }
    }

    /** Find succeeds exactly when the table holds the key. */
    lemma FindIsExact(key: K)
      requires Valid()
      ensures Matches(-1, key) != [] <==> exists e :: e in Items() && e.key == key
    {
      if mBuckets != null {
        MatchesExactly(hashing, mBuckets.data[..], key);
      }
    }

    /** Each find from the last index is the next entry of the key: repeated find enumerates them all. */
    lemma FindEnumerates(key: K, j: nat)
      requires Valid() && j < |Matches(-1, key)|
      ensures var s := Matches(-1, key);
        && mBuckets != null && s[j] < mBucketCount && Match(mBuckets.data[s[j]], key)
        && Matches(s[j], key) == s[j + 1..]
    {
      hide Prime, ValidHashing, Place, Presents, Filled, Contents, MatchesFrom, Reachable, BucketInv, PRIMES, Match;
      hide BucketTable.Increasing;
      MatchesContinue(hashing, mBuckets.data[..], key, 0, j);
      MatchesFromIs(hashing, mBuckets.data[..], key, 0);
      assert Matches(-1, key)[j] in Matches(-1, key);
    }

    method RemoveAt(index: nat)
      requires Valid() && mBuckets != null && index < mBucketCount && mBuckets.data[index].present
      modifies Repr()
      ensures Valid() && fresh(Repr() - old(Repr()))
      ensures var e := old(mBuckets.data[index].entry.value);
        e in old(Items()) && Items() == old(Items()) - multiset{e}
      ensures mSize == old(mSize) - 1 && mBucketCount == old(mBucketCount) && mCapacity == old(mCapacity)
      ensures mLoadFactor == old(mLoadFactor)
      ensures mBuckets != null && mBuckets.refs == 1
      ensures if old(mBuckets.refs) == 1 then mBuckets == old(mBuckets) else fresh(mBuckets) && fresh(mBuckets.data)
      ensures mBuckets.data[..] ==
        old(mBuckets.data[..])[index := old(mBuckets.data[index]).(present := false, entry := None)]
      ensures old(mBuckets.refs) > 1 ==>
        && mBuckets != old(mBuckets) && old(mBuckets).refs == old(mBuckets.refs) - 1
        && old(mBuckets).data[..] == old(mBuckets.data[..])
    {
      hide Prime, ValidHashing, Place, Presents, Filled, Contents, PRIMES;
      ghost var t := mBuckets.data[..];
      Edit();
      RemoveKeepsTable(hashing, t, index);
      CountBounds(t);
      mBuckets.data[index] := mBuckets.data[index].(present := false);
      if !mBuckets.data[index].collision {
        mFilledBuckets := mFilledBuckets - 1;
      }
      mSize := mSize - 1;
      mBuckets.data[index] := mBuckets.data[index].(entry := None);
      assert mBuckets.data[..] == t[index := t[index].(present := false, entry := None)];
    }

    /** add must take a bucket that is neither present nor a tombstone, but none may be filled any more. */
    ghost predicate MustGrow(hash: nat)
      requires Valid()
      reads Repr()
    {
      && mBuckets != null && mFilledBuckets >= mCapacity
      && exists k :: FirstFree(hashing, hash, mBuckets.data[..], k)
                     && !mBuckets.data[Place(hashing, hash, mBucketCount, k)].collision
    }

    /** The storage add works on: allocated if there is none, otherwise owned by this table alone. */
    method Own(ghost hash: nat)
      requires Valid()
      modifies `mBuckets, mBuckets
      ensures Valid() && mBuckets != null && mBuckets.refs == 1 && Items() == old(Items())
      ensures MustGrow(hash) == old(MustGrow(hash))
      ensures old(mBuckets) == null ==> fresh(mBuckets) && fresh(mBuckets.data) && mBuckets.data[..] == Blank(mBucketCount)
      ensures old(mBuckets) != null ==> mBuckets.data[..] == old(mBuckets.data[..])
      ensures old(mBuckets) != null && old(mBuckets.refs) == 1 ==> mBuckets == old(mBuckets)
      ensures old(mBuckets) != null && old(mBuckets.refs) > 1 ==>
        && fresh(mBuckets) && fresh(mBuckets.data) && old(mBuckets).refs == old(mBuckets.refs) - 1
    {
      hide Prime, ValidHashing, Place, Presents, Filled, Contents, PRIMES;
      if mBuckets == null {
        mBuckets := new Storage(mBucketCount);
        ClearedCounts(mBuckets.data[..]);
      } else {
        Edit();
      }
    }

    lemma GrowWhen(hash: nat, k: nat)
      requires Valid() && mBuckets != null && FirstFree(hashing, hash, mBuckets.data[..], k)
      ensures MustGrow(hash) <==>
        mFilledBuckets >= mCapacity && !mBuckets.data[Place(hashing, hash, mBucketCount, k)].collision
    {
      hide Prime, ValidHashing, Place, Presents, Filled, PRIMES, FirstFree;
      if MustGrow(hash) {
        var k' :| FirstFree(hashing, hash, mBuckets.data[..], k')
                  && !mBuckets.data[Place(hashing, hash, mBucketCount, k')].collision;
        FirstFreeUnique(hashing, hash, mBuckets.data[..], k, k');
      }
    }

    /** Follows the chain of hash in the storage of this table to its first free bucket. */
    method Probe(hash: nat) returns (index: nat, ghost k: nat)
      requires Valid() && mBuckets != null
      modifies mBuckets.data
      ensures Valid() && Items() == old(Items())
      ensures FirstFree(hashing, hash, old(mBuckets.data[..]), k) && index == Place(hashing, hash, mBucketCount, k)
      ensures Marked(hashing, hash, old(mBuckets.data[..]), mBuckets.data[..], k)
      ensures mBuckets.data[index].collision == old(mBuckets.data[..])[index].collision
      ensures old(MustGrow(hash)) <==> mFilledBuckets >= mCapacity && !mBuckets.data[index].collision
    {
      hide Prime, ValidHashing, Place, Presents, Filled, Contents, PRIMES, FirstFree, MustGrow;
      ghost var t := mBuckets.data[..];
      CountBounds(t);
      forall k' | FirstFree(hashing, hash, t, k')
        ensures MustGrow(hash) <==>
          mFilledBuckets >= mCapacity && !t[Place(hashing, hash, mBucketCount, k')].collision
      {
        GrowWhen(hash, k');
      }
      index, k := FreeBucket(hashing, hash, mBuckets.data);
      FreeMarked(hashing, hash, t, mBuckets.data[..], k);
    }

    /** Stores the entry in the bucket the probe ended at, counting the bucket unless it was a tombstone. */
    method Store(hash: nat, entry: Entry<K, V>, index: nat, ghost t: seq<Bucket<K, V>>, ghost k: nat)
      requires mBuckets != null && mBuckets.data.Length == mBucketCount == |t| && mBuckets.refs >= 1
      requires Table(hashing, t) && mSize == Presents(t) && mFilledBuckets == Filled(t)
      requires FirstFree(hashing, hash, t, k) && Marked(hashing, hash, t, mBuckets.data[..], k)
      requires index == Place(hashing, hash, |t|, k) && hash == hashing.hashOf(entry.key)
      requires LoadFactor(mLoadFactor) && 1 <= mCapacity < mBucketCount && mFilledBuckets <= mCapacity
      requires mFilledBuckets == mCapacity ==> t[index].collision
      modifies `mSize, `mFilledBuckets, mBuckets.data
      ensures Valid() && mSize == old(mSize) + 1 && Items() == Contents(t) + multiset{entry}
      ensures mBuckets.data[index].present && mBuckets.data[index].entry == Some(entry)
      ensures Inserted(hashing, hash, t, mBuckets.data[..], index, entry)
    {
      hide Prime, ValidHashing, Place, Presents, Filled, Contents, PRIMES, Inserted;
      RankOfPlace(hashing, hash, |t|, k);
      MarkedThenStored(hashing, hash, t, mBuckets.data[..], k, entry);
      InsertKeepsTable(hashing, hash, t, mBuckets.data[..], k, entry);
      ghost var m := mBuckets.data[..];
      if !mBuckets.data[index].collision {
        mFilledBuckets := mFilledBuckets + 1;
      }
      mBuckets.data[index] := Bucket(true, mBuckets.data[index].collision, hash, mBuckets.data[index].entry);
      mSize := mSize + 1;
      mBuckets.data[index] := mBuckets.data[index].(entry := Some(entry));
      assert mBuckets.data[..] == m[index := Bucket(true, t[index].collision, hash, Some(entry))];
    }

    /** One round of add: follows the chain of hash and stores the entry in its first free bucket, unless the
        table must grow first. */
    method TryStore(hash: nat, entry: Entry<K, V>) returns (stored: bool, index: nat)
      requires Valid() && mBuckets != null && hash == hashing.hashOf(entry.key)
      modifies `mSize, `mFilledBuckets, mBuckets.data
      ensures Valid() && (stored <==> !old(MustGrow(hash)))
      ensures stored ==>
        && Items() == old(Items()) + multiset{entry} && mSize == old(mSize) + 1
        && Inserted(hashing, hash, old(mBuckets.data[..]), mBuckets.data[..], index, entry)
        && index < mBucketCount && mBuckets.data[index].present && mBuckets.data[index].entry == Some(entry)
      ensures !stored ==> Items() == old(Items()) && mSize == old(mSize)
      ensures !stored ==> mFilledBuckets == old(mFilledBuckets) >= mCapacity
      ensures !stored ==> SameEntries(old(mBuckets.data[..]), mBuckets.data[..])
    {
      hide Prime, ValidHashing, Place, Presents, Filled, Contents, PRIMES, MustGrow, Inserted;
      ghost var t := mBuckets.data[..];
      ghost var k;
      index, k := Probe(hash);
      stored := mBuckets.data[index].collision || mFilledBuckets < mCapacity;
      if stored {
        Store(hash, entry, index, t, k);
      }
    }

    /** The rehash of add at least doubles the capacity, so no second one can follow. */
    method Grow() returns (found: bool)
      requires Valid() && PrimeTable() && mBuckets != null && mBuckets.refs == 1
      modifies Repr()
      ensures found <==> CanFit(old(mCapacity) * 2, old(mLoadFactor))
      ensures Valid() && Items() == old(Items()) && mSize == old(mSize) && mLoadFactor == old(mLoadFactor)
      ensures fresh(Repr() - old(Repr()))
      ensures !found ==> unchanged(this) && mBuckets.refs == 1
      ensures mBuckets == null || mBuckets == old(mBuckets) || (fresh(mBuckets) && fresh(mBuckets.data))
      ensures found ==>
        && Fits(old(mCapacity) * 2, mLoadFactor, mBucketCount, mCapacity) && 2 * old(mCapacity) <= mCapacity
        && mFilledBuckets < mCapacity && (mBuckets == null <==> mSize == 0)
        && (mBuckets != null ==>
              && mBuckets.refs == 1 && |old(Buckets())| == old(mBucketCount)
              && mBuckets.data[..] == Rebuilt(hashing, old(Buckets()), old(mBucketCount), mBucketCount))
    {
      hide Prime, ValidHashing, Place, Presents, Filled, Contents, Table, PRIMES, CanFit, Fits, Rebuilt;
      CountBounds(mBuckets.data[..]);
      found := Rehash(mCapacity * 2, mLoadFactor);
      if found {
        FitsBounds(old(mCapacity) * 2, mLoadFactor, mBucketCount, mCapacity);
      }
    }

    /** The same, seen from the buckets as they were before the probe marked them. */
    method GrowMarked(ghost buckets: seq<Bucket<K, V>>) returns (found: bool)
      requires Valid() && PrimeTable() && mBuckets != null && mBuckets.refs == 1
      requires SameEntries(buckets, mBuckets.data[..])
      modifies Repr()
      ensures found <==> CanFit(old(mCapacity) * 2, old(mLoadFactor))
      ensures Valid() && Items() == old(Items()) && mSize == old(mSize) && mLoadFactor == old(mLoadFactor)
      ensures fresh(Repr() - old(Repr()))
      ensures !found ==> unchanged(this) && mBuckets.refs == 1
      ensures mBuckets == null || mBuckets == old(mBuckets) || (fresh(mBuckets) && fresh(mBuckets.data))
      ensures found ==>
        && Fits(old(mCapacity) * 2, mLoadFactor, mBucketCount, mCapacity) && mFilledBuckets < mCapacity
        && (mBuckets == null <==> mSize == 0)
        && (mBuckets != null ==>
              && mBuckets.refs == 1 && |buckets| == old(mBucketCount)
              && mBuckets.data[..] == Rebuilt(hashing, buckets, |buckets|, mBucketCount))
    {
      hide Prime, ValidHashing, Place, Presents, Filled, Contents, Table, PRIMES, CanFit, Fits, Rebuilt;
      ghost var marked := mBuckets.data[..];
      found := Grow();
      if mBuckets != null {
        SameRebuilt(hashing, buckets, marked, |marked|, mBucketCount);
      }
    }

    /** The loop of add, on storage this table owns alone. */
    method AddOwned(hash: nat, entry: Entry<K, V>) returns (outcome: Outcome)
      requires Valid() && PrimeTable() && hash == hashing.hashOf(entry.key) && mBuckets != null && mBuckets.refs == 1
      modifies Repr()
      ensures outcome.StorageDropped? <==>
        old(MustGrow(hash)) && old(mSize) == 0 && CanFit(old(mCapacity) * 2, old(mLoadFactor))
      ensures outcome.NoCapacity? <==> old(MustGrow(hash)) && !CanFit(old(mCapacity) * 2, old(mLoadFactor))
      ensures Valid() && fresh(Repr() - old(Repr()))
      ensures outcome.Added? ==>
        && Items() == old(Items()) + multiset{entry} && mSize == old(mSize) + 1
        && mBuckets != null && mBuckets.refs == 1 && outcome.index < mBucketCount
        && mBuckets.data[outcome.index].present && mBuckets.data[outcome.index].entry == Some(entry)
      ensures !old(MustGrow(hash)) ==> Inserted(hashing, hash, old(Buckets()), mBuckets.data[..], outcome.index, entry)
      ensures outcome.Added? && old(MustGrow(hash)) ==>
        |old(Buckets())| == old(mBucketCount)
        && Inserted(hashing, hash, Rebuilt(hashing, old(Buckets()), old(mBucketCount), mBucketCount), mBuckets.data[..],
                    outcome.index, entry)
      ensures !outcome.Added? ==> Items() == old(Items()) && mSize == old(mSize)
      ensures outcome.StorageDropped? <==> mBuckets == null
      ensures if old(MustGrow(hash)) && !outcome.NoCapacity?
        then Fits(old(mCapacity) * 2, old(mLoadFactor), mBucketCount, mCapacity)
        else mBucketCount == old(mBucketCount) && mCapacity == old(mCapacity)
      ensures mLoadFactor == old(mLoadFactor)
      ensures mBuckets == null || mBuckets.refs == 1
      ensures mBuckets == null || mBuckets == old(mBuckets) || (fresh(mBuckets) && fresh(mBuckets.data))
    {
      hide Prime, ValidHashing, Place, Presents, Filled, Contents, Table, PRIMES, CanFit, Fits, MustGrow, Inserted;
      hide Rebuilt, SameEntries;
      var grown := false;
      while true
        invariant Valid() && mBuckets != null && mBuckets.refs == 1
        invariant Items() == old(Items()) && mSize == old(mSize) && mLoadFactor == old(mLoadFactor)
        invariant fresh(Repr() - old(Repr()))
        invariant mBuckets == old(mBuckets) || (fresh(mBuckets) && fresh(mBuckets.data))
        invariant !grown ==>
          && MustGrow(hash) == old(MustGrow(hash)) && mBuckets.data[..] == old(Buckets())
          && mBucketCount == old(mBucketCount) && mCapacity == old(mCapacity)
        invariant grown ==>
          && old(MustGrow(hash)) && old(mSize) > 0 && CanFit(old(mCapacity) * 2, old(mLoadFactor))
          && Fits(old(mCapacity) * 2, old(mLoadFactor), mBucketCount, mCapacity)
          && mFilledBuckets < mCapacity
          && |old(Buckets())| == old(mBucketCount)
          && mBuckets.data[..] == Rebuilt(hashing, old(Buckets()), old(mBucketCount), mBucketCount)
        modifies Repr()
        decreases !grown
      {
        var stored, index := TryStore(hash, entry);
        if stored {
          return Added(index);
        }
        var found := GrowMarked(old(Buckets()));
        if !found {
          return NoCapacity;
        }
        if mBuckets == null {
          return StorageDropped;
        }
        grown := true;
      }
    }

    method Add(hash: nat, entry: Entry<K, V>) returns (outcome: Outcome)
      requires Valid() && PrimeTable() && hash == hashing.hashOf(entry.key)
      modifies Repr()
      ensures outcome.StorageDropped? <==>
        old(MustGrow(hash)) && old(mSize) == 0 && CanFit(old(mCapacity) * 2, old(mLoadFactor))
      ensures outcome.NoCapacity? <==> old(MustGrow(hash)) && !CanFit(old(mCapacity) * 2, old(mLoadFactor))
      ensures Valid() && fresh(Repr() - old(Repr()))
      ensures outcome.Added? ==>
        && Items() == old(Items()) + multiset{entry} && mSize == old(mSize) + 1
        && mBuckets != null && mBuckets.refs == 1 && outcome.index < mBucketCount
        && mBuckets.data[outcome.index].present && mBuckets.data[outcome.index].entry == Some(entry)
      ensures !old(MustGrow(hash)) ==> Inserted(hashing, hash, old(Buckets()), mBuckets.data[..], outcome.index, entry)
      ensures outcome.Added? && old(MustGrow(hash)) ==>
        |old(Buckets())| == old(mBucketCount)
        && Inserted(hashing, hash, Rebuilt(hashing, old(Buckets()), old(mBucketCount), mBucketCount), mBuckets.data[..],
                    outcome.index, entry)
      ensures !outcome.Added? ==> Items() == old(Items()) && mSize == old(mSize)
      ensures outcome.StorageDropped? <==> mBuckets == null
      ensures if old(MustGrow(hash)) && !outcome.NoCapacity?
        then Fits(old(mCapacity) * 2, old(mLoadFactor), mBucketCount, mCapacity)
        else mBucketCount == old(mBucketCount) && mCapacity == old(mCapacity)
      ensures mLoadFactor == old(mLoadFactor)
      ensures mBuckets == null || mBuckets.refs == 1
      ensures mBuckets == null || mBuckets == old(mBuckets) || (fresh(mBuckets) && fresh(mBuckets.data))
      ensures old(mBuckets) != null && old(mBuckets.refs) > 1 ==>
        && mBuckets != old(mBuckets) && old(mBuckets).refs == old(mBuckets.refs) - 1
        && old(mBuckets).data[..] == old(mBuckets.data[..])
    {
      hide Prime, ValidHashing, Place, Presents, Filled, Contents, Table, PRIMES, CanFit, Fits, MustGrow, Inserted;
      hide Rebuilt;
      Own(hash);
      outcome := AddOwned(hash, entry);
    }
  }

  /** The state in which add drops the storage: an empty table whose tombstones fill its capacity. */
  lemma TombstonesCanFillCapacity<V>(hs: Hashing<nat>, h: nat) returns (t: seq<Bucket<nat, V>>)
    requires ValidHashing(hs) && hs.start(h, 5) == 3
    ensures Table(hs, t) && Presents(t) == 0 && Filled(t) == 3
    ensures Fits(3, 0.75, |t|, 3)
    ensures FirstFree(hs, h, t, 0) && !t[Place(hs, h, |t|, 0)].collision
  {
    hide PRIMES;
    var clear, tomb := Bucket(false, false, h, None), Bucket(false, true, h, None);
    t := [tomb, tomb, tomb, clear, clear];
    assert Prime(5);
    NextPlace(hs, h, 5, 0);
    UnfoldFilled(t, 0);
    UnfoldFilled(t, 1);
    UnfoldFilled(t, 2);
    UnfoldFilled(t, 3);
    UnfoldFilled(t, 4);
    assert t[0..] == t && t[5..] == [];
    NoEntries(t);
    DefaultCapacity();
  }

  lemma FitsUnique(minimum: nat, f: real, count: nat, capacity: nat)
    requires LoadFactor(f) && Fits(minimum, f, count, capacity)
    ensures CanFit(minimum, f)
    ensures forall c, k :: Fits(minimum, f, c, k) ==> c == count && k == capacity
  {
    hide PRIMES, Needed, Ceil;
    PrimesAscend();
  }

  lemma UnfoldFilled<K, V>(t: seq<Bucket<K, V>>, i: nat)
    requires i < |t|
    ensures Filled(t[i..]) == One(t[i].present || t[i].collision) + Filled(t[i + 1..])
  {
    assert t[i..][1..] == t[i + 1..];
  }

  lemma DefaultCapacity()
    ensures Fits(3, 0.75, 5, 3)
  {
    assert PRIMES[0] == 5;
    hide PRIMES;
    PrimesAscend();
    assert 3 as real / 0.75 == 4.0;
    assert (5 - 1) as real * 0.75 == 3.0;
  }
}
