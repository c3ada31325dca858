/** A run of adds and removals after which add drops the storage it goes on to use. */
module HashtableRun {
  import opened Probing
  import opened BucketTable
  import opened BasicHashtable
  import opened Wrappers

  function Start(h: nat, n: nat): nat { if n == 0 then 0 else h % n }

  function Step(h: nat, n: nat): nat { if n < 2 then 1 else 1 + (h / n) % (n - 1) }

  /** Keys hash to themselves. */
  function Hashes(): (hs: Hashing<nat>)
    ensures ValidHashing(hs)
  {
    Hashing(k => k, Start, Step)
  }

  /** The first and the second bucket of the chain of a key among five. */
  function First(key: nat): nat { key % 5 }

  function Second(key: nat): nat { (key % 5 + 1 + (key / 5) % 4) % 5 }

  lemma Chain(key: nat)
    ensures Place(Hashes(), key, 5, 0) == First(key) && Place(Hashes(), key, 5, 1) == Second(key)
  {
    NextPlace(Hashes(), key, 5, 0);
    assert Hashes().start(key, 5) == First(key) && Hashes().step(key, 5) == 1 + (key / 5) % 4;
  }

  /** How many of five buckets are present or marked. */
  function Used(present: set<nat>, marked: set<nat>): nat {
    One(0 in present || 0 in marked) + One(1 in present || 1 in marked) + One(2 in present || 2 in marked)
    + One(3 in present || 3 in marked) + One(4 in present || 4 in marked)
  }

  ghost predicate Flags<V>(t: seq<Bucket<nat, V>>, present: set<nat>, marked: set<nat>) {
    |t| == 5 && forall i :: 0 <= i < 5 ==> (t[i].present <==> i in present) && (t[i].collision <==> i in marked)
  }

  lemma FilledIs<V>(t: seq<Bucket<nat, V>>, present: set<nat>, marked: set<nat>)
    requires Flags(t, present, marked)
    ensures Filled(t) == Used(present, marked)
  {
    UnfoldFilled(t, 0);
    UnfoldFilled(t, 1);
    UnfoldFilled(t, 2);
    UnfoldFilled(t, 3);
    UnfoldFilled(t, 4);
    assert t[0..] == t && t[5..] == [];
  }

  lemma FirstIsFree<V>(key: nat, t: seq<Bucket<nat, V>>, present: set<nat>, marked: set<nat>)
    requires Flags(t, present, marked) && First(key) !in present
    ensures FirstFree(Hashes(), key, t, 0) && Place(Hashes(), key, 5, 0) == First(key)
  {
    Chain(key);
  }

  lemma SecondIsFree<V>(key: nat, t: seq<Bucket<nat, V>>, present: set<nat>, marked: set<nat>)
    requires Flags(t, present, marked) && First(key) in present && Second(key) !in present
    ensures FirstFree(Hashes(), key, t, 1) && Place(Hashes(), key, 5, 1) == Second(key)
  {
    Chain(key);
  }

  /** The entry has gone to the first bucket of its chain. */
  lemma FirstTaken<V>(key: nat, t: seq<Bucket<nat, V>>, present: set<nat>, marked: set<nat>,
                      u: seq<Bucket<nat, V>>, p: nat, e: Entry<nat, V>)
    requires Flags(t, present, marked) && First(key) !in present && Inserted(Hashes(), key, t, u, p, e)
    ensures Flags(u, present + {First(key)}, marked)
  {
    FirstIsFree(key, t, present, marked);
    hide Place;
    FirstFreeUnique(Hashes(), key, t, 0, Rank(Hashes(), key, 5, p));
  }

  /** The entry has gone to the second bucket of its chain, and the first one is marked. */
  lemma SecondTaken<V>(key: nat, t: seq<Bucket<nat, V>>, present: set<nat>, marked: set<nat>,
                       u: seq<Bucket<nat, V>>, p: nat, e: Entry<nat, V>)
    requires Flags(t, present, marked) && First(key) in present && Second(key) !in present
    requires Inserted(Hashes(), key, t, u, p, e)
    ensures Flags(u, present + {Second(key)}, marked + {First(key)})
  {
    SecondIsFree(key, t, present, marked);
    Chain(key);
    hide Place;
    FirstFreeUnique(Hashes(), key, t, 1, Rank(Hashes(), key, 5, p));
    RankOfPlace(Hashes(), key, 5, 0);
  }

  ghost predicate Looks<V>(h: Hashtable<nat, V>, present: set<nat>, marked: set<nat>)
    reads h.Repr()
  {
    && h.Valid() && h.hashing == Hashes() && h.mBucketCount == 5 && h.mCapacity == 3 && h.mLoadFactor == 0.75
    && Flags(h.Buckets(), present, marked)
  }

  method AddFirst<V>(h: Hashtable<nat, V>, key: nat, v: V, ghost present: set<nat>, ghost marked: set<nat>,
    ghost present': set<nat>, ghost marked': set<nat>)
    requires PrimeTable() && Looks(h, present, marked)
    requires First(key) !in present && (First(key) in marked || Used(present, marked) < 3)
    requires present' == present + {First(key)} && marked' == marked
    modifies h.Repr()
    ensures fresh(h.Repr() - old(h.Repr())) && h.mBuckets != null
    ensures Looks(h, present', marked')
  {
    hide Prime, ValidHashing, Place, Presents, Filled, Contents, Table, PRIMES, Inserted, FirstFree, Fits, CanFit, Rebuilt;
    FirstIsFree(key, h.Buckets(), present, marked);
    NeedNotGrow(h, key, 0, present, marked);
    ghost var t := h.Buckets();
    var outcome := h.Add(key, Entry(key, v));
    FirstTaken(key, t, present, marked, h.Buckets(), outcome.index, Entry(key, v));
  }

  method AddSecond<V>(h: Hashtable<nat, V>, key: nat, v: V, ghost present: set<nat>, ghost marked: set<nat>,
    ghost present': set<nat>, ghost marked': set<nat>)
    requires PrimeTable() && Looks(h, present, marked)
    requires First(key) in present && Second(key) !in present && (Second(key) in marked || Used(present, marked) < 3)
    requires present' == present + {Second(key)} && marked' == marked + {First(key)}
    modifies h.Repr()
    ensures fresh(h.Repr() - old(h.Repr())) && h.mBuckets != null
    ensures Looks(h, present', marked')
  {
    hide Prime, ValidHashing, Place, Presents, Filled, Contents, Table, PRIMES, Inserted, FirstFree, Fits, CanFit, Rebuilt;
    SecondIsFree(key, h.Buckets(), present, marked);
    NeedNotGrow(h, key, 1, present, marked);
    ghost var t := h.Buckets();
    var outcome := h.Add(key, Entry(key, v));
    SecondTaken(key, t, present, marked, h.Buckets(), outcome.index, Entry(key, v));
  }

  lemma NeedNotGrow<V>(h: Hashtable<nat, V>, key: nat, k: nat, present: set<nat>, marked: set<nat>)
    requires Looks(h, present, marked) && FirstFree(Hashes(), key, h.Buckets(), k)
    requires Place(Hashes(), key, 5, k) in marked || Used(present, marked) < 3
    ensures !h.MustGrow(key)
  {
    hide Prime, ValidHashing, Place, Presents, Filled, Contents, Table, PRIMES, FirstFree;
    FilledIs(h.Buckets(), present, marked);
    if h.mBuckets != null {
      h.GrowWhen(key, k);
    }
  }

  method Remove<V>(h: Hashtable<nat, V>, index: nat, ghost present: set<nat>, ghost marked: set<nat>,
    ghost present': set<nat>, ghost marked': set<nat>)
    requires Looks(h, present, marked) && h.mBuckets != null && index in present && index < 5
    requires present' == present - {index} && marked' == marked
    modifies h.Repr()
    ensures fresh(h.Repr() - old(h.Repr())) && h.mBuckets != null
    ensures Looks(h, present', marked')
  {
    hide Prime, ValidHashing, Place, Presents, Filled, Contents, Table, PRIMES;
    h.RemoveAt(index);
  }

  /** On an empty table with all capacity taken up by tombstones, add drops the storage. */
  method AddFails<V>(h: Hashtable<nat, V>, key: nat, v: V, ghost marked: set<nat>) returns (outcome: Outcome)
    requires PrimeTable() && Looks(h, {}, marked) && h.mBuckets != null
    requires First(key) !in marked && Used({}, marked) == 3
    modifies h.Repr()
    ensures outcome.StorageDropped? && h.mBuckets == null
  {
    hide Prime, ValidHashing, Place, Presents, Filled, Contents, Table, PRIMES, Inserted, FirstFree, Fits, CanFit, Rebuilt;
    ghost var t := h.Buckets();
    FirstIsFree(key, t, {}, marked);
    FilledIs(t, {}, marked);
    NoEntries(t);
    h.GrowWhen(key, 0);
    CanFitSix();
    outcome := h.Add(key, Entry(key, v));
  }

  lemma CanFitSix()
    ensures CanFit(6, 0.75)
  {
    assert PRIMES[28] == 1685759167 && |PRIMES| == 29;
    hide PRIMES;
    assert 6 as real / 0.75 == 8.0;
  }

  /** A new table for three entries has five buckets, none present or marked. */
  method Fresh<V>() returns (h: Hashtable<nat, V>)
    requires PrimeTable()
    ensures fresh(h) && fresh(h.Repr()) && Looks(h, {}, {})
  {
    hide PRIMES;
    DefaultCapacity();
    FitsUnique(3, 0.75, 5, 3);
    h := new Hashtable(Hashes(), 3, 0.75);
  }

  method FillFirst<V>(h: Hashtable<nat, V>, v: V)
    requires PrimeTable() && Looks(h, {}, {})
    modifies h.Repr()
    ensures fresh(h.Repr() - old(h.Repr())) && h.mBuckets != null && Looks(h, {0, 1}, {0, 1})
  {
    hide PRIMES, Looks, PrimeTable;
    AddFirst(h, 0, v, {}, {}, {0}, {});
    AddSecond(h, 20, v, {0}, {}, {0, 1}, {0});
    Remove(h, 0, {0, 1}, {0}, {1}, {0});
    AddSecond(h, 16, v, {1}, {0}, {0, 1}, {0, 1});
  }

  method FillMore<V>(h: Hashtable<nat, V>, v: V)
    requires PrimeTable() && Looks(h, {0, 1}, {0, 1})
    modifies h.Repr()
    ensures fresh(h.Repr() - old(h.Repr())) && h.mBuckets != null && Looks(h, {0, 1, 2}, {0, 1, 2})
  {
    hide PRIMES, Looks, PrimeTable;
    AddFirst(h, 2, v, {0, 1}, {0, 1}, {0, 1, 2}, {0, 1});
    Remove(h, 0, {0, 1, 2}, {0, 1}, {1, 2}, {0, 1});
    AddSecond(h, 12, v, {1, 2}, {0, 1}, {0, 1, 2}, {0, 1, 2});
  }

  method RemoveThree<V>(h: Hashtable<nat, V>)
    requires Looks(h, {0, 1, 2}, {0, 1, 2}) && h.mBuckets != null
    modifies h.Repr()
    ensures fresh(h.Repr() - old(h.Repr())) && h.mBuckets != null && Looks(h, {}, {0, 1, 2})
  {
    hide PRIMES, Looks;
    Remove(h, 0, {0, 1, 2}, {0, 1, 2}, {1, 2}, {0, 1, 2});
    Remove(h, 1, {1, 2}, {0, 1, 2}, {2}, {0, 1, 2});
    Remove(h, 2, {2}, {0, 1, 2}, {}, {0, 1, 2});
  }

  /** Five adds and five removals leave the empty table with three tombstones; the next add must grow it, and drops
      its storage. */
  method FillWithTombstones<V>(v: V) returns (outcome: Outcome)
    requires PrimeTable()
    ensures outcome.StorageDropped?
  {
    hide PRIMES, Looks, PrimeTable;
    var h := Fresh<V>();
    FillFirst(h, v);
    FillMore(h, v);
    RemoveThree(h);
    outcome := AddFails(h, 3, v, {0, 1, 2});
  }
}
