/** Hash tables that share bucket storage: every owner count is the number of tables sharing, and no operation on
    one table changes what another holds. */
module HashtableSharing {
  import opened Probing
  import opened BucketTable
  import opened BasicHashtable
  import opened Wrappers

  ghost function Sharers<K, V>(world: set<Hashtable<K, V>>, b: Storage<K, V>): set<Hashtable<K, V>>
    reads world
  {
    set h | h in world && h.mBuckets == b
  }

  ghost function Storages<K, V>(world: set<Hashtable<K, V>>): set<Storage<K, V>>
    reads world
  {
    set h | h in world && h.mBuckets != null :: h.mBuckets
  }

  /** The owner count of a storage is the number of tables sharing it. */
  ghost predicate Counted<K, V>(world: set<Hashtable<K, V>>)
    reads world, Storages(world)
  {
    forall h :: h in world && h.mBuckets != null ==> h.mBuckets.refs == |Sharers(world, h.mBuckets)|
  }

  ghost predicate Apart<K, V>(world: set<Hashtable<K, V>>)
    reads world
  {
    forall g, h :: g in world && h in world && g.mBuckets != null && h.mBuckets != null && g.mBuckets != h.mBuckets ==>
      g.mBuckets.data != h.mBuckets.data
  }

  ghost predicate Coherent<K, V>(world: set<Hashtable<K, V>>)
    reads *
  {
    Counted(world) && Apart(world) && forall h :: h in world ==> h.Valid()
  }

  datatype Operation<K, V> =
    | Add(hash: nat, entry: Entry<K, V>)
    | RemoveAt(index: nat)
    | Rehash(minimum: nat, loadFactor: real)
    | Clear

  ghost predicate Enabled<K, V>(h: Hashtable<K, V>, op: Operation<K, V>)
    requires h.Valid()
    reads h.Repr()
  {
    match op
    case Add(hash, entry) => PrimeTable() && hash == h.hashing.hashOf(entry.key)
    case RemoveAt(index) => h.mBuckets != null && index < h.mBucketCount && h.mBuckets.data[index].present
    case Rehash(_, f) => PrimeTable() && LoadFactor(f)
    case Clear => true
  }

  /** Adding fails exactly if the table must grow and either is empty or can not. */
  ghost predicate Fails<K, V>(h: Hashtable<K, V>, hash: nat)
    requires h.Valid()
    reads h.Repr()
  {
    h.MustGrow(hash) && (h.mSize == 0 || !CanFit(h.mCapacity * 2, h.mLoadFactor))
  }

  /** What an operation makes of the items of its table. */
  ghost function After<K, V>(h: Hashtable<K, V>, op: Operation<K, V>): multiset<Entry<K, V>>
    requires h.Valid() && Enabled(h, op)
    reads h.Repr()
  {
    match op
    case Add(hash, entry) => h.Items() + if Fails(h, hash) then multiset{} else multiset{entry}
    case RemoveAt(index) => h.Items() - EntriesOf(h.mBuckets.data[index])
    case Rehash(_, _) => h.Items()
    case Clear => multiset{}
  }

  /** Any operation.  Afterwards the table still has its storage, which stays as it is if it is shared, or has let
      go of it for none or for one of its own. */
  method Perform<K, V>(h: Hashtable<K, V>, op: Operation<K, V>)
    requires h.Valid() && Enabled(h, op)
    modifies h.Repr()
    ensures h.Valid() && h.Items() == old(After(h, op))
    ensures if h.mBuckets == old(h.mBuckets) then h.mBuckets != null ==> h.mBuckets.refs == old(h.mBuckets.refs)
      else h.mBuckets == null || (fresh(h.mBuckets) && fresh(h.mBuckets.data) && h.mBuckets.refs == 1)
    ensures old(h.mBuckets) != null && old(h.mBuckets.refs) > 1 ==>
      && old(h.mBuckets).data[..] == old(h.mBuckets.data[..])
      && (h.mBuckets != old(h.mBuckets) ==> old(h.mBuckets).refs == old(h.mBuckets.refs) - 1)
  {
    hide Prime, ValidHashing, Place, Presents, Filled, Contents, PRIMES, Table, Fits, CanFit, Rebuilt, Inserted;
    hide Hashtable.MustGrow;
    match op {
      case Add(hash, entry) => var outcome := h.Add(hash, entry);
      case RemoveAt(index) =>
        PresentEntry(h.hashing, h.mBuckets.data[..], index);
        h.RemoveAt(index);
      case Rehash(minimum, f) => var found := h.Rehash(minimum, f);
      case Clear => h.Clear();
    }
  }

  lemma OnlyOwner<K, V>(world: set<Hashtable<K, V>>, h: Hashtable<K, V>)
    requires Counted(world) && Apart(world) && h in world && h.mBuckets != null && h.mBuckets.refs == 1
    ensures forall u :: u in world && u != h && u.mBuckets != null ==>
      u.mBuckets != h.mBuckets && u.mBuckets.data != h.mBuckets.data
  {
    assert h in Sharers(world, h.mBuckets) && |Sharers(world, h.mBuckets) - {h}| == 0;
    forall u | u in world && u != h && u.mBuckets != null
      ensures u.mBuckets != h.mBuckets
    {
      assert u !in Sharers(world, h.mBuckets) - {h};
    }
  }

  /** The operation, and what it means for the other tables. */
  method PerformBeside<K, V>(ghost world: set<Hashtable<K, V>>, h: Hashtable<K, V>, op: Operation<K, V>)
    requires Coherent(world) && h in world && Enabled(h, op)
    modifies h.Repr()
    ensures h.Valid() && h.Items() == old(After(h, op))
    ensures forall u :: u in world && u != h ==> u.Valid() && u.Items() == old(u.Items())
    ensures if h.mBuckets == old(h.mBuckets) then h.mBuckets != null ==> h.mBuckets.refs == old(h.mBuckets.refs)
      else h.mBuckets == null || (fresh(h.mBuckets) && fresh(h.mBuckets.data) && h.mBuckets.refs == 1)
    ensures old(h.mBuckets) != null && old(h.mBuckets.refs) > 1 && h.mBuckets != old(h.mBuckets) ==>
      old(h.mBuckets).refs == old(h.mBuckets.refs) - 1
    ensures old(h.mBuckets) != null && old(h.mBuckets.refs) == 1 ==>
      forall u :: u in world && u != h ==> u.mBuckets != old(h.mBuckets)
  {
    hide Prime, ValidHashing, Place, Presents, Filled, Contents, PRIMES, Table, After;
    ghost var was := h.mBuckets;
    if was != null && was.refs == 1 {
      OnlyOwner(world, h);
    }
    Perform(h, op);
    forall u | u in world && u != h
      ensures u.Valid() && u.Items() == old(u.Items())
    {
      assert old(u.Valid());
      if u.mBuckets != null && u.mBuckets == was {
        assert u.mBuckets.data[..] == old(u.mBuckets.data[..]);
      }
    }
  }

  /** Over any operation the counts stay the numbers of tables sharing, and no other table's items change. */
  method PerformIn<K, V>(ghost world: set<Hashtable<K, V>>, h: Hashtable<K, V>, op: Operation<K, V>)
    requires Coherent(world) && h in world && Enabled(h, op)
    modifies h.Repr()
    ensures Coherent(world) && h.Items() == old(After(h, op))
    ensures forall u :: u in world && u != h ==> u.Items() == old(u.Items())
  {
    hide Hashtable.Valid, Hashtable.Items, PRIMES, After, Enabled;
    ghost var was := h.mBuckets;
    ghost var sharers := if was == null then {} else Sharers(world, was);
    PerformBeside(world, h, op);
    forall u | u in world && u.mBuckets != null
      ensures u.mBuckets.refs == |Sharers(world, u.mBuckets)|
    {
      if u.mBuckets == was {
        assert Sharers(world, was) == if h.mBuckets == was then sharers else sharers - {h};
      } else if u.mBuckets == h.mBuckets {
        assert Sharers(world, h.mBuckets) == {h};
      } else {
        assert Sharers(world, u.mBuckets) == old(Sharers(world, u.mBuckets));
      }
    }
  }

  method CopyBeside<K, V>(ghost world: set<Hashtable<K, V>>, other: Hashtable<K, V>) returns (c: Hashtable<K, V>)
    requires Coherent(world) && other in world
    modifies other.mBuckets
    ensures fresh(c) && c.Valid() && c.Items() == old(other.Items()) && c.mBuckets == other.mBuckets
    ensures c.mBuckets != null ==> c.mBuckets.refs == old(other.mBuckets.refs) + 1
    ensures forall u :: u in world ==> u.Valid() && u.Items() == old(u.Items())
  {
    hide Prime, ValidHashing, Place, Presents, Filled, Contents, PRIMES, Table;
    c := new Hashtable.Copy(other);
    forall u | u in world
      ensures u.Valid() && u.Items() == old(u.Items())
    {
      assert old(u.Valid());
    }
  }

  /** A copy shares the storage. */
  method CopyIn<K, V>(ghost world: set<Hashtable<K, V>>, other: Hashtable<K, V>) returns (c: Hashtable<K, V>)
    requires Coherent(world) && other in world
    modifies other.mBuckets
    ensures fresh(c) && Coherent(world + {c}) && c.Items() == old(other.Items())
    ensures forall u :: u in world ==> u.Items() == old(u.Items())
  {
    hide Hashtable.Valid, Hashtable.Items, PRIMES;
    c := CopyBeside(world, other);
    forall u | u in world + {c} && u.mBuckets != null
      ensures u.mBuckets.refs == |Sharers(world + {c}, u.mBuckets)|
    {
      if u.mBuckets == c.mBuckets {
        assert Sharers(world + {c}, u.mBuckets) == old(Sharers(world, other.mBuckets)) + {c};
      } else {
        assert Sharers(world + {c}, u.mBuckets) == old(Sharers(world, u.mBuckets));
      }
    }
  }

  method DisposeBeside<K, V>(ghost world: set<Hashtable<K, V>>, h: Hashtable<K, V>)
    requires Coherent(world) && h in world
    modifies h.mBuckets, if h.mBuckets == null then null else h.mBuckets.data
    ensures forall u :: u in world && u != h ==> u.Valid() && u.Items() == old(u.Items())
    ensures h.mBuckets != null ==>
      && h.mBuckets.refs == old(h.mBuckets.refs) - 1
      && if old(h.mBuckets.refs) > 1 then h.mBuckets.data[..] == old(h.mBuckets.data[..])
         else forall i :: 0 <= i < h.mBuckets.data.Length ==> h.mBuckets.data[i].present ==> h.mBuckets.data[i].entry.None?
  {
    hide Prime, ValidHashing, Place, Presents, Filled, Contents, PRIMES, Table;
    if h.mBuckets != null && h.mBuckets.refs == 1 {
      OnlyOwner(world, h);
    }
    h.Dispose();
    forall u | u in world && u != h
      ensures u.Valid() && u.Items() == old(u.Items())
    {
      assert old(u.Valid());
    }
  }

  /** A table that goes takes the entries along exactly if nobody shares its storage. */
  method DisposeIn<K, V>(ghost world: set<Hashtable<K, V>>, h: Hashtable<K, V>)
    requires Coherent(world) && h in world
    modifies h.mBuckets, if h.mBuckets == null then null else h.mBuckets.data
    ensures Coherent(world - {h})
    ensures forall u :: u in world - {h} ==> u.Items() == old(u.Items())
    ensures h.mBuckets != null ==>
      if Sharers(world, h.mBuckets) == {h}
      then forall i :: 0 <= i < h.mBuckets.data.Length ==> h.mBuckets.data[i].present ==> h.mBuckets.data[i].entry.None?
      else h.mBuckets.data[..] == old(h.mBuckets.data[..])
  {
    hide Hashtable.Valid, Hashtable.Items, PRIMES;
    ghost var rest, was := world - {h}, h.mBuckets;
    ghost var sharers := if was == null then {} else Sharers(world, was);
    DisposeBeside(world, h);
    forall u | u in rest && u.mBuckets != null
      ensures u.mBuckets.refs == |Sharers(rest, u.mBuckets)|
    {
      if u.mBuckets == was {
        assert Sharers(rest, was) == sharers - {h};
      } else {
        assert Sharers(rest, u.mBuckets) == old(Sharers(world, u.mBuckets));
      }
    }
    if was != null {
      assert h in sharers && |sharers - {h}| == |sharers| - 1;
      assert sharers == {h} <==> sharers - {h} == {};
    }
  }
}
