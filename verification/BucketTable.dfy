/** What a sequence of buckets means: which entries it holds and which entries a probe chain finds. */
module BucketTable {
  import opened Probing
  import opened Wrappers

  datatype Entry<K, V> = Entry(key: K, value: V)

  /** The cookie's PRESENT and COLLISION flags and its hash, and the entry constructed in the bucket. */
  datatype Bucket<K, V> = Bucket(present: bool, collision: bool, hash: nat, entry: Option<Entry<K, V>>)

  ghost predicate BucketInv<K, V>(hs: Hashing<K>, b: Bucket<K, V>) {
    && (b.present <==> b.entry.Some?)
    && (b.present ==> b.hash == hs.hashOf(b.entry.value.key))
  }

  /** Every present entry can be reached: COLLISION is set on every earlier bucket of its chain. */
  ghost predicate Reachable<K, V>(hs: Hashing<K>, t: seq<Bucket<K, V>>, i: nat)
    requires Prime(|t|) && ValidHashing(hs) && i < |t|
  {
    t[i].present ==> forall j :: 0 <= j < Rank(hs, t[i].hash, |t|, i) ==> t[Place(hs, t[i].hash, |t|, j)].collision
  }

  ghost predicate Table<K, V>(hs: Hashing<K>, t: seq<Bucket<K, V>>) {
    && Prime(|t|) && ValidHashing(hs)
    && (forall i :: 0 <= i < |t| ==> BucketInv(hs, t[i]))
    && forall i :: 0 <= i < |t| ==> Reachable(hs, t, i)
  }

  function One(b: bool): nat { if b then 1 else 0 }

  function Presents<K, V>(t: seq<Bucket<K, V>>): nat {
    if t == [] then 0 else One(t[0].present) + Presents(t[1..])
  }

  /** Buckets that are present or a tombstone on some chain. */
  function Filled<K, V>(t: seq<Bucket<K, V>>): nat {
    if t == [] then 0 else One(t[0].present || t[0].collision) + Filled(t[1..])
  }

  ghost function EntriesOf<K, V>(b: Bucket<K, V>): multiset<Entry<K, V>> {
    if b.present && b.entry.Some? then multiset{b.entry.value} else multiset{}
  }

  /** The multimap a table stands for. */
  ghost function Contents<K, V>(t: seq<Bucket<K, V>>): multiset<Entry<K, V>> {
    if t == [] then multiset{} else EntriesOf(t[0]) + Contents(t[1..])
  }

  // ------------------------------------------------------------ counting

  lemma {:induction false} UpdatePresents<K, V>(t: seq<Bucket<K, V>>, i: nat, b: Bucket<K, V>)
    requires i < |t|
    ensures Presents(t[i := b]) == Presents(t) - One(t[i].present) + One(b.present)
  {
    if i == 0 {
      assert t[i := b][1..] == t[1..];
    } else {
      UpdatePresents(t[1..], i - 1, b);
      assert t[i := b][1..] == t[1..][i - 1 := b];
    }
  }

  lemma {:induction false} UpdateFilled<K, V>(t: seq<Bucket<K, V>>, i: nat, b: Bucket<K, V>)
    requires i < |t|
    ensures Filled(t[i := b]) == Filled(t) - One(t[i].present || t[i].collision) + One(b.present || b.collision)
  {
    if i == 0 {
      assert t[i := b][1..] == t[1..];
    } else {
      UpdateFilled(t[1..], i - 1, b);
      assert t[i := b][1..] == t[1..][i - 1 := b];
    }
  }

  lemma {:induction false} UpdateContents<K, V>(t: seq<Bucket<K, V>>, i: nat, b: Bucket<K, V>)
    requires i < |t|
    ensures EntriesOf(t[i]) <= Contents(t)
    ensures Contents(t[i := b]) == Contents(t) - EntriesOf(t[i]) + EntriesOf(b)
  {
    hide EntriesOf;
    if i == 0 {
      assert t[i := b][1..] == t[1..];
    } else {
      UpdateContents(t[1..], i - 1, b);
      assert t[i := b][1..] == t[1..][i - 1 := b];
    }
  }

  lemma UpdateCounts<K, V>(t: seq<Bucket<K, V>>, i: nat, b: Bucket<K, V>)
    requires i < |t|
    ensures Presents(t[i := b]) == Presents(t) - One(t[i].present) + One(b.present)
    ensures Filled(t[i := b]) == Filled(t) - One(t[i].present || t[i].collision) + One(b.present || b.collision)
    ensures EntriesOf(t[i]) <= Contents(t)
    ensures Contents(t[i := b]) == Contents(t) - EntriesOf(t[i]) + EntriesOf(b)
  {
    hide *;
    UpdatePresents(t, i, b);
    UpdateFilled(t, i, b);
    UpdateContents(t, i, b);
  }

  /** Setting COLLISION on present buckets changes no count. */
  lemma {:induction false} SameCounts<K, V>(t: seq<Bucket<K, V>>, t': seq<Bucket<K, V>>)
    requires |t'| == |t|
    requires forall i :: 0 <= i < |t| ==>
      t'[i].present == t[i].present && t'[i].entry == t[i].entry
      && (t'[i].collision == t[i].collision || t[i].present)
    ensures Presents(t') == Presents(t) && Filled(t') == Filled(t) && Contents(t') == Contents(t)
  {
    if t != [] {
      SameCounts(t[1..], t'[1..]);
    }
  }

  lemma {:induction false} CountBounds<K, V>(t: seq<Bucket<K, V>>)
    ensures Presents(t) <= Filled(t) <= |t|
  {
    if t != [] {
      CountBounds(t[1..]);
    }
  }

  lemma {:induction false} EmptyBucket<K, V>(t: seq<Bucket<K, V>>) returns (i: nat)
    requires Filled(t) < |t|
    ensures i < |t| && !t[i].present && !t[i].collision
  {
    CountBounds(t[1..]);
    if t[0].present || t[0].collision {
      i := EmptyBucket(t[1..]);
      i := i + 1;
    } else {
      i := 0;
    }
  }

  lemma {:induction false} NonePresent<K, V>(t: seq<Bucket<K, V>>)
    requires Presents(t) == 0
    ensures forall i :: 0 <= i < |t| ==> !t[i].present
    ensures Contents(t) == multiset{}
  {
    if t != [] {
      NonePresent(t[1..]);
    }
  }

  predicate Cleared<K, V>(t: seq<Bucket<K, V>>) {
    forall i :: 0 <= i < |t| ==> !t[i].present && !t[i].collision
  }

  lemma {:induction false} ClearedCounts<K, V>(t: seq<Bucket<K, V>>)
    requires Cleared(t)
    ensures Presents(t) == Filled(t) == 0 && Contents(t) == multiset{}
  {
    if t != [] {
      ClearedCounts(t[1..]);
    }
  }

  lemma {:induction false} NoEntries<K, V>(t: seq<Bucket<K, V>>)
    requires forall i :: 0 <= i < |t| ==> !t[i].present
    ensures Presents(t) == 0
  {
    if t != [] {
      NoEntries(t[1..]);
    }
  }

  lemma Unfold<K, V>(t: seq<Bucket<K, V>>, i: nat)
    requires i < |t|
    ensures Presents(t[i..]) == One(t[i].present) + Presents(t[i + 1..])
    ensures Contents(t[i..]) == EntriesOf(t[i]) + Contents(t[i + 1..])
  {
    assert t[i..][1..] == t[i + 1..];
  }

  lemma UnfoldEnd<K, V>(t: seq<Bucket<K, V>>)
    ensures Presents(t[|t|..]) == 0 && Contents(t[|t|..]) == multiset{}
  {
    assert t[|t|..] == [];
  }

  // ------------------------------------------------------------ inserting

  /** t' is t with COLLISION set on the first k places of the chain of h. */
  ghost predicate Marked<K, V>(hs: Hashing<K>, h: nat, t: seq<Bucket<K, V>>, t': seq<Bucket<K, V>>, k: nat)
    requires Prime(|t|) && ValidHashing(hs)
  {
    && |t'| == |t|
    && forall i :: 0 <= i < |t| ==>
         t'[i] == t[i].(collision := t[i].collision || Rank(hs, h, |t|, i) < k)
  }

  ghost predicate ProbedPresent<K, V>(hs: Hashing<K>, h: nat, t: seq<Bucket<K, V>>, k: nat)
    requires |t| >= 2
  {
    forall j :: 0 <= j < k ==> t[Place(hs, h, |t|, j)].present
  }

  /** Place k is the first one of the chain of h whose bucket holds no entry. */
  ghost predicate FirstFree<K, V>(hs: Hashing<K>, h: nat, t: seq<Bucket<K, V>>, k: nat)
    requires |t| >= 2
  {
    k < |t| && ProbedPresent(hs, h, t, k) && !t[Place(hs, h, |t|, k)].present
  }

  lemma FirstFreeUnique<K, V>(hs: Hashing<K>, h: nat, t: seq<Bucket<K, V>>, k: nat, k': nat)
    requires |t| >= 2 && FirstFree(hs, h, t, k) && FirstFree(hs, h, t, k')
    ensures k == k'
  {
    if k < k' {
      assert false;
    }
  }

  lemma MarkNext<K, V>(hs: Hashing<K>, h: nat, t: seq<Bucket<K, V>>, t': seq<Bucket<K, V>>, k: nat)
    requires Prime(|t|) && ValidHashing(hs) && k < |t| && Marked(hs, h, t, t', k)
    ensures var i := Place(hs, h, |t|, k); Marked(hs, h, t, t'[i := t'[i].(collision := true)], k + 1)
  {
    var n := |t|;
    var p := Place(hs, h, n, k);
    RankOfPlace(hs, h, n, k);
    assert forall i :: 0 <= i < n && i != p ==> Rank(hs, h, n, i) != k;
  }

  lemma MarkedChain<K, V>(hs: Hashing<K>, h: nat, t: seq<Bucket<K, V>>, t': seq<Bucket<K, V>>, k: nat)
    requires Prime(|t|) && ValidHashing(hs) && k <= |t| && Marked(hs, h, t, t', k)
    ensures forall j :: 0 <= j < k ==> t'[Place(hs, h, |t|, j)].collision
  {
    forall j | 0 <= j < k
      ensures t'[Place(hs, h, |t|, j)].collision
    {
      RankOfPlace(hs, h, |t|, j);
    }
  }

  lemma MarkedTable<K, V>(hs: Hashing<K>, h: nat, t: seq<Bucket<K, V>>, t': seq<Bucket<K, V>>, k: nat)
    requires Table(hs, t) && Marked(hs, h, t, t', k) && k <= |t| && ProbedPresent(hs, h, t, k)
    ensures Table(hs, t')
    ensures Presents(t') == Presents(t) && Filled(t') == Filled(t) && Contents(t') == Contents(t)
  {
    var n := |t|;
    forall i | 0 <= i < n
      ensures BucketInv(hs, t'[i]) && Reachable(hs, t', i)
    {
      assert BucketInv(hs, t[i]) && Reachable(hs, t, i);
    }
    forall i | 0 <= i < n && Rank(hs, h, n, i) < k
      ensures t[i].present
    {
      assert t[Place(hs, h, n, Rank(hs, h, n, i))].present;
    }
    SameCounts(t, t');
  }

  lemma FreeMarked<K, V>(hs: Hashing<K>, h: nat, t: seq<Bucket<K, V>>, t': seq<Bucket<K, V>>, k: nat)
    requires Table(hs, t) && FirstFree(hs, h, t, k) && Marked(hs, h, t, t', k)
    ensures t'[Place(hs, h, |t|, k)] == t[Place(hs, h, |t|, k)]
    ensures Table(hs, t')
    ensures Presents(t') == Presents(t) && Filled(t') == Filled(t) && Contents(t') == Contents(t)
  {
    hide Table, Place, ValidHashing, Presents, Filled, Contents;
    assert Prime(|t|) && ValidHashing(hs) by { TableHashing(hs, t); }
    RankOfPlace(hs, h, |t|, k);
    MarkedTable(hs, h, t, t', k);
  }

  lemma TableHashing<K, V>(hs: Hashing<K>, t: seq<Bucket<K, V>>)
    requires Table(hs, t)
    ensures Prime(|t|) && ValidHashing(hs)
  {
  }

  /** Storing an entry of hash h at the first free place of its chain keeps every chain intact. */
  lemma InsertReachable<K, V>(hs: Hashing<K>, h: nat, t: seq<Bucket<K, V>>, k: nat, b: Bucket<K, V>, i: nat)
    requires Prime(|t|) && ValidHashing(hs) && k < |t| && i < |t|
    requires forall j :: 0 <= j < |t| ==> Reachable(hs, t, j)
    requires b.hash == h && b.collision == t[Place(hs, h, |t|, k)].collision
    requires forall j :: 0 <= j < k ==> t[Place(hs, h, |t|, j)].collision
    ensures Reachable(hs, t[Place(hs, h, |t|, k) := b], i)
  {
    var n := |t|;
    var p := Place(hs, h, n, k);
    RankOfPlace(hs, h, n, k);
    assert Reachable(hs, t, i);
  }

  /** The entry e, of hash h, is stored at the first free place of its chain. */
  lemma InsertKeepsTable<K, V>(hs: Hashing<K>, h: nat, t: seq<Bucket<K, V>>, t': seq<Bucket<K, V>>, k: nat,
                              e: Entry<K, V>)
    requires Table(hs, t) && FirstFree(hs, h, t, k) && Marked(hs, h, t, t', k) && h == hs.hashOf(e.key)
    ensures var p := Place(hs, h, |t|, k);
      var u := t'[p := Bucket(true, t[p].collision, h, Some(e))];
      && Table(hs, u)
      && Presents(u) == Presents(t) + 1
      && Filled(u) == Filled(t) + One(!t[p].collision)
      && Contents(u) == Contents(t) + multiset{e}
  {
    hide Place, ValidHashing, Presents, Filled, Contents;
    var n := |t|;
    var p := Place(hs, h, n, k);
    MarkedTable(hs, h, t, t', k);
    RankOfPlace(hs, h, n, k);
    var b := Bucket(true, t[p].collision, h, Some(e));
    UpdateCounts(t', p, b);
    MarkedChain(hs, h, t, t', k);
    var u := t'[p := b];
    forall i | 0 <= i < n
      ensures BucketInv(hs, u[i]) && Reachable(hs, u, i)
    {
      assert BucketInv(hs, t'[i]);
      InsertReachable(hs, h, t', k, b, i);
    }
  }

  /** t' is t with the entry e, of hash h, in the first free bucket of its chain, which is bucket p, and with
      COLLISION set on the buckets of the chain before it. */
  ghost predicate Inserted<K, V>(hs: Hashing<K>, h: nat, t: seq<Bucket<K, V>>, t': seq<Bucket<K, V>>, p: nat,
                              e: Entry<K, V>)
  {
    && Prime(|t|) && ValidHashing(hs) && p < |t| == |t'| && FirstFree(hs, h, t, Rank(hs, h, |t|, p))
    && forall i :: 0 <= i < |t| ==>
         t'[i] == if i == p then Bucket(true, t[p].collision, h, Some(e))
                  else t[i].(collision := t[i].collision || Rank(hs, h, |t|, i) < Rank(hs, h, |t|, p))
  }

  lemma MarkedThenStored<K, V>(hs: Hashing<K>, h: nat, t: seq<Bucket<K, V>>, t': seq<Bucket<K, V>>, k: nat,
                              e: Entry<K, V>)
    requires Prime(|t|) && ValidHashing(hs) && FirstFree(hs, h, t, k) && Marked(hs, h, t, t', k)
    ensures var p := Place(hs, h, |t|, k);
      Inserted(hs, h, t, t'[p := Bucket(true, t[p].collision, h, Some(e))], p, e)
  {
    hide Place, Prime, ValidHashing;
    RankOfPlace(hs, h, |t|, k);
  }

  /** No tombstones: every bucket with COLLISION set holds an entry. */
  predicate Tight<K, V>(t: seq<Bucket<K, V>>) {
    forall i :: 0 <= i < |t| ==> t[i].collision ==> t[i].present
  }

  lemma InsertKeepsTight<K, V>(hs: Hashing<K>, h: nat, t: seq<Bucket<K, V>>, t': seq<Bucket<K, V>>, k: nat,
                              b: Bucket<K, V>)
    requires Prime(|t|) && ValidHashing(hs) && Tight(t)
    requires FirstFree(hs, h, t, k) && Marked(hs, h, t, t', k) && b.present
    ensures Tight(t'[Place(hs, h, |t|, k) := b])
  {
    var u := t'[Place(hs, h, |t|, k) := b];
    forall i | 0 <= i < |u| && u[i].collision
      ensures u[i].present
    {
      if Rank(hs, h, |t|, i) < k {
        assert t[Place(hs, h, |t|, Rank(hs, h, |t|, i))].present;
      }
    }
  }

  /** Entries of the first n buckets of t are in u in buckets at, and those of equal hash in the order of their
      chain. */
  ghost predicate Moved<K, V>(hs: Hashing<K>, t: seq<Bucket<K, V>>, n: nat, u: seq<Bucket<K, V>>, at: seq<nat>) {
    && Prime(|u|) && ValidHashing(hs) && |at| == n <= |t|
    && (forall i :: 0 <= i < n && t[i].present ==> SameEntry(t[i], u, at[i]))
    && forall i, j :: 0 <= i < j < n && t[i].present && t[j].present && t[i].hash == t[j].hash ==>
         Rank(hs, t[i].hash, |u|, at[i]) < Rank(hs, t[i].hash, |u|, at[j])
  }

  ghost predicate SameEntry<K, V>(b: Bucket<K, V>, u: seq<Bucket<K, V>>, p: nat) {
    p < |u| && u[p].present && u[p].hash == b.hash && u[p].entry == b.entry
  }

  /** In a table without tombstones a new entry ends up behind all others of its hash. */
  lemma InsertedBehind<K, V>(hs: Hashing<K>, h: nat, u: seq<Bucket<K, V>>, u': seq<Bucket<K, V>>, p: nat,
                             e: Entry<K, V>, q: nat)
    requires Table(hs, u) && Tight(u) && Inserted(hs, h, u, u', p, e)
    requires q < |u| && u[q].present && u[q].hash == h
    ensures Rank(hs, h, |u|, q) < Rank(hs, h, |u|, p)
  {
    hide Place, ValidHashing;
    var n := |u|;
    var r, k := Rank(hs, h, n, q), Rank(hs, h, n, p);
    assert Reachable(hs, u, q);
    if k < r {
      assert false;
    }
  }

  lemma MovedNext<K, V>(hs: Hashing<K>, t: seq<Bucket<K, V>>, n: nat, u: seq<Bucket<K, V>>, u': seq<Bucket<K, V>>,
                        p: nat, at: seq<nat>)
    requires Moved(hs, t, n, u, at) && n < |t| && t[n].present && t[n].entry.Some?
    requires Table(hs, u) && Tight(u) && Inserted(hs, t[n].hash, u, u', p, t[n].entry.value)
    ensures Moved(hs, t, n + 1, u', at + [p])
  {
    hide Place, ValidHashing, Prime, FirstFree, Table, Tight;
    forall i | 0 <= i < n && t[i].present
      ensures SameEntry(t[i], u', at[i])
      ensures t[i].hash == t[n].hash ==> Rank(hs, t[i].hash, |u|, at[i]) < Rank(hs, t[i].hash, |u|, p)
    {
      assert SameEntry(t[i], u, at[i]);
      assert !u[p].present by { StoredInFree(hs, t[n].hash, u, u', p, t[n].entry.value); }
      if t[i].hash == t[n].hash {
        InsertedBehind(hs, t[n].hash, u, u', p, t[n].entry.value, at[i]);
      }
    }
  }

  lemma MovedSkips<K, V>(hs: Hashing<K>, t: seq<Bucket<K, V>>, n: nat, u: seq<Bucket<K, V>>, at: seq<nat>)
    requires Moved(hs, t, n, u, at) && n < |t| && !t[n].present
    ensures Moved(hs, t, n + 1, u, at + [0])
  {
    hide Place, ValidHashing, Prime, SameEntry;
  }

  lemma NothingMoved<K, V>(hs: Hashing<K>, t: seq<Bucket<K, V>>, u: seq<Bucket<K, V>>)
    requires Prime(|u|) && ValidHashing(hs)
    ensures Moved(hs, t, 0, u, [])
  {
  }

  lemma StoredInFree<K, V>(hs: Hashing<K>, h: nat, t: seq<Bucket<K, V>>, t': seq<Bucket<K, V>>, p: nat, e: Entry<K, V>)
    requires Inserted(hs, h, t, t', p, e)
    ensures p < |t| && !t[p].present
  {
    hide Place, ValidHashing, Prime;
  }

  // ------------------------------------------------------------ rebuilding

  /** New buckets. */
  function Blank<K, V>(count: nat): seq<Bucket<K, V>> {
    seq(count, _ => Bucket(false, false, 0, None))
  }

  /** The table t with the entry e, of hash h, in the first free bucket of its chain, and the chain marked up to it. */
  ghost function WithEntry<K, V>(hs: Hashing<K>, h: nat, t: seq<Bucket<K, V>>, e: Entry<K, V>): (u: seq<Bucket<K, V>>)
    requires Prime(|t|) && ValidHashing(hs)
    ensures |u| == |t|
  {
    if exists k: nat :: FirstFree(hs, h, t, k) then
      var k: nat :| FirstFree(hs, h, t, k);
      seq(|t|, i requires 0 <= i < |t| =>
        if i == Place(hs, h, |t|, k) then Bucket(true, t[i].collision, h, Some(e))
        else t[i].(collision := t[i].collision || Rank(hs, h, |t|, i) < k))
    else t
  }

  lemma InsertedIs<K, V>(hs: Hashing<K>, h: nat, t: seq<Bucket<K, V>>, u: seq<Bucket<K, V>>, p: nat, e: Entry<K, V>)
    requires Inserted(hs, h, t, u, p, e)
    ensures Prime(|t|) && ValidHashing(hs) && u == WithEntry(hs, h, t, e)
  {
    hide Place, FirstFree;
    var r := Rank(hs, h, |t|, p);
    assert FirstFree(hs, h, t, r);
    var k: nat :| FirstFree(hs, h, t, k)
      && WithEntry(hs, h, t, e) == seq(|t|, i requires 0 <= i < |t| =>
           if i == Place(hs, h, |t|, k) then Bucket(true, t[i].collision, h, Some(e))
           else t[i].(collision := t[i].collision || Rank(hs, h, |t|, i) < k));
    FirstFreeUnique(hs, h, t, r, k);
  }

  /** What moving the entries of the first n buckets of t, in order, into count new buckets yields. */
  ghost function Rebuilt<K, V>(hs: Hashing<K>, t: seq<Bucket<K, V>>, n: nat, count: nat): (u: seq<Bucket<K, V>>)
    requires n <= |t| && Prime(count) && ValidHashing(hs)
    ensures |u| == count
  {
    if n == 0 then Blank(count)
    else
      var u := Rebuilt(hs, t, n - 1, count);
      if t[n - 1].present && t[n - 1].entry.Some? then WithEntry(hs, t[n - 1].hash, u, t[n - 1].entry.value) else u
  }

  lemma RebuiltStart<K, V>(hs: Hashing<K>, t: seq<Bucket<K, V>>, count: nat)
    requires Prime(count) && ValidHashing(hs)
    ensures Rebuilt(hs, t, 0, count) == Blank(count)
  {
  }

  lemma RebuiltSkips<K, V>(hs: Hashing<K>, t: seq<Bucket<K, V>>, n: nat, count: nat)
    requires n < |t| && !t[n].present && Prime(count) && ValidHashing(hs)
    ensures Rebuilt(hs, t, n + 1, count) == Rebuilt(hs, t, n, count)
  {
  }

  lemma RebuiltNext<K, V>(hs: Hashing<K>, t: seq<Bucket<K, V>>, n: nat, v: seq<Bucket<K, V>>, u: seq<Bucket<K,
                          V>>, p: nat)
    requires n < |t| && t[n].present && t[n].entry.Some? && Prime(|v|) && ValidHashing(hs)
    requires v == Rebuilt(hs, t, n, |v|) && Inserted(hs, t[n].hash, v, u, p, t[n].entry.value)
    ensures u == Rebuilt(hs, t, n + 1, |v|)
  {
    hide Inserted, WithEntry, Prime, ValidHashing;
    InsertedIs(hs, t[n].hash, v, u, p, t[n].entry.value);
  }

  ghost predicate SameEntries<K, V>(t: seq<Bucket<K, V>>, t': seq<Bucket<K, V>>) {
    |t'| == |t| && forall i :: 0 <= i < |t| ==> t'[i] == t[i].(collision := t'[i].collision)
  }

  /** Only the entries matter, not the marks. */
  lemma {:induction false} SameRebuilt<K, V>(hs: Hashing<K>, t: seq<Bucket<K, V>>, t': seq<Bucket<K, V>>,
                              n: nat, count: nat)
    requires SameEntries(t, t') && n <= |t| && Prime(count) && ValidHashing(hs)
    ensures Rebuilt(hs, t', n, count) == Rebuilt(hs, t, n, count)
  {
    hide WithEntry, Prime, ValidHashing;
    if n > 0 {
      assert t'[n - 1] == t[n - 1].(collision := t'[n - 1].collision);
      SameRebuilt(hs, t, t', n - 1, count);
    }
  }

  /** Removing an entry leaves its COLLISION flag, so the others stay reachable. */
  lemma RemoveKeepsTable<K, V>(hs: Hashing<K>, t: seq<Bucket<K, V>>, p: nat)
    requires Table(hs, t) && p < |t| && t[p].present
    ensures var u := t[p := t[p].(present := false, entry := None)];
      && Table(hs, u)
      && Presents(u) == Presents(t) - 1
      && Filled(u) == Filled(t) - One(!t[p].collision)
      && t[p].entry.Some? && t[p].entry.value in Contents(t)
      && Contents(u) == Contents(t) - multiset{t[p].entry.value}
  {
    hide Place, ValidHashing, Presents, Filled, Contents;
    var u := t[p := t[p].(present := false, entry := None)];
    UpdateCounts(t, p, u[p]);
    assert BucketInv(hs, t[p]);
    assert EntriesOf(t[p]) == multiset{t[p].entry.value};
    forall i | 0 <= i < |t|
      ensures BucketInv(hs, u[i]) && Reachable(hs, u, i)
    {
      assert BucketInv(hs, t[i]) && Reachable(hs, t, i);
    }
  }

  // ------------------------------------------------------------ finding

  predicate Match<K(==), V>(b: Bucket<K, V>, key: K) {
    b.present && b.entry.Some? && b.entry.value.key == key
  }

  /** The matching buckets from place k of the key's chain on, in chain order. */
  ghost function MatchesFrom<K, V>(hs: Hashing<K>, t: seq<Bucket<K, V>>, key: K, k: nat): seq<nat>
    requires |t| >= 2
    decreases |t| - k
  {
    if k >= |t| then []
    else
      var i := Place(hs, hs.hashOf(key), |t|, k);
      (if Match(t[i], key) then [i] else []) + MatchesFrom(hs, t, key, k + 1)
  }

  ghost predicate Increasing<K>(hs: Hashing<K>, h: nat, n: nat, s: seq<nat>)
    requires Prime(n) && ValidHashing(hs)
  {
    && (forall a :: 0 <= a < |s| ==> s[a] < n)
    && forall a, b :: 0 <= a < b < |s| ==> Rank(hs, h, n, s[a]) < Rank(hs, h, n, s[b])
  }

  lemma {:induction false} InMatches<K, V>(hs: Hashing<K>, t: seq<Bucket<K, V>>, key: K, k: nat, i: nat)
    requires Prime(|t|) && ValidHashing(hs)
    ensures i in MatchesFrom(hs, t, key, k) <==>
      i < |t| && Match(t[i], key) && k <= Rank(hs, hs.hashOf(key), |t|, i)
    decreases |t| - k
  {
    hide Place, ValidHashing, Match;
    var n, h := |t|, hs.hashOf(key);
    if k < n {
      InMatches(hs, t, key, k + 1, i);
      RankOfPlace(hs, h, n, k);
      if i < n && Rank(hs, h, n, i) == k {
        assert i == Place(hs, h, n, k);
      }
    }
  }

  lemma {:induction false} MatchesIncrease<K, V>(hs: Hashing<K>, t: seq<Bucket<K, V>>, key: K, k: nat)
    requires Prime(|t|) && ValidHashing(hs)
    ensures Increasing(hs, hs.hashOf(key), |t|, MatchesFrom(hs, t, key, k))
    decreases |t| - k
  {
    hide Place, ValidHashing, Match;
    var n, h := |t|, hs.hashOf(key);
    if k < n {
      MatchesIncrease(hs, t, key, k + 1);
      RankOfPlace(hs, h, n, k);
      var rest := MatchesFrom(hs, t, key, k + 1);
      forall a | 0 <= a < |rest|
        ensures k < Rank(hs, h, n, rest[a])
      {
        InMatches(hs, t, key, k + 1, rest[a]);
      }
    }
  }

  /** The search from place k meets exactly the matching buckets from there on, in chain order. */
  lemma MatchesFromIs<K, V>(hs: Hashing<K>, t: seq<Bucket<K, V>>, key: K, k: nat)
    requires Prime(|t|) && ValidHashing(hs)
    ensures Increasing(hs, hs.hashOf(key), |t|, MatchesFrom(hs, t, key, k))
    ensures forall i: nat :: i in MatchesFrom(hs, t, key, k) <==>
      i < |t| && Match(t[i], key) && k <= Rank(hs, hs.hashOf(key), |t|, i)
  {
    hide Place, ValidHashing, Match, Increasing, MatchesFrom;
    MatchesIncrease(hs, t, key, k);
    forall i: nat
      ensures i in MatchesFrom(hs, t, key, k) <==>
        i < |t| && Match(t[i], key) && k <= Rank(hs, hs.hashOf(key), |t|, i)
    {
      InMatches(hs, t, key, k, i);
    }
  }

  /** Continuing the search behind the j-th match yields the matches after it: repeated find
      enumerates every entry of the key exactly once. */
  lemma {:induction false} MatchesContinue<K, V>(hs: Hashing<K>, t: seq<Bucket<K, V>>, key: K, k: nat, j: nat)
    requires Prime(|t|) && ValidHashing(hs) && j < |MatchesFrom(hs, t, key, k)|
    ensures var h, s := hs.hashOf(key), MatchesFrom(hs, t, key, k);
      && s[j] < |t|
      && MatchesFrom(hs, t, key, Rank(hs, h, |t|, s[j]) + 1) == s[j + 1..]
    decreases |t| - k
  {
    hide Place, ValidHashing, Match;
    var n, h := |t|, hs.hashOf(key);
    RankOfPlace(hs, h, n, k);
    var p := Place(hs, h, n, k);
    var s := MatchesFrom(hs, t, key, k);
    if Match(t[p], key) {
      assert s == [p] + MatchesFrom(hs, t, key, k + 1);
      if j > 0 {
        MatchesContinue(hs, t, key, k + 1, j - 1);
      }
    } else {
      MatchesContinue(hs, t, key, k + 1, j);
    }
  }

  /** Places whose buckets do not match contribute nothing. */
  lemma {:induction false} MatchesSkip<K, V>(hs: Hashing<K>, t: seq<Bucket<K, V>>, key: K, a: nat, b: nat)
    requires |t| >= 2 && a <= b <= |t|
    requires forall j :: a <= j < b ==> !Match(t[Place(hs, hs.hashOf(key), |t|, j)], key)
    ensures MatchesFrom(hs, t, key, a) == MatchesFrom(hs, t, key, b)
    decreases b - a
  {
    if a < b {
      MatchesSkip(hs, t, key, a + 1, b);
    }
  }

  lemma MatchesStep<K, V>(hs: Hashing<K>, t: seq<Bucket<K, V>>, key: K, k: nat)
    requires |t| >= 2 && k < |t|
    ensures var i := Place(hs, hs.hashOf(key), |t|, k);
      MatchesFrom(hs, t, key, k) == (if Match(t[i], key) then [i] else []) + MatchesFrom(hs, t, key, k + 1)
  {
  }

  lemma {:induction false} NoMatches<K, V>(hs: Hashing<K>, t: seq<Bucket<K, V>>, key: K, k: nat)
    requires |t| >= 2 && forall i :: 0 <= i < |t| ==> !t[i].present
    ensures MatchesFrom(hs, t, key, k) == []
    decreases |t| - k
  {
    if k < |t| {
      NoMatches(hs, t, key, k + 1);
    }
  }

  lemma {:induction false} KeyInContents<K, V>(t: seq<Bucket<K, V>>, key: K)
    ensures (exists e :: e in Contents(t) && e.key == key) <==> (exists i :: 0 <= i < |t| && Match(t[i], key))
  {
    if t != [] {
      KeyInContents(t[1..], key);
      if i :| 0 <= i < |t| && Match(t[i], key) {
        if i == 0 {
          assert t[0].entry.value in Contents(t);
        } else {
          assert Match(t[1..][i - 1], key);
          var e :| e in Contents(t[1..]) && e.key == key;
          assert e in Contents(t);
        }
      }
      if e :| e in Contents(t) && e.key == key {
        if e in EntriesOf(t[0]) {
          assert Match(t[0], key);
        } else {
          assert e in Contents(t[1..]);
          var i :| 0 <= i < |t[1..]| && Match(t[1..][i], key);
          assert Match(t[i + 1], key);
        }
      }
    }
  }

  /** Find succeeds exactly when the multimap has the key. */
  lemma MatchesExactly<K, V>(hs: Hashing<K>, t: seq<Bucket<K, V>>, key: K)
    requires Prime(|t|) && ValidHashing(hs)
    ensures MatchesFrom(hs, t, key, 0) != [] <==> exists e :: e in Contents(t) && e.key == key
  {
    hide Match, Place, ValidHashing, Contents, Increasing, MatchesFrom;
    KeyInContents(t, key);
    MatchesFromIs(hs, t, key, 0);
    var s := MatchesFrom(hs, t, key, 0);
    if s != [] {
      assert s[0] in s;
      assert Match(t[s[0]], key);
    }
    if i: nat :| 0 <= i < |t| && Match(t[i], key) {
      assert i in s;
    }
  }

  lemma PresentEntry<K, V>(hs: Hashing<K>, t: seq<Bucket<K, V>>, i: nat)
    requires Table(hs, t) && i < |t|
    ensures t[i].present ==> t[i].entry.Some? && t[i].hash == hs.hashOf(t[i].entry.value.key)
  {
    assert BucketInv(hs, t[i]);
  }

  /** Nothing matches behind a bucket of the chain whose COLLISION flag is clear. */
  lemma NoMatchBehind<K, V>(hs: Hashing<K>, t: seq<Bucket<K, V>>, key: K, k: nat)
    requires Table(hs, t) && k < |t| && !t[Place(hs, hs.hashOf(key), |t|, k)].collision
    ensures MatchesFrom(hs, t, key, k + 1) == []
  {
    MatchesFromIs(hs, t, key, k + 1);
    var s := MatchesFrom(hs, t, key, k + 1);
    if s != [] {
      assert s[0] in s;
      MatchMarksChain(hs, t, key, s[0], k);
      assert false;
    }
  }

  lemma MatchMarksChain<K, V>(hs: Hashing<K>, t: seq<Bucket<K, V>>, key: K, i: nat, k: nat)
    requires Table(hs, t) && i < |t| && Match(t[i], key)
    requires k < Rank(hs, hs.hashOf(key), |t|, i)
    ensures t[Place(hs, hs.hashOf(key), |t|, k)].collision
  {
    assert BucketInv(hs, t[i]) && Reachable(hs, t, i);
  }

  /** An empty bucket of the chain lies behind all matches. */
  lemma EmptyBehindMatch<K, V>(hs: Hashing<K>, t: seq<Bucket<K, V>>, key: K, i: nat, e: nat)
    requires Table(hs, t) && i < |t| && Match(t[i], key)
    requires e < |t| && !t[e].present && !t[e].collision
    ensures Rank(hs, hs.hashOf(key), |t|, i) < Rank(hs, hs.hashOf(key), |t|, e)
  {
    var h := hs.hashOf(key);
    var a, b := Rank(hs, h, |t|, i), Rank(hs, h, |t|, e);
    if b < a {
      MatchMarksChain(hs, t, key, i, b);
      assert false;
    }
  }
}
