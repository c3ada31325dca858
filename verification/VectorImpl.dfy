/** Copy-on-write vectors over reference-counted buffers. */
module VectorImpl {
  import opened StableSort
  import opened Wrappers

  const MIN_VECTOR_CAPACITY: nat := 4

  function Max(a: nat, b: nat): nat { if a > b then a else b }

  /** The capacity a vector has once it holds n items after growing. */
  function GrownCapacity(capacity: nat, n: nat): nat {
    if capacity < n then Max(MIN_VECTOR_CAPACITY, (n * 3 + 1) / 2) else capacity
  }

  /** The capacity a vector has once it holds n items after shrinking. */
  function ShrunkCapacity(capacity: nat, n: nat): nat {
    if n * 3 < capacity then Max(MIN_VECTOR_CAPACITY, n * 2) else capacity
  }

  /** A buffer that is too small is replaced by the least one of at least four slots and half again as many as
      there are items. */
  lemma GrowthRule(capacity: nat, n: nat, k: nat)
    ensures n <= capacity ==> GrownCapacity(capacity, n) == capacity
    ensures capacity < n ==> (GrownCapacity(capacity, n) <= k <==> 4 <= k && 3 * n <= 2 * k)
  {
  }

  /** A buffer less than a third full is replaced by one of twice as many slots as there are items, but at least
      four. */
  lemma ShrinkRule(capacity: nat, n: nat, k: nat)
    ensures capacity <= 3 * n ==> ShrunkCapacity(capacity, n) == capacity
    ensures 3 * n < capacity ==> (ShrunkCapacity(capacity, n) <= k <==> 4 <= k && 2 * n <= k)
  {
  }

  // ------------------------------------------------------------ the cost of pushing and popping

  /** Items an unshared vector copies for one push or one pop. */
  function PushCost(count: nat, capacity: nat): nat { if capacity < count + 1 then count else 0 }

  function PopCost(count: nat, capacity: nat): nat {
    if count > 0 && (count - 1) * 3 < capacity then count - 1 else 0
  }

  function Positive(x: int): nat { if x > 0 then x else 0 }

  /** Far from half full means credit for the next reallocation. */
  function Potential(count: nat, capacity: nat): nat {
    Positive(3 * count - 2 * capacity) + Positive(capacity - 2 * count)
  }

  lemma PushIsCheap(count: nat, capacity: nat)
    requires count <= capacity
    ensures PushCost(count, capacity) + Potential(count + 1, GrownCapacity(capacity, count + 1))
      <= Potential(count, capacity) + 4
    ensures count + 1 <= GrownCapacity(capacity, count + 1)
  {
  }

  lemma PopIsCheap(count: nat, capacity: nat)
    requires 0 < count <= capacity
    ensures PopCost(count, capacity) + Potential(count - 1, ShrunkCapacity(capacity, count - 1))
      <= Potential(count, capacity) + 4
    ensures count - 1 <= ShrunkCapacity(capacity, count - 1)
  {
  }

  /** The items after a push of the given item or a pop. */
  function AfterOne<T>(items: seq<T>, op: Option<T>): seq<T> {
    if op.Some? then items + [op.value] else if items == [] then [] else items[..|items| - 1]
  }

  function AfterRun<T>(items: seq<T>, ops: seq<Option<T>>): seq<T>
    decreases |ops|
  {
    if ops == [] then items else AfterRun(AfterOne(items, ops[0]), ops[1..])
  }

  // ------------------------------------------------------------ buffers

  /** A slot of a buffer is raw memory or holds a constructed item. */
  class SharedBuffer<T> {
    var mRefs: nat
    const data: array<Option<T>>

    constructor Alloc(size: nat)
      ensures mRefs == 1 && fresh(data) && data.Length == size
      ensures forall i :: 0 <= i < size ==> data[i].None?
    {
      mRefs := 1;
      data := new Option<T>[size](_ => None);
    }

    method Acquire()
      modifies this
      ensures mRefs == old(mRefs) + 1
    {
      mRefs := mRefs + 1;
    }

    method Release() returns (prev: nat)
      requires mRefs >= 1
      modifies this
      ensures prev == old(mRefs) && mRefs == old(mRefs) - 1
    {
      prev := 1;
      if mRefs != 1 {
        prev := mRefs;
        mRefs := mRefs - 1;
      } else {
        mRefs := 0;
      }
    }
  }

  /** Exactly the first n slots hold items. */
  ghost predicate Holds<T>(s: seq<Option<T>>, n: nat) {
    n <= |s| && forall i :: 0 <= i < |s| ==> (s[i].Some? <==> i < n)
  }

  ghost function Values<T>(s: seq<Option<T>>, n: nat): (r: seq<T>)
    requires Holds(s, n)
    ensures |r| == n && forall i :: 0 <= i < n ==> s[i] == Some(r[i])
  {
    seq(n, i requires 0 <= i < n => s[i].value)
  }

  lemma ValuesOf<T>(s: seq<Option<T>>, n: nat)
    requires Holds(s, n)
    ensures |Values(s, n)| == n && forall i :: 0 <= i < n ==> s[i] == Some(Values(s, n)[i])
  {
  }

  lemma RawBehind<T>(s: seq<Option<T>>, n: nat)
    requires Holds(s, n)
    ensures n <= |s| && forall i :: n <= i < |s| ==> s[i].None?
  {
  }

  lemma ValuesAre<T>(s: seq<Option<T>>, n: nat, r: seq<T>)
    requires n <= |s| && |r| == n && forall i :: 0 <= i < |s| ==> s[i] == if i < n then Some(r[i]) else None
    ensures Holds(s, n) && Values(s, n) == r
  {
  }

  /** The items r with amount raw slots in front of position where. */
  ghost predicate Gapped<T>(s: seq<Option<T>>, r: seq<T>, where: nat, amount: nat) {
    && where <= |r| && |r| + amount <= |s|
    && forall i {:trigger s[i]} :: 0 <= i < |s| ==>
         s[i] == if i < where then Some(r[i])
                 else if i < where + amount then None
                 else if i < |r| + amount then Some(r[i - amount])
                 else None
  }

  /** The slots in which items [from, to) of r start at position at. */
  method CopyItems<T>(dest: array<Option<T>>, at: nat, source: array<Option<T>>, from: nat, count: nat)
    requires dest != source && at + count <= dest.Length && from + count <= source.Length
    modifies dest
    ensures forall i :: 0 <= i < dest.Length ==>
      dest[i] == if at <= i < at + count then source[from + i - at] else old(dest[i])
  {
    for k := 0 to count
      invariant forall i :: 0 <= i < dest.Length ==>
        dest[i] == if at <= i < at + k then source[from + i - at] else old(dest[i])
    {
      dest[at + k] := source[from + k];
    }
  }

  ghost predicate Destroyed<T>(t: seq<Option<T>>, s: seq<Option<T>>, at: nat, count: nat) {
    && |s| == |t|
    && forall i {:trigger s[i]} :: 0 <= i < |s| ==> s[i] == if at <= i < at + count then None else t[i]
  }

  /** s is t with count items moved up by amount, leaving raw memory behind. */
  ghost predicate MovedUp<T>(t: seq<Option<T>>, s: seq<Option<T>>, from: nat, amount: nat, count: nat) {
    && |s| == |t|
    && forall i {:trigger s[i]} :: 0 <= i < |s| ==>
         s[i] == if from + amount <= i < from + amount + count then t[i - amount]
                 else if from <= i < from + amount then None
                 else t[i]
  }

  /** s is t with count items moved down by amount, leaving raw memory behind. */
  ghost predicate MovedDown<T>(t: seq<Option<T>>, s: seq<Option<T>>, to: nat, amount: nat, count: nat) {
    && |s| == |t| && to + amount + count <= |t|
    && forall i {:trigger s[i]} :: 0 <= i < |s| ==>
         s[i] == if to <= i < to + count then t[i + amount]
                 else if to + count <= i < to + count + amount then None
                 else t[i]
  }

  method DestroyItems<T>(a: array<Option<T>>, at: nat, count: nat)
    requires at + count <= a.Length
    modifies a
    ensures Destroyed(old(a[..]), a[..], at, count)
  {
    for k := 0 to count
      invariant forall i :: 0 <= i < a.Length ==> a[i] == if at <= i < at + k then None else old(a[i])
    {
      a[at + k] := None;
    }
  }

  /** Moves count items up by amount within one buffer, leaving raw memory behind. */
  method MoveForward<T>(a: array<Option<T>>, from: nat, amount: nat, count: nat)
    requires from + count + amount <= a.Length && 0 < amount
    requires forall i :: from + count <= i < from + count + amount ==> a[i].None?
    modifies a
    ensures MovedUp(old(a[..]), a[..], from, amount, count)
  {
    ghost var t := a[..];
    for k := count downto 0
      invariant forall i {:trigger a[i]} :: 0 <= i < from + k ==> a[i] == t[i]
      invariant forall i {:trigger a[i]} :: from + k <= i < from + k + amount ==> a[i] == None
      invariant forall i {:trigger a[i]} :: from + k + amount <= i < from + count + amount ==> a[i] == t[i - amount]
      invariant forall i {:trigger a[i]} :: from + count + amount <= i < a.Length ==> a[i] == t[i]
    {
      a[from + amount + k] := a[from + k];
      a[from + k] := None;
    }
  }

  /** Moves count items down by amount within one buffer, leaving raw memory behind. */
  method MoveBackward<T>(a: array<Option<T>>, to: nat, amount: nat, count: nat)
    requires to + amount + count <= a.Length && 0 < amount
    requires forall i :: to <= i < to + amount ==> a[i].None?
    modifies a
    ensures MovedDown(old(a[..]), a[..], to, amount, count)
  {
    ghost var t := a[..];
    for k := 0 to count
      invariant forall i {:trigger a[i]} :: 0 <= i < to ==> a[i] == t[i]
      invariant forall i {:trigger a[i]} :: to <= i < to + k ==> a[i] == t[i + amount]
      invariant forall i {:trigger a[i]} :: to + k <= i < to + k + amount ==> a[i] == None
      invariant forall i {:trigger a[i]} :: to + k + amount <= i < a.Length ==> a[i] == t[i]
    {
      a[to + k] := a[to + k + amount];
      a[to + k + amount] := None;
    }
  }

  lemma AllRaw<T>(s: seq<Option<T>>, amount: nat)
    requires amount <= |s| && forall i :: 0 <= i < |s| ==> s[i].None?
    ensures Gapped(s, [], 0, amount)
  {
  }

  /** Copies n items to a cleared buffer, leaving amount raw slots in front of position where. */
  method CopyAround<T>(dest: array<Option<T>>, source: array<Option<T>>, n: nat, where: nat, amount: nat)
    requires dest != source && Holds(source[..], n) && where <= n && n + amount <= dest.Length
    requires forall i :: 0 <= i < dest.Length ==> dest[i].None?
    modifies dest
    ensures Gapped(dest[..], Values(source[..], n), where, amount)
  {
    CopyItems(dest, 0, source, 0, where);
    CopyItems(dest, where + amount, source, where, n - where);
  }

  /** Opens a gap of amount raw slots in front of position where. */
  method OpenSlots<T>(a: array<Option<T>>, n: nat, where: nat, amount: nat)
    requires Holds(a[..], n) && where <= n && n + amount <= a.Length
    modifies a
    ensures Gapped(a[..], Values(old(a[..]), n), where, amount)
  {
    hide Values, Gapped, MovedUp;
    ghost var t := a[..];
    if where != n && amount > 0 {
      MoveForward(a, where, amount, n - where);
      Opened(t, a[..], n, where, amount);
    } else {
      NothingMoved(t, n, where, amount);
    }
  }

  lemma Opened<T>(t: seq<Option<T>>, s: seq<Option<T>>, n: nat, where: nat, amount: nat)
    requires Holds(t, n) && where <= n && n + amount <= |t| && MovedUp(t, s, where, amount, n - where)
    ensures Gapped(s, Values(t, n), where, amount)
  {
    hide Values;
    ValuesOf(t, n);
  }

  lemma NothingMoved<T>(t: seq<Option<T>>, n: nat, where: nat, amount: nat)
    requires Holds(t, n) && where <= n && n + amount <= |t| && (where == n || amount == 0)
    ensures Gapped(t, Values(t, n), where, amount)
  {
    hide Values;
    ValuesOf(t, n);
  }

  /** Destroys amount items from position where on and closes the gap. */
  method RemoveSlots<T>(a: array<Option<T>>, n: nat, where: nat, amount: nat)
    requires Holds(a[..], n) && where + amount <= n
    modifies a
    ensures Holds(a[..], n - amount)
    ensures var r := Values(old(a[..]), n); Values(a[..], n - amount) == r[..where] + r[where + amount..]
  {
    hide Values, Holds, Destroyed, MovedDown;
    ghost var t := a[..];
    RawBehind(t, n);
    DestroyItems(a, where, amount);
    ghost var s := a[..];
    GapIsRaw(t, s, n, where, amount);
    if where + amount != n && amount > 0 {
      MoveBackward(a, where, amount, n - amount - where);
      Closed(t, s, a[..], n, where, amount);
    }
  }

  lemma GapIsRaw<T>(t: seq<Option<T>>, s: seq<Option<T>>, n: nat, where: nat, amount: nat)
    requires Holds(t, n) && where + amount <= n && Destroyed(t, s, where, amount)
    ensures n <= |s| == |t| && forall i :: where <= i < where + amount ==> s[i].None?
    ensures where + amount == n || amount == 0 ==>
      Holds(s, n - amount) && Values(s, n - amount) == Values(t, n)[..where] + Values(t, n)[where + amount..]
  {
    hide Values;
    ValuesOf(t, n);
    if where + amount == n || amount == 0 {
      ValuesAre(s, n - amount, Values(t, n)[..where] + Values(t, n)[where + amount..]);
    }
  }

  lemma Closed<T>(t: seq<Option<T>>, s: seq<Option<T>>, s': seq<Option<T>>, n: nat, where: nat, amount: nat)
    requires Holds(t, n) && where + amount <= n
    requires Destroyed(t, s, where, amount) && MovedDown(s, s', where, amount, n - amount - where)
    ensures Holds(s', n - amount)
    ensures Values(s', n - amount) == Values(t, n)[..where] + Values(t, n)[where + amount..]
  {
    hide Values;
    ValuesOf(t, n);
    ValuesAre(s', n - amount, Values(t, n)[..where] + Values(t, n)[where + amount..]);
  }

  lemma InsertOne<T>(cmp: (T, T) -> int, p: seq<T>, next: nat, x: T)
    requires 0 < next <= |p| && cmp(p[next - 1], x) > 0
    ensures Insert(cmp, p[..next], x) + p[next..] == Insert(cmp, p[..next - 1], x) + p[next - 1..]
  {
    assert p[..next][..next - 1] == p[..next - 1];
    assert p[next - 1..] == [p[next - 1]] + p[next..];
  }

  /** The inner loop of sort: moves the item at i down to its place among the sorted items before it. */
  method InsertSlot<T>(a: array<Option<T>>, n: nat, i: nat, cmp: (T, T) -> int)
    requires Holds(a[..], n) && i < n
    modifies a
    ensures Holds(a[..], n)
    ensures var r := Values(old(a[..]), n); Values(a[..], n) == Insert(cmp, r[..i], r[i]) + r[i + 1..]
  {
    hide Values, Holds, Insert;
    ghost var r := Values(a[..], n);
    ValuesOf(a[..], n);
    RawBehind(a[..], n);
    var temp := a[i].value;
    ghost var p := r[..i];
    assert p[..i] == p && p[i..] == [];
    var next := i;
    while next > 0 && cmp(a[next - 1].value, temp) > 0
      invariant 0 <= next <= i
      invariant Shifted(a[..], r, i, next)
      invariant Insert(cmp, p, temp) == Insert(cmp, p[..next], temp) + p[next..]
    {
      InsertOne(cmp, p, next, temp);
      a[next] := a[next - 1];
      next := next - 1;
    }
    a[next] := Some(temp);
    assert Insert(cmp, p[..next], temp) == p[..next] + [temp] by { InsertHere(cmp, p[..next], temp); }
    Placed(a[..], r, i, next);
  }

  /** The slots once item i of r was taken out and the items from next on moved up by one. */
  ghost predicate Shifted<T>(s: seq<Option<T>>, r: seq<T>, i: nat, next: nat) {
    && next <= i < |r| <= |s|
    && forall k {:trigger s[k]} :: 0 <= k < |s| && k != next ==>
         s[k] == if k < next then Some(r[k]) else if k <= i then Some(r[k - 1]) else if k < |r| then Some(r[k]) else None
  }

  lemma Placed<T>(s: seq<Option<T>>, r: seq<T>, i: nat, next: nat)
    requires Shifted(s, r, i, next) && s[next] == Some(r[i])
    ensures var p := r[..i];
      Holds(s, |r|) && Values(s, |r|) == p[..next] + [r[i]] + p[next..] + r[i + 1..]
  {
    var p := r[..i];
    ValuesAre(s, |r|, p[..next] + [r[i]] + p[next..] + r[i + 1..]);
  }

  lemma InsertHere<T>(cmp: (T, T) -> int, s: seq<T>, x: T)
    requires s == [] || cmp(s[|s| - 1], x) <= 0
    ensures Insert(cmp, s, x) == s + [x]
  {
  }

  /** s with xs inserted in front of position at. */
  function Spliced<T>(s: seq<T>, at: nat, xs: seq<T>): (r: seq<T>)
    requires at <= |s|
    ensures |r| == |s| + |xs|
  {
    s[..at] + xs + s[at..]
  }

  /** s without count items from position at on. */
  function Cut<T>(s: seq<T>, at: nat, count: nat): (r: seq<T>)
    requires at + count <= |s|
    ensures |r| == |s| - count
  {
    s[..at] + s[at + count..]
  }

  /** Cutting undoes splicing, what was spliced in is what is cut out, and nothing before it has moved. */
  lemma SplicedThenCut<T>(s: seq<T>, at: nat, xs: seq<T>)
    requires at <= |s|
    ensures var r := Spliced(s, at, xs);
      r[..at] == s[..at] && r[at..at + |xs|] == xs && Cut(r, at, |xs|) == s
  {
  }

  /** Splicing back what was cut out restores the sequence. */
  lemma CutThenSpliced<T>(r: seq<T>, at: nat, count: nat)
    requires at + count <= |r|
    ensures Spliced(Cut(r, at, count), at, r[at..at + count]) == r
  {
  }

  /** The slot read for the k-th item. */
  function Slot(from: nat, k: nat, repeated: bool): nat { if repeated then from else from + k }

  function SourceEnd(from: nat, repeated: bool, length: nat): nat { if repeated then from + 1 else from + length }

  ghost predicate Readable<T>(s: seq<Option<T>>, from: nat, repeated: bool, length: nat) {
    SourceEnd(from, repeated, length) <= |s| && forall i :: from <= i < SourceEnd(from, repeated, length) ==> s[i].Some?
  }

  ghost predicate AllThere<T>(read: seq<Option<T>>) { forall k :: 0 <= k < |read| ==> read[k].Some? }

  ghost function Those<T>(read: seq<Option<T>>): (r: seq<T>)
    requires AllThere(read)
    ensures |r| == |read| && forall k :: 0 <= k < |read| ==> read[k] == Some(r[k])
  {
    seq(|read|, k requires 0 <= k < |read| => read[k].value)
  }

  /** The slots read one after the other from slots s, while what is read goes to the slots from where on, which
      are slots of s themselves if same. */
  ghost predicate ReadInOrder<T>(read: seq<Option<T>>, s: seq<Option<T>>, from: nat, repeated: bool,
                              where: nat, same: bool) {
    forall k :: 0 <= k < |read| ==> ReadAt(read, s, from, repeated, where, same, k)
  }

  ghost predicate ReadAt<T>(read: seq<Option<T>>, s: seq<Option<T>>, from: nat, repeated: bool, where: nat,
                            same: bool, k: nat) {
    var i := Slot(from, k, repeated);
    k < |read| && i < |s| && read[k] == if same && where <= i < where + k then read[i - where] else s[i]
  }

  /** What an insertion reads, from slots that held was at the call: what was meant, unless the slots belong to the
      vector's own buffer and to it alone, and the items do not all lie before the position in a buffer with room.
      Then it reads raw memory of a buffer that is gone or in the gap, or else an item just inserted, or items
      that have moved up. */
  ghost predicate ReadAs<T>(read: seq<Option<T>>, was: seq<Option<T>>, from: nat, repeated: bool, length: nat,
                            index: nat, own: bool, room: bool)
    requires length > 0 && SourceEnd(from, repeated, length) <= |was|
  {
    && |read| == length
    && if !own || (room && SourceEnd(from, repeated, length) <= index)
       then forall k :: 0 <= k < length ==> read[k] == was[Slot(from, k, repeated)]
       else if !room || index <= from < index + length then read[0] == None
       else if from < index then read[index - from] == was[from]
       else forall k :: 0 <= k < length ==> read[k] == was[Slot(from, k, repeated) - length]
  }

  /** Copies items into the gap, in order. */
  method CopyInto<T>(dest: array<Option<T>>, source: array<Option<T>>, from: nat, repeated: bool, length: nat,
                     where: nat, ghost r: seq<T>)
    returns (ghost read: seq<Option<T>>)
    requires length > 0 ==> SourceEnd(from, repeated, length) <= source.Length
    requires Gapped(dest[..], r, where, length)
    modifies dest
    ensures |read| == length && ReadInOrder(read, old(source[..]), from, repeated, where, source == dest)
    ensures Filled(old(dest[..]), dest[..], where, read)
  {
    hide ReadInOrder, Filled;
    ghost var s, t := dest[..], source[..];
    read := [];
    ReadNone(t, from, repeated, where, source == dest);
    for k := 0 to length
      invariant |read| == k && ReadInOrder(read, t, from, repeated, where, source == dest)
      invariant forall i {:trigger source[i]} :: source != dest && 0 <= i < source.Length ==> source[i] == t[i]
      invariant forall i {:trigger dest[i]} :: 0 <= i < where || where + k <= i < dest.Length ==> dest[i] == s[i]
      invariant forall i {:trigger dest[i]} :: where <= i < where + k ==> dest[i] == read[i - where]
    {
      var item := source[Slot(from, k, repeated)];
      ReadMore(read, item, t, from, repeated, where, source == dest);
      dest[where + k] := item;
      read := read + [item];
    }
    AllFilled(s, dest[..], where, read);
  }

  lemma ReadNone<T>(s: seq<Option<T>>, from: nat, repeated: bool, where: nat, same: bool)
    ensures ReadInOrder([], s, from, repeated, where, same)
  {
  }

  lemma ReadMore<T>(read: seq<Option<T>>, item: Option<T>, s: seq<Option<T>>, from: nat, repeated: bool,
                    where: nat, same: bool)
    requires ReadInOrder(read, s, from, repeated, where, same)
    requires var i := Slot(from, |read|, repeated);
      i < |s| && item == if same && where <= i < where + |read| then read[i - where] else s[i]
    ensures ReadInOrder(read + [item], s, from, repeated, where, same)
  {
    forall k | 0 <= k < |read| + 1
      ensures ReadAt(read + [item], s, from, repeated, where, same, k)
    {
      assert k == |read| || ReadAt(read, s, from, repeated, where, same, k);
    }
  }

  lemma AllFilled<T>(s: seq<Option<T>>, s': seq<Option<T>>, where: nat, read: seq<Option<T>>)
    requires |s'| == |s| && where + |read| <= |s|
    requires forall i {:trigger s'[i]} :: 0 <= i < where || where + |read| <= i < |s| ==> s'[i] == s[i]
    requires forall i {:trigger s'[i]} :: where <= i < where + |read| ==> s'[i] == read[i - where]
    ensures Filled(s, s', where, read)
  {
  }

  ghost predicate Filled<T>(s: seq<Option<T>>, s': seq<Option<T>>, where: nat, read: seq<Option<T>>) {
    && |s'| == |s|
    && forall i {:trigger s'[i]} :: 0 <= i < |s'| ==>
         s'[i] == if where <= i < where + |read| then read[i - where] else s[i]
  }

  lemma SourceRead<T>(read: seq<Option<T>>, was: seq<Option<T>>, s: seq<Option<T>>, r: seq<T>,
                      from: nat, repeated: bool, length: nat, index: nat, own: bool, room: bool)
    requires length > 0 && Readable(was, from, repeated, length) && |s| == |was|
    requires |read| == length && ReadInOrder(read, s, from, repeated, index, own && room)
    requires own ==> Holds(was, |r|) && Values(was, |r|) == r && index <= |r|
    requires if own && room then Gapped(s, r, index, length)
      else if own then forall i :: 0 <= i < |s| ==> s[i].None?
      else s == was
    ensures ReadAs(read, was, from, repeated, length, index, own, room)
  {
    hide Values;
    if own {
      ValuesOf(was, |r|);
    }
    if !own || (room && SourceEnd(from, repeated, length) <= index) {
      forall k | 0 <= k < length
        ensures read[k] == was[Slot(from, k, repeated)]
      {
        assert ReadAt(read, s, from, repeated, index, own && room, k);
      }
    } else if !room || index <= from < index + length {
      assert ReadAt(read, s, from, repeated, index, own && room, 0);
    } else if from < index {
      assert ReadAt(read, s, from, repeated, index, own && room, 0);
      assert ReadAt(read, s, from, repeated, index, own && room, index - from);
    } else {
      forall k | 0 <= k < length
        ensures read[k] == was[Slot(from, k, repeated) - length]
      {
        assert ReadAt(read, s, from, repeated, index, own && room, k);
      }
    }
  }

  lemma OneRead<T>(read: seq<Option<T>>, was: seq<Option<T>>, item: T, index: nat, room: bool)
    requires was == [Some(item)] && ReadAs(read, was, 0, false, 1, index, false, room)
    ensures AllThere(read) && Those(read) == [item]
  {
    assert read == [Some(item)];
  }

  lemma GapFilled<T>(s: seq<Option<T>>, s': seq<Option<T>>, r: seq<T>, where: nat, read: seq<Option<T>>)
    requires AllThere(read) && Gapped(s, r, where, |read|) && Filled(s, s', where, read)
    ensures Holds(s', |r| + |read|) && Values(s', |r| + |read|) == Spliced(r, where, Those(read))
  {
    hide Values;
    ValuesAre(s', |r| + |read|, Spliced(r, where, Those(read)));
  }

  lemma NothingInserted<T>(s: seq<Option<T>>, r: seq<T>, where: nat)
    requires Gapped(s, r, where, 0)
    ensures Holds(s, |r|) && Values(s, |r|) == r && where <= |r| && r == Spliced(r, where, Those([]))
  {
    hide Values;
    ValuesAre(s, |r|, r);
  }

  lemma SplicedAtEnds<T>(s: seq<T>, xs: seq<T>)
    ensures Spliced(s, 0, xs) == xs + s && Spliced(s, |s|, xs) == s + xs
  {
  }

  lemma SingleElement<X>(s: set<X>, x: X)
    requires x in s && |s| == 1
    ensures s == {x}
  {
    assert |s - {x}| == 0;
  }

  ghost function Sharers<T>(world: set<Vector<T>>, b: SharedBuffer<T>): set<Vector<T>>
    reads world
  {
    set v | v in world && v.mStorage == b
  }

  ghost function Storages<T>(world: set<Vector<T>>): set<SharedBuffer<T>>
    reads world
  {
    set v | v in world && v.mStorage != null :: v.mStorage
  }

  /** A buffer's count is the number of vectors sharing it. */
  ghost predicate Counted<T>(world: set<Vector<T>>)
    reads world, Storages(world)
  {
    forall v :: v in world && v.mStorage != null ==> v.mStorage.mRefs == |Sharers(world, v.mStorage)|
  }

  /** Vectors sharing a buffer agree on how many items it holds, and different buffers do not overlap. */
  ghost predicate Agreed<T>(world: set<Vector<T>>)
    reads world
  {
    forall u, v :: u in world && v in world && u.mStorage != null && v.mStorage != null ==>
      if u.mStorage == v.mStorage then u.mCount == v.mCount else u.mStorage.data != v.mStorage.data
  }

  ghost predicate Linked<T>(world: set<Vector<T>>)
    reads world, Storages(world)
  {
    Counted(world) && Agreed(world)
  }

  ghost predicate Coherent<T>(world: set<Vector<T>>)
    reads *
  {
    Linked(world) && forall v :: v in world ==> v.Valid()
  }

  /** What has become of the slots of a buffer one of its owners let go of. */
  ghost predicate Left<T>(was: seq<Option<T>>, now: seq<Option<T>>, refs: nat) {
    |now| == |was| && if refs > 1 then now == was else forall i :: 0 <= i < |now| ==> now[i].None?
  }

  /** An array is neither a vector nor a buffer. */
  lemma NotInWorld<T>(world: set<Vector<T>>, a: array<Option<T>>)
    ensures var d: object := a; d !in Storages(world) && d !in world
  {
    var d: object := a;
    assert forall x: object :: x in Storages(world) ==> x != d;
    assert forall x: object :: x in world ==> x != d;
  }

  ghost predicate Unused<T>(world: set<Vector<T>>, b: SharedBuffer<T>)
    reads world
  {
    forall v :: v in world && v.mStorage != null ==> v.mStorage != b && v.mStorage.data != b.data
  }

  /** The status codes of vector operations. */
  datatype Status = At(index: nat) | BadIndex | BadValue | NoMemory

  class Vector<T> {
    var mStorage: SharedBuffer?<T>
    var mCount: nat
    const trivial: bool

    ghost predicate Valid()
      reads this, mStorage, if mStorage == null then {} else {mStorage.data}
    {
      if mStorage == null then mCount == 0 else mStorage.mRefs >= 1 && Holds(mStorage.data[..], mCount)
    }

    ghost function Items(): seq<T>
      requires Valid()
      reads this, mStorage, if mStorage == null then {} else {mStorage.data}
    {
      if mStorage == null then [] else Values(mStorage.data[..], mCount)
    }

    function Capacity(): nat
      reads this, mStorage
    {
      if mStorage == null then 0 else mStorage.data.Length
    }

    /** The part of release_storage that gives up the count. */
    method LetGo(ghost world: set<Vector<T>>) returns (prev: nat)
      requires Coherent(world) && this in world && mStorage != null
      modifies this, mStorage
      ensures mStorage == null && mCount == 0
      ensures prev == old(mStorage.mRefs) && old(mStorage).mRefs == prev - 1
      ensures Coherent(world) && (prev == 1 ==> Unused(world, old(mStorage)))
      ensures forall u :: u in world && u != this ==> u.Items() == old(u.Items())
    {
      hide Holds, Values;
      var was := mStorage;
      ghost var sharers := Sharers(world, was);
      if was.mRefs == 1 {
        OthersUseOthers(world);
      }
      mStorage, mCount := null, 0;
      prev := was.Release();
      assert Sharers(world, was) == sharers - {this};
      forall u | u in world && u != this
        ensures u.Valid() && u.Items() == old(u.Items())
      {
        assert old(u.Valid());
        assert u.mStorage == was ==> u in sharers;
      }
      forall v | v in world && v.mStorage != null
        ensures v.mStorage.mRefs == |Sharers(world, v.mStorage)|
      {
        if v.mStorage != was {
          assert Sharers(world, v.mStorage) == old(Sharers(world, v.mStorage));
        }
      }
    }

    /** release_storage: the items are destroyed exactly when the last owner lets go.  The dangling
        pointer, which every caller replaces at once, is represented as none. */
    method ReleaseStorage(ghost world: set<Vector<T>>)
      requires Coherent(world) && this in world
      modifies this, mStorage, if mStorage == null then {} else {mStorage.data}
      ensures mStorage == null && mCount == 0
      ensures Coherent(world)
      ensures forall u :: u in world && u != this ==> u.Items() == old(u.Items())
      ensures old(mStorage) != null ==>
        && old(mStorage).mRefs == old(mStorage.mRefs) - 1
        && if old(mStorage.mRefs) > 1 then old(mStorage).data[..] == old(mStorage.data[..])
           else forall i :: 0 <= i < old(mStorage).data.Length ==> old(mStorage).data[i].None?
    {
      hide Holds, Values, Counted, Agreed;
      var was, n := mStorage, mCount;
      if was != null {
        RawBehind(was.data[..], n);
        var prev := LetGo(world);
        if prev == 1 {
          NotInWorld(world, was.data);
          DestroyItems(was.data, 0, n);
        }
      }
    }

    /** Makes a buffer no vector uses the storage of this one. */
    method Adopt(ghost world: set<Vector<T>>, b: SharedBuffer<T>, count: nat)
      requires Coherent(world) && this in world && mStorage == null
      requires b.mRefs == 1 && Unused(world, b)
      modifies this
      ensures mStorage == b && mCount == count && Linked(world)
      ensures forall u :: u in world && u != this ==> u.Valid() && u.Items() == old(u.Items())
    {
      hide Holds, Values;
      mStorage, mCount := b, count;
      forall v | v in world && v.mStorage != null
        ensures v.mStorage.mRefs == |Sharers(world, v.mStorage)|
      {
        if v.mStorage == b {
          assert Sharers(world, b) == {this};
        } else {
          assert Sharers(world, v.mStorage) == old(Sharers(world, v.mStorage));
        }
      }
    }

    constructor (trivial: bool)
      ensures mStorage == null && mCount == 0 && this.trivial == trivial
    {
      mStorage, mCount := null, 0;
      this.trivial := trivial;
    }

    lemma OthersUseOthers(world: set<Vector<T>>)
      requires Linked(world) && this in world && mStorage != null && mStorage.mRefs == 1
      ensures forall u :: u in world && u != this && u.mStorage != null ==>
        u.mStorage != mStorage && u.mStorage.data != mStorage.data
    {
      SingleElement(Sharers(world, mStorage), this);
      forall u | u in world && u != this && u.mStorage != null
        ensures u.mStorage != mStorage
      {
        assert u !in Sharers(world, mStorage);
      }
    }

    method Share(ghost world: set<Vector<T>>, rhs: Vector<T>)
      requires Coherent(world) && this in world && rhs in world && this != rhs
      requires mStorage == null && rhs.mStorage != null
      modifies this, rhs.mStorage
      ensures Coherent(world) && mStorage == rhs.mStorage && mCount == rhs.mCount
      ensures forall u :: u in world && u != this ==> u.Items() == old(u.Items())
    {
      hide Holds, Values;
      mStorage := rhs.mStorage;
      mCount := rhs.mCount;
      mStorage.Acquire();
      forall u | u in world && u != this
        ensures u.Valid() && u.Items() == old(u.Items())
      {
        assert old(u.Valid());
      }
      forall v | v in world && v.mStorage != null
        ensures v.mStorage.mRefs == |Sharers(world, v.mStorage)|
      {
        if v.mStorage == mStorage {
          assert Sharers(world, mStorage) == old(Sharers(world, rhs.mStorage)) + {this};
        } else {
          assert Sharers(world, v.mStorage) == old(Sharers(world, v.mStorage));
        }
      }
    }

    /** operator=: a non-empty vector is shared, not copied. */
    method Assign(ghost world: set<Vector<T>>, rhs: Vector<T>)
      requires Coherent(world) && this in world && rhs in world && trivial == rhs.trivial
      modifies this, mStorage, if mStorage == null then {} else {mStorage.data}
      modifies rhs.mStorage
      ensures Coherent(world) && Items() == old(rhs.Items())
      ensures this != rhs ==> mStorage == if rhs.mCount == 0 then null else rhs.mStorage
      ensures this != rhs && old(mStorage) != null ==>
        Left(old(mStorage.data[..]), old(mStorage).data[..], old(mStorage.mRefs))
      ensures this == rhs ==> mStorage == old(mStorage)
      ensures forall u :: u in world && u != this ==> u.Items() == old(u.Items())
    {
      hide Holds, Values, Linked, Valid;
      if this != rhs {
        ReleaseStorage(world);
        if rhs.mCount != 0 {
          assert rhs.mStorage != null by { rhs.CountHasStorage(); }
          Share(world, rhs);
        } else {
          rhs.NoItems();
          NoItems();
        }
      }
    }

    lemma CountHasStorage()
      requires Valid() && mCount != 0
      ensures mStorage != null
    {
    }

    lemma NoItems()
      requires Valid() && mCount == 0
      ensures Items() == []
    {
    }

    /** release_storage, and the switch to a new buffer that follows. */
    method Install(ghost world: set<Vector<T>>, b: SharedBuffer<T>, count: nat)
      requires Coherent(world) && this in world && b.mRefs == 1 && Unused(world, b)
      modifies this, mStorage, if mStorage == null then {} else {mStorage.data}
      ensures mStorage == b && mCount == count && b.mRefs == 1 && b.data[..] == old(b.data[..]) && Linked(world)
      ensures old(mStorage) != null ==> Left(old(mStorage.data[..]), old(mStorage).data[..], old(mStorage.mRefs))
      ensures forall u :: u in world && u != this ==> u.Valid() && u.Items() == old(u.Items())
    {
      hide Holds, Values, Linked, Valid;
      ReleaseStorage(world);
      Adopt(world, b, count);
    }

    /** Copies the first count items to a new buffer of the given size and leaves the old one: what
        editArrayImpl, setCapacity and editResize do.  The items of a vector whose items need no
        destructor become raw memory when they are not copied. */
    method Reallocate(ghost world: set<Vector<T>>, size: nat, count: nat)
      requires Coherent(world) && this in world && mStorage != null && count <= mCount && count <= size
      modifies this, mStorage, if mStorage == null then {} else {mStorage.data}
      ensures Coherent(world) && mStorage != null && mStorage.mRefs == 1 && fresh(mStorage) && fresh(mStorage.data)
      ensures mCount == count && Capacity() == size && Items() == old(Items())[..count]
      ensures Left(old(mStorage.data[..]), old(mStorage).data[..], old(mStorage.mRefs))
      ensures forall u :: u in world && u != this ==> u.Items() == old(u.Items())
    {
      hide Linked, Values;
      ghost var r := Items();
      var b := new SharedBuffer.Alloc(size);
      CopyItems(b.data, 0, mStorage.data, 0, count);
      ValuesAre(b.data[..], count, r[..count]);
      Install(world, b, count);
    }

    method EditArrayImpl(ghost world: set<Vector<T>>) returns (ghost copied: nat)
      requires Coherent(world) && this in world
      modifies this, mStorage, if mStorage == null then {} else {mStorage.data}
      ensures Coherent(world) && Items() == old(Items()) && mCount == old(mCount) && Capacity() == old(Capacity())
      ensures mStorage == null <==> old(mStorage) == null
      ensures mStorage != null ==> mStorage.mRefs == 1
      ensures mStorage == old(mStorage) || (fresh(mStorage) && fresh(mStorage.data))
      ensures copied == if old(mStorage) == null || old(mStorage.mRefs) == 1 then 0 else mCount
      ensures old(mStorage) != null && old(mStorage.mRefs) == 1 ==> mStorage == old(mStorage)
      ensures old(mStorage) != null && old(mStorage.mRefs) > 1 ==>
        mStorage != old(mStorage) && old(mStorage).data[..] == old(mStorage.data[..])
      ensures mStorage != old(mStorage) && old(mStorage) != null ==>
        Left(old(mStorage.data[..]), old(mStorage).data[..], old(mStorage.mRefs))
      ensures forall u :: u in world && u != this ==> u.Items() == old(u.Items())
    {
      hide Linked, Values, Holds;
      copied := 0;
      if mStorage != null && mStorage.mRefs != 1 {
        assert mCount <= Capacity() by { RawBehind(mStorage.data[..], mCount); }
        assert Items()[..mCount] == Items() by { ItemCount(); }
        copied := mCount;
        Reallocate(world, Capacity(), mCount);
      }
    }

    /** A shared buffer has another owner with the same items. */
    lemma Sharer(world: set<Vector<T>>) returns (u: Vector<T>)
      requires Coherent(world) && this in world && mStorage != null && mStorage.mRefs > 1
      ensures u in world && u != this && u.mStorage == mStorage && u.mCount == mCount && u.Items() == Items()
    {
      hide Values, Holds;
      ghost var others := Sharers(world, mStorage) - {this};
      assert |others| > 0;
      u :| u in others;
    }

    lemma HasRoom()
      requires Valid()
      ensures mCount <= Capacity()
    {
    }

    lemma ItemCount()
      requires Valid()
      ensures |Items()| == mCount
    {
    }

    method SetCount(ghost world: set<Vector<T>>, count: nat)
      requires Coherent(world) && this in world && mStorage != null && mStorage.mRefs == 1
      modifies `mCount
      ensures Linked(world) && mCount == count
      ensures forall u :: u in world && u != this ==> u.Valid() && u.Items() == old(u.Items())
    {
      hide Holds, Values;
      OthersUseOthers(world);
      mCount := count;
      forall v | v in world && v.mStorage != null
        ensures v.mStorage.mRefs == |Sharers(world, v.mStorage)|
      {
        assert Sharers(world, v.mStorage) == old(Sharers(world, v.mStorage));
      }
    }

    /** The part of _grow for a buffer that is too small. */
    method GrowStorage(ghost world: set<Vector<T>>, where: nat, amount: nat)
      requires Coherent(world) && this in world && where <= mCount && Capacity() < mCount + amount
      modifies this, mStorage, if mStorage == null then {} else {mStorage.data}
      ensures Linked(world) && mStorage != null && mStorage.mRefs == 1
      ensures fresh(mStorage) && fresh(mStorage.data)
      ensures mCount == old(mCount) + amount && Capacity() == GrownCapacity(old(Capacity()), mCount)
      ensures Gapped(mStorage.data[..], old(Items()), where, amount)
      ensures old(mStorage) != null ==> Left(old(mStorage.data[..]), old(mStorage).data[..], old(mStorage.mRefs))
      ensures forall u :: u in world && u != this ==> u.Valid() && u.Items() == old(u.Items())
    {
      hide Linked, Values, Holds, Gapped, Left;
      ghost var r := Items();
      ItemCount();
      var newSize := mCount + amount;
      var newCapacity := Max(MIN_VECTOR_CAPACITY, (newSize * 3 + 1) / 2);
      if mStorage != null && mCount == where && trivial {
        Reallocate(world, newCapacity, mCount);
        ItemsAre(r, amount);
        SetCount(world, newSize);
      } else {
        var b := new SharedBuffer.Alloc(newCapacity);
        if mStorage != null {
          CopyAround(b.data, mStorage.data, mCount, where, amount);
        } else {
          AllRaw(b.data[..], amount);
        }
        Install(world, b, newSize);
      }
    }

    lemma ItemsAre(r: seq<T>, amount: nat)
      requires Valid() && Items() == r && mStorage != null && mCount + amount <= mStorage.data.Length
      ensures |r| == mCount && Gapped(mStorage.data[..], r, |r|, amount)
    {
    }

    /** Writing to the items of an unshared buffer concerns no other vector. */
    lemma WriteIsPrivate(world: set<Vector<T>>)
      requires Linked(world) && this in world && mStorage != null && mStorage.mRefs == 1
      ensures forall u :: u in world && u != this && u.mStorage != null ==>
        u.mStorage != mStorage && u.mStorage.data != mStorage.data
      ensures var d: object := mStorage.data; d !in Storages(world) && d !in world
    {
      OthersUseOthers(world);
      NotInWorld(world, mStorage.data);
    }

    /** The part of _grow for a buffer that is large enough and not shared. */
    method OpenGap(ghost world: set<Vector<T>>, where: nat, amount: nat)
      requires Coherent(world) && this in world && mStorage != null && mStorage.mRefs == 1
      requires where <= mCount && mCount + amount <= mStorage.data.Length
      modifies `mCount, mStorage.data
      ensures Linked(world) && mCount == old(mCount) + amount
      ensures Gapped(mStorage.data[..], old(Items()), where, amount)
      ensures forall u :: u in world && u != this ==> u.Valid() && u.Items() == old(u.Items())
    {
      hide Values, Linked, Holds, Gapped;
      var n := mCount;
      SetCount(world, n + amount);
      WriteIsPrivate(world);
      OpenSlots(mStorage.data, n, where, amount);
    }

    /** _grow: makes room for amount items in front of position where. */
    method Grow(ghost world: set<Vector<T>>, where: nat, amount: nat) returns (ghost copied: nat)
      requires Coherent(world) && this in world && where <= mCount
      modifies this, mStorage, if mStorage == null then {} else {mStorage.data}
      ensures Linked(world) && mCount == old(mCount) + amount
      ensures Capacity() == GrownCapacity(old(Capacity()), mCount)
      ensures mStorage == null ==> old(Items()) == [] && amount == 0
      ensures mStorage != null ==> mStorage.mRefs == 1 && Gapped(mStorage.data[..], old(Items()), where, amount)
      ensures mStorage == old(mStorage) || (fresh(mStorage) && fresh(mStorage.data))
      ensures copied <= old(mCount)
      ensures old(Capacity()) >= mCount && old(mStorage) != null && old(mStorage.mRefs) == 1 ==>
        copied == 0 && mStorage == old(mStorage)
      ensures old(mStorage) != null && (old(Capacity()) < mCount || old(mStorage.mRefs) > 1) ==>
        mStorage != old(mStorage) && Left(old(mStorage.data[..]), old(mStorage).data[..], old(mStorage.mRefs))
      ensures forall u :: u in world && u != this ==> u.Valid() && u.Items() == old(u.Items())
    {
      hide Counted, Agreed, Values, Holds, Gapped;
      if Capacity() < mCount + amount {
        copied := mCount;
        GrowStorage(world, where, amount);
      } else {
        copied := EditArrayImpl(world);
        if mStorage != null {
          OpenGap(world, where, amount);
        }
      }
    }

    /** Constructs items in the gap _grow left, from those of an array or from one of them.  If the array is
        the buffer itself, the copying reads what is there by then. */
    method FillGap(ghost world: set<Vector<T>>, source: array<Option<T>>, from: nat, repeated: bool,
                   length: nat, where: nat, ghost r: seq<T>)
      returns (ghost read: seq<Option<T>>)
      requires Linked(world) && this in world && mStorage != null && mStorage.mRefs == 1
      requires forall u :: u in world && u != this ==> u.Valid()
      requires where <= |r| && mCount == |r| + length && Gapped(mStorage.data[..], r, where, length)
      requires length > 0 ==> SourceEnd(from, repeated, length) <= source.Length
      modifies mStorage.data
      ensures |read| == length && ReadInOrder(read, old(source[..]), from, repeated, where, source == mStorage.data)
      ensures Linked(world) && (forall u :: u in world && u != this ==> u.Valid() && u.Items() == old(u.Items()))
      ensures AllThere(read) ==> Valid() && Items() == Spliced(r, where, Those(read))
    {
      hide Counted, Agreed, Values, Gapped, ReadInOrder, AllThere, Spliced;
      WriteIsPrivate(world);
      ghost var s := mStorage.data[..];
      read := CopyInto(mStorage.data, source, from, repeated, length, where, r);
      if AllThere(read) {
        GapFilled(s, mStorage.data[..], r, where, read);
      }
    }

    /** insertArrayAt, and insertAt with an item repeated: the items are read from an array, which may be the
        buffer of any vector.  Inserting nothing into a vector with no room behind the position reports a
        failure.  "read" is what is read; where it is not all there, the vector is left with raw slots. */
    method InsertArrayAt(ghost world: set<Vector<T>>, source: array?<Option<T>>, from: nat, repeated: bool,
                         length: nat, index: nat)
      returns (status: Status, ghost read: seq<Option<T>>, ghost copied: nat)
      requires Coherent(world) && this in world
      requires length > 0 ==> source != null && Readable(source[..], from, repeated, length)
      modifies this, mStorage, if mStorage == null then {} else {mStorage.data}
      ensures Linked(world) && (forall u :: u in world && u != this ==> u.Valid() && u.Items() == old(u.Items()))
      ensures |old(Items())| == old(mCount) && (status.BadIndex? <==> index > old(mCount))
      ensures status.BadIndex? ==>
        && Valid() && Items() == old(Items()) && Capacity() == old(Capacity()) && mCount == old(mCount)
        && copied == 0 && read == []
      ensures !status.BadIndex? && length > 0 ==>
        ReadAs(read, old(source[..]), from, repeated, length, index,
               old(mStorage) != null && source == old(mStorage.data) && old(mStorage.mRefs) == 1,
               old(mCount) + length <= old(Capacity()))
      ensures length == 0 ==> read == []
      ensures !status.BadIndex? && AllThere(read) ==> Valid() && Items() == Spliced(old(Items()), index, Those(read))
      ensures !status.BadIndex? ==>
        && status == (if index < Capacity() then At(index) else NoMemory)
        && (mStorage != null ==> mStorage.mRefs == 1)
        && mCount == old(mCount) + length && Capacity() == GrownCapacity(old(Capacity()), mCount)
      ensures mStorage == old(mStorage) || (fresh(mStorage) && fresh(mStorage.data))
      ensures copied <= old(mCount)
      ensures status.BadIndex? ==> mStorage == old(mStorage)
      ensures mStorage != old(mStorage) && old(mStorage) != null ==>
        Left(old(mStorage.data[..]), old(mStorage).data[..], old(mStorage.mRefs))
      ensures old(Capacity()) >= mCount && old(mStorage) != null && old(mStorage.mRefs) == 1 ==>
        copied == 0 && mStorage == old(mStorage)
    {
      hide Counted, Agreed, Values, Holds, Gapped, GrownCapacity, Spliced, ReadAs, ReadInOrder;
      ghost var r := Items();
      read := [];
      ItemCount();
      if index > mCount {
        return BadIndex, [], 0;
      }
      copied := Grow(world, index, length);
      if length > 0 {
        ghost var t := source[..];
        read := FillGap(world, source, from, repeated, length, index, r);
        SourceRead(read, old(source[..]), t, r, from, repeated, length, index,
                   old(mStorage) != null && source == old(mStorage.data) && old(mStorage.mRefs) == 1,
                   old(mCount) + length <= old(Capacity()));
      } else if mStorage != null {
        NothingInserted(mStorage.data[..], r, index);
      } else {
        SplicedAtEnds(r, Those([]));
      }
      status := if index < Capacity() then At(index) else NoMemory;
    }

    /** insertAt with one item that is not in the vector. */
    method InsertAt(ghost world: set<Vector<T>>, item: T, index: nat) returns (status: Status, ghost copied: nat)
      requires Coherent(world) && this in world
      modifies this, mStorage, if mStorage == null then {} else {mStorage.data}
      ensures Coherent(world)
      ensures |old(Items())| == old(mCount) && (status.BadIndex? <==> index > old(mCount))
      ensures status.BadIndex? ==> Items() == old(Items()) && Capacity() == old(Capacity()) && copied == 0
      ensures !status.BadIndex? ==>
        && Items() == Spliced(old(Items()), index, [item]) && status == At(index)
        && mStorage != null && mStorage.mRefs == 1
        && mCount == old(mCount) + 1 && Capacity() == GrownCapacity(old(Capacity()), mCount)
      ensures mStorage == old(mStorage) || (fresh(mStorage) && fresh(mStorage.data))
      ensures copied <= old(mCount)
      ensures status.BadIndex? ==> mStorage == old(mStorage)
      ensures mStorage != old(mStorage) && old(mStorage) != null ==>
        Left(old(mStorage.data[..]), old(mStorage).data[..], old(mStorage.mRefs))
      ensures old(Capacity()) >= mCount && old(mStorage) != null && old(mStorage.mRefs) == 1 ==>
        copied == 0 && mStorage == old(mStorage)
      ensures forall u :: u in world && u != this ==> u.Items() == old(u.Items())
    {
      hide Counted, Agreed, Values, Holds, GrownCapacity, Spliced, ReadAs, Left;
      var cell := new Option<T>[1](_ => Some(item));
      ghost var was := cell[..];
      ghost var read;
      status, read, copied := InsertArrayAt(world, cell, 0, false, 1, index);
      if !status.BadIndex? {
        OneRead(read, was, item, index, mCount <= old(Capacity()));
        HasRoom();
      }
    }

    /** The part of _shrink that keeps the buffer. */
    method CloseGap(ghost world: set<Vector<T>>, where: nat, amount: nat)
      requires Coherent(world) && this in world && mStorage != null && mStorage.mRefs == 1
      requires where + amount <= mCount
      modifies `mCount, mStorage.data
      ensures Coherent(world) && mCount == old(mCount) - amount
      ensures |old(Items())| == old(mCount) && Items() == Cut(old(Items()), where, amount)
      ensures forall u :: u in world && u != this ==> u.Items() == old(u.Items())
    {
      hide Values, Linked, Holds;
      var n := mCount;
      SetCount(world, n - amount);
      WriteIsPrivate(world);
      RemoveSlots(mStorage.data, n, where, amount);
    }

    /** The part of _shrink that moves the items to a smaller buffer. */
    method ShrinkStorage(ghost world: set<Vector<T>>, where: nat, amount: nat, newCapacity: nat)
      requires Coherent(world) && this in world && mStorage != null && where + amount <= mCount
      requires mCount - amount <= newCapacity
      modifies this, mStorage, if mStorage == null then {} else {mStorage.data}
      ensures Coherent(world) && mCount == old(mCount) - amount && Capacity() == newCapacity
      ensures |old(Items())| == old(mCount) && Items() == Cut(old(Items()), where, amount)
      ensures mStorage != null && mStorage.mRefs == 1 && fresh(mStorage) && fresh(mStorage.data)
      ensures Left(old(mStorage.data[..]), old(mStorage).data[..], old(mStorage.mRefs))
      ensures forall u :: u in world && u != this ==> u.Items() == old(u.Items())
    {
      hide Linked, Values;
      ghost var r := Items();
      ValuesOf(mStorage.data[..], mCount);
      var newSize := mCount - amount;
      var b := new SharedBuffer.Alloc(newCapacity);
      CopyItems(b.data, 0, mStorage.data, 0, where);
      CopyItems(b.data, where, mStorage.data, where + amount, newSize - where);
      ValuesAre(b.data[..], newSize, r[..where] + r[where + amount..]);
      Install(world, b, newSize);
    }

    /** _shrink: removes amount items from position where on. */
    method Shrink(ghost world: set<Vector<T>>, where: nat, amount: nat) returns (ghost copied: nat)
      requires Coherent(world) && this in world && where + amount <= mCount
      modifies this, mStorage, if mStorage == null then {} else {mStorage.data}
      ensures Coherent(world) && mCount == old(mCount) - amount
      ensures |old(Items())| == old(mCount) && Items() == Cut(old(Items()), where, amount)
      ensures Capacity() == ShrunkCapacity(old(Capacity()), mCount)
      ensures mStorage != null ==> mStorage.mRefs == 1
      ensures mStorage == old(mStorage) || (fresh(mStorage) && fresh(mStorage.data))
      ensures copied <= old(mCount)
      ensures old(mStorage) != null && old(mStorage.mRefs) == 1 ==>
        copied <= if mCount * 3 < old(Capacity()) then mCount else 0
      ensures old(mStorage) != null && old(mStorage.mRefs) == 1 && old(Capacity()) <= mCount * 3 ==>
        mStorage == old(mStorage) && copied == 0
      ensures mStorage != old(mStorage) && old(mStorage) != null ==>
        Left(old(mStorage.data[..]), old(mStorage).data[..], old(mStorage.mRefs))
      ensures forall u :: u in world && u != this ==> u.Items() == old(u.Items())
    {
      hide Counted, Agreed, Values, Holds, Left;
      copied := 0;
      ghost var r := Items();
      ItemCount();
      if mStorage != null {
        var newSize := mCount - amount;
        if newSize * 3 < Capacity() {
          var newCapacity := Max(MIN_VECTOR_CAPACITY, newSize * 2);
          if where == newSize && trivial && mStorage.mRefs == 1 && newCapacity == Capacity() {
            CloseGap(world, where, amount);
          } else if where == newSize && trivial {
            copied := newSize;
            Reallocate(world, newCapacity, newSize);
            assert r[..newSize] == r[..where] + r[where + amount..];
          } else {
            copied := newSize;
            ShrinkStorage(world, where, amount, newCapacity);
          }
        } else {
          copied := EditArrayImpl(world);
          CloseGap(world, where, amount);
        }
      }
    }

    method RemoveItemsAt(ghost world: set<Vector<T>>, index: nat, count: nat)
      returns (status: Status, ghost copied: nat)
      requires Coherent(world) && this in world
      modifies this, mStorage, if mStorage == null then {} else {mStorage.data}
      ensures Coherent(world)
      ensures status == if index + count > old(mCount) then BadValue else At(index)
      ensures if status.At?
        then index + count <= |old(Items())| && Items() == Cut(old(Items()), index, count)
             && Capacity() == ShrunkCapacity(old(Capacity()), mCount) && (mStorage != null ==> mStorage.mRefs == 1)
        else Items() == old(Items()) && Capacity() == old(Capacity()) && copied == 0
      ensures copied <= old(mCount)
      ensures status.At? && old(mStorage) != null && old(mStorage.mRefs) == 1 ==>
        copied <= if mCount * 3 < old(Capacity()) then mCount else 0
      ensures mStorage == old(mStorage) || (fresh(mStorage) && fresh(mStorage.data))
      ensures status.BadValue? ==> mStorage == old(mStorage)
      ensures old(mStorage) != null && old(mStorage.mRefs) == 1 && old(Capacity()) <= mCount * 3 ==>
        mStorage == old(mStorage) && copied == 0
      ensures mStorage != old(mStorage) && old(mStorage) != null ==>
        Left(old(mStorage.data[..]), old(mStorage).data[..], old(mStorage.mRefs))
      ensures forall u :: u in world && u != this ==> u.Items() == old(u.Items())
    {
      hide Counted, Agreed, Values, Holds, ShrunkCapacity, Cut, Left;
      ItemCount();
      if index + count > mCount {
        return BadValue, 0;
      }
      copied := Shrink(world, index, count);
      status := At(index);
    }

    method ReplaceAt(ghost world: set<Vector<T>>, item: T, index: nat) returns (status: Status)
      requires Coherent(world) && this in world
      modifies this, mStorage, if mStorage == null then {} else {mStorage.data}
      ensures Coherent(world) && Capacity() == old(Capacity())
      ensures status == if index >= old(mCount) then BadIndex else At(index)
      ensures Items() == if status.At? then old(Items())[index := item] else old(Items())
      ensures status.At? ==>
        && mStorage != null && mStorage.mRefs == 1
        && (old(mStorage) != null && old(mStorage.mRefs) == 1 ==> mStorage == old(mStorage))
      ensures mStorage == old(mStorage) || (fresh(mStorage) && fresh(mStorage.data))
      ensures status.BadIndex? ==> mStorage == old(mStorage)
      ensures mStorage != old(mStorage) && old(mStorage) != null ==>
        Left(old(mStorage.data[..]), old(mStorage).data[..], old(mStorage.mRefs))
      ensures forall u :: u in world && u != this ==> u.Items() == old(u.Items())
    {
      hide Counted, Agreed, Values, Left;
      ghost var r := Items();
      ItemCount();
      if index >= mCount {
        return BadIndex;
      }
      ghost var copied := EditArrayImpl(world);
      ValuesOf(mStorage.data[..], mCount);
      WriteIsPrivate(world);
      mStorage.data[index] := Some(item);
      ValuesAre(mStorage.data[..], mCount, r[index := item]);
      status := At(index);
    }

    /** setCapacity only ever enlarges; it returns the capacity. */
    method SetCapacity(ghost world: set<Vector<T>>, newCapacity: nat) returns (capacity: nat)
      requires Coherent(world) && this in world
      modifies this, mStorage, if mStorage == null then {} else {mStorage.data}
      ensures Coherent(world) && Items() == old(Items())
      ensures capacity == Capacity() == if newCapacity > old(mCount) then newCapacity else old(Capacity())
      ensures newCapacity <= old(mCount) ==> mStorage == old(mStorage)
      ensures newCapacity > old(mCount) ==> mStorage != null && mStorage.mRefs == 1 && fresh(mStorage)
      ensures mStorage != old(mStorage) && old(mStorage) != null ==>
        Left(old(mStorage.data[..]), old(mStorage).data[..], old(mStorage.mRefs))
      ensures forall u :: u in world && u != this ==> u.Items() == old(u.Items())
    {
      hide Counted, Agreed, Values, Left;
      if newCapacity > mCount {
        if mStorage != null {
          ItemCount();
          assert Items()[..mCount] == Items();
          Reallocate(world, newCapacity, mCount);
        } else {
          var b := new SharedBuffer.Alloc(newCapacity);
          Install(world, b, 0);
          ItemCount();
        }
      }
      capacity := Capacity();
    }

    method InsertItem(ghost world: set<Vector<T>>, i: nat, cmp: (T, T) -> int)
      requires Coherent(world) && this in world && mStorage != null && mStorage.mRefs == 1 && i < mCount
      modifies mStorage.data
      ensures Coherent(world) && |old(Items())| == mCount
      ensures Items() == Insert(cmp, old(Items())[..i], old(Items())[i]) + old(Items())[i + 1..]
      ensures forall u :: u in world && u != this ==> u.Items() == old(u.Items())
    {
      hide Counted, Agreed, Values, Holds, Insert;
      ItemCount();
      WriteIsPrivate(world);
      InsertSlot(mStorage.data, mCount, i, cmp);
    }

    /** One round of sort: an item less than the one before it is moved to its place.  The first time that
        happens the vector becomes the only owner of its buffer. */
    method SortRound(ghost world: set<Vector<T>>, i: nat, cmp: (T, T) -> int, edited: bool) returns (moved: bool)
      requires Coherent(world) && this in world && mStorage != null && 0 < i < mCount
      requires edited ==> mStorage.mRefs == 1
      modifies this, mStorage, mStorage.data
      ensures Coherent(world) && mCount == old(mCount) && mStorage != null && Capacity() == old(Capacity())
      ensures |old(Items())| == mCount && (moved <==> cmp(old(Items())[i - 1], old(Items())[i]) > 0)
      ensures if moved
        then Items() == Insert(cmp, old(Items())[..i], old(Items())[i]) + old(Items())[i + 1..] && mStorage.mRefs == 1
        else Items() == old(Items()) && mStorage == old(mStorage) && mStorage.mRefs == old(mStorage.mRefs)
      ensures mStorage == old(mStorage) || (fresh(mStorage) && fresh(mStorage.data))
      ensures old(mStorage.mRefs) == 1 ==> mStorage == old(mStorage)
      ensures mStorage != old(mStorage) || !moved ==> old(mStorage).data[..] == old(mStorage.data[..])
      ensures forall u :: u in world && u != this ==> u.Items() == old(u.Items())
    {
      hide Counted, Agreed, Values, Holds, Insert, Left;
      ItemsAt();
      moved := cmp(mStorage.data[i - 1].value, mStorage.data[i].value) > 0;
      if moved {
        if !edited {
          ghost var copied := EditArrayImpl(world);
        }
        InsertItem(world, i, cmp);
      }
    }

    /** The insertion sort.  A vector that is in order keeps its buffer, shared or not. */
    method Sort(ghost world: set<Vector<T>>, cmp: (T, T) -> int)
      requires Coherent(world) && this in world
      modifies this, mStorage, if mStorage == null then {} else {mStorage.data}
      ensures Coherent(world) && Items() == InsertionSort(cmp, old(Items())) && mCount == old(mCount)
      ensures Capacity() == old(Capacity())
      ensures mStorage == old(mStorage) || (fresh(mStorage) && fresh(mStorage.data))
      ensures old(mStorage) != null && (old(mStorage.mRefs) == 1 || InOrder(cmp, old(Items()))) ==>
        mStorage == old(mStorage)
      ensures old(mStorage) != null && mStorage != old(mStorage) ==> old(mStorage).data[..] == old(mStorage.data[..])
      ensures forall u :: u in world && u != this ==> u.Items() == old(u.Items())
    {
      hide Linked, Valid, Items, Insert, InsertionSort, InOrder;
      ghost var r, n := Items(), mCount;
      ItemCount();
      if mCount > 1 {
        CountHasStorage();
        var edited := false;
        var i := 1;
        SortOne(cmp, r);
        while i < mCount
          invariant Coherent(world) && mCount == n && 1 <= i <= n && mStorage != null && Capacity() == old(Capacity())
          invariant |InsertionSort(cmp, r[..i])| == i && Items() == InsertionSort(cmp, r[..i]) + r[i..]
          invariant edited ==> mStorage.mRefs == 1 && !InOrder(cmp, r)
          invariant !edited ==>
            && mStorage == old(mStorage) && mStorage.mRefs == old(mStorage.mRefs)
            && mStorage.data[..] == old(mStorage.data[..]) && InsertionSort(cmp, r[..i]) == r[..i]
          invariant mStorage == old(mStorage) || (fresh(mStorage) && fresh(mStorage.data))
          invariant old(mStorage.mRefs) == 1 ==> mStorage == old(mStorage)
          invariant mStorage != old(mStorage) ==> old(mStorage).data[..] == old(mStorage.data[..])
          invariant forall u :: u in world && u != this ==> u.Items() == old(u.Items())
        {
          ghost var s := InsertionSort(cmp, r[..i]);
          SortStep(cmp, r, i);
          var moved := SortRound(world, i, cmp, edited);
          if moved {
            if !edited {
              NotInOrder(cmp, r, i);
            }
            edited := true;
          } else {
            InsertHere(cmp, s, r[i]);
            assert r[..i] + [r[i]] == r[..i + 1];
          }
          i := i + 1;
        }
        assert r[..n] == r;
      } else {
        SortFew(cmp, r);
      }
    }

    /** push: on an unshared vector it copies items only when it has to grow. */
    method Push(ghost world: set<Vector<T>>, item: T) returns (ghost copied: nat)
      requires Coherent(world) && this in world
      modifies this, mStorage, if mStorage == null then {} else {mStorage.data}
      ensures Coherent(world) && Items() == old(Items()) + [item] && mCount == old(mCount) + 1
      ensures Capacity() == GrownCapacity(old(Capacity()), mCount) && mStorage != null && mStorage.mRefs == 1
      ensures (old(mStorage) == null || old(mStorage.mRefs) == 1) ==> copied <= PushCost(old(mCount), old(Capacity()))
      ensures mStorage == old(mStorage) || (mStorage != null && fresh(mStorage) && fresh(mStorage.data))
      ensures old(Capacity()) >= mCount && old(mStorage) != null && old(mStorage.mRefs) == 1 ==>
        mStorage == old(mStorage)
      ensures mStorage != old(mStorage) && old(mStorage) != null ==>
        Left(old(mStorage.data[..]), old(mStorage).data[..], old(mStorage.mRefs))
      ensures forall u :: u in world && u != this ==> u.Items() == old(u.Items())
    {
      hide Counted, Agreed, Values, Holds, GrownCapacity, Spliced, Left;
      ItemCount();
      SplicedAtEnds(Items(), [item]);
      var status;
      status, copied := InsertAt(world, item, mCount);
      ItemCount();
    }

    /** pop: on an unshared vector it copies items only when it shrinks the buffer. */
    method Pop(ghost world: set<Vector<T>>) returns (ghost copied: nat)
      requires Coherent(world) && this in world
      modifies this, mStorage, if mStorage == null then {} else {mStorage.data}
      ensures Coherent(world) && |old(Items())| == old(mCount)
      ensures old(mCount) == 0 ==> Items() == [] && Capacity() == old(Capacity()) && copied == 0
      ensures old(mCount) == 0 ==>
        mStorage == old(mStorage) && (old(mStorage) != null ==> mStorage.mRefs == old(mStorage.mRefs))
      ensures old(mCount) > 0 ==>
        && Items() == old(Items())[..old(mCount) - 1] && mCount == old(mCount) - 1
        && Capacity() == ShrunkCapacity(old(Capacity()), mCount) && mStorage != null && mStorage.mRefs == 1
        && (old(mStorage.mRefs) == 1 ==> copied <= PopCost(old(mCount), old(Capacity())))
      ensures mStorage == old(mStorage) || (mStorage != null && fresh(mStorage) && fresh(mStorage.data))
      ensures old(mCount) > 0 && old(mStorage.mRefs) == 1 && old(Capacity()) <= mCount * 3 ==> mStorage == old(mStorage)
      ensures mStorage != old(mStorage) && old(mStorage) != null ==>
        Left(old(mStorage.data[..]), old(mStorage).data[..], old(mStorage.mRefs))
      ensures forall u :: u in world && u != this ==> u.Items() == old(u.Items())
    {
      hide Counted, Agreed, Values, Holds, ShrunkCapacity, Left;
      ItemCount();
      copied := 0;
      if mCount != 0 {
        CountHasStorage();
        var status;
        status, copied := RemoveItemsAt(world, mCount - 1, 1);
        ItemCount();
      }
    }

    /** One push or pop on a vector that is not shared. */
    method Operate(ghost world: set<Vector<T>>, op: Option<T>) returns (ghost copied: nat)
      requires Coherent(world) && this in world && (mStorage == null || mStorage.mRefs == 1)
      modifies this, mStorage, if mStorage == null then {} else {mStorage.data}
      ensures Coherent(world) && (mStorage == null || mStorage.mRefs == 1)
      ensures Items() == AfterOne(old(Items()), op)
      ensures copied + Potential(mCount, Capacity()) <= Potential(old(mCount), old(Capacity())) + 4
      ensures mStorage == old(mStorage) || (mStorage != null && fresh(mStorage) && fresh(mStorage.data))
      ensures forall u :: u in world && u != this ==> u.Items() == old(u.Items())
    {
      hide Counted, Agreed, Values, Holds, Potential, PushCost, PopCost, GrownCapacity, ShrunkCapacity;
      ItemCount();
      HasRoom();
      if op.Some? {
        PushIsCheap(mCount, Capacity());
        copied := Push(world, op.value);
      } else {
        if mCount > 0 {
          PopIsCheap(mCount, Capacity());
        }
        copied := Pop(world);
      }
    }

    /** Any run of pushes (of the given items) and pops on a vector that is not shared copies at most four
        items for each, and what the vector has saved up; all other vectors keep their items. */
    method Run(ghost world: set<Vector<T>>, ops: seq<Option<T>>) returns (ghost copied: nat)
      requires Coherent(world) && this in world && (mStorage == null || mStorage.mRefs == 1)
      modifies this, mStorage, if mStorage == null then {} else {mStorage.data}
      ensures Coherent(world) && Items() == AfterRun(old(Items()), ops)
      ensures copied <= 4 * |ops| + Potential(old(mCount), old(Capacity()))
      ensures forall u :: u in world && u != this ==> u.Items() == old(u.Items())
    {
      hide Linked, Valid, Items, Potential, AfterOne;
      copied := 0;
      var k := 0;
      assert ops[0..] == ops;
      while k < |ops|
        invariant Coherent(world) && (mStorage == null || mStorage.mRefs == 1)
        invariant k <= |ops| && AfterRun(Items(), ops[k..]) == AfterRun(old(Items()), ops)
        invariant copied + Potential(mCount, Capacity()) <= 4 * k + Potential(old(mCount), old(Capacity()))
        invariant mStorage == old(mStorage) || (mStorage != null && fresh(mStorage) && fresh(mStorage.data))
        invariant forall u :: u in world && u != this ==> u.Items() == old(u.Items())
      {
        assert ops[k..][1..] == ops[k + 1..];
        ghost var cost := Operate(world, ops[k]);
        copied, k := copied + cost, k + 1;
      }
    }

    lemma ItemsAt()
      requires Valid() && mStorage != null
      ensures mCount <= mStorage.data.Length && |Items()| == mCount
      ensures forall i :: 0 <= i < mCount ==> mStorage.data[i] == Some(Items()[i])
    {
    }
  }

  /** No item is greater than the one behind it. */
  ghost predicate InOrder<T>(cmp: (T, T) -> int, r: seq<T>) {
    forall i :: 0 < i < |r| ==> cmp(r[i - 1], r[i]) <= 0
  }

  lemma NotInOrder<T>(cmp: (T, T) -> int, r: seq<T>, i: nat)
    requires 0 < i < |r| && cmp(r[i - 1], r[i]) > 0
    ensures !InOrder(cmp, r)
  {
  }

  lemma SortFew<T>(cmp: (T, T) -> int, r: seq<T>)
    requires |r| <= 1
    ensures InsertionSort(cmp, r) == r
  {
  }

  lemma SortOne<T>(cmp: (T, T) -> int, r: seq<T>)
    requires r != []
    ensures InsertionSort(cmp, r[..1]) == r[..1] && r == r[..1] + r[1..]
  {
    SortFew(cmp, r[..1]);
  }

  lemma SortStep<T>(cmp: (T, T) -> int, r: seq<T>, i: nat)
    requires i < |r| && |InsertionSort(cmp, r[..i])| == i
    ensures var s := InsertionSort(cmp, r[..i]);
      && InsertionSort(cmp, r[..i + 1]) == Insert(cmp, s, r[i]) && |Insert(cmp, s, r[i])| == i + 1
      && (s + r[i..])[..i] == s && (s + r[i..])[i] == r[i] && (s + r[i..])[i + 1..] == r[i + 1..]
      && s + [r[i]] + r[i + 1..] == s + r[i..]
  {
    hide Insert;
    assert r[..i + 1][..i] == r[..i];
    InsertAdds(cmp, InsertionSort(cmp, r[..i]), r[i]);
    Splits(InsertionSort(cmp, r[..i]), r, i);
  }

  lemma Splits<T>(s: seq<T>, r: seq<T>, i: nat)
    requires i < |r| && |s| == i
    ensures (s + r[i..])[..i] == s && (s + r[i..])[i] == r[i] && (s + r[i..])[i + 1..] == r[i + 1..]
    ensures s + [r[i]] + r[i + 1..] == s + r[i..]
  {
  }
}
