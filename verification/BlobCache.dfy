/** A cache of blobs bounded in total size, with random eviction. */
module BlobCache {
  import opened BlobFormat
  import opened BlobOrder
  import opened SortedVector
  import opened StableSort
  import opened VectorImpl
  import opened Wrappers

  lemma TotalOfCut(s: seq<CacheEntry>, i: nat)
    requires i < |s|
    ensures TotalSize(s) == TotalSize(Cut(s, i, 1)) + Size(s[i])
  {
    TotalOfSplit(s, i);
    assert s[i..][1..] == s[i + 1..];
    TotalOfConcat(s[..i], s[i + 1..]);
  }

  /** Whether the entry of a key can be found, and where. */
  predicate Has(s: seq<CacheEntry>, e: CacheEntry) {
    var p := LowerBound(Compare, s, e);
    p < |s| && Compare(s[p], e) == 0
  }

  lemma TotalOfAdd(s: seq<CacheEntry>, e: CacheEntry)
    ensures TotalSize(AddTo(Compare, s, e)) ==
      TotalSize(s) + Size(e) - if Has(s, e) then Size(s[LowerBound(Compare, s, e)]) else 0
  {
    hide Compare, LowerBound, TotalSize;
    var p := LowerBound(Compare, s, e);
    TotalOfOne(e);
    TotalOfSplit(s, p);
    if Has(s, e) {
      TotalOfCut(s, p);
      assert s[p := e] == s[..p] + [e] + s[p + 1..];
      TotalOfConcat(s[..p], s[p + 1..]);
      TotalOfConcat(s[..p] + [e], s[p + 1..]);
      TotalOfConcat(s[..p], [e]);
    } else {
      TotalOfConcat(s[..p] + [e], s[p..]);
      TotalOfConcat(s[..p], [e]);
    }
  }

  lemma CutKeepsIncreasing(s: seq<CacheEntry>, i: nat)
    requires Increasing(Compare, s) && i < |s|
    ensures Increasing(Compare, Cut(s, i, 1))
    ensures forall e :: e in Cut(s, i, 1) ==> e in s
  {
    hide Compare;
  }

  /** An entry is found exactly when its key occurs. */
  lemma HasIs(s: seq<CacheEntry>, e: CacheEntry)
    requires Increasing(Compare, s)
    ensures Has(s, e) <==> exists x :: x in s && x.key == e.key
    ensures Has(s, e) ==> s[LowerBound(Compare, s, e)].key == e.key
  {
    hide Compare, LowerBound, Increasing;
    CompareIsTotalPreorder();
    Equivalents(Compare, s, e);
    if Has(s, e) {
      CompareIs(s[LowerBound(Compare, s, e)], e);
    }
    if x :| x in s && x.key == e.key {
      CompareIs(x, e);
    }
  }

  lemma AddedEntries(s: seq<CacheEntry>, e: CacheEntry)
    requires Increasing(Compare, s)
    ensures Increasing(Compare, AddTo(Compare, s, e))
    ensures forall x :: x in AddTo(Compare, s, e) <==> x == e || (x in s && x.key != e.key)
  {
    hide Compare, LowerBound, Increasing, AddTo;
    CompareIsTotalPreorder();
    AddKeepsIncreasing(Compare, s, e);
    forall x
      ensures x in AddTo(Compare, s, e) <==> x == e || (x in s && x.key != e.key)
    {
      CompareIs(x, e);
      AddHolds(Compare, s, e, x);
    }
  }

  lemma {:induction false} MembersFit(s: seq<CacheEntry>, i: nat)
    requires i < |s|
    ensures Size(s[i]) <= TotalSize(s)
  {
    if i > 0 {
      MembersFit(s[1..], i - 1);
    }
  }

  lemma {:induction false} FewEntries(s: seq<CacheEntry>)
    requires forall e :: e in s ==> 0 < |e.key|
    ensures |s| <= TotalSize(s)
  {
    if s != [] {
      FewEntries(s[1..]);
    }
  }

  datatype SetResult = Rejected | Stored | NotStored | Crashed

  datatype UnflattenResult = Ok | BadValue | Failed

  class Cache {
    const mMaxKeySize: nat
    const mMaxValueSize: nat
    const mMaxTotalSize: nat
    var mTotalSize: nat
    var mCacheEntries: seq<CacheEntry>
    /** Bytes still counted for entries that unflatten has dropped. */
    ghost var mStale: nat
    /** The value most recently stored for each key. */
    ghost var mLast: map<Blob, Blob>

    ghost predicate Valid()
      reads this
    {
      && Increasing(Compare, mCacheEntries)
      && mTotalSize == mStale + TotalSize(mCacheEntries) <= mMaxTotalSize
      && forall e :: e in mCacheEntries ==>
           && 0 < |e.key| <= mMaxKeySize && 0 < |e.value| <= mMaxValueSize
           && e.key in mLast && mLast[e.key] == e.value
    }

    constructor (maxKeySize: nat, maxValueSize: nat, maxTotalSize: nat)
      ensures Valid() && mCacheEntries == [] && mTotalSize == mStale == 0
      ensures mMaxKeySize == maxKeySize && mMaxValueSize == maxValueSize && mMaxTotalSize == maxTotalSize
    {
      mMaxKeySize, mMaxValueSize, mMaxTotalSize := maxKeySize, maxValueSize, maxTotalSize;
      mTotalSize, mCacheEntries, mStale, mLast := 0, [], 0, map[];
    }

    predicate IsCleanable()
      reads this
    {
      mTotalSize > mMaxTotalSize / 2
    }

    /** Removes random entries until at most half the limit is counted.  Choosing from no entries at all
        divides by zero, which happens exactly when the bytes of dropped entries alone exceed that. */
    method Clean() returns (crashed: bool, ghost last: CacheEntry)
      requires Valid()
      modifies `mTotalSize, `mCacheEntries
      ensures Valid() && crashed == (mStale > mMaxTotalSize / 2)
      ensures !crashed ==> !IsCleanable()
      ensures forall e :: e in mCacheEntries ==> e in old(mCacheEntries)
      ensures old(IsCleanable()) && !crashed ==> last in old(mCacheEntries) && mTotalSize + Size(last) > mMaxTotalSize / 2
      ensures old(!IsCleanable()) ==> mCacheEntries == old(mCacheEntries) && mTotalSize == old(mTotalSize)
    {
      hide Compare, Increasing, Cut, TotalSize;
      last := CacheEntry([], []);
      while mTotalSize > mMaxTotalSize / 2
        invariant Valid()
        invariant forall e :: e in mCacheEntries ==> e in old(mCacheEntries)
        invariant old(!IsCleanable()) ==> mCacheEntries == old(mCacheEntries) && mTotalSize == old(mTotalSize)
        invariant mTotalSize <= mMaxTotalSize / 2 && old(IsCleanable()) ==>
          last in old(mCacheEntries) && mTotalSize + Size(last) > mMaxTotalSize / 2
        decreases |mCacheEntries|
      {
        if |mCacheEntries| == 0 {
          TotalOfNone();
          return true, last;
        }
        var random: nat := *;
        var i := random % |mCacheEntries|;
        TotalOfCut(mCacheEntries, i);
        CutKeepsIncreasing(mCacheEntries, i);
        last := mCacheEntries[i];
        mTotalSize := mTotalSize - Size(mCacheEntries[i]);
        mCacheEntries := Cut(mCacheEntries, i, 1);
      }
      return false, last;
    }

    lemma TotalOfNone()
      ensures TotalSize([]) == 0
    {
    }

    predicate Acceptable(key: Blob, value: Blob) {
      && |key| <= mMaxKeySize && |value| <= mMaxValueSize && |key| + |value| <= mMaxTotalSize
      && key != [] && value != []
    }

    /** The size counted once e is stored. */
    ghost function NewTotal(e: CacheEntry): int
      reads this
    {
      mTotalSize + Size(e)
      - if Has(mCacheEntries, e) then Size(mCacheEntries[LowerBound(Compare, mCacheEntries, e)]) else 0
    }

    /** Stores the entry when it fits. */
    method Put(e: CacheEntry, newTotalSize: nat)
      requires Valid() && Acceptable(e.key, e.value) && newTotalSize == NewTotal(e) <= mMaxTotalSize
      modifies `mCacheEntries, `mTotalSize, `mLast
      ensures Valid() && mCacheEntries == AddTo(Compare, old(mCacheEntries), e) && mTotalSize == old(NewTotal(e))
      ensures mLast == old(mLast)[e.key := e.value]
    {
      hide Compare, Increasing, LowerBound, TotalSize, AddTo;
      AddedEntries(mCacheEntries, e);
      TotalOfAdd(mCacheEntries, e);
      mTotalSize := newTotalSize;
      mCacheEntries := AddTo(Compare, mCacheEntries, e);
      mLast := mLast[e.key := e.value];
    }

    method Set(key: Blob, value: Blob) returns (result: SetResult)
      requires Valid()
      modifies this
      ensures Valid() && mStale == old(mStale)
      ensures result.Rejected? <==> !Acceptable(key, value)
      ensures result.Rejected? ==> unchanged(this)
      ensures Acceptable(key, value) && old(NewTotal(CacheEntry(key, value))) <= mMaxTotalSize ==>
        && result.Stored? && mCacheEntries == AddTo(Compare, old(mCacheEntries), CacheEntry(key, value))
        && mTotalSize == old(NewTotal(CacheEntry(key, value)))
      ensures Acceptable(key, value) && old(NewTotal(CacheEntry(key, value))) > mMaxTotalSize && !old(IsCleanable()) ==>
        result.NotStored? && unchanged(this)
      ensures result.Crashed? <==>
        && Acceptable(key, value) && old(NewTotal(CacheEntry(key, value))) > mMaxTotalSize
        && mStale > mMaxTotalSize / 2
      ensures result.NotStored? ==> !IsCleanable() && NewTotal(CacheEntry(key, value)) > mMaxTotalSize
      ensures Acceptable(key, value) && |key| + |value| <= mMaxTotalSize - mMaxTotalSize / 2 ==>
        result.Stored? || result.Crashed?
      ensures result.Stored? ==> CacheEntry(key, value) in mCacheEntries
      ensures forall e :: e in mCacheEntries ==> (result.Stored? && e == CacheEntry(key, value)) || e in old(mCacheEntries)
      ensures mLast == if result.Stored? then old(mLast)[key := value] else old(mLast)
    {
      hide Compare, Increasing, LowerBound, TotalSize, AddTo, Valid;
      if mMaxKeySize < |key| || mMaxValueSize < |value| || mMaxTotalSize < |key| + |value| || |key| == 0 || |value| <= 0 {
        return Rejected;
      }
      var e := CacheEntry(key, value);
      var cleaned := false;
      while true
        invariant Valid() && mStale == old(mStale) && mLast == old(mLast)
        invariant forall x :: x in mCacheEntries ==> x in old(mCacheEntries)
        invariant !cleaned ==> unchanged(this)
        invariant cleaned ==>
          && !IsCleanable() && old(IsCleanable()) && old(NewTotal(e)) > mMaxTotalSize && mStale <= mMaxTotalSize / 2
        decreases !cleaned
      {
        EntriesAfter(e);
        var p := LowerBound(Compare, mCacheEntries, e);
        var newTotalSize: int;
        if Has(mCacheEntries, e) {
          newTotalSize := mTotalSize + |value| - |mCacheEntries[p].value|;
        } else {
          newTotalSize := mTotalSize + |key| + |value|;
        }
        if mMaxTotalSize < newTotalSize {
          if IsCleanable() {
            var crashed;
            ghost var last;
            crashed, last := Clean();
            if crashed {
              return Crashed;
            }
            cleaned := true;
          } else {
            return NotStored;
          }
        } else {
          Put(e, newTotalSize);
          return Stored;
        }
      }
    }

    lemma EntriesAfter(e: CacheEntry)
      requires Valid()
      ensures Has(mCacheEntries, e) ==> mCacheEntries[LowerBound(Compare, mCacheEntries, e)].key == e.key
      ensures forall x :: x in AddTo(Compare, mCacheEntries, e) <==> x == e || (x in mCacheEntries && x.key != e.key)
      ensures NewTotal(e) >= 0 && mStale <= mTotalSize <= mMaxTotalSize
    {
      hide Compare, Increasing, LowerBound, TotalSize, AddTo;
      TotalOfAdd(mCacheEntries, e);
      HasIs(mCacheEntries, e);
      AddedEntries(mCacheEntries, e);
    }

    /** The size of the value last stored for the key, or 0; the value itself if the buffer has room. */
    method Get(key: Blob, value: array<Byte>) returns (size: nat)
      requires Valid()
      modifies value
      ensures size == 0 <==> !exists e :: e in mCacheEntries && e.key == key
      ensures size > 0 ==> key in mLast && size == |mLast[key]|
      ensures 0 < size <= value.Length ==> value[..] == mLast[key] + old(value[..])[size..]
      ensures !(0 < size <= value.Length) ==> value[..] == old(value[..])
    {
      hide Compare, Increasing, LowerBound, TotalSize;
      var dummy := CacheEntry(key, []);
      HasIs(mCacheEntries, dummy);
      if mMaxKeySize < |key| {
        return 0;
      }
      if !Has(mCacheEntries, dummy) {
        return 0;
      }
      var found := mCacheEntries[LowerBound(Compare, mCacheEntries, dummy)];
      size := |found.value|;
      if size <= value.Length {
        WriteBytes(value, 0, found.value);
      }
    }

    method GetFlattenedSize() returns (size: nat)
      ensures size == FlattenedSize(mCacheEntries)
    {
      hide Align4, Offset;
      size := HEADER_SIZE;
      ghost var es := mCacheEntries;
      OffsetStart(es);
      for i := 0 to |mCacheEntries|
        invariant if i == 0 then size == HEADER_SIZE else size == Offset(es, i - 1) + RecordSize(es[i - 1])
        invariant Align4(size) == Offset(es, i)
      {
        size := Align4(size) + RecordSize(mCacheEntries[i]);
        OffsetNext(es, i);
        AlignSum(Offset(es, i), RecordSize(es[i]));
      }
    }

    /** Succeeds exactly when the buffer is large enough. */
    method Flatten(buffer: array<Byte>) returns (ok: bool)
      requires Valid() && mMaxTotalSize < TWO_32
      modifies buffer
      ensures ok <==> buffer.Length >= FlattenedSize(mCacheEntries)
      ensures ok ==> Encoded(buffer[..], mCacheEntries)
    {
      hide Align4, Offset, Compare, Increasing, TotalSize, RecordAt, HeaderAt, SameUpTo;
      ghost var es := mCacheEntries;
      OffsetStart(es);
      FewEntries(es);
      if |es| > 0 {
        RecordFits(es, 0);
      }
      if buffer.Length < HEADER_SIZE {
        return false;
      }
      WriteHeader(buffer, |mCacheEntries|);
      var byteOffset := Align4(HEADER_SIZE);
      for i := 0 to |mCacheEntries|
        invariant byteOffset == Offset(es, i)
        invariant i > 0 ==> Offset(es, i - 1) + RecordSize(es[i - 1]) <= buffer.Length
        invariant HeaderAt(buffer[..], |es|)
        invariant forall j :: 0 <= j < i ==> RecordAt(buffer[..], Offset(es, j), es[j])
      {
        var e := mCacheEntries[i];
        RecordFits(es, i);
        if byteOffset + RecordSize(e) > buffer.Length {
          return false;
        }
        MembersFit(es, i);
        ghost var b := buffer[..];
        WriteRecord(buffer, byteOffset, e);
        RecordsKept(b, buffer[..], es, i);
        HeaderKept(b, buffer[..], byteOffset, |es|);
        OffsetNext(es, i);
        byteOffset := byteOffset + Align4(RecordSize(e));
      }
      return true;
    }

    /** The entries once es are set one after the other, if all acceptable ones fit. */
    ghost function StoredAll(cache: seq<CacheEntry>, es: seq<CacheEntry>): seq<CacheEntry>
      decreases |es|
    {
      if es == [] then cache
      else StoredAll(if Acceptable(es[0].key, es[0].value) then AddTo(Compare, cache, es[0]) else cache, es[1..])
    }

    /** Each acceptable one of es fits behind its predecessors, with stale bytes counted besides. */
    ghost predicate FitAll(cache: seq<CacheEntry>, stale: nat, es: seq<CacheEntry>)
      decreases |es|
    {
      es == []
      || if !Acceptable(es[0].key, es[0].value) then FitAll(cache, stale, es[1..])
         else
           var more := AddTo(Compare, cache, es[0]);
           stale + TotalSize(more) <= mMaxTotalSize && FitAll(more, stale, es[1..])
    }

    function Accepted(es: seq<CacheEntry>): seq<CacheEntry> {
      if es == [] then [] else (if Acceptable(es[0].key, es[0].value) then [es[0]] else []) + Accepted(es[1..])
    }

    /** Setting entries one after the other is an item-wise merge of the acceptable ones. */
    lemma {:induction false} StoredAllMerges(cache: seq<CacheEntry>, es: seq<CacheEntry>)
      ensures StoredAll(cache, es) == AddAll(Compare, cache, Accepted(es))
      decreases |es|
    {
      hide AddTo, Acceptable, Compare;
      if es != [] {
        if Acceptable(es[0].key, es[0].value) {
          assert Accepted(es)[1..] == Accepted(es[1..]);
          StoredAllMerges(AddTo(Compare, cache, es[0]), es[1..]);
        } else {
          assert Accepted(es) == Accepted(es[1..]);
          StoredAllMerges(cache, es[1..]);
        }
      }
    }

    /** All fit exactly if, after each acceptable entry, all that is stored and the stale bytes are within the limit. */
    lemma {:induction false} FitAllIs(cache: seq<CacheEntry>, stale: nat, es: seq<CacheEntry>)
      ensures FitAll(cache, stale, es) <==>
        forall i :: 0 <= i < |es| && Acceptable(es[i].key, es[i].value) ==> StaysWithin(cache, stale, es, i + 1)
      decreases |es|
    {
      hide AddTo, Acceptable, Compare, TotalSize, StoredAll, StaysWithin;
      if es != [] {
        var more := if Acceptable(es[0].key, es[0].value) then AddTo(Compare, cache, es[0]) else cache;
        var rest := es[1..];
        FitAllIs(more, stale, rest);
        FirstWithin(cache, more, stale, es);
        forall i | 0 <= i < |rest|
          ensures rest[i] == es[i + 1] && (StaysWithin(cache, stale, es, i + 2) <==> StaysWithin(more, stale, rest, i + 1))
        {
          LaterWithin(cache, more, stale, es, i + 1);
        }
        forall i | 0 < i < |es|
          ensures es[i] == rest[i - 1]
        {
        }
      }
    }

    ghost predicate StaysWithin(cache: seq<CacheEntry>, stale: nat, es: seq<CacheEntry>, i: nat)
      requires i <= |es|
    {
      stale + TotalSize(StoredAll(cache, es[..i])) <= mMaxTotalSize
    }

    lemma FirstWithin(cache: seq<CacheEntry>, more: seq<CacheEntry>, stale: nat, es: seq<CacheEntry>)
      requires es != []
      requires more == if Acceptable(es[0].key, es[0].value) then AddTo(Compare, cache, es[0]) else cache
      ensures StaysWithin(cache, stale, es, 1) <==> stale + TotalSize(more) <= mMaxTotalSize
    {
      hide AddTo, Acceptable, Compare, TotalSize;
      var first := es[..1];
      assert first[0] == es[0] && first[1..] == [];
      assert StoredAll(cache, first) == StoredAll(more, first[1..]) == more;
    }

    lemma LaterWithin(cache: seq<CacheEntry>, more: seq<CacheEntry>, stale: nat, es: seq<CacheEntry>, i: nat)
      requires 0 < i < |es|
      requires more == if Acceptable(es[0].key, es[0].value) then AddTo(Compare, cache, es[0]) else cache
      ensures StaysWithin(cache, stale, es, i + 1) <==> StaysWithin(more, stale, es[1..], i)
    {
      hide AddTo, Acceptable, Compare, TotalSize;
      var first := es[..i + 1];
      assert first[0] == es[0] && first[1..] == es[1..][..i];
      assert StoredAll(cache, first) == StoredAll(more, first[1..]);
    }

    /** Entries that a cache with these limits stores without ever cleaning. */
    ghost predicate Storable(es: seq<CacheEntry>) {
      && Increasing(Compare, es) && TotalSize(es) <= mMaxTotalSize
      && forall e :: e in es ==> Acceptable(e.key, e.value)
    }

    lemma NewTotalIs(e: CacheEntry)
      requires Valid()
      ensures NewTotal(e) == mStale + TotalSize(AddTo(Compare, mCacheEntries, e))
    {
      hide Compare, Increasing, TotalSize, AddTo, LowerBound;
      TotalOfAdd(mCacheEntries, e);
    }

    /** mCacheEntries.clear(): the bytes of the dropped entries stay counted. */
    method DropEntries()
      requires Valid()
      modifies `mCacheEntries, `mStale
      ensures Valid() && mCacheEntries == [] && mStale == mTotalSize
    {
      hide Compare;
      mCacheEntries := [];
      mStale := mTotalSize;
    }

    /** Sets the entries read from the buffer, and drops them again if it ends too early.  The bytes counted
        before stay counted; if they exceed half the limit, the first acceptable entry that does not fit
        makes set choose from no entries.  As long as all fit, exactly they are stored. */
    method Unflatten(buffer: Blob) returns (result: UnflattenResult)
      requires Valid()
      modifies this
      ensures Valid()
      ensures result.Failed? <==>
        old(mTotalSize) > mMaxTotalSize / 2 && !FitAll([], old(mTotalSize), ReadEntries(buffer))
      ensures !result.Failed? ==> (result.BadValue? <==> Decode(buffer).None?)
      ensures result.BadValue? ==> mCacheEntries == [] && mStale == mTotalSize
      ensures !result.BadValue? ==> mStale == old(mTotalSize)
      ensures FitAll([], old(mTotalSize), ReadEntries(buffer)) ==>
        var es := StoredAll([], ReadEntries(buffer));
        mTotalSize == old(mTotalSize) + TotalSize(es) && (result.Ok? ==> mCacheEntries == es)
      ensures old(mTotalSize) == 0 && Decode(buffer).Some? && Storable(Decode(buffer).value) ==>
        && result.Ok? && mCacheEntries == Decode(buffer).value
        && mStale == 0 && mTotalSize == TotalSize(mCacheEntries)
    {
      hide Compare, Increasing, TotalSize, Valid, AddTo, FromWord, Records, Acceptable, FitAll, StoredAll, Storable;
      ghost var stale := mTotalSize;
      DropEntries();
      TotalIs();
      NoRecords(buffer, HEADER_SIZE);
      AllSet([], stale);
      if stale == 0 && Storable(ReadEntries(buffer)) {
        StorableFits(ReadEntries(buffer));
      }
      if |buffer| < HEADER_SIZE {
        return UnflattenResult.BadValue;
      }
      if FromWord(buffer, 0) != MAGIC {
        return UnflattenResult.BadValue;
      }
      if FromWord(buffer, 4) != VERSION || FromWord(buffer, 8) != DEVICE_VERSION {
        return Ok;
      }
      result := SetEntries(buffer, FromWord(buffer, 12));
    }

    lemma TotalIs()
      requires Valid()
      ensures mTotalSize == mStale + TotalSize(mCacheEntries)
    {
    }

    /** The part of unflatten behind the header. */
    method SetEntries(buffer: Blob, numEntries: nat) returns (result: UnflattenResult)
      requires Valid() && mCacheEntries == [] && mStale == mTotalSize
      modifies this
      ensures Valid()
      ensures result.Failed? <==>
        old(mTotalSize) > mMaxTotalSize / 2 && !FitAll([], old(mTotalSize), Records(buffer, HEADER_SIZE, numEntries))
      ensures !result.Failed? ==> (result.BadValue? <==> |Records(buffer, HEADER_SIZE, numEntries)| < numEntries)
      ensures result.BadValue? ==> mCacheEntries == [] && mStale == mTotalSize
      ensures !result.BadValue? ==> mStale == old(mTotalSize)
      ensures FitAll([], old(mTotalSize), Records(buffer, HEADER_SIZE, numEntries)) ==>
        var es := StoredAll([], Records(buffer, HEADER_SIZE, numEntries));
        mTotalSize == old(mTotalSize) + TotalSize(es) && (result.Ok? ==> mCacheEntries == es)
    {
      hide Compare, Increasing, TotalSize, Valid, AddTo, Has, FromWord, Align4, Records, Acceptable, FitAll, StoredAll;
      ghost var es, stale := Records(buffer, HEADER_SIZE, numEntries), mTotalSize;
      var byteOffset: nat := HEADER_SIZE;
      ghost var fit := true;
      for i := 0 to numEntries
        invariant Valid() && mStale == stale
        invariant |es| == i + |Records(buffer, byteOffset, numEntries - i)|
        invariant fit ==> Pending(es, stale, Records(buffer, byteOffset, numEntries - i))
        invariant !fit ==> stale <= mMaxTotalSize / 2 && !FitAll([], stale, es)
      {
        ghost var rest := Records(buffer, byteOffset, numEntries - i);
        if byteOffset + ENTRY_HEADER_SIZE > |buffer| {
          RecordsEnd(buffer, byteOffset, numEntries - i);
          result := GiveUp();
          return;
        }
        var keySize, valueSize := FromWord(buffer, byteOffset), FromWord(buffer, byteOffset + 4);
        var entrySize := ENTRY_HEADER_SIZE + keySize + valueSize;
        if byteOffset + entrySize > |buffer| {
          RecordsEnd(buffer, byteOffset, numEntries - i);
          result := GiveUp();
          return;
        }
        var keyAt := byteOffset + ENTRY_HEADER_SIZE;
        var e := CacheEntry(buffer[keyAt..keyAt + keySize], buffer[keyAt + keySize..byteOffset + entrySize]);
        RecordsNext(buffer, byteOffset, numEntries - i, e);
        var stored: SetResult;
        stored, fit := SetRead(e, es, stale, rest, fit);
        if stored.Crashed? {
          return Failed;
        }
        byteOffset := byteOffset + Align4(entrySize);
      }
      NoRecords(buffer, byteOffset);
      AllSet(mCacheEntries, stale);
      TotalIs();
      return Ok;
    }

    /** The buffer has ended too early: the entries are dropped. */
    method GiveUp() returns (result: UnflattenResult)
      requires Valid()
      modifies `mCacheEntries, `mStale
      ensures Valid() && result.BadValue? && mCacheEntries == [] && mStale == mTotalSize
      ensures FitAll(old(mCacheEntries), old(mStale), []) && StoredAll(old(mCacheEntries), []) == old(mCacheEntries)
      ensures mTotalSize == old(mStale) + TotalSize(old(mCacheEntries))
    {
      hide TotalSize, Valid, FitAll, StoredAll;
      AllSet(mCacheEntries, mStale);
      TotalIs();
      DropEntries();
      result := UnflattenResult.BadValue;
    }

    /** Sets the first of the remaining entries; all have fit so far, and fit' tells whether this one did too. */
    method SetRead(e: CacheEntry, ghost es: seq<CacheEntry>, ghost stale: nat, ghost rest: seq<CacheEntry>,
                   ghost fit: bool)
      returns (stored: SetResult, ghost fit': bool)
      requires Valid() && mStale == stale && rest != [] && rest[0] == e
      requires if fit then Pending(es, stale, rest) else stale <= mMaxTotalSize / 2 && !FitAll([], stale, es)
      modifies this
      ensures Valid() && mStale == stale
      ensures stored.Crashed? ==> stale > mMaxTotalSize / 2 && !FitAll([], stale, es)
      ensures !stored.Crashed? ==>
        if fit' then Pending(es, stale, rest[1..]) else stale <= mMaxTotalSize / 2 && !FitAll([], stale, es)
    {
      hide Compare, Increasing, TotalSize, Valid, AddTo, LowerBound, Has, Acceptable, FitAll, StoredAll, NewTotal;
      NewTotalIs(e);
      NextSet(mCacheEntries, stale, rest);
      fit' := fit && (!Acceptable(e.key, e.value) || NewTotal(e) <= mMaxTotalSize);
      stored := Set(e.key, e.value);
    }

    /** What setting the rest still has to do is what setting all has to do in the end. */
    ghost predicate Pending(es: seq<CacheEntry>, stale: nat, rest: seq<CacheEntry>)
      reads this
    {
      && FitAll(mCacheEntries, stale, rest) == FitAll([], stale, es)
      && StoredAll(mCacheEntries, rest) == StoredAll([], es)
    }

    lemma AllSet(cache: seq<CacheEntry>, stale: nat)
      ensures FitAll(cache, stale, []) && StoredAll(cache, []) == cache
    {
    }

    lemma NextSet(cache: seq<CacheEntry>, stale: nat, es: seq<CacheEntry>)
      requires es != []
      ensures var e := es[0];
        var more := AddTo(Compare, cache, e);
        if Acceptable(e.key, e.value)
        then StoredAll(cache, es) == StoredAll(more, es[1..])
             && (FitAll(cache, stale, es) <==> stale + TotalSize(more) <= mMaxTotalSize && FitAll(more, stale, es[1..]))
        else StoredAll(cache, es) == StoredAll(cache, es[1..])
             && (FitAll(cache, stale, es) <==> FitAll(cache, stale, es[1..]))
    {
      hide Acceptable, AddTo, TotalSize;
    }

    /** Storable entries all fit into an empty cache, which then holds exactly them. */
    lemma StorableFits(es: seq<CacheEntry>)
      requires Storable(es)
      ensures FitAll([], 0, es) && StoredAll([], es) == es
    {
      hide Storable, FitAll, StoredAll;
      StorableFrom(es, 0);
      assert es[0..] == es && es[..0] == [];
    }

    lemma {:induction false} StorableFrom(es: seq<CacheEntry>, i: nat)
      requires Storable(es) && i <= |es|
      ensures FitAll(es[..i], 0, es[i..]) && StoredAll(es[..i], es[i..]) == es
      decreases |es| - i
    {
      hide AddTo, TotalSize, FitAll, StoredAll, Acceptable, Increasing;
      if i < |es| {
        StorableFrom(es, i + 1);
        NextFits(es, i);
        NextSet(es[..i], 0, es[i..]);
        assert es[i..][1..] == es[i + 1..];
      } else {
        AllSet(es[..i], 0);
        assert es[..i] == es && es[i..] == [];
      }
    }

    /** Each of storable entries fits behind its predecessors, and belongs there. */
    lemma NextFits(es: seq<CacheEntry>, i: nat)
      requires Storable(es) && i < |es|
      ensures Acceptable(es[i].key, es[i].value) && TotalSize(es[..i + 1]) <= mMaxTotalSize
      ensures AddTo(Compare, es[..i], es[i]) == es[..i + 1]
    {
      hide Compare, TotalSize, LowerBound, AddTo;
      var p, e := es[..i], es[i];
      assert e in es;
      assert p + [e] + [] == es[..i + 1] && p + [] == p;
      CompareIsTotalPreorder();
      AddAt(Compare, p, e, []);
      TotalOfSplit(es, i + 1);
    }
  }

  lemma RecordsEnd(b: Blob, at: nat, n: nat)
    requires at + ENTRY_HEADER_SIZE > |b| ||
      at + ENTRY_HEADER_SIZE + FromWord(b, at) + FromWord(b, at + 4) > |b|
    ensures Records(b, at, n) == []
  {
    hide FromWord;
  }

  lemma RecordsNext(b: Blob, at: nat, n: nat, e: CacheEntry)
    requires n > 0 && at + ENTRY_HEADER_SIZE <= |b|
    requires var keyAt, keySize, valueSize := at + ENTRY_HEADER_SIZE, FromWord(b, at), FromWord(b, at + 4);
      && keyAt + keySize + valueSize <= |b|
      && e == CacheEntry(b[keyAt..keyAt + keySize], b[keyAt + keySize..keyAt + keySize + valueSize])
    ensures var size := ENTRY_HEADER_SIZE + FromWord(b, at) + FromWord(b, at + 4);
      && Records(b, at, n) == [e] + Records(b, at + Align4(size), n - 1)
      && Records(b, at, n)[1..] == Records(b, at + Align4(size), n - 1)
  {
    hide FromWord, Align4;
  }

  /** What flatten wrote decodes to the entries of the cache, and a cache with the same limits can store
      them all without cleaning: so unflatten on a fresh one restores exactly these entries. */
  lemma FlattenedCacheIsRestored(c: Cache, d: Cache, b: Blob)
    requires c.Valid() && Encoded(b, c.mCacheEntries)
    requires d.mMaxKeySize == c.mMaxKeySize && d.mMaxValueSize == c.mMaxValueSize && d.mMaxTotalSize == c.mMaxTotalSize
    ensures Decode(b) == Some(c.mCacheEntries) && d.Storable(c.mCacheEntries)
  {
    hide Compare, Increasing, TotalSize, Encoded, Decode;
    DecodeOfEncoded(b, c.mCacheEntries);
    var es := c.mCacheEntries;
    forall e | e in es
      ensures d.Acceptable(e.key, e.value)
    {
      var i :| 0 <= i < |es| && es[i] == e;
      MembersFit(es, i);
    }
  }

  /** A run that fails: a fresh cache stores an entry, unflatten finds no header and drops it but not its bytes,
      and storing the same entry again chooses from no entries exactly if it takes more than half the limit. */
  method SetUnflattenSet(maxKeySize: nat, maxValueSize: nat, maxTotalSize: nat, key: Blob, value: Blob)
    returns (result: SetResult)
    requires 0 < |key| <= maxKeySize && 0 < |value| <= maxValueSize && |key| + |value| <= maxTotalSize
    ensures result.Crashed? <==> 2 * (|key| + |value|) > maxTotalSize
    ensures result.Crashed? || result.Stored?
  {
    hide Compare, Increasing, AddTo, TotalSize, FromWord;
    var c := new Cache(maxKeySize, maxValueSize, maxTotalSize);
    ghost var e := CacheEntry(key, value);
    result := c.Set(key, value);
    var unflattened := c.Unflatten([]);
    result := c.Set(key, value);
  }

  lemma OffsetStart(es: seq<CacheEntry>)
    ensures Offset(es, 0) == Align4(HEADER_SIZE) == HEADER_SIZE
  {
  }

  lemma OffsetNext(es: seq<CacheEntry>, i: nat)
    requires i < |es|
    ensures Offset(es, i + 1) == Offset(es, i) + Align4(RecordSize(es[i]))
  {
    hide Align4;
  }

  lemma RecordsKept(b: Blob, b': Blob, es: seq<CacheEntry>, i: nat)
    requires i < |es| && SameUpTo(b, b', Offset(es, i))
    requires forall j :: 0 <= j < i ==> RecordAt(b, Offset(es, j), es[j])
    ensures forall j :: 0 <= j < i ==> RecordAt(b', Offset(es, j), es[j])
  {
    hide RecordAt, SameUpTo, Offset, RecordSize;
    forall j | 0 <= j < i
      ensures RecordAt(b', Offset(es, j), es[j])
    {
      RecordsAreDisjoint(es, j, i);
      RecordKept(b, b', Offset(es, i), Offset(es, j), es[j]);
    }
  }
}
