/** Blobs and cache entries, ordered by size and then by bytes. */
module BlobOrder {
  import opened StableSort

  type Byte = x: int | 0 <= x < 256

  type Blob = seq<Byte>

  datatype CacheEntry = CacheEntry(key: Blob, value: Blob)

  /** memcmp of equally long blobs is negative. */
  predicate BytesLess(a: Blob, b: Blob)
    requires |a| == |b|
  {
    a != [] && (a[0] < b[0] || (a[0] == b[0] && BytesLess(a[1..], b[1..])))
  }

  predicate BlobLess(a: Blob, b: Blob) {
    if |a| == |b| then BytesLess(a, b) else |a| < |b|
  }

  /** do_compare of the sorted vector of entries. */
  function Compare(a: CacheEntry, b: CacheEntry): int {
    (if BlobLess(b.key, a.key) then 1 else 0) - (if BlobLess(a.key, b.key) then 1 else 0)
  }

  lemma {:induction false} BytesTotal(a: Blob, b: Blob)
    requires |a| == |b|
    ensures BytesLess(a, b) || BytesLess(b, a) || a == b
    ensures !(BytesLess(a, b) && BytesLess(b, a)) && !BytesLess(a, a)
  {
    if a != [] {
      BytesTotal(a[1..], b[1..]);
      assert a == [a[0]] + a[1..] && b == [b[0]] + b[1..];
    }
  }

  lemma {:induction false} BytesTransitive(a: Blob, b: Blob, c: Blob)
    requires |a| == |b| == |c| && BytesLess(a, b) && BytesLess(b, c)
    ensures BytesLess(a, c)
  {
    if a[0] == b[0] == c[0] {
      BytesTransitive(a[1..], b[1..], c[1..]);
    }
  }

  /** i is the first place where the blobs differ. */
  predicate DifferFirstAt(a: Blob, b: Blob, i: int) {
    0 <= i < |a| && i < |b| && a[..i] == b[..i] && a[i] != b[i]
  }

  lemma DifferBehind(a: Blob, b: Blob, i: int)
    requires a != [] && b != [] && a[0] == b[0]
    ensures DifferFirstAt(a[1..], b[1..], i) <==> 0 <= i && DifferFirstAt(a, b, i + 1)
  {
    if 0 <= i < |a| - 1 && i < |b| - 1 {
      assert a[..i + 1] == [a[0]] + a[1..][..i] && b[..i + 1] == [b[0]] + b[1..][..i];
    }
  }

  lemma {:induction false} BytesLessIs(a: Blob, b: Blob)
    requires |a| == |b|
    ensures BytesLess(a, b) <==> exists i :: DifferFirstAt(a, b, i) && a[i] < b[i]
  {
    if a != [] {
      BytesLessIs(a[1..], b[1..]);
      if a[0] != b[0] {
        assert DifferFirstAt(a, b, 0);
      } else {
        if i :| DifferFirstAt(a, b, i) && a[i] < b[i] {
          DifferBehind(a, b, i - 1);
        }
        if i :| DifferFirstAt(a[1..], b[1..], i) && a[1..][i] < b[1..][i] {
          DifferBehind(a, b, i);
        }
      }
    }
  }

  /** The shorter blob is less; of two equally long ones that with the lesser byte where they first differ. */
  lemma BlobLessIs(a: Blob, b: Blob)
    ensures BlobLess(a, b) <==>
      |a| < |b| || (|a| == |b| && exists i :: DifferFirstAt(a, b, i) && a[i] < b[i])
  {
    if |a| == |b| {
      BytesLessIs(a, b);
    }
  }

  lemma BlobTotal(a: Blob, b: Blob)
    ensures BlobLess(a, b) || BlobLess(b, a) || a == b
    ensures !(BlobLess(a, b) && BlobLess(b, a)) && !BlobLess(a, a)
  {
    hide BytesLess;
    BytesTotal(a, a);
    if |a| == |b| {
      BytesTotal(a, b);
    }
  }

  /** Comparing entries means comparing keys: equal exactly when the keys are. */
  lemma CompareIs(a: CacheEntry, b: CacheEntry)
    ensures Compare(a, b) == 0 <==> a.key == b.key
    ensures Compare(a, b) < 0 <==> BlobLess(a.key, b.key)
    ensures Compare(a, b) > 0 <==> BlobLess(b.key, a.key)
  {
    hide BlobLess;
    BlobTotal(a.key, b.key);
  }

  lemma CompareIsTransitive(a: CacheEntry, b: CacheEntry, c: CacheEntry)
    requires Compare(a, b) <= 0 && Compare(b, c) <= 0
    ensures Compare(a, c) <= 0
  {
    hide BytesLess;
    CompareIs(a, b);
    CompareIs(b, c);
    CompareIs(a, c);
    BlobTotal(a.key, b.key);
    BlobTotal(b.key, c.key);
    BlobTotal(a.key, c.key);
    if |a.key| == |b.key| == |c.key| && BlobLess(a.key, b.key) && BlobLess(b.key, c.key) {
      BytesTransitive(a.key, b.key, c.key);
    }
  }

  lemma CompareIsTotalPreorder()
    ensures TotalPreorder(Compare)
  {
    hide Compare;
    forall a, b
      ensures Compare(a, b) < 0 <==> Compare(b, a) > 0
    {
      CompareIs(a, b);
      CompareIs(b, a);
    }
    forall a, b, c | Compare(a, b) <= 0 && Compare(b, c) <= 0
      ensures Compare(a, c) <= 0
    {
      CompareIsTransitive(a, b, c);
    }
  }
}
