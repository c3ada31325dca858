/** The flattened form of a cache: a header and one 4-aligned record per entry. */
module BlobFormat {
  import opened BlobOrder
  import opened Wrappers

  const HEADER_SIZE: nat := 16
  const ENTRY_HEADER_SIZE: nat := 8
  const MAGIC: nat := 0x5f42_6224
  const VERSION: nat := 1
  const DEVICE_VERSION: nat := 1
  const TWO_32: nat := 0x1_0000_0000

  function Size(e: CacheEntry): nat { |e.key| + |e.value| }

  function TotalSize(s: seq<CacheEntry>): nat {
    if s == [] then 0 else Size(s[0]) + TotalSize(s[1..])
  }

  lemma {:induction false} TotalOfSplit(s: seq<CacheEntry>, i: nat)
    requires i <= |s|
    ensures TotalSize(s) == TotalSize(s[..i]) + TotalSize(s[i..])
  {
    if i > 0 {
      TotalOfSplit(s[1..], i - 1);
      assert s[..i][1..] == s[1..][..i - 1];
    } else {
      assert s[i..] == s;
    }
  }

  lemma {:induction false} TotalOfConcat(a: seq<CacheEntry>, b: seq<CacheEntry>)
    ensures TotalSize(a + b) == TotalSize(a) + TotalSize(b)
  {
    TotalOfSplit(a + b, |a|);
    assert (a + b)[..|a|] == a && (a + b)[|a|..] == b;
  }

  lemma TotalOfOne(e: CacheEntry)
    ensures TotalSize([e]) == Size(e)
  {
  }

  /** (n + 3) & ~3 */
  function Align4(n: nat): (r: nat)
    ensures n <= r < n + 4 && r % 4 == 0
  {
    (n + 3) / 4 * 4
  }

  lemma AlignSum(a: nat, n: nat)
    requires a % 4 == 0
    ensures Align4(a + n) == a + Align4(n)
  {
  }

  function RecordSize(e: CacheEntry): nat { ENTRY_HEADER_SIZE + Size(e) }

  /** Where the record of entry i starts. */
  function Offset(es: seq<CacheEntry>, i: nat): (at: nat)
    requires i <= |es|
    ensures at % 4 == 0 && at >= HEADER_SIZE
  {
    if i == 0 then HEADER_SIZE else Offset(es, i - 1) + Align4(RecordSize(es[i - 1]))
  }

  function FlattenedSize(es: seq<CacheEntry>): nat {
    if es == [] then HEADER_SIZE else Offset(es, |es| - 1) + RecordSize(es[|es| - 1])
  }

  /** Records do not overlap, and all end within the flattened size. */
  lemma {:induction false} RecordsAreDisjoint(es: seq<CacheEntry>, i: nat, j: nat)
    requires i < j <= |es|
    ensures Offset(es, i) + RecordSize(es[i]) <= Offset(es, j)
    decreases j
  {
    hide Align4, RecordSize;
    if i < j - 1 {
      RecordsAreDisjoint(es, i, j - 1);
    }
  }

  lemma RecordFits(es: seq<CacheEntry>, i: nat)
    requires i < |es|
    ensures Offset(es, i) + RecordSize(es[i]) <= FlattenedSize(es)
  {
    hide Align4, RecordSize, Offset;
    if i < |es| - 1 {
      RecordsAreDisjoint(es, i, |es| - 1);
    }
  }

  // ------------------------------------------------------------ words

  /** The bytes of a 32-bit word, least significant first. */
  function Word(x: nat): (b: Blob)
    requires x < TWO_32
    ensures |b| == 4
  {
    [x % 256, x / 256 % 256, x / 256 / 256 % 256, x / 256 / 256 / 256]
  }

  function FromWord(b: Blob, at: nat): nat
    requires at + 4 <= |b|
  {
    var b0: int, b1: int, b2: int, b3: int := b[at], b[at + 1], b[at + 2], b[at + 3];
    b0 + 256 * (b1 + 256 * (b2 + 256 * b3))
  }

  lemma FromWordOfWord(b: Blob, at: nat, x: nat)
    requires x < TWO_32 && at + 4 <= |b| && b[at..at + 4] == Word(x)
    ensures FromWord(b, at) == x
  {
    var w := Word(x);
    assert b[at] == w[0] && b[at + 1] == w[1] && b[at + 2] == w[2] && b[at + 3] == w[3];
  }

  // ------------------------------------------------------------ encoding

  ghost predicate At(b: Blob, at: nat, data: Blob) {
    at + |data| <= |b| && b[at..at + |data|] == data
  }

  ghost predicate SameUpTo(b: Blob, b': Blob, n: nat) {
    n <= |b| == |b'| && b[..n] == b'[..n]
  }

  lemma AtKept(b: Blob, b': Blob, n: nat, at: nat, data: Blob)
    requires At(b, at, data) && SameUpTo(b, b', n) && at + |data| <= n
    ensures At(b', at, data)
  {
    assert b[at..at + |data|] == b[..n][at..at + |data|];
    assert b'[at..at + |data|] == b'[..n][at..at + |data|];
  }

  lemma SameLess(b: Blob, b': Blob, b'': Blob, n: nat, m: nat)
    requires SameUpTo(b, b', n) && SameUpTo(b', b'', m) && n <= m
    ensures SameUpTo(b, b'', n)
  {
    assert b'[..n] == b'[..m][..n];
    assert b''[..n] == b''[..m][..n];
  }

  ghost predicate HeaderAt(b: Blob, n: nat) {
    && HEADER_SIZE <= |b| && n < TWO_32
    && At(b, 0, Word(MAGIC)) && At(b, 4, Word(VERSION)) && At(b, 8, Word(DEVICE_VERSION)) && At(b, 12, Word(n))
  }

  ghost predicate RecordAt(b: Blob, at: nat, e: CacheEntry) {
    var keyAt := at + ENTRY_HEADER_SIZE;
    && |e.key| < TWO_32 && |e.value| < TWO_32
    && At(b, at, Word(|e.key|)) && At(b, at + 4, Word(|e.value|))
    && At(b, keyAt, e.key) && At(b, keyAt + |e.key|, e.value)
  }

  /** b starts with the flattened form of es; the bytes between records may be anything. */
  ghost predicate Encoded(b: Blob, es: seq<CacheEntry>) {
    && FlattenedSize(es) <= |b| && HeaderAt(b, |es|)
    && forall i :: 0 <= i < |es| ==> RecordAt(b, Offset(es, i), es[i])
  }

  lemma RecordKept(b: Blob, b': Blob, n: nat, at: nat, e: CacheEntry)
    requires RecordAt(b, at, e) && SameUpTo(b, b', n) && at + RecordSize(e) <= n
    ensures RecordAt(b', at, e)
  {
    hide Word, At, SameUpTo;
    var keyAt := at + ENTRY_HEADER_SIZE;
    AtKept(b, b', n, at, Word(|e.key|));
    AtKept(b, b', n, at + 4, Word(|e.value|));
    AtKept(b, b', n, keyAt, e.key);
    AtKept(b, b', n, keyAt + |e.key|, e.value);
  }

  lemma HeaderKept(b: Blob, b': Blob, n: nat, k: nat)
    requires HeaderAt(b, k) && SameUpTo(b, b', n) && HEADER_SIZE <= n
    ensures HeaderAt(b', k)
  {
    hide Word, At;
    AtKept(b, b', n, 0, Word(MAGIC));
    AtKept(b, b', n, 4, Word(VERSION));
    AtKept(b, b', n, 8, Word(DEVICE_VERSION));
    AtKept(b, b', n, 12, Word(k));
  }

  /** memcpy into a buffer. */
  method WriteBytes(buffer: array<Byte>, at: nat, data: Blob)
    requires at + |data| <= buffer.Length
    modifies buffer
    ensures At(buffer[..], at, data) && SameUpTo(old(buffer[..]), buffer[..], at)
    ensures buffer[at + |data|..] == old(buffer[at + |data|..])
  {
    for i := 0 to |data|
      invariant buffer[..at] == old(buffer[..at])
      invariant buffer[at..at + i] == data[..i]
      invariant buffer[at + i..] == old(buffer[at + i..])
    {
      buffer[at + i] := data[i];
    }
  }

  method WriteHeader(buffer: array<Byte>, n: nat)
    requires HEADER_SIZE <= buffer.Length && n < TWO_32
    modifies buffer
    ensures HeaderAt(buffer[..], n)
  {
    hide Word, At, SameUpTo;
    WriteBytes(buffer, 0, Word(MAGIC));
    ghost var b1 := buffer[..];
    WriteBytes(buffer, 4, Word(VERSION));
    ghost var b2 := buffer[..];
    AtKept(b1, b2, 4, 0, Word(MAGIC));
    WriteBytes(buffer, 8, Word(DEVICE_VERSION));
    ghost var b3 := buffer[..];
    AtKept(b2, b3, 8, 0, Word(MAGIC));
    AtKept(b2, b3, 8, 4, Word(VERSION));
    WriteBytes(buffer, 12, Word(n));
    ghost var b4 := buffer[..];
    AtKept(b3, b4, 12, 0, Word(MAGIC));
    AtKept(b3, b4, 12, 4, Word(VERSION));
    AtKept(b3, b4, 12, 8, Word(DEVICE_VERSION));
  }

  method WriteRecord(buffer: array<Byte>, at: nat, e: CacheEntry)
    requires at + RecordSize(e) <= buffer.Length && |e.key| < TWO_32 && |e.value| < TWO_32
    modifies buffer
    ensures RecordAt(buffer[..], at, e) && SameUpTo(old(buffer[..]), buffer[..], at)
  {
    hide Word, At, SameUpTo;
    var keyAt := at + ENTRY_HEADER_SIZE;
    var k, v := Word(|e.key|), Word(|e.value|);
    ghost var b0 := buffer[..];
    WriteBytes(buffer, at, k);
    ghost var b1 := buffer[..];
    WriteBytes(buffer, at + 4, v);
    ghost var b2 := buffer[..];
    AtKept(b1, b2, at + 4, at, k);
    SameLess(b0, b1, b2, at, at + 4);
    WriteBytes(buffer, keyAt, e.key);
    ghost var b3 := buffer[..];
    AtKept(b2, b3, keyAt, at, k);
    AtKept(b2, b3, keyAt, at + 4, v);
    SameLess(b0, b2, b3, at, keyAt);
    var valueAt := keyAt + |e.key|;
    WriteBytes(buffer, valueAt, e.value);
    ghost var b4 := buffer[..];
    AtKept(b3, b4, valueAt, at, k);
    AtKept(b3, b4, valueAt, at + 4, v);
    AtKept(b3, b4, valueAt, keyAt, e.key);
    SameLess(b0, b3, b4, at, valueAt);
  }

  // ------------------------------------------------------------ decoding

  /** The entries read from position at on: n, or fewer if the buffer ends too early. */
  function Records(b: Blob, at: nat, n: nat): (r: seq<CacheEntry>)
    ensures |r| <= n
    decreases n
  {
    if n == 0 || at + ENTRY_HEADER_SIZE > |b| then []
    else
      var keySize, valueSize := FromWord(b, at), FromWord(b, at + 4);
      var keyAt := at + ENTRY_HEADER_SIZE;
      var end := keyAt + keySize + valueSize;
      if end > |b| then []
      else
        [CacheEntry(b[keyAt..keyAt + keySize], b[keyAt + keySize..end])] + Records(b, at + Align4(end - at), n - 1)
  }

  /** The number of entries a buffer announces, if it has a header of this version. */
  function Announced(b: Blob): nat {
    if |b| < HEADER_SIZE || FromWord(b, 0) != MAGIC || FromWord(b, 4) != VERSION || FromWord(b, 8) != DEVICE_VERSION
    then 0
    else FromWord(b, 12)
  }

  /** The entries unflatten sets, also those of a buffer that turns out to end too early. */
  function ReadEntries(b: Blob): seq<CacheEntry> { Records(b, HEADER_SIZE, Announced(b)) }

  /** What unflatten makes of a buffer: an error, or entries to set. */
  function Decode(b: Blob): Option<seq<CacheEntry>> {
    if |b| < HEADER_SIZE || FromWord(b, 0) != MAGIC || |ReadEntries(b)| < Announced(b) then None
    else Some(ReadEntries(b))
  }

  lemma RecordsOne(b: Blob, at: nat, e: CacheEntry, n: nat)
    requires n > 0 && RecordAt(b, at, e)
    ensures Records(b, at, n) == [e] + Records(b, at + Align4(RecordSize(e)), n - 1)
  {
    hide Word, FromWord, Align4;
    FromWordOfWord(b, at, |e.key|);
    FromWordOfWord(b, at + 4, |e.value|);
  }

  lemma {:induction false} RecordsOfEncoded(b: Blob, es: seq<CacheEntry>, i: nat)
    requires i <= |es| && forall j :: i <= j < |es| ==> RecordAt(b, Offset(es, j), es[j])
    ensures Records(b, Offset(es, i), |es| - i) == es[i..]
    decreases |es| - i
  {
    hide RecordAt, Align4, RecordSize, Records, FromWord;
    if i < |es| {
      RecordsOfEncoded(b, es, i + 1);
      RecordsOne(b, Offset(es, i), es[i], |es| - i);
      assert Offset(es, i + 1) == Offset(es, i) + Align4(RecordSize(es[i]));
      assert es[i..] == [es[i]] + es[i + 1..];
    } else {
      NoRecords(b, Offset(es, i));
    }
  }

  lemma NoRecords(b: Blob, at: nat)
    ensures Records(b, at, 0) == []
  {
  }

  /** Decoding the flattened form gives back the entries. */
  lemma DecodeOfEncoded(b: Blob, es: seq<CacheEntry>)
    requires Encoded(b, es)
    ensures Decode(b) == Some(es)
  {
    hide Word, FromWord, RecordAt, Records;
    FromWordOfWord(b, 0, MAGIC);
    FromWordOfWord(b, 4, VERSION);
    FromWordOfWord(b, 8, DEVICE_VERSION);
    FromWordOfWord(b, 12, |es|);
    RecordsOfEncoded(b, es, 0);
    assert es[0..] == es;
  }

  // ------------------------------------------------------------ what decoding a buffer means

  lemma WordAt(b: Blob, at: nat, x: nat)
    requires at + 4 <= |b| && x < TWO_32
    ensures FromWord(b, at) < TWO_32 && (At(b, at, Word(x)) <==> FromWord(b, at) == x)
  {
    var w := Word(FromWord(b, at));
    assert b[at..at + 4] == w;
    if At(b, at, Word(x)) {
      FromWordOfWord(b, at, x);
    }
  }

  /** The record read at a position, if there is room, is the only one that is there. */
  lemma RecordRead(b: Blob, at: nat, n: nat, e: CacheEntry)
    requires n > 0
    ensures var r := Records(b, at, n);
      && (RecordAt(b, at, e) <==> r != [] && r[0] == e)
      && (r != [] ==> r[1..] == Records(b, at + Align4(RecordSize(r[0])), n - 1))
  {
    hide Word, FromWord, Align4, At;
    if at + ENTRY_HEADER_SIZE <= |b| {
      WordAt(b, at, 0);
      WordAt(b, at + 4, 0);
      var keySize, valueSize := FromWord(b, at), FromWord(b, at + 4);
      WordAt(b, at, keySize);
      WordAt(b, at + 4, valueSize);
      var keyAt := at + ENTRY_HEADER_SIZE;
      if keyAt + keySize + valueSize <= |b| {
        var x := CacheEntry(b[keyAt..keyAt + keySize], b[keyAt + keySize..keyAt + keySize + valueSize]);
        assert Records(b, at, n) == [x] + Records(b, at + Align4(RecordSize(x)), n - 1);
        SlicesAt(b, keyAt, keySize, valueSize);
      }
    }
    if RecordAt(b, at, e) {
      RecordHasRoom(b, at, e);
      RecordsOne(b, at, e, n);
    }
  }

  lemma SlicesAt(b: Blob, at: nat, k: nat, v: nat)
    requires at + k + v <= |b|
    ensures At(b, at, b[at..at + k]) && At(b, at + k, b[at + k..at + k + v])
  {
  }

  lemma RecordHasRoom(b: Blob, at: nat, e: CacheEntry)
    requires RecordAt(b, at, e)
    ensures at + RecordSize(e) <= |b|
  {
  }

  /** Reading goes from record to record and stops early only where there is none. */
  lemma {:induction false} RecordsAre(b: Blob, es: seq<CacheEntry>, i: nat, n: nat, e: CacheEntry)
    requires i <= |es| && Records(b, Offset(es, i), n) == es[i..]
    ensures forall j :: i <= j < |es| ==> RecordAt(b, Offset(es, j), es[j])
    ensures |es| - i < n ==> !RecordAt(b, Offset(es, |es|), e)
    decreases |es| - i
  {
    hide RecordAt, Align4, RecordSize, Records, FromWord;
    if i < |es| {
      NoRecords(b, Offset(es, i));
      RecordRead(b, Offset(es, i), n, es[i]);
      assert Offset(es, i + 1) == Offset(es, i) + Align4(RecordSize(es[i]));
      assert es[i..][1..] == es[i + 1..];
      RecordsAre(b, es, i + 1, n - 1, e);
    } else if n > 0 {
      RecordRead(b, Offset(es, i), n, e);
    }
  }

  /** The buffer has a header. */
  ghost predicate Known(b: Blob) { HEADER_SIZE <= |b| && At(b, 0, Word(MAGIC)) }

  ghost predicate SameVersion(b: Blob) { At(b, 4, Word(VERSION)) && At(b, 8, Word(DEVICE_VERSION)) }

  lemma AnnouncedIs(b: Blob)
    ensures Known(b) <==> |b| >= HEADER_SIZE && FromWord(b, 0) == MAGIC
    ensures Known(b) && SameVersion(b) ==> HeaderAt(b, Announced(b))
    ensures !(Known(b) && SameVersion(b)) ==> Announced(b) == 0 && ReadEntries(b) == []
  {
    hide Word, FromWord, At;
    NoRecords(b, HEADER_SIZE);
    if |b| >= HEADER_SIZE {
      WordAt(b, 0, MAGIC);
      WordAt(b, 4, VERSION);
      WordAt(b, 8, DEVICE_VERSION);
      WordAt(b, 12, 0);
      WordAt(b, 12, FromWord(b, 12));
    }
  }

  /** The entries unflatten reads are those of the records, one behind the other, up to the number announced or up to
      where no record is. */
  lemma ReadEntriesAre(b: Blob, e: CacheEntry)
    requires Known(b) && SameVersion(b)
    ensures var es := ReadEntries(b);
      && HeaderAt(b, Announced(b)) && |es| <= Announced(b)
      && (forall i :: 0 <= i < |es| ==> RecordAt(b, Offset(es, i), es[i]))
      && (|es| < Announced(b) ==> !RecordAt(b, Offset(es, |es|), e))
  {
    hide RecordAt, HeaderAt, Records, FromWord, Word, At;
    AnnouncedIs(b);
    var es := ReadEntries(b);
    assert es[0..] == es;
    RecordsAre(b, es, 0, Announced(b), e);
  }

  /** A buffer decodes to the entries of which it is the flattened form, or to none at all if it is of another
      version; any other buffer is an error. */
  lemma DecodeIs(b: Blob, es: seq<CacheEntry>)
    ensures Decode(b) == Some(es) <==> Encoded(b, es) || (Known(b) && !SameVersion(b) && es == [])
  {
    hide RecordAt, HeaderAt, Records, FromWord, Word, At, Announced, Offset, FlattenedSize, Known, SameVersion;
    AnnouncedIs(b);
    if Encoded(b, es) {
      DecodeOfEncoded(b, es);
    }
    if Decode(b) == Some(es) && Known(b) && SameVersion(b) {
      ReadEntriesAre(b, CacheEntry([], []));
      if es != [] {
        RecordHasRoom(b, Offset(es, |es| - 1), es[|es| - 1]);
      }
      EndsWithin(b, es);
    }
  }

  lemma EndsWithin(b: Blob, es: seq<CacheEntry>)
    requires HEADER_SIZE <= |b|
    requires es != [] ==> Offset(es, |es| - 1) + RecordSize(es[|es| - 1]) <= |b|
    ensures FlattenedSize(es) <= |b|
  {
  }
}
