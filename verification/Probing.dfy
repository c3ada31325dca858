/** Double hashing over a prime number of buckets: the probe sequence visits every bucket once. */
module Probing {

  predicate Prime(p: nat) { p >= 2 && forall d :: 2 <= d < p ==> p % d != 0 }

  /** What a key hashes to and how a hash selects the start and the stride of its probe chain. */
  datatype Hashing<!K> = Hashing(hashOf: K -> nat, start: (nat, nat) -> nat, step: (nat, nat) -> nat)

  ghost predicate ValidHashing<K>(hs: Hashing<K>) {
    forall h, n {:trigger hs.start(h, n)} {:trigger hs.step(h, n)} ::
      n >= 2 ==> hs.start(h, n) < n && 1 <= hs.step(h, n) < n
  }

  function Seek(index: nat, step: nat, n: nat): (next: nat)
    requires n > 0
    ensures next < n
  {
    (index + step) % n
  }

  /** The bucket at place k of the chain of hash h. */
  function Place<K>(hs: Hashing<K>, h: nat, n: nat, k: nat): (i: nat)
    requires n >= 2
    ensures i < n
  {
    (hs.start(h, n) + k * hs.step(h, n)) % n
  }

  // ------------------------------------------------------------ arithmetic

  lemma ModOfSum(a: int, b: int, n: nat)
    requires n > 0
    ensures (a + b) % n == (a % n + b) % n
  {
    var q := a / n;
    assert a + b == (a % n + b) + q * n;
    ModMultiple(a % n + b, q, n);
  }

  lemma {:induction false} ModMultiple(a: int, q: int, n: nat)
    requires n > 0
    ensures (a + q * n) % n == a % n
    decreases if q < 0 then -q else q
  {
    if q > 0 {
      ModMultiple(a, q - 1, n);
      assert a + q * n == (a + (q - 1) * n) + n;
      ModPlus(a + (q - 1) * n, n);
    } else if q < 0 {
      ModMultiple(a, q + 1, n);
      assert a + (q + 1) * n == (a + q * n) + n;
      ModPlus(a + q * n, n);
    }
  }

  lemma ModPlus(a: int, n: nat)
    requires n > 0
    ensures (a + n) % n == a % n
  {
    var q, q' := a / n, (a + n) / n;
    assert a == q * n + a % n;
    assert a + n == q' * n + (a + n) % n;
    assert (q' - q - 1) * n == q' * n - q * n - n;
    var d: int := a % n;
    var d': int := (a + n) % n;
    SmallMultiple(q' - q - 1, n, d - d');
  }

  lemma SmallMultiple(q: int, n: int, d: int)
    requires q * n == d && 0 - n < d < n
    ensures d == 0
  {
    assert q >= 1 ==> q * n >= n;
    assert q <= -1 ==> q * n <= 0 - n;
  }

  lemma SameModDivides(a: int, b: int, n: nat)
    requires n > 0 && a % n == b % n
    ensures (b - a) % n == 0
  {
    var q := b / n - a / n;
    assert b - a == 0 + q * n by {
      assert a == (a / n) * n + a % n;
      assert b == (b / n) * n + b % n;
    }
    ModMultiple(0, q, n);
  }

  /** Euclid's lemma: a prime that divides a * b, with 0 < a < p, divides b. */
  lemma {:induction false} PrimeDividesProduct(p: nat, a: nat, b: nat)
    requires Prime(p) && 0 < a < p && (a * b) % p == 0
    ensures b % p == 0
    decreases a
  {
    if a > 1 {
      var q, r := p / a, p % a;
      var m := (a * b) / p;
      assert a * b == m * p;
      assert r * b == (b - q * m) * p by {
        assert p == q * a + r;
        assert r * b == p * b - q * a * b;
        assert q * a * b == q * (a * b) == q * (m * p) == q * m * p;
        assert (b - q * m) * p == b * p - q * m * p;
      }
      ModMultiple(0, b - q * m, p);
      PrimeDividesProduct(p, r, b);
    }
  }

  // ------------------------------------------------------------ the probe chain

  lemma NextPlace<K>(hs: Hashing<K>, h: nat, n: nat, k: nat)
    requires n >= 2 && ValidHashing(hs)
    ensures Place(hs, h, n, 0) == hs.start(h, n)
    ensures Place(hs, h, n, k + 1) == Seek(Place(hs, h, n, k), hs.step(h, n), n)
  {
    var s, d := hs.start(h, n), hs.step(h, n);
    assert s + (k + 1) * d == (s + k * d) + d;
    ModOfSum(s + k * d, d, n);
    assert s < n;
    SmallMod(s, n);
  }

  lemma SmallMod(a: nat, n: nat)
    requires a < n
    ensures a % n == a
  {
  }

  lemma PlacesDiffer<K>(hs: Hashing<K>, h: nat, n: nat, j: nat, k: nat)
    requires Prime(n) && ValidHashing(hs) && j < k < n
    ensures Place(hs, h, n, j) != Place(hs, h, n, k)
  {
    var s, d := hs.start(h, n), hs.step(h, n);
    if Place(hs, h, n, j) == Place(hs, h, n, k) {
      SameModDivides(s + j * d, s + k * d, n);
      assert (s + k * d) - (s + j * d) == (k - j) * d;
      PrimeDividesProduct(n, k - j, d);
      SmallMod(d, n);
      assert false;
    }
  }

  /** The buckets at the first k places. */
  ghost function Visited<K>(hs: Hashing<K>, h: nat, n: nat, k: nat): set<nat>
    requires n >= 2
  {
    if k == 0 then {} else Visited(hs, h, n, k - 1) + {Place(hs, h, n, k - 1)}
  }

  lemma {:induction false} VisitedIs<K>(hs: Hashing<K>, h: nat, n: nat, k: nat)
    requires Prime(n) && ValidHashing(hs) && k <= n
    ensures |Visited(hs, h, n, k)| == k
    ensures forall i :: i in Visited(hs, h, n, k) ==> i < n && exists j :: 0 <= j < k && Place(hs, h, n, j) == i
  {
    if k > 0 {
      VisitedIs(hs, h, n, k - 1);
      forall j | 0 <= j < k - 1
        ensures Place(hs, h, n, j) != Place(hs, h, n, k - 1)
      {
        PlacesDiffer(hs, h, n, j, k - 1);
      }
      forall i | i in Visited(hs, h, n, k)
        ensures i < n && exists j :: 0 <= j < k && Place(hs, h, n, j) == i
      {
        if i == Place(hs, h, n, k - 1) {
          assert Place(hs, h, n, k - 1) == i;
        }
      }
    }
  }

  /** A stride that is not 0 modulo a prime visits every bucket. */
  lemma EveryBucketIsVisited<K>(hs: Hashing<K>, h: nat, n: nat, i: nat)
    requires Prime(n) && ValidHashing(hs) && i < n
    ensures exists k :: 0 <= k < n && Place(hs, h, n, k) == i
  {
    hide Place, Visited, Below, ValidHashing;
    VisitedIs(hs, h, n, n);
    BelowIs(n);
    SubsetOfSameSize(Visited(hs, h, n, n), Below(n));
    assert i in Below(n);
  }

  ghost function Below(n: nat): set<nat> {
    if n == 0 then {} else Below(n - 1) + {n - 1}
  }

  lemma {:induction false} BelowIs(n: nat)
    ensures |Below(n)| == n && forall i: nat :: i in Below(n) <==> i < n
  {
    if n > 0 {
      BelowIs(n - 1);
    }
  }

  lemma SubsetOfSameSize<T>(a: set<T>, b: set<T>)
    requires a <= b && |a| == |b|
    ensures a == b
  {
    assert b == a + (b - a);
    assert |b - a| == 0;
  }

  /** The place of bucket i in the chain of hash h. */
  ghost function Rank<K>(hs: Hashing<K>, h: nat, n: nat, i: nat): (k: nat)
    requires Prime(n) && ValidHashing(hs) && i < n
    ensures k < n && Place(hs, h, n, k) == i
  {
    EveryBucketIsVisited(hs, h, n, i);
    var k :| 0 <= k < n && Place(hs, h, n, k) == i;
    k
  }

  lemma RankOfPlace<K>(hs: Hashing<K>, h: nat, n: nat, k: nat)
    requires Prime(n) && ValidHashing(hs) && k < n
    ensures Rank(hs, h, n, Place(hs, h, n, k)) == k
  {
    var r := Rank(hs, h, n, Place(hs, h, n, k));
    if r < k {
      PlacesDiffer(hs, h, n, r, k);
    } else if k < r {
      PlacesDiffer(hs, h, n, k, r);
    }
  }
}
