/** Linear transforms over 64-bit clocks: 96-bit scaling, overflow detection, reduction, round trips. */
module LinearTransform {
  import opened Wrappers

  const TWO_31: int := 0x8000_0000
  const TWO_32: int := 0x1_0000_0000
  const TWO_63: int := 0x8000_0000_0000_0000
  const TWO_64: int := 0x1_0000_0000_0000_0000

  type U32 = x: int | 0 <= x < TWO_32
  type S32 = x: int | 0 - TWO_31 <= x < TWO_31
  type U64 = x: int | 0 <= x < TWO_64
  type S64 = x: int | 0 - TWO_63 <= x < TWO_63

  // ------------------------------------------------------------ two's complement

  function WrapU64(x: int): (r: U64)
    ensures 0 <= x < TWO_64 ==> r == x
    ensures 0 - TWO_64 <= x < 0 ==> r == x + TWO_64
    ensures TWO_64 <= x < TWO_64 + TWO_64 ==> r == x - TWO_64
  {
    x % TWO_64
  }

  function WrapS64(x: int): (r: S64)
    ensures 0 - TWO_63 <= x < TWO_63 ==> r == x
    ensures TWO_63 <= x < TWO_63 + TWO_64 ==> r == x - TWO_64
    ensures 0 - TWO_63 - TWO_64 <= x < 0 - TWO_63 ==> r == x + TWO_64
  {
    var u := WrapU64(x);
    if u < TWO_63 then u else u - TWO_64
  }

  function WrapU32(x: int): (r: U32)
    ensures 0 <= x < TWO_32 ==> r == x
    ensures 0 - TWO_32 <= x < 0 ==> r == x + TWO_32
  {
    x % TWO_32
  }

  function WrapS32(x: int): (r: S32)
    ensures 0 - TWO_31 <= x < TWO_31 ==> r == x
    ensures TWO_31 <= x < TWO_31 + TWO_32 ==> r == x - TWO_32
  {
    var u := WrapU32(x);
    if u < TWO_31 then u else u - TWO_32
  }

  predicate SignBit(x: U64) { x >= TWO_63 }

  /** ABS at type int32_t, converted to uint32_t: also exact at INT32_MIN, which wraps to itself. */
  function AbsU32(n: S32): (r: U32)
    ensures r == Abs(n)
  {
    WrapU32(if n < 0 then WrapS32(0 - n) else n)
  }

  /** ABS at type int64_t: INT64_MIN stays negative. */
  function AbsS64(x: S64): S64 { if x < 0 then WrapS64(0 - x) else x }

  function Abs(x: int): (r: nat) { if x < 0 then 0 - x else x }

  // ------------------------------------------------------------ specification

  function FloorDiv(a: int, d: int): int
    requires d > 0
  {
    a / d
  }

  function FloorMod(a: int, d: int): (r: int)
    requires d > 0
    ensures 0 <= r < d
  {
    a % d
  }

  function CeilDiv(a: int, d: int): int
    requires d > 0
  {
    0 - FloorDiv(0 - a, d)
  }

  /** FloorDiv is the largest q with q * d <= a. */
  lemma DivBounds(a: int, d: int)
    requires d > 0
    ensures FloorDiv(a, d) * d + FloorMod(a, d) == a
  {
  }

  lemma FloorIs(a: int, d: int, q: int)
    requires d > 0 && q * d <= a < q * d + d
    ensures FloorDiv(a, d) == q
  {
    hide FloorDiv, FloorMod;
    DivBounds(a, d);
    MulOrder(q, FloorDiv(a, d), d);
    MulOrder(FloorDiv(a, d), q, d);
  }

  lemma MulOrder(p: int, q: int, d: int)
    requires d > 0 && p * d < q * d + d
    ensures p <= q
  {
    if p > q {
      MulMono(q + 1, p, d);
      assert false;
    }
  }

  /** Scaling of a difference by n / d, or by d / n, rounded down. */
  function Scaled(delta: int, n: S32, d: U32, invert: bool): int
    requires if invert then n != 0 else d != 0
  {
    if !invert then FloorDiv(delta * n, d)
    else if n > 0 then FloorDiv(delta * d, n)
    else FloorDiv(0 - delta * d, 0 - n)
  }

  /** A transform succeeds when the exact result fits, unless the scaled difference needs the top bit
      and the result or the offset is INT64_MIN. */
  predicate Representable(scaled: int, basis: S64) {
    && 0 - TWO_63 <= basis + scaled < TWO_63
    && (0 - TWO_63 < scaled < TWO_63 || (basis + scaled != 0 - TWO_63 && basis != 0 - TWO_63))
  }

  /** r is x / y, rounded down. */
  predicate RoundedDown(r: int, x: int, y: int) {
    if y > 0 then r * y <= x < (r + 1) * y else r * y >= x > (r + 1) * y
  }

  // ------------------------------------------------------------ 96-bit scaling

  /** The 64-bit product of two 32-bit numbers. */
  function MulU32(a: U32, b: U32): (r: U64)
    ensures r <= (TWO_32 - 1) * (TWO_32 - 1)
  {
    MulBound(a, b);
    a * b
  }

  lemma SplitProduct(val: U64, n: U32)
    ensures var tmp1 := MulU32(val % TWO_32, n);
      var tmp2 := MulU32(val / TWO_32, n) + tmp1 / TWO_32;
      tmp2 * TWO_32 + tmp1 % TWO_32 == val * n
  {
    var hi, lo := val / TWO_32, val % TWO_32;
    assert val * n == hi * n * TWO_32 + lo * n;
  }

  lemma MulBound(a: int, b: int)
    requires 0 <= a < TWO_32 && 0 <= b < TWO_32
    ensures 0 <= a * b <= (TWO_32 - 1) * (TWO_32 - 1)
  {
    MulMono(a, TWO_32 - 1, b);
    MulMono(b, TWO_32 - 1, TWO_32 - 1);
  }

  lemma MulMono(a: int, b: int, c: int)
    requires a <= b && 0 <= c
    ensures a * c <= b * c
    ensures 0 <= a ==> 0 <= a * c
  {
  }

  /** Long division of hi * 2^32 + lo by d, one 32-bit digit at a time. */
  lemma LongDivision(hi: int, lo: int, d: int)
    requires d > 0 && 0 <= hi && 0 <= lo < TWO_32
    ensures var rest := FloorMod(hi, d) * TWO_32 + lo;
      && FloorDiv(hi * TWO_32 + lo, d) == FloorDiv(hi, d) * TWO_32 + FloorDiv(rest, d)
      && FloorMod(hi * TWO_32 + lo, d) == FloorMod(rest, d)
      && 0 <= FloorDiv(rest, d) < TWO_32
  {
    hide FloorDiv, FloorMod;
    var q2, r := FloorDiv(hi, d), FloorMod(hi, d);
    var rest := r * TWO_32 + lo;
    var q1 := FloorDiv(rest, d);
    DivBounds(hi, d);
    DivBounds(rest, d);
    DivBounds(hi * TWO_32 + lo, d);
    assert (q2 * TWO_32 + q1) * d == q2 * d * TWO_32 + q1 * d;
    FloorIs(hi * TWO_32 + lo, d, q2 * TWO_32 + q1);
    MulMono(r + 1, d, TWO_32);
    MulOrder(q1 + 1, TWO_32, d);
    MulOrder(0, q1, d);
  }

  /** The upper digits have a quotient of more than 32 bits exactly when their own top digit reaches d. */
  lemma TopDigit(hi: int, d: int)
    requires d > 0 && 0 <= hi
    ensures hi / TWO_32 >= d <==> FloorDiv(hi, d) >= TWO_32
    ensures FloorDiv(hi, d) >= 0
  {
    hide FloorDiv, FloorMod;
    DivBounds(hi, d);
    var q := FloorDiv(hi, d);
    MulOrder(0, q, d);
    if hi / TWO_32 >= d {
      MulOrder(TWO_32, q, d);
    }
    if q >= TWO_32 {
      MulMono(TWO_32, q, d);
    }
  }

  lemma CeilIs(a: int, d: int)
    requires d > 0
    ensures CeilDiv(a, d) == FloorDiv(a, d) + if FloorMod(a, d) != 0 then 1 else 0
  {
    hide FloorDiv, FloorMod;
    DivBounds(a, d);
    var q := FloorDiv(a, d);
    var q' := q + if FloorMod(a, d) != 0 then 1 else 0;
    assert q' * d == q * d + (if FloorMod(a, d) != 0 then d else 0);
    assert (0 - q') * d == 0 - q' * d;
    FloorIs(0 - a, d, 0 - q');
  }

  lemma ScaleSteps(val: U64, n: U32, d: U32)
    requires d != 0
    ensures var tmp1 := MulU32(val % TWO_32, n);
      var tmp2 := MulU32(val / TWO_32, n) + tmp1 / TWO_32;
      var rest := tmp1 % TWO_32 + FloorMod(tmp2, d) * TWO_32;
      && (tmp2 / TWO_32 >= d <==> FloorDiv(val * n, d) >= TWO_64)
      && FloorDiv(val * n, d) == FloorDiv(tmp2, d) * TWO_32 + FloorDiv(rest, d)
      && FloorMod(val * n, d) == FloorMod(rest, d)
      && 0 <= FloorDiv(rest, d) < TWO_32 && 0 <= FloorDiv(tmp2, d)
  {
    hide FloorDiv, FloorMod, MulU32;
    SplitProduct(val, n);
    var tmp1 := MulU32(val % TWO_32, n);
    var tmp2 := MulU32(val / TWO_32, n) + tmp1 / TWO_32;
    LongDivision(tmp2, tmp1 % TWO_32, d);
    TopDigit(tmp2, d);
  }

  method ScaleU64(val: U64, n: U32, d: U32, roundUp: bool) returns (ok: bool, res: U64)
    requires d != 0
    ensures var exact := if roundUp then CeilDiv(val * n, d) else FloorDiv(val * n, d);
      && (ok <==> exact < TWO_64)
      && res == if ok then exact else TWO_64 - 1
  {
    hide FloorDiv, FloorMod, CeilDiv, MulU32;
    ScaleSteps(val, n, d);
    CeilIs(val * n, d);
    var tmp2: U64 := MulU32(val / TWO_32, n);
    var tmp1: U64 := MulU32(val % TWO_32, n);
    tmp2 := tmp2 + tmp1 / TWO_32;
    if tmp2 / TWO_32 >= d {
      return false, TWO_64 - 1;
    }
    var r: U32 := FloorMod(tmp2, d);
    tmp2 := FloorDiv(tmp2, d);
    tmp1 := tmp1 % TWO_32 + r * TWO_32;
    r := FloorMod(tmp1, d);
    tmp1 := FloorDiv(tmp1, d);
    res := tmp2 * TWO_32 + tmp1;
    if r != 0 && roundUp {
      res := WrapU64(res + 1);
      if res == 0 {
        return false, TWO_64 - 1;
      }
    }
    ok := true;
  }

  // ------------------------------------------------------------ transforming one value

  /** The result of the transform, if it succeeds. */
  function Transformed(val: S64, basis1: S64, n: S32, d: U32, invert: bool, basis2: S64): Option<S64>
    requires if invert then n != 0 else d != 0
  {
    var scaled := Scaled(val - basis1, n, d, invert);
    if Representable(scaled, basis2) then Some(basis2 + scaled) else None
  }

  /** The transform adds the scaled difference, rounded down whatever the signs, to the new offset.  It fails if
      the sum does not fit, or if the scaled difference does not fit and the sum or the offset is INT64_MIN. */
  lemma TransformIs(val: S64, basis1: S64, n: S32, d: U32, invert: bool, basis2: S64, r: int)
    requires if invert then n != 0 else d != 0
    requires RoundedDown(r, (val - basis1) * (if invert then d else n), if invert then n else d)
    ensures Transformed(val, basis1, n, d, invert, basis2).Some? <==>
      (&& 0 - TWO_63 <= basis2 + r < TWO_63
       && (r <= 0 - TWO_63 || TWO_63 <= r ==> basis2 + r != 0 - TWO_63 && basis2 != 0 - TWO_63))
    ensures Transformed(val, basis1, n, d, invert, basis2).Some? ==>
      Transformed(val, basis1, n, d, invert, basis2).value == basis2 + r
  {
    hide FloorDiv;
    var delta := val - basis1;
    var m: int := n;
    if !invert {
      assert (r + 1) * d == r * d + d;
      FloorIs(delta * n, d, r);
    } else if n > 0 {
      assert (r + 1) * m == r * m + m;
      FloorIs(delta * d, n, r);
    } else {
      assert r * (0 - m) == 0 - r * m && (r + 1) * m == r * m + m;
      FloorIs(0 - delta * d, 0 - n, r);
    }
  }

  /** Rounding the magnitude up when the result is negative rounds the result down. */
  lemma MagnitudeRoundsDown(delta: int, n: S32, d: U32, invert: bool)
    requires if invert then n != 0 else d != 0
    ensures var a := Abs(delta) * if invert then d else Abs(n);
      var b := if invert then Abs(n) else d;
      Scaled(delta, n, d, invert) ==
        if (delta < 0) != (n < 0) then 0 - CeilDiv(a, b) else FloorDiv(a, b)
  {
    hide FloorDiv;
    MulSigns(delta, if invert then d else n);
  }

  lemma MulSigns(x: int, y: int)
    ensures (x < 0) != (y < 0) ==> x * y == 0 - Abs(x) * Abs(y)
    ensures (x < 0) == (y < 0) ==> x * y == Abs(x) * Abs(y)
  {
  }

  /** Adds the offset to a scaled magnitude, detecting over- and underflow from the sign bits. */
  method AddOffset(scaled: U64, isNeg: bool, basis2: S64) returns (ok: bool, out: S64)
    ensures var s := if isNeg then 0 - scaled else scaled;
      && (ok <==> Representable(s, basis2))
      && (ok ==> out == basis2 + s)
  {
    hide WrapU64, WrapS64;
    out := 0;
    if SignBit(scaled) {
      if isNeg && basis2 < 0 {
        return false, 0;
      }
      if !isNeg && basis2 >= 0 {
        return false, 0;
      }
      if AbsS64(basis2) <= scaled - TWO_63 {
        return false, 0;
      }
      out := WrapS64((if isNeg then WrapU64(0 - scaled) else scaled) + basis2);
    } else {
      var signed: U64 := if isNeg then WrapU64(0 - scaled) else scaled;
      var res := WrapU64(signed + WrapU64(basis2));
      if SignBit(signed) == SignBit(WrapU64(basis2)) && SignBit(signed) != SignBit(res) {
        return false, 0;
      }
      out := WrapS64(res);
    }
    ok := true;
  }

  method LinearTransformS64(val: S64, basis1: S64, n: S32, d: U32, invert: bool, basis2: S64)
    returns (ok: bool, out: S64)
    requires if invert then n != 0 else d != 0
    ensures (if ok then Some(out) else None) == Transformed(val, basis1, n, d, invert, basis2)
  {
    hide FloorDiv, CeilDiv, WrapU64, WrapS64, AbsU32, Scaled;
    MagnitudeRoundsDown(val - basis1, n, d, invert);
    var isNeg, absVal := false, 0;
    if val < basis1 {
      isNeg := true;
      absVal := WrapU64(WrapS64(basis1 - val));
    } else {
      absVal := WrapU64(WrapS64(val - basis1));
    }
    if n < 0 {
      isNeg := !isNeg;
    }
    var scaled;
    ok, scaled := ScaleU64(absVal, if invert then d else AbsU32(n), if invert then AbsU32(n) else d, isNeg);
    out := 0;
    if ok {
      ok, out := AddOffset(scaled, isNeg, basis2);
    }
  }

  datatype Transform = Transform(aZero: S64, bZero: S64, numer: S32, denom: U32)

  function Forward(t: Transform, a: S64): Option<S64> {
    if t.denom == 0 then None else Transformed(a, t.aZero, t.numer, t.denom, false, t.bZero)
  }

  function Reverse(t: Transform, b: S64): Option<S64> {
    if t.numer == 0 then None else Transformed(b, t.bZero, t.numer, t.denom, true, t.aZero)
  }

  method DoForwardTransform(t: Transform, a: S64) returns (ok: bool, b: S64)
    ensures (if ok then Some(b) else None) == Forward(t, a)
  {
    if t.denom == 0 {
      return false, 0;
    }
    ok, b := LinearTransformS64(a, t.aZero, t.numer, t.denom, false, t.bZero);
  }

  method DoReverseTransform(t: Transform, b: S64) returns (ok: bool, a: S64)
    ensures (if ok then Some(a) else None) == Reverse(t, b)
  {
    if t.numer == 0 {
      return false, 0;
    }
    ok, a := LinearTransformS64(b, t.bZero, t.numer, t.denom, true, t.aZero);
  }

  /** The transform can refuse a result that fits in 64 bits. */
  lemma RefusesRepresentable()
    ensures var t := Transform(-1, 0 - TWO_63, 1, 1);
      && Forward(t, TWO_63 - 1) == None
      && t.bZero + Scaled(TWO_63 - 1 - t.aZero, t.numer, t.denom, false) == 0
  {
    FloorIs(TWO_63, 1, TWO_63);
  }

  // ------------------------------------------------------------ forward, then reverse

  lemma RoundTripPositive(u: int, n: int, d: int)
    requires n > 0 && d > 0
    ensures var v := FloorDiv(FloorDiv(u * n, d) * d, n); 0 <= u - v && (u - v) * n < d + n
  {
    hide FloorDiv, FloorMod;
    var q := FloorDiv(u * n, d);
    DivBounds(u * n, d);
    var v := FloorDiv(q * d, n);
    DivBounds(q * d, n);
    assert (u - v) * n == FloorMod(u * n, d) + FloorMod(q * d, n);
    MulOrder(v, u, n);
  }

  lemma RoundTripNegative(u: int, m: int, d: int)
    requires m > 0 && d > 0
    ensures var v := FloorDiv(0 - FloorDiv(0 - u * m, d) * d, m); 0 <= v - u && (v - u) * m < d
  {
    hide FloorDiv, FloorMod;
    var q := FloorDiv(0 - u * m, d);
    DivBounds(0 - u * m, d);
    var v := FloorDiv(0 - q * d, m);
    DivBounds(0 - q * d, m);
    assert (v - u) * m == FloorMod(0 - u * m, d) - FloorMod(0 - q * d, m);
    assert u * m < v * m + m;
    MulOrder(u, v, m);
  }

  /** Mapping forward and back misses the input by less than one output unit, always to the same side. */
  lemma ForwardThenReverse(t: Transform, x: S64)
    requires Forward(t, x).Some? && Reverse(t, Forward(t, x).value).Some?
    ensures var z, n, d := Reverse(t, Forward(t, x).value).value, t.numer, t.denom;
      && (n > 0 ==> 0 <= x - z && (x - z) * n < d + n)
      && (n < 0 ==> 0 <= z - x && (z - x) * Abs(n) < d)
  {
    hide FloorDiv;
    var n: int, d, u := t.numer, t.denom, x - t.aZero;
    if n > 0 {
      RoundTripPositive(u, n, d);
    } else {
      assert u * n == 0 - u * (0 - n);
      RoundTripNegative(u, 0 - n, d);
    }
  }

  /** For a positive fraction the round trip is exact just when the forward division is. */
  lemma ExactRoundTrip(t: Transform, x: S64)
    requires t.numer > 0 && Forward(t, x).Some? && Reverse(t, Forward(t, x).value).Some?
    ensures Reverse(t, Forward(t, x).value).value == x <==> FloorMod((x - t.aZero) * t.numer, t.denom) == 0
  {
    hide FloorDiv, FloorMod;
    var n, d, u := t.numer, t.denom, x - t.aZero;
    var q := FloorDiv(u * n, d);
    DivBounds(u * n, d);
    var v := FloorDiv(q * d, n);
    DivBounds(q * d, n);
    if FloorMod(u * n, d) == 0 {
      FloorIs(q * d, n, u);
    }
  }

  // ------------------------------------------------------------ reduction

  ghost function Gcd(a: nat, b: nat): nat
    decreases b
  {
    if b == 0 then a else Gcd(b, FloorMod(a, b))
  }

  predicate Divides(k: nat, x: int) { k > 0 && FloorMod(x, k) == 0 }

  lemma Multiple(q: int, k: nat)
    requires k > 0
    ensures Divides(k, q * k) && FloorDiv(q * k, k) == q
  {
    hide FloorDiv, FloorMod;
    DivBounds(q * k, k);
    FloorIs(q * k, k, q);
  }

  lemma DividesCombination(k: nat, x: int, y: int, q: int)
    requires Divides(k, x) && Divides(k, y)
    ensures Divides(k, q * x + y)
  {
    hide FloorDiv, FloorMod;
    DivBounds(x, k);
    DivBounds(y, k);
    var x', y' := FloorDiv(x, k), FloorDiv(y, k);
    assert q * (x' * k) + y' * k == (q * x' + y') * k;
    Multiple(q * x' + y', k);
  }

  /** Gcd is a common divisor that every common divisor divides. */
  lemma {:induction false} GcdIsGreatest(a: nat, b: nat, k: nat)
    requires a > 0 || b > 0
    ensures Divides(Gcd(a, b), a) && Divides(Gcd(a, b), b)
    ensures Divides(k, a) && Divides(k, b) ==> Divides(k, Gcd(a, b))
    decreases b
  {
    hide FloorDiv, FloorMod, Divides;
    if b > 0 {
      var q, r := FloorDiv(a, b), FloorMod(a, b);
      DivBounds(a, b);
      if Divides(k, a) && Divides(k, b) {
        DividesCombination(k, b, a, 0 - q);
        assert (0 - q) * b + a == r;
      }
      GcdIsGreatest(b, r, k);
      DividesCombination(Gcd(b, r), b, r, q);
    } else {
      GcdOfZero(a);
    }
  }

  lemma GcdOfZero(a: nat)
    requires a > 0
    ensures Gcd(a, 0) == a && Divides(a, a) && Divides(a, 0)
  {
    Multiple(1, a);
    Multiple(0, a);
  }

  /** Euclid's method, as run by reduce. */
  method ReduceUnsigned(n: nat, d: nat) returns (n': nat, d': nat)
    requires d > 0
    ensures Gcd(n, d) > 0 && n == n' * Gcd(n, d) && d == d' * Gcd(n, d)
  {
    hide FloorDiv, FloorMod;
    GcdIsGreatest(n, d, 1);
    ghost var g := Gcd(n, d);
    assert g > 0 && FloorMod(n, g) == 0 && FloorMod(d, g) == 0;
    DivBounds(n, g);
    DivBounds(d, g);
    if n == 0 {
      GcdOfZero(d);
      DivBounds(0, d);
      FloorIs(0, d, 0);
      return 0, 1;
    }
    var a, b := n, d;
    if a < b {
      a, b := b, a;
      DivBounds(n, d);
      FloorIs(n, d, 0);
    }
    while true
      invariant a >= b > 0 && Gcd(a, b) == g
      decreases b
    {
      var remainder := FloorMod(a, b);
      if remainder == 0 {
        assert b == g;
        MulOrder(0, FloorDiv(n, g), g);
        MulOrder(0, FloorDiv(d, g), g);
        return FloorDiv(n, b), FloorDiv(d, b);
      }
      a, b := b, remainder;
    }
  }

  /** The reduced pair has no common divisor but 1. */
  lemma ReducedIsCoprime(n: nat, d: nat, n': nat, d': nat, k: nat)
    requires d > 0 && n == n' * Gcd(n, d) && d == d' * Gcd(n, d)
    requires Divides(k, n') && Divides(k, d')
    ensures k == 1
  {
    hide FloorDiv, FloorMod, Gcd;
    var g := Gcd(n, d);
    GcdIsGreatest(n, d, 1);
    DivBounds(n', k);
    DivBounds(d', k);
    var x, y, h := FloorDiv(n', k), FloorDiv(d', k), k * g;
    assert n == x * h by { assert (x * k) * g == x * (k * g); }
    assert d == y * h by { assert (y * k) * g == y * (k * g); }
    Multiple(x, h);
    Multiple(y, h);
    GcdIsGreatest(n, d, h);
    DivBounds(g, h);
    MulOrder(1, FloorDiv(g, h), h);
    MulMono(1, FloorDiv(g, h), h);
    if k >= 2 {
      MulMono(2, k, g);
      assert false;
    }
  }

  /** The signed version goes through the absolute value; INT32_MIN is its own negation. */
  method ReduceSigned(n: S32, d: U32) returns (n': S32, d': U32)
    ensures d == 0 ==> n' == n && d' == d
    ensures d != 0 ==> var g := Gcd(Abs(n), d); g > 0 && n == n' * g && d == d' * g
  {
    hide WrapS32, WrapU32, Gcd;
    n', d' := n, d;
    if d != 0 {
      var m: nat, e: nat;
      if n < 0 {
        m, e := ReduceUnsigned(WrapU32(WrapS32(0 - n)), d);
        Shrinks(m, Gcd(Abs(n), d));
        n' := WrapS32(0 - WrapS32(m));
        assert n' == 0 - m;
        assert n' * Gcd(Abs(n), d) == 0 - m * Gcd(Abs(n), d);
      } else {
        m, e := ReduceUnsigned(WrapU32(n), d);
        Shrinks(m, Gcd(Abs(n), d));
        n' := WrapS32(m);
      }
      Shrinks(e, Gcd(Abs(n), d));
      d' := e;
    }
  }

  lemma Shrinks(m: nat, g: nat)
    requires g > 0
    ensures m <= m * g
  {
  }

  lemma FloorCancel(a: int, d: int, g: int)
    requires d > 0 && g > 0
    ensures d * g > 0 && FloorDiv(a * g, d * g) == FloorDiv(a, d)
  {
    hide FloorDiv, FloorMod;
    DivBounds(a, d);
    var q, r := FloorDiv(a, d), FloorMod(a, d);
    assert a * g == q * (d * g) + r * g;
    MulMono(r, d - 1, g);
    assert (d - 1) * g == d * g - g;
    FloorIs(a * g, d * g, q);
  }

  /** Reducing the fraction changes no result and no failure. */
  lemma ReduceKeepsTransform(t: Transform, n': S32, d': U32, g: nat, x: S64)
    requires g > 0 && t.numer == n' * g && t.denom == d' * g
    ensures var t' := t.(numer := n', denom := d'); Forward(t', x) == Forward(t, x) && Reverse(t', x) == Reverse(t, x)
  {
    hide FloorDiv, FloorMod, Representable;
    var n, d := t.numer, t.denom;
    assert d == 0 <==> d' == 0;
    assert n > 0 <==> n' > 0;
    assert n < 0 <==> n' < 0;
    if d' != 0 {
      var u := x - t.aZero;
      assert u * n == (u * n') * g;
      FloorCancel(u * n', d', g);
    }
    var u := x - t.bZero;
    assert u * d == (u * d') * g;
    if n' > 0 {
      FloorCancel(u * d', n', g);
    } else if n' < 0 {
      assert 0 - u * d == (0 - u * d') * g;
      assert 0 - n == (0 - n') * g;
      FloorCancel(0 - u * d', 0 - n', g);
    }
  }
}
