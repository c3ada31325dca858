/** Single code points: their encodings, and the two UTF-8 decoders, bit by bit. */
module CodePoints {

  /** A Unicode scalar value: within range and no surrogate. */
  predicate Scalar(c: bv32) { c <= 0x10FFFF && !(0xD800 <= c <= 0xDFFF) }

  predicate High(u: bv16) { u & 0xFC00 == 0xD800 }

  predicate Low(u: bv16) { u & 0xFC00 == 0xDC00 }

  function Byte(c: bv32): bv8 { (c & 0xFF) as bv8 }

  function Wide(b: bv8): bv32 { b as bv32 }

  function Wide16(u: bv16): bv32 { u as bv32 }

  // ------------------------------------------------------------ encoding

  /** utf32_codepoint_utf8_length */
  function Utf8Length(c: bv32): (n: nat)
    ensures n <= 4
  {
    if c < 0x80 then 1
    else if c < 0x800 then 2
    else if c < 0x10000 then if c < 0xD800 || c > 0xDFFF then 3 else 0
    else if c <= 0x10FFFF then 4
    else 0
  }

  function Trail(c: bv32): bv8 { Byte((c | 0x80) & 0xBF) }

  /** kFirstByteMark */
  function FirstByteMark(bytes: nat): bv32
    requires bytes <= 4
  {
    if bytes == 2 then 0xC0 else if bytes == 3 then 0xE0 else if bytes == 4 then 0xF0 else 0
  }

  /** The bytes of a code point; none for one that is not a scalar value. */
  function Encode8(c: bv32): (s: seq<bv8>)
    ensures |s| == Utf8Length(c)
  {
    var n := Utf8Length(c);
    if n == 0 then []
    else if n == 1 then [Byte(c)]
    else if n == 2 then Form2(c)
    else if n == 3 then Form3(c)
    else Form4(c)
  }

  function Form2(c: bv32): seq<bv8> { [Lead2(c), Trail(c)] }

  function Form3(c: bv32): seq<bv8> { [Lead3(c), Trail6(c), Trail(c)] }

  function Form4(c: bv32): seq<bv8> { [Lead4(c), Trail12(c), Trail6(c), Trail(c)] }

  function Lead2(c: bv32): bv8 { Byte((c >> 6) | 0xC0) }

  function Lead3(c: bv32): bv8 { Byte((c >> 12) | 0xE0) }

  function Lead4(c: bv32): bv8 { Byte((c >> 18) | 0xF0) }

  function Trail6(c: bv32): bv8 { Trail(c >> 6) }

  function Trail12(c: bv32): bv8 { Trail(c >> 12) }

  /** The UTF-16 units of a code point: a surrogate pair beyond the basic plane. */
  function Encode16(c: bv32): (s: seq<bv16>)
    ensures |s| == if c <= 0xFFFF then 1 else 2
  {
    if c <= 0xFFFF then [(c & 0xFFFF) as bv16]
    else
      [HighUnit(TopTen(Below(c))), LowUnit(BottomTen(Below(c)))]
  }

  /** The code point of a surrogate pair. */
  function FromPair(h: bv16, l: bv16): bv32 { Above(Combine(HighOffset(h), LowOffset(l))) }

  function HighOffset(h: bv16): bv32 { Wide16(h) - 0xD800 }

  function LowOffset(l: bv16): bv32 { Wide16(l) - 0xDC00 }

  function Combine(x: bv32, y: bv32): bv32 { (x << 10) | y }

  function Above(d: bv32): bv32 { d + 0x10000 }

  function Below(c: bv32): bv32 { c - 0x10000 }

  function TopTen(d: bv32): bv32 { d >> 10 }

  function BottomTen(d: bv32): bv32 { d & 0x3FF }

  function HighUnit(x: bv32): bv16 { ((x + 0xD800) & 0xFFFF) as bv16 }

  function LowUnit(y: bv32): bv16 { ((y + 0xDC00) & 0xFFFF) as bv16 }

  // ------------------------------------------------------------ decoding by length

  /** utf8_codepoint_len */
  function CodepointLength(b: bv8): (n: nat)
    ensures 1 <= n <= 4
    ensures n == if b & 0xC0 != 0xC0 then 1 else if b & 0x20 == 0 then 2 else if b & 0x10 == 0 then 3 else 4
  {
    LengthTable(b);
    var x: bv32 := 0xe5000000;
    var shift: bv8 := (b >> 3) & 0x1e;
    (((x >> shift) & 3) as int) + 1
  }

  lemma LengthTable(b: bv8)
    ensures var x: bv32 := 0xe5000000;
      var n := (x >> ((b >> 3) & 0x1e)) & 3;
      n == if b & 0xC0 != 0xC0 then 0 else if b & 0x20 == 0 then 1 else if b & 0x10 == 0 then 2 else 3
  {
  }

  function ShiftAndMask(c: bv32, b: bv8): bv32 { (c << 6) | (0x3F & Wide(b)) }

  /** utf8_to_utf32_codepoint */
  function CodepointOf(s: seq<bv8>, n: nat): bv32
    requires 1 <= n <= 4 && n <= |s|
  {
    if n == 1 then Wide(s[0])
    else if n == 2 then ShiftAndMask(Masked(s[0], 0x1f), s[1])
    else if n == 3 then ShiftAndMask(ShiftAndMask(Masked(s[0], 0x0f), s[1]), s[2])
    else ShiftAndMask(ShiftAndMask(ShiftAndMask(Masked(s[0], 0x07), s[1]), s[2]), s[3])
  }

  function Masked(b: bv8, mask: bv32): bv32 { Wide(b) & mask }

  // ------------------------------------------------------------ decoding by leading ones

  /** The bytes utf32_at_internal reads: one, and one more for each set bit behind the first of a lead byte. */
  function NumToRead(b: bv8): (n: nat)
    ensures 1 <= n <= 8
  {
    if b & 0x80 == 0 || b & 0x40 == 0 then 1
    else if b & 0x20 == 0 then 2
    else if b & 0x10 == 0 then 3
    else if b & 0x08 == 0 then 4
    else if b & 0x04 == 0 then 5
    else if b & 0x02 == 0 then 6
    else if b & 0x01 == 0 then 7
    else 8
  }

  /** What the low bits of n bytes spell. */
  function Spelled(s: seq<bv8>, n: nat): bv32
    requires 1 <= n <= 6 && n <= |s|
  {
    if n == 1 then if s[0] & 0x80 == 0 then Wide(s[0]) else Wide(s[0]) & 0x3F
    else With(LeadBits(s[0], n), Trails(s, n))
  }

  function LeadBits(b: bv8, n: nat): bv32
    requires 2 <= n <= 6
  {
    if n == 2 then (Wide(b) & 0x1F) << 6
    else if n == 3 then (Wide(b) & 0x0F) << 12
    else if n == 4 then (Wide(b) & 0x07) << 18
    else if n == 5 then (Wide(b) & 0x03) << 24
    else (Wide(b) & 0x01) << 30
  }

  function Trails(s: seq<bv8>, n: nat): bv32
    requires 1 <= n <= |s|
  {
    if n == 1 then 0 else Append(Trails(s, n - 1), s[n - 1])
  }

  function Append(t: bv32, b: bv8): bv32 { (t << 6) | (Wide(b) & 0x3F) }

  /** The bits of the lead byte that are no payload once k bytes are known to be read, and all above. */
  function IgnoreMask(k: nat): bv32
    requires 1 <= k <= 8
  {
    if k == 1 then 0xFFFFFF80 else if k == 2 then 0xFFFFFFC0 else if k == 3 then 0xFFFFFFE0
    else if k == 4 then 0xFFFFFFF0 else if k == 5 then 0xFFFFFFF8 else if k == 6 then 0xFFFFFFFC
    else if k == 7 then 0xFFFFFFFE else 0xFFFFFFFF
  }

  function BitMask(k: nat): bv32
    requires 1 <= k <= 8
  {
    if k == 1 then 0x40 else if k == 2 then 0x20 else if k == 3 then 0x10 else if k == 4 then 0x08
    else if k == 5 then 0x04 else if k == 6 then 0x02 else if k == 7 then 0x01 else 0
  }

  /** The value of a char as char32_t, where char may be signed. */
  function Promoted(b: bv8, signedChar: bool): bv32 {
    if signedChar && b & 0x80 != 0 then 0xFFFFFF00 | Wide(b) else Wide(b)
  }

  predicate BitSet(x: bv32, mask: bv32) { x & mask != 0 }

  function With(x: bv32, mask: bv32): bv32 { x | mask }

  function Half(mask: bv32): bv32 { mask >> 1 }

  /** u without the bits of ignore, moved up by the payload of the bytes behind the lead. */
  function Cleared(u: bv32, ignore: bv32, n: nat): bv32
    requires 1 <= n <= 6
  {
    u & !ShiftedBy(ignore, n)
  }

  lemma MaskStep(b: bv8, signedChar: bool, k: nat)
    requires 1 <= k <= 7 && BitSet(Wide(b), 0x80)
    ensures With(IgnoreMask(k), BitMask(k)) == IgnoreMask(k + 1) && Half(BitMask(k)) == BitMask(k + 1)
    ensures k <= NumToRead(b) ==> (BitSet(Promoted(b, signedChar), BitMask(k)) <==> k < NumToRead(b))
  {
  }

  /** x << 6 * (n - 1) */
  function ShiftedBy(x: bv32, n: nat): bv32
    requires 1 <= n <= 6
  {
    if n == 1 then x else if n == 2 then x << 6 else if n == 3 then x << 12 else if n == 4 then x << 18
    else if n == 5 then x << 24 else x << 30
  }

  function UpSix(a: bv32): bv32 { a << 6 }

  lemma ShiftOnce(x: bv32, n: nat)
    requires 1 <= n <= 5
    ensures UpSix(ShiftedBy(x, n)) == ShiftedBy(x, n + 1)
  {
    if n == 2 {
      assert (x << 6) << 6 == x << 12;
    } else if n == 3 {
      assert (x << 12) << 6 == x << 18;
    } else if n == 4 {
      assert (x << 18) << 6 == x << 24;
    } else if n == 5 {
      assert (x << 24) << 6 == x << 30;
    }
  }

  /** One round of the loop: a byte of six payload bits is added below. */
  function Accumulate(u: bv32, b: bv8): bv32 { (u << 6) + (Wide(b) & 0x3F) }

  /** The lead byte and what the bytes behind it spell. */
  function Gathered(lead: bv32, n: nat, t: bv32): bv32
    requires 1 <= n <= 6
  {
    With(ShiftedBy(lead, n), t)
  }

  predicate Fits(t: bv32, n: nat)
    requires 1 <= n <= 6
  {
    t < ShiftedBy(1, n)
  }

  lemma GatherStep(lead: bv32, n: nat, t: bv32, b: bv8)
    requires 1 <= n <= 5
    ensures Accumulate(Gathered(lead, n, t), b) == Gathered(lead, n + 1, Append(t, b))
  {
    hide ShiftedBy, Accumulate, Append, UpSix, With;
    ShiftOnce(lead, n);
    AccumulateAppends(With(ShiftedBy(lead, n), t), b);
    AppendBehind(ShiftedBy(lead, n), t, b);
  }

  lemma AccumulateAppends(u: bv32, b: bv8)
    ensures Accumulate(u, b) == Append(u, b)
  {
  }

  lemma AppendBehind(a: bv32, t: bv32, b: bv8)
    ensures Append(With(a, t), b) == With(UpSix(a), Append(t, b))
  {
  }

  lemma {:induction false} TrailsFit(s: seq<bv8>, n: nat)
    requires 1 <= n <= |s| && n <= 6
    ensures Fits(Trails(s, n), n)
  {
    hide Fits, Append;
    if n == 1 {
      NothingFits();
    } else {
      TrailsFit(s, n - 1);
      TrailFits(Trails(s, n - 1), s[n - 1], n - 1);
    }
  }

  lemma NothingFits()
    ensures Fits(0, 1)
  {
  }

  lemma TrailFits(t: bv32, b: bv8, n: nat)
    requires 1 <= n <= 5 && Fits(t, n)
    ensures Fits(Append(t, b), n + 1)
  {
  }

  /** The final mask removes everything but the payload, whether or not char is signed. */
  lemma MaskRemovesMarks(b: bv8, signedChar: bool, t: bv32, n: nat)
    requires 2 <= n <= 6 && n == NumToRead(b) && Fits(t, n)
    ensures Cleared(Gathered(Promoted(b, signedChar), n, t), IgnoreMask(n + 1), n) == With(LeadBits(b, n), t)
  {
  }

  lemma StartMasks(b: bv8, signedChar: bool)
    ensures BitMask(1) == 0x40 && IgnoreMask(1) == 0xFFFFFF80
    ensures Gathered(Promoted(b, signedChar), 1, 0) == Promoted(b, signedChar)
    ensures BitSet(Wide(b), 0x80) <==> BitSet(Promoted(b, signedChar), 0x80)
  {
  }

  lemma OneByte(s: seq<bv8>, signedChar: bool)
    requires s != [] && NumToRead(s[0]) == 1
    ensures Spelled(s, 1) ==
      if BitSet(Wide(s[0]), 0x80) then Cleared(Gathered(Promoted(s[0], signedChar), 1, Trails(s, 1)), IgnoreMask(2), 1)
      else Promoted(s[0], signedChar)
  {
  }

  lemma AsciiIsOneByte(b: bv8)
    requires !BitSet(Wide(b), 0x80)
    ensures NumToRead(b) == 1
  {
  }

  /** utf32_at_internal; leads 0xFE and 0xFF would shift by more than the width of the word. */
  method Utf32At(src: seq<bv8>, at: nat, signedChar: bool) returns (utf32: bv32, numRead: nat)
    requires at < |src| && NumToRead(src[at]) <= 6 && at + NumToRead(src[at]) <= |src|
    ensures numRead == NumToRead(src[at]) && utf32 == Spelled(src[at..], numRead)
  {
    hide ShiftedBy, Wide, LeadBits, BitMask, IgnoreMask, Promoted, Accumulate, Append, Gathered, Fits, NumToRead,
      BitSet, With, Half, Cleared;
    ghost var s := src[at..];
    StartMasks(src[at], signedChar);
    if NumToRead(s[0]) == 1 {
      OneByte(s, signedChar);
    }
    var firstChar := Promoted(src[at], signedChar);
    if !BitSet(firstChar, 0x80) {
      AsciiIsOneByte(s[0]);
      return firstChar, 1;
    }
    var mask: bv32, toIgnoreMask: bv32 := 0x40, 0xFFFFFF80;
    var numToRead := 1;
    utf32 := firstChar;
    MaskStep(s[0], signedChar, numToRead);
    while BitSet(firstChar, mask)
      invariant 1 <= numToRead <= NumToRead(s[0])
      invariant mask == BitMask(numToRead) && toIgnoreMask == IgnoreMask(numToRead)
      invariant BitSet(firstChar, mask) <==> numToRead < NumToRead(s[0])
      invariant utf32 == Gathered(firstChar, numToRead, Trails(s, numToRead))
      decreases 8 - numToRead
    {
      MaskStep(s[0], signedChar, numToRead);
      MaskStep(s[0], signedChar, numToRead + 1);
      GatherStep(firstChar, numToRead, Trails(s, numToRead), s[numToRead]);
      utf32 := Accumulate(utf32, src[at + numToRead]);
      numToRead := numToRead + 1;
      toIgnoreMask := With(toIgnoreMask, mask);
      mask := Half(mask);
    }
    MaskStep(s[0], signedChar, numToRead);
    toIgnoreMask := With(toIgnoreMask, mask);
    TrailsFit(s, numToRead);
    if numToRead >= 2 {
      MaskRemovesMarks(s[0], signedChar, Trails(s, numToRead), numToRead);
    }
    utf32 := Cleared(utf32, toIgnoreMask, numToRead);
    numRead := numToRead;
  }

  // ------------------------------------------------------------ round trips

  /** The payloads of two, three and four bytes. */
  function Join2(b0: bv8, b1: bv8): bv32 { ((Wide(b0) & 0x1F) << 6) | (Wide(b1) & 0x3F) }

  function Join3(b0: bv8, b1: bv8, b2: bv8): bv32 {
    ((Wide(b0) & 0x0F) << 12) | ((Wide(b1) & 0x3F) << 6) | (Wide(b2) & 0x3F)
  }

  function Join4(b0: bv8, b1: bv8, b2: bv8, b3: bv8): bv32 {
    ((Wide(b0) & 0x07) << 18) | ((Wide(b1) & 0x3F) << 12) | ((Wide(b2) & 0x3F) << 6) | (Wide(b3) & 0x3F)
  }

  lemma OneByteIs(c: bv32)
    requires c < 0x80
    ensures Wide(Byte(c)) == c && CodepointLength(Byte(c)) == NumToRead(Byte(c)) == 1 && Byte(c) & 0x80 == 0
  {
  }

  lemma TwoBytes(c: bv32)
    requires 0x80 <= c < 0x800
    ensures var b0, b1 := Lead2(c), Trail(c);
      CodepointLength(b0) == NumToRead(b0) == 2 && Join2(b0, b1) == c
  {
  }

  lemma ThreeBytes(c: bv32)
    requires 0x800 <= c < 0x10000
    ensures var b0, b1, b2 := Lead3(c), Trail6(c), Trail(c);
      CodepointLength(b0) == NumToRead(b0) == 3 && Join3(b0, b1, b2) == c
  {
  }

  lemma FourBytes(c: bv32)
    requires 0x10000 <= c < 0x200000
    ensures var b0, b1, b2, b3 := Lead4(c), Trail12(c), Trail6(c), Trail(c);
      CodepointLength(b0) == NumToRead(b0) == 4 && Join4(b0, b1, b2, b3) == c
  {
  }

  lemma Lengths(c: bv32)
    ensures Scalar(c) <==> Utf8Length(c) > 0
    ensures Utf8Length(c) == 1 ==> c < 0x80
    ensures Utf8Length(c) == 2 ==> 0x80 <= c < 0x800
    ensures Utf8Length(c) == 3 ==> 0x800 <= c < 0x10000
    ensures Utf8Length(c) == 4 ==> 0x10000 <= c < 0x200000
  {
  }

  /** What both decoders compute from two, three and four bytes. */
  lemma Spelling2(s: seq<bv8>)
    requires |s| >= 2
    ensures Spelled(s, 2) == CodepointOf(s, 2) == Join2(s[0], s[1])
  {
    hide Wide, LeadBits, Append, ShiftAndMask, With, Masked, Join2;
    assert Trails(s, 2) == Append(0, s[1]);
    Bits2(s[0], s[1]);
  }

  lemma Spelling3(s: seq<bv8>)
    requires |s| >= 3
    ensures Spelled(s, 3) == CodepointOf(s, 3) == Join3(s[0], s[1], s[2])
  {
    hide Wide, LeadBits, Append, ShiftAndMask, With, Masked, Join3;
    assert Trails(s, 2) == Append(0, s[1]);
    assert Trails(s, 3) == Append(Append(0, s[1]), s[2]);
    Bits3(s[0], s[1], s[2]);
  }

  lemma Spelling4(s: seq<bv8>)
    requires |s| >= 4
    ensures Spelled(s, 4) == CodepointOf(s, 4) == Join4(s[0], s[1], s[2], s[3])
  {
    hide Wide, LeadBits, Append, ShiftAndMask, With, Masked, Join4;
    assert Trails(s, 2) == Append(0, s[1]);
    assert Trails(s, 3) == Append(Append(0, s[1]), s[2]);
    assert Trails(s, 4) == Append(Append(Append(0, s[1]), s[2]), s[3]);
    Bits4(s[0], s[1], s[2], s[3]);
  }

  lemma Bits2(b0: bv8, b1: bv8)
    ensures With(LeadBits(b0, 2), Append(0, b1)) == Join2(b0, b1) == ShiftAndMask(Masked(b0, 0x1f), b1)
  {
  }

  lemma Bits3(b0: bv8, b1: bv8, b2: bv8)
    ensures With(LeadBits(b0, 3), Append(Append(0, b1), b2)) == Join3(b0, b1, b2)
      == ShiftAndMask(ShiftAndMask(Masked(b0, 0x0f), b1), b2)
  {
  }

  lemma Bits4(b0: bv8, b1: bv8, b2: bv8, b3: bv8)
    ensures With(LeadBits(b0, 4), Append(Append(Append(0, b1), b2), b3)) == Join4(b0, b1, b2, b3)
      == ShiftAndMask(ShiftAndMask(ShiftAndMask(Masked(b0, 0x07), b1), b2), b3)
  {
  }

  function Low6(b: bv8): bv32 { Wide(b) & 0x3F }

  function Value2(b0: bv8, b1: bv8): bv32 { (Wide(b0) & 0x1F) * 0x40 + Low6(b1) }

  function Value3(b0: bv8, b1: bv8, b2: bv8): bv32 { (Wide(b0) & 0x0F) * 0x1000 + Low6(b1) * 0x40 + Low6(b2) }

  function Value4(b0: bv8, b1: bv8, b2: bv8, b3: bv8): bv32 {
    (Wide(b0) & 0x07) * 0x40000 + Low6(b1) * 0x1000 + Low6(b2) * 0x40 + Low6(b3)
  }

  lemma Sum2(b0: bv8, b1: bv8)
    ensures Join2(b0, b1) == Value2(b0, b1)
  {
  }

  lemma Sum3(b0: bv8, b1: bv8, b2: bv8)
    ensures Join3(b0, b1, b2) == Value3(b0, b1, b2)
  {
  }

  lemma Sum4(b0: bv8, b1: bv8, b2: bv8, b3: bv8)
    ensures Join4(b0, b1, b2, b3) == Value4(b0, b1, b2, b3)
  {
  }

  /** Whatever the bytes, the value is that of their payloads: no decoder looks at the marks of the bytes
      behind the lead. */
  lemma PayloadValue(s: seq<bv8>, n: nat)
    requires 2 <= n <= 4 && n <= |s|
    ensures CodepointOf(s, n) == Spelled(s, n) ==
      if n == 2 then Value2(s[0], s[1]) else if n == 3 then Value3(s[0], s[1], s[2]) else Value4(s[0], s[1], s[2], s[3])
  {
    hide CodepointOf, Spelled, Join2, Join3, Join4, Value2, Value3, Value4;
    if n == 2 {
      Spelling2(s);
      Sum2(s[0], s[1]);
    } else if n == 3 {
      Spelling3(s);
      Sum3(s[0], s[1], s[2]);
    } else {
      Spelling4(s);
      Sum4(s[0], s[1], s[2], s[3]);
    }
  }

  lemma Spelling1(s: seq<bv8>)
    requires s != [] && s[0] & 0x80 == 0
    ensures Spelled(s, 1) == CodepointOf(s, 1) == Wide(s[0])
  {
  }

  /** Both decoders read back the encoding of a scalar value, whatever follows it. */
  lemma DecodeOfEncode(c: bv32, s: seq<bv8>)
    requires Scalar(c) && Encode8(c) <= s
    ensures var n := Utf8Length(c);
      && 1 <= n <= |s| && CodepointLength(s[0]) == NumToRead(s[0]) == n
      && CodepointOf(s, n) == c && Spelled(s, n) == c
  {
    hide Scalar, Utf8Length, Byte, Trail, Trail6, Trail12, Lead2, Lead3, Lead4, Wide, CodepointLength, NumToRead,
      CodepointOf, Spelled, Join2, Join3, Join4;
    Lengths(c);
    var n := Utf8Length(c);
    var e := Encode8(c);
    assert forall i :: 0 <= i < n ==> s[i] == e[i];
    if n == 1 {
      OneByteIs(c);
      Spelling1(s);
    } else if n == 2 {
      TwoBytes(c);
      Spelling2(s);
    } else if n == 3 {
      ThreeBytes(c);
      Spelling3(s);
    } else {
      FourBytes(c);
      Spelling4(s);
    }
  }

  // ------------------------------------------------------------ the syntax of UTF-8

  predicate Within(b: bv8, low: bv8, high: bv8) { low <= b <= high }

  predicate Tail(b: bv8) { Within(b, 0x80, 0xBF) }

  /** The sequences of two, three and four octets of section 4 of RFC 3629. */
  predicate Octets2(b0: bv8, b1: bv8) { Within(b0, 0xC2, 0xDF) && Tail(b1) }

  predicate Octets3(b0: bv8, b1: bv8, b2: bv8) {
    && (|| (b0 == 0xE0 && Within(b1, 0xA0, 0xBF))
        || (Within(b0, 0xE1, 0xEC) && Tail(b1))
        || (b0 == 0xED && Within(b1, 0x80, 0x9F))
        || (Within(b0, 0xEE, 0xEF) && Tail(b1)))
    && Tail(b2)
  }

  predicate Octets4(b0: bv8, b1: bv8, b2: bv8, b3: bv8) {
    && (|| (b0 == 0xF0 && Within(b1, 0x90, 0xBF))
        || (Within(b0, 0xF1, 0xF3) && Tail(b1))
        || (b0 == 0xF4 && Within(b1, 0x80, 0x8F)))
    && Tail(b2) && Tail(b3)
  }

  /** One character of UTF-8. */
  predicate Utf8Char(e: seq<bv8>) {
    || (|e| == 1 && Within(e[0], 0, 0x7F))
    || (|e| == 2 && Octets2(e[0], e[1]))
    || (|e| == 3 && Octets3(e[0], e[1], e[2]))
    || (|e| == 4 && Octets4(e[0], e[1], e[2], e[3]))
  }

  lemma OneOctet(c: bv32, b: bv8)
    ensures c < 0x80 ==> Within(Byte(c), 0, 0x7F)
    ensures Within(b, 0, 0x7F) ==> Wide(b) < 0x80 && Byte(Wide(b)) == b && CodepointLength(b) == 1
  {
  }

  lemma TwoOctets(c: bv32, b0: bv8, b1: bv8)
    ensures 0x80 <= c < 0x800 ==> Octets2(Lead2(c), Trail(c))
    ensures Octets2(b0, b1) ==>
      var d := Join2(b0, b1);
      0x80 <= d < 0x800 && Form2(d) == [b0, b1] && CodepointLength(b0) == 2
  {
  }

  lemma ThreeOctets(c: bv32)
    requires 0x800 <= c < 0x10000 && Scalar(c)
    ensures Octets3(Lead3(c), Trail6(c), Trail(c))
  {
  }

  lemma ThreeOctetsSpell(b0: bv8, b1: bv8, b2: bv8)
    requires Octets3(b0, b1, b2)
    ensures var d := Join3(b0, b1, b2);
      && 0x800 <= d < 0x10000 && Scalar(d) && CodepointLength(b0) == 3
      && Lead3(d) == b0 && Trail6(d) == b1 && Trail(d) == b2
  {
  }

  lemma FourOctets(c: bv32)
    requires 0x10000 <= c <= 0x10FFFF
    ensures Octets4(Lead4(c), Trail12(c), Trail6(c), Trail(c))
  {
  }

  lemma FourOctetsSpell(b0: bv8, b1: bv8, b2: bv8, b3: bv8)
    requires Octets4(b0, b1, b2, b3)
    ensures var d := Join4(b0, b1, b2, b3);
      && 0x10000 <= d <= 0x10FFFF && CodepointLength(b0) == 4
      && Lead4(d) == b0 && Trail12(d) == b1 && Trail6(d) == b2 && Trail(d) == b3
  {
  }

  lemma LengthByRange(c: bv32)
    ensures Scalar(c) ==> Utf8Length(c) == if c < 0x80 then 1 else if c < 0x800 then 2 else if c < 0x10000 then 3 else 4
    ensures Scalar(c) ==> c <= 0x10FFFF
    ensures c < 0x800 || 0x10000 <= c <= 0x10FFFF ==> Scalar(c)
  {
  }

  /** Every scalar value is encoded as one character of UTF-8: continuation bytes are marked, the form is the
      shortest, and no surrogate is encoded. */
  lemma EncodingIsUtf8(c: bv32)
    requires Scalar(c)
    ensures Utf8Char(Encode8(c))
  {
    hide Scalar, Byte, Trail, Trail6, Trail12, Lead2, Lead3, Lead4, Within, Octets2, Octets3, Octets4, Utf8Length;
    LengthByRange(c);
    if c < 0x80 {
      OneOctet(c, 0);
    } else if c < 0x800 {
      TwoOctets(c, 0, 0);
    } else if c < 0x10000 {
      ThreeOctets(c);
    } else {
      FourOctets(c);
    }
  }

  /** The bytes of a scalar value, by its range. */
  lemma EncodeByRange(c: bv32)
    requires Scalar(c)
    ensures c < 0x80 ==> Encode8(c) == [Byte(c)]
    ensures 0x80 <= c < 0x800 ==> Encode8(c) == Form2(c)
    ensures 0x800 <= c < 0x10000 ==> Encode8(c) == Form3(c)
    ensures 0x10000 <= c ==> Encode8(c) == Form4(c)
  {
    hide Scalar, Byte, Utf8Length, Form2, Form3, Form4;
    LengthByRange(c);
  }

  lemma TwoIsEncoding(e: seq<bv8>)
    requires |e| == 2 && Octets2(e[0], e[1])
    ensures CodepointLength(e[0]) == 2
    ensures var c := CodepointOf(e, 2); Scalar(c) && Encode8(c) == e
  {
    hide Octets2, CodepointLength, CodepointOf, Spelled, Join2, Encode8, Form2, Scalar;
    Spelling2(e);
    TwoOctets(0, e[0], e[1]);
    LengthByRange(Join2(e[0], e[1]));
    EncodeByRange(Join2(e[0], e[1]));
  }

  lemma ThreeOctetsForm(e: seq<bv8>)
    requires |e| == 3 && Octets3(e[0], e[1], e[2])
    ensures Form3(Join3(e[0], e[1], e[2])) == e
  {
    hide Lead3, Trail6, Trail, Octets3, Join3, Scalar, CodepointLength;
    ThreeOctetsSpell(e[0], e[1], e[2]);
  }

  lemma FourOctetsForm(e: seq<bv8>)
    requires |e| == 4 && Octets4(e[0], e[1], e[2], e[3])
    ensures Form4(Join4(e[0], e[1], e[2], e[3])) == e
  {
    hide Lead4, Trail12, Trail6, Trail, Octets4, Join4, CodepointLength;
    FourOctetsSpell(e[0], e[1], e[2], e[3]);
  }

  lemma ThreeIsEncoding(e: seq<bv8>)
    requires |e| == 3 && Octets3(e[0], e[1], e[2])
    ensures CodepointLength(e[0]) == 3
    ensures var c := CodepointOf(e, 3); Scalar(c) && Encode8(c) == e
  {
    hide Octets3, CodepointLength, CodepointOf, Spelled, Join3, Encode8, Form3, Scalar;
    Spelling3(e);
    ThreeOctetsForm(e);
    ThreeOctetsSpell(e[0], e[1], e[2]);
    EncodeByRange(Join3(e[0], e[1], e[2]));
  }

  lemma FourIsEncoding(e: seq<bv8>)
    requires |e| == 4 && Octets4(e[0], e[1], e[2], e[3])
    ensures CodepointLength(e[0]) == 4
    ensures var c := CodepointOf(e, 4); Scalar(c) && Encode8(c) == e
  {
    hide Octets4, CodepointLength, CodepointOf, Spelled, Join4, Encode8, Form4, Scalar;
    Spelling4(e);
    FourOctetsForm(e);
    FourOctetsSpell(e[0], e[1], e[2], e[3]);
    LengthByRange(Join4(e[0], e[1], e[2], e[3]));
    EncodeByRange(Join4(e[0], e[1], e[2], e[3]));
  }

  lemma OneIsEncoding(e: seq<bv8>)
    requires |e| == 1 && Within(e[0], 0, 0x7F)
    ensures CodepointLength(e[0]) == 1
    ensures var c := CodepointOf(e, 1); Scalar(c) && Encode8(c) == e
  {
    hide Byte, Wide, Within, CodepointLength, Encode8, Scalar;
    OneOctet(0, e[0]);
    LengthByRange(Wide(e[0]));
    EncodeByRange(Wide(e[0]));
  }

  /** And every character of UTF-8 is the encoding of the scalar value it is decoded to. */
  lemma Utf8IsEncoding(e: seq<bv8>)
    requires Utf8Char(e)
    ensures 1 <= |e| <= 4 && CodepointLength(e[0]) == |e|
    ensures var c := CodepointOf(e, |e|); Scalar(c) && Encode8(c) == e
  {
    hide Scalar, Within, Octets2, Octets3, Octets4, CodepointLength, CodepointOf, Encode8;
    if |e| == 1 {
      OneIsEncoding(e);
    } else if |e| == 2 {
      TwoIsEncoding(e);
    } else if |e| == 3 {
      ThreeIsEncoding(e);
    } else {
      FourIsEncoding(e);
    }
  }

  /** The two decoders agree on the length and the value exactly when the lead byte is neither a
      continuation byte nor announces more than four bytes. */
  lemma DecodersAgree(s: seq<bv8>)
    requires s != [] && CodepointLength(s[0]) <= |s|
    ensures var n := CodepointLength(s[0]);
      NumToRead(s[0]) == n && Spelled(s, n) == CodepointOf(s, n) <==> s[0] & 0xC0 != 0x80 && s[0] & 0xF8 != 0xF8
  {
    hide Trails, LeadBits;
    LeadKinds(s[0]);
    if |s| >= 2 {
      Spelling2(s);
    }
    if |s| >= 3 {
      Spelling3(s);
    }
    if |s| >= 4 {
      Spelling4(s);
    }
  }

  lemma LeadKinds(b: bv8)
    ensures b & 0xF8 == 0xF8 ==> CodepointLength(b) == 4 && NumToRead(b) > 4
    ensures b & 0xF8 != 0xF8 ==> NumToRead(b) == CodepointLength(b)
    ensures b & 0xC0 == 0x80 ==> CodepointLength(b) == 1 && Wide(b) & 0x3F != Wide(b) && b & 0x80 != 0 && b & 0xF8 != 0xF8
    ensures b & 0xC0 != 0x80 && CodepointLength(b) == 1 ==> b & 0x80 == 0
  {
  }

  // ------------------------------------------------------------ surrogate pairs

  function Ten(u: bv16): bv32 { Wide16(u) & 0x3FF }

  lemma HighUnitIs(h: bv16)
    requires High(h)
    ensures HighOffset(h) == Ten(h) && Ten(h) < 0x400 && HighUnit(Ten(h)) == h
  {
  }

  lemma LowUnitIs(l: bv16)
    requires Low(l)
    ensures LowOffset(l) == Ten(l) && Ten(l) < 0x400 && LowUnit(Ten(l)) == l
  {
  }

  lemma CombineSplits(x: bv32, y: bv32)
    requires x < 0x400 && y < 0x400
    ensures Combine(x, y) < 0x100000 && TopTen(Combine(x, y)) == x && BottomTen(Combine(x, y)) == y
  {
  }

  lemma AboveThenBelow(d: bv32)
    requires d < 0x100000
    ensures 0x10000 <= Above(d) <= 0x10FFFF && Scalar(Above(d)) && Below(Above(d)) == d
  {
  }

  /** A surrogate pair encodes one code point beyond the basic plane, whose units are that pair. */
  lemma PairRoundTrip(h: bv16, l: bv16)
    requires High(h) && Low(l)
    ensures 0x10000 <= FromPair(h, l) <= 0x10FFFF && Scalar(FromPair(h, l))
    ensures Encode16(FromPair(h, l)) == [h, l]
  {
    hide High, Low, HighOffset, LowOffset, HighUnit, LowUnit, Ten, Combine, Scalar, TopTen, BottomTen, Above, Below;
    HighUnitIs(h);
    LowUnitIs(l);
    CombineSplits(Ten(h), Ten(l));
    AboveThenBelow(Combine(Ten(h), Ten(l)));
  }

  lemma UnitRoundTrip(u: bv16)
    ensures Encode16(Wide16(u)) == [u]
    ensures Scalar(Wide16(u)) <==> !High(u) && !Low(u)
  {
  }

  lemma SurrogateRanges(h: bv16, l: bv16)
    ensures High(h) <==> 0xD800 <= h <= 0xDBFF
    ensures Low(l) <==> 0xDC00 <= l <= 0xDFFF
  {
  }

  lemma PairSum(h: bv32, l: bv32)
    requires 0xD800 <= h <= 0xDBFF && 0xDC00 <= l <= 0xDFFF
    ensures Above(Combine(h - 0xD800, l - 0xDC00)) == 0x10000 + (h - 0xD800) * 0x400 + (l - 0xDC00)
  {
  }

  lemma WideRanges(h: bv16, l: bv16)
    ensures 0xD800 <= h <= 0xDBFF <==> 0xD800 <= Wide16(h) <= 0xDBFF
    ensures 0xDC00 <= l <= 0xDFFF <==> 0xDC00 <= Wide16(l) <= 0xDFFF
  {
  }

  /** The value of a surrogate pair, by section 2.2 of RFC 2781. */
  lemma PairValue(h: bv16, l: bv16)
    requires 0xD800 <= h <= 0xDBFF && 0xDC00 <= l <= 0xDFFF
    ensures FromPair(h, l) == 0x10000 + (Wide16(h) - 0xD800) * 0x400 + (Wide16(l) - 0xDC00)
  {
    hide Wide16, Combine, Above;
    WideRanges(h, l);
    PairSum(Wide16(h), Wide16(l));
  }

  /** Beyond the basic plane every code point is such a pair. */
  lemma UnitsOfPair(c: bv32)
    requires 0x10000 <= c <= 0x10FFFF
    ensures var u := Encode16(c); |u| == 2 && High(u[0]) && Low(u[1]) && FromPair(u[0], u[1]) == c
  {
    hide High, Low, HighOffset, LowOffset, HighUnit, LowUnit, Combine, TopTen, BottomTen, Above, Below;
    TenBits(c);
  }

  lemma TenBits(c: bv32)
    requires 0x10000 <= c <= 0x10FFFF
    ensures var h, l := HighUnit(TopTen(Below(c))), LowUnit(BottomTen(Below(c)));
      High(h) && Low(l) && Above(Combine(HighOffset(h), LowOffset(l))) == c
  {
  }
}
