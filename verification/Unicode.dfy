/** Converting whole strings between UTF-8, UTF-16 and UTF-32, and measuring the results. */
module Unicode {
  import opened CodePoints

  // ------------------------------------------------------------ what the converters compute

  function Utf32ToUtf8(s: seq<bv32>): seq<bv8> {
    if s == [] then [] else Encode8(s[0]) + Utf32ToUtf8(s[1..])
  }

  function Scalars(s: seq<bv32>): seq<bv32> {
    if s == [] then [] else (if Scalar(s[0]) then [s[0]] else []) + Scalars(s[1..])
  }

  /** The units read for one code point: two for a high surrogate, whatever follows it. */
  function UnitsRead(u: bv16): nat { if High(u) then 2 else 1 }

  /** The unit behind every high surrogate exists. */
  predicate Complete(s: seq<bv16>) {
    s == [] || (UnitsRead(s[0]) <= |s| && Complete(s[UnitsRead(s[0])..]))
  }

  /** The unit behind every high surrogate is a low one. */
  predicate Paired(s: seq<bv16>) {
    s == [] || (if High(s[0]) then |s| >= 2 && Low(s[1]) && Paired(s[2..]) else Paired(s[1..]))
  }

  function CodepointAt(s: seq<bv16>): bv32
    requires s != [] && UnitsRead(s[0]) <= |s|
  {
    if High(s[0]) then FromPair(s[0], s[1]) else Wide16(s[0])
  }

  function Utf16ToUtf8(s: seq<bv16>): seq<bv8>
    requires Complete(s)
  {
    if s == [] then [] else Encode8(CodepointAt(s)) + Utf16ToUtf8(s[UnitsRead(s[0])..])
  }

  /** Low surrogates that do not follow a high one are dropped. */
  function WithoutLoneLows(s: seq<bv16>): seq<bv16> {
    if s == [] then []
    else if High(s[0]) && |s| >= 2 then s[..2] + WithoutLoneLows(s[2..])
    else (if Low(s[0]) then [] else s[..1]) + WithoutLoneLows(s[1..])
  }

  /** By the lengths of utf8_codepoint_len the bytes end exactly at the end. */
  predicate Framed(s: seq<bv8>) {
    s == [] || (CodepointLength(s[0]) <= |s| && Framed(s[CodepointLength(s[0])..]))
  }

  function Utf8ToUtf16(s: seq<bv8>): seq<bv16>
    requires Framed(s)
  {
    if s == [] then []
    else
      var n := CodepointLength(s[0]);
      Encode16(CodepointOf(s, n)) + Utf8ToUtf16(s[n..])
  }

  /** By the leading ones the bytes end exactly at the end. */
  predicate FramedByOnes(s: seq<bv8>) {
    s == [] || (NumToRead(s[0]) <= 6 && NumToRead(s[0]) <= |s| && FramedByOnes(s[NumToRead(s[0])..]))
  }

  function Utf8ToUtf32(s: seq<bv8>): seq<bv32>
    requires FramedByOnes(s)
  {
    if s == [] then []
    else
      var n := NumToRead(s[0]);
      [Spelled(s, n)] + Utf8ToUtf32(s[n..])
  }

  function Utf32ToUtf16(s: seq<bv32>): seq<bv16> {
    if s == [] then [] else Encode16(s[0]) + Utf32ToUtf16(s[1..])
  }

  // ------------------------------------------------------------ round trips

  lemma DecodeNext(c: bv32, rest: seq<bv8>)
    requires Scalar(c)
    ensures Framed(rest) ==> Framed(Encode8(c) + rest) && Utf8ToUtf16(Encode8(c) + rest) == Encode16(c) + Utf8ToUtf16(rest)
    ensures FramedByOnes(rest) ==>
      FramedByOnes(Encode8(c) + rest) && Utf8ToUtf32(Encode8(c) + rest) == [c] + Utf8ToUtf32(rest)
  {
    hide Encode8, Encode16, CodepointOf, Spelled, CodepointLength, NumToRead, Utf8Length, Scalar;
    var s := Encode8(c) + rest;
    DecodeOfEncode(c, s);
    assert s[Utf8Length(c)..] == rest;
  }

  /** Decoding what was encoded from UTF-32 drops just the values that are no scalar values. */
  lemma {:induction false} Utf32RoundTrip(s: seq<bv32>)
    ensures FramedByOnes(Utf32ToUtf8(s)) && Utf8ToUtf32(Utf32ToUtf8(s)) == Scalars(s)
  {
    hide Encode8, Scalar, Utf8Length, Utf8ToUtf32, FramedByOnes;
    if s == [] {
      NothingDecodes();
    } else {
      Utf32RoundTrip(s[1..]);
      Lengths(s[0]);
      if Scalar(s[0]) {
        DecodeNext(s[0], Utf32ToUtf8(s[1..]));
      } else {
        assert Encode8(s[0]) == [];
        assert Utf32ToUtf8(s) == Utf32ToUtf8(s[1..]);
      }
    }
  }

  lemma NothingDecodes()
    ensures FramedByOnes([]) && Utf8ToUtf32([]) == [] && Framed([]) && Utf8ToUtf16([]) == []
  {
  }

  lemma {:induction false} PairedIsComplete(s: seq<bv16>)
    requires Paired(s)
    ensures Complete(s)
  {
    hide High, Low;
    if s != [] {
      PairedIsComplete(s[UnitsRead(s[0])..]);
    }
  }

  /** UTF-16 with paired surrogates comes back from UTF-8 unchanged but for lone low surrogates. */
  lemma {:induction false} Utf16RoundTrip(s: seq<bv16>)
    requires Paired(s)
    ensures Complete(s) && Framed(Utf16ToUtf8(s)) && Utf8ToUtf16(Utf16ToUtf8(s)) == WithoutLoneLows(s)
  {
    hide High, Low, FromPair, Encode8, Encode16, Utf8Length, Scalar, Framed, Utf8ToUtf16;
    PairedIsComplete(s);
    if s == [] {
      NothingDecodes();
    } else {
      var n := UnitsRead(s[0]);
      var c, rest := CodepointAt(s), Utf16ToUtf8(s[n..]);
      Utf16RoundTrip(s[n..]);
      Lengths(c);
      if High(s[0]) {
        PairRoundTrip(s[0], s[1]);
        DecodeNext(c, rest);
        assert s[..2] == [s[0], s[1]];
      } else {
        UnitRoundTrip(s[0]);
        if Low(s[0]) {
          assert Encode8(c) == [];
          assert Utf16ToUtf8(s) == rest;
        } else {
          DecodeNext(c, rest);
          assert s[..1] == [s[0]];
        }
      }
    }
  }

  predicate WellFormed16(s: seq<bv16>) {
    s == [] ||
    (if High(s[0]) then |s| >= 2 && Low(s[1]) && WellFormed16(s[2..]) else !Low(s[0]) && WellFormed16(s[1..]))
  }

  lemma {:induction false} WellFormedIsKept(s: seq<bv16>)
    requires WellFormed16(s)
    ensures Paired(s) && WithoutLoneLows(s) == s
  {
    hide High, Low;
    if s != [] {
      WellFormedIsKept(s[UnitsRead(s[0])..]);
    }
  }

  /** Well-formed UTF-16 survives the way to UTF-8 and back. */
  lemma WellFormedRoundTrip(s: seq<bv16>)
    requires WellFormed16(s)
    ensures Complete(s) && Framed(Utf16ToUtf8(s)) && Utf8ToUtf16(Utf16ToUtf8(s)) == s
  {
    hide High, Low, Utf16ToUtf8, Utf8ToUtf16, Framed;
    WellFormedIsKept(s);
    Utf16RoundTrip(s);
  }

  /** Framed bytes none of whose lead bytes is a continuation byte or announces more than four bytes. */
  predicate CleanLeads(s: seq<bv8>) {
    s == [] ||
    (s[0] & 0xC0 != 0x80 && s[0] & 0xF8 != 0xF8
     && CodepointLength(s[0]) <= |s| && CleanLeads(s[CodepointLength(s[0])..]))
  }

  /** On such bytes, in particular on all well-formed UTF-8, the two decoders agree. */
  lemma {:induction false} DecodersAgreeOnStrings(s: seq<bv8>)
    requires CleanLeads(s)
    ensures Framed(s) && FramedByOnes(s) && Utf8ToUtf16(s) == Utf32ToUtf16(Utf8ToUtf32(s))
  {
    hide Encode16, CodepointOf, Spelled, CodepointLength, NumToRead;
    if s != [] {
      DecodersAgree(s);
      DecodersAgreeOnStrings(s[CodepointLength(s[0])..]);
    }
  }

  lemma {:induction false} EncodingIsClean(s: seq<bv32>)
    ensures CleanLeads(Utf32ToUtf8(s))
  {
    hide Encode8, CodepointLength, NumToRead, Utf8Length, Scalar, CodepointOf, Spelled;
    if s != [] {
      EncodingIsClean(s[1..]);
      var b := Utf32ToUtf8(s);
      Lengths(s[0]);
      if Scalar(s[0]) {
        DecodeOfEncode(s[0], b);
        DecodersAgree(b);
        assert b[Utf8Length(s[0])..] == Utf32ToUtf8(s[1..]);
      } else {
        assert b == Utf32ToUtf8(s[1..]);
      }
    }
  }

  // ------------------------------------------------------------ well-formed UTF-8

  /** A sequence of characters of UTF-8, by section 4 of RFC 3629. */
  predicate WellFormed8(s: seq<bv8>) {
    s == [] ||
    (CodepointLength(s[0]) <= |s| && Utf8Char(s[..CodepointLength(s[0])]) && WellFormed8(s[CodepointLength(s[0])..]))
  }

  lemma WellFormedNext(c: bv32, rest: seq<bv8>)
    requires Scalar(c) && WellFormed8(rest)
    ensures WellFormed8(Encode8(c) + rest)
  {
    hide Encode8, CodepointLength, Utf8Length, Scalar, CodepointOf, Utf8Char;
    EncodingIsUtf8(c);
    Utf8IsEncoding(Encode8(c));
    var s := Encode8(c) + rest;
    assert s[..Utf8Length(c)] == Encode8(c) && s[Utf8Length(c)..] == rest;
  }

  /** All UTF-8 made from UTF-32 is well-formed, whatever the code points. */
  lemma {:induction false} Utf32GivesWellFormed(s: seq<bv32>)
    ensures WellFormed8(Utf32ToUtf8(s))
  {
    hide Encode8, CodepointLength, Utf8Length, Scalar, Utf8Char;
    if s != [] {
      Utf32GivesWellFormed(s[1..]);
      Lengths(s[0]);
      if Scalar(s[0]) {
        WellFormedNext(s[0], Utf32ToUtf8(s[1..]));
      } else {
        assert Utf32ToUtf8(s) == Utf32ToUtf8(s[1..]);
      }
    }
  }

  /** So is all UTF-8 made from UTF-16. */
  lemma {:induction false} Utf16GivesWellFormed(s: seq<bv16>)
    requires Complete(s)
    ensures WellFormed8(Utf16ToUtf8(s))
  {
    hide Encode8, CodepointLength, Utf8Length, Scalar, Utf8Char, High, FromPair;
    if s != [] {
      var c, rest := CodepointAt(s), s[UnitsRead(s[0])..];
      Utf16GivesWellFormed(rest);
      Lengths(c);
      if Scalar(c) {
        WellFormedNext(c, Utf16ToUtf8(rest));
      } else {
        assert Utf16ToUtf8(s) == Utf16ToUtf8(rest);
      }
    }
  }

  lemma {:induction false} WellFormedIsClean(s: seq<bv8>)
    requires WellFormed8(s)
    ensures CleanLeads(s)
  {
    hide Encode8, CodepointLength, NumToRead, Utf8Length, Scalar, CodepointOf, Spelled, Utf8Char;
    if s != [] {
      var n := CodepointLength(s[0]);
      var e := s[..n];
      Utf8IsEncoding(e);
      DecodeOfEncode(CodepointOf(e, n), s);
      DecodersAgree(s);
      WellFormedIsClean(s[n..]);
      SameStart(s, n);
    }
  }

  lemma SameStart(s: seq<bv8>, n: nat)
    requires 1 <= n <= 4 && n <= |s|
    ensures CodepointOf(s[..n], n) == CodepointOf(s, n)
  {
    hide ShiftAndMask, Masked, Wide;
  }

  /** Well-formed UTF-8 survives the way to UTF-32 and back, and yields scalar values only. */
  lemma {:induction false} Utf8RoundTrip(s: seq<bv8>)
    requires WellFormed8(s)
    ensures FramedByOnes(s) && Utf32ToUtf8(Utf8ToUtf32(s)) == s && Scalars(Utf8ToUtf32(s)) == Utf8ToUtf32(s)
  {
    hide Encode8, CodepointLength, NumToRead, Utf8Length, Scalar, CodepointOf, Spelled, Utf8Char;
    if s != [] {
      var n := CodepointLength(s[0]);
      var e := s[..n];
      Utf8IsEncoding(e);
      var c := CodepointOf(e, n);
      DecodeOfEncode(c, s);
      Utf8RoundTrip(s[n..]);
      assert Utf8ToUtf32(s) == [c] + Utf8ToUtf32(s[n..]);
      assert s == e + s[n..];
    }
  }
}
