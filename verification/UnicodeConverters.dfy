/** The converters and length functions of the library, which advance cursors and write buffers. */
module UnicodeConverters {
  import opened CodePoints
  import opened Unicode

  // ------------------------------------------------------------ writing code points

  function DownSix(c: bv32): bv32 { c >> 6 }

  lemma EncodeSteps(c: bv32)
    ensures Utf8Length(c) == 1 ==> Encode8(c) == [Byte(With(c, 0))]
    ensures Utf8Length(c) == 2 ==> Encode8(c) == [Byte(With(DownSix(c), 0xC0)), Trail(c)]
    ensures Utf8Length(c) == 3 ==> Encode8(c) == [Byte(With(DownSix(DownSix(c)), 0xE0)), Trail(DownSix(c)), Trail(c)]
    ensures Utf8Length(c) == 4 ==>
      Encode8(c) == [Byte(With(DownSix(DownSix(DownSix(c))), 0xF0)), Trail(DownSix(DownSix(c))), Trail(DownSix(c)), Trail(c)]
  {
    hide Utf8Length, Byte, Trail;
    Shifts(c);
  }

  lemma Shifts(c: bv32)
    ensures With(c, 0) == c
    ensures DownSix(c) == c >> 6 && DownSix(DownSix(c)) == c >> 12 && DownSix(DownSix(DownSix(c))) == c >> 18
    ensures With(c >> 6, 0xC0) == (c >> 6) | 0xC0
    ensures With(c >> 12, 0xE0) == (c >> 12) | 0xE0
    ensures With(c >> 18, 0xF0) == (c >> 18) | 0xF0
  {
  }

  // ------------------------------------------------------------ filling a buffer

  /** The result followed by a terminator stands at the start of the buffer; the rest is as before. */
  ghost predicate Written<T>(before: seq<T>, after: seq<T>, result: seq<T>, zero: T) {
    |before| == |after| > |result| && after == result + [zero] + before[|result| + 1..]
  }

  /** The first cur items of all have been stored over was, and rest is what remains. */
  ghost predicate Stored<T>(all: seq<T>, was: seq<T>, now: seq<T>, cur: nat, rest: seq<T>) {
    && cur <= |all| <= |was| == |now|
    && now == all[..cur] + was[cur..] && all[cur..] == rest
  }

  lemma StoreStart<T>(all: seq<T>, was: seq<T>)
    requires |all| <= |was|
    ensures Stored(all, was, was, 0, all)
  {
  }

  lemma StoreRoom<T>(all: seq<T>, was: seq<T>, now: seq<T>, cur: nat, next: seq<T>, rest: seq<T>)
    requires Stored(all, was, now, cur, next + rest)
    ensures cur + |next| <= |all| <= |was| == |now|
  {
  }

  ghost predicate Replaced<T>(now: seq<T>, later: seq<T>, cur: nat, next: seq<T>) {
    cur + |next| <= |now| && later == now[..cur] + next + now[cur + |next|..]
  }

  lemma StoreStep<T>(all: seq<T>, was: seq<T>, now: seq<T>, later: seq<T>, cur: nat, next: seq<T>, rest: seq<T>)
    requires Stored(all, was, now, cur, next + rest) && Replaced(now, later, cur, next)
    ensures Stored(all, was, later, cur + |next|, rest)
  {
    assert all == all[..cur] + (next + rest);
    assert all[..cur + |next|] == all[..cur] + next;
    assert all[cur + |next|..] == rest;
    assert now[cur + |next|..] == was[cur + |next|..];
    assert now[..cur] == all[..cur];
  }

  lemma StoreEnd<T>(all: seq<T>, was: seq<T>, now: seq<T>, cur: nat)
    requires Stored(all, was, now, cur, [])
    ensures cur == |all| <= |was| == |now| && now == all + was[|all|..]
  {
  }

  lemma Terminated<T>(all: seq<T>, was: seq<T>, now: seq<T>, cur: nat, zero: T)
    requires Stored(all, was, now, cur, []) && cur < |now|
    ensures cur == |all| && Written(was, now[cur := zero], all, zero)
  {
    StoreEnd(all, was, now, cur);
  }

  lemma PutOne<T>(now: seq<T>, at: nat, e: seq<T>)
    requires at + |e| <= |now| && |e| == 1
    ensures Replaced(now, now[at := e[0]], at, e)
  {
  }

  lemma PutTwo<T>(now: seq<T>, at: nat, e: seq<T>)
    requires at + |e| <= |now| && |e| == 2
    ensures Replaced(now, now[at + 1 := e[1]][at := e[0]], at, e)
  {
  }

  lemma PutThree<T>(now: seq<T>, at: nat, e: seq<T>)
    requires at + |e| <= |now| && |e| == 3
    ensures Replaced(now, now[at + 2 := e[2]][at + 1 := e[1]][at := e[0]], at, e)
  {
  }

  lemma PutFour<T>(now: seq<T>, at: nat, e: seq<T>)
    requires at + |e| <= |now| && |e| == 4
    ensures Replaced(now, now[at + 3 := e[3]][at + 2 := e[2]][at + 1 := e[1]][at := e[0]], at, e)
  {
  }

  lemma PutNone<T>(now: seq<T>, at: nat)
    requires at <= |now|
    ensures Replaced(now, now, at, [])
  {
  }

  /** utf32_codepoint_to_utf8: the bytes are written from the last to the first. */
  method Utf32CodepointToUtf8(dst: array<bv8>, at: nat, c: bv32, bytes: nat)
    requires bytes == Utf8Length(c) && at + bytes <= dst.Length
    modifies dst
    ensures Replaced(old(dst[..]), dst[..], at, Encode8(c))
  {
    hide Encode8, Byte, Trail, With, DownSix, Replaced, Utf8Length;
    EncodeSteps(c);
    ghost var now, e := dst[..], Encode8(c);
    var p, x := at + bytes, c;
    if bytes >= 4 {
      p := p - 1;
      dst[p] := Trail(x);
      x := DownSix(x);
    }
    if bytes >= 3 {
      p := p - 1;
      dst[p] := Trail(x);
      x := DownSix(x);
    }
    if bytes >= 2 {
      p := p - 1;
      dst[p] := Trail(x);
      x := DownSix(x);
    }
    if bytes >= 1 {
      p := p - 1;
      dst[p] := Byte(With(x, FirstByteMark(bytes)));
    }
    if bytes == 4 {
      PutFour(now, at, e);
    } else if bytes == 3 {
      PutThree(now, at, e);
    } else if bytes == 2 {
      PutTwo(now, at, e);
    } else if bytes == 1 {
      PutOne(now, at, e);
    } else {
      PutNone(now, at);
    }
  }

  // ------------------------------------------------------------ to UTF-8

  lemma Utf32Next(src: seq<bv32>, i: nat)
    requires i < |src|
    ensures Utf32ToUtf8(src[i..]) == Encode8(src[i]) + Utf32ToUtf8(src[i + 1..])
  {
    hide Encode8;
    assert src[i..][1..] == src[i + 1..];
  }

  lemma SuffixEnds<T>(src: seq<T>)
    ensures src[0..] == src && src[|src|..] == []
  {
  }

  method ConvertUtf32ToUtf8(src: seq<bv32>, dst: array<bv8>)
    requires dst.Length > |Utf32ToUtf8(src)|
    modifies dst
    ensures if src == [] then dst[..] == old(dst[..]) else Written(old(dst[..]), dst[..], Utf32ToUtf8(src), 0)
  {
    hide Encode8, Utf8Length, Stored, Written, Replaced;
    if |src| == 0 {
      return;
    }
    ghost var all, was := Utf32ToUtf8(src), dst[..];
    var i, cur: nat := 0, 0;
    SuffixEnds(src);
    StoreStart(all, was);
    while i < |src|
      invariant 0 <= i <= |src| && cur <= |all|
      invariant Stored(all, was, dst[..], cur, Utf32ToUtf8(src[i..]))
    {
      ghost var now, rest := dst[..], Utf32ToUtf8(src[i + 1..]);
      var len := Utf8Length(src[i]);
      Utf32Next(src, i);
      StoreRoom(all, was, now, cur, Encode8(src[i]), rest);
      Utf32CodepointToUtf8(dst, cur, src[i], len);
      StoreStep(all, was, now, dst[..], cur, Encode8(src[i]), rest);
      cur := cur + len;
      i := i + 1;
    }
    StoreEnd(all, was, dst[..], cur);
    Terminated(all, was, dst[..], cur, 0);
    dst[cur] := 0;
  }

  method Utf32ToUtf8Length(src: seq<bv32>) returns (length: int)
    ensures length == if src == [] then -1 else |Utf32ToUtf8(src)|
  {
    hide Encode8, Utf8Length;
    if |src| == 0 {
      return -1;
    }
    length := 0;
    var i := 0;
    assert src[0..] == src;
    while i < |src|
      invariant 0 <= i <= |src|
      invariant |Utf32ToUtf8(src)| == length + |Utf32ToUtf8(src[i..])|
    {
      assert src[i..][1..] == src[i + 1..];
      length := length + Utf8Length(src[i]);
      i := i + 1;
    }
  }

  method ConvertUtf16ToUtf8(src: seq<bv16>, dst: array<bv8>)
    requires Complete(src) && dst.Length > |Utf16ToUtf8(src)|
    modifies dst
    ensures if src == [] then dst[..] == old(dst[..]) else Written(old(dst[..]), dst[..], Utf16ToUtf8(src), 0)
  {
    hide Encode8, Utf8Length, High, HighOffset, LowOffset, Combine, Above, Wide16, Stored, Written, Replaced;
    if |src| == 0 {
      return;
    }
    ghost var all, was := Utf16ToUtf8(src), dst[..];
    var i, cur: nat := 0, 0;
    SuffixEnds(src);
    StoreStart(all, was);
    while i < |src|
      invariant 0 <= i <= |src| && cur <= |all| && Complete(src[i..])
      invariant Stored(all, was, dst[..], cur, Utf16ToUtf8(src[i..]))
    {
      Utf16Next(src, i);
      var utf32: bv32;
      if High(src[i]) {
        utf32 := Above(Combine(HighOffset(src[i]), LowOffset(src[i + 1])));
        i := i + 2;
      } else {
        utf32 := Wide16(src[i]);
        i := i + 1;
      }
      ghost var now, rest := dst[..], Utf16ToUtf8(src[i..]);
      var len := Utf8Length(utf32);
      StoreRoom(all, was, now, cur, Encode8(utf32), rest);
      Utf32CodepointToUtf8(dst, cur, utf32, len);
      StoreStep(all, was, now, dst[..], cur, Encode8(utf32), rest);
      cur := cur + len;
    }
    StoreEnd(all, was, dst[..], cur);
    Terminated(all, was, dst[..], cur, 0);
    dst[cur] := 0;
  }

  lemma Utf16Next(src: seq<bv16>, i: nat)
    requires i < |src| && Complete(src[i..])
    ensures var n := UnitsRead(src[i]);
      && i + n <= |src| && Complete(src[i + n..])
      && Utf16ToUtf8(src[i..]) == Encode8(CodepointAt(src[i..])) + Utf16ToUtf8(src[i + n..])
    ensures CodepointAt(src[i..]) == if High(src[i]) then FromPair(src[i], src[i + 1]) else Wide16(src[i])
  {
    hide Encode8, High, FromPair, Wide16;
    assert src[i..][UnitsRead(src[i])..] == src[i + UnitsRead(src[i])..];
  }

  /** Exact for paired surrogates. */
  method Utf16ToUtf8Length(src: seq<bv16>) returns (length: int)
    ensures src == [] ==> length == -1
    ensures src != [] && Paired(src) ==> Complete(src) && length == |Utf16ToUtf8(src)|
  {
    hide Encode8, Utf8Length, High, Low, FromPair;
    if |src| == 0 {
      return -1;
    }
    if Paired(src) {
      PairedIsComplete(src);
    }
    length := 0;
    var i := 0;
    assert src[0..] == src;
    while i < |src|
      invariant 0 <= i <= |src|
      invariant Paired(src) ==> Paired(src[i..]) && Complete(src[i..])
      invariant Paired(src) ==> |Utf16ToUtf8(src)| == length + |Utf16ToUtf8(src[i..])|
    {
      ghost var s := src[i..];
      assert s[1..] == src[i + 1..] && (|s| >= 2 ==> s[2..] == src[i + 2..]);
      if High(src[i]) && i + 1 < |src| {
        i := i + 1;
        if Low(src[i]) {
          PairIsFourBytes(s[0], s[1]);
          length := length + 4;
          i := i + 1;
        } else {
          length := length + Utf8Length(Wide16(src[i]));
          i := i + 1;
        }
      } else {
        length := length + Utf8Length(Wide16(src[i]));
        i := i + 1;
      }
    }
  }

  lemma PairIsFourBytes(h: bv16, l: bv16)
    requires High(h) && Low(l)
    ensures Utf8Length(FromPair(h, l)) == 4
  {
    hide High, Low, FromPair;
    PairRoundTrip(h, l);
  }

  // ------------------------------------------------------------ reading UTF-8

  lemma UnitsReplaced(now: seq<bv16>, later: seq<bv16>, at: nat, c: bv32)
    requires at + |Encode16(c)| <= |now|
    requires later == if c <= 0xFFFF then now[at := Encode16(c)[0]] else now[at := Encode16(c)[0]][at + 1 := Encode16(c)[1]]
    ensures Replaced(now, later, at, Encode16(c))
  {
    hide HighUnit, LowUnit, TopTen, BottomTen, Below;
  }

  /** One or two units for the code point, stored from position at on. */
  method PutUnits(dst: array<bv16>, at: nat, c: bv32) returns (next: nat)
    requires at + |Encode16(c)| <= dst.Length
    modifies dst
    ensures next == at + |Encode16(c)|
    ensures Replaced(old(dst[..]), dst[..], at, Encode16(c))
  {
    hide HighUnit, LowUnit, TopTen, BottomTen, Below, Replaced;
    if c <= 0xFFFF {
      dst[at] := (c & 0xFFFF) as bv16;
      next := at + 1;
    } else {
      dst[at] := HighUnit(TopTen(Below(c)));
      dst[at + 1] := LowUnit(BottomTen(Below(c)));
      next := at + 2;
    }
    UnitsReplaced(old(dst[..]), dst[..], at, c);
  }

  lemma Utf8Next(src: seq<bv8>, cur: nat)
    requires cur < |src| && Framed(src[cur..])
    ensures var n := CodepointLength(src[cur]);
      && cur + n <= |src| && Framed(src[cur + n..])
      && Utf8ToUtf16(src[cur..]) == Encode16(CodepointOf(src[cur..], n)) + Utf8ToUtf16(src[cur + n..])
  {
    hide Encode16, CodepointOf, CodepointLength;
    assert src[cur..][CodepointLength(src[cur])..] == src[cur + CodepointLength(src[cur])..];
  }

  /** utf8_to_utf16_no_null_terminator; returns the end of what it wrote. */
  method ConvertUtf8ToUtf16NoTerminator(src: seq<bv8>, dst: array<bv16>) returns (end: nat)
    requires Framed(src) && dst.Length >= |Utf8ToUtf16(src)|
    modifies dst
    ensures Stored(Utf8ToUtf16(src), old(dst[..]), dst[..], end, [])
  {
    hide CodepointLength, CodepointOf, Encode16, Stored, Replaced, Framed, Utf8ToUtf16;
    NothingDecodes();
    ghost var all, was := Utf8ToUtf16(src), dst[..];
    var cur: nat := 0;
    end := 0;
    SuffixEnds(src);
    StoreStart(all, was);
    while cur < |src|
      invariant cur <= |src| && end <= |all| && Framed(src[cur..])
      invariant Stored(all, was, dst[..], end, Utf8ToUtf16(src[cur..]))
    {
      Utf8Next(src, cur);
      var n := CodepointLength(src[cur]);
      var codepoint := CodepointOf(src[cur..], n);
      ghost var now, rest, at := dst[..], Utf8ToUtf16(src[cur + n..]), end;
      StoreRoom(all, was, now, end, Encode16(codepoint), rest);
      end := PutUnits(dst, end, codepoint);
      StoreStep(all, was, now, dst[..], at, Encode16(codepoint), rest);
      cur := cur + n;
    }
  }

  method ConvertUtf8ToUtf16(src: seq<bv8>, dst: array<bv16>)
    requires Framed(src) && dst.Length > |Utf8ToUtf16(src)|
    modifies dst
    ensures Written(old(dst[..]), dst[..], Utf8ToUtf16(src), 0)
  {
    hide Stored, Written, Utf8ToUtf16;
    var end := ConvertUtf8ToUtf16NoTerminator(src, dst);
    StoreEnd(Utf8ToUtf16(src), old(dst[..]), dst[..], end);
    Terminated(Utf8ToUtf16(src), old(dst[..]), dst[..], end, 0);
    dst[end] := 0;
  }

  /** The exact number of units, or -1 if the last code point is cut off. */
  method Utf8ToUtf16Length(src: seq<bv8>) returns (length: int)
    ensures length == if Framed(src) then |Utf8ToUtf16(src)| else -1
  {
    hide CodepointLength, CodepointOf;
    var cur: nat := 0;
    length := 0;
    assert src[0..] == src;
    while cur < |src|
      invariant Framed(src) <==> cur <= |src| && Framed(src[cur..])
      invariant Framed(src) ==> |Utf8ToUtf16(src)| == length + |Utf8ToUtf16(src[cur..])|
      decreases |src| - cur
    {
      length := length + 1;
      var n := CodepointLength(src[cur]);
      if cur + n <= |src| {
        assert src[cur..][n..] == src[cur + n..];
        var codepoint := CodepointOf(src[cur..], n);
        if codepoint > 0xFFFF {
          length := length + 1;
        }
      }
      cur := cur + n;
    }
    if cur != |src| {
      return -1;
    }
  }

  method ConvertUtf8ToUtf32(src: seq<bv8>, dst: array<bv32>, signedChar: bool)
    requires FramedByOnes(src) && dst.Length > |Utf8ToUtf32(src)|
    modifies dst
    ensures if src == [] then dst[..] == old(dst[..]) else Written(old(dst[..]), dst[..], Utf8ToUtf32(src), 0)
  {
    hide NumToRead, Spelled, Stored, Written, Replaced, FramedByOnes, Utf8ToUtf32;
    NothingDecodes();
    if |src| == 0 {
      return;
    }
    ghost var all, was := Utf8ToUtf32(src), dst[..];
    var cur: nat, end: nat := 0, 0;
    SuffixEnds(src);
    StoreStart(all, was);
    while cur < |src|
      invariant cur <= |src| && end <= |all| && FramedByOnes(src[cur..])
      invariant Stored(all, was, dst[..], end, Utf8ToUtf32(src[cur..]))
    {
      OnesNext(src, cur);
      var utf32, numRead := Utf32At(src, cur, signedChar);
      ghost var now, rest := dst[..], Utf8ToUtf32(src[cur + numRead..]);
      StoreRoom(all, was, now, end, [utf32], rest);
      dst[end] := utf32;
      OneReplaced(now, dst[..], end, utf32);
      StoreStep(all, was, now, dst[..], end, [utf32], rest);
      end := end + 1;
      cur := cur + numRead;
    }
    StoreEnd(all, was, dst[..], end);
    Terminated(all, was, dst[..], end, 0);
    dst[end] := 0;
  }

  lemma OneReplaced<T>(now: seq<T>, later: seq<T>, cur: nat, x: T)
    requires cur < |now| && later == now[cur := x]
    ensures Replaced(now, later, cur, [x])
  {
  }

  lemma OnesNext(src: seq<bv8>, cur: nat)
    requires cur < |src| && FramedByOnes(src[cur..])
    ensures var n := NumToRead(src[cur]);
      && n <= 6 && cur + n <= |src| && FramedByOnes(src[cur + n..])
      && Utf8ToUtf32(src[cur..]) == [Spelled(src[cur..], n)] + Utf8ToUtf32(src[cur + n..])
  {
    hide Spelled, NumToRead;
    assert src[cur..][NumToRead(src[cur])..] == src[cur + NumToRead(src[cur])..];
  }

  /** Exact when the bytes are framed by their leading ones. */
  method Utf8ToUtf32Length(src: seq<bv8>, signedChar: bool) returns (length: nat)
    ensures FramedByOnes(src) ==> length == |Utf8ToUtf32(src)|
  {
    hide NumToRead, Spelled;
    length := 0;
    var cur: nat := 0;
    assert src[0..] == src;
    while cur < |src|
      invariant FramedByOnes(src) ==> cur <= |src| && FramedByOnes(src[cur..])
      invariant FramedByOnes(src) ==> |Utf8ToUtf32(src)| == length + |Utf8ToUtf32(src[cur..])|
      decreases |src| - cur
    {
      var numToSkip := CountLeadingOnes(src[cur], signedChar);
      if FramedByOnes(src) {
        assert src[cur..][numToSkip..] == src[cur + numToSkip..];
      }
      cur := cur + numToSkip;
      length := length + 1;
    }
  }

  method CountLeadingOnes(b: bv8, signedChar: bool) returns (numToSkip: nat)
    ensures numToSkip == NumToRead(b)
  {
    hide Wide, BitMask, IgnoreMask, Promoted, NumToRead, BitSet, With, Half;
    StartMasks(b, signedChar);
    numToSkip := 1;
    var firstChar := Promoted(b, signedChar);
    if !BitSet(firstChar, 0x80) {
      AsciiIsOneByte(b);
      return;
    }
    var mask: bv32 := 0x40;
    MaskStep(b, signedChar, 1);
    while BitSet(firstChar, mask)
      invariant 1 <= numToSkip <= NumToRead(b) && mask == BitMask(numToSkip)
      invariant BitSet(firstChar, mask) <==> numToSkip < NumToRead(b)
      decreases 8 - numToSkip
    {
      MaskStep(b, signedChar, numToSkip);
      if numToSkip < 7 {
        MaskStep(b, signedChar, numToSkip + 1);
      } else {
        NoMoreBits(firstChar);
      }
      numToSkip := numToSkip + 1;
      mask := Half(mask);
    }
  }

  lemma NoMoreBits(x: bv32)
    ensures !BitSet(x, BitMask(8))
  {
  }

  // ------------------------------------------------------------ the bounded converter

  /** Units of the longest run of whole code points that fits into n units. */
  function FitLength(s: seq<bv8>, n: nat): (k: nat)
    requires Framed(s)
    ensures k <= n && k <= |Utf8ToUtf16(s)|
  {
    if s == [] then 0
    else
      var len := CodepointLength(s[0]);
      var units := |Encode16(CodepointOf(s, len))|;
      if units > n then 0 else units + FitLength(s[len..], n - units)
  }

  /** k units hold some number of whole code points of s. */
  predicate Boundary(s: seq<bv8>, k: nat)
    requires Framed(s)
  {
    k == 0 ||
    (s != [] &&
     var len := CodepointLength(s[0]);
     var units := |Encode16(CodepointOf(s, len))|;
     units <= k && Boundary(s[len..], k - units))
  }

  /** The run is whole, and every longer whole run does not fit: no surrogate pair is ever cut in half. */
  lemma {:induction false} FitIsLongest(s: seq<bv8>, n: nat, k: nat)
    requires Framed(s)
    ensures Boundary(s, FitLength(s, n))
    ensures k <= n && Boundary(s, k) ==> k <= FitLength(s, n)
  {
    hide CodepointLength, CodepointOf, Encode16;
    if s != [] {
      var len := CodepointLength(s[0]);
      var units := |Encode16(CodepointOf(s, len))|;
      if units <= n {
        FitIsLongest(s[len..], n - units, if units <= k then k - units else 0);
      }
    }
  }

  /** The first cur items of all stand at the start of now, and rest is what remains. */
  ghost predicate Matches<T>(all: seq<T>, now: seq<T>, cur: nat, rest: seq<T>) {
    cur <= |all| && cur <= |now| && now[..cur] == all[..cur] && all[cur..] == rest
  }

  lemma MatchStep<T>(all: seq<T>, now: seq<T>, later: seq<T>, cur: nat, next: seq<T>, rest: seq<T>)
    requires Matches(all, now, cur, next + rest) && Replaced(now, later, cur, next)
    ensures Matches(all, later, cur + |next|, rest)
  {
    assert all == all[..cur] + (next + rest);
    assert all[..cur + |next|] == all[..cur] + next;
    assert all[cur + |next|..] == rest;
  }

  lemma MatchKept<T>(all: seq<T>, now: seq<T>, later: seq<T>, cur: nat, rest: seq<T>, x: T)
    requires Matches(all, now, cur, rest) && cur < |now| && later == now[cur := x]
    ensures Matches(all, later, cur, rest)
  {
    assert later[..cur] == now[..cur];
  }

  lemma FitUnfold(s: seq<bv8>, room: nat, rest: seq<bv8>)
    requires s != [] && Framed(s) && Framed(rest) && rest == s[CodepointLength(s[0])..]
    ensures var units := |Encode16(CodepointOf(s, CodepointLength(s[0])))|;
      FitLength(s, room) == if units > room then 0 else units + FitLength(rest, room - units)
  {
    hide Encode16, CodepointOf, CodepointLength, Framed, Utf8ToUtf16;
  }

  lemma FitNext(src: seq<bv8>, cur: nat, room: nat)
    requires cur < |src| && Framed(src[cur..])
    ensures var n := CodepointLength(src[cur]);
      && cur + n <= |src| && Framed(src[cur + n..])
      && var units := |Encode16(CodepointOf(src[cur..], n))|;
         FitLength(src[cur..], room) == if units > room then 0 else units + FitLength(src[cur + n..], room - units)
  {
    hide Encode16, CodepointOf, CodepointLength, Framed, Utf8ToUtf16, FitLength;
    Utf8Next(src, cur);
    var n := CodepointLength(src[cur]);
    assert src[cur..][n..] == src[cur + n..];
    FitUnfold(src[cur..], room, src[cur + n..]);
  }

  lemma NoRoom(s: seq<bv8>)
    requires Framed(s)
    ensures FitLength(s, 0) == 0
  {
  }

  /** utf8_to_utf16_n: converts as many whole code points as fit and returns the end of them. */
  method ConvertUtf8ToUtf16N(src: seq<bv8>, dst: array<bv16>) returns (end: nat)
    requires Framed(src)
    modifies dst
    ensures end == FitLength(src, dst.Length) && dst[..end] == Utf8ToUtf16(src)[..end]
  {
    hide CodepointLength, CodepointOf, HighUnit, LowUnit, TopTen, BottomTen, Below, Matches, Replaced, FitLength,
      Utf8ToUtf16, Framed;
    NothingDecodes();
    ghost var all := Utf8ToUtf16(src);
    var cur: nat := 0;
    end := 0;
    SuffixEnds(src);
    assert Matches(all, dst[..], 0, all) by { MatchStart(all, dst[..]); }
    while cur < |src| && end < dst.Length
      invariant cur <= |src| && end <= dst.Length && Framed(src[cur..])
      invariant Matches(all, dst[..], end, Utf8ToUtf16(src[cur..]))
      invariant FitLength(src, dst.Length) == end + FitLength(src[cur..], dst.Length - end)
    {
      Utf8Next(src, cur);
      FitNext(src, cur, dst.Length - end);
      var n := CodepointLength(src[cur]);
      var codepoint := CodepointOf(src[cur..], n);
      ghost var now, rest, at := dst[..], Utf8ToUtf16(src[cur + n..]), end;
      if codepoint <= 0xFFFF {
        dst[end] := (codepoint & 0xFFFF) as bv16;
        end := end + 1;
      } else {
        dst[end] := HighUnit(TopTen(Below(codepoint)));
        end := end + 1;
        if end >= dst.Length {
          MatchKept(all, now, dst[..], at, Encode16(codepoint) + rest, dst[at]);
          MatchEnd(all, dst[..], at, Encode16(codepoint) + rest);
          return end - 1;
        }
        dst[end] := LowUnit(BottomTen(Below(codepoint)));
        end := end + 1;
      }
      assert Replaced(now, dst[..], at, Encode16(codepoint)) by { UnitsReplaced(now, dst[..], at, codepoint); }
      MatchStep(all, now, dst[..], at, Encode16(codepoint), rest);
      cur := cur + n;
    }
    MatchEnd(all, dst[..], end, Utf8ToUtf16(src[cur..]));
    if cur < |src| {
      NoRoom(src[cur..]);
    } else {
      NothingLeft(dst.Length - end);
    }
  }

  lemma MatchStart<T>(all: seq<T>, now: seq<T>)
    ensures Matches(all, now, 0, all)
  {
  }

  lemma MatchEnd<T>(all: seq<T>, now: seq<T>, cur: nat, rest: seq<T>)
    requires Matches(all, now, cur, rest)
    ensures cur <= |all| && cur <= |now| && now[..cur] == all[..cur]
  {
  }

  lemma NothingLeft(room: nat)
    ensures FitLength([], room) == 0
  {
  }
}
