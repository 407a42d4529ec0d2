/** What a chunked body is as text (section 3.6.1 of RFC 2616), and that the machine
    completes exactly on such bodies. */
module ChunkedTexts {
  import opened Words
  import opened ChunkedBody

  // ----- Digits -----

  const LOWER_DIGITS := "0123456789abcdef"
  const UPPER_DIGITS := "0123456789ABCDEF"

  predicate HexDigitIs(c: byte, v: nat) {
    v < 16 && (LOWER_DIGITS[v] as int == c || UPPER_DIGITS[v] as int == c)
  }

  ghost predicate HexDigit(c: byte) {
    exists v: nat :: HexDigitIs(c, v)
  }

  // What is read as a digit of a size.
  ghost predicate SizeByte(c: byte) {
    HexDigit(c) || c >= 128
  }

  ghost function DigitValue(c: byte): (v: nat)
    requires SizeByte(c)
    ensures v < 16
  {
    if HexDigit(c) then (var v: nat :| HexDigitIs(c, v); v) else 0
  }

  lemma DigitPlaces(c: byte, v: nat)
    ensures HexDigitIs(c, v) ==> Unhex(c) == v && c < 128
    ensures Unhex(c) == v && c < 128 ==> HexDigitIs(c, v)
  {
  }

  /** A byte is read as a digit exactly if it is a hexadecimal digit, which then has its
      own value, or is above 127, which then counts as zero. */
  lemma UnhexMeaning(c: byte)
    ensures Unhex(c) >= 0 <==> SizeByte(c)
    ensures SizeByte(c) ==> Unhex(c) == DigitValue(c)
    ensures HexDigit(c) ==> HexDigitIs(c, DigitValue(c)) && c < 128
    ensures c >= 128 ==> DigitValue(c) == 0
  {
    hide Unhex, HexDigitIs;
    if HexDigit(c) {
      var v: nat :| HexDigitIs(c, v);
      DigitPlaces(c, v);
      DigitPlaces(c, DigitValue(c));
    } else if c < 128 && Unhex(c) >= 0 {
      DigitPlaces(c, Unhex(c));
    }
    if c >= 128 {
      HighIsZero(c);
    }
  }

  lemma HighIsZero(c: byte)
    requires c >= 128
    ensures Unhex(c) == 0
  {
  }

  ghost function HexValue(digits: seq<byte>): nat
    requires forall i :: 0 <= i < |digits| ==> SizeByte(digits[i])
  {
    if digits == [] then 0 else HexValue(digits[..|digits| - 1]) * 16 + DigitValue(digits[|digits| - 1])
  }

  ghost predicate SizeBytes(digits: seq<byte>) {
    forall i :: 0 <= i < |digits| ==> SizeByte(digits[i])
  }

  // ----- Sizes of any length -----

  predicate AtSizeLine(p: Parser) {
    p.state == ChunkSizeStart && p.nread == 0 && p.errno == HPE_OK
  }

  const UINT60_SPAN := 0x1000_0000_0000_0000

  lemma NextLow(top: nat, low: nat, digit: nat)
    requires low < UINT60_SPAN && digit < 16
    ensures ((top * UINT60_SPAN + low) * 16 + digit) % UINT64_SPAN == low * 16 + digit
  {
    assert (top * UINT60_SPAN + low) * 16 + digit == UINT64_SPAN * top + (low * 16 + digit);
  }

  // Which overflows of one step go unnoticed: the new low 64 bits are the old low 60
  // with a digit behind them, and must not be less than the old 64.
  lemma MissedStepIff(size: nat, digit: nat)
    requires size < ULLONG_MAX && digit < 16
    ensures var top, low := size / UINT60_SPAN, size % UINT60_SPAN;
            (NextSize(size, digit).Some? && NextSize(size, digit).value != size * 16 + digit) <==>
            top > 0 && 15 * low + digit >= top * UINT60_SPAN && 16 * low + digit != ULLONG_MAX
  {
    NextLow(size / UINT60_SPAN, size % UINT60_SPAN, digit);
  }

  ghost function LowValue(digits: seq<byte>): nat
    requires SizeBytes(digits)
  {
    HexValue(digits) % UINT64_SPAN
  }

  lemma LowStep(digits: seq<byte>)
    requires digits != [] && SizeBytes(digits)
    ensures var n := |digits| - 1;
            && LowValue(digits) == (LowValue(digits[..n]) * 16 + DigitValue(digits[n])) % UINT64_SPAN
            && (n == 0 ==> LowValue(digits) == DigitValue(digits[0]))
  {
    hide DigitValue;
    var n := |digits| - 1;
    assert HexValue(digits) == HexValue(digits[..n]) * 16 + DigitValue(digits[n]);
    LowOfNext(HexValue(digits[..n]), DigitValue(digits[n]));
  }

  lemma LowOfNext(v: nat, d: nat)
    ensures (v * 16 + d) % UINT64_SPAN == (v % UINT64_SPAN * 16 + d) % UINT64_SPAN
  {
    assert v * 16 + d == v % UINT64_SPAN * 16 + d + UINT64_SPAN * (v / UINT64_SPAN * 16);
  }

  // The size read so far, as long as every step is let through.
  ghost predicate LetThrough(digits: seq<byte>)
    requires SizeBytes(digits)
  {
    var n := |digits| - 1;
    n <= 0 || (LetThrough(digits[..n]) && NextSize(LowValue(digits[..n]), DigitValue(digits[n])).Some?)
  }

  lemma DigitNext(p: Parser, ch: byte)
    requires p.Valid() && p.state == ChunkSize && p.errno == HPE_OK && p.nread + 1 <= HTTP_MAX_HEADER_SIZE && SizeByte(ch)
    ensures var next := NextSize(p.contentLength, DigitValue(ch));
            var f := FeedByte(p, ch);
            if next == None then f.p.errno != HPE_OK
            else f == Fed(p.(contentLength := next.value, nread := p.nread + 1), [])
  {
    hide NextSize;
    UnhexMeaning(ch);
    assert ch != CR;
  }

  lemma DigitFirst(p: Parser, ch: byte)
    requires p.Valid() && AtSizeLine(p) && SizeByte(ch)
    ensures FeedByte(p, ch) == Fed(Parser(ChunkSize, DigitValue(ch), 1, HPE_OK), [])
  {
    UnhexMeaning(ch);
  }

  lemma {:induction false} AnyDigitsFeed(p: Parser, digits: seq<byte>)
    requires p.Valid() && AtSizeLine(p)
    requires digits != [] && SizeBytes(digits) && |digits| <= HTTP_MAX_HEADER_SIZE
    ensures var q := Feed(p, digits).p;
            && (q.errno == HPE_OK <==> LetThrough(digits))
            && (q.errno == HPE_OK ==> q == Parser(ChunkSize, LowValue(digits), |digits|, HPE_OK))
    decreases |digits|
  {
    hide Feed, LowValue, FeedByte, NextSize, DigitValue;
    var n := |digits| - 1;
    var front, last := digits[..n], digits[n];
    assert digits == front + [last];
    FeedSnoc(p, front, last);
    LowStep(digits);
    if front == [] {
      FeedNothing(p);
      DigitFirst(p, last);
    } else {
      AnyDigitsFeed(p, front);
      var q := Feed(p, front).p;
      if q.errno == HPE_OK {
        DigitNext(q, last);
        NextIsLow(digits);
      } else {
        StoppedByte(q, last);
      }
    }
  }

  lemma StoppedByte(p: Parser, ch: byte)
    requires p.Valid() && p.errno != HPE_OK
    ensures FeedByte(p, ch) == Fed(p, [])
  {
  }

  lemma NextIsLow(digits: seq<byte>)
    requires digits != [] && SizeBytes(digits)
    ensures var next := NextSize(LowValue(digits[..|digits| - 1]), DigitValue(digits[|digits| - 1]));
            next == None || next == Some(LowValue(digits))
  {
    hide LowValue, DigitValue;
    LowStep(digits);
  }

  function Pow16(n: nat): (p: nat)
    ensures p > 0
  {
    if n == 0 then 1 else 16 * Pow16(n - 1)
  }

  lemma Pow16Word()
    ensures Pow16(16) == UINT64_SPAN
  {
    assert Pow16(4) == 0x1_0000;
    assert Pow16(8) == 0x1_0000_0000;
    assert Pow16(12) == 0x1_0000_0000_0000;
  }

  ghost predicate AllF(digits: seq<byte>) {
    forall i :: 0 <= i < |digits| ==> SizeByte(digits[i]) && DigitValue(digits[i]) == 15
  }

  lemma {:induction false} HexBound(digits: seq<byte>)
    requires SizeBytes(digits)
    ensures HexValue(digits) < Pow16(|digits|)
    ensures HexValue(digits) == Pow16(|digits|) - 1 <==> AllF(digits)
    decreases |digits|
  {
    if digits != [] {
      var n := |digits| - 1;
      HexBound(digits[..n]);
      assert AllF(digits) <==> AllF(digits[..n]) && DigitValue(digits[n]) == 15;
    }
  }

  lemma ScaleStep(a: nat, p: nat, b: nat, d: nat)
    ensures (a * p + b) * 16 + d == a * (16 * p) + (b * 16 + d)
  {
  }

  lemma {:induction false} HexSplit(a: seq<byte>, b: seq<byte>)
    requires SizeBytes(a) && SizeBytes(b)
    ensures HexValue(a + b) == HexValue(a) * Pow16(|b|) + HexValue(b)
    decreases |b|
  {
    hide DigitValue;
    if b == [] {
      assert a + b == a;
    } else {
      var n := |b| - 1;
      var x, p, y, d := HexValue(a), Pow16(n), HexValue(b[..n]), DigitValue(b[n]);
      assert (a + b)[..|a + b| - 1] == a + b[..n] && (a + b)[|a + b| - 1] == b[n];
      HexSplit(a, b[..n]);
      HexSnoc(a + b);
      HexSnoc(b);
      hide HexValue;
      ScaleStep(x, p, y, d);
      assert Pow16(|b|) == 16 * p;
    }
  }

  lemma HexSnoc(digits: seq<byte>)
    requires digits != [] && SizeBytes(digits)
    ensures HexValue(digits) == HexValue(digits[..|digits| - 1]) * 16 + DigitValue(digits[|digits| - 1])
  {
  }

  lemma LowPart(high: nat, low: nat)
    requires low < UINT64_SPAN
    ensures (high * UINT64_SPAN + low) % UINT64_SPAN == low
  {
  }

  // The low 64 bits are the last sixteen digits.
  lemma LowIsLast(digits: seq<byte>)
    requires |digits| >= 16 && SizeBytes(digits)
    ensures LowValue(digits) == HexValue(digits[|digits| - 16..]) < UINT64_SPAN
  {
    hide HexValue, Pow16, AllF;
    var a, b := digits[..|digits| - 16], digits[|digits| - 16..];
    assert digits == a + b;
    Pow16Word();
    HexSplit(a, b);
    HexBound(b);
    LowPart(HexValue(a), HexValue(b));
  }

  lemma LowIsAll(digits: seq<byte>)
    requires |digits| <= 16 && SizeBytes(digits)
    ensures LowValue(digits) == HexValue(digits)
    ensures |digits| < 16 ==> LowValue(digits) < ULLONG_MAX
  {
    hide HexValue, Pow16, AllF;
    HexBound(digits);
    Pow16Grows(|digits|, 16);
    Pow16Word();
    if |digits| < 16 {
      Pow16Grows(|digits|, 15);
    }
  }

  lemma {:induction false} Pow16Grows(m: nat, n: nat)
    requires m <= n
    ensures Pow16(m) <= Pow16(n) && 16 * Pow16(n) == Pow16(n + 1)
  {
    if m < n {
      Pow16Grows(m, n - 1);
    }
  }

  // How the first digit that differs from the one before it differs; 0 if none does.
  ghost function FirstChange(digits: seq<byte>): int
    requires SizeBytes(digits)
  {
    var n := |digits| - 1;
    if n < 1 then 0 else
    var c := FirstChange(digits[..n]);
    if c != 0 then c else DigitValue(digits[n]) - DigitValue(digits[n - 1])
  }

  // It tells how the value changes when the first digit makes way for another at the end.
  lemma {:induction false} FirstChangeCompares(digits: seq<byte>)
    requires digits != [] && SizeBytes(digits)
    ensures var n := |digits| - 1;
            var before, after := HexValue(digits[..n]), HexValue(digits[1..]);
            && (FirstChange(digits) < 0 <==> after < before)
            && (FirstChange(digits) > 0 <==> after > before)
    decreases |digits|
  {
    var n := |digits| - 1;
    if n > 0 {
      FirstChangeCompares(digits[..n]);
      assert digits[1..][..n - 1] == digits[..n][1..];
    } else {
      assert digits[..n] == digits[1..] == [];
    }
  }

  // The tests on the digits that end here: not sixteen times F, and no fall before a rise.
  ghost predicate PassesAt(digits: seq<byte>, end: nat)
    requires end <= |digits| && SizeBytes(digits)
  {
    && (end >= 16 ==> !AllF(digits[end - 16..end]))
    && (end >= 17 ==> FirstChange(digits[end - 17..end]) >= 0)
  }

  lemma TopPasses(digits: seq<byte>)
    requires |digits| >= 16 && SizeBytes(digits)
    ensures LowValue(digits) == ULLONG_MAX <==> AllF(digits[|digits| - 16..|digits|])
  {
    hide HexValue, LowValue, AllF, Pow16;
    var last := digits[|digits| - 16..];
    LowIsLast(digits);
    Pow16Word();
    HexBound(last);
    assert digits[|digits| - 16..|digits|] == last;
  }

  lemma FallPasses(digits: seq<byte>)
    requires |digits| >= 17 && SizeBytes(digits)
    ensures LowValue(digits) < LowValue(digits[..|digits| - 1]) <==> FirstChange(digits[|digits| - 17..|digits|]) < 0
  {
    hide HexValue, LowValue, FirstChange;
    var front, last := digits[..|digits| - 1], digits[|digits| - 17..];
    LowIsLast(digits);
    LowIsLast(front);
    FirstChangeCompares(last);
    assert digits[|digits| - 17..|digits|] == last;
    assert last[..16] == front[|front| - 16..] && last[1..] == digits[|digits| - 16..];
  }

  lemma ShortPasses(digits: seq<byte>)
    requires 0 < |digits| <= 16 && SizeBytes(digits)
    ensures LowValue(digits[..|digits| - 1]) <= LowValue(digits)
    ensures |digits| < 16 ==> LowValue(digits) < ULLONG_MAX
  {
    hide HexValue, LowValue;
    LowIsAll(digits);
    LowIsAll(digits[..|digits| - 1]);
    ShortGrows(digits);
  }

  ghost predicate Passes(digits: seq<byte>)
    requires SizeBytes(digits)
  {
    forall end: nat :: 1 <= end <= |digits| ==> PassesAt(digits, end)
  }

  lemma StepPasses(digits: seq<byte>)
    requires digits != [] && SizeBytes(digits)
    ensures var n := |digits| - 1;
            (n == 0 || NextSize(LowValue(digits[..n]), DigitValue(digits[n])).Some?) <==> PassesAt(digits, |digits|)
  {
    hide HexValue, LowValue, AllF, FirstChange, DigitValue;
    LowStep(digits);
    if |digits| >= 16 {
      TopPasses(digits);
    }
    if |digits| >= 17 {
      FallPasses(digits);
    } else {
      ShortPasses(digits);
    }
  }

  lemma ShortGrows(digits: seq<byte>)
    requires digits != [] && SizeBytes(digits)
    ensures HexValue(digits[..|digits| - 1]) <= HexValue(digits)
  {
  }

  lemma {:induction false} LetThroughIff(digits: seq<byte>)
    requires SizeBytes(digits)
    ensures LetThrough(digits) <==> Passes(digits)
    decreases |digits|
  {
    hide PassesAt, LowValue, NextSize;
    if digits != [] {
      var n := |digits| - 1;
      LetThroughIff(digits[..n]);
      StepPasses(digits);
      forall end: nat | 1 <= end <= n
        ensures PassesAt(digits, end) <==> PassesAt(digits[..n], end)
      {
        PassesInPrefix(digits, n, end);
      }
    }
  }

  lemma PassesInPrefix(digits: seq<byte>, n: nat, end: nat)
    requires end <= n <= |digits| && SizeBytes(digits)
    ensures PassesAt(digits, end) <==> PassesAt(digits[..n], end)
  {
    assert end >= 16 ==> digits[..n][end - 16..end] == digits[end - 16..end];
    assert end >= 17 ==> digits[..n][end - 17..end] == digits[end - 17..end];
  }

  /** A size of any length is accepted exactly if no sixteen digits in a row are F and in
      no seventeen the first change is a fall. What is read is the value modulo 2^64, so
      an accepted size is wrong exactly if it does not fit. */
  lemma SizeAcceptedIff(p: Parser, digits: seq<byte>)
    requires p.Valid() && AtSizeLine(p) && digits != [] && SizeBytes(digits) && |digits| <= HTTP_MAX_HEADER_SIZE
    ensures var q := Feed(p, digits).p;
            && (q.errno == HPE_OK <==> Passes(digits))
            && (Passes(digits) ==> q.contentLength == HexValue(digits) % UINT64_SPAN)
            && (Passes(digits) ==> (q.contentLength != HexValue(digits) <==> HexValue(digits) >= UINT64_SPAN))
  {
    hide Feed, PassesAt, LetThrough, HexValue;
    AnyDigitsFeed(p, digits);
    LetThroughIff(digits);
  }

  lemma {:induction false} SmallLetThrough(digits: seq<byte>)
    requires SizeBytes(digits) && HexValue(digits) < ULLONG_MAX
    ensures LetThrough(digits) && LowValue(digits) == HexValue(digits)
    decreases |digits|
  {
    hide DigitValue;
    if digits != [] {
      SmallLetThrough(digits[..|digits| - 1]);
    }
  }

  /** The size is read correctly exactly if it is below 2^64 - 1. */
  lemma SizeReadIff(p: Parser, digits: seq<byte>)
    requires p.Valid() && AtSizeLine(p) && digits != [] && SizeBytes(digits) && |digits| <= HTTP_MAX_HEADER_SIZE
    ensures (Feed(p, digits).p.errno == HPE_OK && Feed(p, digits).p.contentLength == HexValue(digits))
       <==> HexValue(digits) < ULLONG_MAX
  {
    hide LetThrough, HexValue, LowValue, DigitValue, Feed;
    AnyDigitsFeed(p, digits);
    if HexValue(digits) < ULLONG_MAX {
      SmallLetThrough(digits);
    }
  }

  function Ones(n: nat): seq<byte> {
    seq(n, _ => 49)
  }

  function OnesValue(n: nat): nat {
    if n == 0 then 0 else OnesValue(n - 1) * 16 + 1
  }

  lemma OneIsDigit()
    ensures SizeByte(49) && DigitValue(49) == 1
  {
    UnhexMeaning(49);
  }

  lemma {:induction false} OnesRead(n: nat)
    ensures SizeBytes(Ones(n)) && HexValue(Ones(n)) == OnesValue(n)
  {
    hide DigitValue, SizeByte;
    OneIsDigit();
    if n > 0 {
      assert Ones(n)[..n - 1] == Ones(n - 1);
      OnesRead(n - 1);
    }
  }

  lemma OnesNumbers()
    ensures OnesValue(16) == 0x1111_1111_1111_1111 && OnesValue(17) == 0x1_1111_1111_1111_1111
  {
    assert OnesValue(4) == 0x1111;
    assert OnesValue(8) == 0x1111_1111;
    assert OnesValue(12) == 0x1111_1111_1111;
  }

  // Seventeen ones: the overflow goes unnoticed and a wrong size is accepted.
  lemma OverflowUnnoticed()
    ensures SizeBytes(Ones(17)) && Feed(START, Ones(17)).p.errno == HPE_OK
    ensures Feed(START, Ones(17)).p.contentLength != HexValue(Ones(17))
  {
    hide Feed, HexValue, OnesValue, LetThrough, DigitValue, SizeByte, NextSize;
    OnesRead(16);
    OnesRead(17);
    OnesNumbers();
    SmallLetThrough(Ones(16));
    AnyDigitsFeed(START, Ones(16));
    assert Ones(17) == Ones(16) + [49];
    FeedSnoc(START, Ones(16), 49);
    OneIsDigit();
    DigitNext(Feed(START, Ones(16)).p, 49);
    OnesOverflow();
  }

  lemma OnesOverflow()
    ensures NextSize(0x1111_1111_1111_1111, 1) == Some(0x1111_1111_1111_1111)
  {
  }

  // ----- Well-formed bodies -----

  lemma {:induction false} ParametersFeed(p: Parser, text: seq<byte>)
    requires p.Valid() && p.state == ChunkParameters && p.errno == HPE_OK && CR !in text
    requires p.nread + |text| <= HTTP_MAX_HEADER_SIZE
    ensures Feed(p, text) == Fed(p.(nread := p.nread + |text|), [])
    decreases |text|
  {
    if text != [] {
      var q := p.(nread := p.nread + 1);
      assert FeedByte(p, text[0]) == Fed(q, []);
      assert CR !in text[1..];
      ParametersFeed(q, text[1..]);
    }
  }

  lemma LineEndFeeds(p: Parser)
    requires p.Valid() && (p.state == ChunkSize || p.state == ChunkParameters) && p.errno == HPE_OK
    requires p.nread + 2 <= HTTP_MAX_HEADER_SIZE
    ensures Feed(p, [CR, LF]) ==
            Fed(p.(nread := 0, state := if p.contentLength == 0 then TrailerStart else ChunkData), [])
  {
    var q := p.(nread := p.nread + 1, state := ChunkSizeAlmostDone);
    var r := p.(nread := 0, state := if p.contentLength == 0 then TrailerStart else ChunkData);
    assert FeedByte(p, CR) == Fed(q, []);
    assert FeedByte(q, LF) == Fed(r, []);
    FeedTwo(p, CR, LF, q, r);
  }

  lemma ParametersStart(q: Parser, text: seq<byte>)
    requires q.Valid() && q.state == ChunkSize && q.errno == HPE_OK && text != [] && CR !in text
    requires text[0] == SEMICOLON || text[0] == SPACE
    requires q.nread + |text| <= HTTP_MAX_HEADER_SIZE
    ensures Feed(q, text) == Fed(q.(state := ChunkParameters, nread := q.nread + |text|), [])
  {
    var r := q.(nread := q.nread + 1, state := ChunkParameters);
    assert FeedByte(q, text[0]) == Fed(r, []);
    assert CR !in text[1..];
    ParametersFeed(r, text[1..]);
  }

  lemma DataEndFeeds(p: Parser)
    requires p.Valid() && p.state == ChunkDataAlmostDone && p.errno == HPE_OK
    ensures Feed(p, [CR, LF]) == Fed(p.(nread := 0, state := ChunkSizeStart), [])
  {
    FeedTwo(p, CR, LF, p.(state := ChunkDataDone), p.(nread := 0, state := ChunkSizeStart));
  }

  lemma TrailerEndFeeds(p: Parser)
    requires p.Valid() && p.state == TrailerStart && p.nread == 0 && p.errno == HPE_OK
    ensures Feed(p, [CR, LF]) == Fed(p.(nread := 2, state := MessageComplete), [])
  {
    FeedTwo(p, CR, LF, p.(nread := 1, state := TrailersAlmostDone), p.(nread := 2, state := MessageComplete));
  }

  // A size line: digits, perhaps parameters, end of line.
  datatype SizeLine = SizeLine(digits: seq<byte>, parameters: seq<byte>) {
    ghost predicate Valid() {
      && digits != [] && SizeBytes(digits) && Passes(digits)
      && |digits| + |parameters| + 2 <= HTTP_MAX_HEADER_SIZE
      && (parameters != [] ==> parameters[0] == SEMICOLON || parameters[0] == SPACE)
      && CR !in parameters
    }

    // What is read as the size: the value itself unless it overflows unnoticed.
    ghost function Size(): nat
      requires SizeBytes(digits)
    {
      HexValue(digits) % UINT64_SPAN
    }

    function Text(): seq<byte> {
      digits + parameters + [CR, LF]
    }
  }

  // The machine behind a size line.
  ghost function Behind(line: SizeLine): (p: Parser)
    requires line.Valid()
    ensures p.Valid()
  {
    SizeFits(line);
    Parser(if line.Size() == 0 then TrailerStart else ChunkData, line.Size(), 0, HPE_OK)
  }

  lemma SizeFits(line: SizeLine)
    requires line.Valid()
    ensures line.Size() < ULLONG_MAX
  {
    hide HexValue, Passes, DigitValue;
    DigitsOfLine(START, line);
    hide Feed;
  }

  lemma DigitsOfLine(p: Parser, line: SizeLine)
    requires p.Valid() && AtSizeLine(p) && line.Valid()
    ensures Feed(p, line.digits) == Fed(Parser(ChunkSize, line.Size(), |line.digits|, HPE_OK), [])
  {
    hide Feed, LetThrough, HexValue, PassesAt, DigitValue;
    LetThroughIff(line.digits);
    AnyDigitsFeed(p, line.digits);
    NoBodyInDigits(p, line.digits);
  }

  lemma {:induction false} NoBodyInDigits(p: Parser, digits: seq<byte>)
    requires p.Valid() && AtSizeLine(p) && SizeBytes(digits) && |digits| <= HTTP_MAX_HEADER_SIZE
    ensures Feed(p, digits).body == []
    decreases |digits|
  {
    hide Feed, HexValue, LowValue, LetThrough, DigitValue, FeedByte;
    if digits == [] {
      FeedNothing(p);
    } else {
      var n := |digits| - 1;
      assert digits == digits[..n] + [digits[n]];
      NoBodyInDigits(p, digits[..n]);
      FeedSnoc(p, digits[..n], digits[n]);
      if n == 0 {
        FeedNothing(p);
        DigitFirst(p, digits[n]);
      } else {
        AnyDigitsFeed(p, digits[..n]);
        NoBodyInByte(Feed(p, digits[..n]).p, digits[n]);
      }
    }
  }

  lemma NoBodyInByte(p: Parser, ch: byte)
    requires p.Valid() && (p.errno != HPE_OK || p.state == ChunkSize)
    ensures FeedByte(p, ch).body == []
  {
  }

  // Behind the digits: parameters, if any, and the line end.
  lemma RestOfLine(q: Parser, parameters: seq<byte>)
    requires q.Valid() && q.state == ChunkSize && q.errno == HPE_OK && q.nread + |parameters| + 2 <= HTTP_MAX_HEADER_SIZE
    requires (parameters != [] ==> parameters[0] == SEMICOLON || parameters[0] == SPACE) && CR !in parameters
    ensures Feed(q, parameters + [CR, LF]) ==
            Fed(q.(nread := 0, state := if q.contentLength == 0 then TrailerStart else ChunkData), [])
  {
    hide Feed;
    FeedConcat(q, parameters, [CR, LF]);
    if parameters == [] {
      FeedNothing(q);
      LineEndFeeds(q);
    } else {
      ParametersStart(q, parameters);
      LineEndFeeds(q.(state := ChunkParameters, nread := q.nread + |parameters|));
    }
  }

  lemma SizeLineFeeds(p: Parser, line: SizeLine)
    requires p.Valid() && AtSizeLine(p) && line.Valid()
    ensures Feed(p, line.Text()) == Fed(Behind(line), [])
  {
    DigitsOfLine(p, line);
    SizeFits(line);
    hide Feed, SizeBytes, Passes, HexValue;
    FeedConcat(p, line.digits, line.parameters + [CR, LF]);
    RestOfLine(Parser(ChunkSize, line.Size(), |line.digits|, HPE_OK), line.parameters);
    assert line.Text() == line.digits + (line.parameters + [CR, LF]);
  }

  datatype Chunk = Chunk(line: SizeLine, data: seq<byte>) {
    ghost predicate Valid() {
      line.Valid() && line.Size() == |data| > 0
    }

    function Text(): seq<byte> {
      line.Text() + data + [CR, LF]
    }
  }

  lemma ChunkFeeds(p: Parser, c: Chunk)
    requires p.Valid() && AtSizeLine(p) && c.Valid()
    ensures Feed(p, c.Text()) == Fed(START, c.data)
  {
    hide Feed, HexValue, Passes, SizeBytes;
    var q := Parser(ChunkData, |c.data|, 0, HPE_OK);
    SizeLineFeeds(p, c.line);
    FeedConcat(p, c.line.Text() + c.data, [CR, LF]);
    FeedConcat(p, c.line.Text(), c.data);
    FeedData(q, c.data);
    DataEndFeeds(Parser(ChunkDataAlmostDone, 0, 0, HPE_OK));
    assert [] + c.data + [] == c.data;
  }

  // Chunks, the line of size zero, and an empty line, which may lack its CR.
  datatype Message = Message(chunks: seq<Chunk>, last: SizeLine, bare: bool) {
    ghost predicate Valid() {
      (forall i :: 0 <= i < |chunks| ==> chunks[i].Valid()) && last.Valid() && last.Size() == 0
    }

    function End(): seq<byte> {
      if bare then [LF] else [CR, LF]
    }

    function Text(): seq<byte>
      decreases |chunks|
    {
      if chunks == [] then last.Text() + End() else chunks[0].Text() + Rest().Text()
    }

    function Payload(): seq<byte>
      decreases |chunks|
    {
      if chunks == [] then [] else chunks[0].data + Rest().Payload()
    }

    function Rest(): Message
      requires chunks != []
    {
      this.(chunks := chunks[1..])
    }
  }

  lemma RestValid(m: Message)
    requires m.Valid() && m.chunks != []
    ensures m.chunks[0].Valid() && m.Rest().Valid()
  {
  }

  lemma EndFeeds(m: Message)
    ensures Feed(Parser(TrailerStart, 0, 0, HPE_OK), m.End()) == Fed(Parser(MessageComplete, 0, |m.End()|, HPE_OK), [])
  {
    var p := Parser(TrailerStart, 0, 0, HPE_OK);
    if m.bare {
      FeedNothing(p);
      FeedSnoc(p, [], LF);
      assert [] + [LF] == [LF];
    } else {
      TrailerEndFeeds(p);
    }
  }

  /** A well-formed chunked body without trailers hands over the chunk data and
      completes the message. */
  lemma {:induction false} WellFormedDecodes(p: Parser, m: Message)
    requires p.Valid() && AtSizeLine(p) && m.Valid()
    ensures Feed(p, m.Text()) == Fed(Parser(MessageComplete, 0, |m.End()|, HPE_OK), m.Payload())
    decreases |m.chunks|
  {
    hide Feed, HexValue;
    if m.chunks == [] {
      SizeLineFeeds(p, m.last);
      FeedConcat(p, m.last.Text(), m.End());
      EndFeeds(m);
    } else {
      RestValid(m);
      ChunkFeeds(p, m.chunks[0]);
      FeedConcat(p, m.chunks[0].Text(), m.Rest().Text());
      WellFormedDecodes(START, m.Rest());
    }
  }

  // ----- Errors -----

  /** Which byte is an error, and which error: a header that has grown too long; a byte
      that is no digit where a size begins, nor ends it; an overflow that is noticed;
      anything else than the line end that is due. */
  lemma ErrorKinds(p: Parser, ch: byte)
    requires p.Valid() && p.Running()
    ensures var e := FeedByte(p, ch).p.errno;
            var counted := p.state != ChunkData && p.state != ChunkDataAlmostDone && p.state != ChunkDataDone;
            if counted && p.nread >= HTTP_MAX_HEADER_SIZE then e == HPE_HEADER_OVERFLOW
            else
              && (e == HPE_INVALID_CHUNK_SIZE <==>
                    !SizeByte(ch) && (p.state == ChunkSizeStart || (p.state == ChunkSize && ch !in {CR, SEMICOLON, SPACE})))
              && (e == HPE_INVALID_CONTENT_LENGTH <==>
                    p.state == ChunkSize && SizeByte(ch) && NextSize(p.contentLength, DigitValue(ch)) == None)
              && (e == HPE_STRICT <==>
                    || (p.state == ChunkDataAlmostDone && ch != CR)
                    || (p.state in {ChunkSizeAlmostDone, ChunkDataDone, TrailersAlmostDone} && ch != LF))
              && e != HPE_HEADER_OVERFLOW
  {
    hide NextSize, DigitValue, SizeByte;
    UnhexMeaning(ch);
    DelimitersAreNoDigits();
  }

  lemma DelimitersAreNoDigits()
    ensures !SizeByte(CR) && !SizeByte(SEMICOLON) && !SizeByte(SPACE)
  {
    UnhexMeaning(CR);
    UnhexMeaning(SEMICOLON);
    UnhexMeaning(SPACE);
  }

  // ----- Nothing else completes -----

  ghost predicate Completes(p: Parser, data: seq<byte>)
    requires p.Valid()
  {
    var q := Feed(p, data).p; q.state == MessageComplete && q.errno == HPE_OK
  }

  // A machine that is not done needs another byte, which must not be an error.
  lemma NextByte(p: Parser, data: seq<byte>)
    requires p.Valid() && p.Running() && Completes(p, data)
    ensures data != [] && Feed(p, data) == Fed(Feed(FeedByte(p, data[0]).p, data[1..]).p,
                                               FeedByte(p, data[0]).body + Feed(FeedByte(p, data[0]).p, data[1..]).body)
    ensures FeedByte(p, data[0]).p.Valid() && FeedByte(p, data[0]).p.errno == HPE_OK && FeedByte(p, data[0]).p.state != TrailerField
    ensures Completes(FeedByte(p, data[0]).p, data[1..])
  {
    hide FeedByte;
    if data != [] {
      FeedByteValid(p, data[0]);
      var q := FeedByte(p, data[0]).p;
      if !q.Running() {
        FeedStopped(q, data[1..]);
      }
    }
  }

  lemma LineEnds(p: Parser, data: seq<byte>)
    requires p.Valid() && p.state == ChunkSizeAlmostDone && p.errno == HPE_OK && Completes(p, data)
    ensures data != [] && data[0] == LF && p.nread + 1 <= HTTP_MAX_HEADER_SIZE
  {
    NextByte(p, data);
  }

  // Inside the parameters: up to the next CR.
  lemma {:induction false} ParametersEnd(p: Parser, data: seq<byte>) returns (text: seq<byte>, rest: seq<byte>)
    requires p.Valid() && p.state == ChunkParameters && p.errno == HPE_OK && Completes(p, data)
    ensures data == text + [CR, LF] + rest && CR !in text && p.nread + |text| + 2 <= HTTP_MAX_HEADER_SIZE
    decreases |data|
  {
    hide Feed;
    NextByte(p, data);
    var q := FeedByte(p, data[0]).p;
    if data[0] == CR {
      LineEnds(q, data[1..]);
      text, rest := [], data[2..];
      assert data == [] + [data[0], data[1]] + data[2..];
    } else {
      text, rest := ParametersEnd(q, data[1..]);
      text := [data[0]] + text;
      assert data == [data[0]] + data[1..];
    }
  }

  // The line ends behind its digits.
  lemma BareLine(p: Parser, read: seq<byte>, data: seq<byte>) returns (line: SizeLine, rest: seq<byte>)
    requires p.Valid() && p.state == ChunkSizeAlmostDone && p.errno == HPE_OK && p.nread == |read| + 1
    requires read != [] && SizeBytes(read) && Passes(read) && Completes(p, data)
    ensures line.Valid() && read + ([CR] + data) == line.Text() + rest
  {
    hide SizeBytes, Passes, Completes;
    LineEnds(p, data);
    line, rest := SizeLine(read, []), data[1..];
    assert data == [LF] + rest;
    assert read + ([CR] + data) == read + [] + [CR, LF] + rest;
  }

  lemma LineWithParameters(p: Parser, read: seq<byte>, ch: byte, data: seq<byte>) returns (line: SizeLine, rest: seq<byte>)
    requires p.Valid() && p.state == ChunkParameters && p.errno == HPE_OK && p.nread == |read| + 1
    requires read != [] && SizeBytes(read) && Passes(read) && Completes(p, data) && (ch == SEMICOLON || ch == SPACE)
    ensures line.Valid() && read + ([ch] + data) == line.Text() + rest
  {
    hide SizeBytes, Passes, Completes;
    var text;
    text, rest := ParametersEnd(p, data);
    line := SizeLine(read, [ch] + text);
    var tail := text + [CR, LF] + rest;
    assert read + ([ch] + data) == read + [ch] + tail;
    assert line.Text() + rest == read + [ch] + tail;
  }

  // Digits were read, of which none was refused; what follows them.
  lemma {:induction false} DigitsEnd(p0: Parser, read: seq<byte>, data: seq<byte>) returns (line: SizeLine, rest: seq<byte>)
    requires p0.Valid() && AtSizeLine(p0) && read != [] && SizeBytes(read) && |read| <= HTTP_MAX_HEADER_SIZE
    requires LetThrough(read)
    requires var p := Parser(ChunkSize, LowValue(read), |read|, HPE_OK); p.Valid() && Completes(p, data)
    ensures line.Valid() && read + data == line.Text() + rest
    decreases |data|
  {
    hide Feed, HexValue, LetThrough, DigitValue, LowValue, Completes, Passes, SizeLine.Valid, FeedByte, NextSize, SizeByte;
    var p := Parser(ChunkSize, LowValue(read), |read|, HPE_OK);
    NextByte(p, data);
    var ch := data[0];
    AfterDigits(p, ch);
    LetThroughIff(read);
    assert data == [ch] + data[1..];
    if ch == CR {
      line, rest := BareLine(FeedByte(p, ch).p, read, data[1..]);
    } else if ch == SEMICOLON || ch == SPACE {
      line, rest := LineWithParameters(FeedByte(p, ch).p, read, ch, data[1..]);
    } else {
      MoreDigits(read, ch);
      line, rest := DigitsEnd(p0, read + [ch], data[1..]);
      assert read + data == read + [ch] + data[1..];
    }
  }

  // What may follow a digit.
  lemma AfterDigits(p: Parser, ch: byte)
    requires p.Valid() && p.state == ChunkSize && p.errno == HPE_OK && FeedByte(p, ch).p.errno == HPE_OK
    ensures p.nread + 1 <= HTTP_MAX_HEADER_SIZE
    ensures ch == CR ==> FeedByte(p, ch).p == p.(state := ChunkSizeAlmostDone, nread := p.nread + 1)
    ensures ch == SEMICOLON || ch == SPACE ==> FeedByte(p, ch).p == p.(state := ChunkParameters, nread := p.nread + 1)
    ensures ch != CR && ch != SEMICOLON && ch != SPACE ==>
              SizeByte(ch) && NextSize(p.contentLength, DigitValue(ch)).Some? &&
              FeedByte(p, ch).p == p.(contentLength := NextSize(p.contentLength, DigitValue(ch)).value, nread := p.nread + 1)
  {
    hide NextSize, DigitValue, SizeByte;
    UnhexMeaning(ch);
  }

  lemma MoreDigits(read: seq<byte>, ch: byte)
    requires read != [] && SizeBytes(read) && LetThrough(read) && SizeByte(ch)
    requires NextSize(LowValue(read), DigitValue(ch)).Some?
    ensures SizeBytes(read + [ch]) && LetThrough(read + [ch])
    ensures NextSize(LowValue(read), DigitValue(ch)) == Some(LowValue(read + [ch]))
  {
    hide LowValue, DigitValue, NextSize;
    var more := read + [ch];
    assert more[..|more| - 1] == read && more[|more| - 1] == ch;
    NextIsLow(more);
  }

  lemma LineFirst(p: Parser, data: seq<byte>) returns (line: SizeLine, rest: seq<byte>)
    requires p.Valid() && AtSizeLine(p) && Completes(p, data)
    ensures line.Valid() && data == line.Text() + rest
    ensures Feed(p, data).p == Feed(Behind(line), rest).p && Feed(p, data).body == Feed(Behind(line), rest).body
    ensures Completes(Behind(line), rest) && |rest| < |data|
  {
    NextByte(p, data);
    var first := data[..1];
    assert data == [data[0]] + data[1..];
    UnhexMeaning(data[0]);
    OneDigitRead(p, data[0]);
    hide Feed, HexValue, LowValue, DigitValue, FeedByte, SizeLine.Valid, Behind;
    line, rest := DigitsEnd(p, [data[0]], data[1..]);
    SizeLineFeeds(p, line);
    FeedConcat(p, line.Text(), rest);
    assert [] + Feed(Behind(line), rest).body == Feed(Behind(line), rest).body;
  }

  lemma OneDigitRead(p: Parser, ch: byte)
    requires p.Valid() && AtSizeLine(p) && FeedByte(p, ch).p.errno == HPE_OK
    ensures SizeByte(ch) && SizeBytes([ch]) && LetThrough([ch])
    ensures FeedByte(p, ch).p == Parser(ChunkSize, LowValue([ch]), 1, HPE_OK)
  {
    UnhexMeaning(ch);
    LowStep([ch]);
  }

  lemma DataComes(n: nat, data: seq<byte>)
    requires 0 < n < ULLONG_MAX && Completes(Parser(ChunkData, n, 0, HPE_OK), data)
    ensures n <= |data|
  {
    var p := Parser(ChunkData, n, 0, HPE_OK);
    if data == [] {
      FeedNothing(p);
    } else if |data| < n {
      FeedData(p, data);
    }
  }

  // The data of a chunk, all of it, and the line end behind it.
  lemma DataFirst(n: nat, data: seq<byte>) returns (payload: seq<byte>, rest: seq<byte>)
    requires 0 < n < ULLONG_MAX && Completes(Parser(ChunkData, n, 0, HPE_OK), data)
    ensures |payload| == n && data == payload + [CR, LF] + rest
    ensures Completes(START, rest) && Feed(Parser(ChunkData, n, 0, HPE_OK), data).body == payload + Feed(START, rest).body
  {
    DataComes(n, data);
    hide Feed;
    var p, q := Parser(ChunkData, n, 0, HPE_OK), Parser(ChunkDataAlmostDone, 0, 0, HPE_OK);
    payload := data[..n];
    var more := data[n..];
    assert data == payload + more;
    FeedData(p, payload);
    FeedConcat(p, payload, more);
    DataEnds(q, more);
    rest := more[2..];
    assert more == [CR, LF] + rest;
    LineEndBetween(q, rest);
    assert payload + ([CR, LF] + rest) == payload + [CR, LF] + rest;
  }

  lemma LineEndBetween(q: Parser, rest: seq<byte>)
    requires q == Parser(ChunkDataAlmostDone, 0, 0, HPE_OK)
    ensures Feed(q, [CR, LF] + rest) == Feed(START, rest)
  {
    hide Feed;
    DataEndFeeds(q);
    FeedConcat(q, [CR, LF], rest);
    assert [] + Feed(START, rest).body == Feed(START, rest).body;
  }

  lemma DataEnds(p: Parser, data: seq<byte>)
    requires p.Valid() && p.state == ChunkDataAlmostDone && p.errno == HPE_OK && Completes(p, data)
    ensures |data| >= 2 && data[0] == CR && data[1] == LF
  {
    NextByte(p, data);
    NextByte(FeedByte(p, data[0]).p, data[1..]);
  }

  lemma EndFirst(data: seq<byte>) returns (bare: bool, rest: seq<byte>)
    requires Completes(Parser(TrailerStart, 0, 0, HPE_OK), data)
    ensures data == (if bare then [LF] else [CR, LF]) + rest
    ensures Feed(Parser(TrailerStart, 0, 0, HPE_OK), data).body == []
  {
    var p := Parser(TrailerStart, 0, 0, HPE_OK);
    NextByte(p, data);
    var q := FeedByte(p, data[0]).p;
    bare := data[0] == LF;
    if bare {
      rest := data[1..];
      FeedStopped(q, rest);
    } else {
      NextByte(q, data[1..]);
      rest := data[2..];
      FeedStopped(FeedByte(q, data[1]).p, rest);
      assert data == [data[0], data[1]] + data[2..];
    }
  }

  lemma {:induction false} OnlyWellFormedCompletes(p: Parser, data: seq<byte>) returns (m: Message, rest: seq<byte>)
    requires p.Valid() && AtSizeLine(p) && Completes(p, data)
    ensures m.Valid() && data == m.Text() + rest && Feed(p, data).body == m.Payload()
    decreases |data|
  {
    hide Feed, HexValue, Completes, Passes, SizeBytes, Message.Valid, Message.Text, Message.Payload, SizeLine.Text;
    var line, tail := LineFirst(p, data);
    SizeFits(line);
    if line.Size() == 0 {
      var bare;
      bare, rest := EndFirst(tail);
      m := Message([], line, bare);
      NoChunks(m);
      assert data == line.Text() + (m.End() + rest);
    } else {
      var payload, more := DataFirst(line.Size(), tail);
      var shorter;
      shorter, rest := OnlyWellFormedCompletes(START, more);
      m := Prepended(Chunk(line, payload), shorter);
      assert tail == payload + [CR, LF] + (shorter.Text() + rest);
      assert m.Text() + rest == line.Text() + payload + [CR, LF] + shorter.Text() + rest;
    }
  }

  lemma NoChunks(m: Message)
    requires m.chunks == [] && m.last.Valid() && m.last.Size() == 0
    ensures m.Valid() && m.Text() == m.last.Text() + m.End() && m.Payload() == []
  {
  }

  lemma Prepended(c: Chunk, m: Message) returns (longer: Message)
    requires c.Valid() && m.Valid()
    ensures longer.Valid() && longer.chunks != [] && longer.Rest() == m && longer.End() == m.End()
    ensures longer.Text() == c.Text() + m.Text() && longer.Payload() == c.data + m.Payload()
  {
    longer := m.(chunks := [c] + m.chunks);
    assert longer.chunks[1..] == m.chunks;
  }

  /** The machine completes exactly on the bytes that begin with a well-formed body. */
  lemma CompletesIff(p: Parser, data: seq<byte>)
    requires p.Valid() && AtSizeLine(p)
    ensures Completes(p, data) <==> exists m: Message, rest: seq<byte> :: m.Valid() && data == m.Text() + rest
  {
    hide Message.Valid;
    if Completes(p, data) {
      var m, rest := OnlyWellFormedCompletes(p, data);
      assert m.Valid() && data == m.Text() + rest;
    } else if m: Message, rest: seq<byte> :| m.Valid() && data == m.Text() + rest {
      WellFormedDecodes(p, m);
      FeedConcat(p, m.Text(), rest);
      FeedStopped(Feed(p, m.Text()).p, rest);
      assert false;
    }
  }
}
