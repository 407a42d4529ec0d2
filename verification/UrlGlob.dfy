/** The URL globber's odometer: an URL with {a,b} sets and [a-z], [0-9] ranges stands
    for every combination of their values, and each call gives the next one. */
module UrlGlobs {
  import opened Words

  const INT_MAX := 0x7fff_ffff
  const SHRT_MAX := 0x7fff
  const CHAR_MAX := 127

  datatype Pattern =
    | Set(elements: seq<seq<byte>>, ptr: nat)
    | CharRange(min: int, max: int, step: int, at: int)
    | NumRange(low: int, high: int, pace: int, padlength: nat, now: int)

  predicate Letter(c: int) {
    65 <= c <= 90 || 97 <= c <= 122
  }

  // What the parser lets through, wherever the pointer stands.
  predicate Parsed(p: Pattern) {
    match p
    case Set(elements, ptr) => ptr < |elements| <= SHRT_MAX
    case CharRange(min, max, _, _) => Letter(min) && min < max <= min + 25 && max <= CHAR_MAX
    case NumRange(low, high, _, _, _) => 0 <= low <= high <= INT_MAX
  }

  // Where the parser leaves the pointer.
  predicate Rewound(p: Pattern) {
    match p
    case Set(_, ptr) => ptr == 0
    case CharRange(min, _, _, at) => at == min
    case NumRange(low, _, _, _, now) => now == low
  }

  // C's (unsigned char) and (char), where char is a signed byte.
  function Unsigned(c: int): byte {
    c % 256
  }

  function SignedChar(x: int): (c: int)
    ensures -128 <= c <= CHAR_MAX
  {
    (x + 128) % 256 - 128
  }

  // One pattern's move, and whether it carries into the pattern to its left.
  function Advance(p: Pattern): (Pattern, bool)
    requires Parsed(p)
  {
    match p
    case Set(elements, ptr) =>
      if ptr + 1 == |elements| then (p.(ptr := 0), true) else (p.(ptr := ptr + 1), false)
    case CharRange(min, max, step, at) =>
      var next := SignedChar(step + Unsigned(at));
      if next > max then (p.(at := min), true) else (p.(at := next), false)
    case NumRange(low, high, pace, _, now) =>
      if now + pace > high then (p.(now := low), true) else (p.(now := now + pace), false)
  }

  // ----- The text of one combination -----

  function Digits10(n: nat): seq<byte> {
    if n < 10 then [48 + n] else Digits10(n / 10) + [48 + n % 10]
  }

  function Zeros(n: int): seq<byte> {
    if n <= 0 then [] else [48] + Zeros(n - 1)
  }

  // printf's %0*d.
  function Padded(n: int, width: nat): seq<byte> {
    if n < 0 then [45] + Zeros(width - 1 - |Digits10(-n)|) + Digits10(-n)
    else Zeros(width - |Digits10(n)|) + Digits10(n)
  }

  function TextOf(p: Pattern): seq<byte>
    requires Parsed(p)
  {
    match p
    case Set(elements, ptr) => elements[ptr]
    case CharRange(_, _, _, at) => [Unsigned(at)]
    case NumRange(_, _, _, padlength, now) => Padded(now, padlength)
  }

  predicate AllParsed(ps: seq<Pattern>) {
    forall p :: p in ps ==> Parsed(p)
  }

  // Literals and patterns alternate, a literal first and last.
  function Url(literals: seq<seq<byte>>, ps: seq<Pattern>): seq<byte>
    requires |literals| == |ps| + 1 && AllParsed(ps)
    decreases |ps|
  {
    if ps == [] then literals[0]
    else
      var n := |ps| - 1;
      Url(literals[..n + 1], ps[..n]) + TextOf(ps[n]) + literals[n + 1]
  }

  // strdup: a string ends at its first zero byte.
  function CString(buffer: seq<byte>): seq<byte> {
    if buffer == [] || buffer[0] == 0 then [] else [buffer[0]] + CString(buffer[1..])
  }

  // What the caller gets for a setting of the patterns.
  function Globbed(literals: seq<seq<byte>>, ps: seq<Pattern>): seq<byte>
    requires |literals| == |ps| + 1 && AllParsed(ps)
  {
    CString(Url(literals, ps))
  }

  /** That is the whole URL exactly if no zero byte was written. */
  lemma {:induction false} CutAtZeroIff(buffer: seq<byte>)
    ensures CString(buffer) <= buffer
    ensures CString(buffer) == buffer <==> 0 !in buffer
  {
    if buffer != [] && buffer[0] != 0 {
      CutAtZeroIff(buffer[1..]);
      assert buffer == [buffer[0]] + buffer[1..];
    }
  }

  lemma {:induction false} NoZeroDigits(n: nat)
    ensures 0 !in Digits10(n)
  {
    if n >= 10 {
      NoZeroDigits(n / 10);
    }
  }

  lemma {:induction false} NoZeroZeros(n: int)
    ensures 0 !in Zeros(n)
    decreases n
  {
    if n > 0 {
      NoZeroZeros(n - 1);
    }
  }

  lemma ZeroInText(p: Pattern)
    requires Parsed(p) && (p.Set? ==> forall e :: e in p.elements ==> 0 !in e)
    ensures 0 in TextOf(p) <==> p.CharRange? && Unsigned(p.at) == 0
  {
    hide Digits10, Zeros;
    if p.NumRange? {
      var n := if p.now < 0 then -p.now else p.now;
      NoZeroDigits(n);
      NoZeroZeros(p.padlength - |Digits10(n)|);
      NoZeroZeros(p.padlength - 1 - |Digits10(n)|);
    }
  }

  /** In strings without zero bytes, one is written exactly where a character pointer
      has wrapped to zero. */
  lemma {:induction false} ZeroWrittenIff(literals: seq<seq<byte>>, ps: seq<Pattern>)
    requires |literals| == |ps| + 1 && AllParsed(ps) && forall l :: l in literals ==> 0 !in l
    requires forall p, e :: p in ps && p.Set? && e in p.elements ==> 0 !in e
    ensures 0 in Url(literals, ps) <==> exists p :: p in ps && p.CharRange? && Unsigned(p.at) == 0
    decreases |ps|
  {
    hide TextOf, Unsigned;
    if ps == [] {
      assert literals[0] in literals;
    } else {
      var n := |ps| - 1;
      assert ps[n] in ps && literals[n + 1] in literals;
      ZeroWrittenIff(literals[..n + 1], ps[..n]);
      ZeroInText(ps[n]);
      assert forall p :: p in ps <==> p in ps[..n] || p == ps[n];
    }
  }

  // ----- The odometer -----

  // All patterns' move: a carry moves the pattern to the left as well.
  function Tick(ps: seq<Pattern>): (r: (seq<Pattern>, bool))
    requires AllParsed(ps)
    ensures |r.0| == |ps| && AllParsed(r.0)
    decreases |ps|
  {
    if ps == [] then ([], true)
    else
      var n := |ps| - 1;
      var (last, carry) := Advance(ps[n]);
      if !carry then (ps[..n] + [last], false)
      else
        var (rest, out) := Tick(ps[..n]);
        (rest + [last], out)
  }

  datatype Glob = Glob(literals: seq<seq<byte>>, patterns: seq<Pattern>, beenhere: bool)

  predicate ValidGlob(g: Glob) {
    |g.literals| == |g.patterns| + 1 && AllParsed(g.patterns)
  }

  // One call of glob_next_url; no URL means all have been given.
  function Next(g: Glob): (r: (Glob, Option<seq<byte>>))
    requires ValidGlob(g)
    ensures ValidGlob(r.0)
  {
    if !g.beenhere then (g.(beenhere := true), Some(Globbed(g.literals, g.patterns)))
    else
      var (ps, carry) := Tick(g.patterns);
      (g.(patterns := ps), if carry then None else Some(Globbed(g.literals, ps)))
  }

  function After(g: Glob, calls: nat): (r: Glob)
    requires ValidGlob(g)
    ensures ValidGlob(r)
  {
    if calls == 0 then g else Next(After(g, calls - 1)).0
  }

  // What call number n gives, the first call being number 0.
  function Call(g: Glob, n: nat): Option<seq<byte>>
    requires ValidGlob(g)
  {
    Next(After(g, n)).1
  }

  // ----- Wheels that come round -----

  // A character pointer k steps after the first character: it wraps as a signed byte.
  function Orbit(min: int, step: int, k: nat): int {
    SignedChar(min + k * step)
  }

  // The pattern carries sooner or later: a character pointer hits a value past the
  // last character, a number goes up.
  ghost predicate Turns(p: Pattern) {
    && Parsed(p)
    && match p
       case Set(_, _) => true
       case CharRange(min, max, step, _) => exists k: nat :: Orbit(min, step, k) > max
       case NumRange(_, _, pace, _, _) => pace >= 1
  }

  ghost function FirstPast(min: int, max: int, step: int, k: nat, bound: nat): (first: nat)
    requires k <= bound && Orbit(min, step, bound) > max
    requires forall j: nat :: j < k ==> Orbit(min, step, j) <= max
    ensures Orbit(min, step, first) > max && forall j: nat :: j < first ==> Orbit(min, step, j) <= max
    decreases bound - k
  {
    if Orbit(min, step, k) > max then k else FirstPast(min, max, step, k + 1, bound)
  }

  // The number of characters shown before the pointer passes the last one.
  ghost function CharValues(min: int, max: int, step: int): (n: nat)
    requires exists k: nat :: Orbit(min, step, k) > max
    ensures Orbit(min, step, n) > max && forall j: nat :: j < n ==> Orbit(min, step, j) <= max
  {
    var k: nat :| Orbit(min, step, k) > max;
    FirstPast(min, max, step, 0, k)
  }

  // The number of values a pattern takes.
  ghost function Values(p: Pattern): (n: nat)
    requires Turns(p)
    ensures n >= 1
  {
    match p
    case Set(elements, _) => |elements|
    case CharRange(min, max, step, _) =>
      assert Orbit(min, step, 0) <= max;
      CharValues(min, max, step)
    case NumRange(low, high, pace, _, _) => Quot(high - low, pace) + 1
  }

  // The pattern at its k-th value.
  ghost function At(p: Pattern, k: nat): (r: Pattern)
    requires Turns(p) && k < Values(p)
    ensures Turns(r) && Values(r) == Values(p)
  {
    match p
    case Set(_, _) => p.(ptr := k)
    case CharRange(min, _, step, _) => p.(at := Orbit(min, step, k))
    case NumRange(low, _, pace, _, _) => p.(now := low + k * pace)
  }

  lemma StepsFit(span: nat, step: nat, k: nat)
    requires step >= 1
    ensures k * step <= span <==> k <= Quot(span, step)
  {
    var q, r := Quot(span, step), span % step;
    assert span == q * step + r;
    if k <= q {
      MulMono(k, q, step);
    } else {
      MulMono(q + 1, k, step);
      assert (q + 1) * step == q * step + step;
    }
  }

  lemma SmallChar(c: int)
    requires 0 <= c <= CHAR_MAX
    ensures SignedChar(c) == c && Unsigned(c) == c
  {
  }

  // Both kinds of range step through low + k * step.
  lemma RangeTurns(low: int, high: int, step: nat, k: nat)
    requires low <= high && step >= 1 && k <= Quot(high - low, step)
    ensures low <= low + k * step <= high
    ensures low + (k + 1) * step == low + k * step + step
    ensures low + (k + 1) * step > high <==> k == Quot(high - low, step)
  {
    StepsFit(high - low, step, k);
    StepsFit(high - low, step, k + 1);
  }

  // One step of the pointer is one step of the orbit.
  lemma OrbitStep(min: int, step: int, k: nat)
    ensures SignedChar(step + Unsigned(Orbit(min, step, k))) == Orbit(min, step, k + 1)
  {
    var x := min + k * step;
    assert min + (k + 1) * step == x + step;
    WrapOnce(x, step);
  }

  lemma WrapOnce(x: int, step: int)
    ensures SignedChar(step + Unsigned(SignedChar(x))) == SignedChar(x + step)
  {
    var c := SignedChar(x);
    assert Unsigned(c) == x % 256;
    SignedPeriod(x + step, -(x / 256));
    assert x % 256 == x - 256 * (x / 256);
  }

  lemma SignedPeriod(x: int, t: int)
    ensures SignedChar(x + 256 * t) == SignedChar(x)
  {
  }

  lemma CharTurns(p: Pattern, k: nat)
    requires p.CharRange? && Turns(p) && k < Values(p)
    ensures Advance(At(p, k)) == if k + 1 < Values(p) then (At(p, k + 1), false) else (At(p, 0), true)
  {
    hide Orbit, SignedChar, Unsigned;
    OrbitStep(p.min, p.step, k);
    OrbitStarts(p.min, p.step);
    assert At(p, k) == p.(at := Orbit(p.min, p.step, k));
  }

  lemma OrbitStarts(min: int, step: int)
    requires Letter(min)
    ensures Orbit(min, step, 0) == min
  {
  }

  lemma NumTurns(p: Pattern, k: nat)
    requires p.NumRange? && Turns(p) && k < Values(p)
    ensures Advance(At(p, k)) == if k + 1 < Values(p) then (At(p, k + 1), false) else (At(p, 0), true)
  {
    RangeTurns(p.low, p.high, p.pace, k);
    assert At(p, k) == p.(now := p.low + k * p.pace);
    assert At(p, 0) == p.(now := p.low);
  }

  // A pattern that turns goes through its values in order and carries at the last.
  lemma AdvanceTurns(p: Pattern, k: nat)
    requires Turns(p) && k < Values(p)
    ensures Advance(At(p, k)) == if k + 1 < Values(p) then (At(p, k + 1), false) else (At(p, 0), true)
  {
    if p.CharRange? {
      CharTurns(p, k);
    } else if p.NumRange? {
      NumTurns(p, k);
    }
  }

  // ----- Every combination, once, rightmost fastest -----

  ghost predicate AllTurn(ps: seq<Pattern>) {
    forall p :: p in ps ==> Turns(p)
  }

  function Product(sizes: seq<nat>): nat {
    if sizes == [] then 1 else sizes[0] * Product(sizes[1..])
  }

  lemma {:induction false} ProductSnoc(sizes: seq<nat>, last: nat)
    ensures Product(sizes + [last]) == Product(sizes) * last
  {
    if sizes == [] {
      assert ([last])[1..] == [];
    } else {
      ProductSnoc(sizes[1..], last);
      assert (sizes + [last])[1..] == sizes[1..] + [last];
      MulAssoc(sizes[0], Product(sizes[1..]), last);
    }
  }

  lemma MulAssoc(a: nat, b: nat, c: nat)
    ensures a * (b * c) == (a * b) * c
  {
  }

  ghost function Sizes(ps: seq<Pattern>): (sizes: seq<nat>)
    requires AllTurn(ps)
    ensures |sizes| == |ps| && forall i :: 0 <= i < |ps| ==> sizes[i] == Values(ps[i])
  {
    seq(|ps|, i requires 0 <= i < |ps| => Values(ps[i]))
  }

  // A choice of one value for each pattern.
  ghost predicate Choice(ps: seq<Pattern>, v: seq<nat>)
    requires AllTurn(ps)
  {
    |v| == |ps| && forall i :: 0 <= i < |ps| ==> v[i] < Values(ps[i])
  }

  // The patterns set to a choice.
  ghost function Dial(ps: seq<Pattern>, v: seq<nat>): (r: seq<Pattern>)
    requires AllTurn(ps) && Choice(ps, v)
    ensures |r| == |ps| && AllTurn(r) && AllParsed(r)
    ensures forall i :: 0 <= i < |ps| ==> r[i] == At(ps[i], v[i])
  {
    seq(|ps|, i requires 0 <= i < |ps| => At(ps[i], v[i]))
  }

  // The place of a choice in the order: a number written in mixed radix.
  ghost function Number(ps: seq<Pattern>, v: seq<nat>): nat
    requires AllTurn(ps) && Choice(ps, v)
    decreases |ps|
  {
    if ps == [] then 0
    else
      var n := |ps| - 1;
      var high, base := Number(ps[..n], v[..n]), Values(ps[n]);
      MulMono(0, high, base);
      high * base + v[n]
  }

  ghost function Digits(ps: seq<Pattern>, n: nat): (v: seq<nat>)
    requires AllTurn(ps)
    ensures Choice(ps, v)
    decreases |ps|
  {
    if ps == [] then []
    else
      var k := |ps| - 1;
      var base := Values(ps[k]);
      Digits(ps[..k], Quot(n, base)) + [Rem(n, base)]
  }

  ghost function Total(ps: seq<Pattern>): nat
    requires AllTurn(ps)
  {
    Product(Sizes(ps))
  }

  lemma TotalSnoc(ps: seq<Pattern>)
    requires ps != [] && AllTurn(ps)
    ensures Total(ps) == Total(ps[..|ps| - 1]) * Values(ps[|ps| - 1])
  {
    var n := |ps| - 1;
    ProductSnoc(Sizes(ps[..n]), Values(ps[n]));
    assert Sizes(ps) == Sizes(ps[..n]) + [Values(ps[n])];
  }

  lemma TotalEmpty()
    ensures Total([]) == 1
  {
    assert Sizes([]) == [];
  }

  lemma ChoiceOfNothing(ps: seq<Pattern>, v: seq<nat>)
    requires ps == [] && Choice(ps, v)
    ensures v == []
  {
  }

  lemma ChoiceParts(ps: seq<Pattern>, v: seq<nat>)
    requires ps != [] && AllTurn(ps) && Choice(ps, v)
    ensures |v| == |ps| && Choice(ps[..|ps| - 1], v[..|ps| - 1]) && v[|ps| - 1] < Values(ps[|ps| - 1])
    ensures v == v[..|ps| - 1] + [v[|ps| - 1]]
  {
    hide Values;
  }

  // Choices and the numbers below the total correspond one to one.
  lemma {:induction false} DigitsInvert(ps: seq<Pattern>, v: seq<nat>)
    requires AllTurn(ps) && Choice(ps, v)
    ensures Number(ps, v) < Total(ps) && Digits(ps, Number(ps, v)) == v
    decreases |ps|
  {
    hide Quot, Rem, Values, Total, Choice;
    if ps == [] {
      TotalEmpty();
      ChoiceOfNothing(ps, v);
    } else {
      var n := |ps| - 1;
      ChoiceParts(ps, v);
      var base, q := Values(ps[n]), Number(ps[..n], v[..n]);
      DigitsInvert(ps[..n], v[..n]);
      DivMod(q, v[n], base);
      TotalSnoc(ps);
      QuotientBelow(q * base + v[n], base, Total(ps[..n]));
    }
  }

  lemma {:induction false} NumberInverts(ps: seq<Pattern>, n: nat)
    requires AllTurn(ps) && n < Total(ps)
    ensures Number(ps, Digits(ps, n)) == n
    decreases |ps|
  {
    hide Quot, Rem, Values, Total;
    if ps == [] {
      TotalEmpty();
    } else {
      var k := |ps| - 1;
      var base := Values(ps[k]);
      TotalSnoc(ps);
      QuotientBelow(n, base, Total(ps[..k]));
      NumberInverts(ps[..k], Quot(n, base));
      QuotRem(n, base);
      assert Digits(ps, n)[..k] == Digits(ps[..k], Quot(n, base));
    }
  }

  // The choices differ first where the earlier one is smaller.
  predicate Before(v: seq<nat>, w: seq<nat>) {
    |v| == |w| && exists i :: 0 <= i < |v| && v[i] < w[i] && v[..i] == w[..i]
  }

  lemma BeforeSnoc(v: seq<nat>, w: seq<nat>, a: nat, b: nat)
    requires Before(v, w) || (v == w && a < b)
    ensures Before(v + [a], w + [b])
  {
    if v == w && a < b {
      assert (v + [a])[..|v|] == (w + [b])[..|v|];
    } else {
      var i :| 0 <= i < |v| && v[i] < w[i] && v[..i] == w[..i];
      assert (v + [a])[..i] == v[..i] && (w + [b])[..i] == w[..i];
      assert (v + [a])[i] < (w + [b])[i];
    }
  }

  lemma {:induction false} DigitsOrdered(ps: seq<Pattern>, m: nat, n: nat)
    requires AllTurn(ps) && m < n < Total(ps)
    ensures Before(Digits(ps, m), Digits(ps, n))
    decreases |ps|
  {
    hide Quot, Rem, Values, Total, Before;
    if ps == [] {
      TotalEmpty();
    } else {
      var k := |ps| - 1;
      var base := Values(ps[k]);
      TotalSnoc(ps);
      QuotientBelow(n, base, Total(ps[..k]));
      QuotientOrder(m, n, base);
      if Quot(m, base) < Quot(n, base) {
        DigitsOrdered(ps[..k], Quot(m, base), Quot(n, base));
      }
      BeforeSnoc(Digits(ps[..k], Quot(m, base)), Digits(ps[..k], Quot(n, base)), Rem(m, base), Rem(n, base));
    }
  }

  // A tick goes from each choice to the next, and carries out from the last to the first.
  lemma {:induction false} TickTurns(ps: seq<Pattern>, n: nat)
    requires AllTurn(ps) && n < Total(ps)
    ensures Tick(Dial(ps, Digits(ps, n))) ==
            if n + 1 < Total(ps) then (Dial(ps, Digits(ps, n + 1)), false) else (Dial(ps, Digits(ps, 0)), true)
    decreases |ps|
  {
    hide Quot, Rem, Values, At, Advance, Total;
    if ps == [] {
      TotalEmpty();
    } else {
      var k := |ps| - 1;
      var base := Values(ps[k]);
      var dial := Dial(ps, Digits(ps, n));
      TotalSnoc(ps);
      QuotientBelow(n, base, Total(ps[..k]));
      QuotientBelow(n + 1, base, Total(ps[..k]));
      AdvanceTurns(ps[k], Rem(n, base));
      TickTurns(ps[..k], Quot(n, base));
      DialSnoc(ps, n);
      DialSnoc(ps, n + 1);
      DialSnoc(ps, 0);
      NextDigit(n, base);
    }
  }

  lemma DialSnoc(ps: seq<Pattern>, n: nat)
    requires ps != [] && AllTurn(ps)
    ensures var k := |ps| - 1;
            var base := Values(ps[k]);
            var dial := Dial(ps, Digits(ps, n));
            && dial[..k] == Dial(ps[..k], Digits(ps[..k], Quot(n, base)))
            && dial[k] == At(ps[k], Rem(n, base))
            && dial == dial[..k] + [dial[k]]
  {
  }

  // ----- Whole runs of calls -----

  // A glob as the parser returns it, whose patterns all turn.
  ghost predicate Fresh(g: Glob) {
    ValidGlob(g) && !g.beenhere && AllTurn(g.patterns) && forall p :: p in g.patterns ==> Rewound(p)
  }

  lemma {:induction false} DigitsOfZero(ps: seq<Pattern>)
    requires AllTurn(ps)
    ensures forall d :: d in Digits(ps, 0) ==> d == 0
    decreases |ps|
  {
    hide Values, Quot, Rem;
    if ps != [] {
      NextDigit(0, Values(ps[|ps| - 1]));
      DigitsOfZero(ps[..|ps| - 1]);
    }
  }

  lemma AtStart(p: Pattern)
    requires Turns(p) && Rewound(p)
    ensures At(p, 0) == p
  {
    hide Orbit;
    if p.CharRange? {
      OrbitStarts(p.min, p.step);
    }
  }

  lemma StartsAtZero(g: Glob)
    requires Fresh(g)
    ensures Dial(g.patterns, Digits(g.patterns, 0)) == g.patterns
  {
    hide At, Values, Turns, Rewound, Digits;
    DigitsOfZero(g.patterns);
    forall i | 0 <= i < |g.patterns|
      ensures At(g.patterns[i], Digits(g.patterns, 0)[i]) == g.patterns[i]
    {
      assert Digits(g.patterns, 0)[i] in Digits(g.patterns, 0);
      assert g.patterns[i] in g.patterns;
      AtStart(g.patterns[i]);
    }
  }

  lemma {:induction false} TotalPositive(ps: seq<Pattern>)
    requires AllTurn(ps)
    ensures Total(ps) >= 1
    decreases |ps|
  {
    hide Values, Total;
    if ps == [] {
      TotalEmpty();
    } else {
      TotalPositive(ps[..|ps| - 1]);
      TotalSnoc(ps);
      MulMono(1, Total(ps[..|ps| - 1]), Values(ps[|ps| - 1]));
    }
  }

  // After any number of calls the patterns show that choice, counted round and round.
  lemma {:induction false} AfterCalls(g: Glob, n: nat)
    requires Fresh(g)
    ensures Total(g.patterns) >= 1
    ensures After(g, n + 1) == Glob(g.literals, Dial(g.patterns, Digits(g.patterns, Rem(n, Total(g.patterns)))), true)
  {
    hide Total, Dial, Tick, Digits, Globbed;
    TotalPositive(g.patterns);
    var total := Total(g.patterns);
    if n == 0 {
      NextDigit(0, total);
      StartsAtZero(g);
      assert After(g, 1) == Next(After(g, 0)).0;
    } else {
      AfterCalls(g, n - 1);
      TickTurns(g.patterns, Rem(n - 1, total));
      NextDigit(n - 1, total);
    }
  }

  // Call number n gives choice n; after the last one comes "no more"; a caller who
  // goes on sees the choices again, but never the first.
  lemma CallsEnumerate(g: Glob, n: nat)
    requires Fresh(g)
    ensures var ps, total := g.patterns, Total(g.patterns);
            && total >= 1
            && Call(g, n) ==
               if n > 0 && Rem(n, total) == 0 then None
               else Some(Globbed(g.literals, Dial(ps, Digits(ps, Rem(n, total)))))
  {
    hide Total, Dial, Tick, Digits, Globbed;
    TotalPositive(g.patterns);
    var total := Total(g.patterns);
    if n == 0 {
      NextDigit(0, total);
      StartsAtZero(g);
      assert After(g, 0) == g;
    } else {
      AfterCalls(g, n - 1);
      TickTurns(g.patterns, Rem(n - 1, total));
      NextDigit(n - 1, total);
    }
  }

  // Exactly the first Total calls give URLs, one for each choice in order.
  lemma EveryChoiceOnce(g: Glob, v: seq<nat>)
    requires Fresh(g) && Choice(g.patterns, v)
    ensures var n := Number(g.patterns, v);
            && n < Total(g.patterns)
            && Call(g, n) == Some(Globbed(g.literals, Dial(g.patterns, v)))
            && Call(g, Total(g.patterns)) == None
    ensures forall m :: 0 <= m < Total(g.patterns) && m != Number(g.patterns, v) ==> Digits(g.patterns, m) != v
  {
    hide Total, Dial, Call, Globbed, Number;
    var total := Total(g.patterns);
    DigitsInvert(g.patterns, v);
    var n := Number(g.patterns, v);
    DivMod(0, n, total);
    CallsEnumerate(g, n);
    DivMod(1, 0, total);
    CallsEnumerate(g, total);
    forall m | 0 <= m < total && m != n
      ensures Digits(g.patterns, m) != v
    {
      NumberInverts(g.patterns, m);
    }
  }

  // ----- The number announced -----

  // The number of values the parser counts for a pattern, whatever its step.
  function Size(p: Pattern): nat
    requires Parsed(p)
  {
    match p
    case Set(elements, _) => |elements|
    case CharRange(min, max, _, _) => max - min + 1
    case NumRange(low, high, _, _, _) => high - low + 1
  }

  // glob_word, glob_set and glob_range: each multiplies what comes after it.
  function Amount(ps: seq<Pattern>): nat
    requires AllParsed(ps)
  {
    if ps == [] then 1 else Size(ps[0]) * Amount(ps[1..])
  }

  lemma ProductsEqual(a: nat, b: nat, c: nat, d: nat)
    requires 1 <= a <= c && 1 <= b <= d
    ensures 1 <= a * b <= c * d && (a * b == c * d <==> a == c && b == d)
  {
    MulMono(1, a, b);
    MulMono(a, c, b);
    MulMono(b, d, c);
    if a < c {
      MulMono(a + 1, c, b);
      assert (a + 1) * b == a * b + b;
    }
    if b < d {
      MulMono(b + 1, d, c);
      assert (b + 1) * c == b * c + c;
    }
  }

  lemma TotalCons(ps: seq<Pattern>)
    requires ps != [] && AllTurn(ps)
    ensures Total(ps) == Values(ps[0]) * Total(ps[1..])
  {
    assert Sizes(ps)[1..] == Sizes(ps[1..]);
  }

  lemma SizePositive(p: Pattern)
    requires Parsed(p)
    ensures Size(p) >= 1
  {
  }

  /** If no pattern takes more values than announced, the number produced is at most
      the number announced, and equal exactly if each takes as many. */
  lemma {:induction false} AmountIff(ps: seq<Pattern>)
    requires AllTurn(ps) && forall p :: p in ps ==> Values(p) <= Size(p)
    ensures 1 <= Total(ps) <= Amount(ps)
    ensures Total(ps) == Amount(ps) <==> forall p :: p in ps ==> Values(p) == Size(p)
  {
    hide Values, Size, Total;
    if ps == [] {
      TotalEmpty();
    } else {
      TotalCons(ps);
      AmountIff(ps[1..]);
      ProductsEqual(Values(ps[0]), Total(ps[1..]), Size(ps[0]), Amount(ps[1..]));
      assert ps == [ps[0]] + ps[1..];
    }
  }

  /** And the other way round if none takes fewer. */
  lemma {:induction false} ExcessIff(ps: seq<Pattern>)
    requires AllTurn(ps) && forall p :: p in ps ==> Size(p) <= Values(p)
    ensures 1 <= Amount(ps) <= Total(ps)
    ensures Total(ps) == Amount(ps) <==> forall p :: p in ps ==> Values(p) == Size(p)
  {
    hide Values, Size, Total;
    if ps == [] {
      TotalEmpty();
    } else {
      TotalCons(ps);
      assert ps[0] in ps && Parsed(ps[0]);
      SizePositive(ps[0]);
      ExcessIff(ps[1..]);
      ProductsEqual(Size(ps[0]), Amount(ps[1..]), Values(ps[0]), Total(ps[1..]));
      assert ps == [ps[0]] + ps[1..];
    }
  }

  // The last value plus the step is still a character, so nothing wraps.
  predicate Straight(p: Pattern) {
    && Parsed(p)
    && match p
       case Set(_, _) => true
       case CharRange(min, max, step, _) => step >= 1 && min + Quot(max - min, step) * step + step <= CHAR_MAX
       case NumRange(_, _, pace, _, _) => pace >= 1
  }

  // One value, or step one.
  predicate CountsRight(p: Pattern) {
    match p
    case Set(_, _) => true
    case CharRange(_, _, step, _) => step == 1
    case NumRange(low, high, pace, _, _) => pace == 1 || low == high
  }

  lemma SpanSteps(span: nat, step: nat)
    requires step >= 1
    ensures Quot(span, step) <= span && (Quot(span, step) == span <==> step == 1 || span == 0)
  {
    StepsFit(span, step, Quot(span, step));
    if step >= 2 && span >= 1 {
      StepsFit(span, step, span);
      MulMono(2, step, span);
    }
  }

  lemma StraightOrbit(min: int, max: int, step: int, k: nat)
    requires Letter(min) && min < max <= CHAR_MAX && step >= 1 && k <= Quot(max - min, step) + 1
    requires min + Quot(max - min, step) * step + step <= CHAR_MAX
    ensures Orbit(min, step, k) == min + k * step
    ensures Orbit(min, step, k) > max <==> k == Quot(max - min, step) + 1
  {
    var last := Quot(max - min, step);
    StepsFit(max - min, step, k);
    MulMono(k, last + 1, step);
    assert (last + 1) * step == last * step + step;
    SmallChar(min + k * step);
  }

  /** Such a pattern turns. It never takes more values than announced, and as many
      exactly if no step skips one. */
  lemma StraightCounts(p: Pattern)
    requires Straight(p)
    ensures Turns(p) && Values(p) <= Size(p) && (Values(p) == Size(p) <==> CountsRight(p))
  {
    match p
    case Set(_, _) =>
    case NumRange(low, high, pace, _, _) => SpanSteps(high - low, pace);
    case CharRange(min, max, step, _) =>
      var n := Quot(max - min, step) + 1;
      StraightOrbit(min, max, step, n);
      assert Turns(p);
      var v := CharValues(min, max, step);
      assert v <= n;
      StraightOrbit(min, max, step, v);
      SpanSteps(max - min, step);
  }

  // [a-b:70]: the pointer wraps and is three times not past 'b'.
  const WRAPPING := CharRange(97, 98, 70, 97)

  // [0-1:2]: one value where two are announced.
  const SKIPPING := NumRange(0, 1, 2, 0, 0)

  lemma WrappingGivesFour()
    ensures Turns(WRAPPING) && Values(WRAPPING) == 4 && Size(WRAPPING) == 2
  {
    hide Orbit;
    OrbitIs(97, 70, 0, 97);
    OrbitIs(97, 70, 1, 167);
    OrbitIs(97, 70, 2, 237);
    OrbitIs(97, 70, 3, 307);
    OrbitIs(97, 70, 4, 377);
    assert Orbit(WRAPPING.min, WRAPPING.step, 4) > WRAPPING.max;
    var n := CharValues(WRAPPING.min, WRAPPING.max, WRAPPING.step);
    assert n <= 4;
  }

  lemma OrbitIs(min: int, step: int, k: nat, x: int)
    requires x == min + k * step
    ensures Orbit(min, step, k) == SignedChar(x)
  {
  }

  lemma SkippingGivesOne()
    ensures Turns(SKIPPING) && Values(SKIPPING) == 1 && Size(SKIPPING) == 2
  {
  }

  /** A range that wraps can give more than announced, and make up for one that skips. */
  lemma ErrorsCancel()
    ensures AllTurn([WRAPPING, SKIPPING])
    ensures Total([WRAPPING, SKIPPING]) == Amount([WRAPPING, SKIPPING]) == 4
    ensures Values(WRAPPING) > Size(WRAPPING) && Values(SKIPPING) < Size(SKIPPING)
  {
    WrappingGivesFour();
    SkippingGivesOne();
    hide Turns, Values, Size, Total;
    var ps := [WRAPPING, SKIPPING];
    assert ps[1..] == [SKIPPING] && [SKIPPING][1..] == [];
    TotalCons(ps);
    TotalCons([SKIPPING]);
    TotalEmpty();
    assert Amount([SKIPPING]) == Size(SKIPPING) * Amount([]);
    assert Amount(ps) == Size(WRAPPING) * Amount([SKIPPING]);
  }

  // ----- When a character range turns -----

  // The largest power of two, up to the given one, that divides the step.
  function Grain(step: int, power: nat): (g: nat)
    requires power >= 1
    ensures 1 <= g <= power
    decreases power
  {
    if power <= 1 || step % 2 != 0 then 1 else 2 * Grain(step / 2, power / 2)
  }

  predicate PowerOfTwo(n: nat) {
    n == 1 || (n > 1 && n % 2 == 0 && PowerOfTwo(n / 2))
  }

  lemma GrainDoubles(step: int, power: nat)
    requires power > 1 && step % 2 == 0
    ensures Grain(step, power) == 2 * Grain(step / 2, power / 2)
  {
  }

  lemma DoubleProduct(x: int, g: int, m: int)
    requires x == g * m
    ensures 2 * x == 2 * g * m
  {
  }

  lemma {:induction false} GrainParts(step: int, power: nat) returns (m: int, h: nat)
    requires PowerOfTwo(power)
    ensures step == Grain(step, power) * m && power == Grain(step, power) * h && (h == 1 || m % 2 == 1)
    decreases power
  {
    if power == 1 || step % 2 != 0 {
      m, h := step, power;
    } else {
      m, h := GrainParts(step / 2, power / 2);
      GrainDoubles(step, power);
      hide Grain;
      DoubleProduct(step / 2, Grain(step / 2, power / 2), m);
      DoubleProduct(power / 2, Grain(step / 2, power / 2), h);
    }
  }

  // An odd number has an inverse modulo 256: three steps of Newton's iteration.
  lemma OddInverse(m: int) returns (inverse: int)
    requires m % 2 == 1
    ensures m * inverse % 256 == 1
  {
    var t := OddSquare(m);
    var once := m * (2 - m * m);
    NewtonStep(m, m);
    assert 1 - m * m == -8 * t;
    assert 1 - m * once == (-8 * t) * (-8 * t) == 64 * (t * t);
    inverse := once * (2 - m * once);
    NewtonStep(m, once);
    var u := t * t;
    assert 1 - m * inverse == (64 * u) * (64 * u) == 256 * (16 * (u * u));
    assert m * inverse == 1 + 256 * (-(16 * (u * u)));
    ModPeriod(1, -(16 * (u * u)));
  }

  lemma ModPeriod(x: int, t: int)
    ensures (x + 256 * t) % 256 == x % 256
  {
  }

  lemma OddSquare(m: int) returns (t: int)
    requires m % 2 == 1
    ensures m * m == 1 + 8 * t
  {
    var j := m / 2;
    assert m == 2 * j + 1;
    assert m * m == 4 * (j * j + j) + 1;
    EvenProduct(j);
    t := (j * j + j) / 2;
  }

  lemma EvenProduct(j: int)
    ensures (j * j + j) % 2 == 0
  {
    var k := j / 2;
    if j % 2 == 0 {
      EvenTwice(j, 2 * k, k);
    } else {
      EvenTwice(j, 2 * k + 1, k);
    }
  }

  lemma EvenTwice(j: int, x: int, k: int)
    requires j == x && (x == 2 * k || x == 2 * k + 1)
    ensures (j * j + j) % 2 == 0
  {
    var half := if x == 2 * k then k * j + k else j * (k + 1);
    assert j * j + j == 2 * half;
  }

  lemma NewtonStep(m: int, x: int)
    ensures 1 - m * (x * (2 - m * x)) == (1 - m * x) * (1 - m * x)
  {
    var y := m * x;
    assert m * (x * (2 - y)) == y * (2 - y);
  }

  lemma ModUnique(x: int, g: int, q: int, r: int)
    requires g >= 1 && x == g * q + r && 0 <= r < g
    ensures x / g == q && x % g == r
  {
    var a, b := x / g, x % g;
    assert x == g * a + b;
    assert g * (a - q) == r - b;
    if a > q {
      MulMono(1, a - q, g);
    } else if a < q {
      MulMono(1, q - a, g);
    }
  }

  // Every value of the orbit is a multiple of the grain away from the first character.
  lemma OrbitOnGrain(min: int, step: int, k: nat)
    ensures var g := Grain(step, 256);
            (CHAR_MAX - Orbit(min, step, k)) % g == (CHAR_MAX - min) % g
  {
    var g := Grain(step, 256);
    assert PowerOfTwo(256);
    var m, h := GrainParts(step, 256);
    var x := min + k * step;
    var t := (x + 128) / 256;
    var y := Orbit(min, step, k);
    assert y == x - 256 * t;
    hide Orbit, Grain, SignedChar;
    var z := h * t - k * m;
    GrainArithmetic(g, m, h, k, t);
    var d := CHAR_MAX - min;
    ModShift(d, g, z);
    assert CHAR_MAX - y == d + g * z;
  }

  lemma GrainArithmetic(g: int, m: int, h: int, k: int, t: int)
    requires g * h == 256
    ensures 256 * t - k * (g * m) == g * (h * t - k * m)
  {
    assert 256 * t == g * (h * t);
    assert k * (g * m) == g * (k * m);
  }

  lemma ModShift(d: int, g: int, z: int)
    requires g >= 1
    ensures (d + g * z) % g == d % g
  {
    var q, r := d / g, d % g;
    assert d == g * q + r;
    assert d + g * z == g * (q + z) + r;
    ModUnique(d + g * z, g, q + z, r);
  }

  lemma ModAtMost(d: nat, g: nat)
    requires g >= 1
    ensures d % g <= d
  {
    assert d == g * (d / g) + d % g;
    MulMono(0, d / g, g);
  }

  // And every such value that a signed byte can hold is on the orbit.
  lemma GrainOnOrbit(min: int, step: int, y: int, q: int) returns (k: nat)
    requires y - min == Grain(step, 256) * q && -128 <= y <= CHAR_MAX
    requires Grain(step, 256) < 256 || y == min
    ensures Orbit(min, step, k) == y
  {
    var g := Grain(step, 256);
    assert PowerOfTwo(256);
    var m, h := GrainParts(step, 256);
    hide Grain, Orbit;
    if h == 1 {
      k := 0;
      OrbitIs(min, step, 0, min);
      SmallSigned(y);
    } else {
      var inverse := OddInverse(m);
      var u := m * inverse / 256;
      assert m * inverse == 256 * u + 1;
      var k0 := q * inverse;
      k := k0 % 256;
      var v := k0 / 256;
      assert k == k0 - 256 * v;
      StepsReach(g, m, q, inverse, u, v);
      var w := g * q * u - v * (g * m);
      OrbitIs(min, step, k, y + 256 * w);
      SignedPeriod(y, w);
      SmallSigned(y);
    }
  }

  lemma SmallSigned(y: int)
    requires -128 <= y <= CHAR_MAX
    ensures SignedChar(y) == y
  {
  }

  lemma StepsReach(g: int, m: int, q: int, inverse: int, u: int, v: int)
    requires m * inverse == 256 * u + 1
    ensures (q * inverse - 256 * v) * (g * m) == g * q + 256 * (g * q * u - v * (g * m))
  {
    var a := g * q;
    assert (q * inverse) * (g * m) == a * (m * inverse);
    assert a * (256 * u + 1) == 256 * (a * u) + a;
    assert (256 * v) * (g * m) == 256 * (v * (g * m));
  }

  lemma TurningIsOnGrain(p: Pattern)
    requires p.CharRange? && Parsed(p) && Turns(p)
    ensures (CHAR_MAX - p.min) % Grain(p.step, 256) < CHAR_MAX - p.max
  {
    hide Orbit, Grain;
    var k: nat :| Orbit(p.min, p.step, k) > p.max;
    OrbitOnGrain(p.min, p.step, k);
    OrbitBounded(p.min, p.step, k);
    ModAtMost(CHAR_MAX - Orbit(p.min, p.step, k), Grain(p.step, 256));
  }

  lemma OnGrainIsTurning(p: Pattern)
    requires p.CharRange? && Parsed(p) && (CHAR_MAX - p.min) % Grain(p.step, 256) < CHAR_MAX - p.max
    ensures Turns(p)
  {
    hide Orbit, Grain;
    var g := Grain(p.step, 256);
    var r := (CHAR_MAX - p.min) % g;
    var q := (CHAR_MAX - p.min) / g;
    assert CHAR_MAX - p.min == g * q + r;
    ReachesHigh(p.min, g, q, r);
    var k := GrainOnOrbit(p.min, p.step, CHAR_MAX - r, q);
  }

  /** A character range turns exactly if, going down from 127 to the first value that
      lies a multiple of the grain from its first character, one stays above its last. */
  lemma CharTurnsIff(p: Pattern)
    requires p.CharRange? && Parsed(p)
    ensures Turns(p) <==> (CHAR_MAX - p.min) % Grain(p.step, 256) < CHAR_MAX - p.max
  {
    hide Turns, Grain;
    if Turns(p) {
      TurningIsOnGrain(p);
    } else if (CHAR_MAX - p.min) % Grain(p.step, 256) < CHAR_MAX - p.max {
      OnGrainIsTurning(p);
    }
  }

  // [a-z:8]: the pointer goes round below 'z' for ever.
  lemma StepEightNeverTurns()
    ensures !Turns(CharRange(97, 122, 8, 97))
  {
    GrainDoubles(8, 256);
    GrainDoubles(4, 128);
    GrainDoubles(2, 64);
    assert Grain(1, 32) == 1;
    hide Grain, Turns;
    CharTurnsIff(CharRange(97, 122, 8, 97));
  }

  lemma OrbitBounded(min: int, step: int, k: nat)
    ensures Orbit(min, step, k) <= CHAR_MAX
  {
  }

  lemma ReachesHigh(min: int, g: int, q: int, r: int)
    requires Letter(min) && 1 <= g <= 256 && CHAR_MAX - min == g * q + r && 0 <= r < g
    ensures g == 256 ==> q == 0
  {
  }

  // ----- The number of calls -----

  // A pattern that does not turn, at a place its pointer can get to.
  ghost predicate Idle(p: Pattern) {
    && Parsed(p) && !Turns(p)
    && match p
       case Set(_, _) => true
       case CharRange(min, _, step, at) => exists k: nat :: at == Orbit(min, step, k)
       case NumRange(_, high, _, _, now) => now <= high
  }

  lemma IdleStarts(p: Pattern)
    requires Parsed(p) && Rewound(p) && !Turns(p)
    ensures Idle(p)
  {
    hide Orbit;
    if p.CharRange? {
      OrbitStarts(p.min, p.step);
    }
  }

  /** It never carries, and stays so. */
  lemma IdleNeverCarries(p: Pattern)
    requires Idle(p)
    ensures !Advance(p).1 && Idle(Advance(p).0)
  {
    hide Orbit, SignedChar, Unsigned;
    if p.CharRange? {
      var k: nat :| p.at == Orbit(p.min, p.step, k);
      OrbitStep(p.min, p.step, k);
    }
  }

  lemma {:induction false} IdleTicks(ps: seq<Pattern>, i: nat)
    requires AllParsed(ps) && i < |ps| && Idle(ps[i])
    ensures !Tick(ps).1 && Idle(Tick(ps).0[i])
    decreases |ps|
  {
    hide Advance, Idle;
    var n := |ps| - 1;
    if i < n {
      IdleTicks(ps[..n], i);
    } else {
      IdleNeverCarries(ps[n]);
    }
  }

  lemma {:induction false} IdleStays(g: Glob, i: nat, n: nat)
    requires ValidGlob(g) && i < |g.patterns| && Idle(g.patterns[i])
    ensures i < |After(g, n).patterns| && Idle(After(g, n).patterns[i]) && Call(g, n).Some?
    decreases n
  {
    hide Tick, Globbed, Idle;
    if n > 0 {
      IdleStays(g, i, n - 1);
      IdleTicks(After(g, n - 1).patterns, i);
    }
    IdleTicks(After(g, n).patterns, i);
  }

  // Any glob the parser returns.
  predicate New(g: Glob) {
    ValidGlob(g) && !g.beenhere && forall p :: p in g.patterns ==> Rewound(p)
  }

  lemma NeverEnds(g: Glob, p: Pattern, n: nat)
    requires New(g) && p in g.patterns && !Turns(p)
    ensures Call(g, n).Some?
  {
    hide Turns, Idle, Call;
    var i :| 0 <= i < |g.patterns| && g.patterns[i] == p;
    IdleStarts(p);
    IdleStays(g, i, n);
  }

  lemma EndsAtTotal(g: Glob, n: nat)
    requires New(g) && AllTurn(g.patterns) && n <= Total(g.patterns)
    ensures Call(g, n).Some? <==> n < Total(g.patterns)
  {
    hide Turns, Total, Call;
    TotalPositive(g.patterns);
    var total := Total(g.patterns);
    if n < total {
      DivMod(0, n, total);
    } else {
      DivMod(1, 0, total);
    }
    CallsEnumerate(g, n);
  }

  /** The calls come to an end exactly if every pattern turns. */
  lemma EndsIff(g: Glob)
    requires New(g)
    ensures (exists n :: Call(g, n) == None) <==> AllTurn(g.patterns)
  {
    hide Turns, Total, Call, Rewound;
    if AllTurn(g.patterns) {
      EndsAtTotal(g, Total(g.patterns));
      assert Call(g, Total(g.patterns)) == None;
    } else {
      var p :| p in g.patterns && !Turns(p);
      forall n: nat
        ensures Call(g, n) != None
      {
        NeverEnds(g, p, n);
      }
    }
  }

  /** The calls give exactly the number announced, and then none, exactly if every
      pattern turns and the numbers of values multiply to it. */
  lemma AnnouncedIff(g: Glob)
    requires New(g)
    ensures (forall n: nat :: n <= Amount(g.patterns) ==> (Call(g, n).Some? <==> n < Amount(g.patterns)))
       <==> AllTurn(g.patterns) && Total(g.patterns) == Amount(g.patterns)
  {
    hide Turns, Total, Call, Amount, Rewound;
    var amount := Amount(g.patterns);
    if AllTurn(g.patterns) {
      var total := Total(g.patterns);
      forall n: nat | n <= total
        ensures Call(g, n).Some? <==> n < total
      {
        EndsAtTotal(g, n);
      }
      if amount < total {
        assert Call(g, amount).Some?;
      } else if total < amount {
        assert Call(g, total) == None;
      }
    } else {
      var p :| p in g.patterns && !Turns(p);
      NeverEnds(g, p, amount);
    }
  }

  // Step one everywhere, and no character range that ends at DEL.
  predicate PlainSteps(p: Pattern) {
    match p
    case Set(_, _) => true
    case CharRange(_, max, step, _) => step == 1 && max < CHAR_MAX
    case NumRange(_, _, pace, _, _) => pace == 1
  }

  /** The promise: with step one, as many URLs as announced, then "no more". */
  lemma ProducesAmount(g: Glob)
    requires New(g) && forall p :: p in g.patterns ==> PlainSteps(p)
    ensures forall n: nat :: n <= Amount(g.patterns) ==> (Call(g, n).Some? <==> n < Amount(g.patterns))
  {
    forall p | p in g.patterns
      ensures Turns(p) && Values(p) == Size(p)
    {
      PlainCounts(p);
    }
    hide Turns, Values, Size, Total, Call, Amount, Rewound, PlainSteps;
    AmountIff(g.patterns);
    AnnouncedIff(g);
  }

  lemma PlainCounts(p: Pattern)
    requires Parsed(p) && PlainSteps(p)
    ensures Turns(p) && Values(p) == Size(p)
  {
    if p.CharRange? {
      assert (p.max - p.min) / 1 * 1 == p.max - p.min;
    }
    StraightCounts(p);
  }

  // ----- The glob object -----

  class UrlGlob {
    const literals: seq<seq<byte>>
    var patterns: seq<Pattern>
    var beenhere: bool

    ghost predicate Valid()
      reads this
    {
      ValidGlob(View())
    }

    ghost function View(): Glob
      reads this
    {
      Glob(literals, patterns, beenhere)
    }

    // size counts literals and patterns together.
    function Size(): nat
      reads this
    {
      2 * |patterns| + 1
    }

    constructor (literals: seq<seq<byte>>, patterns: seq<Pattern>)
      requires |literals| == |patterns| + 1 && AllParsed(patterns)
      ensures Valid() && View() == Glob(literals, patterns, false)
    {
      this.literals, this.patterns, beenhere := literals, patterns, false;
    }

    // The counter over all patterns, starting with the rightmost.
    method TurnOver() returns (carry: bool)
      requires Valid()
      modifies this`patterns
      ensures Valid()
      ensures (patterns, carry) == Tick(old(patterns))
    {
      hide Advance, Tick, Parsed, Combined;
      ghost var was, done := patterns, [];
      carry := true;
      var i := Size() / 2 - 1;
      TurnBounds(was);
      while carry && i >= 0
        invariant -1 <= i < |was| && AllParsed(patterns) && AllParsed(was) && AllParsed(done)
        invariant patterns == was[..i + 1] + done
        invariant Tick(was) == Combined(Tick(was[..i + 1]), patterns, done, carry)
        decreases i
      {
        TurnStep(was, done, i);
        var moved := Advance(patterns[i]);
        patterns := patterns[i := moved.0];
        carry := moved.1;
        done := [moved.0] + done;
        i := i - 1;
      }
      TurnEnds(was, i + 1, done, patterns, carry);
    }

    // One after the other, every even term a literal and every odd one a pattern.
    method Write() returns (buf: seq<byte>)
      requires Valid()
      ensures buf == Url(literals, patterns)
    {
      hide Url, TextOf, Parsed;
      buf := [];
      var j := 0;
      while j < Size()
        invariant j <= Size()
        invariant j == 0 ==> buf == []
        invariant j % 2 == 1 ==> buf == Url(literals[..j / 2 + 1], patterns[..j / 2])
        invariant j > 0 && j % 2 == 0 ==>
                    buf == Url(literals[..j / 2], patterns[..j / 2 - 1]) + TextOf(patterns[j / 2 - 1])
      {
        if j % 2 == 0 {
          buf := buf + literals[j / 2];
          UrlSnoc(literals, patterns, j / 2);
        } else {
          buf := buf + TextOf(patterns[j / 2]);
        }
        j := j + 1;
      }
      assert literals[..|literals|] == literals && patterns[..|patterns|] == patterns;
    }

    method NextUrl() returns (globbed: Option<seq<byte>>)
      requires Valid()
      modifies this
      ensures Valid()
      ensures (View(), globbed) == Next(old(View()))
    {
      if !beenhere {
        beenhere := true;
      } else {
        var carry := TurnOver();
        if carry {
          return None;
        }
      }
      var buf := Write();
      var copy := StrDup(buf);
      globbed := Some(copy);
    }

    method StrDup(buf: seq<byte>) returns (copy: seq<byte>)
      ensures copy == CString(buf)
    {
      copy := [];
      var i := 0;
      while i < |buf| && buf[i] != 0
        invariant i <= |buf| && copy + CString(buf[i..]) == CString(buf)
      {
        copy := copy + [buf[i]];
        assert buf[i..][1..] == buf[i + 1..];
        i := i + 1;
      }
    }
  }

  // A partly moved odometer: with a carry, the left part's own tick is still to come.
  ghost function Combined(left: (seq<Pattern>, bool), now: seq<Pattern>, done: seq<Pattern>, carry: bool): (seq<Pattern>, bool) {
    if carry then (left.0 + done, left.1) else (now, false)
  }

  lemma TickSnoc(ps: seq<Pattern>)
    requires AllParsed(ps) && ps != []
    ensures var n := |ps| - 1;
            var (last, carry) := Advance(ps[n]);
            Tick(ps) == if carry then (Tick(ps[..n]).0 + [last], Tick(ps[..n]).1) else (ps[..n] + [last], false)
  {
    hide Advance;
  }

  lemma TurnBounds(was: seq<Pattern>)
    requires AllParsed(was)
    ensures was[..|was|] == was && was + [] == was
    ensures Tick(was) == Combined(Tick(was[..|was|]), was, [], true)
  {
    assert was[..|was|] == was && Tick(was).0 + [] == Tick(was).0;
  }

  // With nothing to the left, a carry leaves the odometer.
  lemma TurnEnds(was: seq<Pattern>, i: nat, done: seq<Pattern>, now: seq<Pattern>, carry: bool)
    requires AllParsed(was) && i <= |was| && now == was[..i] + done && (carry ==> i == 0)
    ensures Combined(Tick(was[..i]), now, done, carry) == (now, carry)
  {
    if carry {
      assert was[..0] == [] && [] + done == done;
    }
  }

  lemma TurnStep(was: seq<Pattern>, done: seq<Pattern>, i: nat)
    requires AllParsed(was) && AllParsed(done) && i < |was|
    ensures var moved := Advance(was[i]);
            var now, next := was[..i + 1] + done, was[..i] + ([moved.0] + done);
            && now[i] == was[i] && now[i := moved.0] == next && AllParsed(next) && AllParsed([moved.0] + done)
            && Combined(Tick(was[..i + 1]), now, done, true) == Combined(Tick(was[..i]), next, [moved.0] + done, moved.1)
  {
    hide Advance, Parsed, Tick;
    var moved := Advance(was[i]);
    AdvanceParsed(was[i]);
    TickSnoc(was[..i + 1]);
    assert was[..i + 1][..i] == was[..i];
    var left := Tick(was[..i]).0;
    assert left + [moved.0] + done == left + ([moved.0] + done);
    assert was[..i] + [moved.0] + done == was[..i] + ([moved.0] + done);
  }

  lemma AdvanceParsed(p: Pattern)
    requires Parsed(p)
    ensures Parsed(Advance(p).0)
  {
  }

  lemma UrlSnoc(literals: seq<seq<byte>>, ps: seq<Pattern>, k: nat)
    requires |literals| == |ps| + 1 && AllParsed(ps) && k <= |ps|
    ensures Url(literals[..k + 1], ps[..k]) ==
            if k == 0 then literals[0]
            else Url(literals[..k], ps[..k - 1]) + TextOf(ps[k - 1]) + literals[k]
  {
    if k > 0 {
      assert literals[..k + 1][..k] == literals[..k];
      assert ps[..k][..k - 1] == ps[..k - 1];
    }
  }
}
