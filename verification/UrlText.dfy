/** What an URL given by the globber says: the literals and the pattern texts in their
    order, numbers in decimal, filled up with zeros. */
module UrlTexts {
  import opened Words
  import opened UrlGlobs

  const MINUS: byte := 45

  // ----- Decimal numbers -----

  predicate Decimal(t: seq<byte>) {
    t != [] && AllDigits(t)
  }

  predicate AllDigits(t: seq<byte>) {
    forall i :: 0 <= i < |t| ==> '0' as int <= t[i] <= '9' as int
  }

  // The last digit counts units.
  function DecimalValue(t: seq<byte>): nat
    requires AllDigits(t)
  {
    if t == [] then 0 else 10 * DecimalValue(t[..|t| - 1]) + (t[|t| - 1] - '0' as int)
  }

  function Pow10(n: nat): (p: nat)
    ensures p > 0
  {
    if n == 0 then 1 else 10 * Pow10(n - 1)
  }

  lemma {:induction false} Pow10Grows(m: nat, n: nat)
    requires m <= n
    ensures Pow10(m) <= Pow10(n)
  {
    if m < n {
      Pow10Grows(m, n - 1);
    }
  }

  lemma {:induction false} ValueBounds(t: seq<byte>)
    requires AllDigits(t)
    ensures DecimalValue(t) < Pow10(|t|)
    ensures t != [] && t[0] != '0' as int ==> DecimalValue(t) >= Pow10(|t| - 1)
  {
    if t != [] {
      ValueBounds(t[..|t| - 1]);
    }
  }

  lemma {:induction false} SameLengthUnique(t: seq<byte>, u: seq<byte>)
    requires AllDigits(t) && AllDigits(u) && |t| == |u| && DecimalValue(t) == DecimalValue(u)
    ensures t == u
    decreases |t|
  {
    if t != [] {
      var n := |t| - 1;
      LastDigit(DecimalValue(t[..n]), t[n] - '0' as int, DecimalValue(u[..n]), u[n] - '0' as int);
      SameLengthUnique(t[..n], u[..n]);
      assert t == t[..n] + [t[n]] && u == u[..n] + [u[n]];
    }
  }

  lemma LastDigit(a: nat, x: nat, b: nat, y: nat)
    requires x < 10 && y < 10 && 10 * a + x == 10 * b + y
    ensures a == b && x == y
  {
  }

  // Leading zeros stand only where the text is as long as the width asks.
  predicate ZerosFill(t: seq<byte>, width: int) {
    |t| >= width && (|t| > 1 && t[0] == '0' as int ==> |t| == width)
  }

  // The text of a number: a sign for a negative one, and at least this long.
  predicate Denotes(t: seq<byte>, n: int, width: int) {
    if n >= 0 then Decimal(t) && DecimalValue(t) == n && ZerosFill(t, width)
    else t != [] && t[0] == MINUS && Decimal(t[1..]) && DecimalValue(t[1..]) == -n && ZerosFill(t[1..], width - 1)
  }

  lemma OneLength(t: seq<byte>, u: seq<byte>, width: int)
    requires Decimal(t) && Decimal(u) && DecimalValue(t) == DecimalValue(u)
    requires ZerosFill(t, width) && ZerosFill(u, width)
    ensures |t| >= |u|
  {
    if |t| < |u| {
      ValueBounds(t);
      ValueBounds(u);
      Pow10Grows(|t|, |u| - 1);
    }
  }

  // There is only one such text.
  lemma DenotesOnce(t: seq<byte>, u: seq<byte>, n: int, width: int)
    requires Denotes(t, n, width) && Denotes(u, n, width)
    ensures t == u
  {
    hide DecimalValue;
    if n >= 0 {
      OneLength(t, u, width);
      OneLength(u, t, width);
      SameLengthUnique(t, u);
    } else {
      OneLength(t[1..], u[1..], width - 1);
      OneLength(u[1..], t[1..], width - 1);
      SameLengthUnique(t[1..], u[1..]);
      assert t == [MINUS] + t[1..] && u == [MINUS] + u[1..];
    }
  }

  lemma {:induction false} DigitsDenote(n: nat)
    ensures Decimal(Digits10(n)) && DecimalValue(Digits10(n)) == n
    ensures |Digits10(n)| > 1 ==> Digits10(n)[0] != '0' as int
    ensures n > 0 ==> Digits10(n)[0] != '0' as int
  {
    if n >= 10 {
      DigitsDenote(n / 10);
      var t := Digits10(n);
      assert t[..|t| - 1] == Digits10(n / 10) && t[|t| - 1] == '0' as int + n % 10;
    } else {
      assert DecimalValue([]) == 0 && Digits10(n)[..0] == [];
    }
  }

  lemma {:induction false} ZerosAdd(k: int, t: seq<byte>)
    requires Decimal(t)
    ensures |Zeros(k)| == Max(k, 0)
    ensures Decimal(Zeros(k) + t) && DecimalValue(Zeros(k) + t) == DecimalValue(t)
    decreases k
  {
    if k <= 0 {
      assert Zeros(k) + t == t;
    } else {
      ZerosAdd(k - 1, t);
      var rest := Zeros(k - 1) + t;
      assert Zeros(k) + t == ['0' as int] + rest;
      ZeroInFront(rest);
    }
  }

  lemma {:induction false} ZeroInFront(t: seq<byte>)
    requires AllDigits(t)
    ensures AllDigits(['0' as int] + t) && DecimalValue(['0' as int] + t) == DecimalValue(t)
    decreases |t|
  {
    var u := ['0' as int] + t;
    if t == [] {
      assert u[..0] == [];
    } else {
      assert u[..|u| - 1] == ['0' as int] + t[..|t| - 1];
      ZeroInFront(t[..|t| - 1]);
    }
  }

  lemma FilledDenotes(n: nat, width: int)
    ensures Denotes(Zeros(width - |Digits10(n)|) + Digits10(n), n, width)
  {
    hide DecimalValue, Digits10, Zeros;
    DigitsDenote(n);
    ZerosAdd(width - |Digits10(n)|, Digits10(n));
  }

  /** The text of a number is the one decimal text of its value that is long enough,
      with leading zeros only as filler, behind a sign if it is negative. */
  lemma PaddedIff(n: int, width: nat, t: seq<byte>)
    ensures t == Padded(n, width) <==> Denotes(t, n, width)
  {
    hide DecimalValue, Digits10, Zeros;
    if n >= 0 {
      FilledDenotes(n, width);
    } else {
      FilledDenotes(-n, width - 1);
      assert Padded(n, width)[1..] == Zeros(width - 1 - |Digits10(-n)|) + Digits10(-n);
    }
    if Denotes(t, n, width) {
      DenotesOnce(t, Padded(n, width), n, width);
    }
  }

  // ----- Whole URLs -----

  // A literal first and last, and in between by turns.
  function Alternate(literals: seq<seq<byte>>, texts: seq<seq<byte>>): seq<seq<byte>>
    requires |literals| == |texts| + 1
  {
    seq(|literals| + |texts|, j requires 0 <= j < |literals| + |texts| =>
      if j % 2 == 0 then literals[j / 2] else texts[j / 2])
  }

  function Texts(ps: seq<Pattern>): (texts: seq<seq<byte>>)
    requires AllParsed(ps)
    ensures |texts| == |ps|
  {
    seq(|ps|, i requires 0 <= i < |ps| => TextOf(ps[i]))
  }

  lemma {:induction false} UrlIsJoined(literals: seq<seq<byte>>, ps: seq<Pattern>)
    requires |literals| == |ps| + 1 && AllParsed(ps)
    ensures Url(literals, ps) == Flatten(Alternate(literals, Texts(ps)))
    decreases |ps|
  {
    hide TextOf, Flatten;
    var all := Alternate(literals, Texts(ps));
    if ps == [] {
      FlattenSnoc([], literals[0]);
      NothingJoined();
      assert all == [] + [literals[0]];
    } else {
      var n := |ps| - 1;
      var fewer := Alternate(literals[..n + 1], Texts(ps[..n]));
      UrlIsJoined(literals[..n + 1], ps[..n]);
      assert Texts(ps)[n] == TextOf(ps[n]);
      assert all == fewer + [TextOf(ps[n])] + [literals[n + 1]];
      FlattenSnoc(fewer, TextOf(ps[n]));
      FlattenSnoc(fewer + [TextOf(ps[n])], literals[n + 1]);
    }
  }

  lemma NothingJoined()
    ensures Flatten<byte>([]) == []
  {
  }

  // What a pattern shows at its k-th value.
  ghost predicate Shows(p: Pattern, k: nat, t: seq<byte>) {
    match p
    case Set(elements, _) => k < |elements| && t == elements[k]
    case CharRange(min, _, step, _) => t == [(min + k * step) % 256]
    case NumRange(low, _, pace, padlength, _) => Denotes(t, low + k * pace, padlength)
  }

  lemma AtShows(p: Pattern, k: nat)
    requires Turns(p) && k < Values(p)
    ensures Shows(p, k, TextOf(At(p, k)))
  {
    hide Denotes, Padded, Digits10;
    match p {
      case Set(_, _) =>
      case CharRange(min, _, step, _) => SignedByte(min + k * step);
      case NumRange(low, _, pace, padlength, _) =>
        PaddedIff(low + k * pace, padlength, Padded(low + k * pace, padlength));
    }
  }

  lemma SignedByte(x: int)
    ensures Unsigned(SignedChar(x)) == x % 256
  {
  }

  // A string as far as its first zero byte.
  ghost predicate CStringOf(t: seq<byte>, buffer: seq<byte>) {
    t <= buffer && 0 !in t && (|t| < |buffer| ==> buffer[|t|] == 0)
  }

  lemma {:induction false} CStringMeaning(buffer: seq<byte>)
    ensures CStringOf(CString(buffer), buffer)
  {
    if buffer != [] && buffer[0] != 0 {
      CStringMeaning(buffer[1..]);
      assert buffer == [buffer[0]] + buffer[1..];
    }
  }

  /** What a call before the end gives: the literals and, between them, the text of each
      pattern's value in the combination with the number of the call, as a C string. */
  lemma CallShows(g: Glob, n: nat) returns (texts: seq<seq<byte>>)
    requires Fresh(g) && n < Total(g.patterns)
    ensures |texts| == |g.patterns| && |g.literals| == |texts| + 1
    ensures var v := Digits(g.patterns, n);
            && Choice(g.patterns, v) && Number(g.patterns, v) == n
            && (forall i :: 0 <= i < |texts| ==> Shows(g.patterns[i], v[i], texts[i]))
    ensures Call(g, n).Some? && CStringOf(Call(g, n).value, Flatten(Alternate(g.literals, texts)))
  {
    hide Total, Dial, Call, Digits, TextOf, At, Shows, Values, Number, Choice;
    var ps := g.patterns;
    DivMod(0, n, Total(ps));
    CallsEnumerate(g, n);
    NumberInverts(ps, n);
    var v := Digits(ps, n);
    texts := Texts(Dial(ps, v));
    ShownTexts(ps, v);
    UrlIsJoined(g.literals, Dial(ps, v));
    CStringMeaning(Url(g.literals, Dial(ps, v)));
  }

  lemma ShownTexts(ps: seq<Pattern>, v: seq<nat>)
    requires AllTurn(ps) && Choice(ps, v)
    ensures forall i :: 0 <= i < |ps| ==> Shows(ps[i], v[i], Texts(Dial(ps, v))[i])
  {
    hide TextOf, At, Shows, Values;
    forall i | 0 <= i < |ps|
      ensures Shows(ps[i], v[i], Texts(Dial(ps, v))[i])
    {
      AtShows(ps[i], v[i]);
    }
  }
}
