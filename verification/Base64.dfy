/** The resumable base64 coder (sections 4 and 5 of RFC 4648): both directions
    can stop after any byte and go on later. Characters are bytes. */
module Base64 {
  import opened Words

  // Lines hold 72 characters, that is 18 groups of four.
  const GROUPS_PER_LINE := 18
  const NEWLINE: byte := 10

  // What the read one past the end of the decoding table happens to find is
  // not determined by the program; it is part of the configuration.
  datatype Symbols = Symbols(plus: byte, slash: byte, equals: byte, wrap: bool, pastTable: int)

  // ----- One digit -----

  function Encode1(value: nat, sym: Symbols): byte {
    if value > 64 then sym.equals
    else if value == 64 then 0
    else if value == 63 then sym.slash
    else if value == 62 then sym.plus
    else if value >= 52 then 48 + (value - 52)
    else if value >= 26 then 97 + (value - 26)
    else 65 + value
  }

  predicate Alphanumeric(c: byte) {
    48 <= c <= 57 || 65 <= c <= 90 || 97 <= c <= 122
  }

  // Negative where the character is to be skipped.
  function Decode1(c: byte, sym: Symbols): int {
    var value := if c == sym.plus then 43 else if c == sym.slash then 47 else c as int;
    var index := Wrap32(value - 43);
    if index > 80 then -1
    else if index == 80 then sym.pastTable
    else if value == 43 then 62
    else if value == 47 then 63
    else if 48 <= value <= 57 then value - 48 + 52
    else if 65 <= value <= 90 then value - 65
    else if 97 <= value <= 122 then value - 97 + 26
    else -1
  }

  // The digits can be told apart and the padding cannot be mistaken for one.
  predicate Distinct(sym: Symbols) {
    && !Alphanumeric(sym.plus) && !Alphanumeric(sym.slash) && sym.plus != sym.slash
    && !Alphanumeric(sym.equals) && sym.equals != sym.plus && sym.equals != sym.slash
    && sym.equals != 43 && sym.equals != 47 && (sym.equals == 123 ==> sym.pastTable < 0)
    && (sym.wrap ==> sym.plus != NEWLINE && sym.slash != NEWLINE)
  }

  ghost predicate DigitsInvert(sym: Symbols) {
    && (forall v: nat :: v < 64 ==> Decode1(Encode1(v, sym), sym) == v)
    && Decode1(sym.equals, sym) < 0
    && (sym.wrap ==> Decode1(NEWLINE, sym) < 0)
  }

  lemma InvertNeedsDistinct(sym: Symbols)
    requires DigitsInvert(sym)
    ensures Distinct(sym)
  {
    assert Decode1(Encode1(62, sym), sym) == 62;
    assert Decode1(Encode1(63, sym), sym) == 63;
    if Alphanumeric(sym.plus) {
      AlphanumericDigit(sym.plus, sym);
    }
    if Alphanumeric(sym.slash) {
      AlphanumericDigit(sym.slash, sym);
    }
  }

  lemma DistinctInverts(sym: Symbols)
    requires Distinct(sym)
    ensures DigitsInvert(sym)
  {
    forall v: nat | v < 64
      ensures Decode1(Encode1(v, sym), sym) == v
    {
      DigitInverts(sym, v);
    }
  }

  lemma DigitInverts(sym: Symbols, v: nat)
    requires Distinct(sym) && v < 64
    ensures Decode1(Encode1(v, sym), sym) == v
  {
  }

  /** Decoding a digit undoes encoding it, and padding is skipped, exactly for
      distinct symbols. */
  lemma DigitsInvertIff(sym: Symbols)
    ensures DigitsInvert(sym) <==> Distinct(sym)
  {
    hide DigitsInvert, Distinct;
    if DigitsInvert(sym) {
      InvertNeedsDistinct(sym);
    } else if Distinct(sym) {
      DistinctInverts(sym);
    }
  }

  lemma AlphanumericDigit(c: byte, sym: Symbols)
    requires Alphanumeric(c)
    ensures exists v: nat :: v < 62 && Encode1(v, sym) == c
  {
    var v: nat := if c <= 57 then c - 48 + 52 else if c <= 90 then c - 65 else c - 97 + 26;
    assert Encode1(v, sym) == c;
  }

  // ----- Encoding, as a function of what was consumed -----

  // What one more byte after the given ones adds to the code.
  function EmitAt(sym: Symbols, before: seq<byte>, x: byte): seq<byte> {
    var n := |before|;
    if n % 3 == 0 then [Encode1(Quot(x, 4), sym)]
    else if n % 3 == 1 then [Encode1(Rem(before[n - 1], 4) * 16 + Quot(x, 16), sym)]
    else
      [Encode1(Rem(before[n - 1], 16) * 4 + Quot(x, 64), sym), Encode1(Rem(x, 64), sym)] +
      (if sym.wrap && (n / 3 + 1) % GROUPS_PER_LINE == 0 then [NEWLINE] else [])
  }

  function Code(sym: Symbols, before: seq<byte>, piece: seq<byte>): seq<byte>
    decreases |piece|
  {
    if piece == [] then [] else
    EmitAt(sym, before, piece[0]) + Code(sym, before + [piece[0]], piece[1..])
  }

  function Ending(sym: Symbols, all: seq<byte>): seq<byte> {
    var n := |all|;
    (if n % 3 == 1 then [Encode1(Rem(all[n - 1], 4) * 16, sym), sym.equals, sym.equals]
     else if n % 3 == 2 then [Encode1(Rem(all[n - 1], 16) * 4, sym), sym.equals]
     else []) + (if sym.wrap then [NEWLINE] else [])
  }

  function Whole(sym: Symbols, all: seq<byte>): seq<byte> {
    Code(sym, [], all) + Ending(sym, all)
  }

  lemma {:induction false} CodeConcat(sym: Symbols, before: seq<byte>, p: seq<byte>, q: seq<byte>)
    ensures Code(sym, before, p + q) == Code(sym, before, p) + Code(sym, before + p, q)
    decreases |p|
  {
    if p == [] {
      assert p + q == q && before + p == before;
    } else {
      assert (p + q)[1..] == p[1..] + q;
      assert before + p == before + [p[0]] + p[1..];
      CodeConcat(sym, before + [p[0]], p[1..], q);
    }
  }

  // Positions within the group of three and within the line.
  lemma NextPosition(n: nat)
    ensures (n + 1) % 3 == (if n % 3 == 2 then 0 else n % 3 + 1)
    ensures (n + 1) / 3 == (if n % 3 == 2 then n / 3 + 1 else n / 3)
  {
  }

  lemma NextGroup(g: nat)
    ensures (g + 1) % GROUPS_PER_LINE == (if g % GROUPS_PER_LINE == GROUPS_PER_LINE - 1 then 0 else g % GROUPS_PER_LINE + 1)
  {
    var q, r := g / 18, g % 18;
    assert g == 18 * q + r;
  }

  class Encoder {
    const sym: Symbols
    var step: nat
    var stepcount: nat
    var result: nat
    // The bytes consumed since the last reset.
    ghost var taken: seq<byte>

    ghost predicate Valid()
      reads this
    {
      var n := |taken|;
      step == n % 3 && stepcount == (if sym.wrap then n / 3 % GROUPS_PER_LINE else 0) &&
      (step == 1 ==> result == Rem(taken[n - 1], 4) * 16) && (step == 2 ==> result == Rem(taken[n - 1], 16) * 4)
    }

    constructor (sym: Symbols)
      ensures Valid() && this.sym == sym && taken == []
    {
      this.sym := sym;
      step, stepcount, result, taken := 0, 0, 0, [];
    }

    method Encode(plain: seq<byte>) returns (code: seq<byte>)
      requires Valid()
      modifies this
      ensures Valid() && taken == old(taken) + plain
      ensures code == Code(sym, old(taken), plain)
    {
      hide EmitAt, Encoder.Valid;
      code := [];
      var i := 0;
      assert plain[0..] == plain && old(taken) + plain[..0] == old(taken);
      while i < |plain|
        invariant Valid() && i <= |plain| && taken == old(taken) + plain[..i]
        invariant code + Code(sym, taken, plain[i..]) == Code(sym, old(taken), plain)
      {
        var emitted := EncodeByte(plain[i]);
        code := code + emitted;
        assert plain[i..][1..] == plain[i + 1..];
        assert plain[..i + 1] == plain[..i] + [plain[i]];
        i := i + 1;
      }
      assert plain[..i] == plain;
    }

    // One round of the switch: the low bits wait in the result.
    method EncodeByte(fragment: byte) returns (emitted: seq<byte>)
      requires Valid()
      modifies this
      ensures Valid() && taken == old(taken) + [fragment]
      ensures emitted == EmitAt(sym, old(taken), fragment)
    {
      hide Encode1;
      NextPosition(|taken|);
      NextGroup(|taken| / 3);
      if step == 0 {
        emitted := [Encode1(Quot(fragment, 4), sym)];
        result := Rem(fragment, 4) * 16;
        step := 1;
      } else if step == 1 {
        emitted := [Encode1(result + Quot(fragment, 16), sym)];
        result := Rem(fragment, 16) * 4;
        step := 2;
      } else {
        emitted := [Encode1(result + Quot(fragment, 64), sym), Encode1(Rem(fragment, 64), sym)];
        result := Rem(fragment, 64);
        step := 0;
        if sym.wrap {
          stepcount := stepcount + 1;
          if stepcount == GROUPS_PER_LINE {
            emitted := emitted + [NEWLINE];
            stepcount := 0;
          }
        }
      }
      taken := taken + [fragment];
    }

    method EncodeEnd() returns (code: seq<byte>)
      requires Valid()
      modifies this
      ensures Valid() && taken == []
      ensures code == Ending(sym, old(taken))
    {
      code := [];
      if step == 1 {
        code := [Encode1(result, sym), sym.equals, sym.equals];
      } else if step == 2 {
        code := [Encode1(result, sym), sym.equals];
      }
      if sym.wrap {
        code := code + [NEWLINE];
      }
      step, stepcount, result := 0, 0, 0;
      taken := [];
    }
  }

  // ----- Decoding -----

  // The step (0 to 3) and the high bits of the byte under construction.
  datatype Pending = Pending(step: nat, high: nat)

  datatype Decoded = Decoded(st: Pending, out: seq<byte>)

  ghost predicate PendingOk(st: Pending) {
    st.step < 4 && (st.step == 1 ==> st.high < 64) && (st.step == 2 ==> st.high < 16) && (st.step == 3 ==> st.high < 4)
  }

  function DecodeChar(st: Pending, c: byte, sym: Symbols): (d: Decoded)
    requires PendingOk(st)
    ensures PendingOk(d.st)
  {
    var fragment := Decode1(c, sym);
    if fragment < 0 then Decoded(st, []) else TakeDigit(st, fragment % 64)
  }

  function TakeDigit(st: Pending, f: nat): (d: Decoded)
    requires PendingOk(st) && f < 64
    ensures PendingOk(d.st)
  {
    if st.step == 0 then Decoded(Pending(1, f), [])
    else if st.step == 1 then Decoded(Pending(2, Rem(f, 16)), [st.high * 4 + Quot(f, 16)])
    else if st.step == 2 then Decoded(Pending(3, Rem(f, 4)), [st.high * 16 + Quot(f, 4)])
    else Decoded(Pending(0, 0), [st.high * 64 + f])
  }

  function DecodePiece(st: Pending, piece: seq<byte>, sym: Symbols): (d: Decoded)
    requires PendingOk(st)
    ensures PendingOk(d.st)
    decreases |piece|
  {
    if piece == [] then Decoded(st, []) else
    var first := DecodeChar(st, piece[0], sym);
    var rest := DecodePiece(first.st, piece[1..], sym);
    Decoded(rest.st, first.out + rest.out)
  }

  lemma {:induction false} DecodeConcat(st: Pending, p: seq<byte>, q: seq<byte>, sym: Symbols)
    requires PendingOk(st)
    ensures var first := DecodePiece(st, p, sym);
            var second := DecodePiece(first.st, q, sym);
            DecodePiece(st, p + q, sym) == Decoded(second.st, first.out + second.out)
    decreases |p|
  {
    hide DecodeChar;
    if p == [] {
      assert p + q == q;
    } else {
      assert (p + q)[1..] == p[1..] + q;
      DecodeConcat(DecodeChar(st, p[0], sym).st, p[1..], q, sym);
    }
  }

  class Decoder {
    const sym: Symbols
    var step: nat
    var plainchar: nat
    // The high bits before they were shifted into place.
    ghost var high: nat

    ghost function Abs(): Pending
      reads this
    {
      Pending(step, high)
    }

    ghost predicate Valid()
      reads this
    {
      PendingOk(Abs()) &&
      (step == 1 ==> plainchar == high * 4) && (step == 2 ==> plainchar == high * 16) && (step == 3 ==> plainchar == high * 64)
    }

    constructor (sym: Symbols)
      ensures Valid() && Abs() == Pending(0, 0) && this.sym == sym
    {
      this.sym := sym;
      step, plainchar, high := 0, 0, 0;
    }

    method Decode(code: seq<byte>) returns (plain: seq<byte>)
      requires Valid()
      modifies this
      ensures Valid()
      ensures Decoded(Abs(), plain) == DecodePiece(old(Abs()), code, sym)
    {
      hide Decode1, Decoder.Valid, DecodeChar;
      PendingFromValid();
      plain := [];
      var i := 0;
      ghost var all := DecodePiece(Abs(), code, sym);
      assert code[0..] == code;
      while i < |code|
        invariant Valid() && PendingOk(Abs()) && i <= |code|
        invariant var rest := DecodePiece(Abs(), code[i..], sym);
                  all == Decoded(rest.st, plain + rest.out)
      {
        var more := DecodeByte(code[i]);
        plain := plain + more;
        assert code[i..][1..] == code[i + 1..];
        i := i + 1;
      }
    }

    lemma PendingFromValid()
      requires Valid()
      ensures PendingOk(Abs())
    {
    }

    // One character; the bits already placed are below the new ones.
    method DecodeByte(c: byte) returns (plain: seq<byte>)
      requires Valid() && PendingOk(Abs())
      modifies this
      ensures Valid() && PendingOk(Abs())
      ensures Decoded(Abs(), plain) == DecodeChar(old(Abs()), c, sym)
    {
      hide Decode1;
      var fragment := Decode1(c, sym);
      plain := [];
      if fragment >= 0 {
        var f := fragment % 64;
        if step == 0 {
          plainchar, high := f * 4, f;
          step := 1;
        } else if step == 1 {
          plain := [plainchar + Quot(f, 16)];
          plainchar, high := Rem(f, 16) * 16, Rem(f, 16);
          step := 2;
        } else if step == 2 {
          plain := [plainchar + Quot(f, 4)];
          plainchar, high := Rem(f, 4) * 64, Rem(f, 4);
          step := 3;
        } else {
          plain := [plainchar + f];
          plainchar, high := 0, 0;
          step := 0;
        }
      }
    }
  }

  // ----- The round trip -----

  // What decoding the code of some bytes has got to.
  function Progress(all: seq<byte>): Decoded {
    var n := |all|;
    if n % 3 == 0 then Decoded(Pending(0, 0), all)
    else if n % 3 == 1 then Decoded(Pending(1, Quot(all[n - 1], 4)), all[..n - 1])
    else Decoded(Pending(2, Quot(all[n - 1], 16)), all[..n - 1])
  }

  lemma OneDigit(sym: Symbols, st: Pending, v: nat)
    requires DigitsInvert(sym) && PendingOk(st) && v < 64
    ensures DecodePiece(st, [Encode1(v, sym)], sym) == TakeDigit(st, v)
  {
    hide Encode1, Decode1, TakeDigit;
    assert Decode1(Encode1(v, sym), sym) == v;
    assert DecodeChar(st, Encode1(v, sym), sym) == TakeDigit(st, v);
    assert TakeDigit(st, v).out + [] == TakeDigit(st, v).out;
  }

  // Padding and line ends are passed over.
  lemma {:induction false} Skipped(sym: Symbols, st: Pending, filler: seq<byte>)
    requires PendingOk(st) && forall i :: 0 <= i < |filler| ==> Decode1(filler[i], sym) < 0
    ensures DecodePiece(st, filler, sym) == Decoded(st, [])
    decreases |filler|
  {
    if filler != [] {
      Skipped(sym, st, filler[1..]);
    }
  }

  lemma DigitsThenFiller(sym: Symbols, st: Pending, v: nat, filler: seq<byte>)
    requires DigitsInvert(sym) && PendingOk(st) && v < 64
    requires forall i :: 0 <= i < |filler| ==> Decode1(filler[i], sym) < 0
    ensures DecodePiece(st, [Encode1(v, sym)] + filler, sym) == TakeDigit(st, v)
  {
    hide Encode1, Decode1;
    OneDigit(sym, st, v);
    Skipped(sym, TakeDigit(st, v).st, filler);
    DecodeConcat(st, [Encode1(v, sym)], filler, sym);
    assert TakeDigit(st, v).out + [] == TakeDigit(st, v).out;
  }

  // Two pieces of one byte, cut at a power of two, make it up again.
  lemma Halves(y: byte, x: byte)
    ensures var v := Rem(y, 4) * 16 + Quot(x, 16);
            v < 64 && Quot(y, 4) < 64 && Quot(y, 4) * 4 + Quot(v, 16) == y && Rem(v, 16) == Quot(x, 16)
    ensures var v := Rem(y, 16) * 4 + Quot(x, 64);
            v < 64 && Quot(y, 16) < 16 && Quot(y, 16) * 16 + Quot(v, 4) == y && Rem(v, 4) == Quot(x, 64) < 4
    ensures Quot(x, 64) * 64 + Rem(x, 64) == x && Quot(0, 16) == 0 && Quot(0, 64) == 0
  {
    hide Quot, Rem;
    QuotientBelow(0, 16, 1);
    QuotientBelow(0, 64, 1);
    QuotientBelow(x, 16, 16);
    QuotientBelow(x, 64, 4);
    QuotientBelow(y, 4, 64);
    QuotientBelow(y, 16, 16);
    DivMod(Rem(y, 4), Quot(x, 16), 16);
    DivMod(Rem(y, 16), Quot(x, 64), 4);
    QuotRem(y, 4);
    QuotRem(y, 16);
    QuotRem(x, 64);
  }

  ghost predicate Advances(sym: Symbols, before: seq<byte>, piece: seq<byte>, code: seq<byte>) {
    PendingOk(Progress(before).st) &&
    var d := DecodePiece(Progress(before).st, code, sym);
    Decoded(d.st, Progress(before).out + d.out) == Progress(before + piece)
  }

  lemma FirstOfThree(sym: Symbols, before: seq<byte>, x: byte)
    requires DigitsInvert(sym) && |before| % 3 == 0
    ensures Advances(sym, before, [x], EmitAt(sym, before, x))
  {
    hide Quot, Rem, Encode1, Decode1, DecodePiece, DigitsInvert;
    Halves(x, 0);
    OneDigit(sym, Progress(before).st, Quot(x, 4));
    assert (before + [x])[..|before|] == before;
  }

  lemma SecondOfThree(sym: Symbols, before: seq<byte>, x: byte)
    requires DigitsInvert(sym) && |before| % 3 == 1
    ensures Advances(sym, before, [x], EmitAt(sym, before, x))
  {
    hide Quot, Rem, Encode1, Decode1, DecodePiece, DigitsInvert;
    var y := before[|before| - 1];
    Halves(y, x);
    OneDigit(sym, Progress(before).st, Rem(y, 4) * 16 + Quot(x, 16));
    assert before == before[..|before| - 1] + [y];
    assert (before + [x])[..|before|] == before;
  }

  // Two digits, and at the end of a line a newline.
  lemma TwoDigits(sym: Symbols, before: seq<byte>, x: byte, st: Pending)
    requires DigitsInvert(sym) && |before| % 3 == 2 && PendingOk(st)
    ensures var first := TakeDigit(st, Rem(before[|before| - 1], 16) * 4 + Quot(x, 64));
            var second := TakeDigit(first.st, Rem(x, 64));
            DecodePiece(st, EmitAt(sym, before, x), sym) == Decoded(second.st, first.out + second.out)
  {
    hide Quot, Rem, Encode1, Decode1, DecodePiece, TakeDigit;
    var v := Rem(before[|before| - 1], 16) * 4 + Quot(x, 64);
    Halves(before[|before| - 1], x);
    var filler := if sym.wrap && (|before| / 3 + 1) % GROUPS_PER_LINE == 0 then [NEWLINE] else [];
    OneDigit(sym, st, v);
    DigitsThenFiller(sym, TakeDigit(st, v).st, Rem(x, 64), filler);
    DecodeConcat(st, [Encode1(v, sym)], [Encode1(Rem(x, 64), sym)] + filler, sym);
    assert EmitAt(sym, before, x) == [Encode1(v, sym)] + ([Encode1(Rem(x, 64), sym)] + filler);
  }

  lemma LastDigits(y: byte, x: byte)
    ensures Quot(y, 16) < 16 && Rem(y, 16) * 4 + Quot(x, 64) < 64 && Quot(x, 64) < 4
    ensures TakeDigit(Pending(2, Quot(y, 16)), Rem(y, 16) * 4 + Quot(x, 64)) == Decoded(Pending(3, Quot(x, 64)), [y])
    ensures TakeDigit(Pending(3, Quot(x, 64)), Rem(x, 64)) == Decoded(Pending(0, 0), [x])
  {
    hide Quot, Rem;
    Halves(y, x);
  }

  lemma ThirdOfThree(sym: Symbols, before: seq<byte>, x: byte)
    requires DigitsInvert(sym) && |before| % 3 == 2
    ensures Advances(sym, before, [x], EmitAt(sym, before, x))
  {
    hide Quot, Rem, EmitAt, DecodePiece, DigitsInvert, TakeDigit;
    var y := before[|before| - 1];
    LastDigits(y, x);
    TwoDigits(sym, before, x, Progress(before).st);
    assert before[..|before| - 1] + [y, x] == before + [x];
  }

  lemma NothingAdvances(sym: Symbols, before: seq<byte>)
    ensures Advances(sym, before, [], [])
  {
    assert before + [] == before;
  }

  lemma AdvancesOn(sym: Symbols, before: seq<byte>, p: seq<byte>, q: seq<byte>, c: seq<byte>, d: seq<byte>)
    requires Advances(sym, before, p, c) && Advances(sym, before + p, q, d)
    ensures Advances(sym, before, p + q, c + d)
  {
    hide PendingOk, Progress, DecodePiece;
    DecodeConcat(Progress(before).st, c, d, sym);
    assert before + p + q == before + (p + q);
  }

  lemma {:induction false} CodeDecodes(sym: Symbols, before: seq<byte>, piece: seq<byte>)
    requires DigitsInvert(sym)
    ensures Advances(sym, before, piece, Code(sym, before, piece))
    decreases |piece|
  {
    hide DigitsInvert, EmitAt, Advances;
    if piece == [] {
      NothingAdvances(sym, before);
    } else {
      match |before| % 3 {
        case 0 => FirstOfThree(sym, before, piece[0]);
        case 1 => SecondOfThree(sym, before, piece[0]);
        case _ => ThirdOfThree(sym, before, piece[0]);
      }
      CodeDecodes(sym, before + [piece[0]], piece[1..]);
      assert [piece[0]] + piece[1..] == piece;
      AdvancesOn(sym, before, [piece[0]], piece[1..], EmitAt(sym, before, piece[0]),
                 Code(sym, before + [piece[0]], piece[1..]));
    }
  }

  lemma EndingDecodes(sym: Symbols, all: seq<byte>)
    requires DigitsInvert(sym)
    ensures PendingOk(Progress(all).st)
    ensures Progress(all).out + DecodePiece(Progress(all).st, Ending(sym, all), sym).out == all
  {
    hide Quot, Rem, Encode1, Decode1, DecodePiece;
    var n := |all|;
    var st := Progress(all).st;
    var newline := if sym.wrap then [NEWLINE] else [];
    if n % 3 == 0 {
      Skipped(sym, st, newline);
      assert [] + newline == newline;
    } else {
      var y := all[n - 1];
      Halves(y, 0);
      assert all == all[..n - 1] + [y];
      if n % 3 == 1 {
        DigitsThenFiller(sym, st, Rem(y, 4) * 16, [sym.equals, sym.equals] + newline);
        assert Ending(sym, all) == [Encode1(Rem(y, 4) * 16, sym)] + ([sym.equals, sym.equals] + newline);
      } else {
        DigitsThenFiller(sym, st, Rem(y, 16) * 4, [sym.equals] + newline);
        assert Ending(sym, all) == [Encode1(Rem(y, 16) * 4, sym)] + ([sym.equals] + newline);
      }
    }
  }

  lemma NothingConsumed()
    ensures Progress([]) == Decoded(Pending(0, 0), [])
  {
  }

  lemma WholeDecodes(sym: Symbols, all: seq<byte>)
    requires Distinct(sym)
    ensures DecodePiece(Pending(0, 0), Whole(sym, all), sym).out == all
  {
    hide Distinct, DigitsInvert, Code, Ending, DecodePiece, Progress;
    NothingConsumed();
    DigitsInvertIff(sym);
    CodeDecodes(sym, [], all);
    EndingDecodes(sym, all);
    DecodeConcat(Pending(0, 0), Code(sym, [], all), Ending(sym, all), sym);
    assert [] + all == all;
  }

  // ----- Any split on either side -----

  // Successive calls of encode, then encode_end.
  function EncodePieces(sym: Symbols, taken: seq<byte>, pieces: seq<seq<byte>>): seq<byte>
    decreases |pieces|
  {
    if pieces == [] then Ending(sym, taken)
    else Code(sym, taken, pieces[0]) + EncodePieces(sym, taken + pieces[0], pieces[1..])
  }

  // Successive calls of decode.
  function DecodePieces(sym: Symbols, st: Pending, pieces: seq<seq<byte>>): seq<byte>
    requires PendingOk(st)
    decreases |pieces|
  {
    if pieces == [] then [] else
    var d := DecodePiece(st, pieces[0], sym);
    d.out + DecodePieces(sym, d.st, pieces[1..])
  }

  lemma CodeOfNothing(sym: Symbols, taken: seq<byte>)
    ensures Code(sym, taken, []) == []
  {
  }

  lemma {:induction false} EncodeSplit(sym: Symbols, taken: seq<byte>, pieces: seq<seq<byte>>)
    ensures EncodePieces(sym, taken, pieces) == Code(sym, taken, Flatten(pieces)) + Ending(sym, taken + Flatten(pieces))
    decreases |pieces|
  {
    hide Code, Ending;
    if pieces == [] {
      assert taken + [] == taken;
      CodeOfNothing(sym, taken);
    } else {
      EncodeSplit(sym, taken + pieces[0], pieces[1..]);
      CodeConcat(sym, taken, pieces[0], Flatten(pieces[1..]));
      assert taken + pieces[0] + Flatten(pieces[1..]) == taken + Flatten(pieces);
    }
  }

  lemma {:induction false} DecodeSplit(sym: Symbols, st: Pending, pieces: seq<seq<byte>>)
    requires PendingOk(st)
    ensures DecodePieces(sym, st, pieces) == DecodePiece(st, Flatten(pieces), sym).out
    decreases |pieces|
  {
    if pieces != [] {
      DecodeSplit(sym, DecodePiece(st, pieces[0], sym).st, pieces[1..]);
      DecodeConcat(st, pieces[0], Flatten(pieces[1..]), sym);
    }
  }

  /** However the bytes are split over calls of encode, and however the code is
      then split over calls of decode, the original comes back. */
  lemma StreamRoundTrip(sym: Symbols, plain: seq<seq<byte>>, code: seq<seq<byte>>)
    requires Distinct(sym)
    requires Flatten(code) == EncodePieces(sym, [], plain)
    ensures DecodePieces(sym, Pending(0, 0), code) == Flatten(plain)
  {
    EncodeSplit(sym, [], plain);
    assert [] + Flatten(plain) == Flatten(plain);
    DecodeSplit(sym, Pending(0, 0), code);
    WholeDecodes(sym, Flatten(plain));
  }

  lemma {:induction false} CodeLength(sym: Symbols, before: seq<byte>, piece: seq<byte>)
    ensures |Code(sym, before, piece)| == CodeSize(sym, |before| + |piece|) - CodeSize(sym, |before|)
    decreases |piece|
  {
    hide CodeSize, EmitAt;
    if piece != [] {
      CodeLength(sym, before + [piece[0]], piece[1..]);
      CodeSizeStep(sym, before, piece[0]);
    }
  }

  // Characters written for the first n bytes.
  function CodeSize(sym: Symbols, n: nat): nat {
    n / 3 * 4 + n % 3 + (if sym.wrap then n / 54 else 0)
  }

  lemma CodeSizeStep(sym: Symbols, before: seq<byte>, x: byte)
    ensures CodeSize(sym, |before| + 1) == CodeSize(sym, |before|) + |EmitAt(sym, before, x)|
  {
    hide Encode1;
    var n := |before|;
    NextPosition(n);
    LinesByGroup(n);
    LinesByGroup(n + 1);
    NextGroup(n / 3);
  }

  lemma LinesByGroup(n: nat)
    ensures n / 54 == n / 3 / GROUPS_PER_LINE
  {
  }

  lemma RoundUp(n: nat)
    ensures n / 3 * 4 + n % 3 + (if n % 3 == 0 then 0 else 4 - n % 3) == (n + 2) / 3 * 4
  {
    var q, r := n / 3, n % 3;
    assert n == 3 * q + r;
  }

  /** The output takes four characters for every three bytes begun and, when
      wrapping, a newline for every 54 bytes and one at the end. */
  lemma WholeLength(sym: Symbols, all: seq<byte>)
    ensures |Whole(sym, all)| == (|all| + 2) / 3 * 4 + (if sym.wrap then |all| / 54 + 1 else 0)
  {
    hide Code;
    CodeLength(sym, [], all);
    RoundUp(|all|);
  }
}
