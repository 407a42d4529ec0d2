/** What the encoder writes, as section 4 of RFC 4648 has it: groups of 24 bits in four
    letters, padding at the end; and lines of 72 characters. */
module Base64Texts {
  import opened Words
  import opened Base64

  const CAPITALS := "ABCDEFGHIJKLMNOPQRSTUVWXYZ"
  const SMALL := "abcdefghijklmnopqrstuvwxyz"
  const FIGURES := "0123456789"

  const LINE_BYTES := 54

  function Letter(sym: Symbols, v: nat): byte
    requires v < 64
  {
    if v < 62 then
      AlphabetIsAscii(v);
      Standard(v) as int
    else if v == 62 then sym.plus
    else sym.slash
  }

  // The alphabet in order.
  function Standard(v: nat): char
    requires v < 62
  {
    if v < 26 then CAPITALS[v] else if v < 52 then SMALL[v - 26] else FIGURES[v - 52]
  }

  lemma AlphabetIsAscii(v: nat)
    requires v < 62
    ensures Standard(v) as int == if v < 26 then 65 + v else if v < 52 then 97 + (v - 26) else 48 + (v - 52)
  {
  }

  lemma LetterIsDigit(sym: Symbols, v: nat)
    requires v < 64
    ensures Encode1(v, sym) == Letter(sym, v)
  {
    hide Standard;
    if v < 62 {
      AlphabetIsAscii(v);
    }
  }

  // Three bytes make a number of 24 bits, and that four letters.
  function Group(sym: Symbols, a: byte, b: byte, c: byte): seq<byte> {
    var n := 0x1_0000 * a + 0x100 * b + c;
    [Letter(sym, n / 0x4_0000), Letter(sym, n / 0x1000 % 64), Letter(sym, n / 64 % 64), Letter(sym, n % 64)]
  }

  // Missing bytes count as zero, and letters that stand for nothing else are padding.
  function Plain(sym: Symbols, all: seq<byte>): seq<byte> {
    if |all| >= 3 then Group(sym, all[0], all[1], all[2]) + Plain(sym, all[3..])
    else if |all| == 2 then Group(sym, all[0], all[1], 0)[..3] + [sym.equals]
    else if |all| == 1 then Group(sym, all[0], 0, 0)[..2] + [sym.equals, sym.equals]
    else []
  }

  function Lines(sym: Symbols, all: seq<byte>): seq<byte> {
    if !sym.wrap then Plain(sym, all)
    else if |all| < LINE_BYTES then Plain(sym, all) + [NEWLINE]
    else Plain(sym, all[..LINE_BYTES]) + [NEWLINE] + Lines(sym, all[LINE_BYTES..])
  }

  lemma {:induction false} PlainLength(sym: Symbols, all: seq<byte>)
    ensures |Plain(sym, all)| == (|all| + 2) / 3 * 4
    ensures |all| == LINE_BYTES ==> |Plain(sym, all)| == 72
  {
    hide Group;
    if |all| >= 3 {
      PlainLength(sym, all[3..]);
      FourLetters(sym, all[0], all[1], all[2]);
    } else if all != [] {
      FourLetters(sym, all[0], 0, 0);
      if |all| == 2 {
        FourLetters(sym, all[0], all[1], 0);
      }
    }
  }

  // The same, group by group, from a place in the line on.
  function From(sym: Symbols, place: nat, piece: seq<byte>): seq<byte>
    requires place < GROUPS_PER_LINE
    decreases |piece|
  {
    if |piece| < 3 then Plain(sym, piece) + (if sym.wrap then [NEWLINE] else [])
    else
      var last := place == GROUPS_PER_LINE - 1;
      Group(sym, piece[0], piece[1], piece[2]) + (if sym.wrap && last then [NEWLINE] else []) +
      From(sym, if last then 0 else place + 1, piece[3..])
  }

  lemma FourDigits(d0: nat, d1: nat, d2: nat, d3: nat)
    requires d0 < 64 && d1 < 64 && d2 < 64 && d3 < 64
    ensures var n := 0x4_0000 * d0 + 0x1000 * d1 + 64 * d2 + d3;
            n / 0x4_0000 == d0 && n / 0x1000 % 64 == d1 && n / 64 % 64 == d2 && n % 64 == d3
  {
    var n := 0x4_0000 * d0 + 0x1000 * d1 + 64 * d2 + d3;
    assert n / 0x1000 == 64 * d0 + d1;
    assert n / 64 == 0x1000 * d0 + 64 * d1 + d2;
  }

  lemma Digits24(a: byte, b: byte, c: byte)
    ensures var n := 0x1_0000 * a + 0x100 * b + c;
            && n / 0x4_0000 == Quot(a, 4) < 64
            && n / 0x1000 % 64 == Rem(a, 4) * 16 + Quot(b, 16) < 64
            && n / 64 % 64 == Rem(b, 16) * 4 + Quot(c, 64) < 64
            && n % 64 == Rem(c, 64) < 64
  {
    hide Quot, Rem;
    QuotRem(a, 4);
    QuotRem(b, 16);
    QuotRem(c, 64);
    FourDigits(Quot(a, 4), Rem(a, 4) * 16 + Quot(b, 16), Rem(b, 16) * 4 + Quot(c, 64), Rem(c, 64));
  }

  lemma GroupIs(sym: Symbols, a: byte, b: byte, c: byte)
    ensures Group(sym, a, b, c)[0] == Encode1(Quot(a, 4), sym)
    ensures Group(sym, a, b, c)[1] == Encode1(Rem(a, 4) * 16 + Quot(b, 16), sym)
    ensures Group(sym, a, b, c)[2] == Encode1(Rem(b, 16) * 4 + Quot(c, 64), sym)
    ensures Group(sym, a, b, c)[3] == Encode1(Rem(c, 64), sym)
  {
    hide Encode1, Letter, Quot, Rem;
    Digits24(a, b, c);
    LetterIsDigit(sym, Quot(a, 4));
    LetterIsDigit(sym, Rem(a, 4) * 16 + Quot(b, 16));
    LetterIsDigit(sym, Rem(b, 16) * 4 + Quot(c, 64));
    LetterIsDigit(sym, Rem(c, 64));
  }

  lemma GroupEmitted(sym: Symbols, before: seq<byte>, a: byte, b: byte, c: byte)
    requires |before| % 3 == 0
    ensures EmitAt(sym, before, a) + EmitAt(sym, before + [a], b) + EmitAt(sym, before + [a, b], c) ==
            Group(sym, a, b, c) + (if sym.wrap && |before| / 3 % GROUPS_PER_LINE == GROUPS_PER_LINE - 1 then [NEWLINE] else [])
  {
    hide Encode1, Quot, Rem, Group;
    GroupIs(sym, a, b, c);
    NextPosition(|before|);
    NextPosition(|before| + 1);
    NextGroup(|before| / 3);
    FourLetters(sym, a, b, c);
  }

  lemma FourLetters(sym: Symbols, a: byte, b: byte, c: byte)
    ensures var g := Group(sym, a, b, c); |g| == 4 && g == [g[0]] + [g[1]] + [g[2], g[3]]
  {
  }

  lemma ThreeMore(sym: Symbols, before: seq<byte>, piece: seq<byte>)
    requires |piece| >= 3
    ensures Code(sym, before, piece) ==
            EmitAt(sym, before, piece[0]) + EmitAt(sym, before + [piece[0]], piece[1]) +
            EmitAt(sym, before + [piece[0], piece[1]], piece[2]) + Code(sym, before + piece[..3], piece[3..])
  {
    hide EmitAt;
    assert piece == [piece[0]] + ([piece[1]] + ([piece[2]] + piece[3..]));
    OneMore(sym, before, piece);
    OneMore(sym, before + [piece[0]], piece[1..]);
    OneMore(sym, before + [piece[0], piece[1]], piece[2..]);
    assert before + [piece[0]] + [piece[1]] == before + [piece[0], piece[1]];
    assert before + [piece[0], piece[1]] + [piece[2]] == before + piece[..3];
  }

  lemma OneMore(sym: Symbols, before: seq<byte>, piece: seq<byte>)
    requires piece != []
    ensures Code(sym, before, piece) == EmitAt(sym, before, piece[0]) + Code(sym, before + [piece[0]], piece[1..])
  {
  }

  lemma LastGroup(sym: Symbols, before: seq<byte>, piece: seq<byte>)
    requires |before| % 3 == 0 && |piece| < 3
    ensures Code(sym, before, piece) + Ending(sym, before + piece) == Plain(sym, piece) + (if sym.wrap then [NEWLINE] else [])
  {
    hide Encode1, Quot, Group;
    NextPosition(|before|);
    NextPosition(|before| + 1);
    var line := if sym.wrap then [NEWLINE] else [];
    if piece == [] {
      assert before + piece == before;
      CodeOfNothing(sym, before);
    } else {
      var a := piece[0];
      var b := if |piece| == 2 then piece[1] else 0;
      NothingInZero();
      hide Rem;
      GroupIs(sym, a, b, 0);
      FourLetters(sym, a, b, 0);
      OneMore(sym, before, piece);
      if |piece| == 1 {
        CodeOfNothing(sym, before + piece);
        assert piece == [a];
      } else {
        OneMore(sym, before + [a], piece[1..]);
        CodeOfNothing(sym, before + [a] + [b]);
        assert piece == [a, b] && before + piece == before + [a] + [b];
      }
    }
  }

  lemma NothingInZero()
    ensures Quot(0, 16) == 0 && Quot(0, 64) == 0
  {
  }

  lemma NextPlace(n: nat)
    requires n % 3 == 0
    ensures (n + 3) % 3 == 0
    ensures (n + 3) / 3 % GROUPS_PER_LINE == (if n / 3 % GROUPS_PER_LINE == GROUPS_PER_LINE - 1 then 0 else n / 3 % GROUPS_PER_LINE + 1)
  {
    NextGroup(n / 3);
  }

  lemma FromStep(sym: Symbols, place: nat, piece: seq<byte>)
    requires place < GROUPS_PER_LINE && |piece| >= 3
    ensures From(sym, place, piece) ==
            Group(sym, piece[0], piece[1], piece[2]) + (if sym.wrap && place == GROUPS_PER_LINE - 1 then [NEWLINE] else []) +
            From(sym, if place == GROUPS_PER_LINE - 1 then 0 else place + 1, piece[3..])
  {
    hide Group;
  }

  lemma FromLast(sym: Symbols, place: nat, piece: seq<byte>)
    requires place < GROUPS_PER_LINE && |piece| < 3
    ensures From(sym, place, piece) == Plain(sym, piece) + (if sym.wrap then [NEWLINE] else [])
  {
    hide Plain;
  }

  lemma {:induction false} GroupByGroup(sym: Symbols, before: seq<byte>, piece: seq<byte>, place: nat)
    requires |before| % 3 == 0 && place == |before| / 3 % GROUPS_PER_LINE
    ensures Code(sym, before, piece) + Ending(sym, before + piece) == From(sym, place, piece)
    decreases |piece|
  {
    hide Code, Ending, EmitAt, Group, Plain, From;
    if |piece| < 3 {
      LastGroup(sym, before, piece);
      FromLast(sym, place, piece);
    } else {
      var more, rest := before + piece[..3], piece[3..];
      NextPlace(|before|);
      ThreeMore(sym, before, piece);
      GroupEmitted(sym, before, piece[0], piece[1], piece[2]);
      FromStep(sym, place, piece);
      assert before + piece == more + rest && |more| == |before| + 3;
      GroupByGroup(sym, more, rest, if place == GROUPS_PER_LINE - 1 then 0 else place + 1);
      var end := Ending(sym, more + rest);
      Assoc(EmitAt(sym, before, piece[0]) + EmitAt(sym, before + [piece[0]], piece[1]) +
            EmitAt(sym, before + [piece[0], piece[1]], piece[2]), Code(sym, more, rest), end);
    }
  }

  lemma Assoc(a: seq<byte>, b: seq<byte>, c: seq<byte>)
    ensures a + b + c == a + (b + c)
  {
  }

  lemma PlainStep(sym: Symbols, piece: seq<byte>)
    requires |piece| >= 3
    ensures Plain(sym, piece) == Group(sym, piece[0], piece[1], piece[2]) + Plain(sym, piece[3..])
  {
    hide Group;
  }

  // From a place in the line to its end, and on.
  lemma {:induction false} LineByLine(sym: Symbols, place: nat, piece: seq<byte>)
    requires sym.wrap && place < GROUPS_PER_LINE
    ensures var left := LINE_BYTES - 3 * place;
            From(sym, place, piece) ==
            if |piece| < left then Plain(sym, piece) + [NEWLINE]
            else Plain(sym, piece[..left]) + [NEWLINE] + From(sym, 0, piece[left..])
    decreases |piece|
  {
    hide Group, Plain, From;
    var left := LINE_BYTES - 3 * place;
    if |piece| < 3 {
      FromLast(sym, place, piece);
    } else {
      var g := Group(sym, piece[0], piece[1], piece[2]);
      FromStep(sym, place, piece);
      if place == GROUPS_PER_LINE - 1 {
        PlainStep(sym, piece[..3]);
        NothingPlain(sym);
        assert piece[..3][3..] == [] && g + [] == g;
      } else {
        LineByLine(sym, place + 1, piece[3..]);
        if |piece| >= left {
          PlainStep(sym, piece[..left]);
          assert piece[..left][3..] == piece[3..][..left - 3] && piece[3..][left - 3..] == piece[left..];
          var line := Plain(sym, piece[3..][..left - 3]);
          Assoc(g, line, [NEWLINE]);
          Assoc(g, line + [NEWLINE], From(sym, 0, piece[left..]));
        } else {
          PlainStep(sym, piece);
          Assoc(g, Plain(sym, piece[3..]), [NEWLINE]);
        }
        assert g + [] == g;
      }
    }
  }

  lemma NothingPlain(sym: Symbols)
    ensures Plain(sym, []) == []
  {
  }

  lemma {:induction false} Unwrapped(sym: Symbols, place: nat, piece: seq<byte>)
    requires !sym.wrap && place < GROUPS_PER_LINE
    ensures From(sym, place, piece) == Plain(sym, piece)
    decreases |piece|
  {
    hide Group;
    if |piece| >= 3 {
      Unwrapped(sym, if place == GROUPS_PER_LINE - 1 then 0 else place + 1, piece[3..]);
    }
  }

  lemma {:induction false} LinesFrom(sym: Symbols, all: seq<byte>)
    requires sym.wrap
    ensures From(sym, 0, all) == Lines(sym, all)
    decreases |all|
  {
    hide From, Plain;
    LineByLine(sym, 0, all);
    if |all| >= LINE_BYTES {
      LinesFrom(sym, all[LINE_BYTES..]);
    }
  }

  /** All that the encoder writes for some bytes: their letters in groups of four, padding
      in the last group only, and, when wrapping, a newline behind every 72 characters
      and at the end. */
  lemma WholeIsLines(sym: Symbols, all: seq<byte>)
    ensures Whole(sym, all) == Lines(sym, all)
  {
    hide Code, Ending, From, Lines;
    GroupByGroup(sym, [], all, 0);
    assert [] + all == all;
    if sym.wrap {
      LinesFrom(sym, all);
    } else {
      Unwrapped(sym, 0, all);
      UnwrappedLines(sym, all);
    }
  }

  lemma UnwrappedLines(sym: Symbols, all: seq<byte>)
    requires !sym.wrap
    ensures Lines(sym, all) == Plain(sym, all)
  {
  }

  // Which characters the decoder takes for which digit.
  predicate IsDigit(sym: Symbols, c: byte, v: nat) {
    v < 64 &&
    if c == sym.plus then v == 62
    else if c == sym.slash then v == 63
    else if v < 62 then c == Standard(v) as int
    else c == (if v == 62 then '+' else '/') as int
  }

  /** A character is decoded to a digit exactly if it is that digit's letter, a configured
      symbol or, still, a standard one; at the end of the table nothing is known. */
  lemma DecodedIff(sym: Symbols, c: byte, v: nat)
    requires sym.pastTable < 0 || c == sym.plus || c == sym.slash || c != '{' as int
    ensures Decode1(c, sym) == v <==> IsDigit(sym, c, v)
  {
    hide Standard;
    if v < 62 {
      AlphabetIsAscii(v);
    }
  }
}
