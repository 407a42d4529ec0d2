/** Base64 text dressed up as cookies: names and values of random length. */
module Cookies {
  import opened Words
  import Base64

  const SPACE: byte := 32
  const SEMICOLON: byte := 59
  const EQUALS: byte := 61

  predicate Separator(c: byte) {
    c == SPACE || c == SEMICOLON || c == EQUALS
  }

  // The text without its separators.
  function Strip(text: seq<byte>): seq<byte> {
    if text == [] then [] else (if Separator(text[0]) then [] else [text[0]]) + Strip(text[1..])
  }

  ghost predicate Clean(text: seq<byte>) {
    forall i :: 0 <= i < |text| ==> !Separator(text[i])
  }

  lemma {:induction false} StripConcat(a: seq<byte>, b: seq<byte>)
    ensures Strip(a + b) == Strip(a) + Strip(b)
    decreases |a|
  {
    if a == [] {
      assert a + b == b;
    } else {
      assert (a + b)[1..] == a[1..] + b;
      StripConcat(a[1..], b);
    }
  }

  lemma {:induction false} StripFixesClean(text: seq<byte>)
    ensures |Strip(text)| <= |text|
    ensures Strip(text) == text <==> Clean(text)
  {
    if text != [] {
      StripFixesClean(text[1..]);
      if Clean(text) {
        assert Clean(text[1..]) by {
          forall i | 0 <= i < |text[1..]|
            ensures !Separator(text[1..][i])
          {
            assert text[1..][i] == text[i + 1];
          }
        }
      }
      if Strip(text) == text {
        assert !Separator(text[0]);
        assert Strip(text)[1..] == Strip(text[1..]);
        forall i | 0 <= i < |text|
          ensures !Separator(text[i])
        {
          if i > 0 {
            assert text[i] == text[1..][i - 1];
          }
        }
      }
    }
  }

  lemma StripFrom(text: seq<byte>, i: nat)
    requires i < |text|
    ensures Strip(text[i..]) == (if Separator(text[i]) then [] else [text[i]]) + Strip(text[i + 1..])
  {
    assert text[i..][1..] == text[i + 1..];
  }

  /** What is taken out is exactly every space, semicolon and equals sign. */
  lemma {:induction false} StripMeaning(text: seq<byte>, c: byte)
    ensures multiset(Strip(text))[c] == if c == ' ' as int || c == ';' as int || c == '=' as int then 0 else multiset(text)[c]
  {
    if text != [] {
      StripMeaning(text[1..], c);
      assert text == [text[0]] + text[1..];
    }
  }

  method UnwrapB64Cookies(inbuf: seq<byte>) returns (outbuf: seq<byte>)
    ensures outbuf == Strip(inbuf)
  {
    outbuf := [];
    var i := 0;
    while i < |inbuf|
      invariant i <= |inbuf| && outbuf + Strip(inbuf[i..]) == Strip(inbuf)
    {
      StripFrom(inbuf, i);
      if !Separator(inbuf[i]) {
        outbuf := outbuf + [inbuf[i]];
      }
      i := i + 1;
    }
  }

  // One cookie from the front of the text, for any two random numbers.
  method GenOneCookie(inbuf: seq<byte>, rand1: nat, rand2: nat) returns (cookie: seq<byte>, used: nat)
    requires inbuf != []
    ensures 0 < used <= |inbuf| && used <= |cookie| <= used + 1
    ensures Strip(cookie) == Strip(inbuf[..used])
    ensures |inbuf| < 5 ==> cookie == inbuf && used == |inbuf|
    ensures |inbuf| >= 5 ==>
              var n := rand1 % (if |inbuf| < 10 then 5 else 10) + 1;
              && used == Min(n + rand2 % (|inbuf| * 2 / 3), |inbuf|)
              && n <= used && cookie == inbuf[..n] + [EQUALS] + inbuf[n..used]
  {
    hide Strip;
    var inlen := |inbuf|;
    if inlen < 5 {
      assert inbuf[..inlen] == inbuf;
      return inbuf, inlen;
    }
    var namelen := if inlen < 10 then rand1 % 5 + 1 else rand1 % 10 + 1;
    var cookielen := rand2 % (inlen * 2 / 3);
    if cookielen > inlen - namelen {
      cookielen := inlen - namelen;
    }
    used := namelen + cookielen;
    cookie := inbuf[..namelen] + [EQUALS] + inbuf[namelen..used];
    CookieStripped(inbuf, namelen, used);
  }

  lemma CookieStripped(inbuf: seq<byte>, n: nat, used: nat)
    requires n <= used <= |inbuf|
    ensures Strip(inbuf[..n] + [EQUALS] + inbuf[n..used]) == Strip(inbuf[..used])
  {
    var name, value := inbuf[..n], inbuf[n..used];
    assert Strip([EQUALS]) == Strip([]) == [];
    hide Strip;
    StripConcat(name + [EQUALS], value);
    StripConcat(name, [EQUALS]);
    StripConcat(name, value);
    assert inbuf[..used] == name + value;
  }

  // ----- What cookies look like -----

  datatype Cookie = Cookie(name: seq<byte>, value: seq<byte>) {
    predicate Valid() {
      1 <= |name| <= 10
    }

    function Text(): seq<byte> {
      name + [EQUALS] + value
    }
  }

  // A semicolon between any two.
  function Joined(cookies: seq<Cookie>): seq<byte> {
    if cookies == [] then []
    else
      var n := |cookies| - 1;
      if n == 0 then cookies[0].Text() else Joined(cookies[..n]) + [SEMICOLON] + cookies[n].Text()
  }

  // The text the cookies carry.
  function Carried(cookies: seq<Cookie>): seq<byte> {
    if cookies == [] then []
    else
      var n := |cookies| - 1;
      Carried(cookies[..n]) + cookies[n].name + cookies[n].value
  }

  ghost predicate Bakes(cookies: seq<Cookie>, inbuf: seq<byte>, outbuf: seq<byte>) {
    && cookies != [] && (forall i :: 0 <= i < |cookies| ==> cookies[i].Valid())
    && outbuf == Joined(cookies) && Carried(cookies) == inbuf
  }

  lemma OneMore(cookies: seq<Cookie>, c: Cookie)
    ensures Joined(cookies + [c]) == (if cookies == [] then c.Text() else Joined(cookies) + [SEMICOLON] + c.Text())
    ensures Carried(cookies + [c]) == Carried(cookies) + c.name + c.value
  {
    assert (cookies + [c])[..|cookies|] == cookies;
  }

  // The parts of a text between its semicolons.
  function Fields(text: seq<byte>): (fields: seq<seq<byte>>)
    ensures fields != []
  {
    if text == [] then [[]]
    else
      var rest := Fields(text[1..]);
      if text[0] == SEMICOLON then [[]] + rest else [[text[0]] + rest[0]] + rest[1..]
  }

  lemma {:induction false} OneField(text: seq<byte>)
    requires SEMICOLON !in text
    ensures Fields(text) == [text]
  {
    if text != [] {
      OneField(text[1..]);
      assert text == [text[0]] + text[1..];
    }
  }

  lemma {:induction false} FieldsSnoc(text: seq<byte>, last: seq<byte>)
    requires SEMICOLON !in last
    ensures Fields(text + [SEMICOLON] + last) == Fields(text) + [last]
    decreases |text|
  {
    var all := text + [SEMICOLON] + last;
    if text == [] {
      OneField(last);
      assert all[1..] == last;
    } else {
      assert all[1..] == text[1..] + [SEMICOLON] + last;
      FieldsSnoc(text[1..], last);
    }
  }

  // A name, one equals sign, a value.
  ghost predicate LooksLikeCookie(field: seq<byte>) {
    exists n :: 1 <= n <= 10 && n < |field| && field[n] == EQUALS && Clean(field[..n]) && Clean(field[n + 1..])
  }

  lemma CleanCookie(c: Cookie)
    requires c.Valid() && Clean(c.name) && Clean(c.value)
    ensures LooksLikeCookie(c.Text()) && SEMICOLON !in c.Text()
  {
    var n := |c.name|;
    assert c.Text()[..n] == c.name && c.Text()[n + 1..] == c.value && c.Text()[n] == EQUALS;
    forall i | 0 <= i < |c.Text()|
      ensures c.Text()[i] != SEMICOLON
    {
      assert i < n ==> c.Text()[i] == c.name[i];
      assert i > n ==> c.Text()[i] == c.value[i - n - 1];
    }
  }

  lemma CleanParts(a: seq<byte>, b: seq<byte>)
    requires Clean(a + b)
    ensures Clean(a) && Clean(b)
  {
    assert forall i :: 0 <= i < |a| ==> a[i] == (a + b)[i];
    assert forall i :: 0 <= i < |b| ==> b[i] == (a + b)[|a| + i];
  }

  /** Cookies that carry a text without separators can be told apart again: every part
      between semicolons is a name, one equals sign and a value. */
  lemma {:induction false} FieldsAreCookies(cookies: seq<Cookie>)
    requires cookies != [] && (forall i :: 0 <= i < |cookies| ==> cookies[i].Valid()) && Clean(Carried(cookies))
    ensures |Fields(Joined(cookies))| == |cookies|
    ensures forall f :: f in Fields(Joined(cookies)) ==> LooksLikeCookie(f)
    decreases |cookies|
  {
    hide Clean, LooksLikeCookie, Fields;
    var n := |cookies| - 1;
    var front, c := cookies[..n], cookies[n];
    CleanParts(Carried(front) + c.name, c.value);
    CleanParts(Carried(front), c.name);
    CleanCookie(c);
    if n == 0 {
      OneField(c.Text());
    } else {
      FieldsAreCookies(front);
      FieldsSnoc(Joined(front), c.Text());
    }
  }

  // Between two rounds: nothing yet, or cookies for what was processed and a semicolon.
  ghost predicate InProgress(inbuf: seq<byte>, processed: nat, outbuf: seq<byte>, cookies: seq<Cookie>) {
    if processed == 0 then outbuf == [] && cookies == []
    else
      && processed + 5 <= |inbuf| && outbuf == Joined(cookies) + [SEMICOLON]
      && Bakes(cookies, inbuf[..processed], Joined(cookies))
  }

  lemma BakeOne(inbuf: seq<byte>, processed: nat, outbuf: seq<byte>, cookies: seq<Cookie>, n: nat, used: nat)
      returns (more: seq<Cookie>)
    requires processed <= |inbuf| && InProgress(inbuf, processed, outbuf, cookies)
    requires 1 <= n <= 10 && n <= used <= |inbuf| - processed
    ensures var rest := inbuf[processed..];
            Bakes(more, inbuf[..processed + used], outbuf + (rest[..n] + [EQUALS] + rest[n..used]))
  {
    var rest := inbuf[processed..];
    var c := Cookie(rest[..n], rest[n..used]);
    more := cookies + [c];
    OneMore(cookies, c);
    NothingBaked();
    hide Joined, Carried;
    TwoSlices(inbuf, processed, n, used);
    AllValid(cookies, c);
    assert outbuf + c.Text() == Joined(more);
  }

  lemma TwoSlices(s: seq<byte>, at: nat, n: nat, used: nat)
    requires at + used <= |s| && n <= used
    ensures s[..at + used] == s[..at] + s[at..][..n] + s[at..][n..used]
  {
  }

  lemma AllValid(cookies: seq<Cookie>, c: Cookie)
    requires c.Valid() && forall i :: 0 <= i < |cookies| ==> cookies[i].Valid()
    ensures forall i :: 0 <= i < |cookies + [c]| ==> (cookies + [c])[i].Valid()
  {
  }

  lemma NothingBaked()
    ensures Joined([]) == [] && Carried([]) == []
  {
  }

  // Bytes added at the end go into the last cookie's value.
  lemma LongerValue(cookies: seq<Cookie>, inbuf: seq<byte>, outbuf: seq<byte>, tail: seq<byte>) returns (longer: seq<Cookie>)
    requires Bakes(cookies, inbuf, outbuf)
    ensures Bakes(longer, inbuf + tail, outbuf + tail)
  {
    var n := |cookies| - 1;
    var front, c := cookies[..n], cookies[n];
    var d := Cookie(c.name, c.value + tail);
    longer := front + [d];
    assert cookies == front + [c];
    OneMore(front, c);
    OneMore(front, d);
    hide Joined, Carried, Cookie.Text;
    LongerText(c, tail);
    Appended(Joined(front) + [SEMICOLON], c.Text(), tail);
    Appended(Carried(front) + c.name, c.value, tail);
    LongerValid(cookies, front, c, d);
  }

  lemma LongerText(c: Cookie, tail: seq<byte>)
    ensures Cookie(c.name, c.value + tail).Text() == c.Text() + tail
  {
  }

  lemma Appended(a: seq<byte>, b: seq<byte>, c: seq<byte>)
    ensures a + (b + c) == a + b + c
  {
  }

  lemma LongerValid(cookies: seq<Cookie>, front: seq<Cookie>, c: Cookie, d: Cookie)
    requires cookies == front + [c] && d.name == c.name && forall i :: 0 <= i < |cookies| ==> cookies[i].Valid()
    ensures forall i :: 0 <= i < |front + [d]| ==> (front + [d])[i].Valid()
  {
    assert cookies[|front|] == c;
    assert forall i :: 0 <= i < |front| ==> front[i] == cookies[i];
  }

  // A text of five bytes or more has become cookies, a shorter one is itself.
  ghost predicate Wrapped(inbuf: seq<byte>, outbuf: seq<byte>) {
    if |inbuf| < 5 then outbuf == inbuf else exists cookies :: Bakes(cookies, inbuf, outbuf)
  }

  lemma WrappedFields(inbuf: seq<byte>, outbuf: seq<byte>)
    requires Wrapped(inbuf, outbuf) && |inbuf| >= 5 && Clean(inbuf)
    ensures forall f :: f in Fields(outbuf) ==> LooksLikeCookie(f)
  {
    var cookies :| Bakes(cookies, inbuf, outbuf);
    FieldsAreCookies(cookies);
  }

  /** Whatever the random numbers, wrapping ends and gives cookies that carry the text;
      a text of less than five bytes is left alone. The length is at most tripled, and
      taking the separators out again leaves the text without its own. */
  method GenB64Cookies(inbuf: seq<byte>, rand: nat -> nat) returns (outbuf: seq<byte>)
    ensures Wrapped(inbuf, outbuf)
    ensures |inbuf| >= 5 && Clean(inbuf) ==> forall f :: f in Fields(outbuf) ==> LooksLikeCookie(f)
    ensures Strip(outbuf) == Strip(inbuf)
    ensures |inbuf| <= |outbuf| <= 3 * |inbuf|
  {
    hide Strip, Fields, LooksLikeCookie, Clean, Bakes;
    outbuf := [];
    var processed, draws := 0, 0;
    ghost var cookies: seq<Cookie> := [];
    while processed < |inbuf|
      invariant processed <= |inbuf|
      invariant Strip(outbuf) == Strip(inbuf[..processed])
      invariant processed <= |outbuf| <= 3 * processed
      invariant InProgress(inbuf, processed, outbuf, cookies)
    {
      var cookie, used := GenOneCookie(inbuf[processed..], rand(draws), rand(draws + 1));
      Extend(inbuf, processed, used, outbuf, cookie);
      if |inbuf| - processed >= 5 {
        ghost var n := rand(draws) % (if |inbuf| - processed < 10 then 5 else 10) + 1;
        cookies := BakeOne(inbuf, processed, outbuf, cookies, n, used);
      }
      draws := draws + 2;
      outbuf := outbuf + cookie;
      processed := processed + used;
      var remain := |inbuf| - processed;
      if remain < 5 {
        ghost var tail := inbuf[processed..];
        assert inbuf[processed..][..remain] == tail && inbuf == inbuf[..processed] + tail;
        Extend(inbuf, processed, remain, outbuf, tail);
        if |inbuf| >= 5 {
          cookies := LongerValue(cookies, inbuf[..processed], outbuf, tail);
        }
        outbuf := outbuf + inbuf[processed..];
        processed := |inbuf|;
        assert Wrapped(inbuf, outbuf);
        break;
      }
      StripConcat(outbuf, [SEMICOLON]);
      SemicolonStripped();
      outbuf := outbuf + [SEMICOLON];
      assert InProgress(inbuf, processed, outbuf, cookies) by { JoinedAgain(cookies, inbuf[..processed], outbuf[..|outbuf| - 1]); }
    }
    assert inbuf[..|inbuf|] == inbuf;
    if |inbuf| >= 5 && Clean(inbuf) {
      WrappedFields(inbuf, outbuf);
    }
  }

  lemma SemicolonStripped()
    ensures Strip([SEMICOLON]) == []
  {
    assert Strip([SEMICOLON]) == Strip([]) == [];
  }

  lemma JoinedAgain(cookies: seq<Cookie>, inbuf: seq<byte>, outbuf: seq<byte>)
    requires Bakes(cookies, inbuf, outbuf)
    ensures outbuf == Joined(cookies) && Bakes(cookies, inbuf, Joined(cookies))
  {
  }

  lemma Extend(inbuf: seq<byte>, at: nat, used: nat, outbuf: seq<byte>, more: seq<byte>)
    requires at + used <= |inbuf| && Strip(outbuf) == Strip(inbuf[..at])
    requires Strip(more) == Strip(inbuf[at..][..used])
    ensures Strip(outbuf + more) == Strip(inbuf[..at + used])
  {
    hide Strip;
    StripConcat(outbuf, more);
    StripConcat(inbuf[..at], inbuf[at..][..used]);
    assert inbuf[..at + used] == inbuf[..at] + inbuf[at..][..used];
  }

  /** Unwrapping what was wrapped gives the text back, whatever the random numbers,
      exactly if the text has no separators. */
  method WrapAndUnwrap(text: seq<byte>, rand: nat -> nat) returns (back: seq<byte>)
    ensures back == text <==> Clean(text)
  {
    var wrapped := GenB64Cookies(text, rand);
    back := UnwrapB64Cookies(wrapped);
    StripFixesClean(text);
  }

  // ----- With the base64 coder around it -----

  ghost predicate CookieSymbols(sym: Base64.Symbols) {
    Base64.Distinct(sym) && !sym.wrap && !Separator(sym.plus) && !Separator(sym.slash) && !Separator(sym.equals)
  }

  lemma {:induction false} CodeIsClean(sym: Base64.Symbols, before: seq<byte>, piece: seq<byte>)
    requires CookieSymbols(sym)
    ensures Clean(Base64.Code(sym, before, piece))
    decreases |piece|
  {
    if piece != [] {
      EmitIsClean(sym, before, piece[0]);
      CodeIsClean(sym, before + [piece[0]], piece[1..]);
    }
  }

  lemma EmitIsClean(sym: Base64.Symbols, before: seq<byte>, x: byte)
    requires CookieSymbols(sym)
    ensures Clean(Base64.EmitAt(sym, before, x))
  {
  }

  // The decoder skips the zero byte that ends a string.
  ghost predicate StringSymbols(sym: Base64.Symbols) {
    CookieSymbols(sym) && sym.plus != 0 && sym.slash != 0
  }

  // The symbols the HTTP modules use: '-', '_' and '.', without line breaks.
  function HttpSymbols(pastTable: int): Base64.Symbols {
    Base64.Symbols(45, 95, 46, false, pastTable)
  }

  lemma HttpSymbolsFit(pastTable: int)
    ensures StringSymbols(HttpSymbols(pastTable))
  {
  }

  /** The client's side of a transmission, then the server's, which hands the
      terminating zero byte to the decoder as well: any bytes arrive, whatever the
      random numbers. */
  method CarryInCookies(bytes: seq<byte>, sym: Base64.Symbols, rand: nat -> nat) returns (back: seq<byte>)
    requires StringSymbols(sym)
    ensures back == bytes
  {
    var encoder := new Base64.Encoder(sym);
    var code := encoder.Encode(bytes);
    var end := encoder.EncodeEnd();
    assert [] + bytes == bytes;
    var cookie := GenB64Cookies(code + end, rand);
    var unwrapped := UnwrapB64Cookies(cookie);
    CleanCode(sym, bytes);
    var decoder := new Base64.Decoder(sym);
    back := decoder.Decode(unwrapped + [0]);
    DecodesBack(sym, bytes);
  }

  lemma CleanCode(sym: Base64.Symbols, bytes: seq<byte>)
    requires CookieSymbols(sym)
    ensures Strip(Base64.Whole(sym, bytes)) == Base64.Whole(sym, bytes)
  {
    var code := Base64.Whole(sym, bytes);
    CodeIsClean(sym, [], bytes);
    assert Clean(Base64.Ending(sym, bytes));
    assert Clean(code);
    StripFixesClean(code);
  }

  // A zero byte after the code adds nothing.
  lemma DecodesBack(sym: Base64.Symbols, bytes: seq<byte>)
    requires StringSymbols(sym)
    ensures Base64.DecodePiece(Base64.Pending(0, 0), Base64.Whole(sym, bytes) + [0], sym).out == bytes
  {
    hide Base64.Whole;
    var st := Base64.Pending(0, 0);
    Base64.WholeDecodes(sym, bytes);
    Base64.DecodeConcat(st, Base64.Whole(sym, bytes), [0], sym);
    var mid := Base64.DecodePiece(st, Base64.Whole(sym, bytes), sym).st;
    ZeroSkipped(mid, sym);
  }

  lemma ZeroSkipped(st: Base64.Pending, sym: Base64.Symbols)
    requires Base64.PendingOk(st) && sym.plus != 0 && sym.slash != 0
    ensures Base64.DecodePiece(st, [0], sym).out == []
  {
    assert Base64.Decode1(0, sym) < 0;
  }
}
