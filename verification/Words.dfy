/** Bytes, 32-bit words and single bits, as the wire formats use them. */
module Words {

  datatype Option<+T> = None | Some(value: T)

  type byte = x: int | 0 <= x < 256

  const UINT32_SPAN := 0x1_0000_0000

  type uint32 = x: int | 0 <= x < 0x1_0000_0000

  // C's conversion to uint32_t: every result is reduced modulo 2^32.
  function Wrap32(x: int): uint32 {
    x % UINT32_SPAN
  }

  function Min(a: int, b: int): int {
    if a <= b then a else b
  }

  function Max(a: int, b: int): int {
    if a <= b then b else a
  }

  // A prefix of a + b at least as long as a starts with a.
  lemma PrefixOfConcat<T>(s: seq<T>, a: seq<T>, b: seq<T>)
    requires s <= a + b
    ensures |s| >= |a| ==> s[..|a|] == a && s[|a|..] <= b && s == a + s[|a|..]
    ensures |s| < |a| ==> s <= a
  {
    if |s| >= |a| {
      assert s[|a|..] == (a + b)[..|s|][|a|..] == b[..|s| - |a|];
    }
  }

  lemma SliceJoin<T>(s: seq<T>, a: nat, b: nat, c: nat)
    requires a <= b <= c <= |s|
    ensures s[a..b] + s[b..c] == s[a..c]
  {
  }

  lemma SliceOfSlice<T>(s: seq<T>, a: nat, b: nat, i: nat, j: nat)
    requires a <= b <= |s| && i <= j <= b - a
    ensures s[a..b][i..j] == s[a + i..a + j]
  {
    assert |s[a..b][i..j]| == |s[a + i..a + j]|;
    forall k | 0 <= k < j - i
      ensures s[a..b][i..j][k] == s[a + i..a + j][k]
    {
    }
  }

  lemma SliceIndex<T>(s: seq<T>, a: nat, b: nat, i: nat)
    requires a <= b <= |s| && i < b - a
    ensures s[a..b][i] == s[a + i]
  {
  }

  lemma SliceOfConcat<T>(s: seq<T>, t: seq<T>, i: nat, j: nat)
    requires i <= j <= |s|
    ensures (s + t)[i..j] == s[i..j]
  {
  }

  // Pieces of a stream, joined.
  function Flatten<T>(pieces: seq<seq<T>>): seq<T> {
    if pieces == [] then [] else pieces[0] + Flatten(pieces[1..])
  }

  lemma {:induction false} FlattenSnoc<T>(pieces: seq<seq<T>>, last: seq<T>)
    ensures Flatten(pieces + [last]) == Flatten(pieces) + last
  {
    if pieces == [] {
      assert pieces + [last] == [last] && [last][1..] == [];
    } else {
      FlattenSnoc(pieces[1..], last);
      assert (pieces + [last])[1..] == pieces[1..] + [last];
    }
  }

  // The rings have one slot for each number of the sliding window.
  const WINDOW := 256

  // Two numbers of one window never share a slot.
  lemma SlotInjective(low: nat, s: nat, t: nat)
    requires low <= s < low + WINDOW && low <= t < low + WINDOW
    requires s % WINDOW == t % WINDOW
    ensures s == t
  {
  }

  lemma MulMono(a: nat, b: nat, c: nat)
    requires a <= b
    ensures a * c <= b * c
  {
  }

  // ----- Quotients and remainders, kept apart from the solver's own arithmetic -----

  function Quot(n: nat, base: nat): nat
    requires base >= 1
  {
    n / base
  }

  function Rem(n: nat, base: nat): (r: nat)
    requires base >= 1
    ensures r < base
  {
    n % base
  }

  lemma QuotRem(n: nat, base: nat)
    requires base >= 1
    ensures n == Quot(n, base) * base + Rem(n, base)
  {
  }

  lemma QuotientBelow(n: nat, base: nat, high: nat)
    requires base >= 1
    ensures Quot(n, base) < high <==> n < high * base
  {
    hide Quot, Rem;
    QuotRem(n, base);
    var q := Quot(n, base);
    if q < high {
      MulMono(q + 1, high, base);
      assert (q + 1) * base == q * base + base;
    } else {
      MulMono(high, q, base);
    }
  }

  lemma DivMod(q: nat, r: nat, base: nat)
    requires r < base
    ensures Quot(q * base + r, base) == q && Rem(q * base + r, base) == r
  {
    hide Quot, Rem;
    var n := q * base + r;
    assert (q + 1) * base == q * base + base;
    QuotientBelow(n, base, q);
    QuotientBelow(n, base, q + 1);
    QuotRem(n, base);
  }

  lemma QuotientOrder(m: nat, n: nat, base: nat)
    requires m < n && base >= 1
    ensures Quot(m, base) <= Quot(n, base) && (Quot(m, base) == Quot(n, base) ==> Rem(m, base) < Rem(n, base))
  {
    hide Quot, Rem;
    QuotRem(m, base);
    QuotRem(n, base);
    QuotientBelow(n, base, Quot(n, base) + 1);
    QuotientBelow(m, base, Quot(n, base) + 1);
  }

  lemma NextDigit(n: nat, base: nat)
    requires base >= 1
    ensures var q, r := Quot(n, base), Rem(n, base);
            if r + 1 < base then Quot(n + 1, base) == q && Rem(n + 1, base) == r + 1
            else Quot(n + 1, base) == q + 1 && Rem(n + 1, base) == 0
    ensures Quot(0, base) == 0 && Rem(0, base) == 0
  {
    hide Quot, Rem;
    QuotRem(n, base);
    var q, r := Quot(n, base), Rem(n, base);
    if r + 1 < base {
      DivMod(q, r + 1, base);
    } else {
      assert (q + 1) * base == q * base + base;
      DivMod(q + 1, 0, base);
    }
    DivMod(0, 0, base);
  }

  // Network byte order.
  function Be16(x: int): (b: seq<byte>)
    requires 0 <= x < 0x1_0000
    ensures |b| == 2
  {
    [x / 0x100, x % 0x100]
  }

  function FromBe16(b: seq<byte>): (x: int)
    requires |b| == 2
    ensures 0 <= x < 0x1_0000
  {
    0x100 * (b[0] as int) + b[1]
  }

  function Be32(x: uint32): (b: seq<byte>)
    ensures |b| == 4
  {
    [x / 0x100_0000, x / 0x1_0000 % 0x100, x / 0x100 % 0x100, x % 0x100]
  }

  function FromBe32(b: seq<byte>): uint32
    requires |b| == 4
  {
    0x100_0000 * (b[0] as int) + 0x1_0000 * (b[1] as int) + 0x100 * (b[2] as int) + b[3]
  }

  lemma ByteByByte(x: nat)
    ensures x / 0x1_0000 == x / 0x100 / 0x100 && x / 0x100_0000 == x / 0x1_0000 / 0x100
  {
  }

  lemma Be32RoundTrip(x: uint32)
    ensures FromBe32(Be32(x)) == x
  {
    ByteByByte(x);
    var a := x / 0x100;
    var b := a / 0x100;
    assert x == 0x100 * a + x % 0x100;
    assert a == 0x100 * b + a % 0x100;
    assert b == 0x100 * (b / 0x100) + b % 0x100;
  }

  // A number read from bytes, the first of which counts most.
  function BigEndian(b: seq<byte>): nat {
    if b == [] then 0 else BigEndian(b[..|b| - 1]) * 0x100 + (b[|b| - 1] as int)
  }

  lemma BigEndianTwo(b: seq<byte>)
    requires |b| == 2
    ensures BigEndian(b) == (b[0] as int) * 0x100 + b[1] as int
  {
    var one := b[..1];
    assert one[..0] == [] && one[0] == b[0];
    assert BigEndian(one) == BigEndian([]) * 0x100 + b[0] as int;
  }

  lemma BigEndianFour(b: seq<byte>)
    requires |b| == 4
    ensures BigEndian(b) == (((b[0] as int) * 0x100 + b[1] as int) * 0x100 + b[2] as int) * 0x100 + b[3] as int
  {
    var three := b[..3];
    BigEndianTwo(b[..2]);
    assert three[..2] == b[..2];
    assert BigEndian(three) == BigEndian(b[..2]) * 0x100 + b[2] as int;
  }

  /** Network byte order. */
  lemma NetworkOrder(b: seq<byte>, x: nat)
    ensures |b| == 2 ==> FromBe16(b) == BigEndian(b)
    ensures |b| == 4 ==> FromBe32(b) == BigEndian(b)
    ensures x < 0x1_0000 ==> BigEndian(Be16(x)) == x
    ensures x < UINT32_SPAN ==> BigEndian(Be32(x)) == x
  {
    hide BigEndian;
    if |b| == 2 {
      BigEndianTwo(b);
    }
    if |b| == 4 {
      BigEndianFour(b);
    }
    if x < 0x1_0000 {
      BigEndianTwo(Be16(x));
    }
    if x < UINT32_SPAN {
      BigEndianFour(Be32(x));
      Be32RoundTrip(x);
    }
  }

  // Bit k of b: C's b & (1 << k) is nonzero.
  predicate Bit(b: nat, k: nat) {
    if k == 0 then b % 2 == 1 else Bit(b / 2, k - 1)
  }

  // C's b | (1 << k).
  function SetBit(b: nat, k: nat): nat
    decreases k
  {
    if k == 0 then (if b % 2 == 1 then b else b + 1) else b % 2 + 2 * SetBit(b / 2, k - 1)
  }

  function Pow2(n: nat): nat {
    if n == 0 then 1 else 2 * Pow2(n - 1)
  }

  // The number whose bit k is bits[k].
  function FromBits(bits: seq<bool>): nat {
    if bits == [] then 0 else (if bits[0] then 1 else 0) + 2 * FromBits(bits[1..])
  }

  lemma {:induction false} FromBitsBound(bits: seq<bool>)
    ensures FromBits(bits) < Pow2(|bits|)
  {
    if bits != [] {
      FromBitsBound(bits[1..]);
    }
  }

  lemma Half(low: bool, high: nat)
    ensures ((if low then 1 else 0) + 2 * high) / 2 == high
  {
  }

  lemma {:induction false} FromBitsBit(bits: seq<bool>, k: nat)
    ensures Bit(FromBits(bits), k) <==> k < |bits| && bits[k]
    decreases k
  {
    if bits == [] {
      ZeroHasNoBits(k);
    } else if k > 0 {
      Half(bits[0], FromBits(bits[1..]));
      FromBitsBit(bits[1..], k - 1);
    }
  }

  lemma {:induction false} ZeroHasNoBits(k: nat)
    ensures !Bit(0, k)
  {
    if k > 0 {
      ZeroHasNoBits(k - 1);
    }
  }

  lemma Pow2Step(n: nat)
    requires n > 0
    ensures Pow2(n) == 2 * Pow2(n - 1)
  {
  }

  lemma SetLowest(b: nat)
    ensures SetBit(b, 0) == 2 * Quot(b, 2) + 1
  {
    QuotRem(b, 2);
  }

  lemma SetHigher(b: nat, k: nat)
    requires k > 0
    ensures SetBit(b, k) == Rem(b, 2) + 2 * SetBit(Quot(b, 2), k - 1)
  {
  }

  lemma {:induction false} SetBitBound(b: nat, k: nat, n: nat)
    requires k < n && b < Pow2(n)
    ensures SetBit(b, k) < Pow2(n)
    decreases k
  {
    hide SetBit, Pow2, Quot, Rem;
    Pow2Step(n);
    QuotRem(b, 2);
    if k > 0 {
      SetHigher(b, k);
      SetBitBound(Quot(b, 2), k - 1, n - 1);
    } else {
      SetLowest(b);
    }
  }

  lemma {:induction false} SetBitBit(b: nat, k: nat, j: nat)
    ensures Bit(SetBit(b, k), j) <==> j == k || Bit(b, j)
    decreases k
  {
    if k > 0 {
      assert SetBit(b, k) / 2 == SetBit(b / 2, k - 1);
      if j > 0 {
        SetBitBit(b / 2, k - 1, j - 1);
      }
    } else {
      assert SetBit(b, k) / 2 == b / 2;
    }
  }

  // A number below 2^n is determined by its n low bits.
  lemma {:induction false} BitsDetermine(a: nat, b: nat, n: nat)
    requires a < Pow2(n) && b < Pow2(n)
    requires forall k :: 0 <= k < n ==> Bit(a, k) == Bit(b, k)
    ensures a == b
    decreases n
  {
    if n > 0 {
      assert Bit(a, 0) == Bit(b, 0);
      forall k | 0 <= k < n - 1
        ensures Bit(a / 2, k) == Bit(b / 2, k)
      {
        assert Bit(a, k + 1) == Bit(b, k + 1);
      }
      BitsDetermine(a / 2, b / 2, n - 1);
    }
  }
}
