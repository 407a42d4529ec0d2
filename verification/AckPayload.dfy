/** The selective acknowledgment: a highest processed sequence number (HSN)
    followed by up to 32 bytes of bitmap for the 256 blocks after it. */
module AckPayloads {
  import opened Words

  const WINDOW_BYTES := 32

  // The meaning of a well-formed payload.
  datatype Ack = Ack(hsn: uint32, window: seq<byte>) {
    ghost predicate Valid() {
      |window| == WINDOW_BYTES
    }

    // block_received
    predicate Received(s: uint32)
      requires Valid()
    {
      s <= hsn || (s - hsn - 1 < 256 && Bit(window[(s - hsn - 1) / 8], (s - hsn - 1) % 8))
    }
  }

  // Decoding, as a function of the bytes on the wire and the sender's floor.
  function ParseAck(wire: seq<byte>, hfloor: uint32): (r: Option<Ack>)
    ensures r.Some? ==> r.value.Valid()
  {
    if |wire| < 4 then None else
    var hsn := FromBe32(wire[..4]);
    var body := wire[4..];
    var used := Min(|body|, WINDOW_BYTES);
    var window := body[..used] + seq(WINDOW_BYTES - used, _ => 0);
    if |body| > used || (hfloor >= 1 && hsn < hfloor - 1) || hsn >= Wrap32(hfloor + 256) ||
       Ack(hsn, window).Received(hsn + 1)
    then None
    else Some(Ack(hsn, window))
  }

  // ----- The wire form of a set of offsets past the HSN -----

  function ByteOf(offsets: set<nat>, i: nat): (b: byte) {
    var bits := seq(8, k => 8 * i + k in offsets);
    FromBitsBound(bits);
    assert Pow2(8) == 256;
    FromBits(bits)
  }

  lemma ByteOfBit(offsets: set<nat>, i: nat, k: nat)
    requires k < 8
    ensures Bit(ByteOf(offsets, i), k) <==> 8 * i + k in offsets
  {
    var bits := seq(8, k => 8 * i + k in offsets);
    FromBitsBit(bits, k);
  }

  // The number of bitmap bytes needed: no trailing zero bytes are sent.
  function UsedBytes(offsets: set<nat>): (n: nat)
    ensures forall d :: d in offsets ==> d < 8 * n
    ensures n > 0 ==> exists d :: d in offsets && d / 8 == n - 1
  {
    if offsets == {} then 0 else
    var top := MaxOf(offsets);
    top / 8 + 1
  }

  function MaxOf(s: set<nat>): (m: nat)
    requires s != {}
    ensures m in s && forall x :: x in s ==> x <= m
  {
    LargestExists(s);
    var m :| m in s && forall x :: x in s ==> x <= m;
    m
  }

  lemma {:induction false} LargestExists(s: set<nat>)
    requires s != {}
    ensures exists m :: m in s && forall x :: x in s ==> x <= m
  {
    var x :| x in s;
    if s != {x} {
      LargestExists(s - {x});
      var m :| m in s - {x} && forall y :: y in s - {x} ==> y <= m;
      var top := if m < x then x else m;
      forall y | y in s
        ensures y <= top
      {
        assert y == x || y in s - {x};
      }
    }
  }

  function AckWire(hsn: uint32, offsets: set<nat>): (wire: seq<byte>)
    ensures |wire| == 4 + UsedBytes(offsets)
  {
    Be32(hsn) + Bitmap(offsets)
  }

  // The sender's range check on an incoming HSN.
  predicate InFloorRange(hsn: uint32, hfloor: uint32) {
    (hfloor >= 1 ==> hsn >= hfloor - 1) && hsn < Wrap32(hfloor + 256)
  }

  function Padded(body: seq<byte>): (window: seq<byte>)
    requires |body| <= WINDOW_BYTES
    ensures |window| == WINDOW_BYTES
  {
    body + seq(WINDOW_BYTES - |body|, _ => 0)
  }

  lemma ParsedLayout(hsn: uint32, body: seq<byte>, hfloor: uint32)
    requires |body| <= WINDOW_BYTES
    ensures ParseAck(Be32(hsn) + body, hfloor)
         == if InFloorRange(hsn, hfloor) && !Ack(hsn, Padded(body)).Received(hsn + 1)
            then Some(Ack(hsn, Padded(body))) else None
  {
    var wire := Be32(hsn) + body;
    Be32RoundTrip(hsn);
    assert wire[..4] == Be32(hsn) && wire[4..] == body && body[..|body|] == body;
  }

  // The bitmap bytes of a set of offsets, trailing zeros dropped.
  function Bitmap(offsets: set<nat>): (body: seq<byte>)
    ensures |body| == UsedBytes(offsets)
  {
    seq(UsedBytes(offsets), i requires i >= 0 => ByteOf(offsets, i))
  }

  lemma BitmapBit(offsets: set<nat>, d: nat)
    requires d < 256 && UsedBytes(offsets) <= WINDOW_BYTES
    ensures Bit(Padded(Bitmap(offsets))[d / 8], d % 8) <==> d in offsets
  {
    if d / 8 < UsedBytes(offsets) {
      assert Padded(Bitmap(offsets))[d / 8] == ByteOf(offsets, d / 8);
      ByteOfBit(offsets, d / 8, d % 8);
    } else {
      ZeroHasNoBits(d % 8);
    }
  }

  /** An acknowledgment survives the wire: parsing accepts it exactly when the
      HSN passes the range check and the block right after it is not claimed,
      and then the payload means HSN and the same offsets. */
  lemma AckWireRoundTrip(hsn: uint32, offsets: set<nat>, hfloor: uint32)
    requires forall d :: d in offsets ==> d < 256
    ensures ParseAck(AckWire(hsn, offsets), hfloor).Some? <==> InFloorRange(hsn, hfloor) && 0 !in offsets
    ensures ParseAck(AckWire(hsn, offsets), hfloor).Some? ==>
              var ack := ParseAck(AckWire(hsn, offsets), hfloor).value;
              ack.hsn == hsn &&
              forall s: uint32 :: ack.Received(s) <==> s <= hsn || (s - hsn - 1) as nat in offsets
  {
    assert UsedBytes(offsets) <= WINDOW_BYTES;
    var ack := Ack(hsn, Padded(Bitmap(offsets)));
    ParsedLayout(hsn, Bitmap(offsets), hfloor);
    if InFloorRange(hsn, hfloor) {
      BitmapBit(offsets, 0);
    }
    forall s: uint32
      ensures ack.Received(s) <==> s <= hsn || (s - hsn - 1) as nat in offsets
    {
      if hsn < s && s - hsn - 1 < 256 {
        BitmapBit(offsets, s - hsn - 1);
      }
    }
  }

  lemma {:induction false} OneBit(j: nat, k: nat)
    ensures Bit(Pow2(j), k) <==> j == k
    decreases k
  {
    if j == 0 {
      if k > 0 {
        ZeroHasNoBits(k - 1);
      }
    } else {
      Pow2Step(j);
      if k > 0 {
        OneBit(j - 1, k - 1);
      }
    }
  }

  lemma ByteOfOne(d: nat, i: nat)
    ensures ByteOf({d}, i) == if i == d / 8 then Pow2(d % 8) else 0
  {
    hide Pow2, Bit;
    var b := if i == d / 8 then Pow2(d % 8) else 0;
    SmallPower(d % 8);
    forall k: nat | k < 8
      ensures Bit(ByteOf({d}, i), k) == Bit(b, k)
    {
      ByteOfBit({d}, i, k);
      OneBit(d % 8, k);
      ZeroHasNoBits(k);
      assert 8 * i + k == d <==> i == d / 8 && k == d % 8;
    }
    SmallPower(8);
    BitsDetermine(ByteOf({d}, i), b, 8);
  }

  lemma {:induction false} PowerGrows(j: nat, n: nat)
    requires j <= n
    ensures Pow2(j) <= Pow2(n)
    decreases n - j
  {
    if j < n {
      Pow2Step(n);
      PowerGrows(j, n - 1);
    }
  }

  lemma SmallPower(j: nat)
    requires j <= 8
    ensures j < 8 ==> Pow2(j) < 256
    ensures Pow2(8) == 256
  {
    assert Pow2(4) == 16;
    if j < 8 {
      PowerGrows(j, 7);
    }
  }

  /** One block past the HSN is one bit, the lowest of a byte first, and no byte follows it. */
  lemma OneBlockWire(hsn: uint32, d: nat)
    requires d < 256
    ensures var wire := AckWire(hsn, {d});
            && |wire| == 4 + d / 8 + 1 && BigEndian(wire[..4]) == hsn
            && wire[4 + d / 8] == Pow2(d % 8) && forall i :: 4 <= i < 4 + d / 8 ==> wire[i] == 0
  {
    hide BigEndian, ByteOf, Pow2;
    var wire := AckWire(hsn, {d});
    NetworkOrder([], hsn);
    assert wire[..4] == Be32(hsn);
    assert d in {d};
    forall i: nat | i <= d / 8
      ensures wire[4 + i] == ByteOf({d}, i)
      ensures ByteOf({d}, i) == if i == d / 8 then Pow2(d % 8) else 0
    {
      ByteOfOne(d, i);
    }
    forall i | 4 <= i < 4 + d / 8
      ensures wire[i] == 0
    {
      assert wire[4 + (i - 4)] == ByteOf({d}, i - 4);
    }
  }

  // ----- The mutable object -----

  class AckPayload {
    var hsn: uint32
    var maxUsedByte: nat
    const window: array<byte>

    ghost predicate Valid()
      reads this, window
    {
      window.Length == WINDOW_BYTES && maxUsedByte <= WINDOW_BYTES &&
      forall d: nat | d in Offsets() :: d < 8 * maxUsedByte
    }

    // The offsets past the HSN whose bits are set.
    ghost function Offsets(): set<nat>
      reads window
      requires window.Length == WINDOW_BYTES
    {
      set d: nat | d < 256 && Bit(window[d / 8], d % 8)
    }

    constructor (h: uint32)
      ensures Valid() && fresh(window)
      ensures hsn == h && maxUsedByte == 0 && Offsets() == {}
    {
      hsn := h;
      maxUsedByte := 0;
      window := new byte[WINDOW_BYTES](_ => 0);
      new;
      forall k: nat {
        ZeroHasNoBits(k);
      }
    }

    // Returns false where set_block_received gives up with log_abort.
    method SetBlockReceived(s: uint32) returns (ok: bool)
      requires Valid()
      modifies this`maxUsedByte, window
      ensures Valid()
      ensures ok <==> Wrap32(s - hsn - 1) < 256
      ensures ok ==> Offsets() == old(Offsets()) + {Wrap32(s - hsn - 1) as nat}
      ensures ok ==> maxUsedByte == Max(old(maxUsedByte), Wrap32(s - hsn - 1) / 8 + 1)
      ensures !ok ==> unchanged(this) && unchanged(window)
    {
      var delta := Wrap32(s - hsn - 1);
      if delta >= 256 {
        return false;
      }
      SetBitBound(window[delta / 8], delta % 8, 8);
      assert Pow2(8) == 256;
      ghost var was := window[delta / 8];
      window[delta / 8] := SetBit(window[delta / 8], delta % 8);
      if delta / 8 + 1 > maxUsedByte {
        maxUsedByte := delta / 8 + 1;
      }
      forall k: nat {
        SetBitBit(was, delta % 8, k);
      }
      forall d: nat | d < 256
        ensures d in Offsets() <==> d in old(Offsets()) || d == delta
      {
        if d / 8 == delta / 8 {
          assert d == delta <==> d % 8 == delta % 8;
        }
      }
      ok := true;
    }

    method Serialize() returns (wire: seq<byte>)
      requires Valid() && maxUsedByte == UsedBytes(Offsets())
      ensures wire == AckWire(hsn, Offsets())
    {
      wire := Be32(hsn) + window[..maxUsedByte];
      forall i: nat | i < maxUsedByte
        ensures window[i] == ByteOf(Offsets(), i)
      {
        assert Pow2(8) == 256;
        forall k: nat | k < 8
          ensures Bit(window[i], k) == Bit(ByteOf(Offsets(), i), k)
        {
          ByteOfBit(Offsets(), i, k);
          assert (8 * i + k) / 8 == i && (8 * i + k) % 8 == k;
        }
        BitsDetermine(window[i], ByteOf(Offsets(), i), 8);
      }
    }
  }
}
