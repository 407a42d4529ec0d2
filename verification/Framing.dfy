/** Block headers, block encoding and the loop that cuts a connection's byte
    stream back into blocks. AES and GCM are uninterpreted functions that lose
    nothing. */
module Framing {
  import opened Words

  const HEADER_LEN := 16
  const TRAILER_LEN := 16
  const SECTION_LEN := 65535
  const MIN_BLOCK_SIZE := HEADER_LEN + TRAILER_LEN

  const OP_XXX: byte := 0
  const OP_DAT: byte := 1
  const OP_FIN: byte := 2
  const OP_RST: byte := 3
  const OP_ACK: byte := 4
  const OP_RESERVED0: byte := 5
  const OP_STEG0: byte := 128
  const OP_STEG_FIN: byte := 129

  predicate OpcodeValid(o: byte) {
    OP_XXX < o < OP_RESERVED0 || OP_STEG0 <= o
  }

  const UINT16_SPAN := 0x1_0000
  type uint16 = x: int | 0 <= x < UINT16_SPAN

  datatype Header = Header(s: uint32, d: uint16, p: uint16, f: byte, r: byte) {
    predicate Valid() {
      f != OP_XXX
    }

    function TotalLen(): nat {
      HEADER_LEN + TRAILER_LEN + d + p
    }
  }

  const NO_HEADER := Header(0, 0, 0, OP_XXX, 0)

  function NewHeader(s: uint32, d: uint16, p: uint16, f: byte): Header {
    if OpcodeValid(f) then Header(s, d, p, f, 0) else NO_HEADER
  }

  function EncodeClear(h: Header): (clear: seq<byte>)
    ensures |clear| == HEADER_LEN
  {
    Be32(h.s) + Be16(h.d) + Be16(h.p) + [h.f, h.r] + [0, 0, 0, 0, 0, 0]
  }

  predicate CheckOk(clear: seq<byte>)
    requires |clear| == HEADER_LEN
  {
    clear[10..] == [0, 0, 0, 0, 0, 0]
  }

  predicate DeltaOk(clear: seq<byte>, window: uint32)
    requires |clear| == HEADER_LEN
  {
    Wrap32(FromBe32(clear[..4]) - window) < 256
  }

  // The opcode test reads the member being constructed, not the decoded byte:
  // its value is whatever the memory held before.
  predicate OpcodeTest(junk: byte) {
    OP_RESERVED0 <= junk < OP_STEG0
  }

  function DecodeClear(clear: seq<byte>, window: uint32, junk: byte): Header
    requires |clear| == HEADER_LEN
  {
    if CheckOk(clear) || DeltaOk(clear, window) || OpcodeTest(junk) then
      Header(FromBe32(clear[..4]), FromBe16(clear[4..6]), FromBe16(clear[6..8]), clear[8], clear[9])
    else
      NO_HEADER
  }

  /** Whatever the receive window and the stale memory hold, a header the peer
      encoded is read back unchanged, even far outside the window. */
  lemma HeaderRoundTrip(h: Header, window: uint32, junk: byte)
    ensures DecodeClear(EncodeClear(h), window, junk) == h
  {
    var clear := EncodeClear(h);
    Be32RoundTrip(h.s);
    assert clear[10..] == [0, 0, 0, 0, 0, 0];
    assert clear[..4] == Be32(h.s) && clear[4..6] == Be16(h.d) && clear[6..8] == Be16(h.p);
  }

  /** The fields of a header in their places, the first byte of each counting most. */
  lemma HeaderLayout(h: Header)
    ensures var clear := EncodeClear(h);
            && BigEndian(clear[..4]) == h.s && BigEndian(clear[4..6]) == h.d && BigEndian(clear[6..8]) == h.p
            && clear[8] == h.f && clear[9] == h.r && forall i :: 10 <= i < 16 ==> clear[i] == 0
  {
    hide BigEndian;
    var clear := EncodeClear(h);
    NetworkOrder([], h.s);
    NetworkOrder([], h.d);
    NetworkOrder([], h.p);
    assert clear[..4] == Be32(h.s) && clear[4..6] == Be16(h.d) && clear[6..8] == Be16(h.p);
    assert clear[10..] == [0, 0, 0, 0, 0, 0];
    forall i | 10 <= i < 16
      ensures clear[i] == 0
    {
      assert clear[i] == clear[10..][i - 10];
    }
  }

  // What the format's documentation states for incoming headers: the check field is
  // zero, and the number is one of the 256 from the window's lower edge on.
  predicate CheckZero(clear: seq<byte>)
    requires |clear| == HEADER_LEN
  {
    forall i :: 10 <= i < 16 ==> clear[i] == 0
  }

  predicate NumberAt(clear: seq<byte>, window: uint32, k: nat)
    requires |clear| == HEADER_LEN
  {
    k < 256 && BigEndian(clear[..4]) == (window + k) % UINT32_SPAN
  }

  ghost predicate InWindow(clear: seq<byte>, window: uint32)
    requires |clear| == HEADER_LEN
  {
    exists k :: NumberAt(clear, window, k)
  }

  ghost predicate DocumentedAccept(clear: seq<byte>, window: uint32)
    requires |clear| == HEADER_LEN
  {
    CheckZero(clear) && InWindow(clear, window)
  }

  lemma CheckIs(clear: seq<byte>)
    requires |clear| == HEADER_LEN
    ensures CheckOk(clear) <==> CheckZero(clear)
  {
    if CheckOk(clear) {
      forall i | 10 <= i < 16
        ensures clear[i] == 0
      {
        assert clear[i] == clear[10..][i - 10];
      }
    }
  }

  lemma DeltaIs(clear: seq<byte>, window: uint32)
    requires |clear| == HEADER_LEN
    ensures DeltaOk(clear, window) <==> InWindow(clear, window)
  {
    hide BigEndian, FromBe32;
    var s := FromBe32(clear[..4]);
    NetworkOrder(clear[..4], 0);
    var delta := Wrap32(s - window);
    WrapsBack(s, window);
    if delta < 256 {
      assert NumberAt(clear, window, delta);
    }
    if k: nat :| NumberAt(clear, window, k) {
      WrapsForward(window, k);
    }
  }

  lemma WrapsBack(s: uint32, window: uint32)
    ensures (window + Wrap32(s - window)) % UINT32_SPAN == s
  {
  }

  lemma WrapsForward(window: uint32, k: nat)
    requires k < 256
    ensures Wrap32((window + k) % UINT32_SPAN - window) == k
  {
  }

  /** Decoding follows the documented discipline exactly in these cases. An opcode
      byte of zero always makes the header invalid. Otherwise the check field and
      the window test agree, and, where both fail, the stale memory is not one of the
      reserved opcodes 5 to 127. */
  lemma AcceptsAsDocumentedIff(clear: seq<byte>, window: uint32, junk: byte)
    requires |clear| == HEADER_LEN
    ensures (DecodeClear(clear, window, junk).Valid() <==> DocumentedAccept(clear, window))
       <==> if clear[8] == 0 then !(CheckZero(clear) && InWindow(clear, window))
            else (CheckZero(clear) <==> InWindow(clear, window)) && (CheckZero(clear) || junk < 5 || junk > 127)
  {
    CheckIs(clear);
    DeltaIs(clear, window);
    hide CheckOk, DeltaOk, CheckZero, InWindow;
    var h := DecodeClear(clear, window, junk);
    if CheckOk(clear) || DeltaOk(clear, window) || OpcodeTest(junk) {
      assert h.f == clear[8];
    }
  }

  // A corrupted check field is accepted because the number is in the window.
  lemma CorruptCheckAccepted()
    ensures exists clear: seq<byte> :: |clear| == HEADER_LEN && !DocumentedAccept(clear, 0) &&
              DecodeClear(clear, 0, OP_XXX).Valid()
  {
    var clear: seq<byte> := [0, 0, 0, 7, 0, 0, 0, 0, OP_DAT, 0, 0, 0, 0, 0, 0, 1];
    assert clear[10..][5] == 1;
    assert clear[..4] == [0, 0, 0, 7];
    assert clear[15] == 1 && !CheckZero(clear);
    assert FromBe32(clear[..4]) == 7;
    assert DecodeClear(clear, 0, OP_XXX).f == OP_DAT;
  }

  // ----- Ciphers -----

  datatype Cipher = Cipher(
    hdrEnc: seq<byte> -> seq<byte>,
    hdrDec: seq<byte> -> seq<byte>,
    bodyEnc: (seq<byte>, seq<byte>) -> seq<byte>,
    bodyDec: (seq<byte>, seq<byte>) -> Option<seq<byte>>)
  {
    ghost predicate HeaderLossless() {
      && (forall x {:trigger hdrEnc(x)} :: |x| == HEADER_LEN ==> |hdrEnc(x)| == HEADER_LEN && hdrDec(hdrEnc(x)) == x)
      && (forall y {:trigger hdrDec(y)} :: |y| == HEADER_LEN ==> |hdrDec(y)| == HEADER_LEN)
    }

    ghost predicate BodyLossless() {
      && (forall n, x {:trigger bodyEnc(n, x)} ::
            |bodyEnc(n, x)| == |x| + TRAILER_LEN && bodyDec(n, bodyEnc(n, x)) == Some(x))
    }

    ghost predicate Lossless() {
      HeaderLossless() && BodyLossless()
    }
  }

  function Zeros(n: nat): (z: seq<byte>)
    ensures |z| == n
  {
    seq(n, _ => 0)
  }

  // The encrypted header is also the nonce of the body.
  function EncodeBlock(c: Cipher, h: Header, data: seq<byte>): seq<byte> {
    var head := c.hdrEnc(EncodeClear(h));
    head + c.bodyEnc(head, data + Zeros(h.p))
  }

  // ----- The receive loop -----

  datatype Received = Received(s: uint32, op: byte, data: seq<byte>)

  // What a call to the receive loop finds besides the bytes: the lower edge of
  // the receive window and the stale memory under each new header.
  datatype Surroundings = Surroundings(window: uint32, junk: seq<byte> -> byte)

  datatype Deframed = Deframed(blocks: seq<Received>, rest: seq<byte>, ok: bool)

  ghost function Deframe(c: Cipher, env: Surroundings, buf: seq<byte>): Deframed
    requires c.Lossless()
    decreases |buf|
  {
    if |buf| < MIN_BLOCK_SIZE then Deframed([], buf, true) else
    var head := buf[..HEADER_LEN];
    var h := DecodeClear(c.hdrDec(head), env.window, env.junk(head));
    if !h.Valid() then Deframed([], buf, false) else
    if |buf| < h.TotalLen() then Deframed([], buf, true) else
    var rest := buf[h.TotalLen()..];
    match c.bodyDec(head, buf[HEADER_LEN..h.TotalLen()])
    case None => Deframed([], rest, false)
    case Some(clear) => Before(Received(h.s, h.f, clear[..Min(h.d, |clear|)]), Deframe(c, env, rest))
  }

  function Before(b: Received, d: Deframed): Deframed {
    Deframed([b] + d.blocks, d.rest, d.ok)
  }

  // What the loop has handed over so far, and what is to come.
  function Behind(blocks: seq<Received>, d: Deframed): Deframed {
    Deframed(blocks + d.blocks, d.rest, d.ok)
  }

  lemma BehindSnoc(blocks: seq<Received>, b: Received, d: Deframed)
    ensures Behind(blocks, Before(b, d)) == Behind(blocks + [b], d)
  {
    assert blocks + ([b] + d.blocks) == blocks + [b] + d.blocks;
  }

  lemma BehindNothing(blocks: seq<Received>, rest: seq<byte>, ok: bool)
    ensures Behind(blocks, Deframed([], rest, ok)) == Deframed(blocks, rest, ok)
    ensures Behind([], Deframed(blocks, rest, ok)) == Deframed(blocks, rest, ok)
  {
  }

  class ChopConn {
    var recvPending: seq<byte>

    constructor ()
      ensures recvPending == []
    {
      recvPending := [];
    }

    // One arrival: blocks are handed to the circuit in the order listed.
    method Recv(c: Cipher, env: Surroundings, arrival: seq<byte>) returns (blocks: seq<Received>, ok: bool)
      requires c.Lossless()
      modifies this
      ensures Deframed(blocks, recvPending, ok) == Deframe(c, env, old(recvPending) + arrival)
    {
      hide DecodeClear, Cipher.BodyLossless, Behind, Before;
      recvPending := recvPending + arrival;
      blocks := [];
      ghost var all := Deframe(c, env, recvPending);
      BehindNothing(all.blocks, all.rest, all.ok);
      while true
        invariant all == Behind(blocks, Deframe(c, env, recvPending))
        decreases |recvPending|
      {
        BehindNothing(blocks, recvPending, true);
        BehindNothing(blocks, recvPending, false);
        var avail := |recvPending|;
        if avail == 0 || avail < MIN_BLOCK_SIZE {
          return blocks, true;
        }
        var head := recvPending[..HEADER_LEN];
        var h := DecodeClear(c.hdrDec(head), env.window, env.junk(head));
        if !h.Valid() {
          return blocks, false;
        }
        if avail < h.TotalLen() {
          return blocks, true;
        }
        var body := recvPending[HEADER_LEN..h.TotalLen()];
        recvPending := recvPending[h.TotalLen()..];
        var clear := c.bodyDec(head, body);
        if clear == None {
          BehindNothing(blocks, recvPending, false);
          return blocks, false;
        }
        var block := Received(h.s, h.f, clear.value[..Min(h.d, |clear.value|)]);
        BehindSnoc(blocks, block, Deframe(c, env, recvPending));
        blocks := blocks + [block];
      }
    }
  }

  // ----- What the sender put on the connection -----

  datatype Frame = Frame(h: Header, data: seq<byte>) {
    ghost predicate Valid() {
      h.Valid() && |data| == h.d
    }

    function Content(): Received {
      Received(h.s, h.f, data)
    }
  }

  ghost predicate AllValid(frames: seq<Frame>) {
    forall i :: 0 <= i < |frames| ==> frames[i].Valid()
  }

  function Stream(c: Cipher, frames: seq<Frame>): seq<byte> {
    if frames == [] then [] else EncodeBlock(c, frames[0].h, frames[0].data) + Stream(c, frames[1..])
  }

  function Contents(frames: seq<Frame>): seq<Received> {
    seq(|frames|, i requires 0 <= i < |frames| => frames[i].Content())
  }

  // The reference: whole frames are taken off the front, the tail is left.
  function Cut(frames: seq<Frame>, buf: seq<byte>): Deframed {
    if frames == [] || |buf| < frames[0].h.TotalLen() then Deframed([], buf, true) else
    var more := Cut(frames[1..], buf[frames[0].h.TotalLen()..]);
    Deframed([frames[0].Content()] + more.blocks, more.rest, true)
  }

  // The contents of as many leading frames as fit, and the bytes after them,
  // which hold no further whole frame.
  ghost predicate IsCut(c: Cipher, frames: seq<Frame>, buf: seq<byte>, d: Deframed) {
    var k := |d.blocks|;
    && k <= |frames|
    && d.blocks == Contents(frames[..k])
    && buf == Stream(c, frames[..k]) + d.rest
    && (if k < |frames| then |d.rest| < frames[k].h.TotalLen() else d.rest == [])
  }

  /** What the reference computes on part of an honest stream. */
  lemma {:induction false} CutMeaning(c: Cipher, frames: seq<Frame>, buf: seq<byte>)
    requires c.Lossless() && AllValid(frames)
    requires buf <= Stream(c, frames)
    ensures IsCut(c, frames, buf, Cut(frames, buf))
    decreases |frames|
  {
    if frames != [] {
      var block := EncodeBlock(c, frames[0].h, frames[0].data);
      BlockLength(c, frames[0]);
      PrefixOfConcat(buf, block, Stream(c, frames[1..]));
      if |buf| >= |block| {
        CutMeaning(c, frames[1..], buf[|block|..]);
        IsCutStep(c, frames, buf[|block|..], Cut(frames[1..], buf[|block|..]));
      }
    }
  }

  lemma IsCutStep(c: Cipher, frames: seq<Frame>, buf: seq<byte>, d: Deframed)
    requires frames != [] && IsCut(c, frames[1..], buf, d)
    ensures IsCut(c, frames, EncodeBlock(c, frames[0].h, frames[0].data) + buf,
                  Deframed([frames[0].Content()] + d.blocks, d.rest, true))
  {
    PrefixUnfolds(c, frames, |d.blocks|);
  }

  lemma PrefixUnfolds(c: Cipher, frames: seq<Frame>, k: nat)
    requires k < |frames|
    ensures Stream(c, frames[..k + 1]) == EncodeBlock(c, frames[0].h, frames[0].data) + Stream(c, frames[1..][..k])
    ensures Contents(frames[..k + 1]) == [frames[0].Content()] + Contents(frames[1..][..k])
  {
    assert frames[..k + 1][1..] == frames[1..][..k];
  }

  lemma BlockLength(c: Cipher, f: Frame)
    requires c.Lossless() && f.Valid()
    ensures |EncodeBlock(c, f.h, f.data)| == f.h.TotalLen()
  {
    var head := c.hdrEnc(EncodeClear(f.h));
    assert |c.bodyEnc(head, f.data + Zeros(f.h.p))| == |f.data + Zeros(f.h.p)| + TRAILER_LEN;
  }

  /** A block opens under its own encrypted header as nonce: data, then zeros. */
  lemma BlockOpens(c: Cipher, f: Frame)
    requires c.Lossless() && f.Valid()
    ensures var block := EncodeBlock(c, f.h, f.data);
            && |block| == f.h.TotalLen()
            && c.hdrDec(block[..HEADER_LEN]) == EncodeClear(f.h)
            && exists clear ::
                 && c.bodyDec(block[..HEADER_LEN], block[HEADER_LEN..]) == Some(clear)
                 && |clear| == f.h.d + f.h.p && clear[..f.h.d] == f.data && forall i :: f.h.d <= i < |clear| ==> clear[i] == 0
  {
    BlockLength(c, f);
    var block := EncodeBlock(c, f.h, f.data);
    var head := c.hdrEnc(EncodeClear(f.h));
    var clear := f.data + Zeros(f.h.p);
    assert block[..HEADER_LEN] == head && block[HEADER_LEN..] == c.bodyEnc(head, clear);
    assert c.bodyDec(head, c.bodyEnc(head, clear)) == Some(clear);
    assert clear[..f.h.d] == f.data;
  }

  // Cutting again, after more bytes arrive behind the tail, is cutting once.
  lemma {:induction false} CutResumes(frames: seq<Frame>, buf: seq<byte>, more: seq<byte>)
    ensures |Cut(frames, buf).blocks| <= |frames|
    ensures var first := Cut(frames, buf);
            var after := Cut(frames[|first.blocks|..], first.rest + more);
            Cut(frames, buf + more) == Deframed(first.blocks + after.blocks, after.rest, true)
    decreases |frames|
  {
    if frames == [] || |buf| < frames[0].h.TotalLen() {
      assert frames[0..] == frames;
    } else {
      var n := frames[0].h.TotalLen();
      assert (buf + more)[n..] == buf[n..] + more;
      CutResumes(frames[1..], buf[n..], more);
      var first := Cut(frames, buf);
      assert frames[|first.blocks|..] == frames[1..][|first.blocks| - 1..];
    }
  }

  lemma FirstFrame(c: Cipher, env: Surroundings, f: Frame, buf: seq<byte>)
    requires c.Lossless() && f.Valid()
    requires buf <= EncodeBlock(c, f.h, f.data) || EncodeBlock(c, f.h, f.data) <= buf
    ensures |EncodeBlock(c, f.h, f.data)| == f.h.TotalLen()
    ensures |buf| < f.h.TotalLen() ==> Deframe(c, env, buf) == Deframed([], buf, true)
    ensures |buf| >= f.h.TotalLen() ==>
              var more := Deframe(c, env, buf[f.h.TotalLen()..]);
              Deframe(c, env, buf) == Deframed([f.Content()] + more.blocks, more.rest, more.ok)
  {
    BlockLength(c, f);
    var head := c.hdrEnc(EncodeClear(f.h));
    var clear := f.data + Zeros(f.h.p);
    var body := c.bodyEnc(head, clear);
    if |buf| >= MIN_BLOCK_SIZE {
      assert buf[..HEADER_LEN] == head;
      HeaderRoundTrip(f.h, env.window, env.junk(head));
      if |buf| >= f.h.TotalLen() {
        assert buf[HEADER_LEN..f.h.TotalLen()] == body;
        assert clear[..f.h.d] == f.data;
      }
    }
  }

  // One call on any part of an honest stream agrees with the reference.
  lemma {:induction false} DeframeHonest(c: Cipher, env: Surroundings, frames: seq<Frame>, buf: seq<byte>)
    requires c.Lossless() && AllValid(frames)
    requires buf <= Stream(c, frames)
    ensures Deframe(c, env, buf) == Cut(frames, buf)
    decreases |frames|
  {
    if frames != [] {
      var block := EncodeBlock(c, frames[0].h, frames[0].data);
      PrefixOfConcat(buf, block, Stream(c, frames[1..]));
      FirstFrame(c, env, frames[0], buf);
      if |buf| >= |block| {
        DeframeHonest(c, env, frames[1..], buf[|block|..]);
      }
    }
  }

  // Bytes that begin with a header that is refused, or with a block that does not decrypt.
  ghost predicate Bad(c: Cipher, env: Surroundings, bytes: seq<byte>)
    requires c.Lossless()
  {
    |bytes| >= MIN_BLOCK_SIZE &&
    var head := bytes[..HEADER_LEN];
    var h := DecodeClear(c.hdrDec(head), env.window, env.junk(head));
    h.Valid() ==> |bytes| >= h.TotalLen() && c.bodyDec(head, bytes[HEADER_LEN..h.TotalLen()]) == None
  }

  /** At a bad block the loop stops with an error: the blocks before it have been handed
      over, and nothing behind it ever is. */
  lemma {:induction false} StopsAtBad(c: Cipher, env: Surroundings, frames: seq<Frame>, bad: seq<byte>)
    requires c.Lossless() && AllValid(frames) && Bad(c, env, bad)
    ensures var d := Deframe(c, env, Stream(c, frames) + bad); d.blocks == Contents(frames) && !d.ok
    decreases |frames|
  {
    hide Deframe, Bad, Cipher.Lossless;
    if frames == [] {
      StreamOfNone(c);
      assert [] + bad == bad;
      BadFirst(c, env, bad);
    } else {
      var block := EncodeBlock(c, frames[0].h, frames[0].data);
      var rest := Stream(c, frames[1..]) + bad;
      assert Stream(c, frames) + bad == block + rest;
      StopsAtBad(c, env, frames[1..], bad);
      hide Stream;
      FirstFrame(c, env, frames[0], block + rest);
      assert (block + rest)[|block|..] == rest;
      assert Contents(frames) == [frames[0].Content()] + Contents(frames[1..]);
    }
  }

  lemma StreamOfNone(c: Cipher)
    ensures Stream(c, []) == [] && Contents([]) == []
  {
  }

  lemma BadFirst(c: Cipher, env: Surroundings, bad: seq<byte>)
    requires c.Lossless() && Bad(c, env, bad)
    ensures Deframe(c, env, bad).blocks == [] && !Deframe(c, env, bad).ok
  {
    hide DecodeClear;
  }

  // Successive arrivals, each with its own surroundings.
  datatype Arrival = Arrival(env: Surroundings, bytes: seq<byte>)

  function Bytes(arrivals: seq<Arrival>): seq<byte> {
    Flatten(seq(|arrivals|, i requires 0 <= i < |arrivals| => arrivals[i].bytes))
  }

  lemma FirstBytes(arrivals: seq<Arrival>)
    ensures Bytes(arrivals) == if arrivals == [] then [] else arrivals[0].bytes + Bytes(arrivals[1..])
  {
    var pieces := seq(|arrivals|, i requires 0 <= i < |arrivals| => arrivals[i].bytes);
    if arrivals != [] {
      var rest := arrivals[1..];
      assert pieces[1..] == seq(|rest|, i requires 0 <= i < |rest| => rest[i].bytes);
    }
  }

  ghost function RecvAll(c: Cipher, pending: seq<byte>, arrivals: seq<Arrival>): Deframed
    requires c.Lossless()
    decreases |arrivals|
  {
    if arrivals == [] then Deframed([], pending, true) else
    var now := Deframe(c, arrivals[0].env, pending + arrivals[0].bytes);
    if !now.ok then now else
    var later := RecvAll(c, now.rest, arrivals[1..]);
    Deframed(now.blocks + later.blocks, later.rest, later.ok)
  }

  /** Deframing does not depend on fragmentation: however an honest stream is
      split, and whatever the window and stale memory are at each arrival, the
      circuit is handed exactly the whole frames so far, in order, and the
      incomplete tail stays pending. */
  lemma {:induction false} FragmentationIndependent(c: Cipher, frames: seq<Frame>, pending: seq<byte>, arrivals: seq<Arrival>)
    requires c.Lossless() && AllValid(frames)
    requires pending + Bytes(arrivals) <= Stream(c, frames)
    requires Cut(frames, pending).blocks == []
    ensures RecvAll(c, pending, arrivals) == Cut(frames, pending + Bytes(arrivals))
    decreases |arrivals|
  {
    FirstBytes(arrivals);
    hide Bytes;
    if arrivals == [] {
      assert pending + [] == pending;
      CutMeaning(c, frames, pending);
    } else {
      var buf := pending + arrivals[0].bytes;
      var later := Bytes(arrivals[1..]);
      assert pending + Bytes(arrivals) == buf + later;
      assert buf <= buf + later;
      DeframeHonest(c, arrivals[0].env, frames, buf);
      CutMeaning(c, frames, buf);
      var first := Cut(frames, buf);
      var k := |first.blocks|;
      RestOfStream(c, frames, k, first.rest, later);
      CutResumes(frames, buf, later);
      CutTailHasNoFrame(frames, buf);
      FragmentationIndependent(c, frames[k..], first.rest, arrivals[1..]);
    }
  }

  lemma RestOfStream(c: Cipher, frames: seq<Frame>, k: nat, rest: seq<byte>, later: seq<byte>)
    requires k <= |frames|
    requires Stream(c, frames[..k]) + rest + later <= Stream(c, frames)
    ensures rest + later <= Stream(c, frames[k..])
  {
    StreamSplit(c, frames, k);
    var n := |Stream(c, frames[..k])|;
    assert (Stream(c, frames[..k]) + rest + later)[n..] == rest + later;
    assert Stream(c, frames)[n..] == Stream(c, frames[k..]);
  }

  lemma {:induction false} CutTailHasNoFrame(frames: seq<Frame>, buf: seq<byte>)
    ensures |Cut(frames, buf).blocks| <= |frames|
    ensures Cut(frames[|Cut(frames, buf).blocks|..], Cut(frames, buf).rest).blocks == []
    decreases |frames|
  {
    CutResumes(frames, buf, []);
    assert buf + [] == buf && Cut(frames, buf).rest + [] == Cut(frames, buf).rest;
  }

  lemma {:induction false} StreamSplit(c: Cipher, frames: seq<Frame>, k: nat)
    requires k <= |frames|
    ensures Stream(c, frames) == Stream(c, frames[..k]) + Stream(c, frames[k..])
    decreases k
  {
    if k == 0 {
      assert frames[..0] == [] && frames[0..] == frames;
    } else {
      StreamSplit(c, frames[1..], k - 1);
      assert frames[..k][1..] == frames[1..][..k - 1];
      assert frames[k..] == frames[1..][k - 1..];
    }
  }
}
