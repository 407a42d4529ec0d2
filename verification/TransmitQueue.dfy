/** The sender's 256-slot ring of blocks not yet known to have arrived, and the
    unbounded map from sequence number to block that it stands for. */
module TransmitQueues {
  import opened Words
  import opened Framing
  import opened AckPayloads

  // No sequence number at or past this one is used before rekeying.
  const SEQNO_LIMIT := 0x8000_0000

  // ----- The map the ring stands for -----

  datatype Pending = Pending(op: byte, data: seq<byte>, rcount: byte)

  datatype Tx = Tx(nextToAck: nat, nextToSend: nat, live: map<nat, Pending>) {
    ghost predicate Valid() {
      && nextToAck <= nextToSend <= nextToAck + WINDOW
      && nextToSend <= SEQNO_LIMIT
      && (forall s :: s in live ==> nextToAck <= s < nextToSend)
    }

    predicate Full() {
      nextToSend - nextToAck > 255
    }

    function Enqueue(op: byte, data: seq<byte>): Tx {
      Tx(nextToAck, nextToSend + 1, live[nextToSend := Pending(op, data, 0)])
    }

    function Retransmit(s: nat): Tx
      requires s in live && live[s].rcount < 255
    {
      this.(live := live[s := live[s].(rcount := live[s].rcount + 1)])
    }

    // The acknowledgment process_ack acts on; none when it returns -1.
    function Accepted(wire: seq<byte>): (r: Option<Ack>)
      requires 0 <= nextToAck < UINT32_SPAN
      ensures r.Some? ==> r.value.Valid() && r.value.hsn < nextToSend
    {
      match ParseAck(wire, nextToAck)
      case None => None
      case Some(ack) => if ack.hsn >= nextToSend then None else Some(ack)
    }

    // What a successful acknowledgment leaves.
    ghost function Acked(ack: Ack): Tx
      requires Valid() && ack.Valid() && ack.hsn < nextToSend
    {
      Tx(ack.hsn + 1, nextToSend, map s | s in live && !ack.Received(s) :: live[s])
    }

    ghost function ProcessAck(wire: seq<byte>): Tx
      requires Valid()
    {
      match Accepted(wire)
      case None => this
      case Some(ack) => Acked(ack)
    }
  }

  /** A successful acknowledgment moves the lower edge to one past its HSN,
      which is never backward, keeps the window valid and every other block. */
  lemma ProcessAckKeepsValid(tx: Tx, wire: seq<byte>)
    requires tx.Valid()
    ensures tx.ProcessAck(wire).Valid()
    ensures tx.nextToAck <= tx.ProcessAck(wire).nextToAck
    ensures tx.ProcessAck(wire).live.Keys <= tx.live.Keys
    ensures forall s :: s in tx.ProcessAck(wire).live ==> tx.ProcessAck(wire).live[s] == tx.live[s]
    ensures tx.Accepted(wire).Some? ==>
              tx.ProcessAck(wire).nextToAck == tx.Accepted(wire).value.hsn + 1
  {
    if tx.Accepted(wire).Some? {
      AcceptedHsn(wire, tx.nextToAck);
    }
  }

  lemma AcceptedHsn(wire: seq<byte>, hfloor: uint32)
    requires ParseAck(wire, hfloor).Some?
    ensures hfloor <= ParseAck(wire, hfloor).value.hsn + 1
    ensures ParseAck(wire, hfloor).value.hsn < Wrap32(hfloor + 256)
  {
  }

  /** The queue is full exactly when the slot of the next number is the slot of a
      number still in the window, live or not: enqueueing would then reuse it. */
  lemma FullMeansSlotInUse(tx: Tx)
    requires tx.Valid()
    ensures tx.Full() <==> exists s :: tx.nextToAck <= s < tx.nextToSend && s % WINDOW == tx.nextToSend % WINDOW
  {
    if tx.Full() {
      assert tx.nextToAck % WINDOW == tx.nextToSend % WINDOW;
    } else {
      forall s | tx.nextToAck <= s < tx.nextToSend
        ensures s % WINDOW != tx.nextToSend % WINDOW
      {
        if s % WINDOW == tx.nextToSend % WINDOW {
          SlotInjective(tx.nextToAck, s, tx.nextToSend);
        }
      }
    }
  }

  // The blocks left while an acknowledgment is being applied: first those past
  // the numbers already released, then also without the claimed ones below i.
  ghost function Above(live: map<nat, Pending>, n: nat): map<nat, Pending> {
    map s | s in live && n <= s :: live[s]
  }

  ghost function Unclaimed(live: map<nat, Pending>, ack: Ack, i: nat): map<nat, Pending>
    requires ack.Valid()
    requires forall s :: s in live ==> s < SEQNO_LIMIT
  {
    map s | s in live && ack.hsn < s && (i <= s || !ack.Received(s)) :: live[s]
  }

  lemma AboveAll(tx: Tx)
    requires tx.Valid()
    ensures Above(tx.live, tx.nextToAck) == tx.live
  {
  }

  lemma AboveNext(live: map<nat, Pending>, n: nat)
    ensures Above(live, n + 1) == Above(live, n) - {n}
  {
  }

  lemma UnclaimedNext(live: map<nat, Pending>, ack: Ack, i: uint32)
    requires ack.Valid() && ack.hsn < i
    requires forall s :: s in live ==> s < SEQNO_LIMIT
    ensures Unclaimed(live, ack, ack.hsn + 1) == Above(live, ack.hsn + 1)
    ensures Unclaimed(live, ack, i + 1)
         == if ack.Received(i) then Unclaimed(live, ack, i) - {i as nat} else Unclaimed(live, ack, i)
  {
  }

  lemma UnclaimedEnds(tx: Tx, ack: Ack)
    requires tx.Valid() && ack.Valid() && ack.hsn < tx.nextToSend
    ensures Unclaimed(tx.live, ack, ack.hsn + 1) == Above(tx.live, ack.hsn + 1)
    ensures Unclaimed(tx.live, ack, tx.nextToSend) == tx.Acked(ack).live
  {
  }

  // The first live block for which there is room, given the spare room for its length.
  ghost predicate FirstFitting(tx: Tx, spareFor: nat -> Option<nat>, found: Option<uint32>) {
    match found
    case None => forall s :: s in tx.live ==> spareFor(|tx.live[s].data|) == None
    case Some(s) =>
      && s as nat in tx.live && spareFor(|tx.live[s].data|).Some?
      && forall t :: t in tx.live && t < s ==> spareFor(|tx.live[t].data|) == None
  }

  ghost predicate NoRoomBefore(tx: Tx, spareFor: nat -> Option<nat>, n: nat) {
    forall s :: s in tx.live && s < n ==> spareFor(|tx.live[s].data|) == None
  }

  lemma NoneAtStart(tx: Tx, spareFor: nat -> Option<nat>)
    requires tx.Valid()
    ensures NoRoomBefore(tx, spareFor, tx.nextToAck)
  {
  }

  lemma NoneUpTo(tx: Tx, spareFor: nat -> Option<nat>, n: nat, next: nat)
    requires NoRoomBefore(tx, spareFor, n) && n in tx.live && spareFor(|tx.live[n].data|) == None
    requires forall s :: n < s < next ==> s !in tx.live
    ensures NoRoomBefore(tx, spareFor, next)
  {
  }

  lemma FoundFirst(tx: Tx, spareFor: nat -> Option<nat>, s: uint32)
    requires NoRoomBefore(tx, spareFor, s) && s as nat in tx.live && spareFor(|tx.live[s].data|).Some?
    ensures FirstFitting(tx, spareFor, Some(s))
  {
  }

  lemma FoundNone(tx: Tx, spareFor: nat -> Option<nat>)
    requires tx.Valid() && NoRoomBefore(tx, spareFor, tx.nextToSend)
    ensures FirstFitting(tx, spareFor, None)
  {
  }

  // ----- The ring -----

  datatype TransmitElt = TransmitElt(hdr: Header, data: Option<seq<byte>>)

  class TransmitQueue {
    const cbuf: array<TransmitElt>
    var nextToAck: uint32
    var nextToSend: uint32

    // An occupied slot holds the one number of the window that falls on it.
    ghost predicate SlotOk(j: int)
      reads this, cbuf
      requires cbuf.Length == WINDOW && 0 <= j < WINDOW
    {
      cbuf[j].data.Some? ==>
        var h := cbuf[j].hdr;
        nextToAck <= h.s < nextToSend && h.s % WINDOW == j &&
        h.d == |cbuf[j].data.value| && OpcodeValid(h.f)
    }

    ghost predicate Valid()
      reads this, cbuf
    {
      && cbuf.Length == WINDOW
      && nextToAck <= nextToSend <= nextToAck + WINDOW
      && nextToSend <= SEQNO_LIMIT
      && (forall j :: 0 <= j < WINDOW ==> SlotOk(j))
    }

    ghost predicate Holds(s: nat)
      reads this, cbuf
      requires cbuf.Length == WINDOW
    {
      nextToAck <= s < nextToSend && cbuf[s % WINDOW].data.Some?
    }

    ghost function Abs(): (tx: Tx)
      reads this, cbuf
      requires Valid()
      ensures tx.Valid() && tx.nextToAck == nextToAck && tx.nextToSend == nextToSend
      ensures forall s :: s in tx.live <==> Holds(s)
    {
      var live := map s: nat | nextToAck <= s < nextToSend && Holds(s) ::
                    (var e := cbuf[s % WINDOW]; Pending(e.hdr.f, e.data.value, e.hdr.r));
      Tx(nextToAck, nextToSend, live)
    }

    constructor ()
      ensures Valid() && fresh(cbuf)
      ensures Abs() == Tx(0, 0, map[])
    {
      cbuf := new TransmitElt[WINDOW](_ => TransmitElt(NO_HEADER, None));
      nextToAck, nextToSend := 0, 0;
    }

    method Full() returns (full: bool)
      requires Valid()
      ensures full == Abs().Full()
      ensures full <==> exists s :: nextToAck <= s < nextToSend && s % WINDOW == nextToSend % WINDOW
    {
      FullMeansSlotInUse(Abs());
      full := nextToSend - nextToAck > 255;
    }

    // The slot found is always empty: no live block is overwritten.
    method Enqueue(op: byte, data: seq<byte>, padding: uint16) returns (seqno: uint32)
      requires Valid()
      requires OpcodeValid(op) && |data| <= SECTION_LEN && !Abs().Full()
      requires nextToSend < SEQNO_LIMIT
      modifies this`nextToSend, cbuf
      ensures Valid()
      ensures seqno == old(nextToSend) && old(cbuf[seqno % WINDOW]).data == None
      ensures Abs() == old(Abs()).Enqueue(op, data)
      ensures cbuf[seqno % WINDOW].hdr == Header(seqno, |data|, padding, op, 0)
    {
      seqno := nextToSend;
      var j := seqno % WINDOW;
      assert cbuf[j].data == None by {
        if cbuf[j].data.Some? {
          assert SlotOk(j);
          SlotInjective(nextToAck, cbuf[j].hdr.s, seqno);
        }
      }
      ghost var before := Abs();
      label L:
      cbuf[j] := TransmitElt(NewHeader(seqno, |data|, padding, op), Some(data));
      nextToSend := nextToSend + 1;
      forall k | 0 <= k < WINDOW
        ensures SlotOk(k)
      {
        assert k != j ==> old@L(SlotOk(k));
      }
      forall s: nat
        ensures Holds(s) <==> old@L(Holds(s)) || s == seqno
        ensures old@L(Holds(s)) ==> s % WINDOW != j
      {
        if nextToAck <= s < seqno && s % WINDOW == j {
          SlotInjective(nextToAck, s, seqno);
        }
      }
      assert Abs().live == before.Enqueue(op, data).live;
    }

    // Puts the block on the wire; the queue itself is unchanged.
    method Transmit(seqno: uint32, c: Cipher) returns (output: seq<byte>)
      requires Valid() && seqno in Abs().live
      ensures var h, b := cbuf[seqno % WINDOW].hdr, Abs().live[seqno];
              h.s == seqno && h.d == |b.data| && h.f == b.op && h.r == b.rcount && output == EncodeBlock(c, h, b.data)
    {
      var elt := cbuf[seqno % WINDOW];
      assert SlotOk(seqno % WINDOW);
      SlotInjective(nextToAck, elt.hdr.s, seqno);
      output := EncodeBlock(c, elt.hdr, elt.data.value);
    }

    // The data length in the header of a live block.
    method DataLen(seqno: uint32) returns (d: nat)
      requires Valid() && seqno as nat in Abs().live
      ensures d == |Abs().live[seqno].data|
    {
      d := cbuf[seqno % WINDOW].hdr.d;
      assert SlotOk(seqno % WINDOW);
    }

    // Fails, changing nothing, once the 8-bit retransmit count is used up.
    method PrepareRetransmit(seqno: uint32, padding: uint16) returns (ok: bool)
      requires Valid() && seqno in Abs().live
      modifies cbuf
      ensures Valid()
      ensures ok <==> old(Abs()).live[seqno].rcount < 255
      ensures Abs() == if ok then old(Abs()).Retransmit(seqno) else old(Abs())
      ensures ok ==> cbuf[seqno % WINDOW].hdr.p == padding
    {
      var j := seqno % WINDOW;
      var elt := cbuf[j];
      if elt.hdr.r == 255 {
        return false;
      }
      ghost var before := Abs();
      cbuf[j] := elt.(hdr := elt.hdr.(r := elt.hdr.r + 1, p := padding));
      forall k | 0 <= k < WINDOW
        ensures SlotOk(k)
      {
        assert old(SlotOk(k));
      }
      forall s: nat
        ensures Holds(s) <==> old(Holds(s))
        ensures Holds(s) && s != seqno ==> s % WINDOW != j
      {
        if Holds(s) && s % WINDOW == j {
          SlotInjective(nextToAck, s, seqno);
        }
      }
      assert Abs().live == before.Retransmit(seqno).live;
      ok := true;
    }

    method ProcessAck(wire: seq<byte>) returns (rc: int)
      requires Valid()
      modifies this`nextToAck, cbuf
      ensures Valid()
      ensures rc == if old(Abs()).Accepted(wire).Some? then 0 else -1
      ensures Abs() == old(Abs()).ProcessAck(wire)
    {
      var parsed := ParseAck(wire, nextToAck);
      if parsed == None {
        return -1;
      }
      var ack := parsed.value;
      if ack.hsn >= nextToSend {
        return -1;
      }
      AcceptedHsn(wire, nextToAck);
      Discard(ack);
      rc := 0;
    }

    // Advances past the HSN, then frees what the bitmap claims beyond it.
    method Discard(ack: Ack)
      requires Valid() && ack.Valid() && nextToAck <= ack.hsn + 1 && ack.hsn < nextToSend
      modifies this`nextToAck, cbuf
      ensures Valid()
      ensures Abs() == old(Abs()).Acked(ack)
    {
      ghost var before := Abs();
      ReleaseThrough(ack.hsn);
      UnclaimedEnds(before, ack);
      if nextToAck < nextToSend {
        ReleaseClaimed(ack, before.live);
      }
    }

    method ReleaseThrough(hsn: uint32)
      requires Valid() && nextToAck <= hsn + 1 && hsn < nextToSend
      modifies this`nextToAck, cbuf
      ensures Valid()
      ensures Abs() == Tx(hsn + 1, old(nextToSend), Above(old(Abs()).live, hsn + 1))
    {
      ghost var before := Abs();
      AboveAll(before);
      while nextToAck <= hsn
        invariant Valid() && before.nextToAck <= nextToAck <= hsn + 1
        invariant Abs() == Tx(nextToAck, before.nextToSend, Above(before.live, nextToAck))
      {
        AboveNext(before.live, nextToAck);
        ReleaseFront();
      }
    }

    method ReleaseClaimed(ack: Ack, ghost live: map<nat, Pending>)
      requires Valid() && ack.Valid() && nextToAck == ack.hsn + 1 < nextToSend
      requires forall s :: s in live ==> s < nextToSend
      requires Abs().live == Unclaimed(live, ack, nextToAck)
      modifies cbuf
      ensures Valid()
      ensures Abs() == old(Abs()).(live := Unclaimed(live, ack, nextToSend))
    {
      var i := nextToAck;
      while i < nextToSend
        invariant Valid() && nextToAck <= i <= nextToSend
        invariant Abs() == Tx(nextToAck, nextToSend, Unclaimed(live, ack, i))
      {
        UnclaimedNext(live, ack, i);
        if ack.Received(i) {
          FreeSlot(i);
        }
        i := i + 1;
      }
    }

    method ReleaseFront()
      requires Valid() && nextToAck < nextToSend
      modifies this`nextToAck, cbuf
      ensures Valid()
      ensures Abs() == Tx(old(nextToAck) + 1, old(nextToSend), old(Abs()).live - {old(nextToAck) as nat})
    {
      FreeSlot(nextToAck);
      label L:
      ghost var freed := Abs();
      nextToAck := nextToAck + 1;
      forall k | 0 <= k < WINDOW
        ensures SlotOk(k)
      {
        assert old@L(SlotOk(k));
      }
      assert Abs().live == freed.live;
    }

    method FreeSlot(s: uint32)
      requires Valid() && nextToAck <= s < nextToSend
      modifies cbuf
      ensures Valid() && cbuf[s % WINDOW].data == None
      ensures Abs() == old(Abs()).(live := old(Abs()).live - {s as nat})
    {
      var j := s % WINDOW;
      ghost var before := Abs();
      if cbuf[j].data.Some? {
        cbuf[j] := cbuf[j].(data := None);
      }
      forall k | 0 <= k < WINDOW
        ensures SlotOk(k)
      {
        assert old(SlotOk(k));
      }
      forall t: nat
        ensures Holds(t) <==> old(Holds(t)) && t != s
        ensures Holds(t) ==> t % WINDOW != j
      {
        if nextToAck <= t < nextToSend && t % WINDOW == j {
          SlotInjective(nextToAck, t, s);
        }
      }
      assert Abs().live == before.live - {s as nat};
    }

    // The iterator's step: the next live number, or the end.
    method Advance(seqno: uint32) returns (next: uint32)
      requires Valid() && nextToAck <= seqno < nextToSend
      ensures seqno < next <= nextToSend
      ensures next == nextToSend || next in Abs().live
      ensures forall s :: seqno < s < next ==> s !in Abs().live
    {
      next := seqno + 1;
      while next < nextToSend && cbuf[next % WINDOW].data == None
        invariant seqno < next <= nextToSend
        invariant forall s :: seqno < s < next ==> s !in Abs().live
        decreases nextToSend - next
      {
        next := next + 1;
      }
    }

    // Iteration as far as the first block a connection has room for.
    method FirstWithRoom(spareFor: nat -> Option<nat>) returns (found: Option<uint32>)
      requires Valid() && (nextToAck < nextToSend ==> nextToAck as nat in Abs().live)
      ensures FirstFitting(Abs(), spareFor, found)
    {
      hide Valid, Abs;
      ghost var tx := Abs();
      NoneAtStart(tx, spareFor);
      hide Tx.Valid, Holds, NoRoomBefore, FirstFitting;
      var i := nextToAck;
      while i < nextToSend
        invariant nextToAck <= i <= nextToSend && (i == nextToSend || i as nat in tx.live)
        invariant NoRoomBefore(tx, spareFor, i)
        decreases nextToSend - i
      {
        var d := DataLen(i);
        if spareFor(d).Some? {
          FoundFirst(tx, spareFor, i);
          return Some(i);
        }
        var next := Advance(i);
        assert Abs() == tx;
        NoneUpTo(tx, spareFor, i, next);
        i := next;
      }
      FoundNone(tx, spareFor);
      return None;
    }
  }
}
