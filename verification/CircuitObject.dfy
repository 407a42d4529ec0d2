/** The circuit object: the methods that carry out the endpoint's operations on
    the two rings and the upstream buffers. */
module CircuitObjects {
  import opened Words
  import opened Framing
  import opened AckPayloads
  import opened TransmitQueues
  import opened ReassemblyQueues
  import C = Circuits

  // log_assert and log_abort end the program.
  datatype Outcome = Ok | Failed | Abort

  class Circuit {
    const tx: TransmitQueue
    const rx: ReassemblyQueue
    var upIn: seq<byte>
    var upEof: bool
    var sentFin: bool
    var upOut: seq<byte>
    var receivedFin: bool
    var lastAcked: uint32
    var deadCycles: nat
    ghost var failed: bool
    ghost var sent: seq<Block>
    ghost var wire: seq<C.Packet>
    ghost var ackFrom: map<nat, Rx>
    ghost var fed: seq<byte>
    ghost var taken: seq<byte>
    ghost var refusedFin: bool

    ghost predicate Valid()
      reads this, tx, tx.cbuf, rx, rx.cbuf
    {
      tx.Valid() && rx.Valid() && C.AllQueueable(rx.Abs())
    }

    ghost function Abs(): C.Endpoint
      reads this, tx, tx.cbuf, rx, rx.cbuf
      requires Valid()
    {
      C.Endpoint(tx.Abs(), rx.Abs(), upIn, upEof, sentFin, upOut, receivedFin, lastAcked, deadCycles,
                 failed, sent, wire, ackFrom, fed, taken, refusedFin)
    }

    // The header of the block queued under a number.
    ghost function HeaderAt(s: nat): Header
      reads this, tx, tx.cbuf
      requires tx.cbuf.Length == WINDOW
    {
      tx.cbuf[s % WINDOW].hdr
    }

    constructor ()
      ensures Valid() && Abs() == C.FRESH
      ensures fresh(tx) && fresh(tx.cbuf) && fresh(rx) && fresh(rx.cbuf)
    {
      tx := new TransmitQueue();
      rx := new ReassemblyQueue();
      upIn, upEof, sentFin, upOut, receivedFin := [], false, false, [], false;
      lastAcked, deadCycles := 0, 0;
      failed, sent, wire, ackFrom, fed, taken, refusedFin := false, [], [], map[], [], [], false;
    }

    // The room is the block size without header, trailer and handshake.
    method SendTargeted(room: nat, accepted: bool) returns (rc: Outcome)
      requires Valid() && room <= 2 * SECTION_LEN && tx.nextToSend < SEQNO_LIMIT
      modifies this, tx, tx.cbuf
      ensures Valid()
      ensures match C.SendTargeted(old(Abs()), room, accepted)
              case Aborted => rc == Abort && Abs() == old(Abs())
              case Full => rc == Failed && Abs() == old(Abs())
              case Done(next) => rc == (if accepted then Ok else Failed) && Abs() == next
      ensures tx.nextToSend > old(tx.nextToSend) ==> HeaderAt(old(tx.nextToSend)).TotalLen() == MIN_BLOCK_SIZE + room
      ensures if tx.nextToSend > old(tx.nextToSend) then C.TakesWhatFits(old(Abs()), Abs(), room, accepted) else Abs() == old(Abs())
    {
      C.SendTakes(Abs(), room, accepted);
      QueueGrew(room, accepted);
      hide C.TakesWhatFits, C.SendTargeted;
      hide TransmitQueue.Valid, ReassemblyQueue.Valid, TransmitQueue.Abs, ReassemblyQueue.Abs;
      rc := Fill(room, accepted);
    }

    lemma QueueGrew(room: nat, accepted: bool)
      requires Valid()
      ensures match C.SendTargeted(Abs(), room, accepted)
              case Done(next) => next.tx.nextToSend > tx.nextToSend
              case _ => true
    {
    }

    method Fill(room: nat, accepted: bool) returns (rc: Outcome)
      requires Valid() && room <= 2 * SECTION_LEN && tx.nextToSend < SEQNO_LIMIT
      modifies this, tx, tx.cbuf
      ensures Valid()
      ensures match C.SendTargeted(old(Abs()), room, accepted)
              case Aborted => rc == Abort && Abs() == old(Abs())
              case Full => rc == Failed && Abs() == old(Abs())
              case Done(next) => rc == (if accepted then Ok else Failed) && Abs() == next
      ensures tx.nextToSend > old(tx.nextToSend) ==> HeaderAt(old(tx.nextToSend)).TotalLen() == MIN_BLOCK_SIZE + room
    {
      hide TransmitQueue.Valid, ReassemblyQueue.Valid, TransmitQueue.Abs, ReassemblyQueue.Abs;
      var avail := |upIn|;
      var op := OP_DAT;
      if avail > room || avail > SECTION_LEN {
        avail := Min(room, SECTION_LEN);
      } else if upEof && !sentFin {
        op := OP_FIN;
      }
      if room - avail > SECTION_LEN {
        return Abort;
      }
      var full := tx.Full();
      if full {
        return Failed;
      }
      TakeAndPush(avail, op, room - avail, accepted);
      rc := Note(avail, op, accepted);
    }

    method TakeAndPush(d: nat, op: byte, padding: uint16, accepted: bool)
      requires Valid() && d <= |upIn| && d <= SECTION_LEN && OpcodeValid(op)
      requires tx.nextToSend < SEQNO_LIMIT && !tx.Abs().Full()
      modifies this`upIn, this`taken, this`sent, this`wire, tx, tx.cbuf
      ensures Valid()
      ensures Abs() == C.Enqueue(old(Abs()).(upIn := old(upIn)[d..], taken := old(taken) + old(upIn)[..d]),
                                 op, old(upIn)[..d], accepted)
      ensures HeaderAt(old(tx.nextToSend)).TotalLen() == MIN_BLOCK_SIZE + d + padding
    {
      hide TransmitQueue.Valid, ReassemblyQueue.Valid, TransmitQueue.Abs, ReassemblyQueue.Abs;
      var data := upIn[..d];
      upIn := upIn[d..];
      taken := taken + data;
      Push(op, data, padding, accepted);
    }

    method Note(d: nat, op: byte, accepted: bool) returns (rc: Outcome)
      requires Valid()
      modifies this`refusedFin, this`sentFin, this`deadCycles
      ensures Valid() && Abs() == C.Note(old(Abs()), d, op, accepted)
      ensures rc == if accepted then Ok else Failed
    {
      hide TransmitQueue.Valid, ReassemblyQueue.Valid, TransmitQueue.Abs, ReassemblyQueue.Abs;
      if !accepted {
        refusedFin := refusedFin || op == OP_FIN;
        return Failed;
      }
      if op == OP_FIN {
        sentFin := true;
      }
      if d > 0 || op == OP_FIN {
        deadCycles := 0;
      }
      rc := Ok;
    }

    // The room the connection picked has beyond this block, if there is one. It goes
    // into 16 bits, so the block is as long as the connection asked only below 65536.
    method SendSpecial(op: byte, payload: seq<byte>, spare: Option<nat>)
      requires Valid() && OpcodeValid(op) && |payload| <= SECTION_LEN && tx.nextToSend < SEQNO_LIMIT
      modifies this`sent, this`wire, tx, tx.cbuf
      ensures Valid()
      ensures Abs() == C.SendSpecial(old(Abs()), op, payload, spare.Some?)
      ensures sent == old(sent) + (if old(tx.Abs()).Full() then [] else [Block(op, payload)])
      ensures wire == old(wire) + (if old(tx.Abs()).Full() || spare == None then []
                                   else [C.Packet(old(tx.nextToSend), op, payload, 0)])
      ensures tx.nextToSend <= old(tx.nextToSend) + 1
      ensures tx.nextToSend > old(tx.nextToSend) ==>
                var len := HeaderAt(old(tx.nextToSend)).TotalLen();
                if spare == None then len == MIN_BLOCK_SIZE + |payload|
                else len == MIN_BLOCK_SIZE + |payload| + spare.value <==> spare.value < UINT16_SPAN
    {
      hide TransmitQueue.Valid, ReassemblyQueue.Valid, TransmitQueue.Abs, ReassemblyQueue.Abs;
      var full := tx.Full();
      if !full {
        Push(op, payload, if spare == None then 0 else spare.value % UINT16_SPAN, spare.Some?);
      }
    }

    // Of the live blocks in order, the first one a connection has room for goes out
    // again, repadded to the room the connection picked for its length.
    method RetransmitFirst(spareFor: nat -> Option<nat>, c: Cipher)
        returns (rc: Outcome, seqno: Option<uint32>, block: seq<byte>)
      requires Valid() && (tx.nextToAck < tx.nextToSend ==> tx.nextToAck as nat in tx.Abs().live)
      modifies this`wire, tx.cbuf
      ensures Valid()
      ensures FirstFitting(old(tx.Abs()), spareFor, seqno)
      ensures match seqno
              case None => rc == Ok && Abs() == old(Abs())
              case Some(s) =>
                if old(tx.Abs()).live[s].rcount == 255 then rc == Failed && Abs() == old(Abs())
                else
                  && rc == Ok && Abs() == C.Resend(old(Abs()), s)
                  && HeaderAt(s).p == spareFor(|old(tx.Abs()).live[s].data|).value % UINT16_SPAN
                  && block == EncodeBlock(c, HeaderAt(s), old(tx.Abs()).live[s].data)
    {
      hide TransmitQueue.Valid, ReassemblyQueue.Valid, TransmitQueue.Abs, ReassemblyQueue.Abs;
      seqno := tx.FirstWithRoom(spareFor);
      rc, block := Ok, [];
      if seqno.Some? {
        var d := tx.DataLen(seqno.value);
        rc, block := Again(seqno.value, spareFor(d).value, c);
      }
    }

    method Again(s: uint32, spare: nat, c: Cipher) returns (rc: Outcome, block: seq<byte>)
      requires Valid() && s as nat in tx.Abs().live
      modifies this`wire, tx.cbuf
      ensures Valid()
      ensures if old(tx.Abs()).live[s].rcount == 255 then rc == Failed && Abs() == old(Abs())
              else
                && rc == Ok && Abs() == C.Resend(old(Abs()), s)
                && HeaderAt(s).p == spare % UINT16_SPAN
                && block == EncodeBlock(c, HeaderAt(s), old(tx.Abs()).live[s].data)
    {
      hide TransmitQueue.Valid, ReassemblyQueue.Valid, TransmitQueue.Abs, ReassemblyQueue.Abs;
      var ok := tx.PrepareRetransmit(s, spare % UINT16_SPAN);
      if !ok {
        return Failed, [];
      }
      block := tx.Transmit(s, c);
      ghost var again := tx.Abs().live[s];
      wire := wire + [C.Packet(s, again.op, again.data, again.rcount)];
      rc := Ok;
    }

    method Push(op: byte, data: seq<byte>, padding: uint16, linked: bool)
      requires Valid() && OpcodeValid(op) && |data| <= SECTION_LEN && tx.nextToSend < SEQNO_LIMIT
      requires !tx.Abs().Full()
      modifies this`sent, this`wire, tx, tx.cbuf
      ensures Valid()
      ensures Abs() == C.Enqueue(old(Abs()), op, data, linked)
      ensures HeaderAt(old(tx.nextToSend)).TotalLen() == MIN_BLOCK_SIZE + |data| + padding
    {
      hide TransmitQueue.Valid, ReassemblyQueue.Valid, TransmitQueue.Abs, ReassemblyQueue.Abs;
      var seqno := tx.Enqueue(op, data, padding);
      sent := sent + [Block(op, data)];
      if linked {
        wire := wire + [C.Packet(seqno, op, data, 0)];
      }
    }

    method RecvBlock(seqno: uint32, op: byte, data: seq<byte>)
      requires Valid()
      modifies tx, tx.cbuf, rx, rx.cbuf
      ensures Valid()
      ensures Abs() == C.RecvBlock(old(Abs()), seqno, Block(op, data))
      ensures rx.Abs() == old(rx.Abs()).Insert(seqno, if op in {1, 2, 128, 129} then Block(op, data) else Block(1, []))
      ensures op != 4 ==> tx.Abs() == old(tx.Abs())
    {
      hide TransmitQueue.Valid, ReassemblyQueue.Valid, TransmitQueue.Abs, ReassemblyQueue.Abs;
      if C.Queueable(op) {
        var ok := rx.Insert(seqno, op, data);
      } else {
        if op == OP_ACK {
          var rc := tx.ProcessAck(data);
        }
        // Its number must still be processed in order: an empty block stands in.
        var ok := rx.Insert(seqno, OP_DAT, []);
      }
    }

    // One block leaves for the upstream side; after the first error the peer is
    // sent one RST, unless the error was a second FIN.
    method ConsumeBlock(b: Block, before: bool, spare: Option<nat>) returns (wrong: bool)
      requires Valid() && C.Queueable(b.op) && (before || tx.nextToSend < SEQNO_LIMIT)
      modifies this, tx, tx.cbuf
      ensures Valid() && rx.Abs() == old(rx.Abs())
      ensures (Abs(), wrong) == C.Consume(old(Abs()), b, before, spare.Some?)
      ensures !wrong ==> !before && tx.nextToSend == old(tx.nextToSend)
    {
      hide TransmitQueue.Valid, ReassemblyQueue.Valid, TransmitQueue.Abs, ReassemblyQueue.Abs;
      wrong := before;
      assert upOut + [] == upOut;
      if b.op == OP_FIN || b.op == OP_STEG_FIN {
        if receivedFin {
          return true;
        }
        if b.op == OP_FIN && |b.data| > 0 {
          deadCycles := 0;
          upOut := upOut + b.data;
        }
        receivedFin := true;
      } else if b.op == OP_DAT && |b.data| > 0 {
        if receivedFin {
          wrong := true;
          if !before {
            SendSpecial(OP_RST, [], spare);
          }
        } else {
          deadCycles := 0;
          upOut := upOut + b.data;
        }
      }
    }

    // Takes a block off the ring, leaving the rest of the state alone.
    method TakeNext() returns (blk: Option<Block>)
      requires Valid() && NoWrap(rx.Abs())
      modifies rx, rx.cbuf
      ensures Valid() && NoWrap(rx.Abs())
      ensures Abs() == old(Abs()).(rx := old(rx.Abs()).RemoveNext())
      ensures blk == if old(rx.Abs()).next in old(rx.Abs()).held then Some(old(rx.Abs()).held[old(rx.Abs()).next]) else None
      ensures blk.Some? ==> C.Queueable(blk.value.op)
    {
      blk := rx.RemoveNext();
    }

    method Drain(spare: Option<nat>) returns (wrong: bool)
      requires Valid() && tx.nextToSend < SEQNO_LIMIT && NoWrap(rx.Abs())
      modifies this, tx, tx.cbuf, rx, rx.cbuf
      ensures Valid()
      ensures (Abs(), wrong) == C.Drain(old(Abs()), false, spare.Some?)
      ensures !wrong ==> tx.nextToSend == old(tx.nextToSend)
    {
      hide C.Drain;
      wrong := false;
      var more := true;
      while more
        invariant Valid() && NoWrap(rx.Abs())
        invariant !wrong ==> tx.nextToSend == old(tx.nextToSend)
        invariant C.Drain(Abs(), wrong, spare.Some?) == C.Drain(old(Abs()), false, spare.Some?)
        invariant !more ==> C.Drain(Abs(), wrong, spare.Some?) == (Abs(), wrong)
        decreases more, |rx.Abs().held|
      {
        more, wrong := DrainOne(wrong, spare);
      }
    }

    method DrainOne(before: bool, spare: Option<nat>) returns (more: bool, wrong: bool)
      requires Valid() && (before || tx.nextToSend < SEQNO_LIMIT) && NoWrap(rx.Abs())
      modifies this, tx, tx.cbuf, rx, rx.cbuf
      ensures Valid() && NoWrap(rx.Abs())
      ensures C.Drain(Abs(), wrong, spare.Some?) == C.Drain(old(Abs()), before, spare.Some?)
      ensures if more then |rx.Abs().held| < old(|rx.Abs().held|) else C.Drain(Abs(), wrong, spare.Some?) == (Abs(), wrong)
      ensures !wrong ==> !before && tx.nextToSend == old(tx.nextToSend)
    {
      hide TransmitQueue.Valid, ReassemblyQueue.Valid, TransmitQueue.Abs, ReassemblyQueue.Abs;
      hide C.Consume;
      ghost var e := Abs();
      var blk := TakeNext();
      more, wrong := blk.Some?, before;
      if more {
        C.DrainUnfolds(e, before, spare.Some?);
        wrong := ConsumeBlock(blk.value, before, spare);
      }
    }

    method MaybeSendAck(spare: Option<nat>) returns (rc: Outcome)
      requires Valid() && tx.nextToSend < SEQNO_LIMIT
      modifies this, tx, tx.cbuf
      ensures Valid()
      ensures match C.MaybeSendAck(old(Abs()), spare.Some?)
              case None => rc == Abort
              case Some(next) => rc != Abort && Abs() == next
      ensures rc != Abort ==>
                var next := old(rx.Abs()).next;
                if Wrap32(next - old(lastAcked)) > 31 || (old(deadCycles) > 0 && old(rx.Abs()).held != map[])
                then lastAcked == next && |sent| == |old(sent)| + (if old(tx.Abs()).Full() then 0 else 1)
                else Abs() == old(Abs())
    {
      hide TransmitQueue.Valid, ReassemblyQueue.Valid, TransmitQueue.Abs, ReassemblyQueue.Abs;
      var low := rx.Window();
      var empty := rx.Empty();
      if Wrap32(low - lastAcked) < 32 && (deadCycles == 0 || empty) {
        return Ok;
      }
      rc := AckNow(spare);
    }

    method AckNow(spare: Option<nat>) returns (rc: Outcome)
      requires Valid() && tx.nextToSend < SEQNO_LIMIT
      modifies this, tx, tx.cbuf
      ensures Valid()
      ensures match C.AckNow(old(Abs()), spare.Some?)
              case None => rc == Abort
              case Some(next) => rc != Abort && Abs() == next
    {
      hide TransmitQueue.Valid, ReassemblyQueue.Valid, TransmitQueue.Abs, ReassemblyQueue.Abs;
      var payload := rx.GenAck();
      if payload == None {
        return Abort;
      }
      AckFits(rx.Abs());
      rc := AckWith(payload.value, spare);
    }

    method AckWith(payload: seq<byte>, spare: Option<nat>) returns (rc: Outcome)
      requires Valid() && tx.nextToSend < SEQNO_LIMIT && |payload| <= SECTION_LEN
      modifies this`lastAcked, this`ackFrom, this`sent, this`wire, tx, tx.cbuf
      ensures Valid() && rc != Abort
      ensures Abs() == C.AckWith(old(Abs()), payload, spare.Some?)
    {
      hide TransmitQueue.Valid, ReassemblyQueue.Valid, TransmitQueue.Abs, ReassemblyQueue.Abs;
      var full := tx.Full();
      NoteAck(full);
      SendSpecial(OP_ACK, payload, spare);
      rc := if full then Failed else Ok;
    }

    method NoteAck(full: bool)
      requires Valid() && full == tx.Abs().Full()
      modifies this`lastAcked, this`ackFrom
      ensures Valid()
      ensures Abs() == old(Abs()).(lastAcked := old(rx.Abs()).next,
                                   ackFrom := if full then old(ackFrom) else old(ackFrom)[old(tx.Abs()).nextToSend := old(rx.Abs())])
    {
      hide TransmitQueue.Valid, ReassemblyQueue.Valid, TransmitQueue.Abs, ReassemblyQueue.Abs;
      lastAcked := rx.Window();
      if !full {
        ackFrom := ackFrom[tx.nextToSend as nat := rx.Abs()];
      }
    }

    method ProcessQueue(spare: Option<nat>) returns (rc: Outcome)
      requires Valid() && tx.nextToSend < SEQNO_LIMIT && NoWrap(rx.Abs())
      modifies this, tx, tx.cbuf, rx, rx.cbuf
      ensures Valid()
      ensures C.Drain(old(Abs()), false, spare.Some?).0.rx.Valid()
      ensures match C.ProcessQueue(old(Abs()), spare.Some?)
              case None => rc == Abort
              case Some(next) => rc != Abort && Abs() == next
    {
      hide TransmitQueue.Valid, ReassemblyQueue.Valid, TransmitQueue.Abs, ReassemblyQueue.Abs;
      var wrong := Drain(spare);
      if wrong {
        failed := true;
        return Failed;
      }
      rc := MaybeSendAck(spare);
    }
  }

  // The 32-bit numbers of the blocks held do not wrap while they are drained.
  ghost predicate NoWrap(rx: Rx) {
    forall s :: s in rx.held ==> s < UINT32_SPAN - WINDOW
  }
}
