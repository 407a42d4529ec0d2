/** Two ends of a circuit over connections that lose, duplicate, delay and
    reorder blocks; invariants of every run and the delivery theorems. */
module Protocol {
  import opened Words
  import opened Framing
  import opened AckPayloads
  import opened TransmitQueues
  import opened ReassemblyQueues
  import opened Circuits

  // ----- The step system -----

  datatype Event =
    | Feed(bytes: seq<byte>)               // upstream supplies bytes
    | Eof                                  // upstream is done
    | Send(room: nat, accepted: bool)      // a block with new data or padding
    | Again(s: nat)                        // retransmission of a live block
    | Arrive(i: nat)                       // any block the peer ever put on a wire
    | Process(linked: bool)                // drain, then maybe acknowledge
    | Idle                                 // a sending round without progress

  // Losing is never delivering; duplicating is delivering again.
  ghost predicate Step(me: Endpoint, after: Endpoint, peer: Endpoint, ev: Event) {
    match ev
    case Feed(bytes) => !me.upEof && after == me.(upIn := me.upIn + bytes, fed := me.fed + bytes)
    case Eof => after == me.(upEof := true)
    case Send(room, accepted) =>
      me.tx.nextToSend < SEQNO_LIMIT && (me.upIn != [] ==> room > 0) && SendTargeted(me, room, accepted) == Done(after)
    case Again(s) => s in me.tx.live && me.tx.live[s].rcount < 255 && after == Resend(me, s)
    case Arrive(i) =>
      i < |peer.wire| && peer.wire[i].s < SEQNO_LIMIT && me.tx.Valid() &&
      after == RecvBlock(me, peer.wire[i].s, Block(peer.wire[i].op, peer.wire[i].data))
    case Process(linked) =>
      me.tx.nextToSend < SEQNO_LIMIT && Drain(me, false, linked).0.rx.Valid() &&
      ProcessQueue(me, linked) == Some(after)
    case Idle => after == me.(deadCycles := me.deadCycles + 1)
  }

  datatype World = World(a: Endpoint, b: Endpoint)

  ghost predicate Next(w: World, v: World) {
    (exists ev :: Step(w.a, v.a, w.b, ev) && v.b == w.b) ||
    (exists ev :: Step(w.b, v.b, w.a, ev) && v.a == w.a)
  }

  ghost predicate IsRun(run: seq<World>) {
    run != [] && run[0] == World(FRESH, FRESH) &&
    forall i :: 0 <= i < |run| - 1 ==> Next(run[i], run[i + 1])
  }

  // ----- What the blocks of one direction carry -----

  function Payload(blocks: seq<Block>): seq<byte> {
    if blocks == [] then [] else
    var last := blocks[|blocks| - 1];
    Payload(blocks[..|blocks| - 1]) + (if CarriesData(last.op) then last.data else [])
  }

  lemma {:induction false} PayloadPrefix(blocks: seq<Block>, n: nat)
    requires n <= |blocks|
    ensures Payload(blocks[..n]) <= Payload(blocks)
    decreases |blocks|
  {
    if n < |blocks| {
      var front := blocks[..|blocks| - 1];
      PayloadPrefix(front, n);
      assert front[..n] == blocks[..n];
    } else {
      assert blocks[..n] == blocks;
    }
  }

  ghost predicate HasFin(blocks: seq<Block>) {
    exists i :: 0 <= i < |blocks| && blocks[i].op == OP_FIN
  }

  ghost predicate TwoFins(blocks: seq<Block>) {
    exists i, j :: 0 <= i < j < |blocks| && blocks[i].op == OP_FIN && blocks[j].op == OP_FIN
  }

  // Nothing of substance follows a FIN.
  ghost predicate FinLast(blocks: seq<Block>) {
    forall i, j :: 0 <= i < j < |blocks| && blocks[i].op == OP_FIN && CarriesData(blocks[j].op) ==> blocks[j].data == []
  }

  lemma {:induction false} NothingAfterFin(blocks: seq<Block>, n: nat)
    requires n <= |blocks| && FinLast(blocks) && HasFin(blocks[..n])
    ensures Payload(blocks[..n]) == Payload(blocks)
    decreases |blocks|
  {
    if n < |blocks| {
      var front := blocks[..|blocks| - 1];
      assert front[..n] == blocks[..n];
      NothingAfterFin(front, n);
      var i :| 0 <= i < n && blocks[..n][i].op == OP_FIN;
      assert blocks[i].op == OP_FIN;
    } else {
      assert blocks[..n] == blocks;
    }
  }

  // ----- Invariants of one end -----

  ghost predicate QueueOk(e: Endpoint) {
    && e.tx.Valid()
    && |e.sent| == e.tx.nextToSend
    && (forall s :: s in e.tx.live ==> Block(e.tx.live[s].op, e.tx.live[s].data) == e.sent[s])
  }

  // A header's number and retransmit count: the nonce of the block.
  ghost predicate WireOk(e: Endpoint) {
    WireMatches(e) && NoncesDistinct(e.wire)
  }

  ghost predicate WireMatches(e: Endpoint) {
    forall i :: 0 <= i < |e.wire| ==>
      e.wire[i].s < |e.sent| && Block(e.wire[i].op, e.wire[i].data) == e.sent[e.wire[i].s] &&
      (e.wire[i].s in e.tx.live ==> e.wire[i].rcount <= e.tx.live[e.wire[i].s].rcount)
  }

  // A block that cannot be sent again has been, and no data section is too long.
  ghost predicate CarryOk(e: Endpoint) {
    && (forall s :: s in e.tx.live && e.tx.live[s].rcount > 0 ==> OnWire(e.wire, s))
    && (forall i :: 0 <= i < |e.sent| ==> |e.sent[i].data| <= SECTION_LEN)
  }

  ghost predicate OnWire(wire: seq<Packet>, s: nat) {
    exists i :: 0 <= i < |wire| && wire[i].s == s
  }

  ghost predicate NoncesDistinct(wire: seq<Packet>) {
    forall i, j :: 0 <= i < j < |wire| ==> wire[i].s != wire[j].s || wire[i].rcount != wire[j].rcount
  }

  ghost predicate StreamOk(e: Endpoint) {
    && (forall i :: 0 <= i < |e.sent| ==> CarriesData(e.sent[i].op) || e.sent[i].op == OP_ACK)
    && e.taken == Payload(e.sent)
    && e.fed == e.taken + e.upIn
    && FinLast(e.sent)
    && (HasFin(e.sent) ==> e.upEof && e.upIn == [])
  }

  // Unless a connection refused it, the FIN is sent once and noted.
  ghost predicate FinOk(e: Endpoint) {
    (e.sentFin ==> HasFin(e.sent)) &&
    (!e.refusedFin ==> (HasFin(e.sent) ==> e.sentFin) && !TwoFins(e.sent))
  }

  ghost predicate RxOk(e: Endpoint) {
    e.rx.Valid() && AllQueueable(e.rx)
  }

  // Everything got in one state of the queue is got in the other.
  ghost predicate Below(r: Rx, q: Rx) {
    r.next <= q.next && forall s :: r.Got(s) ==> q.Got(s)
  }

  ghost predicate AckOk(e: Endpoint, i: nat, r: Rx) {
    && i < |e.sent|
    && r.Valid() && r.next !in r.held && r.GenAck().Some?
    && e.sent[i] == Block(OP_ACK, r.GenAck().value)
    && Below(r, e.rx)
  }

  ghost predicate AcksOk(e: Endpoint) {
    && (forall i :: i in e.ackFrom ==> AckOk(e, i, e.ackFrom[i]))
    && (forall i, j :: i in e.ackFrom && j in e.ackFrom && i <= j ==> Below(e.ackFrom[i], e.ackFrom[j]))
    && (forall i :: 0 <= i < |e.sent| && e.sent[i].op == OP_ACK ==> i in e.ackFrom)
  }

  ghost predicate Own(e: Endpoint) {
    QueueOk(e) && WireOk(e) && CarryOk(e) && StreamOk(e) && FinOk(e) && RxOk(e) && AcksOk(e)
  }

  // ----- Invariants of one direction: p sends, q receives -----

  ghost predicate Link(p: Endpoint, q: Endpoint) {
    && q.rx.next <= |p.sent|
    && (forall s :: s in q.rx.held ==> s < |p.sent| && q.rx.held[s] == Filling(p.sent[s]))
    && q.upOut == Payload(p.sent[..q.rx.next])
    && (q.receivedFin <==> HasFin(p.sent[..q.rx.next]))
  }

  // An error was reported exactly if two FINs have been processed.
  ghost predicate FailLink(p: Endpoint, q: Endpoint) {
    q.rx.next <= |p.sent| && (q.failed <==> TwoFins(p.sent[..q.rx.next]))
  }

  // The sender takes an acknowledgment only if it leaves the next block unclaimed.
  predicate Acceptable(r: Rx) {
    r.Hsn() + 1 !in r.held
  }

  ghost predicate NothingAcked(p: Endpoint) {
    p.tx.nextToAck == 0 && forall s :: 0 <= s < p.tx.nextToSend ==> s in p.tx.live
  }

  // What p has discarded is block 0 and what one acknowledgment reported.
  ghost predicate ReportedBy(p: Endpoint, r: Rx) {
    && p.tx.nextToAck == r.Hsn() + 1 && Acceptable(r)
    && forall s :: 0 < s < p.tx.nextToSend ==> s in p.tx.live || r.Got(s)
  }

  // That acknowledgment is the latest of q's that p acted on.
  ghost predicate AckLink(p: Endpoint, q: Endpoint) {
    NothingAcked(p) || exists m :: m in q.ackFrom && ReportedBy(p, q.ackFrom[m])
  }

  ghost predicate Flow(p: Endpoint, q: Endpoint) {
    Link(p, q) && FailLink(p, q) && AckLink(p, q)
  }

  ghost predicate Inv(w: World) {
    Own(w.a) && Own(w.b) && Flow(w.a, w.b) && Flow(w.b, w.a)
  }

  // ----- Preservation: sending -----

  lemma PayloadSnoc(blocks: seq<Block>, b: Block)
    ensures Payload(blocks + [b]) == Payload(blocks) + (if CarriesData(b.op) then b.data else [])
  {
    assert (blocks + [b])[..|blocks|] == blocks;
  }

  lemma HasFinSnoc(blocks: seq<Block>, b: Block)
    ensures HasFin(blocks + [b]) <==> HasFin(blocks) || b.op == OP_FIN
    ensures TwoFins(blocks + [b]) <==> TwoFins(blocks) || (b.op == OP_FIN && HasFin(blocks))
  {
    var more := blocks + [b];
    if HasFin(blocks) {
      var i :| 0 <= i < |blocks| && blocks[i].op == OP_FIN;
      assert more[i].op == OP_FIN;
      assert more[|blocks|] == b;
    }
    if TwoFins(blocks) {
      var i, j :| 0 <= i < j < |blocks| && blocks[i].op == OP_FIN && blocks[j].op == OP_FIN;
      assert more[i].op == OP_FIN && more[j].op == OP_FIN;
    }
    if b.op == OP_FIN {
      assert more[|blocks|].op == OP_FIN;
    }
  }

  lemma NoncesSnoc(wire: seq<Packet>, p: Packet)
    requires NoncesDistinct(wire) && forall i :: 0 <= i < |wire| && wire[i].s == p.s ==> wire[i].rcount != p.rcount
    ensures NoncesDistinct(wire + [p])
  {
  }

  lemma OnWireSnoc(wire: seq<Packet>, p: Packet, s: nat)
    ensures OnWire(wire + [p], s) <==> OnWire(wire, s) || p.s == s
  {
    if OnWire(wire, s) {
      var i :| 0 <= i < |wire| && wire[i].s == s;
      assert (wire + [p])[i].s == s;
    }
    assert (wire + [p])[|wire|] == p;
  }

  lemma EnqueueQueue(e: Endpoint, op: byte, data: seq<byte>, linked: bool)
    requires QueueOk(e) && !e.tx.Full() && e.tx.nextToSend < SEQNO_LIMIT
    ensures QueueOk(Enqueue(e, op, data, linked))
  {
  }

  lemma EnqueueMatches(e: Endpoint, op: byte, data: seq<byte>, linked: bool)
    requires QueueOk(e) && WireMatches(e)
    ensures WireMatches(Enqueue(e, op, data, linked))
  {
    var after := Enqueue(e, op, data, linked);
    forall i | 0 <= i < |after.wire|
      ensures after.wire[i].s < |after.sent| && Block(after.wire[i].op, after.wire[i].data) == after.sent[after.wire[i].s]
      ensures after.wire[i].s in after.tx.live ==> after.wire[i].rcount <= after.tx.live[after.wire[i].s].rcount
    {
      if i < |e.wire| {
        assert after.wire[i] == e.wire[i];
      }
    }
  }

  lemma EnqueueCarry(e: Endpoint, op: byte, data: seq<byte>, linked: bool)
    requires QueueOk(e) && WireMatches(e) && CarryOk(e) && NoncesDistinct(e.wire) && |data| <= SECTION_LEN
    ensures CarryOk(Enqueue(e, op, data, linked)) && NoncesDistinct(Enqueue(e, op, data, linked).wire)
  {
    hide NoncesDistinct, OnWire;
    var after := Enqueue(e, op, data, linked);
    var p := Packet(e.tx.nextToSend, op, data, 0);
    NoncesSnoc(e.wire, p);
    forall s | s in after.tx.live && after.tx.live[s].rcount > 0
      ensures OnWire(after.wire, s)
    {
      assert s in e.tx.live;
      OnWireSnoc(e.wire, p, s);
    }
  }

  lemma ResendQueue(e: Endpoint, s: nat)
    requires QueueOk(e) && WireMatches(e) && s in e.tx.live && e.tx.live[s].rcount < 255
    ensures QueueOk(Resend(e, s)) && WireMatches(Resend(e, s))
  {
    var after := Resend(e, s);
    forall i | 0 <= i < |after.wire|
      ensures after.wire[i].s < |after.sent| && Block(after.wire[i].op, after.wire[i].data) == after.sent[after.wire[i].s]
      ensures after.wire[i].s in after.tx.live ==> after.wire[i].rcount <= after.tx.live[after.wire[i].s].rcount
    {
      if i < |e.wire| {
        assert after.wire[i] == e.wire[i];
      }
    }
  }

  lemma ResendCarry(e: Endpoint, s: nat)
    requires QueueOk(e) && WireOk(e) && CarryOk(e) && s in e.tx.live && e.tx.live[s].rcount < 255
    ensures CarryOk(Resend(e, s)) && NoncesDistinct(Resend(e, s).wire)
  {
    hide NoncesDistinct, OnWire;
    var after := Resend(e, s);
    var p := after.wire[|e.wire|];
    NoncesSnoc(e.wire, p);
    forall t | t in after.tx.live && after.tx.live[t].rcount > 0
      ensures OnWire(after.wire, t)
    {
      OnWireSnoc(e.wire, p, t);
    }
  }

  // The receiving side of a direction does not mind the sender's growth.
  lemma LinkGrows(p: Endpoint, after: Endpoint, q: Endpoint)
    requires Link(p, q) && FailLink(p, q) && (after.sent == p.sent || exists b :: after.sent == p.sent + [b])
    ensures Link(after, q) && FailLink(after, q)
  {
    if after.sent != p.sent {
      var b :| after.sent == p.sent + [b];
      assert after.sent[..q.rx.next] == p.sent[..q.rx.next];
    }
  }

  lemma AckLinkGrows(p: Endpoint, after: Endpoint, q: Endpoint)
    requires AckLink(p, q) && after.tx.nextToAck == p.tx.nextToAck
    requires forall s :: 0 <= s < after.tx.nextToSend && s !in after.tx.live ==> s < p.tx.nextToSend && s !in p.tx.live
    ensures AckLink(after, q)
  {
    if NothingAcked(p) {
      assert NothingAcked(after);
    } else {
      var m: nat :| m in q.ackFrom && ReportedBy(p, q.ackFrom[m]);
      assert ReportedBy(after, q.ackFrom[m]);
    }
  }

  // One block of d upstream bytes was queued, and put on a wire if accepted.
  ghost predicate TookBlock(e: Endpoint, after: Endpoint, d: nat, op: byte, accepted: bool) {
    && d <= |e.upIn| && d <= SECTION_LEN
    && (op == OP_DAT || (op == OP_FIN && d == |e.upIn| && e.upEof && !e.sentFin))
    && !e.tx.Full() && e.tx.nextToSend < SEQNO_LIMIT
    && SameReceiver(e, after)
    && after.tx == e.tx.Enqueue(op, e.upIn[..d])
    && after.sent == e.sent + [Block(op, e.upIn[..d])]
    && after.wire == Enqueue(e, op, e.upIn[..d], accepted).wire
    && after.upIn == e.upIn[d..] && after.taken == e.taken + e.upIn[..d]
    && after.upEof == e.upEof && after.fed == e.fed
    && (after.sentFin == e.sentFin || (after.sentFin && op == OP_FIN))
    && (after.refusedFin || (!e.refusedFin && (op == OP_FIN ==> after.sentFin)))
  }

  // What every way of sending leaves alone.
  ghost predicate SameReceiver(e: Endpoint, after: Endpoint) {
    after.rx == e.rx && after.upOut == e.upOut && after.receivedFin == e.receivedFin &&
    after.failed == e.failed && after.ackFrom == e.ackFrom
  }

  lemma SendStream(e: Endpoint, after: Endpoint, d: nat, op: byte, accepted: bool)
    requires StreamOk(e) && FinOk(e) && TookBlock(e, after, d, op, accepted)
    ensures StreamOk(after) && FinOk(after)
  {
    var b := Block(op, e.upIn[..d]);
    PayloadSnoc(e.sent, b);
    HasFinSnoc(e.sent, b);
    assert e.upIn == e.upIn[..d] + e.upIn[d..];
    if HasFin(e.sent) {
      assert b.data == [];
    }
    forall i, j | 0 <= i < j < |after.sent| && after.sent[i].op == OP_FIN && CarriesData(after.sent[j].op)
      ensures after.sent[j].data == []
    {
      if j == |e.sent| {
        assert e.sent[i].op == OP_FIN;
      }
    }
  }

  lemma SameReceiverFlow(p: Endpoint, q: Endpoint, after: Endpoint)
    requires Flow(p, q) && SameReceiver(q, after)
    ensures Flow(p, after)
  {
    hide ReportedBy, NothingAcked;
  }

  lemma SendShape(me: Endpoint, after: Endpoint, peer: Endpoint, room: nat, accepted: bool)
    requires Step(me, after, peer, Send(room, accepted))
    ensures var (d, op) := Segment(|me.upIn|, room, me.upEof && !me.sentFin);
            TookBlock(me, after, d, op, accepted)
  {
  }

  lemma SendKeeps(me: Endpoint, after: Endpoint, peer: Endpoint, room: nat, accepted: bool)
    requires Own(me) && Flow(me, peer) && Flow(peer, me)
    requires Step(me, after, peer, Send(room, accepted))
    ensures Own(after) && Flow(after, peer) && Flow(peer, after)
  {
    SendShape(me, after, peer, room, accepted);
    var (d, op) := Segment(|me.upIn|, room, me.upEof && !me.sentFin);
    SendOwn(me, after, peer, d, op, accepted);
    SameReceiverFlow(peer, me, after);
  }

  lemma SendOwn(me: Endpoint, after: Endpoint, peer: Endpoint, d: nat, op: byte, accepted: bool)
    requires Own(me) && Flow(me, peer) && TookBlock(me, after, d, op, accepted)
    ensures Own(after) && Flow(after, peer)
  {
    SendStream(me, after, d, op, accepted);
    EnqueueKeeps(me, after, peer, op, me.upIn[..d], accepted);
    AcksGrow(me, after, Block(op, me.upIn[..d]));
  }

  ghost predicate SendSide(e: Endpoint) {
    QueueOk(e) && WireOk(e) && CarryOk(e)
  }

  lemma EnqueueKeeps(me: Endpoint, after: Endpoint, peer: Endpoint, op: byte, data: seq<byte>, linked: bool)
    requires SendSide(me) && Flow(me, peer) && |data| <= SECTION_LEN
    requires !me.tx.Full() && me.tx.nextToSend < SEQNO_LIMIT
    requires after.tx == me.tx.Enqueue(op, data) && after.sent == me.sent + [Block(op, data)]
    requires after.wire == Enqueue(me, op, data, linked).wire
    ensures SendSide(after) && Flow(after, peer)
  {
    EnqueueQueue(me, op, data, linked);
    EnqueueMatches(me, op, data, linked);
    EnqueueCarry(me, op, data, linked);
    SendSideCopies(Enqueue(me, op, data, linked), after);
    hide WireMatches, NoncesDistinct, CarryOk;
    LinkGrows(me, after, peer);
    AckLinkGrows(me, after, peer);
  }

  lemma SendSideCopies(e: Endpoint, after: Endpoint)
    requires SendSide(e) && after.tx == e.tx && after.sent == e.sent && after.wire == e.wire
    ensures SendSide(after)
  {
  }

  lemma AcksGrow(e: Endpoint, after: Endpoint, b: Block)
    requires AcksOk(e) && after.sent == e.sent + [b] && after.ackFrom == e.ackFrom && after.rx == e.rx
    requires b.op != OP_ACK
    ensures AcksOk(after)
  {
    forall i | i in after.ackFrom
      ensures AckOk(after, i, after.ackFrom[i])
    {
      assert AckOk(e, i, e.ackFrom[i]);
    }
  }

  lemma ResendOwn(me: Endpoint, s: nat)
    requires Own(me) && s in me.tx.live && me.tx.live[s].rcount < 255
    ensures Own(Resend(me, s)) && SameReceiver(me, Resend(me, s))
  {
    ResendQueue(me, s);
    ResendCarry(me, s);
    hide WireMatches, NoncesDistinct, CarryOk;
    AcksAge(me, Resend(me, s));
  }

  lemma ResendKeepsLive(me: Endpoint, s: nat)
    requires s in me.tx.live && me.tx.live[s].rcount < 255
    ensures var after := Resend(me, s);
            after.tx.live.Keys == me.tx.live.Keys && after.tx.nextToSend == me.tx.nextToSend &&
            after.tx.nextToAck == me.tx.nextToAck && after.sent == me.sent
  {
  }

  lemma AgainKeeps(me: Endpoint, after: Endpoint, peer: Endpoint, s: nat)
    requires Own(me) && Flow(me, peer) && Flow(peer, me)
    requires Step(me, after, peer, Again(s))
    ensures Own(after) && Flow(after, peer) && Flow(peer, after)
  {
    ResendOwn(me, s);
    ResendKeepsLive(me, s);
    hide Own, Resend, Link, FailLink, AckLink;
    SameReceiverFlow(peer, me, after);
    LinkGrows(me, after, peer);
    AckLinkGrows(me, after, peer);
  }

  // ----- Preservation: a block arrives -----

  lemma AckMeaning(r: Rx, hfloor: uint32)
    requires r.Valid() && r.next !in r.held && r.GenAck().Some?
    ensures ParseAck(r.GenAck().value, hfloor).Some? <==> InFloorRange(r.Hsn(), hfloor) && Acceptable(r)
    ensures ParseAck(r.GenAck().value, hfloor).Some? ==>
              var ack := ParseAck(r.GenAck().value, hfloor).value;
              ack.hsn == r.Hsn() && ack.Received(0) && forall s: uint32 :: s > 0 ==> (ack.Received(s) <==> r.Got(s))
  {
    hide ParseAck, AckWire, Ack.Received;
    PayloadMeaning(r, hfloor);
  }

  // An acknowledgment discards block 0 and exactly what its queue had got.
  ghost predicate AckActs(tx: Tx, after: Tx, r: Rx) {
    && Acceptable(r) && tx.nextToAck <= r.Hsn() + 1 == after.nextToAck && after.nextToSend == tx.nextToSend
    && 0 !in after.live
    && forall s :: s > 0 ==> (s in after.live <==> s in tx.live && !r.Got(s))
  }

  lemma AckEffect(tx: Tx, r: Rx)
    requires tx.Valid()
    requires r.Valid() && r.next !in r.held && r.GenAck().Some?
    ensures var after := tx.ProcessAck(r.GenAck().value);
            if Acceptable(r) && InFloorRange(r.Hsn(), tx.nextToAck) && r.Hsn() < tx.nextToSend
            then AckActs(tx, after, r) else after == tx
  {
    AckMeaning(r, tx.nextToAck);
    ProcessAckKeepsValid(tx, r.GenAck().value);
  }

  lemma AckLinkProcesses(p: Endpoint, after: Endpoint, q: Endpoint, i: nat)
    requires QueueOk(p) && AcksOk(q) && AckLink(p, q)
    requires i in q.ackFrom && after.tx == p.tx.ProcessAck(q.sent[i].data)
    ensures AckLink(after, q)
  {
    var r := q.ackFrom[i];
    assert AckOk(q, i, r);
    AckEffect(p.tx, r);
    if after.tx == p.tx {
      AckLinkGrows(p, after, q);
    } else if NothingAcked(p) {
      assert ReportedBy(after, r);
    } else {
      var m: nat :| m in q.ackFrom && ReportedBy(p, q.ackFrom[m]);
      if m <= i {
        assert Below(q.ackFrom[m], r);
        assert ReportedBy(after, r);
      } else {
        assert Below(r, q.ackFrom[m]);
        assert ReportedBy(after, q.ackFrom[m]);
      }
    }
  }

  // Dropping live blocks leaves the wire as it was.
  lemma SendSideShrinks(e: Endpoint, after: Endpoint)
    requires SendSide(e) && after.tx.Valid() && after.tx.nextToSend == e.tx.nextToSend
    requires after.sent == e.sent && after.wire == e.wire
    requires after.tx.live.Keys <= e.tx.live.Keys && forall s :: s in after.tx.live ==> after.tx.live[s] == e.tx.live[s]
    ensures SendSide(after)
  {
    hide NoncesDistinct, OnWire;
  }

  lemma ArriveSender(me: Endpoint, after: Endpoint, peer: Endpoint, i: nat)
    requires Own(me) && Own(peer) && Flow(me, peer)
    requires Step(me, after, peer, Arrive(i))
    ensures SendSide(after) && Flow(after, peer)
  {
    var s := peer.wire[i].s;
    ProcessAckKeepsValid(me.tx, peer.wire[i].data);
    SendSideShrinks(me, after);
    LinkGrows(me, after, peer);
    assert Block(peer.wire[i].op, peer.wire[i].data) == peer.sent[s];
    if peer.sent[s].op == OP_ACK {
      AckLinkProcesses(me, after, peer, s);
    } else {
      AckLinkGrows(me, after, peer);
    }
  }

  lemma BelowTransitive(r: Rx, q: Rx, t: Rx)
    requires Below(r, q) && Below(q, t)
    ensures Below(r, t)
  {
  }

  // Acknowledgments already sent stay true as the queue moves on.
  lemma AcksAge(e: Endpoint, after: Endpoint)
    requires AcksOk(e) && Below(e.rx, after.rx)
    requires after.sent == e.sent && after.ackFrom == e.ackFrom
    ensures AcksOk(after)
  {
    forall i | i in e.ackFrom
      ensures AckOk(after, i, e.ackFrom[i])
    {
      assert AckOk(e, i, e.ackFrom[i]);
      BelowTransitive(e.ackFrom[i], e.rx, after.rx);
    }
  }

  lemma ArriveReceiver(me: Endpoint, after: Endpoint, peer: Endpoint, s: uint32)
    requires RxOk(me) && AcksOk(me) && Flow(peer, me) && s < |peer.sent|
    requires after == me.(tx := after.tx, rx := me.rx.Insert(s, Filling(peer.sent[s])))
    ensures RxOk(after) && AcksOk(after) && Flow(peer, after)
  {
    AcksAge(me, after);
  }

  lemma ArriveKeeps(me: Endpoint, after: Endpoint, peer: Endpoint, i: nat)
    requires Own(me) && Own(peer) && Flow(me, peer) && Flow(peer, me)
    requires Step(me, after, peer, Arrive(i))
    ensures Own(after) && Flow(after, peer) && Flow(peer, after)
  {
    ArriveSender(me, after, peer, i);
    ArriveReceiver(me, after, peer, peer.wire[i].s);
  }

  // ----- Preservation: draining -----

  ghost predicate OnlyDrained(e: Endpoint, after: Endpoint) {
    after == e.(rx := after.rx, upOut := after.upOut, receivedFin := after.receivedFin, deadCycles := after.deadCycles)
  }

  lemma OneMoreBlock(blocks: seq<Block>, n: nat)
    requires n < |blocks| && FinLast(blocks)
    ensures Payload(blocks[..n + 1]) == Payload(blocks[..n]) + (if CarriesData(blocks[n].op) then blocks[n].data else [])
    ensures HasFin(blocks[..n + 1]) <==> HasFin(blocks[..n]) || blocks[n].op == OP_FIN
    ensures HasFin(blocks[..n]) && CarriesData(blocks[n].op) ==> blocks[n].data == []
    ensures TwoFins(blocks[..n + 1]) <==> TwoFins(blocks[..n]) || (HasFin(blocks[..n]) && blocks[n].op == OP_FIN)
  {
    assert blocks[..n + 1] == blocks[..n] + [blocks[n]];
    PayloadSnoc(blocks[..n], blocks[n]);
    HasFinSnoc(blocks[..n], blocks[n]);
    if HasFin(blocks[..n]) {
      var i :| 0 <= i < n && blocks[..n][i].op == OP_FIN;
      assert blocks[i].op == OP_FIN;
    }
  }

  // An honest peer's block: a second FIN is the only error, and its bytes are none.
  lemma ConsumeHonest(e: Endpoint, b: Block, linked: bool)
    requires CarriesData(b.op) && (e.receivedFin ==> b.data == [])
    ensures var (after, bad) := Consume(e, b, false, linked);
            && after == e.(upOut := e.upOut + b.data, receivedFin := e.receivedFin || b.op == OP_FIN,
                           deadCycles := after.deadCycles)
            && (bad <==> e.receivedFin && b.op == OP_FIN)
  {
    assert e.upOut + [] == e.upOut;
  }

  // One block leaves the queue for the upstream side.
  lemma ConsumeLink(p: Endpoint, q: Endpoint, wrong: bool, linked: bool)
    requires StreamOk(p) && Link(p, q) && RxOk(q) && |p.sent| <= SEQNO_LIMIT
    requires q.rx.next in q.rx.held && (wrong ==> TwoFins(p.sent[..q.rx.next]))
    ensures var (after, bad) := Consume(q.(rx := q.rx.RemoveNext()), q.rx.held[q.rx.next], wrong, linked);
            && Link(p, after) && OnlyDrained(q, after) && after.rx == q.rx.RemoveNext() && (wrong ==> bad)
            && (TwoFins(p.sent[..after.rx.next]) <==> TwoFins(p.sent[..q.rx.next]) || bad)
  {
    var n := q.rx.next;
    var e, b := q.(rx := q.rx.RemoveNext()), q.rx.held[n];
    OneMoreBlock(p.sent, n);
    HonestBlock(p, n);
    hide StreamOk, FinLast, HasFin, TwoFins, Payload, Consume, Filling;
    ConsumeHonest(e, b, linked);
    ConsumeFlag(e, b, wrong, linked);
  }

  // What an honest peer's block is when it comes out of the queue.
  lemma HonestBlock(p: Endpoint, n: nat)
    requires StreamOk(p) && n < |p.sent|
    ensures var b, sent := Filling(p.sent[n]), p.sent[n];
            && CarriesData(b.op) && b.data == (if CarriesData(sent.op) then sent.data else [])
            && (b.op == OP_FIN <==> sent.op == OP_FIN)
            && (HasFin(p.sent[..n]) ==> b.data == [])
  {
    OneMoreBlock(p.sent, n);
  }

  lemma RemoveKeeps(q: Endpoint)
    requires RxOk(q) && q.rx.next in q.rx.held && q.rx.next < SEQNO_LIMIT
    ensures RxOk(q.(rx := q.rx.RemoveNext())) && Below(q.rx, q.rx.RemoveNext())
  {
  }

  ghost predicate Drained(p: Endpoint, q: Endpoint, after: Endpoint, bad: bool) {
    && Link(p, after) && RxOk(after) && OnlyDrained(q, after) && Below(q.rx, after.rx)
    && q.rx.next <= |p.sent|
    && (TwoFins(p.sent[..after.rx.next]) <==> TwoFins(p.sent[..q.rx.next]) || bad)
  }

  // An honest queue is drained the same way whatever was wrong before.
  lemma ConsumeFlag(e: Endpoint, b: Block, wrong: bool, linked: bool)
    requires CarriesData(b.op) && (e.receivedFin ==> b.data == [])
    ensures Consume(e, b, wrong, linked) == (Consume(e, b, false, linked).0, wrong || Consume(e, b, false, linked).1)
  {
  }

  lemma {:induction false} DrainLink(p: Endpoint, q: Endpoint, wrong: bool, linked: bool)
    requires StreamOk(p) && Link(p, q) && RxOk(q) && |p.sent| <= SEQNO_LIMIT
    requires wrong ==> TwoFins(p.sent[..q.rx.next])
    ensures var (after, bad) := Drain(q, wrong, linked);
            Drained(p, q, after, bad) && after.rx.next !in after.rx.held && (wrong ==> bad)
    decreases |q.rx.held|
  {
    hide Consume, TwoFins, Payload, HasFin, FinLast;
    if q.rx.next in q.rx.held {
      ConsumeLink(p, q, wrong, linked);
      RemoveKeeps(q);
      var e, b := q.(rx := q.rx.RemoveNext()), q.rx.held[q.rx.next];
      var (after, bad) := Consume(e, b, wrong, linked);
      RemoveShrinks(q.rx.held, q.rx.next);
      DrainLink(p, after, bad, linked);
      DrainedTransitive(p, q, after, bad, Drain(after, bad, linked).0, Drain(after, bad, linked).1);
    }
  }

  lemma DrainedTransitive(p: Endpoint, q: Endpoint, mid: Endpoint, wrong: bool, after: Endpoint, bad: bool)
    requires OnlyDrained(q, mid) && Below(q.rx, mid.rx) && Drained(p, mid, after, bad) && q.rx.next <= |p.sent|
    requires wrong ==> bad
    requires TwoFins(p.sent[..mid.rx.next]) <==> TwoFins(p.sent[..q.rx.next]) || wrong
    ensures Drained(p, q, after, bad)
  {
    hide TwoFins;
    BelowTransitive(q.rx, mid.rx, after.rx);
  }

  // ----- Preservation: acknowledging -----

  lemma AckAppends(e: Endpoint, after: Endpoint)
    requires AcksOk(e) && RxOk(e) && e.rx.next !in e.rx.held && e.rx.GenAck().Some?
    requires after.sent == e.sent + [Block(OP_ACK, e.rx.GenAck().value)] && after.rx == e.rx
    requires after.ackFrom == e.ackFrom[|e.sent| := e.rx]
    ensures AcksOk(after)
  {
    forall i | i in after.ackFrom
      ensures AckOk(after, i, after.ackFrom[i])
    {
      if i in e.ackFrom {
        assert AckOk(e, i, e.ackFrom[i]);
      }
    }
    forall i, j | i in after.ackFrom && j in after.ackFrom && i <= j
      ensures Below(after.ackFrom[i], after.ackFrom[j])
    {
      if i in e.ackFrom {
        assert AckOk(e, i, e.ackFrom[i]);
      }
      if j in e.ackFrom {
        assert AckOk(e, j, e.ackFrom[j]);
      }
    }
  }

  lemma AckStream(e: Endpoint, after: Endpoint, payload: seq<byte>)
    requires StreamOk(e) && FinOk(e)
    requires after.sent == e.sent + [Block(OP_ACK, payload)]
    requires after.upIn == e.upIn && after.taken == e.taken && after.fed == e.fed && after.upEof == e.upEof
    requires after.sentFin == e.sentFin && after.refusedFin == e.refusedFin
    ensures StreamOk(after) && FinOk(after)
  {
    PayloadSnoc(e.sent, Block(OP_ACK, payload));
    HasFinSnoc(e.sent, Block(OP_ACK, payload));
  }

  // The acknowledgments of a direction only become more.
  lemma AckLinkExtends(p: Endpoint, q: Endpoint, after: Endpoint, i: nat, r: Rx)
    requires AckLink(p, q)
    requires i !in q.ackFrom && after.ackFrom == q.ackFrom[i := r]
    ensures AckLink(p, after)
  {
    if !NothingAcked(p) {
      var m: nat :| m in q.ackFrom && ReportedBy(p, q.ackFrom[m]);
      assert after.ackFrom[m] == q.ackFrom[m];
    }
  }

  lemma AckKeeps(me: Endpoint, after: Endpoint, peer: Endpoint, linked: bool)
    requires Own(me) && Flow(me, peer) && Flow(peer, me)
    requires me.rx.next !in me.rx.held && me.tx.nextToSend < SEQNO_LIMIT
    requires MaybeSendAck(me, linked) == Some(after)
    ensures Own(after) && Flow(after, peer) && Flow(peer, after)
  {
    if AckDue(me) && !me.tx.Full() {
      var payload := me.rx.GenAck().value;
      AckFits(me.rx);
      AckStream(me, after, payload);
      EnqueueKeeps(me, after, peer, OP_ACK, payload, linked);
      AckAppends(me, after);
      AckSentFlow(me, after, peer);
    } else if AckDue(me) {
      AckNotSent(me, after, peer);
    }
  }

  lemma AckSentFlow(me: Endpoint, after: Endpoint, peer: Endpoint)
    requires AcksOk(me) && Flow(peer, me)
    requires after == me.(tx := after.tx, sent := after.sent, wire := after.wire, lastAcked := after.lastAcked,
                          ackFrom := me.ackFrom[|me.sent| := me.rx])
    ensures Flow(peer, after)
  {
    assert |me.sent| !in me.ackFrom;
    AckLinkExtends(peer, me, after, |me.sent|, me.rx);
  }

  lemma AckNotSent(me: Endpoint, after: Endpoint, peer: Endpoint)
    requires Own(me) && Flow(me, peer) && Flow(peer, me)
    requires after == me.(lastAcked := after.lastAcked)
    ensures Own(after) && Flow(after, peer) && Flow(peer, after)
  {
    SendSideCopies(me, after);
    AcksAge(me, after);
    SameReceiverFlow(peer, me, after);
    LinkGrows(me, after, peer);
    AckLinkGrows(me, after, peer);
  }

  // Draining, and an error if it saw a second FIN.
  lemma DrainKeeps(me: Endpoint, after: Endpoint, peer: Endpoint, bad: bool)
    requires Own(me) && Own(peer) && Flow(me, peer) && Flow(peer, me)
    requires Drained(peer, me, after, bad)
    ensures var done := if bad then after.(failed := true) else after;
            Own(done) && Flow(done, peer) && Flow(peer, done)
  {
    var done := if bad then after.(failed := true) else after;
    DrainOwn(me, done, peer);
    DrainFlow(me, done, peer, bad);
    hide Own, Link, AckLink, TwoFins;
    LinkGrows(me, done, peer);
    AckLinkGrows(me, done, peer);
  }

  lemma DrainOwn(me: Endpoint, done: Endpoint, peer: Endpoint)
    requires Own(me) && RxOk(done) && Below(me.rx, done.rx)
    requires OnlyDrained(me, done.(failed := me.failed))
    ensures Own(done)
  {
    SendSideCopies(me, done);
    hide WireOk, CarryOk, QueueOk;
    AcksAge(me, done);
  }

  lemma DrainFlow(me: Endpoint, done: Endpoint, peer: Endpoint, bad: bool)
    requires Flow(peer, me) && Drained(peer, me, done.(failed := me.failed), bad) && done.failed == (me.failed || bad)
    ensures Flow(peer, done)
  {
    hide TwoFins, HasFin, Payload;
    assert Link(peer, done) && FailLink(peer, done);
    AckLinkSame(peer, me, done);
  }

  lemma AckLinkSame(p: Endpoint, q: Endpoint, after: Endpoint)
    requires AckLink(p, q) && after.ackFrom == q.ackFrom
    ensures AckLink(p, after)
  {
  }

  lemma DrainFacts(me: Endpoint, peer: Endpoint, linked: bool)
    requires Own(me) && Own(peer) && Flow(peer, me)
    ensures var (drained, bad) := Drain(me, false, linked);
            Drained(peer, me, drained, bad) && drained.rx.next !in drained.rx.held
  {
    hide TwoFins, HasFin, FinLast, AckLink, AcksOk, WireOk, CarryOk;
    DrainLink(peer, me, false, linked);
  }

  lemma ProcessCases(me: Endpoint, after: Endpoint, peer: Endpoint, linked: bool)
    requires Step(me, after, peer, Process(linked))
    ensures var (drained, bad) := Drain(me, false, linked);
            && me.tx.nextToSend < SEQNO_LIMIT && drained.rx.Valid()
            && if bad then after == drained.(failed := true) else MaybeSendAck(drained, linked) == Some(after)
  {
    hide Drain, MaybeSendAck;
  }

  lemma DrainedSends(me: Endpoint, drained: Endpoint, peer: Endpoint, bad: bool)
    requires Drained(peer, me, drained, bad)
    ensures drained.tx == me.tx
  {
  }

  lemma ProcessKeeps(me: Endpoint, after: Endpoint, peer: Endpoint, linked: bool)
    requires Own(me) && Own(peer) && Flow(me, peer) && Flow(peer, me)
    requires Step(me, after, peer, Process(linked))
    ensures Own(after) && Flow(after, peer) && Flow(peer, after)
  {
    hide Drain, MaybeSendAck, Own, Flow, Drained, Step;
    ProcessCases(me, after, peer, linked);
    DrainFacts(me, peer, linked);
    var (drained, bad) := Drain(me, false, linked);
    DrainKeeps(me, drained, peer, bad);
    DrainedSends(me, drained, peer, bad);
    if !bad {
      AckKeeps(drained, after, peer, linked);
    }
  }

  // ----- Every run -----

  lemma QuietOwn(me: Endpoint, after: Endpoint, ev: Event)
    requires Own(me)
    requires QuietStep(me, after, ev)
    ensures Own(after)
  {
    SendSideCopies(me, after);
    hide WireOk, CarryOk, QueueOk;
    AcksAge(me, after);
    if ev.Feed? {
      assert me.taken + me.upIn + ev.bytes == me.taken + (me.upIn + ev.bytes);
    }
  }

  ghost predicate QuietStep(me: Endpoint, after: Endpoint, ev: Event) {
    match ev
    case Feed(bytes) => !me.upEof && after == me.(upIn := me.upIn + bytes, fed := me.fed + bytes)
    case Eof => after == me.(upEof := true)
    case Idle => after == me.(deadCycles := me.deadCycles + 1)
    case _ => false
  }

  lemma QuietKeeps(me: Endpoint, after: Endpoint, peer: Endpoint, ev: Event)
    requires Own(me) && Flow(me, peer) && Flow(peer, me)
    requires QuietStep(me, after, ev)
    ensures Own(after) && Flow(after, peer) && Flow(peer, after)
  {
    QuietOwn(me, after, ev);
    hide Own, Link, AckLink;
    SameReceiverFlow(peer, me, after);
    LinkGrows(me, after, peer);
    AckLinkGrows(me, after, peer);
  }

  lemma StepKeeps(me: Endpoint, after: Endpoint, peer: Endpoint, ev: Event)
    requires Own(me) && Own(peer) && Flow(me, peer) && Flow(peer, me)
    requires Step(me, after, peer, ev)
    ensures Own(after) && Flow(after, peer) && Flow(peer, after)
  {
    hide Own, Flow, Drain, ProcessQueue, SendTargeted, RecvBlock, Resend;
    match ev
    case Send(room, accepted) => SendKeeps(me, after, peer, room, accepted);
    case Again(s) => AgainKeeps(me, after, peer, s);
    case Arrive(i) => ArriveKeeps(me, after, peer, i);
    case Process(linked) => ProcessKeeps(me, after, peer, linked);
    case _ => QuietKeeps(me, after, peer, ev);
  }

  lemma NextKeeps(w: World, v: World)
    requires Inv(w) && Next(w, v)
    ensures Inv(v)
  {
    if ev :| Step(w.a, v.a, w.b, ev) && v.b == w.b {
      StepKeeps(w.a, v.a, w.b, ev);
    } else {
      var ev :| Step(w.b, v.b, w.a, ev) && v.a == w.a;
      StepKeeps(w.b, v.b, w.a, ev);
    }
  }

  lemma FreshSender()
    ensures SendSide(FRESH) && RxOk(FRESH) && AcksOk(FRESH)
  {
  }

  lemma FreshStream()
    ensures StreamOk(FRESH) && FinOk(FRESH)
  {
  }

  lemma FreshFlow()
    ensures Flow(FRESH, FRESH)
  {
    assert NothingAcked(FRESH);
  }

  lemma FreshInv()
    ensures Inv(World(FRESH, FRESH))
  {
    hide QueueOk, WireOk, CarryOk, StreamOk, FinOk, RxOk, AcksOk, Flow;
    FreshSender();
    FreshStream();
    FreshFlow();
  }

  lemma {:induction false} RunInv(run: seq<World>, n: nat)
    requires IsRun(run) && n < |run|
    ensures Inv(run[n])
    decreases n
  {
    if n == 0 {
      FreshInv();
    } else {
      RunInv(run, n - 1);
      NextKeeps(run[n - 1], run[n]);
    }
  }

  // ----- The theorems: p sends, q receives, at any moment of any run -----

  ghost predicate Moment(run: seq<World>, n: nat, p: Endpoint, q: Endpoint) {
    IsRun(run) && n < |run| && (run[n] == World(p, q) || run[n] == World(q, p))
  }

  // What the invariant says about one direction.
  ghost predicate Direction(p: Endpoint, q: Endpoint) {
    Own(p) && Own(q) && Flow(p, q)
  }

  lemma MomentDirection(run: seq<World>, n: nat, p: Endpoint, q: Endpoint)
    requires Moment(run, n, p, q)
    ensures Direction(p, q)
  {
    RunInv(run, n);
  }

  /** Sending conserves bytes: those taken, in sequence order, and those waiting
      are what upstream supplied. A FIN follows upstream's end with nothing left
      to send, and is sent once unless a connection refused it. */
  lemma BytesConserved(run: seq<World>, n: nat, p: Endpoint, q: Endpoint)
    requires Moment(run, n, p, q)
    ensures p.taken == Payload(p.sent) && p.fed == p.taken + p.upIn
    ensures HasFin(p.sent) ==> p.upEof && p.upIn == []
    ensures TwoFins(p.sent) ==> p.refusedFin
  {
    MomentDirection(run, n, p, q);
  }

  /** What upstream receives is always a prefix of what the peer's send path
      took, and that is a prefix of what the peer's upstream supplied. */
  lemma DeliveredPrefix(run: seq<World>, n: nat, p: Endpoint, q: Endpoint)
    requires Moment(run, n, p, q)
    ensures q.upOut <= p.taken <= p.fed
  {
    MomentDirection(run, n, p, q);
    PayloadPrefix(p.sent, q.rx.next);
  }

  /** End of file reaches upstream only after every byte did. */
  lemma EofMeansComplete(run: seq<World>, n: nat, p: Endpoint, q: Endpoint)
    requires Moment(run, n, p, q) && q.receivedFin
    ensures p.upEof && q.upOut == p.fed
  {
    MomentDirection(run, n, p, q);
    CompleteAtEof(p, q);
  }

  lemma CompleteAtEof(p: Endpoint, q: Endpoint)
    requires Direction(p, q) && q.receivedFin
    ensures p.upEof && q.upOut == p.fed
  {
    NothingAfterFin(p.sent, q.rx.next);
    PayloadPrefixHasFin(p.sent, q.rx.next);
  }

  lemma PayloadPrefixHasFin(blocks: seq<Block>, n: nat)
    requires n <= |blocks| && HasFin(blocks[..n])
    ensures HasFin(blocks)
  {
    var i :| 0 <= i < n && blocks[..n][i].op == OP_FIN;
    assert blocks[i].op == OP_FIN;
  }

  /** A receiver that has processed every block sent has delivered everything
      taken from upstream. */
  lemma AllProcessedMeansAllDelivered(run: seq<World>, n: nat, p: Endpoint, q: Endpoint)
    requires Moment(run, n, p, q) && q.rx.next == p.tx.nextToSend
    ensures q.upOut == p.taken
  {
    MomentDirection(run, n, p, q);
    assert p.sent[..q.rx.next] == p.sent;
  }

  /** Between honest ends a protocol error is reported exactly when two FINs have
      been processed. */
  lemma ErrorIff(run: seq<World>, n: nat, p: Endpoint, q: Endpoint)
    requires Moment(run, n, p, q)
    ensures q.rx.next <= |p.sent|
    ensures q.failed <==> TwoFins(p.sent[..q.rx.next])
  {
    MomentDirection(run, n, p, q);
  }

  /** And a second FIN is queued exactly by sending while one is queued but not
      noted, that is, after its connection refused it. */
  lemma SecondFinIff(run: seq<World>, n: nat, p: Endpoint, q: Endpoint, after: Endpoint, room: nat, accepted: bool)
    requires Moment(run, n, p, q) && Step(p, after, q, Send(room, accepted))
    ensures TwoFins(after.sent) <==> TwoFins(p.sent) || (HasFin(p.sent) && !p.sentFin)
    ensures HasFin(p.sent) && !p.sentFin ==> p.refusedFin
  {
    MomentDirection(run, n, p, q);
    SendShape(p, after, q, room, accepted);
    var (d, op) := Segment(|p.upIn|, room, p.upEof && !p.sentFin);
    HasFinSnoc(p.sent, Block(op, p.upIn[..d]));
  }

  /** Other than block 0, no block is discarded before the receiver has processed
      or holds it, for every order of stale, duplicated and reordered
      acknowledgments. */
  lemma NoPrematureDiscard(run: seq<World>, n: nat, p: Endpoint, q: Endpoint, s: nat)
    requires Moment(run, n, p, q) && 0 < s < p.tx.nextToSend
    ensures s in p.tx.live || q.rx.Got(s)
  {
    MomentDirection(run, n, p, q);
    WindowInStep(p, q);
  }

  /** While the sender holds block 0 and the receiver lacks it, an arriving
      acknowledgment discards it exactly if block 1 was not held when it was
      generated; that it was generated before anything was processed follows. */
  lemma BlockZeroLostIff(run: seq<World>, n: nat, p: Endpoint, q: Endpoint, after: Endpoint, i: nat)
    requires Moment(run, n, p, q) && Step(p, after, q, Arrive(i))
    requires 0 in p.tx.live && !q.rx.Got(0) && q.wire[i].op == OP_ACK
    ensures q.wire[i].s in q.ackFrom && q.ackFrom[q.wire[i].s].next == 0
    ensures 0 !in after.tx.live <==> 1 !in q.ackFrom[q.wire[i].s].held
  {
    MomentDirection(run, n, p, q);
    var s := q.wire[i].s;
    assert Block(q.wire[i].op, q.wire[i].data) == q.sent[s];
    assert AckOk(q, s, q.ackFrom[s]);
    AckEffect(p.tx, q.ackFrom[s]);
  }

  // What an acknowledgment generated from a queue does to a window: it frees all the
  // queue had, and block 0, if its HSN reaches to the lower edge and lies within what was
  // sent, and the block after it was not held; otherwise nothing.
  ghost predicate Frees(tx: Tx, after: Tx, r: Rx) {
    var hsn := Max(r.next - 1, 0);
    if tx.nextToAck <= hsn + 1 && hsn < tx.nextToSend && hsn + 1 !in r.held then
      && after.nextToAck == hsn + 1 && after.nextToSend == tx.nextToSend
      && (forall s :: s in after.live <==> s in tx.live && s > 0 && s >= r.next && s !in r.held)
      && (forall s :: s in after.live ==> after.live[s] == tx.live[s])
    else after == tx
  }

  /** In every run, exactly that is what an arriving acknowledgment does. */
  lemma AckFreesIff(run: seq<World>, n: nat, p: Endpoint, q: Endpoint, after: Endpoint, i: nat)
    requires Moment(run, n, p, q) && Step(p, after, q, Arrive(i)) && q.wire[i].op == OP_ACK
    ensures q.wire[i].s in q.ackFrom && Frees(p.tx, after.tx, q.ackFrom[q.wire[i].s])
  {
    MomentDirection(run, n, p, q);
    ArrivedAck(p, after, q, i);
    hide Moment, Step, Frees;
    WireAck(p, q, i);
    hide Direction, Rx.GenAck, Tx.ProcessAck;
    FreesIff(p.tx, q.ackFrom[q.wire[i].s]);
  }

  lemma ArrivedAck(p: Endpoint, after: Endpoint, q: Endpoint, i: nat)
    requires Step(p, after, q, Arrive(i)) && q.wire[i].op == OP_ACK
    ensures i < |q.wire| && p.tx.Valid() && after.tx == p.tx.ProcessAck(q.wire[i].data)
  {
    hide Tx.ProcessAck, Rx.Insert;
  }

  // The acknowledgment on the wire is one of those recorded.
  lemma WireAck(p: Endpoint, q: Endpoint, i: nat)
    requires Direction(p, q) && i < |q.wire| && q.wire[i].op == OP_ACK
    ensures p.tx.Valid() && q.wire[i].s in q.ackFrom
    ensures var r := q.ackFrom[q.wire[i].s];
            r.Valid() && r.next !in r.held && r.GenAck().Some? && q.wire[i].data == r.GenAck().value
  {
    hide Flow, CarryOk, StreamOk, FinOk, RxOk, NoncesDistinct, Rx.GenAck;
    var s := q.wire[i].s;
    assert Block(q.wire[i].op, q.wire[i].data) == q.sent[s];
    assert AckOk(q, s, q.ackFrom[s]);
  }

  lemma FreesIff(tx: Tx, r: Rx)
    requires tx.Valid() && r.Valid() && r.next !in r.held && r.GenAck().Some?
    ensures Frees(tx, tx.ProcessAck(r.GenAck().value), r)
  {
    hide Rx.GenAck, Tx.ProcessAck;
    AckEffect(tx, r);
    ProcessAckKeepsValid(tx, r.GenAck().value);
    AckInRange(tx, r);
    hide InFloorRange;
  }

  // The range check refuses only what is below the window.
  lemma AckInRange(tx: Tx, r: Rx)
    requires tx.Valid() && r.Valid()
    ensures r.Hsn() < tx.nextToSend ==> (InFloorRange(r.Hsn(), tx.nextToAck) <==> tx.nextToAck <= r.Hsn() + 1)
  {
  }

  /** Block 0 is gone and was never received exactly if the window has moved
      while the receiver lacks it; then it moved by one. */
  lemma BlockZeroGoneIff(run: seq<World>, n: nat, p: Endpoint, q: Endpoint)
    requires Moment(run, n, p, q) && p.tx.nextToSend > 0
    ensures 0 !in p.tx.live && !q.rx.Got(0) <==> p.tx.nextToAck > 0 && !q.rx.Got(0)
    ensures p.tx.nextToAck > 0 && !q.rx.Got(0) ==> p.tx.nextToAck == 1 && q.rx.next == 0
  {
    MomentDirection(run, n, p, q);
    WindowInStep(p, q);
  }

  /** The block at the lower edge of the window is still held, so iteration
      never starts at an empty slot. */
  lemma FrontIsLive(run: seq<World>, n: nat, p: Endpoint, q: Endpoint)
    requires Moment(run, n, p, q) && p.tx.nextToAck < p.tx.nextToSend
    ensures p.tx.nextToAck in p.tx.live
  {
    MomentDirection(run, n, p, q);
    WindowInStep(p, q);
  }

  /** The two windows stay in step: the sender is ahead of the receiver at most by
      having moved past block 0. A live block the receiver lacks is refused only
      then, and only if it is block 256. */
  lemma WindowAgreement(run: seq<World>, n: nat, p: Endpoint, q: Endpoint)
    requires Moment(run, n, p, q)
    ensures p.tx.nextToAck <= Max(1, q.rx.next)
    ensures q.rx.next <= p.tx.nextToSend <= p.tx.nextToAck + WINDOW
    ensures forall s: uint32 :: s in p.tx.live && !q.rx.Got(s) ==>
              (q.rx.Accepts(s) <==> !(q.rx.next == 0 && s == WINDOW))
    ensures WINDOW in p.tx.live && q.rx.next == 0 ==> p.tx.nextToAck == 1
  {
    MomentDirection(run, n, p, q);
    WindowInStep(p, q);
  }

  lemma WindowInStep(p: Endpoint, q: Endpoint)
    requires Direction(p, q)
    ensures InStep(p, q.rx)
  {
    if NothingAcked(p) {
      BeforeAcks(p, q.rx);
    } else {
      var m: nat :| m in q.ackFrom && ReportedBy(p, q.ackFrom[m]);
      assert AckOk(q, m, q.ackFrom[m]);
      AfterAck(p, q.ackFrom[m], q.rx);
    }
  }

  ghost predicate InStep(p: Endpoint, rx: Rx) {
    && p.tx.nextToAck <= Max(1, rx.next)
    && rx.next <= p.tx.nextToSend <= p.tx.nextToAck + WINDOW
    && (p.tx.nextToAck < p.tx.nextToSend ==> p.tx.nextToAck in p.tx.live)
    && (forall s :: 0 < s < p.tx.nextToSend ==> s in p.tx.live || rx.Got(s))
    && (0 < p.tx.nextToSend && p.tx.nextToAck == 0 ==> 0 in p.tx.live)
  }

  lemma BeforeAcks(p: Endpoint, rx: Rx)
    requires NothingAcked(p) && p.tx.Valid() && rx.next <= p.tx.nextToSend
    ensures InStep(p, rx)
  {
  }

  lemma AfterAck(p: Endpoint, r: Rx, rx: Rx)
    requires ReportedBy(p, r) && Below(r, rx) && p.tx.Valid() && rx.next <= p.tx.nextToSend
    ensures InStep(p, rx)
  {
    if p.tx.nextToAck < p.tx.nextToSend {
      assert !r.Got(p.tx.nextToAck);
    }
  }

  /** The block a drained receiver is waiting for is still held by the sender,
      unless it is block 0 and the window has moved, and its arrival moves the
      receiver on. */
  lemma MissingBlockAdvances(run: seq<World>, n: nat, p: Endpoint, q: Endpoint, linked: bool)
    requires Moment(run, n, p, q) && q.rx.next < p.tx.nextToSend && q.rx.next !in q.rx.held
    ensures q.rx.next in p.tx.live <==> q.rx.next > 0 || p.tx.nextToAck == 0
    ensures q.rx.next in p.tx.live ==>
              q.rx.next < SEQNO_LIMIT && q.tx.Valid() &&
              var s := q.rx.next;
              var arrived := RecvBlock(q, s, Block(p.tx.live[s].op, p.tx.live[s].data));
              Drain(arrived, false, linked).0.rx.next > s
  {
    MomentDirection(run, n, p, q);
    WindowInStep(p, q);
    var s := q.rx.next;
    if s in p.tx.live {
      var arrived := RecvBlock(q, s, Block(p.tx.live[s].op, p.tx.live[s].data));
      assert s in arrived.rx.held && arrived.rx.next == s;
      DrainHistory(arrived, false, linked);
    }
  }

  lemma ConsumeHistory(e: Endpoint, b: Block, wrong: bool, linked: bool)
    ensures var after := Consume(e, b, wrong, linked).0;
            after.rx == e.rx && after.fed == e.fed && (e.receivedFin ==> after.receivedFin)
  {
  }

  // Draining goes forward, and does so if the next block is there.
  lemma {:induction false} DrainHistory(e: Endpoint, wrong: bool, linked: bool)
    ensures var after := Drain(e, wrong, linked).0;
            after.rx.next >= e.rx.next && (e.rx.next in e.rx.held ==> after.rx.next > e.rx.next) &&
            after.fed == e.fed && (e.receivedFin ==> after.receivedFin)
    decreases |e.rx.held|
  {
    hide Consume;
    if e.rx.next in e.rx.held {
      RemoveShrinks(e.rx.held, e.rx.next);
      ConsumeHistory(e.(rx := e.rx.RemoveNext()), e.rx.held[e.rx.next], wrong, linked);
      var (after, bad) := Consume(e.(rx := e.rx.RemoveNext()), e.rx.held[e.rx.next], wrong, linked);
      DrainHistory(after, bad, linked);
    }
  }

  /** No two blocks ever put on a wire share number and retransmit count: the
      encrypted header is a fresh nonce every time. */
  lemma NoncesNeverRepeat(run: seq<World>, n: nat)
    requires IsRun(run) && n < |run|
    ensures NoncesDistinct(run[n].a.wire) && NoncesDistinct(run[n].b.wire)
  {
    RunInv(run, n);
  }

  function End(w: World, first: bool): Endpoint {
    if first then w.a else w.b
  }

  /** The first FIN is final: once upstream was told, nothing more is ever
      delivered in that direction. */
  lemma {:induction false} FinIsFinal(run: seq<World>, m: nat, n: nat, first: bool)
    requires IsRun(run) && m <= n < |run| && End(run[m], first).receivedFin
    ensures End(run[n], first).receivedFin && End(run[n], first).upOut == End(run[m], first).upOut
    decreases n
  {
    hide End, IsRun;
    if m < n {
      FinIsFinal(run, m, n - 1, first);
      FinStepAt(run, n - 1, first);
    }
  }

  lemma FinStepAt(run: seq<World>, n: nat, first: bool)
    requires IsRun(run) && n + 1 < |run| && End(run[n], first).receivedFin
    ensures End(run[n + 1], first).receivedFin && End(run[n + 1], first).upOut == End(run[n], first).upOut
  {
    RunInv(run, n);
    FinStep(run[n], run[n + 1], first);
  }

  lemma FinStep(w: World, v: World, first: bool)
    requires Inv(w) && Next(w, v) && End(w, first).receivedFin
    ensures End(v, first).receivedFin && End(v, first).upOut == End(w, first).upOut
  {
    NextKeeps(w, v);
    FinStepStays(w, v, first);
    CompleteAtEof(End(w, !first), End(w, first));
    CompleteAtEof(End(v, !first), End(v, first));
    FedStays(w, v, !first);
  }

  lemma FinStepStays(w: World, v: World, first: bool)
    requires Next(w, v) && End(w, first).receivedFin
    ensures End(v, first).receivedFin
  {
    if ev :| Step(w.a, v.a, w.b, ev) && v.b == w.b {
      if first {
        FinStays(w.a, v.a, w.b, ev);
      }
    } else {
      var ev :| Step(w.b, v.b, w.a, ev) && v.a == w.a;
      if !first {
        FinStays(w.b, v.b, w.a, ev);
      }
    }
  }

  // Upstream supplies nothing after its end.
  lemma FedStays(w: World, v: World, first: bool)
    requires Next(w, v) && End(w, first).upEof
    ensures End(v, first).fed == End(w, first).fed
  {
    if ev :| Step(w.a, v.a, w.b, ev) && v.b == w.b {
      if first {
        FedStep(w.a, v.a, w.b, ev);
      }
    } else {
      var ev :| Step(w.b, v.b, w.a, ev) && v.a == w.a;
      if !first {
        FedStep(w.b, v.b, w.a, ev);
      }
    }
  }

  lemma FedStep(me: Endpoint, after: Endpoint, peer: Endpoint, ev: Event)
    requires Step(me, after, peer, ev) && me.upEof
    ensures after.fed == me.fed
  {
    hide Drain, MaybeSendAck, Consume;
    if ev.Process? {
      ProcessHistory(me, after, peer, ev.linked);
    }
  }

  lemma ProcessHistory(me: Endpoint, after: Endpoint, peer: Endpoint, linked: bool)
    requires Step(me, after, peer, Process(linked))
    ensures after.fed == me.fed && (me.receivedFin ==> after.receivedFin)
  {
    hide Drain, MaybeSendAck;
    ProcessCases(me, after, peer, linked);
    DrainHistory(me, false, linked);
    var (drained, bad) := Drain(me, false, linked);
    if !bad {
      AckHistory(drained, after, linked);
    }
  }

  lemma AckHistory(e: Endpoint, after: Endpoint, linked: bool)
    requires e.rx.Valid() && MaybeSendAck(e, linked) == Some(after)
    ensures after.fed == e.fed && after.receivedFin == e.receivedFin && after.rx == e.rx && after.upOut == e.upOut
  {
    hide Rx.GenAck, AckDue;
  }

  lemma FinStays(me: Endpoint, after: Endpoint, peer: Endpoint, ev: Event)
    requires Step(me, after, peer, ev) && me.receivedFin
    ensures after.receivedFin
  {
    hide Drain, MaybeSendAck, Consume;
    if ev.Process? {
      ProcessHistory(me, after, peer, ev.linked);
    }
  }
}
