/** One end of a circuit: cutting the upstream bytes into blocks, receiving
    blocks, draining the reassembly queue upstream and acknowledging. */
module Circuits {
  import opened Words
  import opened Framing
  import opened TransmitQueues
  import opened ReassemblyQueues

  // A block as it went onto some connection.
  datatype Packet = Packet(s: nat, op: byte, data: seq<byte>, rcount: byte)

  /** The state of one end. The last six fields are history: the blocks by
      sequence number, everything handed to a connection, the queue each
      acknowledgment was generated from, the bytes upstream supplied, the bytes
      the send path took, and whether a connection ever refused a FIN. */
  datatype Endpoint = Endpoint(
    tx: Tx,
    rx: Rx,
    upIn: seq<byte>,
    upEof: bool,
    sentFin: bool,
    upOut: seq<byte>,
    receivedFin: bool,
    lastAcked: nat,
    deadCycles: nat,
    failed: bool,
    sent: seq<Block>,
    wire: seq<Packet>,
    ackFrom: map<nat, Rx>,
    fed: seq<byte>,
    taken: seq<byte>,
    refusedFin: bool)

  const FRESH := Endpoint(Tx(0, 0, map[]), Rx(0, map[]), [], false, false, [], false, 0, 0, false, [], [], map[], [], [], false)

  // ----- Sending -----

  predicate CarriesData(op: byte) {
    op == OP_DAT || op == OP_FIN
  }

  function Enqueue(e: Endpoint, op: byte, data: seq<byte>, linked: bool): Endpoint {
    e.(tx := e.tx.Enqueue(op, data),
       sent := e.sent + [Block(op, data)],
       wire := if linked then e.wire + [Packet(e.tx.nextToSend, op, data, 0)] else e.wire)
  }

  // How much of the data goes into a block with this much room, and with
  // which opcode.
  function Segment(avail: nat, room: nat, finDue: bool): (r: (nat, byte))
    ensures r.0 <= room && r.0 <= avail
  {
    if avail > room || avail > SECTION_LEN then (Min(room, SECTION_LEN), OP_DAT)
    else (avail, if finDue then OP_FIN else OP_DAT)
  }

  datatype SendResult = Aborted | Full | Done(next: Endpoint)

  // send_targeted, given the room beyond headers and handshake. If the
  // connection then refuses the block, it stays queued but a FIN is not noted.
  function SendTargeted(e: Endpoint, room: nat, accepted: bool): SendResult {
    var (d, op) := Segment(|e.upIn|, room, e.upEof && !e.sentFin);
    if room - d > SECTION_LEN then Aborted
    else if e.tx.Full() then Full
    else
      var drained := e.(upIn := e.upIn[d..], taken := e.taken + e.upIn[..d]);
      Done(Note(Enqueue(drained, op, e.upIn[..d], accepted), d, op, accepted))
  }

  // Bookkeeping once the block is queued and offered to the connection.
  function Note(e: Endpoint, d: nat, op: byte, accepted: bool): Endpoint {
    if !accepted then e.(refusedFin := e.refusedFin || op == OP_FIN)
    else e.(sentFin := e.sentFin || op == OP_FIN,
            deadCycles := if d > 0 || op == OP_FIN then 0 else e.deadCycles)
  }

  // What a send that queues a block does, field by field: it takes as many of the waiting
  // bytes as fit, and FIN goes with the last of them once upstream is done.
  ghost predicate TakesWhatFits(e: Endpoint, after: Endpoint, room: nat, accepted: bool) {
    var d := Min(|e.upIn|, Min(room, SECTION_LEN));
    var fin := e.upEof && !e.sentFin && d == |e.upIn|;
    var b := Block(if fin then OP_FIN else OP_DAT, e.upIn[..d]);
    after == e.(upIn := e.upIn[d..], taken := e.taken + e.upIn[..d], sent := e.sent + [b],
                tx := Tx(e.tx.nextToAck, e.tx.nextToSend + 1, e.tx.live[e.tx.nextToSend := Pending(b.op, b.data, 0)]),
                wire := if accepted then e.wire + [Packet(e.tx.nextToSend, b.op, b.data, 0)] else e.wire,
                sentFin := e.sentFin || (fin && accepted),
                refusedFin := e.refusedFin || (fin && !accepted),
                deadCycles := if accepted && (d > 0 || fin) then 0 else e.deadCycles)
  }

  /** A send takes what fits, and fails only if the padding would not fit its field or
      the window is full. */
  lemma SendTakes(e: Endpoint, room: nat, accepted: bool)
    ensures var short := room <= Min(|e.upIn|, Min(room, SECTION_LEN)) + SECTION_LEN;
            var open := e.tx.nextToSend - e.tx.nextToAck < WINDOW;
            match SendTargeted(e, room, accepted)
            case Aborted => !short
            case Full => short && !open
            case Done(after) => short && open && TakesWhatFits(e, after, room, accepted)
  {
  }

  // send_special with a full window changes nothing.
  function SendSpecial(e: Endpoint, op: byte, payload: seq<byte>, linked: bool): Endpoint {
    if e.tx.Full() then e else Enqueue(e, op, payload, linked)
  }

  function Resend(e: Endpoint, s: nat): Endpoint
    requires s in e.tx.live && e.tx.live[s].rcount < 255
  {
    var tx := e.tx.Retransmit(s);
    e.(tx := tx, wire := e.wire + [Packet(s, tx.live[s].op, tx.live[s].data, tx.live[s].rcount)])
  }

  // ----- Receiving -----

  predicate Queueable(op: byte) {
    op == OP_DAT || op == OP_FIN || op == OP_STEG0 || op == OP_STEG_FIN
  }

  // What fills the block's place in the reassembly queue.
  function Filling(b: Block): Block {
    if Queueable(b.op) then b else Block(OP_DAT, [])
  }

  ghost function RecvBlock(e: Endpoint, s: uint32, b: Block): Endpoint
    requires e.tx.Valid()
  {
    e.(tx := if b.op == OP_ACK then e.tx.ProcessAck(b.data) else e.tx,
       rx := e.rx.Insert(s, Filling(b)))
  }

  ghost predicate AllQueueable(rx: Rx) {
    forall s :: s in rx.held ==> Queueable(rx.held[s].op)
  }

  // One block taken off the queue. The flag says a protocol error was seen.
  function Consume(e: Endpoint, b: Block, wrong: bool, linked: bool): (Endpoint, bool) {
    if b.op == OP_FIN || b.op == OP_STEG_FIN then
      if e.receivedFin then (e, true)
      else if b.op == OP_FIN then (Deliver(e, b.data).(receivedFin := true), wrong)
      else (e.(receivedFin := true), wrong)
    else if b.op == OP_DAT && b.data != [] then
      if e.receivedFin then (if wrong then e else SendSpecial(e, OP_RST, [], linked), true)
      else (Deliver(e, b.data), wrong)
    else (e, wrong)
  }

  function Deliver(e: Endpoint, data: seq<byte>): Endpoint {
    e.(upOut := e.upOut + data, deadCycles := if data == [] then e.deadCycles else 0)
  }

  function Drain(e: Endpoint, wrong: bool, linked: bool): (Endpoint, bool)
    decreases |e.rx.held|
  {
    if e.rx.next !in e.rx.held then (e, wrong) else
    var (after, bad) := Consume(e.(rx := e.rx.RemoveNext()), e.rx.held[e.rx.next], wrong, linked);
    ConsumeKeepsRx(e.(rx := e.rx.RemoveNext()), e.rx.held[e.rx.next], wrong, linked);
    RemoveShrinks(e.rx.held, e.rx.next);
    Drain(after, bad, linked)
  }

  lemma ConsumeKeepsRx(e: Endpoint, b: Block, wrong: bool, linked: bool)
    ensures Consume(e, b, wrong, linked).0.rx == e.rx
  {
  }

  lemma RemoveShrinks(held: map<nat, Block>, s: nat)
    requires s in held
    ensures |held - {s}| < |held|
  {
    assert held.Keys == (held - {s}).Keys + {s};
  }

  // One round of draining.
  lemma DrainUnfolds(e: Endpoint, wrong: bool, linked: bool)
    requires e.rx.next in e.rx.held
    ensures var (after, bad) := Consume(e.(rx := e.rx.RemoveNext()), e.rx.held[e.rx.next], wrong, linked);
            Drain(e, wrong, linked) == Drain(after, bad, linked) && |after.rx.held| < |e.rx.held|
  {
    ConsumeKeepsRx(e.(rx := e.rx.RemoveNext()), e.rx.held[e.rx.next], wrong, linked);
    RemoveShrinks(e.rx.held, e.rx.next);
  }

  predicate AckDue(e: Endpoint) {
    Wrap32(e.rx.next - e.lastAcked) >= 32 || (e.deadCycles > 0 && e.rx.held != map[])
  }

  // None where generating the acknowledgment gives up with log_abort.
  ghost function AckNow(e: Endpoint, linked: bool): Option<Endpoint>
    requires e.rx.Valid()
  {
    match e.rx.GenAck()
    case None => None
    case Some(payload) => Some(AckWith(e, payload, linked))
  }

  function AckWith(e: Endpoint, payload: seq<byte>, linked: bool): Endpoint {
    var noted := e.(lastAcked := e.rx.next,
                    ackFrom := if e.tx.Full() then e.ackFrom else e.ackFrom[e.tx.nextToSend := e.rx]);
    SendSpecial(noted, OP_ACK, payload, linked)
  }

  ghost function MaybeSendAck(e: Endpoint, linked: bool): Option<Endpoint>
    requires e.rx.Valid()
  {
    if AckDue(e) then AckNow(e, linked) else Some(e)
  }

  ghost function ProcessQueue(e: Endpoint, linked: bool): Option<Endpoint>
    requires Drain(e, false, linked).0.rx.Valid()
  {
    var (after, bad) := Drain(e, false, linked);
    if bad then Some(after.(failed := true)) else MaybeSendAck(after, linked)
  }
}
