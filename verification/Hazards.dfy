/** Runs of the protocol that show where a stronger property fails. */
module Hazards {
  import opened Words
  import opened Framing
  import opened AckPayloads
  import opened TransmitQueues
  import opened ReassemblyQueues
  import opened Circuits
  import opened Protocol
  import opened Progress

  // An end to which upstream supplies one byte.
  function Given(e: Endpoint): Endpoint {
    e.(upIn := e.upIn + [7], fed := e.fed + [7])
  }

  // An idle end to which upstream supplies one byte, sent at once in a block of its own.
  function OneByte(e: Endpoint, accepted: bool): Endpoint {
    Note(Enqueue(e.(fed := e.fed + [7], taken := e.taken + [7]), OP_DAT, [7], accepted), 1, OP_DAT, accepted)
  }

  lemma OneByteSent(e: Endpoint, accepted: bool)
    requires !e.tx.Full() && e.upIn == [] && !e.upEof
    ensures SendTargeted(Given(e), 1, accepted) == Done(OneByte(e, accepted))
  {
    assert Given(e).upIn[1..] == [] == e.upIn && Given(e).upIn[..1] == [7];
  }

  lemma OneByteA(w: World, accepted: bool)
    requires Reachable(w) && !w.a.tx.Full() && w.a.tx.nextToSend < SEQNO_LIMIT && w.a.upIn == [] && !w.a.upEof
    ensures Reachable(World(OneByte(w.a, accepted), w.b))
  {
    hide Reachable, OneByte, SendTargeted;
    OneByteSent(w.a, accepted);
    StepA(w, Given(w.a), Feed([7]));
    StepA(World(Given(w.a), w.b), OneByte(w.a, accepted), Send(1, accepted));
  }

  lemma OneByteB(w: World, accepted: bool)
    requires Reachable(w) && !w.b.tx.Full() && w.b.tx.nextToSend < SEQNO_LIMIT && w.b.upIn == [] && !w.b.upEof
    ensures Reachable(World(w.a, OneByte(w.b, accepted)))
  {
    hide Reachable, OneByte, SendTargeted;
    OneByteSent(w.b, accepted);
    StepB(w, Given(w.b), Feed([7]));
    StepB(World(w.a, Given(w.b)), OneByte(w.b, accepted), Send(1, accepted));
  }

  const BYTE := Block(OP_DAT, [7])

  // ----- An acknowledgment before anything was processed -----

  // Three blocks queued; connections took only the last two.
  lemma ThreeSent() returns (a: Endpoint)
    ensures Reachable(World(a, FRESH))
    ensures a == FRESH.(tx := a.tx, sent := [BYTE, BYTE, BYTE], fed := [7, 7, 7], taken := [7, 7, 7],
                        wire := [Packet(1, OP_DAT, [7], 0), Packet(2, OP_DAT, [7], 0)])
    ensures a.tx == Tx(0, 3, map[0 := Pending(OP_DAT, [7], 0), 1 := Pending(OP_DAT, [7], 0), 2 := Pending(OP_DAT, [7], 0)])
  {
    hide Reachable;
    FreshReachable();
    OneByteA(World(FRESH, FRESH), false);
    var one := OneByte(FRESH, false);
    OneByteA(World(one, FRESH), true);
    var two := OneByte(one, true);
    OneByteA(World(two, FRESH), true);
    a := OneByte(two, true);
  }

  lemma FreshReachable()
    ensures Reachable(World(FRESH, FRESH))
  {
    StayPut(World(FRESH, FRESH));
  }

  // The receiver after an idle round, holding one block.
  lemma Holding(a: Endpoint, s: uint32, i: nat) returns (b: Endpoint)
    requires Reachable(World(a, FRESH)) && i < |a.wire| && a.wire[i] == Packet(s, OP_DAT, [7], 0) && s < WINDOW
    ensures Reachable(World(a, b)) && b == FRESH.(deadCycles := 1, rx := Rx(0, map[s as nat := BYTE]))
  {
    hide Reachable;
    var idle := FRESH.(deadCycles := 1);
    StepB(World(a, FRESH), idle, Idle);
    b := FRESH.(deadCycles := 1, rx := Rx(0, map[s as nat := BYTE]));
    assert idle.rx.Insert(s, BYTE).held == b.rx.held;
    assert RecvBlock(idle, s, BYTE) == b;
    StepB(World(a, idle), b, Arrive(i));
  }

  // A drained receiver in a dead cycle acknowledges what it holds.
  lemma Acknowledges(a: Endpoint, b: Endpoint) returns (after: Endpoint)
    requires Reachable(World(a, b)) && b.deadCycles > 0 && b.rx.held != map[] && b.rx.next !in b.rx.held
    requires b.rx.Valid() && b.rx.GenAck().Some? && !b.tx.Full() && b.tx.nextToSend < SEQNO_LIMIT
    ensures Reachable(World(a, after))
    ensures after == AckWith(b, b.rx.GenAck().value, true)
  {
    hide Reachable, Rx.GenAck;
    assert Drain(b, false, true) == (b, false);
    after := AckWith(b, b.rx.GenAck().value, true);
    StepB(World(a, b), after, Process(true));
  }

  /** Block 0, which no connection took, is discarded on an early acknowledgment:
      nobody can ever deliver it. */
  lemma EarlyAckLosesBlock()
    ensures exists w :: Reachable(w) && ZeroLost(w.a, w.b)
  {
    hide Reachable, Rx.GenAck, Tx.ProcessAck;
    var a := ThreeSent();
    var b := Holding(a, 2, 1);
    EarlyAckClaimsZero(BYTE);
    assert 2 in b.rx.held;
    var c := Acknowledges(a, b);
    var payload := b.rx.GenAck().value;
    assert c.wire == [Packet(0, OP_ACK, payload, 0)];
    assert a.tx.Valid();
    AckEffect(a.tx, b.rx);
    var after := RecvBlock(a, 0, Block(OP_ACK, payload));
    StepA(World(a, c), after, Arrive(0));
    assert ZeroLost(after, c);
  }

  // ----- A refused FIN -----

  /** A connection that refuses the FIN makes the sender send a second one, and
      the honest peer reports a protocol error. */
  lemma RefusedFinFails()
    ensures exists w :: Reachable(w) && w.b.failed
  {
    hide Reachable;
    FreshReachable();
    var a := FRESH.(upEof := true);
    StepA(World(FRESH, FRESH), a, Eof);
    var once := SendTargeted(a, 0, false).next;
    StepA(World(a, FRESH), once, Send(0, false));
    var twice := SendTargeted(once, 0, true).next;
    StepA(World(once, FRESH), twice, Send(0, true));
    assert 0 in twice.tx.live && twice.tx.live[0] == Pending(OP_FIN, [], 0);
    var both := Resend(twice, 0);
    StepA(World(twice, FRESH), both, Again(0));
    assert both.wire == [Packet(1, OP_FIN, [], 0), Packet(0, OP_FIN, [], 1)];
    BothArrive(both);
  }

  lemma BothArrive(a: Endpoint)
    requires Reachable(World(a, FRESH)) && a.wire == [Packet(1, OP_FIN, [], 0), Packet(0, OP_FIN, [], 1)]
    ensures exists w :: Reachable(w) && w.b.failed
  {
    hide Reachable;
    var late := RecvBlock(FRESH, 1, Block(OP_FIN, []));
    StepB(World(a, FRESH), late, Arrive(0));
    var full := RecvBlock(late, 0, Block(OP_FIN, []));
    StepB(World(a, late), full, Arrive(1));
    DrainTwoFins(full);
    var b := Drain(full, false, true).0.(failed := true);
    StepB(World(a, full), b, Process(true));
    assert Reachable(World(a, b));
  }

  lemma DrainTwoFins(e: Endpoint)
    requires e.rx.next == 0 && !e.receivedFin && e.rx.held == map[1 := Block(OP_FIN, []), 0 := Block(OP_FIN, [])]
    ensures Drain(e, false, true).1 && Drain(e, false, true).0.rx == Rx(2, map[])
  {
    var (one, ok) := Consume(e.(rx := e.rx.RemoveNext()), Block(OP_FIN, []), false, true);
    assert one.rx == Rx(1, map[1 := Block(OP_FIN, [])]) && one.receivedFin && !ok;
    var (two, bad) := Consume(one.(rx := one.rx.RemoveNext()), Block(OP_FIN, []), false, true);
    assert two.rx == Rx(2, map[]) && bad;
    assert Drain(two, true, true) == (two, true);
    assert Drain(one, false, true) == (two, true);
  }

  // ----- Both windows full -----

  // An end that has sent n blocks of one byte and nothing else.
  ghost predicate Pumped(e: Endpoint, n: nat) {
    && e.tx.nextToAck == 0 && e.tx.nextToSend == n && e.ackFrom == map[] && e.upIn == [] && !e.upEof
    && |e.wire| == n && forall i :: 0 <= i < n ==> e.wire[i] == Packet(i, OP_DAT, [7], 0)
  }

  lemma PumpOne(e: Endpoint, n: nat)
    requires Pumped(e, n)
    ensures Pumped(OneByte(e, true), n + 1)
  {
  }

  lemma {:induction false} PumpA(w: World, n: nat) returns (v: World)
    requires Reachable(w) && n <= WINDOW && Pumped(w.a, n)
    ensures Reachable(v) && v.b == w.b && Pumped(v.a, WINDOW)
    decreases WINDOW - n
  {
    hide Reachable;
    v := w;
    if n < WINDOW {
      PumpOne(w.a, n);
      hide OneByte;
      OneByteA(w, true);
      v := PumpA(World(OneByte(w.a, true), w.b), n + 1);
    }
  }

  lemma {:induction false} PumpB(w: World, n: nat) returns (v: World)
    requires Reachable(w) && n <= WINDOW && Pumped(w.b, n)
    ensures Reachable(v) && v.a == w.a && Pumped(v.b, WINDOW)
    decreases WINDOW - n
  {
    hide Reachable;
    v := w;
    if n < WINDOW {
      PumpOne(w.b, n);
      hide OneByte;
      OneByteB(w, true);
      v := PumpB(World(w.a, OneByte(w.b, true)), n + 1);
    }
  }

  /** A deadlocked state is reachable, with upstream bytes waiting at both ends:
      both fill their windows byte by byte, each byte sent as it comes, before
      anything arrives, and upstream goes on. */
  lemma DeadlockReachable()
    ensures exists w :: Reachable(w) && Deadlocked(w) && w.a.upIn != [] && w.b.upIn != []
  {
    hide Reachable;
    FreshReachable();
    var half := PumpA(World(FRESH, FRESH), 0);
    var w := PumpB(half, 0);
    var stuck := BytesWait(w);
    FullIsStuck(stuck);
    assert Reachable(stuck) && Deadlocked(stuck) && stuck.a.upIn != [] && stuck.b.upIn != [];
  }

  lemma BytesWait(w: World) returns (v: World)
    requires Reachable(w) && !w.a.upEof && !w.b.upEof
    ensures Reachable(v) && v == World(Given(w.a), Given(w.b))
  {
    hide Reachable;
    v := World(Given(w.a), Given(w.b));
    StepA(w, Given(w.a), Feed([7]));
    StepB(World(Given(w.a), w.b), Given(w.b), Feed([7]));
  }

  lemma FullIsStuck(w: World)
    requires Reachable(w)
    requires w.a.tx.nextToAck == w.b.tx.nextToAck == 0 && w.a.tx.nextToSend == w.b.tx.nextToSend == WINDOW
    requires w.a.ackFrom == w.b.ackFrom == map[]
    ensures Deadlocked(w)
  {
    hide Reachable, Own, Flow;
    ReachableInv(w);
  }

  // ----- An acknowledgment that cannot be generated -----

  // The receiver drains block 0, keeps block 2 and, after an idle round, says so.
  lemma FirstProcessed(a: Endpoint) returns (b: Endpoint)
    requires Reachable(World(a, FRESH)) && Pumped(a, WINDOW)
    ensures Reachable(World(a, b)) && b.rx == Rx(1, map[2 := BYTE]) && b.deadCycles == 1 && b.tx.Valid()
    ensures b.rx.GenAck().Some? && b.wire == [Packet(0, OP_ACK, b.rx.GenAck().value, 0)]
  {
    hide Reachable, Rx.GenAck;
    var one := Holding(a, 2, 2);
    var two := one.(rx := Rx(0, map[2 := BYTE, 0 := BYTE]));
    assert one.rx.Insert(0, BYTE).held == two.rx.held;
    assert RecvBlock(one, 0, BYTE) == two;
    StepB(World(a, one), two, Arrive(0));
    var drained := DrainsOne(two);
    NothingWraps();
    StepB(World(a, two), drained, Process(true));
    var idle := drained.(deadCycles := 1);
    StepB(World(a, drained), idle, Idle);
    assert 2 in idle.rx.held;
    b := Acknowledges(a, idle);
  }

  lemma DrainsOne(e: Endpoint) returns (after: Endpoint)
    requires e.rx == Rx(0, map[2 := BYTE, 0 := BYTE]) && e.lastAcked == 0 && !e.receivedFin
    ensures after == e.(rx := Rx(1, map[2 := BYTE]), upOut := e.upOut + [7], deadCycles := 0)
    ensures Drain(e, false, true) == (after, false) && after.rx.Valid() && ProcessQueue(e, true) == Some(after)
  {
    after := e.(rx := Rx(1, map[2 := BYTE]), upOut := e.upOut + [7], deadCycles := 0);
    assert e.rx.RemoveNext().held == after.rx.held;
    assert Consume(e.(rx := e.rx.RemoveNext()), BYTE, false, true) == (after, false);
    assert Drain(after, false, true) == (after, false);
  }

  lemma NothingWraps()
    ensures Rx(1, map[2 := BYTE]).Valid() && Rx(1, map[2 := BYTE]).GenAck().Some?
    ensures Acceptable(Rx(1, map[2 := BYTE])) && Rx(1, map[2 := BYTE]).Hsn() == 0
  {
  }

  lemma WindowValid(w: World)
    requires Reachable(w)
    ensures w.a.tx.Valid()
  {
    hide Reachable, Flow;
    ReachableInv(w);
  }

  // The acknowledgment opens a's window.
  lemma WindowOpens(a: Endpoint, b: Endpoint) returns (moved: Endpoint)
    requires Reachable(World(a, b)) && Pumped(a, WINDOW) && b.rx == Rx(1, map[2 := BYTE])
    requires b.rx.GenAck().Some? && b.wire == [Packet(0, OP_ACK, b.rx.GenAck().value, 0)]
    ensures Reachable(World(moved, b)) && moved == a.(tx := moved.tx, rx := moved.rx)
    ensures !moved.tx.Full() && moved.tx.nextToSend == WINDOW
  {
    hide Reachable, Rx.GenAck, Tx.ProcessAck;
    var payload := b.rx.GenAck().value;
    WindowValid(World(a, b));
    NothingWraps();
    AckEffect(a.tx, b.rx);
    moved := RecvBlock(a, 0, Block(OP_ACK, payload));
    StepA(World(a, b), moved, Arrive(0));
  }

  /** A drained receiver can be made to hold a block whose slot is below its front
      slot; the acknowledgment that is due then ends the program. */
  lemma AbortReachable()
    ensures exists w :: Reachable(w) && w.b.rx.Valid() && w.b.rx.next !in w.b.rx.held && ProcessQueue(w.b, true) == None
  {
    hide Reachable, Rx.GenAck;
    FreshReachable();
    var half := PumpA(World(FRESH, FRESH), 0);
    var b := FirstProcessed(half.a);
    var moved := WindowOpens(half.a, b);
    OneByteA(World(moved, b), true);
    var more := OneByte(moved, true);
    assert more.wire[WINDOW] == Packet(WINDOW, OP_DAT, [7], 0);
    var full := ReceivesFar(more, b);
    CannotReport(full);
    assert Reachable(World(more, full));
  }

  // The receiver, still waiting for block 1, takes block 256.
  lemma ReceivesFar(a: Endpoint, b: Endpoint) returns (full: Endpoint)
    requires Reachable(World(a, b)) && |a.wire| > WINDOW && a.wire[WINDOW] == Packet(WINDOW, OP_DAT, [7], 0)
    requires b.rx == Rx(1, map[2 := BYTE]) && b.tx.Valid()
    ensures full == b.(rx := Rx(1, map[2 := BYTE, 256 := BYTE])) && Reachable(World(a, full))
  {
    hide Reachable;
    full := b.(rx := Rx(1, map[2 := BYTE, 256 := BYTE]));
    assert b.rx.Insert(WINDOW, BYTE).held == full.rx.held;
    StepB(World(a, b), full, Arrive(WINDOW));
  }

  lemma CannotReport(e: Endpoint)
    requires e.rx == Rx(1, map[2 := BYTE, 256 := BYTE]) && e.deadCycles > 0
    ensures e.rx.Valid() && e.rx.next !in e.rx.held && ProcessQueue(e, true) == None
  {
    assert Drain(e, false, true) == (e, false);
    assert 256 in e.rx.held && 256 / WINDOW > 1 / WINDOW;
  }
}
