/** Two circuit objects, one at each end. Whatever their methods do, the pair stays in
    a reachable state of the step system, so what holds of every run holds of them. */
module Execution {
  import opened Words
  import opened Framing
  import opened TransmitQueues
  import opened ReassemblyQueues
  import opened CircuitObjects
  import C = Circuits
  import opened Protocol
  import opened Progress

  ghost function Footprint(c: Circuit): set<object> {
    {c, c.tx, c.tx.cbuf, c.rx, c.rx.cbuf}
  }

  ghost predicate Linked(me: Circuit, peer: Circuit)
    reads Footprint(me), Footprint(peer)
  {
    && Footprint(me) !! Footprint(peer)
    && me.Valid() && peer.Valid()
    && Reachable(World(me.Abs(), peer.Abs()))
  }

  method Establish() returns (a: Circuit, b: Circuit)
    ensures fresh(Footprint(a)) && fresh(Footprint(b)) && Linked(a, b)
  {
    a := new Circuit();
    b := new Circuit();
    StayPut(World(C.FRESH, C.FRESH));
  }

  // Which end is named first does not matter.
  function Mirror(path: seq<World>): seq<World> {
    seq(|path|, i requires 0 <= i < |path| => World(path[i].b, path[i].a))
  }

  lemma Mirrored(w: World)
    requires Reachable(w)
    ensures Reachable(World(w.b, w.a))
  {
    var path: seq<World> :| IsPath(path) && path[0] == World(C.FRESH, C.FRESH) && path[|path| - 1] == w;
    var mirror := Mirror(path);
    forall i | 0 <= i < |mirror| - 1
      ensures Next(mirror[i], mirror[i + 1])
    {
      assert Next(path[i], path[i + 1]);
    }
    assert IsPath(mirror) && mirror[0] == World(C.FRESH, C.FRESH) && mirror[|mirror| - 1] == World(w.b, w.a);
  }

  lemma LinkedEitherWay(a: Circuit, b: Circuit)
    requires Linked(a, b)
    ensures Linked(b, a)
  {
    Mirrored(World(a.Abs(), b.Abs()));
  }

  /** So the pair is at a moment of some run, and all that holds there holds of it:
      what either end has handed upstream is a prefix of what the other took. */
  lemma LinkedDelivers(a: Circuit, b: Circuit)
    requires Linked(a, b)
    ensures exists run, n :: Moment(run, n, a.Abs(), b.Abs())
    ensures a.upOut <= b.taken && b.upOut <= a.taken
  {
    hide Circuit.Valid;
    var w := World(a.Abs(), b.Abs());
    var run: seq<World> :| IsPath(run) && run[0] == World(C.FRESH, C.FRESH) && run[|run| - 1] == w;
    assert IsRun(run);
    assert Moment(run, |run| - 1, a.Abs(), b.Abs()) && Moment(run, |run| - 1, b.Abs(), a.Abs());
    DeliveredPrefix(run, |run| - 1, a.Abs(), b.Abs());
    DeliveredPrefix(run, |run| - 1, b.Abs(), a.Abs());
  }

  method Supply(me: Circuit, peer: Circuit, bytes: seq<byte>)
    requires Linked(me, peer) && !me.upEof
    modifies me`upIn, me`fed
    ensures Linked(me, peer) && peer.Abs() == old(peer.Abs())
    ensures me.Abs() == old(me.Abs()).(upIn := old(me.upIn) + bytes, fed := old(me.fed) + bytes)
  {
    hide Reachable, TransmitQueue.Valid, ReassemblyQueue.Valid, TransmitQueue.Abs, ReassemblyQueue.Abs;
    ghost var e := me.Abs();
    me.upIn := me.upIn + bytes;
    me.fed := me.fed + bytes;
    StepA(World(e, peer.Abs()), me.Abs(), Feed(bytes));
  }

  method Finish(me: Circuit, peer: Circuit)
    requires Linked(me, peer)
    modifies me`upEof
    ensures Linked(me, peer) && peer.Abs() == old(peer.Abs()) && me.Abs() == old(me.Abs()).(upEof := true)
  {
    hide Reachable, TransmitQueue.Valid, ReassemblyQueue.Valid, TransmitQueue.Abs, ReassemblyQueue.Abs;
    ghost var e := me.Abs();
    me.upEof := true;
    StepA(World(e, peer.Abs()), me.Abs(), Eof);
  }

  method DeadCycle(me: Circuit, peer: Circuit)
    requires Linked(me, peer)
    modifies me`deadCycles
    ensures Linked(me, peer) && peer.Abs() == old(peer.Abs())
    ensures me.Abs() == old(me.Abs()).(deadCycles := old(me.deadCycles) + 1)
  {
    hide Reachable, TransmitQueue.Valid, ReassemblyQueue.Valid, TransmitQueue.Abs, ReassemblyQueue.Abs;
    ghost var e := me.Abs();
    me.deadCycles := me.deadCycles + 1;
    StepA(World(e, peer.Abs()), me.Abs(), Idle);
  }

  method Send(me: Circuit, peer: Circuit, room: nat, accepted: bool) returns (rc: Outcome)
    requires Linked(me, peer) && me.tx.nextToSend < SEQNO_LIMIT
    requires room <= 2 * SECTION_LEN && (me.upIn != [] ==> room > 0)
    modifies Footprint(me)
    ensures Linked(me, peer) && peer.Abs() == old(peer.Abs())
    ensures me.Abs() == old(me.Abs()) || Step(old(me.Abs()), me.Abs(), peer.Abs(), Event.Send(room, accepted))
  {
    hide Reachable, TransmitQueue.Valid, ReassemblyQueue.Valid, TransmitQueue.Abs, ReassemblyQueue.Abs;
    hide C.SendTargeted;
    ghost var e := me.Abs();
    rc := me.SendTargeted(room, accepted);
    if C.SendTargeted(e, room, accepted).Done? {
      StepA(World(e, peer.Abs()), me.Abs(), Event.Send(room, accepted));
    }
  }

  // The front of the window is always live, so iteration may start there.
  lemma FrontLive(w: World)
    requires Reachable(w) && w.a.tx.nextToAck < w.a.tx.nextToSend
    ensures w.a.tx.nextToAck in w.a.tx.live
  {
    hide Reachable;
    ReachableInv(w);
    WindowInStep(w.a, w.b);
  }

  method Retransmit(me: Circuit, peer: Circuit, spareFor: nat -> Option<nat>, c: Cipher)
      returns (rc: Outcome, block: seq<byte>)
    requires Linked(me, peer)
    modifies Footprint(me)
    ensures Linked(me, peer) && peer.Abs() == old(peer.Abs())
    ensures me.Abs() == old(me.Abs()) || exists s :: Step(old(me.Abs()), me.Abs(), peer.Abs(), Again(s))
  {
    hide Reachable, TransmitQueue.Valid, ReassemblyQueue.Valid, TransmitQueue.Abs, ReassemblyQueue.Abs;
    ghost var e := me.Abs();
    if me.tx.nextToAck < me.tx.nextToSend {
      FrontLive(World(e, peer.Abs()));
    }
    var seqno;
    rc, seqno, block := me.RetransmitFirst(spareFor, c);
    if seqno.Some? && rc == Ok {
      StepA(World(e, peer.Abs()), me.Abs(), Again(seqno.value));
    }
  }

  // A block the peer put on some connection arrives.
  method Receive(me: Circuit, peer: Circuit, seqno: uint32, op: byte, data: seq<byte>, ghost i: nat)
    requires Linked(me, peer)
    requires i < |peer.wire| && peer.wire[i].s == seqno && peer.wire[i].op == op && peer.wire[i].data == data
    modifies Footprint(me)
    ensures Linked(me, peer) && peer.Abs() == old(peer.Abs())
    ensures Step(old(me.Abs()), me.Abs(), peer.Abs(), Arrive(i))
  {
    hide Reachable, TransmitQueue.Valid, ReassemblyQueue.Valid, TransmitQueue.Abs, ReassemblyQueue.Abs;
    ghost var e := me.Abs();
    NumbersBelow(World(e, peer.Abs()));
    me.RecvBlock(seqno, op, data);
    StepA(World(e, peer.Abs()), me.Abs(), Arrive(i));
  }

  lemma NumbersBelow(w: World)
    requires Reachable(w)
    ensures forall i :: 0 <= i < |w.b.wire| ==> w.b.wire[i].s < SEQNO_LIMIT
    ensures w.a.tx.Valid() && w.a.rx.Valid() && NoWrap(w.a.rx)
  {
    hide Reachable;
    ReachableInv(w);
  }

  method Process(me: Circuit, peer: Circuit, spare: Option<nat>) returns (rc: Outcome)
    requires Linked(me, peer) && me.tx.nextToSend < SEQNO_LIMIT
    modifies Footprint(me)
    ensures peer.Abs() == old(peer.Abs())
    ensures rc != Abort ==> Linked(me, peer) && Step(old(me.Abs()), me.Abs(), peer.Abs(), Event.Process(spare.Some?))
  {
    hide Reachable, TransmitQueue.Valid, ReassemblyQueue.Valid, TransmitQueue.Abs, ReassemblyQueue.Abs;
    hide C.Drain, C.ProcessQueue;
    ghost var e := me.Abs();
    NumbersBelow(World(e, peer.Abs()));
    rc := me.ProcessQueue(spare);
    if rc != Abort {
      StepA(World(e, peer.Abs()), me.Abs(), Event.Process(spare.Some?));
    }
  }
}
