/** What can still happen: when some continuation queues another block, and when
    one delivers everything sent so far. */
module Progress {
  import opened Words
  import opened Framing
  import opened AckPayloads
  import opened TransmitQueues
  import opened ReassemblyQueues
  import opened Circuits
  import opened Protocol

  // ----- Continuations -----

  ghost predicate IsPath(path: seq<World>) {
    path != [] && forall i :: 0 <= i < |path| - 1 ==> Next(path[i], path[i + 1])
  }

  ghost predicate Continues(w: World, v: World) {
    exists path :: IsPath(path) && path[0] == w && path[|path| - 1] == v
  }

  ghost predicate Reachable(w: World) {
    Continues(World(FRESH, FRESH), w)
  }

  lemma StayPut(w: World)
    ensures Continues(w, w)
  {
    assert IsPath([w]) && [w][0] == w && [w][|[w]| - 1] == w;
  }

  lemma OneMore(w: World, u: World, v: World)
    requires Continues(w, u) && Next(u, v)
    ensures Continues(w, v)
  {
    var path :| IsPath(path) && path[0] == w && path[|path| - 1] == u;
    var more := path + [v];
    forall i | 0 <= i < |more| - 1
      ensures Next(more[i], more[i + 1])
    {
      if i < |path| - 1 {
        assert Next(path[i], path[i + 1]);
      }
    }
    assert IsPath(more) && more[0] == w && more[|more| - 1] == v;
  }

  lemma StepA(w: World, after: Endpoint, ev: Event)
    requires Reachable(w) && Step(w.a, after, w.b, ev)
    ensures Reachable(World(after, w.b))
  {
    assert Next(w, World(after, w.b));
    OneMore(World(FRESH, FRESH), w, World(after, w.b));
  }

  lemma StepB(w: World, after: Endpoint, ev: Event)
    requires Reachable(w) && Step(w.b, after, w.a, ev)
    ensures Reachable(World(w.a, after))
  {
    assert Next(w, World(w.a, after));
    OneMore(World(FRESH, FRESH), w, World(w.a, after));
  }

  // What every step keeps, every continuation keeps.
  lemma {:induction false} PathKeeps(P: World -> bool, path: seq<World>, n: nat)
    requires IsPath(path) && n < |path| && P(path[0])
    requires forall x, y :: P(x) && Next(x, y) ==> P(y)
    ensures P(path[n])
    decreases n
  {
    if n > 0 {
      PathKeeps(P, path, n - 1);
      assert Next(path[n - 1], path[n]);
    }
  }

  lemma Kept(P: World -> bool, w: World, v: World)
    requires Continues(w, v) && P(w)
    requires forall x, y :: P(x) && Next(x, y) ==> P(y)
    ensures P(v)
  {
    var path :| IsPath(path) && path[0] == w && path[|path| - 1] == v;
    PathKeeps(P, path, |path| - 1);
  }

  lemma Chained(w: World, u: World, v: World)
    requires Continues(w, u) && Continues(u, v)
    ensures Continues(w, v)
  {
    forall x, y | Continues(w, x) && Next(x, y)
      ensures Continues(w, y)
    {
      OneMore(w, x, y);
    }
    Kept(x => Continues(w, x), u, v);
  }

  lemma ReachableInv(w: World)
    requires Reachable(w)
    ensures Inv(w)
  {
    FreshInv();
    forall x, y | Inv(x) && Next(x, y)
      ensures Inv(y)
    {
      NextKeeps(x, y);
    }
    Kept(x => Inv(x), World(FRESH, FRESH), w);
  }

  // ----- Steps of either end -----

  function Replaced(w: World, first: bool, e: Endpoint): World {
    if first then World(e, w.b) else World(w.a, e)
  }

  lemma EndSteps(w: World, first: bool, after: Endpoint, ev: Event)
    requires Step(End(w, first), after, End(w, !first), ev)
    ensures Next(w, Replaced(w, first, after)) && Continues(w, Replaced(w, first, after))
    ensures End(Replaced(w, first, after), first) == after
    ensures End(Replaced(w, first, after), !first) == End(w, !first)
  {
    hide Step;
    StayPut(w);
    OneMore(w, w, Replaced(w, first, after));
  }

  ghost predicate Pair(p: Endpoint, q: Endpoint) {
    Own(p) && Own(q) && Flow(p, q) && Flow(q, p)
  }

  lemma PairOf(w: World, first: bool)
    ensures Inv(w) <==> Pair(End(w, first), End(w, !first))
  {
    hide Own, Flow;
  }

  // One step of an end, with what every state keeps.
  lemma Advance(w: World, first: bool, after: Endpoint, ev: Event) returns (v: World)
    requires Inv(w) && Step(End(w, first), after, End(w, !first), ev)
    ensures Continues(w, v) && Inv(v)
    ensures End(v, first) == after && End(v, !first) == End(w, !first)
  {
    hide Step, Inv, Next, Continues;
    EndSteps(w, first, after, ev);
    v := Replaced(w, first, after);
    NextKeeps(w, v);
  }

  // ----- When an acknowledgment is sent -----

  ghost predicate AckedInPast(w: World) {
    w.a.lastAcked <= w.a.rx.next && w.b.lastAcked <= w.b.rx.next
  }

  // Without an error, draining moves the queue and what goes upstream, nothing else.
  lemma QuietDrain(e: Endpoint, linked: bool)
    requires !Drain(e, false, linked).1
    ensures var after := Drain(e, false, linked).0;
            && OnlyDrained(e, after) && after.rx.next >= e.rx.next && after.rx.next !in after.rx.held
  {
    DrainQuietly(e, false, linked);
  }

  lemma ConsumeQuietly(e: Endpoint, b: Block, wrong: bool, linked: bool)
    ensures var (after, bad) := Consume(e, b, wrong, linked);
            && (wrong ==> bad) && (!bad ==> OnlyDrained(e, after)) && after.rx == e.rx
            && after.lastAcked == e.lastAcked && after.ackFrom == e.ackFrom && after.failed == e.failed
  {
  }

  lemma {:induction false} DrainQuietly(e: Endpoint, wrong: bool, linked: bool)
    ensures var (after, bad) := Drain(e, wrong, linked);
            && (wrong ==> bad) && (!bad ==> OnlyDrained(e, after))
            && after.rx.next >= e.rx.next && after.rx.next !in after.rx.held
            && after.lastAcked == e.lastAcked && after.ackFrom == e.ackFrom && after.failed == e.failed
    decreases |e.rx.held|
  {
    hide Consume;
    if e.rx.next in e.rx.held {
      DrainUnfolds(e, wrong, linked);
      var off, b := e.(rx := e.rx.RemoveNext()), e.rx.held[e.rx.next];
      ConsumeQuietly(off, b, wrong, linked);
      DrainQuietly(Consume(off, b, wrong, linked).0, Consume(off, b, wrong, linked).1, linked);
    }
  }

  lemma StepAcksPast(me: Endpoint, after: Endpoint, peer: Endpoint, ev: Event)
    requires Step(me, after, peer, ev) && me.lastAcked <= me.rx.next
    ensures after.lastAcked <= after.rx.next
  {
    hide Drain, MaybeSendAck, Tx.ProcessAck;
    if ev.Process? {
      DrainQuietly(me, false, ev.linked);
      var (drained, bad) := Drain(me, false, ev.linked);
      if !bad {
        AckKeepsPast(drained, after, ev.linked);
      }
    }
  }

  lemma AckKeepsPast(e: Endpoint, after: Endpoint, linked: bool)
    requires e.rx.Valid() && MaybeSendAck(e, linked) == Some(after) && e.lastAcked <= e.rx.next
    ensures after.lastAcked <= after.rx.next
  {
    hide Rx.GenAck;
  }

  lemma AcksPast(w: World)
    requires Reachable(w)
    ensures AckedInPast(w)
  {
    forall x, y | AckedInPast(x) && Next(x, y)
      ensures AckedInPast(y)
    {
      hide Step;
      if ev :| Step(x.a, y.a, x.b, ev) && y.b == x.b {
        StepAcksPast(x.a, y.a, x.b, ev);
      } else {
        var ev :| Step(x.b, y.b, x.a, ev) && y.a == x.a;
        StepAcksPast(x.b, y.b, x.a, ev);
      }
    }
    Kept(AckedInPast, World(FRESH, FRESH), w);
  }

  /** In every run, draining without an error ends with an acknowledgment exactly if 32
      processed blocks are unreported, or blocks are held in a dead cycle. It reports the
      queue as it is then, and goes into the window unless that is full. */
  lemma AckSentIff(w: World, first: bool, after: Endpoint, linked: bool)
    requires Reachable(w) && Step(End(w, first), after, End(w, !first), Process(linked)) && !after.failed
    ensures var me := End(w, first);
            var due := after.rx.next - me.lastAcked >= 32 || (after.deadCycles > 0 && after.rx.held != map[]);
            && me.lastAcked <= after.rx.next && after.rx.next !in after.rx.held
            && after.lastAcked == (if due then after.rx.next else me.lastAcked)
            && (if !due || me.tx.Full() then after.sent == me.sent && after.ackFrom == me.ackFrom
                else
                  && |after.sent| == |me.sent| + 1 && after.sent[..|me.sent|] == me.sent
                  && after.sent[|me.sent|].op == OP_ACK
                  && after.ackFrom == me.ackFrom[me.tx.nextToSend := after.rx])
    ensures after.rx.next - after.lastAcked < 32
    ensures after.deadCycles > 0 && after.rx.held != map[] ==> after.lastAcked == after.rx.next
  {
    var me := End(w, first);
    AcksPast(w);
    NumbersInRange(w, first, after, linked);
    hide Reachable, Drain, MaybeSendAck;
    QuietDrain(me, linked);
    var drained := Drain(me, false, linked).0;
    AckDueIff(drained, after, linked);
  }

  lemma AckDueIff(e: Endpoint, after: Endpoint, linked: bool)
    requires e.rx.Valid() && MaybeSendAck(e, linked) == Some(after) && e.lastAcked <= after.rx.next <= SEQNO_LIMIT
    ensures var due := e.rx.next - e.lastAcked >= 32 || (e.deadCycles > 0 && e.rx.held != map[]);
            && after.rx == e.rx && after.deadCycles == e.deadCycles && after.failed == e.failed
            && after.lastAcked == (if due then e.rx.next else e.lastAcked)
            && (if !due || e.tx.Full() then after.sent == e.sent && after.ackFrom == e.ackFrom
                else
                  && |after.sent| == |e.sent| + 1 && after.sent[..|e.sent|] == e.sent
                  && after.sent[|e.sent|].op == OP_ACK
                  && after.ackFrom == e.ackFrom[e.tx.nextToSend := e.rx])
  {
    DueMeans(e);
    hide AckDue, Rx.GenAck;
    if AckDue(e) {
      AckMeans(e, after, linked);
    }
  }

  lemma DueMeans(e: Endpoint)
    requires e.lastAcked <= e.rx.next <= SEQNO_LIMIT
    ensures AckDue(e) <==> e.rx.next - e.lastAcked >= 32 || (e.deadCycles > 0 && e.rx.held != map[])
  {
  }

  lemma AckMeans(e: Endpoint, after: Endpoint, linked: bool)
    requires e.rx.Valid() && AckNow(e, linked) == Some(after)
    ensures after.rx == e.rx && after.deadCycles == e.deadCycles && after.failed == e.failed && after.lastAcked == e.rx.next
    ensures if e.tx.Full() then after.sent == e.sent && after.ackFrom == e.ackFrom
            else
              && |after.sent| == |e.sent| + 1 && after.sent[..|e.sent|] == e.sent
              && after.sent[|e.sent|].op == OP_ACK
              && after.ackFrom == e.ackFrom[e.tx.nextToSend := e.rx]
  {
    hide Rx.GenAck, Tx.Enqueue;
  }

  /** After an error nothing is acknowledged, whatever is due. */
  lemma ErrorSendsNoAck(me: Endpoint, after: Endpoint, peer: Endpoint, linked: bool)
    requires Step(me, after, peer, Process(linked)) && !me.failed && after.failed
    ensures after.lastAcked == me.lastAcked && after.ackFrom == me.ackFrom
  {
    hide Drain, MaybeSendAck;
    DrainQuietly(me, false, linked);
    var (drained, bad) := Drain(me, false, linked);
    if !bad {
      AckKeepsUnfailed(drained, after, linked);
    }
  }

  lemma AckKeepsUnfailed(e: Endpoint, after: Endpoint, linked: bool)
    requires e.rx.Valid() && MaybeSendAck(e, linked) == Some(after)
    ensures after.failed == e.failed
  {
    hide Rx.GenAck;
  }

  // The receiver's next number never reaches 2^31, where it would wrap.
  lemma NumbersInRange(w: World, first: bool, after: Endpoint, linked: bool)
    requires Reachable(w) && Step(End(w, first), after, End(w, !first), Process(linked))
    ensures after.rx.next <= SEQNO_LIMIT
  {
    hide Step, Reachable;
    ReachableInv(w);
    var v := Replaced(w, first, after);
    EndSteps(w, first, after, Process(linked));
    NextKeeps(w, v);
    PairOf(v, first);
    NextInRange(End(v, first), End(v, !first));
  }

  lemma NextInRange(q: Endpoint, p: Endpoint)
    requires Pair(q, p)
    ensures q.rx.next <= SEQNO_LIMIT
  {
  }

  // ----- Both windows full -----

  // The block can still arrive: it is held for retransmission or was sent.
  ghost predicate Available(e: Endpoint, s: nat) {
    s in e.tx.live || OnWire(e.wire, s)
  }

  // p's window is full, and nothing q has queued will ever move it.
  ghost predicate Choked(p: Endpoint, q: Endpoint) {
    && p.tx.Full()
    && forall i :: i in q.ackFrom && Available(q, i) && Acceptable(q.ackFrom[i]) ==>
         q.ackFrom[i].Hsn() + 1 <= p.tx.nextToAck
  }

  // Or it has no numbers left before rekeying.
  ghost predicate Stuck(p: Endpoint, q: Endpoint) {
    p.tx.nextToSend == SEQNO_LIMIT || Choked(p, q)
  }

  ghost predicate Deadlocked(w: World) {
    Inv(w) && Stuck(w.a, w.b) && Stuck(w.b, w.a)
  }

  // What a stuck end keeps whatever it does.
  ghost predicate Frozen(e: Endpoint, after: Endpoint) {
    && after.sent == e.sent && after.ackFrom == e.ackFrom
    && after.tx.nextToAck == e.tx.nextToAck && after.tx.nextToSend == e.tx.nextToSend
    && forall s :: Available(after, s) ==> Available(e, s)
  }

  lemma FrozenStays(p: Endpoint, after: Endpoint, q: Endpoint)
    requires Stuck(p, q) && Stuck(q, p) && Frozen(p, after)
    ensures Stuck(after, q) && Stuck(q, after)
  {
    hide Available;
  }

  lemma SameSenderFrozen(e: Endpoint, after: Endpoint)
    requires after.tx == e.tx && after.sent == e.sent && after.wire == e.wire && after.ackFrom == e.ackFrom
    ensures Frozen(e, after)
  {
  }

  lemma AgainFrozen(e: Endpoint, s: nat)
    requires s in e.tx.live && e.tx.live[s].rcount < 255
    ensures Frozen(e, Resend(e, s))
  {
    hide OnWire;
    var after := Resend(e, s);
    forall t | Available(after, t)
      ensures Available(e, t)
    {
      OnWireSnoc(e.wire, after.wire[|e.wire|], t);
    }
  }

  lemma ConsumeFull(e: Endpoint, b: Block, wrong: bool, linked: bool)
    requires e.tx.Full()
    ensures var after := Consume(e, b, wrong, linked).0;
            after.tx == e.tx && after.sent == e.sent && after.wire == e.wire && after.ackFrom == e.ackFrom
  {
  }

  lemma {:induction false} DrainFull(e: Endpoint, wrong: bool, linked: bool)
    requires e.tx.Full()
    ensures var after := Drain(e, wrong, linked).0;
            after.tx == e.tx && after.sent == e.sent && after.wire == e.wire && after.ackFrom == e.ackFrom
    decreases |e.rx.held|
  {
    hide Consume;
    if e.rx.next in e.rx.held {
      RemoveShrinks(e.rx.held, e.rx.next);
      ConsumeKeepsRx(e.(rx := e.rx.RemoveNext()), e.rx.held[e.rx.next], wrong, linked);
      ConsumeFull(e.(rx := e.rx.RemoveNext()), e.rx.held[e.rx.next], wrong, linked);
      var (after, bad) := Consume(e.(rx := e.rx.RemoveNext()), e.rx.held[e.rx.next], wrong, linked);
      DrainFull(after, bad, linked);
    }
  }

  lemma ProcessFrozen(me: Endpoint, after: Endpoint, peer: Endpoint, linked: bool)
    requires me.tx.Full() && Step(me, after, peer, Process(linked))
    ensures Frozen(me, after)
  {
    ProcessCases(me, after, peer, linked);
    DrainFull(me, false, linked);
    hide Drain, Rx.GenAck;
    SameSenderFrozen(me, after);
  }

  lemma ArriveFrozen(me: Endpoint, after: Endpoint, peer: Endpoint, i: nat)
    requires Own(me) && Own(peer) && Stuck(me, peer)
    requires Step(me, after, peer, Arrive(i))
    ensures Frozen(me, after) || (after.sent == me.sent && me.tx.nextToSend == SEQNO_LIMIT && ArrivedOnly(me, after))
  {
    ArrivedTx(me, after, peer, i);
    hide Step, Available, Rx.GenAck, Tx.ProcessAck;
    if peer.wire[i].op == OP_ACK {
      AckRecorded(peer, i);
      hide Own;
      AckEffect(me.tx, peer.ackFrom[peer.wire[i].s]);
      ProcessAckKeepsValid(me.tx, peer.wire[i].data);
    }
    SameWire(me, after);
  }

  lemma ArrivedTx(me: Endpoint, after: Endpoint, peer: Endpoint, i: nat)
    requires Step(me, after, peer, Arrive(i))
    ensures i < |peer.wire| && me.tx.Valid()
    ensures after == me.(tx := after.tx, rx := after.rx)
    ensures after.tx == if peer.wire[i].op == OP_ACK then me.tx.ProcessAck(peer.wire[i].data) else me.tx
  {
    hide Tx.ProcessAck, Rx.Insert;
  }

  // What can still arrive depends on the live blocks and the wire.
  lemma SameWire(e: Endpoint, after: Endpoint)
    ensures after.wire == e.wire && after.tx.live.Keys <= e.tx.live.Keys ==>
            forall s :: Available(after, s) ==> Available(e, s)
  {
    hide OnWire;
  }

  lemma AckRecorded(peer: Endpoint, i: nat)
    requires Own(peer) && i < |peer.wire| && peer.wire[i].op == OP_ACK
    ensures var s := peer.wire[i].s;
            && s in peer.ackFrom && Available(peer, s)
            && var r := peer.ackFrom[s];
               r.Valid() && r.next !in r.held && r.GenAck().Some? && peer.wire[i].data == r.GenAck().value
  {
    hide CarryOk, StreamOk, FinOk, RxOk, NoncesDistinct, Rx.GenAck;
    var s := peer.wire[i].s;
    assert Block(peer.wire[i].op, peer.wire[i].data) == peer.sent[s];
    assert AckOk(peer, s, peer.ackFrom[s]);
  }

  // Only the lower edge may have moved.
  ghost predicate ArrivedOnly(e: Endpoint, after: Endpoint) {
    after.tx.nextToSend == e.tx.nextToSend && after.ackFrom == e.ackFrom &&
    forall s :: Available(after, s) ==> Available(e, s)
  }

  lemma StepStuck(me: Endpoint, after: Endpoint, peer: Endpoint, ev: Event)
    requires Own(me) && Own(peer) && Stuck(me, peer) && Stuck(peer, me)
    requires Step(me, after, peer, ev)
    ensures after.sent == me.sent && Stuck(after, peer) && Stuck(peer, after)
  {
    hide Own, Available;
    match ev
    case Again(s) =>
      AgainFrozen(me, s);
      FrozenStays(me, after, peer);
    case Arrive(i) =>
      ArriveFrozen(me, after, peer, i);
      if Frozen(me, after) {
        FrozenStays(me, after, peer);
      }
    case Process(linked) =>
      ProcessFrozen(me, after, peer, linked);
      FrozenStays(me, after, peer);
    case Send(room, accepted) =>
    case _ =>
      SameSenderFrozen(me, after);
      FrozenStays(me, after, peer);
  }

  lemma NextStuck(w: World, v: World)
    requires Deadlocked(w) && Next(w, v)
    ensures Deadlocked(v) && v.a.sent == w.a.sent && v.b.sent == w.b.sent
  {
    hide Own, Flow, Stuck, Step;
    NextKeeps(w, v);
    if ev :| Step(w.a, v.a, w.b, ev) && v.b == w.b {
      StepStuck(w.a, v.a, w.b, ev);
    } else {
      var ev :| Step(w.b, v.b, w.a, ev) && v.a == w.a;
      StepStuck(w.b, v.b, w.a, ev);
    }
  }

  /** From a deadlocked state no block is ever queued again, though live ones may go out
      again, and so not one more byte is taken from upstream. */
  lemma DeadlockForever(w: World, v: World)
    requires Deadlocked(w) && Continues(w, v)
    ensures Deadlocked(v) && v.a.sent == w.a.sent && v.b.sent == w.b.sent
    ensures v.a.taken == w.a.taken && v.b.taken == w.b.taken
  {
    hide Next, Deadlocked;
    forall x, y | Deadlocked(x) && x.a.sent == w.a.sent && x.b.sent == w.b.sent && Next(x, y)
      ensures Deadlocked(y) && y.a.sent == w.a.sent && y.b.sent == w.b.sent
    {
      NextStuck(x, y);
    }
    Kept(x => Deadlocked(x) && x.a.sent == w.a.sent && x.b.sent == w.b.sent, w, v);
    TakenIsPayload(w);
    TakenIsPayload(v);
  }

  lemma TakenIsPayload(w: World)
    requires Deadlocked(w)
    ensures w.a.taken == Payload(w.a.sent) && w.b.taken == Payload(w.b.sent)
  {
  }

  // ----- Getting unstuck -----

  lemma SendBlock(w: World, first: bool) returns (v: World)
    requires Inv(w) && !End(w, first).tx.Full() && End(w, first).tx.nextToSend < SEQNO_LIMIT
    ensures Continues(w, v) && Inv(v) && |End(v, first).sent| > |End(w, first).sent|
  {
    hide Inv, Next, Continues;
    var p := End(w, first);
    v := Advance(w, first, SendTargeted(p, 1, true).next, Send(1, true));
  }

  // Retransmitting changes the wire and a count.
  ghost predicate SameButWire(e: Endpoint, after: Endpoint) {
    && after.sent == e.sent && after.taken == e.taken && after.rx == e.rx && after.ackFrom == e.ackFrom
    && after.tx.nextToAck == e.tx.nextToAck && after.tx.nextToSend == e.tx.nextToSend
    && (forall s :: Available(e, s) ==> Available(after, s))
  }

  lemma ResendSame(e: Endpoint, s: nat)
    requires s in e.tx.live && e.tx.live[s].rcount < 255
    ensures SameButWire(e, Resend(e, s))
    ensures |Resend(e, s).wire| == |e.wire| + 1 && Resend(e, s).wire[|e.wire|].s == s
  {
    hide OnWire;
    var after := Resend(e, s);
    forall t | Available(e, t)
      ensures Available(after, t)
    {
      OnWireSnoc(e.wire, after.wire[|e.wire|], t);
    }
  }

  lemma MayResend(p: Endpoint, q: Endpoint, s: nat)
    requires Pair(p, q) && Available(p, s) && !OnWire(p.wire, s)
    ensures s in p.tx.live && p.tx.live[s].rcount == 0
  {
    hide WireOk, AcksOk, StreamOk, FinOk, Flow;
  }

  // A block that is available can be brought onto a wire.
  lemma PutOnWire(w: World, first: bool, s: nat) returns (v: World, k: nat)
    requires Inv(w) && Available(End(w, first), s)
    ensures Continues(w, v) && Inv(v) && End(v, !first) == End(w, !first)
    ensures k < |End(v, first).wire| && End(v, first).wire[k].s == s
    ensures SameButWire(End(w, first), End(v, first))
  {
    hide Next, Continues, Inv, Pair, Available, Resend, Replaced;
    PairOf(w, first);
    var p := End(w, first);
    if OnWire(p.wire, s) {
      StayPut(w);
      v := w;
      k :| 0 <= k < |p.wire| && p.wire[k].s == s;
    } else {
      MayResend(p, End(w, !first), s);
      ResendSame(p, s);
      v := Advance(w, first, Resend(p, s), Again(s));
      k := |p.wire|;
    }
  }

  // p's window is full, but an acknowledgment that moves it can still arrive.
  lemma OpenWindow(w: World, first: bool, i: nat) returns (v: World)
    requires Inv(w) && End(w, first).tx.Full()
    requires var p, q := End(w, first), End(w, !first);
             && i in q.ackFrom && Available(q, i) && Acceptable(q.ackFrom[i])
             && q.ackFrom[i].Hsn() + 1 > p.tx.nextToAck
    ensures Continues(w, v) && Inv(v) && !End(v, first).tx.Full()
    ensures End(v, first).sent == End(w, first).sent && End(v, first).tx.nextToSend == End(w, first).tx.nextToSend
  {
    hide Next, Continues, Inv, Available, Pair, RecvBlock, SameButWire;
    var u, k := PutOnWire(w, !first, i);
    SameAcks(End(w, !first), End(u, !first));
    PairOf(u, first);
    var p, q := End(u, first), End(u, !first);
    WireNumber(p, q, k);
    var after := RecvBlock(p, q.wire[k].s, Block(q.wire[k].op, q.wire[k].data));
    AckOpens(p, q, k);
    v := Advance(u, first, after, Arrive(k));
    Chained(w, u, v);
  }

  lemma SameAcks(e: Endpoint, after: Endpoint)
    requires SameButWire(e, after)
    ensures after.ackFrom == e.ackFrom && after.sent == e.sent
  {
  }

  lemma WireNumber(p: Endpoint, q: Endpoint, k: nat)
    requires Pair(p, q) && k < |q.wire|
    ensures p.tx.Valid() && q.wire[k].s < SEQNO_LIMIT && q.wire[k].s < |q.sent|
    ensures Block(q.wire[k].op, q.wire[k].data) == q.sent[q.wire[k].s]
  {
    hide AcksOk, StreamOk, FinOk, Flow;
  }

  lemma AckIsSent(p: Endpoint, q: Endpoint, i: nat)
    requires Pair(p, q) && i in q.ackFrom
    ensures var r := q.ackFrom[i];
            && i < |q.sent| && r.Valid() && r.next !in r.held && r.GenAck().Some?
            && q.sent[i] == Block(OP_ACK, r.GenAck().value)
            && r.next <= p.tx.nextToSend && p.tx.Valid()
  {
    hide WireOk, CarryOk, StreamOk, FinOk, AckLink, FailLink, Rx.GenAck;
    assert AckOk(q, i, q.ackFrom[i]);
  }

  lemma AckMoves(tx: Tx, r: Rx)
    requires tx.Valid() && tx.Full() && r.Valid() && r.next !in r.held && r.GenAck().Some? && r.next <= tx.nextToSend
    requires Acceptable(r) && r.Hsn() + 1 > tx.nextToAck
    ensures !tx.ProcessAck(r.GenAck().value).Full() && tx.ProcessAck(r.GenAck().value).nextToSend == tx.nextToSend
  {
    hide Rx.GenAck, Tx.ProcessAck;
    AckEffect(tx, r);
  }

  lemma AckOpens(p: Endpoint, q: Endpoint, k: nat)
    requires Pair(p, q) && k < |q.wire| && p.tx.Full() && q.wire[k].s in q.ackFrom
    requires Acceptable(q.ackFrom[q.wire[k].s]) && q.ackFrom[q.wire[k].s].Hsn() + 1 > p.tx.nextToAck
    ensures p.tx.Valid() && q.wire[k].s < SEQNO_LIMIT
    ensures var after := RecvBlock(p, q.wire[k].s, Block(q.wire[k].op, q.wire[k].data));
            !after.tx.Full() && after.sent == p.sent && after.tx.nextToSend == p.tx.nextToSend
  {
    hide Pair, Rx.GenAck, Tx.ProcessAck, Tx.Full;
    WireNumber(p, q, k);
    AckIsSent(p, q, q.wire[k].s);
    AckMoves(p.tx, q.ackFrom[q.wire[k].s]);
  }

  lemma Unstick(w: World, first: bool) returns (v: World)
    requires Inv(w) && !Stuck(End(w, first), End(w, !first))
    ensures Continues(w, v) && |End(v, first).sent| > |End(w, first).sent|
  {
    hide Next, Continues, Own, Flow;
    NumbersLeft(w, first);
    var u := w;
    StayPut(w);
    if End(w, first).tx.Full() {
      var i :| i in End(w, !first).ackFrom && Available(End(w, !first), i) && Acceptable(End(w, !first).ackFrom[i]) &&
        End(w, !first).ackFrom[i].Hsn() + 1 > End(w, first).tx.nextToAck;
      u := OpenWindow(w, first, i);
    }
    v := SendBlock(u, first);
    Chained(w, u, v);
  }

  lemma NumbersLeft(w: World, first: bool)
    requires Inv(w)
    ensures End(w, first).tx.nextToSend <= SEQNO_LIMIT
  {
  }

  ghost predicate MoreSent(w: World, v: World) {
    |v.a.sent| > |w.a.sent| || |v.b.sent| > |w.b.sent|
  }

  /** Some continuation queues another block exactly if the state is not deadlocked. */
  lemma DeadlockIff(w: World)
    requires Reachable(w)
    ensures (exists v :: Continues(w, v) && MoreSent(w, v)) <==> !Deadlocked(w)
  {
    hide Continues, Own, Flow, Stuck;
    ReachableInv(w);
    if Deadlocked(w) {
      forall v | Continues(w, v)
        ensures !MoreSent(w, v)
      {
        DeadlockForever(w, v);
      }
    } else {
      var first := !Stuck(w.a, w.b);
      var v := Unstick(w, first);
      assert MoreSent(w, v);
    }
  }

  // ----- Delivering everything sent so far -----

  // Block 0 may have been discarded before anyone received it, and never sent.
  ghost predicate ZeroLost(p: Endpoint, q: Endpoint) {
    |p.sent| > 0 && !q.rx.Got(0) && !Available(p, 0)
  }

  // The receiver gets one block that is available and in its window.
  lemma Receive(w: World, first: bool, s: nat) returns (v: World)
    requires Inv(w) && Available(End(w, first), s) && s < End(w, !first).rx.next + WINDOW
    ensures Continues(w, v) && Inv(v) && SameButWire(End(w, first), End(v, first))
    ensures Filled(End(w, !first), End(v, !first)) && End(v, !first).rx.Got(s)
  {
    hide Next, Continues, Inv, Available, Pair, RecvBlock, SameButWire, Filled;
    var u, k := PutOnWire(w, first, s);
    PairOf(u, !first);
    var p, q := End(u, first), End(u, !first);
    WireNumber(q, p, k);
    GetsBlock(q, p.wire[k]);
    v := Advance(u, !first, RecvBlock(q, p.wire[k].s, Block(p.wire[k].op, p.wire[k].data)), Arrive(k));
    Chained(w, u, v);
  }

  // The receiver's queue has only gained blocks.
  ghost predicate Filled(q: Endpoint, after: Endpoint) {
    && after.rx.next == q.rx.next && after.tx.nextToSend == q.tx.nextToSend
    && forall s :: q.rx.Got(s) ==> after.rx.Got(s)
  }

  lemma GetsBlock(q: Endpoint, k: Packet)
    requires q.tx.Valid() && k.s < SEQNO_LIMIT && k.s < q.rx.next + WINDOW
    ensures var after := RecvBlock(q, k.s, Block(k.op, k.data));
            Filled(q, after) && after.rx.Got(k.s)
  {
  }

  ghost predicate AllGot(rx: Rx, n: nat) {
    forall s :: 0 <= s < n ==> rx.Got(s)
  }

  lemma MayReceive(p: Endpoint, q: Endpoint, s: nat)
    requires Pair(p, q) && s < |p.sent| && !q.rx.Got(s) && (s == 0 ==> Available(p, 0))
    ensures Available(p, s)
  {
    hide WireOk, CarryOk, StreamOk, FinOk, RxOk;
    WindowInStep(p, q);
  }

  // All blocks below n, one after the other.
  lemma {:induction false} Fill(w: World, first: bool, n: nat) returns (v: World)
    requires Inv(w) && n <= |End(w, first).sent| && n <= End(w, !first).rx.next + WINDOW
    requires !ZeroLost(End(w, first), End(w, !first))
    ensures Continues(w, v) && Inv(v) && SameButWire(End(w, first), End(v, first))
    ensures Filled(End(w, !first), End(v, !first)) && AllGot(End(v, !first).rx, n)
    decreases n
  {
    hide Next, Continues, Inv, Available, Pair, SameButWire, Filled;
    if n == 0 {
      StayPut(w);
      NoChange(End(w, first), End(w, !first));
      v := w;
    } else {
      var u := Fill(w, first, n - 1);
      PairOf(u, first);
      v := u;
      if !End(u, !first).rx.Got(n - 1) {
        FillCarries(End(w, first), End(u, first), End(w, !first), End(u, !first));
        MayReceive(End(u, first), End(u, !first), n - 1);
        v := Receive(u, first, n - 1);
        Chained(w, u, v);
        FillChains(End(w, first), End(u, first), End(v, first), End(w, !first), End(u, !first), End(v, !first), n - 1);
      }
    }
  }

  lemma NoChange(p: Endpoint, q: Endpoint)
    ensures SameButWire(p, p) && Filled(q, q)
  {
  }

  lemma FillCarries(p: Endpoint, u: Endpoint, q: Endpoint, r: Endpoint)
    requires SameButWire(p, u) && Filled(q, r)
    ensures u.sent == p.sent && r.rx.next == q.rx.next
    ensures !ZeroLost(p, q) && |p.sent| > 0 && !r.rx.Got(0) ==> Available(u, 0)
  {
    hide Available;
  }

  lemma FillChains(p: Endpoint, u: Endpoint, v: Endpoint, q: Endpoint, r: Endpoint, t: Endpoint, n: nat)
    requires SameButWire(p, u) && SameButWire(u, v) && Filled(q, r) && Filled(r, t)
    requires AllGot(r.rx, n) && t.rx.Got(n)
    ensures SameButWire(p, v) && Filled(q, t) && AllGot(t.rx, n + 1)
  {
    hide Available;
  }

  // With all blocks below n there and none above, draining reaches n.
  lemma {:induction false} DrainReaches(e: Endpoint, n: nat, wrong: bool, linked: bool)
    requires e.rx.next <= n && AllGot(e.rx, n)
    requires forall s :: s in e.rx.held ==> e.rx.next <= s < n
    ensures Drain(e, wrong, linked).0.rx == Rx(n, map[])
    decreases |e.rx.held|
  {
    hide Consume;
    if e.rx.next in e.rx.held {
      var f, b := e.(rx := e.rx.RemoveNext()), e.rx.held[e.rx.next];
      RemoveShrinks(e.rx.held, e.rx.next);
      ConsumeKeepsRx(f, b, wrong, linked);
      var (after, bad) := Consume(f, b, wrong, linked);
      RemovedGot(e.rx, n);
      DrainReaches(after, n, bad, linked);
    } else {
      assert e.rx.next < n ==> e.rx.Got(e.rx.next);
      assert e.rx.held == map[];
    }
  }

  lemma RemovedGot(rx: Rx, n: nat)
    requires rx.next in rx.held && AllGot(rx, n)
    ensures AllGot(rx.RemoveNext(), n)
  {
    forall s | 0 <= s < n
      ensures rx.RemoveNext().Got(s)
    {
      assert rx.Got(s);
    }
  }

  // One arrival of everything in reach, then one round of draining.
  lemma Round(w: World, first: bool) returns (v: World)
    requires Inv(w) && End(w, !first).tx.nextToSend < SEQNO_LIMIT && !ZeroLost(End(w, first), End(w, !first))
    ensures Continues(w, v) && Inv(v)
    ensures End(v, first).sent == End(w, first).sent && End(v, first).taken == End(w, first).taken
    ensures End(v, !first).rx.next == Min(|End(w, first).sent|, End(w, !first).rx.next + WINDOW)
    ensures End(v, !first).tx.nextToSend <= End(w, !first).tx.nextToSend + 1
  {
    hide Next, Continues, Inv, Pair, Filled, Available, ProcessQueue;
    var n := Min(|End(w, first).sent|, End(w, !first).rx.next + WINDOW);
    var u := Fill(w, first, n);
    FillCarries(End(w, first), End(u, first), End(w, !first), End(u, !first));
    FilledSends(End(w, !first), End(u, !first));
    PairOf(u, first);
    PairOf(u, !first);
    var q := End(u, !first);
    var after := ProcessAll(End(u, first), q, n);
    v := Advance(u, !first, after, Process(true));
    Chained(w, u, v);
  }

  lemma FilledSends(q: Endpoint, after: Endpoint)
    requires Filled(q, after)
    ensures after.tx.nextToSend == q.tx.nextToSend
  {
  }

  lemma HeldBelow(p: Endpoint, q: Endpoint, n: nat)
    requires Pair(p, q) && n == Min(|p.sent|, q.rx.next + WINDOW)
    ensures q.rx.next <= n && n <= SEQNO_LIMIT && forall s :: s in q.rx.held ==> q.rx.next <= s < n
  {
    hide WireOk, CarryOk, StreamOk, FinOk, AcksOk, AckLink, FailLink;
  }

  lemma ProcessAll(p: Endpoint, q: Endpoint, n: nat) returns (after: Endpoint)
    requires Pair(p, q) && Pair(q, p) && n == Min(|p.sent|, q.rx.next + WINDOW) && AllGot(q.rx, n)
    requires q.tx.nextToSend < SEQNO_LIMIT
    ensures Step(q, after, p, Process(true))
    ensures after.rx.next == n && after.tx.nextToSend <= q.tx.nextToSend + 1
  {
    hide Pair, Drain, Link, FailLink, AckLink, Own, MaybeSendAck;
    HeldBelow(p, q, n);
    DrainReaches(q, n, false, true);
    PairDrains(p, q);
    var (drained, bad) := Drain(q, false, true);
    EmptyAck(n);
    DrainedSends(q, drained, p, bad);
    if bad {
      after := drained.(failed := true);
    } else {
      AckSends(drained, true);
      after := MaybeSendAck(drained, true).value;
    }
  }

  lemma PairDrains(p: Endpoint, q: Endpoint)
    requires Pair(p, q)
    ensures var (drained, bad) := Drain(q, false, true); Drained(p, q, drained, bad)
  {
    hide Own, Flow;
    PairParts(p, q);
    DrainFacts(q, p, true);
  }

  lemma PairParts(p: Endpoint, q: Endpoint)
    requires Pair(p, q)
    ensures Own(p) && Own(q) && Flow(p, q) && Flow(q, p)
  {
  }

  lemma EmptyAck(n: nat)
    requires n <= SEQNO_LIMIT
    ensures Rx(n, map[]).Valid() && Rx(n, map[]).GenAck().Some?
  {
  }

  lemma AckSends(e: Endpoint, linked: bool)
    requires e.rx.Valid() && e.rx.GenAck().Some?
    ensures MaybeSendAck(e, linked).Some?
    ensures MaybeSendAck(e, linked).value.rx == e.rx
    ensures MaybeSendAck(e, linked).value.tx.nextToSend <= e.tx.nextToSend + 1
  {
    hide Rx.GenAck;
  }

  // Everything sent at w is processed at v, and everything taken is delivered.
  ghost predicate CaughtUp(w: World, v: World, first: bool) {
    End(v, !first).rx.next >= |End(w, first).sent| && End(w, first).taken <= End(v, !first).upOut
  }

  lemma CatchUp(w: World, first: bool) returns (v: World)
    requires Inv(w) && End(w, !first).tx.nextToSend < SEQNO_LIMIT - 1 && !ZeroLost(End(w, first), End(w, !first))
    ensures Continues(w, v) && CaughtUp(w, v, first)
    ensures End(v, !first).rx.next == End(v, first).tx.nextToSend && End(v, !first).upOut == End(v, first).taken
  {
    hide Next, Continues, Inv, Pair, Available;
    var u := Round(w, first);
    PairOf(u, first);
    PairInStep(End(u, first), End(u, !first));
    v := Round(u, first);
    Chained(w, u, v);
    PairOf(v, first);
    PairDelivers(End(v, first), End(v, !first));
  }

  lemma PairInStep(p: Endpoint, q: Endpoint)
    requires Pair(p, q)
    ensures |p.sent| <= Max(1, q.rx.next) + WINDOW
  {
    hide WireOk, CarryOk, StreamOk, FinOk, RxOk, AcksOk;
    WindowInStep(p, q);
  }

  lemma PairDelivers(p: Endpoint, q: Endpoint)
    requires Pair(p, q) && q.rx.next == |p.sent|
    ensures q.rx.next == p.tx.nextToSend && q.upOut == p.taken
  {
    hide WireOk, CarryOk, FinOk, RxOk, AcksOk, FailLink, AckLink;
    assert p.sent[..q.rx.next] == p.sent;
  }

  // ----- A lost block 0 stays lost -----

  lemma SenderKeepsZeroLost(p: Endpoint, after: Endpoint, q: Endpoint, ev: Event)
    requires QueueOk(p) && ZeroLost(p, q) && Step(p, after, q, ev)
    ensures ZeroLost(after, q)
  {
    hide Drain, Rx.GenAck;
    match ev
    case Send(room, accepted) =>
      SendShape(p, after, q, room, accepted);
      var (d, op) := Segment(|p.upIn|, room, p.upEof && !p.sentFin);
      QueuedNotZero(p, after, op, p.upIn[..d], accepted);
    case Again(s) => AgainFrozen(p, s);
    case Arrive(i) => ArriveNotZero(p, after, q, i);
    case Process(linked) => ProcessNotZero(p, after, q, linked);
    case _ => SameSenderFrozen(p, after);
  }

  lemma QueuedNotZero(p: Endpoint, after: Endpoint, op: byte, data: seq<byte>, linked: bool)
    requires QueueOk(p) && |p.sent| > 0 && !Available(p, 0)
    requires after.tx == p.tx.Enqueue(op, data) && after.wire == Enqueue(p, op, data, linked).wire
    ensures !Available(after, 0)
  {
    OnWireSnoc(p.wire, Packet(p.tx.nextToSend, op, data, 0), 0);
  }

  lemma ArriveNotZero(p: Endpoint, after: Endpoint, q: Endpoint, i: nat)
    requires Step(p, after, q, Arrive(i)) && !Available(p, 0)
    ensures after.sent == p.sent && !Available(after, 0)
  {
    ProcessAckKeepsValid(p.tx, q.wire[i].data);
  }

  ghost predicate StillNotZero(e: Endpoint, after: Endpoint) {
    |after.sent| >= |e.sent| > 0 && |after.sent| == after.tx.nextToSend && !Available(after, 0)
  }

  lemma SpecialNotZero(e: Endpoint, op: byte, data: seq<byte>, linked: bool)
    requires StillNotZero(e, e)
    ensures StillNotZero(e, SendSpecial(e, op, data, linked))
  {
    if !e.tx.Full() {
      OnWireSnoc(e.wire, Packet(e.tx.nextToSend, op, data, 0), 0);
    }
  }

  lemma ConsumeNotZero(e: Endpoint, b: Block, wrong: bool, linked: bool)
    requires StillNotZero(e, e)
    ensures StillNotZero(e, Consume(e, b, wrong, linked).0)
  {
    hide SendSpecial;
    SpecialNotZero(e, OP_RST, [], linked);
  }

  lemma {:induction false} DrainNotZero(e: Endpoint, wrong: bool, linked: bool)
    requires StillNotZero(e, e)
    ensures StillNotZero(e, Drain(e, wrong, linked).0)
    decreases |e.rx.held|
  {
    hide Consume;
    if e.rx.next in e.rx.held {
      var f, b := e.(rx := e.rx.RemoveNext()), e.rx.held[e.rx.next];
      RemoveShrinks(e.rx.held, e.rx.next);
      ConsumeKeepsRx(f, b, wrong, linked);
      ConsumeNotZero(f, b, wrong, linked);
      var (after, bad) := Consume(f, b, wrong, linked);
      DrainNotZero(after, bad, linked);
    }
  }

  lemma ProcessNotZero(p: Endpoint, after: Endpoint, q: Endpoint, linked: bool)
    requires QueueOk(p) && |p.sent| > 0 && !Available(p, 0) && Step(p, after, q, Process(linked))
    ensures |after.sent| > 0 && !Available(after, 0)
  {
    ProcessCases(p, after, q, linked);
    hide Drain, Rx.GenAck, SendSpecial, Step, Available;
    DrainNotZero(p, false, linked);
    var (drained, bad) := Drain(p, false, linked);
    if !bad && AckDue(drained) {
      var payload := drained.rx.GenAck().value;
      var noted := drained.(lastAcked := drained.rx.next,
                            ackFrom := if drained.tx.Full() then drained.ackFrom else drained.ackFrom[drained.tx.nextToSend := drained.rx]);
      NotZeroCopies(drained, noted);
      SpecialNotZero(noted, OP_ACK, payload, linked);
    } else {
      NotZeroCopies(drained, after);
    }
  }

  lemma NotZeroCopies(e: Endpoint, after: Endpoint)
    requires |e.sent| > 0 && |e.sent| == e.tx.nextToSend && !Available(e, 0)
    requires after.tx == e.tx && after.sent == e.sent && after.wire == e.wire
    ensures StillNotZero(after, after)
  {
  }

  lemma ReceiverKeepsZeroLost(p: Endpoint, q: Endpoint, after: Endpoint, ev: Event)
    requires ZeroLost(p, q) && Step(q, after, p, ev)
    ensures ZeroLost(p, after)
  {
    hide Drain, SendSpecial, Rx.GenAck;
    match ev
    case Process(linked) =>
      ProcessCases(q, after, p, linked);
      NothingDrained(q, linked);
      AckHistory(q, after, linked);
    case Arrive(i) => assert OnWire(p.wire, p.wire[i].s);
    case _ =>
  }

  lemma NothingDrained(q: Endpoint, linked: bool)
    requires !q.rx.Got(0)
    ensures Drain(q, false, linked) == (q, false)
  {
  }

  lemma OwnQueues(w: World)
    requires Inv(w)
    ensures QueueOk(w.a) && QueueOk(w.b)
  {
  }

  lemma ZeroLostStays(w: World, v: World, first: bool)
    requires Inv(w) && Next(w, v) && ZeroLost(End(w, first), End(w, !first))
    ensures ZeroLost(End(v, first), End(v, !first))
  {
    OwnQueues(w);
    hide Inv, QueueOk, ZeroLost, Step;
    if ev :| Step(w.a, v.a, w.b, ev) && v.b == w.b {
      if first {
        SenderKeepsZeroLost(w.a, v.a, w.b, ev);
      } else {
        ReceiverKeepsZeroLost(w.b, w.a, v.a, ev);
      }
    } else {
      var ev :| Step(w.b, v.b, w.a, ev) && v.a == w.a;
      if first {
        ReceiverKeepsZeroLost(w.a, w.b, v.b, ev);
      } else {
        SenderKeepsZeroLost(w.b, v.b, w.a, ev);
      }
    }
  }

  /** Some continuation delivers everything sent so far exactly if block 0 is not
      lost: discarded by the sender before it was ever on a wire. */
  lemma CatchUpIff(w: World, first: bool)
    requires Reachable(w) && End(w, !first).tx.nextToSend < SEQNO_LIMIT - 1
    ensures (exists v :: Continues(w, v) && CaughtUp(w, v, first)) <==> !ZeroLost(End(w, first), End(w, !first))
  {
    hide Continues, Inv, Next, ZeroLost;
    ReachableInv(w);
    if ZeroLost(End(w, first), End(w, !first)) {
      forall v | Continues(w, v)
        ensures !CaughtUp(w, v, first)
      {
        ZeroLostForever(w, v, first);
        NeverCaughtUp(w, v, first);
      }
    } else {
      var v := CatchUp(w, first);
    }
  }

  lemma ZeroLostForever(w: World, v: World, first: bool)
    requires Inv(w) && Continues(w, v) && ZeroLost(End(w, first), End(w, !first))
    ensures ZeroLost(End(v, first), End(v, !first))
  {
    hide Inv, Next, ZeroLost, Continues;
    forall x, y | Inv(x) && ZeroLost(End(x, first), End(x, !first)) && Next(x, y)
      ensures Inv(y) && ZeroLost(End(y, first), End(y, !first))
    {
      NextKeeps(x, y);
      ZeroLostStays(x, y, first);
    }
    Kept(x => Inv(x) && ZeroLost(End(x, first), End(x, !first)), w, v);
  }

  lemma NeverCaughtUp(w: World, v: World, first: bool)
    requires ZeroLost(End(w, first), End(w, !first)) && ZeroLost(End(v, first), End(v, !first))
    ensures !CaughtUp(w, v, first)
  {
    assert !End(v, !first).rx.Got(0);
  }
}
