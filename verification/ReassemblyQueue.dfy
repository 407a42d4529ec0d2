/** The receiver's 256-slot ring, the unbounded map it stands for, and the
    acknowledgments generated from it. */
module ReassemblyQueues {
  import opened Words
  import opened Framing
  import opened AckPayloads

  datatype Block = Block(op: byte, data: seq<byte>)

  // ----- The map the ring stands for -----

  datatype Rx = Rx(next: nat, held: map<nat, Block>) {
    ghost predicate Valid() {
      next <= UINT32_SPAN - WINDOW && forall s :: s in held ==> next <= s < next + WINDOW
    }

    predicate Accepts(s: uint32) {
      next <= s < next + WINDOW && s !in held
    }

    function Insert(s: uint32, b: Block): Rx {
      if Accepts(s) then this.(held := held[s as nat := b]) else this
    }

    function RemoveNext(): Rx {
      if next in held then Rx(next + 1, held - {next}) else this
    }

    // Processed or held: once true of a number, true for good.
    predicate Got(s: nat) {
      s < next || s in held
    }

    function Hsn(): nat {
      if next == 0 then 0 else next - 1
    }

    // Some held block's slot index is below the front slot's.
    ghost predicate Wraps() {
      exists s :: s in held && s / WINDOW > next / WINDOW
    }

    predicate OffsetHeld(d: nat) {
      Hsn() + 1 + d in held
    }

    ghost function HeldOffsets(): set<nat> {
      set d: nat | d < 256 && OffsetHeld(d)
    }

    // What gen_ack puts on the wire; none when it gives up with log_abort.
    ghost function GenAck(): Option<seq<byte>>
      requires Valid()
    {
      if Wraps() || (next == 0 && 0 in held) then None
      else Some(AckWire(Hsn(), HeldOffsets()))
    }

    // What it would put there if it reduced the slot difference modulo 256.
    ghost function GenAckReduced(): Option<seq<byte>>
      requires Valid()
    {
      if next == 0 && 0 in held then None else Some(AckWire(Hsn(), HeldOffsets()))
    }

    // A payload is accepted wherever its HSN is in range, and claims exactly the
    // numbers processed or held.
    ghost predicate Tells(wire: Option<seq<byte>>)
      requires Valid()
    {
      wire.Some? &&
      forall hfloor: uint32 :: InFloorRange(Hsn(), hfloor) ==>
        ParseAck(wire.value, hfloor).Some? &&
        forall s: uint32 :: ParseAck(wire.value, hfloor).value.Received(s) <==> Got(s)
    }

    ghost predicate AckTells()
      requires Valid()
    {
      Tells(GenAck())
    }
  }

  // What parsing makes of a payload with the HSN and the held offsets.
  lemma PayloadMeaning(rx: Rx, hfloor: uint32)
    requires rx.Valid()
    ensures var parsed := ParseAck(AckWire(rx.Hsn(), rx.HeldOffsets()), hfloor);
            && (parsed.Some? <==> InFloorRange(rx.Hsn(), hfloor) && rx.Hsn() + 1 !in rx.held)
            && (parsed.Some? ==> parsed.value.hsn == rx.Hsn())
            && (parsed.Some? ==> forall s: uint32 :: parsed.value.Received(s) <==> s <= rx.Hsn() || s in rx.held)
  {
    hide AckWire, ParseAck, Ack.Received;
    AckWireRoundTrip(rx.Hsn(), rx.HeldOffsets(), hfloor);
    assert rx.OffsetHeld(0) <==> rx.Hsn() + 1 in rx.held;
    forall s: uint32 | s > rx.Hsn()
      ensures (s - rx.Hsn() - 1) as nat in rx.HeldOffsets() <==> s in rx.held
    {
      assert rx.OffsetHeld(s - rx.Hsn() - 1) <==> s in rx.held;
    }
  }

  /** Such a payload tells the truth exactly when something has been processed and
      the queue is drained. */
  lemma OffsetsTellIff(rx: Rx)
    requires rx.Valid() && !(rx.next == 0 && 0 in rx.held)
    ensures rx.Tells(rx.GenAckReduced()) <==> rx.next > 0 && rx.next !in rx.held
  {
    hide AckWire, ParseAck, Ack.Received;
    assert InFloorRange(rx.Hsn(), rx.Hsn());
    forall hfloor: uint32
      ensures var parsed := ParseAck(rx.GenAckReduced().value, hfloor);
              && (parsed.Some? <==> InFloorRange(rx.Hsn(), hfloor) && rx.Hsn() + 1 !in rx.held)
              && (parsed.Some? ==> forall s: uint32 :: parsed.value.Received(s) <==> s <= rx.Hsn() || s in rx.held)
    {
      PayloadMeaning(rx, hfloor);
    }
    if rx.next == 0 && 1 !in rx.held {
      assert !rx.Got(0);
      assert ParseAck(rx.GenAckReduced().value, 0).value.Received(0);
    }
  }

  /** With the slot difference reduced modulo 256 the acknowledgment tells the
      truth exactly when something has been processed and the queue is drained. */
  lemma ReducedAckTellsIff(rx: Rx)
    requires rx.Valid()
    ensures rx.Tells(rx.GenAckReduced()) <==> rx.next > 0 && rx.next !in rx.held
  {
    hide Rx.Tells;
    if !(rx.next == 0 && 0 in rx.held) {
      OffsetsTellIff(rx);
    } else {
      NoneTellsNothing(rx);
    }
  }

  lemma NoneTellsNothing(rx: Rx)
    requires rx.Valid()
    ensures !rx.Tells(None)
  {
  }

  /** As the code has it, a third condition is needed: no held slot index is below
      the front, since slot indices are subtracted without reducing. */
  lemma AckTellsIff(rx: Rx)
    requires rx.Valid()
    ensures rx.AckTells() <==> rx.next > 0 && rx.next !in rx.held && !rx.Wraps()
  {
    hide Rx.Tells;
    ReducedAckTellsIff(rx);
    NoneTellsNothing(rx);
  }

  lemma AckFits(rx: Rx)
    requires rx.Valid() && rx.GenAck().Some?
    ensures |rx.GenAck().value| <= SECTION_LEN
  {
    assert UsedBytes(rx.HeldOffsets()) <= WINDOW_BYTES;
  }

  // Block 256 held while 255 is awaited: the drained queue cannot be reported.
  lemma WrapAborts(b: Block)
    ensures Rx(255, map[256 := b]).Valid() && 255 !in Rx(255, map[256 := b]).held
    ensures Rx(255, map[256 := b]).GenAck() == None
  {
    assert 256 in Rx(255, map[256 := b]).held && 256 / WINDOW > 255 / WINDOW;
  }

  // Block 2 held, nothing processed: the payload is accepted and claims block 0.
  lemma EarlyAckClaimsZero(b: Block)
    ensures Rx(0, map[2 := b]).Valid() && !Rx(0, map[2 := b]).Got(0)
    ensures var ack := Rx(0, map[2 := b]).GenAck();
            ack.Some? && ParseAck(ack.value, 0).Some? && ParseAck(ack.value, 0).value.Received(0)
  {
    var rx := Rx(0, map[2 := b]);
    AckWireRoundTrip(0, rx.HeldOffsets(), 0);
  }

  // ----- Runs of the queue -----

  datatype RxOp = Put(s: uint32, b: Block) | Take

  // The blocks that came out, and those that went in without being refused.
  datatype RxRun = RxRun(rx: Rx, out: seq<(nat, Block)>, stored: seq<(nat, Block)>)

  function QueueStep(r: RxRun, op: RxOp): RxRun {
    match op
    case Put(s, b) =>
      RxRun(r.rx.Insert(s, b), r.out, if r.rx.Accepts(s) then r.stored + [(s as nat, b)] else r.stored)
    case Take =>
      RxRun(r.rx.RemoveNext(),
            if r.rx.next in r.rx.held then r.out + [(r.rx.next, r.rx.held[r.rx.next])] else r.out, r.stored)
  }

  function QueueRun(ops: seq<RxOp>): RxRun {
    if ops == [] then RxRun(Rx(0, map[]), [], []) else QueueStep(QueueRun(ops[..|ops| - 1]), ops[|ops| - 1])
  }

  ghost predicate InOrder(r: RxRun) {
    && |r.out| == r.rx.next
    && (forall i :: 0 <= i < |r.out| ==> r.out[i].0 == i && r.out[i] in r.stored)
    && (forall s :: s in r.rx.held ==> s >= r.rx.next && (s, r.rx.held[s]) in r.stored)
    && (forall j :: 0 <= j < |r.stored| ==> r.rx.Got(r.stored[j].0))
    && (forall i, j :: 0 <= i < j < |r.stored| ==> r.stored[i].0 != r.stored[j].0)
  }

  /** Blocks come out exactly once, in strictly increasing order from zero, each
      with the opcode and data that went in under its number; no number goes in
      twice, and whatever went in has come out or is still held. */
  lemma {:induction false} ReassemblyInOrder(ops: seq<RxOp>)
    ensures InOrder(QueueRun(ops))
    decreases |ops|
  {
    if ops != [] {
      ReassemblyInOrder(ops[..|ops| - 1]);
      InOrderStep(QueueRun(ops[..|ops| - 1]), ops[|ops| - 1]);
    }
  }

  lemma InOrderStep(r: RxRun, op: RxOp)
    requires InOrder(r)
    ensures InOrder(QueueStep(r, op))
  {
    var q := QueueStep(r, op);
    forall e | e in r.stored
      ensures e in q.stored
    {
      var i :| 0 <= i < |r.stored| && r.stored[i] == e;
      assert q.stored[i] == e;
    }
    if op.Put? && r.rx.Accepts(op.s) {
      assert q.stored[|r.stored|] == (op.s as nat, op.b);
    }
  }

  // ----- The ring -----

  datatype ReassemblyElt = ReassemblyElt(data: Option<seq<byte>>, op: byte)

  // The map that ring contents stand for, and the occupied slots.
  ghost function SlotMap(slots: seq<ReassemblyElt>, low: nat): map<nat, Block>
    requires |slots| == WINDOW
  {
    map s: nat | low <= s < low + WINDOW && slots[s % WINDOW].data.Some? ::
      Block(slots[s % WINDOW].op, slots[s % WINDOW].data.value)
  }

  ghost function OccupiedSlots(slots: seq<ReassemblyElt>): set<int> {
    set j | 0 <= j < |slots| && slots[j].data.Some?
  }

  lemma StoreInSlot(slots: seq<ReassemblyElt>, low: nat, s: nat, op: byte, data: seq<byte>)
    requires |slots| == WINDOW && low <= s < low + WINDOW && slots[s % WINDOW].data == None
    ensures var stored := slots[s % WINDOW := ReassemblyElt(Some(data), op)];
            SlotMap(stored, low) == SlotMap(slots, low)[s := Block(op, data)] &&
            |OccupiedSlots(stored)| == |OccupiedSlots(slots)| + 1 <= WINDOW
  {
    var stored := slots[s % WINDOW := ReassemblyElt(Some(data), op)];
    assert OccupiedSlots(stored) == OccupiedSlots(slots) + {s % WINDOW};
    SetBound(OccupiedSlots(stored), WINDOW);
    forall t: nat | low <= t < low + WINDOW && t % WINDOW == s % WINDOW
      ensures t == s
    {
      SlotInjective(low, s, t);
    }
  }

  lemma ClearFront(slots: seq<ReassemblyElt>, low: nat)
    requires |slots| == WINDOW && slots[low % WINDOW].data.Some?
    ensures var cleared := slots[low % WINDOW := ReassemblyElt(None, OP_DAT)];
            SlotMap(cleared, low + 1) == SlotMap(slots, low) - {low} &&
            |OccupiedSlots(cleared)| == |OccupiedSlots(slots)| - 1
  {
    var cleared := slots[low % WINDOW := ReassemblyElt(None, OP_DAT)];
    assert low % WINDOW in OccupiedSlots(slots);
    assert OccupiedSlots(cleared) == OccupiedSlots(slots) - {low % WINDOW};
    assert (low + WINDOW) % WINDOW == low % WINDOW;
    forall t: nat | low < t < low + WINDOW
      ensures cleared[t % WINDOW] == slots[t % WINDOW]
    {
      if t % WINDOW == low % WINDOW {
        SlotInjective(low, t, low);
      }
    }
  }

  lemma EmptySlots(slots: seq<ReassemblyElt>, low: nat)
    requires |slots| == WINDOW
    ensures |OccupiedSlots(slots)| == 0 <==> SlotMap(slots, low) == map[]
  {
    if OccupiedSlots(slots) != {} {
      var j :| j in OccupiedSlots(slots);
      assert SlotNumber(low, j) in SlotMap(slots, low);
    } else {
      forall s: nat | low <= s < low + WINDOW
        ensures slots[s % WINDOW].data == None
      {
        assert s % WINDOW !in OccupiedSlots(slots);
      }
    }
  }

  class ReassemblyQueue {
    const cbuf: array<ReassemblyElt>
    var nextToProcess: uint32
    var count: uint32

    ghost predicate Valid()
      reads this, cbuf
    {
      cbuf.Length == WINDOW && nextToProcess <= UINT32_SPAN - WINDOW && count == |OccupiedSlots(cbuf[..])|
    }

    ghost function Abs(): (rx: Rx)
      reads this, cbuf
      requires Valid()
      ensures rx.Valid() && rx.next == nextToProcess
    {
      Rx(nextToProcess, SlotMap(cbuf[..], nextToProcess))
    }

    constructor ()
      ensures Valid() && fresh(cbuf)
      ensures Abs() == Rx(0, map[])
    {
      cbuf := new ReassemblyElt[WINDOW](_ => ReassemblyElt(None, OP_XXX));
      nextToProcess, count := 0, 0;
      new;
      assert OccupiedSlots(cbuf[..]) == {};
    }

    method Window() returns (low: uint32)
      requires Valid()
      ensures low == Abs().next
    {
      low := nextToProcess;
    }

    // The counter agrees with the slots, so it tells emptiness.
    method Empty() returns (empty: bool)
      requires Valid()
      ensures empty <==> Abs().held == map[]
    {
      empty := count == 0;
      EmptySlots(cbuf[..], nextToProcess);
    }

    method RemoveNext() returns (blk: Option<Block>)
      requires Valid() && (Abs().next in Abs().held ==> nextToProcess < UINT32_SPAN - WINDOW)
      modifies this, cbuf
      ensures Valid()
      ensures Abs() == old(Abs()).RemoveNext()
      ensures blk == if old(Abs()).next in old(Abs()).held then Some(old(Abs()).held[old(Abs()).next]) else None
    {
      var front := nextToProcess % WINDOW;
      blk := None;
      if cbuf[front].data.Some? {
        ClearFront(cbuf[..], nextToProcess);
        blk := Some(Block(cbuf[front].op, cbuf[front].data.value));
        cbuf[front] := ReassemblyElt(None, OP_DAT);
        nextToProcess := nextToProcess + 1;
        count := count - 1;
        assert cbuf[..] == old(cbuf[..])[front as int := ReassemblyElt(None, OP_DAT)];
      }
    }

    // Refuses numbers outside the window and duplicates, changing nothing.
    method Insert(seqno: uint32, op: byte, data: seq<byte>) returns (ok: bool)
      requires Valid()
      modifies this`count, cbuf
      ensures Valid()
      ensures ok <==> old(Abs()).Accepts(seqno)
      ensures Abs() == old(Abs()).Insert(seqno, Block(op, data))
    {
      var delta := Wrap32(seqno - nextToProcess);
      if delta > 255 {
        return false;
      }
      var front := nextToProcess % WINDOW;
      var pos: byte := (front + delta) % WINDOW;
      SlotOfDelta(nextToProcess, seqno);
      ok := Store(pos, seqno, op, data);
    }

    // Into the number's own slot, unless it is taken.
    method Store(pos: byte, seqno: uint32, op: byte, data: seq<byte>) returns (ok: bool)
      requires Valid() && nextToProcess <= seqno < nextToProcess + WINDOW && pos == seqno % WINDOW
      modifies this`count, cbuf
      ensures Valid()
      ensures ok <==> old(Abs()).Accepts(seqno)
      ensures Abs() == old(Abs()).Insert(seqno, Block(op, data))
    {
      if cbuf[pos].data.Some? {
        return false;
      }
      StoreInSlot(cbuf[..], nextToProcess, seqno, op, data);
      cbuf[pos] := ReassemblyElt(Some(data), op);
      count := count + 1;
      assert cbuf[..] == old(cbuf[..])[pos as int := ReassemblyElt(Some(data), op)];
      ok := true;
    }

    method GenAck() returns (wire: Option<seq<byte>>)
      requires Valid()
      ensures wire == Abs().GenAck()
    {
      ghost var rx := Abs();
      SlotsMatch();
      wire := ScanSlots(cbuf[..], nextToProcess, rx);
    }

    lemma SlotsMatch()
      requires Valid()
      ensures MatchesSlots(Abs(), cbuf[..])
    {
      forall n: nat | n < WINDOW
        ensures SlotMatches(Abs(), cbuf[..], n)
      {
      }
    }
  }

  // A number up to 255 past the front has its slot as far past the front's.
  lemma SlotOfDelta(next: uint32, seqno: uint32)
    requires next <= UINT32_SPAN - WINDOW && Wrap32(seqno - next) <= 255
    ensures next <= seqno < next + WINDOW && (next % WINDOW + Wrap32(seqno - next)) % WINDOW == seqno % WINDOW
  {
  }

  ghost predicate SlotMatches(rx: Rx, slots: seq<ReassemblyElt>, n: nat)
    requires |slots| == WINDOW
  {
    slots[(rx.next + n) % WINDOW].data.Some? <==> rx.next + n in rx.held
  }

  ghost predicate MatchesSlots(rx: Rx, slots: seq<ReassemblyElt>) {
    |slots| == WINDOW && forall n: nat :: n < WINDOW ==> SlotMatches(rx, slots, n)
  }

  // The acknowledgment loop: once around the ring, starting at the front slot.
  method ScanSlots(slots: seq<ReassemblyElt>, low: uint32, ghost rx: Rx) returns (wire: Option<seq<byte>>)
    requires rx.Valid() && rx.next == low && MatchesSlots(rx, slots)
    ensures wire == rx.GenAck()
  {
    var payload := new AckPayload(if low == 0 then 0 else low - 1);
    var front := low % WINDOW;
    var pos := front;
    var again := true;
    ghost var n: nat := 0;
    AckStart(rx);
    while again
      invariant n <= WINDOW && pos == (front + n) % WINDOW && again == (n < WINDOW)
      invariant fresh(payload) && fresh(payload.window) && Reports(payload, rx, n)
      decreases WINDOW - n
    {
      NextSlot(low, n);
      assert SlotMatches(rx, slots, n);
      var ok := AckSlot(payload, low, pos, slots[pos].data.Some?, rx, n);
      if !ok {
        return None;
      }
      pos := (pos + 1) % WINDOW;
      again := pos != front;
      n := n + 1;
    }
    AckDone(rx);
    var bytes := payload.Serialize();
    wire := Some(bytes);
  }

  lemma NextSlot(low: nat, n: nat)
    requires n < WINDOW
    ensures (low % WINDOW + n) % WINDOW == (low + n) % WINDOW
    ensures ((low % WINDOW + n) % WINDOW + 1) % WINDOW == (low % WINDOW + (n + 1)) % WINDOW
    ensures (low % WINDOW + (n + 1)) % WINDOW == low % WINDOW <==> n + 1 == WINDOW
  {
  }

  // The body of the acknowledgment loop, n slots past the front.
  method AckSlot(payload: AckPayload, low: uint32, pos: byte, occupied: bool, ghost rx: Rx, ghost n: nat) returns (ok: bool)
    requires rx.Valid() && rx.next == low && n < WINDOW && pos == (low + n) % WINDOW
    requires occupied <==> low + n in rx.held
    requires Reports(payload, rx, n)
    modifies payload`maxUsedByte, payload.window
    ensures ok ==> Reports(payload, rx, n + 1)
    ensures !ok ==> rx.GenAck() == None
  {
    hide NoneBelow, OffsetsBelow, UsedBytes, Rx.GenAck, AckPayload.Offsets;
    ok := true;
    if occupied {
      ok := AckHeld(payload, Claimed(low, pos), rx, n);
    } else {
      AckVacant(rx, n);
    }
  }

  // The number the code computes for a slot: indices subtracted, not reduced.
  function Claimed(low: uint32, pos: byte): uint32 {
    Wrap32(low + (pos - low % WINDOW))
  }

  method AckHeld(payload: AckPayload, claimed: uint32, ghost rx: Rx, ghost n: nat) returns (ok: bool)
    requires rx.Valid() && n < WINDOW && rx.next + n in rx.held && claimed == Claimed(rx.next, (rx.next + n) % WINDOW)
    requires Reports(payload, rx, n)
    modifies payload`maxUsedByte, payload.window
    ensures ok ==> Reports(payload, rx, n + 1)
    ensures !ok ==> rx.GenAck() == None
  {
    hide NoneBelow, OffsetsBelow, UsedBytes, Rx.GenAck, AckPayload.Offsets, Claimed;
    AckOccupied(rx, n, claimed);
    ok := payload.SetBlockReceived(claimed);
  }

  // The payload so far reports the first n slots from the front.
  ghost predicate Reports(payload: AckPayload, rx: Rx, n: nat)
    reads payload, payload.window
  {
    payload.Valid() && payload.hsn == rx.Hsn() && NoneBelow(rx, n) &&
    payload.Offsets() == OffsetsBelow(rx, n) && payload.maxUsedByte == UsedBytes(payload.Offsets())
  }

  // The number of the window at low that falls on slot j.
  function SlotNumber(low: nat, j: int): (s: nat)
    requires 0 <= j < WINDOW
    ensures low <= s < low + WINDOW && s % WINDOW == j
  {
    low + (j - low) % WINDOW
  }

  lemma {:induction false} SetBound(s: set<int>, n: nat)
    requires forall j :: j in s ==> 0 <= j < n
    ensures |s| <= n
    decreases n
  {
    if n == 0 {
      assert forall j :: j !in s;
    } else {
      SetBound(s - {n - 1}, n - 1);
    }
  }

  // ----- The acknowledgment loop, n slots past the front -----

  ghost predicate NoneBelow(rx: Rx, n: nat) {
    forall s :: s in rx.held && s < rx.next + n ==> s / WINDOW == rx.next / WINDOW && (rx.next == 0 ==> s != 0)
  }

  ghost function OffsetsBelow(rx: Rx, n: nat): set<nat> {
    set d | d in rx.HeldOffsets() && rx.Hsn() + 1 + d < rx.next + n
  }

  // At an occupied slot the bit index is in range unless the ring has wrapped
  // or block 0 is held before anything was processed.
  lemma AckStep(rx: Rx, n: nat, claimed: uint32)
    requires rx.Valid() && n < WINDOW && rx.next + n in rx.held && NoneBelow(rx, n)
    requires claimed == Claimed(rx.next, (rx.next + n) % WINDOW)
    ensures Wrap32(claimed - rx.Hsn() - 1) < 256 <==> NoneBelow(rx, n + 1)
    ensures Wrap32(claimed - rx.Hsn() - 1) < 256 ==>
              Wrap32(claimed - rx.Hsn() - 1) == rx.next + n - rx.Hsn() - 1
    ensures !NoneBelow(rx, n + 1) ==> rx.GenAck() == None
  {
    var s := rx.next + n;
    if s / WINDOW == rx.next / WINDOW {
      assert claimed == s;
    } else {
      assert s / WINDOW == rx.next / WINDOW + 1;
      assert claimed == s - WINDOW;
      assert rx.Wraps();
    }
  }

  lemma AckOccupied(rx: Rx, n: nat, claimed: uint32)
    requires rx.Valid() && n < WINDOW && rx.next + n in rx.held && NoneBelow(rx, n)
    requires claimed == Claimed(rx.next, (rx.next + n) % WINDOW)
    ensures var delta := Wrap32(claimed - rx.Hsn() - 1);
            if delta < 256 then
              NoneBelow(rx, n + 1) && OffsetsBelow(rx, n + 1) == OffsetsBelow(rx, n) + {delta as nat} &&
              UsedBytes(OffsetsBelow(rx, n + 1)) == Max(UsedBytes(OffsetsBelow(rx, n)), delta / 8 + 1)
            else rx.GenAck() == None
  {
    AckStep(rx, n, claimed);
    var delta := Wrap32(claimed - rx.Hsn() - 1);
    if delta < 256 {
      assert OffsetsBelow(rx, n + 1) == OffsetsBelow(rx, n) + {delta as nat};
      UsedBytesAdds(OffsetsBelow(rx, n), delta);
    }
  }

  lemma AckVacant(rx: Rx, n: nat)
    requires rx.Valid() && rx.next + n !in rx.held && NoneBelow(rx, n)
    ensures NoneBelow(rx, n + 1) && OffsetsBelow(rx, n + 1) == OffsetsBelow(rx, n)
  {
  }

  lemma AckStart(rx: Rx)
    requires rx.Valid()
    ensures NoneBelow(rx, 0) && OffsetsBelow(rx, 0) == {} && UsedBytes({}) == 0
  {
  }

  lemma AckDone(rx: Rx)
    requires rx.Valid() && NoneBelow(rx, WINDOW)
    ensures rx.GenAck() == Some(AckWire(rx.Hsn(), OffsetsBelow(rx, WINDOW)))
  {
    assert OffsetsBelow(rx, WINDOW) == rx.HeldOffsets();
  }

  lemma UsedBytesAdds(offsets: set<nat>, d: nat)
    ensures UsedBytes(offsets + {d}) == Max(UsedBytes(offsets), d / 8 + 1)
  {
    var all := offsets + {d};
    assert d in all && forall x :: x in offsets ==> x in all;
  }
}
