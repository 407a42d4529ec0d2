/** What draining the reassembly queue amounts to, whoever the peer is. */
module Draining {
  import opened Words
  import opened Framing
  import opened TransmitQueues
  import opened ReassemblyQueues
  import opened Circuits

  predicate EndsStream(op: byte) {
    op == OP_FIN || op == OP_STEG_FIN
  }

  // The stream was over before the k-th of these blocks.
  ghost predicate Over(ended: bool, blocks: seq<Block>, k: nat)
    requires k <= |blocks|
  {
    ended || exists j :: 0 <= j < k && EndsStream(blocks[j].op)
  }

  // A second end, or data after the end.
  ghost predicate Offends(ended: bool, blocks: seq<Block>, k: int) {
    0 <= k < |blocks| && Over(ended, blocks, k) &&
    (EndsStream(blocks[k].op) || (blocks[k].op == OP_DAT && blocks[k].data != []))
  }

  ghost predicate AnyOffends(ended: bool, blocks: seq<Block>) {
    exists k :: Offends(ended, blocks, k)
  }

  // The first offence is data.
  ghost predicate DataOffendsFirst(ended: bool, blocks: seq<Block>) {
    exists k :: Offends(ended, blocks, k) && blocks[k].op == OP_DAT && forall j :: j < k ==> !Offends(ended, blocks, j)
  }

  // The data up to the end of the stream.
  function DataToEnd(ended: bool, blocks: seq<Block>): seq<byte>
    decreases |blocks|
  {
    if ended || blocks == [] then []
    else
      (if blocks[0].op == OP_DAT || blocks[0].op == OP_FIN then blocks[0].data else []) +
      DataToEnd(EndsStream(blocks[0].op), blocks[1..])
  }

  lemma {:induction false} NothingAfterEnd(blocks: seq<Block>)
    ensures DataToEnd(true, blocks) == []
  {
  }

  lemma OffenceShifts(ended: bool, blocks: seq<Block>, k: int)
    requires blocks != []
    ensures Offends(ended, blocks, k + 1) <==> Offends(ended || EndsStream(blocks[0].op), blocks[1..], k) || (k == -1 && Offends(ended, blocks, 0))
  {
    if 0 <= k < |blocks| - 1 {
      OverShifts(ended, blocks, k);
    }
  }

  lemma OverShifts(ended: bool, blocks: seq<Block>, k: nat)
    requires k < |blocks|
    ensures Over(ended, blocks, k + 1) <==> Over(ended || EndsStream(blocks[0].op), blocks[1..], k)
  {
    var rest := blocks[1..];
    if j :| 0 <= j < k && EndsStream(rest[j].op) {
      assert EndsStream(blocks[j + 1].op);
    }
    if j :| 0 <= j < k + 1 && EndsStream(blocks[j].op) {
      assert j > 0 ==> EndsStream(rest[j - 1].op);
    }
  }

  lemma FirstOffence(ended: bool, blocks: seq<Block>)
    requires blocks != []
    ensures AnyOffends(ended, blocks) <==>
            Offends(ended, blocks, 0) || AnyOffends(ended || EndsStream(blocks[0].op), blocks[1..])
  {
    var later, rest := ended || EndsStream(blocks[0].op), blocks[1..];
    if k :| Offends(later, rest, k) {
      OffenceShifts(ended, blocks, k);
      assert Offends(ended, blocks, k + 1);
    }
    if k :| Offends(ended, blocks, k) {
      OffenceShifts(ended, blocks, k - 1);
      assert k == 0 || Offends(later, rest, k - 1);
    }
  }

  lemma DataFirstAtOnce(ended: bool, blocks: seq<Block>)
    requires blocks != [] && Offends(ended, blocks, 0)
    ensures DataOffendsFirst(ended, blocks) <==> blocks[0].op == OP_DAT
  {
    InRange(ended, blocks);
    hide Offends;
    if blocks[0].op == OP_DAT {
      assert Offends(ended, blocks, 0) && forall j :: j < 0 ==> !Offends(ended, blocks, j);
    }
  }

  lemma DataFirstLater(ended: bool, blocks: seq<Block>)
    requires blocks != [] && !Offends(ended, blocks, 0)
    ensures DataOffendsFirst(ended, blocks) <==> DataOffendsFirst(ended || EndsStream(blocks[0].op), blocks[1..])
  {
    var later, rest := ended || EndsStream(blocks[0].op), blocks[1..];
    InRange(ended, blocks);
    InRange(later, rest);
    if k :| Offends(later, rest, k) && rest[k].op == OP_DAT && forall j :: j < k ==> !Offends(later, rest, j) {
      OffenceShifts(ended, blocks, k);
      forall j | j < k + 1
        ensures !Offends(ended, blocks, j)
      {
        OffenceShifts(ended, blocks, j - 1);
      }
      assert Offends(ended, blocks, k + 1) && blocks[k + 1] == rest[k];
    }
    if k :| Offends(ended, blocks, k) && blocks[k].op == OP_DAT && forall j :: j < k ==> !Offends(ended, blocks, j) {
      OffenceShifts(ended, blocks, k - 1);
      forall j | j < k - 1
        ensures !Offends(later, rest, j)
      {
        OffenceShifts(ended, blocks, j);
        assert !Offends(ended, blocks, j + 1);
      }
      assert Offends(later, rest, k - 1) && blocks[k] == rest[k - 1];
    }
  }

  lemma InRange(ended: bool, blocks: seq<Block>)
    ensures forall k :: Offends(ended, blocks, k) ==> 0 <= k < |blocks|
  {
  }

  ghost predicate InARow(rx: Rx, blocks: seq<Block>) {
    forall i :: 0 <= i < |blocks| ==> HeldAt(rx, i, blocks[i])
  }

  predicate HeldAt(rx: Rx, i: nat, b: Block) {
    rx.next + i in rx.held && rx.held[rx.next + i] == b
  }

  // The blocks were held one after the other from the front on, and are gone.
  ghost predicate TakenOff(rx: Rx, after: Rx, blocks: seq<Block>) {
    && after.next == rx.next + |blocks|
    && InARow(rx, blocks)
    && after.next !in rx.held
    && after.held == map s | s in rx.held && !(rx.next <= s < after.next) :: rx.held[s]
  }

  // What an end hands upstream and says, given the blocks taken off.
  ghost predicate Digested(e: Endpoint, after: Endpoint, blocks: seq<Block>, linked: bool) {
    && after.upOut == e.upOut + DataToEnd(e.receivedFin, blocks)
    && (after.receivedFin <==> Over(e.receivedFin, blocks, |blocks|))
    && after.deadCycles == (if DataToEnd(e.receivedFin, blocks) != [] then 0 else e.deadCycles)
  }

  lemma TakesOff(e: Endpoint, mid: Endpoint, after: Endpoint, rest: seq<Block>)
    requires e.rx.next in e.rx.held && mid.rx == e.rx.RemoveNext() && TakenOff(mid.rx, after.rx, rest)
    ensures TakenOff(e.rx, after.rx, [e.rx.held[e.rx.next]] + rest)
  {
    OneMoreInARow(e.rx, mid.rx, rest);
    hide InARow;
    KeptBehind(e.rx, mid.rx, after.rx);
  }

  lemma OneMoreInARow(rx: Rx, mid: Rx, rest: seq<Block>)
    requires rx.next in rx.held && mid == Rx(rx.next + 1, rx.held - {rx.next}) && InARow(mid, rest)
    ensures InARow(rx, [rx.held[rx.next]] + rest)
  {
    var blocks := [rx.held[rx.next]] + rest;
    forall i | 0 <= i < |blocks|
      ensures HeldAt(rx, i, blocks[i])
    {
      if i > 0 {
        assert HeldAt(mid, i - 1, rest[i - 1]);
      }
    }
  }

  lemma KeptBehind(rx: Rx, mid: Rx, after: Rx)
    requires mid == Rx(rx.next + 1, rx.held - {rx.next}) && mid.next <= after.next && after.next !in mid.held
    requires after.held == map s | s in mid.held && !(mid.next <= s < after.next) :: mid.held[s]
    ensures after.next !in rx.held
    ensures after.held == map s | s in rx.held && !(rx.next <= s < after.next) :: rx.held[s]
  {
  }

  lemma Digests(e: Endpoint, b: Block, wrong: bool, rest: seq<Block>, after: Endpoint, linked: bool)
    requires var mid := Consume(e, b, wrong, linked).0; Digested(mid, after, rest, linked)
    ensures Digested(e, after, [b] + rest, linked)
  {
    var blocks := [b] + rest;
    var mid := Consume(e, b, wrong, linked).0;
    ConsumeDigests(e, b, wrong, linked);
    hide Consume;
    assert blocks[1..] == rest && blocks[0] == b;
    OverShifts(e.receivedFin, blocks, |rest|);
    NothingAfterEnd(rest);
    hide Over;
    var first := if b.op == OP_DAT || b.op == OP_FIN then b.data else [];
    assert e.upOut + first + DataToEnd(mid.receivedFin, rest) == e.upOut + (first + DataToEnd(mid.receivedFin, rest));
    assert e.upOut + [] == e.upOut;
  }

  lemma ConsumeDigests(e: Endpoint, b: Block, wrong: bool, linked: bool)
    ensures var mid := Consume(e, b, wrong, linked).0;
            var first := if !e.receivedFin && (b.op == OP_DAT || b.op == OP_FIN) then b.data else [];
            && mid.upOut == e.upOut + first && mid.receivedFin == (e.receivedFin || EndsStream(b.op))
            && mid.deadCycles == if first != [] then 0 else e.deadCycles
  {
    hide SendSpecial;
    SpecialKeeps(e, linked);
    assert e.upOut + [] == e.upOut;
  }

  lemma SpecialKeeps(e: Endpoint, linked: bool)
    ensures var after := SendSpecial(e, OP_RST, [], linked);
            && after == e.(tx := after.tx, sent := after.sent, wire := after.wire)
            && after.sent == (if e.tx.Full() then e.sent else e.sent + [Block(OP_RST, [])])
  {
    hide Tx.Enqueue;
  }

  // One RST, if the first offence is data and the window is open.
  ghost predicate Protests(e: Endpoint, after: Endpoint, blocks: seq<Block>, wrong: bool) {
    after.sent == e.sent + (if !wrong && DataOffendsFirst(e.receivedFin, blocks) && !e.tx.Full() then [Block(OP_RST, [])] else [])
  }

  lemma ConsumeProtests(e: Endpoint, b: Block, wrong: bool, linked: bool)
    ensures var (mid, bad) := Consume(e, b, wrong, linked);
            var offends := e.receivedFin && (EndsStream(b.op) || (b.op == OP_DAT && b.data != []));
            var rst := offends && b.op == OP_DAT && !wrong && !e.tx.Full();
            && bad == (wrong || offends) && mid.receivedFin == (e.receivedFin || EndsStream(b.op))
            && mid.sent == (if rst then e.sent + [Block(OP_RST, [])] else e.sent)
            && (!rst ==> mid.tx == e.tx)
  {
    hide SendSpecial, Enqueue;
    SpecialKeeps(e, linked);
    FullKeeps(e, linked);
  }

  lemma FullKeeps(e: Endpoint, linked: bool)
    ensures e.tx.Full() ==> SendSpecial(e, OP_RST, [], linked) == e
  {
  }

  lemma Protested(e: Endpoint, b: Block, wrong: bool, rest: seq<Block>, after: Endpoint, linked: bool)
    requires var (mid, bad) := Consume(e, b, wrong, linked); Protests(mid, after, rest, bad)
    ensures Protests(e, after, [b] + rest, wrong)
    ensures wrong || AnyOffends(e.receivedFin, [b] + rest) <==>
            Consume(e, b, wrong, linked).1 || AnyOffends(Consume(e, b, wrong, linked).0.receivedFin, rest)
  {
    var blocks := [b] + rest;
    assert blocks[1..] == rest && blocks[0] == b;
    ConsumeProtests(e, b, wrong, linked);
    FirstOffence(e.receivedFin, blocks);
    OffendsAtOnce(e.receivedFin, blocks);
    if Offends(e.receivedFin, blocks, 0) {
      DataFirstAtOnce(e.receivedFin, blocks);
    } else {
      DataFirstLater(e.receivedFin, blocks);
    }
    hide Consume, AnyOffends, DataOffendsFirst, Offends;
    assert forall s: seq<Block> :: s + [] == s;
  }

  lemma OffendsAtOnce(ended: bool, blocks: seq<Block>)
    requires blocks != []
    ensures Offends(ended, blocks, 0) <==> ended && (EndsStream(blocks[0].op) || (blocks[0].op == OP_DAT && blocks[0].data != []))
  {
  }

  /** Draining, from whatever peer: the blocks held in a row from the front come off,
      their data up to the end of the stream goes upstream, and it is an error exactly
      if one of them is a second end or data after the end. */
  lemma {:induction false} DrainMeaning(e: Endpoint, wrong: bool, linked: bool) returns (blocks: seq<Block>)
    ensures var (after, bad) := Drain(e, wrong, linked);
            && TakenOff(e.rx, after.rx, blocks)
            && Digested(e, after, blocks, linked)
            && Protests(e, after, blocks, wrong)
            && (bad <==> wrong || AnyOffends(e.receivedFin, blocks))
    decreases |e.rx.held|
  {
    hide Consume, Digested, Protests, TakenOff, AnyOffends;
    if e.rx.next in e.rx.held {
      DrainUnfolds(e, wrong, linked);
      var off, b := e.(rx := e.rx.RemoveNext()), e.rx.held[e.rx.next];
      ConsumeKeepsRx(off, b, wrong, linked);
      var (mid, bad) := Consume(off, b, wrong, linked);
      var after := Drain(mid, bad, linked).0;
      var rest := DrainMeaning(mid, bad, linked);
      blocks := [b] + rest;
      TakesOff(e, mid, after, rest);
      Digests(off, b, wrong, rest, after, linked);
      Protested(off, b, wrong, rest, after, linked);
      SameButQueue(e, off, after, blocks, wrong, linked);
    } else {
      blocks := [];
      NothingDrained(e, wrong, linked);
    }
  }

  lemma SameButQueue(e: Endpoint, off: Endpoint, after: Endpoint, blocks: seq<Block>, wrong: bool, linked: bool)
    requires off == e.(rx := off.rx) && Digested(off, after, blocks, linked) && Protests(off, after, blocks, wrong)
    ensures Digested(e, after, blocks, linked) && Protests(e, after, blocks, wrong)
  {
  }

  lemma NothingDrained(e: Endpoint, wrong: bool, linked: bool)
    requires e.rx.next !in e.rx.held
    ensures TakenOff(e.rx, e.rx, []) && Digested(e, e, [], linked) && Protests(e, e, [], wrong) && !AnyOffends(e.receivedFin, [])
  {
    assert e.upOut + [] == e.upOut && e.sent + [] == e.sent;
  }
}
