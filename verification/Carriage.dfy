/** The two layers together: what one connection carries is what arrives. */
module Carriage {
  import opened Words
  import opened Framing
  import opened TransmitQueues
  import opened ReassemblyQueues
  import opened Circuits
  import opened Protocol

  // A packet with its padding, as the transmit queue's header has it.
  function FrameOf(k: Packet, padding: uint16): Frame
    requires k.s < UINT32_SPAN && |k.data| <= SECTION_LEN
  {
    Frame(Header(k.s, |k.data|, padding, k.op, k.rcount), k.data)
  }

  // A connection carries some of the packets p put on wires, in some order,
  // however each is padded.
  datatype Carried = Carried(packet: nat, padding: uint16)

  ghost predicate Carries(p: Endpoint, load: seq<Carried>) {
    forall k :: 0 <= k < |load| ==> load[k].packet < |p.wire|
  }

  ghost function Frames(p: Endpoint, load: seq<Carried>): (frames: seq<Frame>)
    requires WireSized(p) && Carries(p, load)
    ensures |frames| == |load|
    ensures forall k :: 0 <= k < |load| ==> frames[k] == FrameOf(p.wire[load[k].packet], load[k].padding)
  {
    seq(|load|, k requires 0 <= k < |load| => FrameOf(p.wire[load[k].packet], load[k].padding))
  }

  ghost predicate WireSized(p: Endpoint) {
    forall i :: 0 <= i < |p.wire| ==>
      p.wire[i].s < SEQNO_LIMIT && |p.wire[i].data| <= SECTION_LEN && OpcodeValid(p.wire[i].op)
  }

  lemma SizesOf(p: Endpoint)
    requires Own(p)
    ensures WireSized(p)
  {
    hide FinOk, RxOk, AcksOk, NoncesDistinct, OnWire;
    forall i | 0 <= i < |p.wire|
      ensures p.wire[i].s < SEQNO_LIMIT && |p.wire[i].data| <= SECTION_LEN && OpcodeValid(p.wire[i].op)
    {
      assert Block(p.wire[i].op, p.wire[i].data) == p.sent[p.wire[i].s];
    }
  }

  // What one arrival of a carried packet does to the receiver.
  ghost function Delivered(q: Endpoint, b: Received): Endpoint
    requires q.tx.Valid()
  {
    RecvBlock(q, b.s, Block(b.op, b.data))
  }

  /** Whatever a connection carries of the peer's packets, and however its bytes
      are split into arrivals, the receive loop hands over the packets whose bytes
      have come, in the order carried and without error, and handing over each is
      an arrival of the step system. Bytes of a further packet stay pending. */
  lemma ConnectionDelivers(run: seq<World>, n: nat, p: Endpoint, q: Endpoint,
                           c: Cipher, load: seq<Carried>, arrivals: seq<Arrival>)
    requires Moment(run, n, p, q) && c.Lossless() && Carries(p, load)
    ensures WireSized(p) && q.tx.Valid()
    ensures Bytes(arrivals) <= Stream(c, Frames(p, load)) ==>
              var d := RecvAll(c, [], arrivals);
              && d.ok && |d.blocks| <= |load|
              && (forall k :: 0 <= k < |d.blocks| ==>
                    var packet := p.wire[load[k].packet];
                    && d.blocks[k] == Received(packet.s, packet.op, packet.data)
                    && Step(q, Delivered(q, d.blocks[k]), p, Arrive(load[k].packet)))
              && Bytes(arrivals) == Stream(c, Frames(p, load)[..|d.blocks|]) + d.rest
              && (|d.blocks| < |load| ==> |d.rest| < Frames(p, load)[|d.blocks|].h.TotalLen())
              && (|d.blocks| == |load| ==> d.rest == [])
  {
    MomentDirection(run, n, p, q);
    SizesOf(p);
    QueueValid(q);
    if Bytes(arrivals) <= Stream(c, Frames(p, load)) {
      FramesCut(p, c, load, arrivals);
      var d := RecvAll(c, [], arrivals);
      forall k | 0 <= k < |d.blocks|
        ensures var packet := p.wire[load[k].packet];
                d.blocks[k] == Received(packet.s, packet.op, packet.data) &&
                Step(q, Delivered(q, d.blocks[k]), p, Arrive(load[k].packet))
      {
        FrameArrives(p, q, load, d, k);
      }
    }
  }

  lemma QueueValid(q: Endpoint)
    requires Own(q)
    ensures q.tx.Valid()
  {
  }

  lemma FramesCut(p: Endpoint, c: Cipher, load: seq<Carried>, arrivals: seq<Arrival>)
    requires WireSized(p) && Carries(p, load) && c.Lossless() && Bytes(arrivals) <= Stream(c, Frames(p, load))
    ensures var d := RecvAll(c, [], arrivals); d.ok && IsCut(c, Frames(p, load), Bytes(arrivals), d)
  {
    var frames := Frames(p, load);
    assert AllValid(frames);
    assert [] + Bytes(arrivals) == Bytes(arrivals);
    NoFrameInNothing(frames);
    FragmentationIndependent(c, frames, [], arrivals);
    CutMeaning(c, frames, Bytes(arrivals));
    CutNeverFails(frames, Bytes(arrivals));
  }

  lemma NoFrameInNothing(frames: seq<Frame>)
    ensures Cut(frames, []).blocks == []
  {
  }

  lemma {:induction false} CutNeverFails(frames: seq<Frame>, buf: seq<byte>)
    ensures Cut(frames, buf).ok
  {
  }

  lemma FrameArrives(p: Endpoint, q: Endpoint, load: seq<Carried>, d: Deframed, k: nat)
    requires WireSized(p) && Carries(p, load) && q.tx.Valid()
    requires k < |d.blocks| <= |load| && d.blocks == Contents(Frames(p, load)[..|d.blocks|])
    ensures var packet := p.wire[load[k].packet];
            d.blocks[k] == Received(packet.s, packet.op, packet.data) &&
            Step(q, Delivered(q, d.blocks[k]), p, Arrive(load[k].packet))
  {
    assert d.blocks[k] == Frames(p, load)[..|d.blocks|][k].Content() == Frames(p, load)[k].Content();
  }
}
