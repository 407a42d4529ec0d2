/** The expansion step of HKDF (section 2.3 of RFC 5869), produced piece by
    piece. HMAC with the extracted key is an uninterpreted function. */
module Hkdf {
  import opened Words

  const HASH_LEN := 32
  const MAX_BLOCKS := 255

  // The most that can ever be produced, and the position past which the last
  // block has been started.
  const MAX_OUTPUT := MAX_BLOCKS * HASH_LEN
  const LAST_START := (MAX_BLOCKS - 1) * HASH_LEN

  // ----- The one-shot definition -----

  datatype Prf = Prf(hmac: seq<byte> -> seq<byte>, info: seq<byte>) {
    ghost predicate Valid() {
      forall x :: |hmac(x)| == HASH_LEN
    }

    function T(n: nat): (t: seq<byte>)
      requires n <= MAX_BLOCKS
    {
      if n == 0 then [] else hmac(T(n - 1) + info + [n])
    }

    // T(1) | T(2) | ... | T(n)
    function Okm(n: nat): seq<byte>
      requires n <= MAX_BLOCKS
    {
      if n == 0 then [] else Okm(n - 1) + T(n)
    }

    function All(): seq<byte> {
      Okm(MAX_BLOCKS)
    }

    lemma NextT(n: nat)
      requires 0 < n <= MAX_BLOCKS
      ensures T(n) == hmac(T(n - 1) + info + [n])
    {
    }

    lemma {:induction false} OkmLength(n: nat)
      requires Valid() && n <= MAX_BLOCKS
      ensures |Okm(n)| == HASH_LEN * n
    {
      if n > 0 {
        OkmLength(n - 1);
      }
    }

    lemma {:induction false} OkmPrefix(n: nat, m: nat)
      requires n <= m <= MAX_BLOCKS
      ensures Okm(n) <= Okm(m)
      decreases m
    {
      if n < m {
        OkmPrefix(n, m - 1);
      }
    }

    // Block n lies where the one-shot output has it.
    lemma Piece(n: nat, i: nat, j: nat)
      requires Valid() && 0 < n <= MAX_BLOCKS && i <= j <= HASH_LEN
      ensures |All()| == MAX_OUTPUT && |T(n)| == HASH_LEN
      ensures T(n)[i..j] == All()[HASH_LEN * (n - 1) + i..HASH_LEN * (n - 1) + j]
    {
      OkmLength(n - 1);
      OkmLength(n);
      OkmLength(MAX_BLOCKS);
      OkmPrefix(n, MAX_BLOCKS);
      var low := HASH_LEN * (n - 1);
      assert All()[low..low + HASH_LEN] == Okm(n)[low..] == T(n);
      SliceOfSlice(All(), low, low + HASH_LEN, i, j);
    }
  }

  // ----- How much a request yields at a position of the output -----

  function Yield(pos: nat, len: nat): nat {
    if pos > LAST_START then 0 else Min(len, MAX_OUTPUT - pos)
  }

  // memcpy and memset into part of the caller's buffer.
  method Store(buf: array<byte>, at: nat, data: seq<byte>)
    requires at + |data| <= buf.Length
    modifies buf
    ensures buf[..at] == old(buf[..at]) && buf[at..at + |data|] == data
    ensures buf[at + |data|..] == old(buf[at + |data|..])
    ensures forall i :: at <= i < at + |data| ==> buf[i] == data[i - at]
  {
    forall i | 0 <= i < |data| {
      buf[at + i] := data[i];
    }
  }

  class KeyGenerator {
    const prf: Prf
    // What HMAC has absorbed since it was last reset.
    var fed: seq<byte>
    var prevT: seq<byte>
    var counter: byte
    var leftover: nat
    var dead: bool
    // Bytes handed out so far.
    ghost var pos: nat

    ghost predicate Valid()
      reads this
    {
      prf.Valid() && pos <= MAX_OUTPUT && (dead <==> pos > LAST_START) && (!dead ==> Running())
    }

    ghost predicate Running()
      reads this
    {
      var done := counter as int - 1;
      0 <= done < MAX_BLOCKS && fed == prf.T(done) && leftover < HASH_LEN &&
      (if done == 0 then leftover == 0 else prevT == prf.T(done)) &&
      pos == HASH_LEN * done - leftover
    }

    constructor (prf: Prf)
      requires prf.Valid()
      ensures Valid() && this.prf == prf && pos == 0
    {
      this.prf := prf;
      fed, prevT, counter, leftover, dead, pos := [], [], 1, 0, false, 0;
    }

    /** Fills the buffer with the next bytes of the one-shot output, with zeros
        where it has run out, and returns how many are good. */
    method Generate(buf: array<byte>) returns (n: nat)
      requires Valid()
      modifies this, buf
      ensures Valid()
      ensures n == Yield(old(pos), buf.Length) && pos == old(pos) + n
      ensures |prf.All()| == MAX_OUTPUT && buf[..n] == prf.All()[old(pos)..old(pos) + n]
      ensures forall i :: n <= i < buf.Length ==> buf[i] == 0
    {
      hide Prf.Okm;
      var len := buf.Length;
      prf.Piece(1, 0, 0);
      if dead {
        Store(buf, 0, seq(len, _ => 0));
        return 0;
      }
      n := UseLeftover(buf);
      while n < len
        invariant Valid() && n <= len && pos == old(pos) + n
        invariant !dead && (n < len ==> leftover == 0)
        invariant buf[..n] == prf.All()[old(pos)..pos]
        decreases len - n
      {
        n := NextBlock(buf, n, old(pos));
        if dead {
          if n < len {
            Store(buf, n, seq(len - n, _ => 0));
          }
          break;
        }
      }
    }

    // First the bytes left over from the last block produced.
    method UseLeftover(buf: array<byte>) returns (n: nat)
      requires Valid() && !dead
      modifies this`leftover, this`pos, buf
      ensures Valid() && n == Min(old(leftover), buf.Length) && pos == old(pos) + n
      ensures n < buf.Length ==> leftover == 0
      ensures |prf.All()| == MAX_OUTPUT && buf[..n] == prf.All()[old(pos)..pos]
    {
      hide Prf.Okm;
      n := 0;
      prf.Piece(1, 0, 0);
      if leftover > 0 {
        n := Min(leftover, buf.Length);
        prf.Piece(counter as int - 1, HASH_LEN - leftover, HASH_LEN - leftover + n);
        Store(buf, 0, prevT[|prevT| - leftover..|prevT| - leftover + n]);
        assert buf[..n] == buf[0..n];
        leftover := leftover - n;
        pos := pos + n;
      }
    }

    // Then whole blocks, the last one perhaps in part.
    method NextBlock(buf: array<byte>, at: nat, ghost start: nat) returns (n: nat)
      requires Valid() && !dead && leftover == 0 && at < buf.Length
      requires |prf.All()| == MAX_OUTPUT && start + at == pos && buf[..at] == prf.All()[start..pos]
      modifies this, buf
      ensures Valid() && n == at + Min(HASH_LEN, buf.Length - at) && pos == start + n
      ensures !dead && n < buf.Length ==> leftover == 0
      ensures buf[..n] == prf.All()[start..pos]
    {
      hide KeyGenerator.Valid, Prf.Okm;
      var part := Min(HASH_LEN, buf.Length - at);
      Expand(part);
      Store(buf, at, prevT[..part]);
      n := at + part;
      assert buf[..n] == buf[..at] + buf[at..n];
      SliceJoin(prf.All(), start, start + at, start + n);
    }

    // Computes the next block, of which a part will be handed out now.
    method Expand(part: nat)
      requires Valid() && !dead && leftover == 0 && 0 < part <= HASH_LEN
      modifies this
      ensures Valid() && |prf.All()| == MAX_OUTPUT && |prevT| == HASH_LEN
      ensures pos == old(pos) + part <= MAX_OUTPUT && prevT[..part] == prf.All()[old(pos)..pos]
      ensures !dead ==> leftover == HASH_LEN - part
    {
      hide Prf.Okm, Prf.T;
      prf.Piece(counter, 0, part);
      prf.NextT(counter);
      prevT := prf.hmac(fed + prf.info + [counter]);
      leftover := HASH_LEN - part;
      pos := pos + part;
      counter := (counter + 1) % 256;
      if counter == 0 {
        dead := true;
      } else {
        fed := prevT;
      }
    }
  }

  // ----- Sequences of requests -----

  function Sum(lens: seq<nat>): nat {
    if lens == [] then 0 else lens[0] + Sum(lens[1..])
  }

  // What the requests yield altogether, starting at a position.
  function Total(pos: nat, lens: seq<nat>): nat
    decreases |lens|
  {
    if lens == [] then 0 else Yield(pos, lens[0]) + Total(pos + Yield(pos, lens[0]), lens[1..])
  }

  function Outputs(prf: Prf, pos: nat, lens: seq<nat>): seq<byte>
    requires prf.Valid() && pos <= MAX_OUTPUT
    decreases |lens|
  {
    if lens == [] then [] else
    prf.Piece(1, 0, 0);
    prf.All()[pos..pos + Yield(pos, lens[0])] + Outputs(prf, pos + Yield(pos, lens[0]), lens[1..])
  }

  /** However the requests are cut, the bytes returned make up the one-shot
      output from the starting position on, never more than 255 blocks. */
  lemma {:induction false} ChunksConcatenate(prf: Prf, pos: nat, lens: seq<nat>)
    requires prf.Valid() && pos <= MAX_OUTPUT
    ensures |prf.All()| == MAX_OUTPUT && pos + Total(pos, lens) <= MAX_OUTPUT
    ensures Outputs(prf, pos, lens) == prf.All()[pos..pos + Total(pos, lens)]
    decreases |lens|
  {
    prf.Piece(1, 0, 0);
    if lens != [] {
      ChunksConcatenate(prf, pos + Yield(pos, lens[0]), lens[1..]);
    }
  }

  // Some request is made after the last block was started but before all of it
  // was handed out.
  ghost predicate StrandsBytes(pos: nat, lens: seq<nat>) {
    exists i :: 0 <= i < |lens| && LAST_START < pos + Sum(lens[..i]) < MAX_OUTPUT && Sum(lens[i..]) > 0
  }

  /** Cutting a request into pieces yields as much as making it at once exactly
      when no piece falls after the last block was started: its unused bytes
      are lost. */
  lemma {:induction false} ChunkedEqualsOneShotIff(pos: nat, lens: seq<nat>)
    requires pos <= LAST_START
    ensures Total(pos, lens) == Yield(pos, Sum(lens)) <==> !StrandsBytes(pos, lens)
    decreases |lens|
  {
    if lens != [] {
      var next := pos + lens[0];
      if next <= LAST_START {
        ChunkedEqualsOneShotIff(next, lens[1..]);
        StrandsShift(pos, lens);
      } else {
        DeadYieldsNothing(pos + Yield(pos, lens[0]), lens[1..]);
        StrandsNow(pos, lens);
      }
    }
  }

  lemma {:induction false} DeadYieldsNothing(pos: nat, lens: seq<nat>)
    requires pos > LAST_START
    ensures Total(pos, lens) == 0
    decreases |lens|
  {
    if lens != [] {
      DeadYieldsNothing(pos, lens[1..]);
    }
  }

  lemma SumCut(lens: seq<nat>, i: nat)
    requires 0 < i <= |lens|
    ensures Sum(lens[..i]) == lens[0] + Sum(lens[1..][..i - 1]) && lens[i..] == lens[1..][i - 1..]
  {
    assert lens[..i][1..] == lens[1..][..i - 1];
  }

  lemma SumOfNothing()
    ensures Sum([]) == 0
  {
  }

  lemma StrandsShift(pos: nat, lens: seq<nat>)
    requires lens != [] && pos <= LAST_START && pos + lens[0] <= LAST_START
    ensures StrandsBytes(pos, lens) <==> StrandsBytes(pos + lens[0], lens[1..])
  {
    hide Sum;
    assert Sum(lens[..0]) == 0 by {
      SumOfNothing();
      assert lens[..0] == [];
    }
    if StrandsBytes(pos, lens) {
      var i :| 0 <= i < |lens| && LAST_START < pos + Sum(lens[..i]) < MAX_OUTPUT && Sum(lens[i..]) > 0;
      SumCut(lens, i);
      assert Sum(lens[1..][i - 1..]) > 0;
    }
    if StrandsBytes(pos + lens[0], lens[1..]) {
      var i :| 0 <= i < |lens[1..]| && LAST_START < pos + lens[0] + Sum(lens[1..][..i]) < MAX_OUTPUT && Sum(lens[1..][i..]) > 0;
      SumCut(lens, i + 1);
      assert Sum(lens[i + 1..]) > 0;
    }
  }

  // The first request already starts the last block.
  lemma StrandsNow(pos: nat, lens: seq<nat>)
    requires lens != [] && pos <= LAST_START && pos + lens[0] > LAST_START
    ensures StrandsBytes(pos, lens) <==> pos + lens[0] < MAX_OUTPUT && Sum(lens[1..]) > 0
  {
    if pos + lens[0] < MAX_OUTPUT && Sum(lens[1..]) > 0 {
      SumCut(lens, 1);
      assert Sum(lens[1..][..0]) == 0;
      assert LAST_START < pos + Sum(lens[..1]) < MAX_OUTPUT && Sum(lens[1..]) > 0;
    }
    if StrandsBytes(pos, lens) {
      var i :| 0 <= i < |lens| && LAST_START < pos + Sum(lens[..i]) < MAX_OUTPUT && Sum(lens[i..]) > 0;
      SumCut(lens, i);
      SumSplit(lens[1..], i - 1);
    }
  }

  lemma {:induction false} SumSplit(lens: seq<nat>, i: nat)
    requires i <= |lens|
    ensures Sum(lens) == Sum(lens[..i]) + Sum(lens[i..])
  {
    if i == 0 {
      assert lens[..0] == [] && lens[0..] == lens;
    } else {
      SumSplit(lens[1..], i - 1);
      SumCut(lens, i);
    }
  }

  // 8129 bytes, then one: the second request yields nothing.
  lemma ChunkedFallsShort()
    ensures Total(0, [8129, 1]) == 8129 && Yield(0, 8130) == 8130
  {
    assert Total(8129, [1]) == 0;
    assert [8129, 1][1..] == [1];
  }
}
