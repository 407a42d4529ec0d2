/** The chunked-body states of the HTTP parser (section 3.6.1 of RFC 2616), a
    resumable machine fed any number of bytes at a time. */
module ChunkedBody {
  import opened Words

  const CR: byte := 13
  const LF: byte := 10
  const SEMICOLON: byte := 59
  const SPACE: byte := 32
  const HTTP_MAX_HEADER_SIZE := 80 * 1024
  const UINT64_SPAN := 0x1_0000_0000_0000_0000
  const ULLONG_MAX := UINT64_SPAN - 1

  // Beyond the last two states the parser is doing something else: a new
  // message, or the header fields of a trailer.
  datatype State =
    | ChunkSizeStart | ChunkSize | ChunkParameters | ChunkSizeAlmostDone
    | ChunkData | ChunkDataAlmostDone | ChunkDataDone
    | TrailerStart | TrailersAlmostDone | MessageComplete | TrailerField

  datatype Errno = HPE_OK | HPE_HEADER_OVERFLOW | HPE_INVALID_CHUNK_SIZE | HPE_INVALID_CONTENT_LENGTH | HPE_STRICT

  datatype Parser = Parser(state: State, contentLength: nat, nread: nat, errno: Errno) {
    ghost predicate Valid() {
      contentLength < ULLONG_MAX &&
      (state == ChunkData ==> contentLength > 0) &&
      (state == ChunkDataAlmostDone ==> contentLength == 0) &&
      (state == ChunkSizeStart && errno == HPE_OK ==> nread == 0)
    }

    predicate Running() {
      errno == HPE_OK && state != MessageComplete && state != TrailerField
    }

    function Fail(e: Errno): Parser {
      this.(errno := e)
    }
  }

  const START := Parser(ChunkSizeStart, 0, 0, HPE_OK)

  // The table spells out its first half only, so that the second is zero.
  function Unhex(ch: byte): (v: int)
    ensures -1 <= v < 16
  {
    if 48 <= ch <= 57 then ch - 48
    else if 65 <= ch <= 70 then ch - 65 + 10
    else if 97 <= ch <= 102 then ch - 97 + 10
    else if ch >= 128 then 0
    else -1
  }

  predicate ParsingHeader(s: State) {
    s != ChunkData && s != ChunkDataAlmostDone && s != ChunkDataDone
  }

  // The next size digit, in 64-bit arithmetic; none if overflow is noticed.
  function NextSize(size: nat, digit: nat): (r: Option<nat>)
    requires digit < 16
  {
    var t := (size * 16 + digit) % UINT64_SPAN;
    if t < size || t == ULLONG_MAX then None else Some(t)
  }

  // One byte in a state other than chunk data.
  function ControlByte(p: Parser, ch: byte): Parser {
    match p.state
    case ChunkSizeStart =>
      if Unhex(ch) < 0 then p.Fail(HPE_INVALID_CHUNK_SIZE)
      else p.(contentLength := Unhex(ch), state := ChunkSize)
    case ChunkSize =>
      if ch == CR then p.(state := ChunkSizeAlmostDone)
      else if Unhex(ch) < 0 then
        if ch == SEMICOLON || ch == SPACE then p.(state := ChunkParameters) else p.Fail(HPE_INVALID_CHUNK_SIZE)
      else (
        match NextSize(p.contentLength, Unhex(ch))
        case None => p.Fail(HPE_INVALID_CONTENT_LENGTH)
        case Some(t) => p.(contentLength := t)
      )
    case ChunkParameters => if ch == CR then p.(state := ChunkSizeAlmostDone) else p
    case ChunkSizeAlmostDone =>
      if ch != LF then p.Fail(HPE_STRICT)
      else p.(nread := 0, state := if p.contentLength == 0 then TrailerStart else ChunkData)
    case ChunkDataAlmostDone => if ch != CR then p.Fail(HPE_STRICT) else p.(state := ChunkDataDone)
    case ChunkDataDone => if ch != LF then p.Fail(HPE_STRICT) else p.(nread := 0, state := ChunkSizeStart)
    case TrailerStart =>
      if ch == CR then p.(state := TrailersAlmostDone)
      else if ch == LF then p.(state := MessageComplete)
      else p.(state := TrailerField)
    case TrailersAlmostDone => if ch != LF then p.Fail(HPE_STRICT) else p.(state := MessageComplete)
    case _ => p
  }

  // Header bytes are counted before they are looked at.
  function Counted(p: Parser): Parser {
    if !ParsingHeader(p.state) then p
    else if p.nread + 1 > HTTP_MAX_HEADER_SIZE then p.(nread := p.nread + 1, errno := HPE_HEADER_OVERFLOW)
    else p.(nread := p.nread + 1)
  }

  function TakeData(p: Parser, n: nat): Parser
    requires n <= p.contentLength
  {
    p.(contentLength := p.contentLength - n, state := if p.contentLength == n then ChunkDataAlmostDone else p.state)
  }

  // ----- The reference: one byte at a time -----

  datatype Fed = Fed(p: Parser, body: seq<byte>)

  function FeedByte(p: Parser, ch: byte): Fed
    requires p.Valid()
  {
    if !p.Running() then Fed(p, [])
    else if p.state == ChunkData then Fed(TakeData(p, 1), [ch])
    else Fed(ControlNext(p, ch), [])
  }

  function ControlNext(p: Parser, ch: byte): Parser {
    var q := Counted(p);
    if q.errno == HPE_OK then ControlByte(q, ch) else q
  }

  lemma FeedByteValid(p: Parser, ch: byte)
    requires p.Valid()
    ensures FeedByte(p, ch).p.Valid()
  {
  }

  function Feed(p: Parser, data: seq<byte>): (f: Fed)
    requires p.Valid()
    ensures f.p.Valid()
    decreases |data|
  {
    if data == [] then Fed(p, []) else
    var first := FeedByte(p, data[0]);
    FeedByteValid(p, data[0]);
    var rest := Feed(first.p, data[1..]);
    Fed(rest.p, first.body + rest.body)
  }

  lemma {:induction false} FeedConcat(p: Parser, a: seq<byte>, b: seq<byte>)
    requires p.Valid()
    ensures Feed(p, a + b) == Fed(Feed(Feed(p, a).p, b).p, Feed(p, a).body + Feed(Feed(p, a).p, b).body)
    decreases |a|
  {
    hide FeedByte;
    if a == [] {
      assert a + b == b;
    } else {
      assert (a + b)[1..] == a[1..] + b;
      FeedByteValid(p, a[0]);
      FeedConcat(FeedByte(p, a[0]).p, a[1..], b);
    }
  }

  // A stretch of chunk data at once.
  lemma {:induction false} FeedData(p: Parser, data: seq<byte>)
    requires p.Valid() && p.Running() && p.state == ChunkData && 0 < |data| <= p.contentLength
    ensures Feed(p, data) == Fed(TakeData(p, |data|), data)
    decreases |data|
  {
    assert data == [data[0]] + data[1..];
    if |data| > 1 {
      FeedData(TakeData(p, 1), data[1..]);
    }
  }

  lemma {:induction false} FeedStopped(p: Parser, data: seq<byte>)
    requires p.Valid() && !p.Running()
    ensures Feed(p, data) == Fed(p, [])
  {
    if data != [] {
      FeedStopped(p, data[1..]);
    }
  }

  lemma FeedNothing(p: Parser)
    requires p.Valid()
    ensures Feed(p, []) == Fed(p, [])
  {
  }

  lemma FeedTwo(p: Parser, a: byte, b: byte, q: Parser, r: Parser)
    requires p.Valid() && FeedByte(p, a) == Fed(q, []) && q.Valid() && FeedByte(q, b) == Fed(r, [])
    ensures Feed(p, [a, b]) == Fed(r, [])
  {
    hide FeedByte;
    FeedNothing(p);
    FeedSnoc(p, [], a);
    FeedSnoc(p, [a], b);
    assert [] + [a] == [a] && [a] + [b] == [a, b];
  }

  lemma FeedSnoc(p: Parser, data: seq<byte>, ch: byte)
    requires p.Valid()
    ensures Feed(p, data + [ch]) ==
            Fed(FeedByte(Feed(p, data).p, ch).p, Feed(p, data).body + FeedByte(Feed(p, data).p, ch).body)
  {
    hide FeedByte;
    FeedConcat(p, data, [ch]);
    var q := Feed(p, data).p;
    FeedByteValid(q, ch);
    assert Feed(q, [ch]) == Fed(FeedByte(q, ch).p, FeedByte(q, ch).body + []);
  }

  // ----- What one call hands over -----

  // Chunk data is marked as it is passed over and handed to on_body when the byte
  // after the chunk is read.
  datatype Held = Held(p: Parser, given: seq<byte>, marked: seq<byte>) {
    ghost predicate Valid() {
      p.Valid() && (marked != [] && p.errno == HPE_OK ==> p.state == ChunkData || p.state == ChunkDataAlmostDone)
    }
  }

  function HoldByte(h: Held, ch: byte): Held
    requires h.Valid()
  {
    if !h.p.Running() then h
    else if h.p.state == ChunkData then h.(p := TakeData(h.p, 1), marked := h.marked + [ch])
    else HoldControl(h, ControlNext(h.p, ch))
  }

  function HoldControl(h: Held, q: Parser): Held {
    if q.errno == HPE_OK && h.p.state == ChunkDataAlmostDone then Held(q, h.given + h.marked, []) else h.(p := q)
  }

  lemma HoldByteFeeds(h: Held, ch: byte)
    requires h.Valid()
    ensures var g := HoldByte(h, ch);
            && g.Valid() && g.p == FeedByte(h.p, ch).p
            && g.given + g.marked == h.given + h.marked + FeedByte(h.p, ch).body
  {
    FeedByteValid(h.p, ch);
  }

  function Hold(h: Held, data: seq<byte>): (g: Held)
    requires h.Valid()
    ensures g.Valid()
    decreases |data|
  {
    if data == [] then h else
    HoldByteFeeds(h, data[0]);
    Hold(HoldByte(h, data[0]), data[1..])
  }

  // What is still marked is handed over at the end of the buffer, not on an error.
  function GivenBy(p: Parser, data: seq<byte>): seq<byte>
    requires p.Valid()
  {
    var h := Hold(Held(p, [], []), data);
    if h.p.errno == HPE_OK then h.given + h.marked else h.given
  }

  function DroppedBy(p: Parser, data: seq<byte>): seq<byte>
    requires p.Valid()
  {
    var h := Hold(Held(p, [], []), data);
    if h.p.errno == HPE_OK then [] else h.marked
  }

  // The bytewise body is marked before it is given.
  lemma {:induction false} HoldFeeds(h: Held, data: seq<byte>)
    requires h.Valid()
    ensures var g := Hold(h, data);
            && g.p == Feed(h.p, data).p
            && g.given + g.marked == h.given + h.marked + Feed(h.p, data).body
    decreases |data|
  {
    hide HoldByte, FeedByte;
    if data != [] {
      HoldByteFeeds(h, data[0]);
      HoldFeeds(HoldByte(h, data[0]), data[1..]);
    }
  }

  lemma GivenAndDropped(p: Parser, data: seq<byte>)
    requires p.Valid()
    ensures GivenBy(p, data) + DroppedBy(p, data) == Feed(p, data).body
    ensures Feed(p, data).p.errno == HPE_OK ==> DroppedBy(p, data) == []
  {
    hide Feed, Hold;
    HoldFeeds(Held(p, [], []), data);
  }

  lemma {:induction false} HoldConcat(h: Held, a: seq<byte>, b: seq<byte>)
    requires h.Valid()
    ensures Hold(h, a + b) == Hold(Hold(h, a), b)
    decreases |a|
  {
    hide HoldByte;
    if a == [] {
      assert a + b == b;
    } else {
      assert (a + b)[1..] == a[1..] + b;
      HoldByteFeeds(h, a[0]);
      HoldConcat(HoldByte(h, a[0]), a[1..], b);
    }
  }

  lemma HoldNothing(h: Held)
    requires h.Valid()
    ensures Hold(h, []) == h
  {
  }

  lemma HoldSnoc(h: Held, data: seq<byte>, ch: byte)
    requires h.Valid()
    ensures Hold(h, data + [ch]) == HoldByte(Hold(h, data), ch)
  {
    hide HoldByte;
    HoldConcat(h, data, [ch]);
    HoldByteFeeds(Hold(h, data), ch);
    HoldNothing(HoldByte(Hold(h, data), ch));
    assert [ch][1..] == [];
  }

  lemma {:induction false} HoldStopped(h: Held, data: seq<byte>)
    requires h.Valid() && !h.p.Running()
    ensures Hold(h, data) == h
  {
    if data != [] {
      HoldStopped(h, data[1..]);
    }
  }

  // A stretch of chunk data at once.
  lemma {:induction false} HoldData(h: Held, data: seq<byte>)
    requires h.Valid() && h.p.Running() && h.p.state == ChunkData && 0 < |data| <= h.p.contentLength
    ensures Hold(h, data) == h.(p := TakeData(h.p, |data|), marked := h.marked + data)
    decreases |data|
  {
    assert data == [data[0]] + data[1..];
    var g := h.(p := TakeData(h.p, 1), marked := h.marked + [data[0]]);
    assert HoldByte(h, data[0]) == g;
    if |data| == 1 {
      HoldNothing(g);
    } else {
      HoldData(g, data[1..]);
      assert h.marked + [data[0]] + data[1..] == h.marked + data;
    }
  }

  // ----- The parser object -----

  class HttpParser {
    var p: Parser
    // The arguments of the on_body calls.
    var bodyCalls: seq<seq<byte>>

    ghost predicate Valid()
      reads this
    {
      p.Valid()
    }

    constructor ()
      ensures Valid() && p == START && bodyCalls == []
    {
      p, bodyCalls := START, [];
    }

    // on_body for the marked bytes, if any.
    method CallbackBody(data: seq<byte>, mark: Option<nat>, end: nat)
      requires mark.Some? ==> mark.value <= end <= |data|
      modifies this`bodyCalls
      ensures Flatten(bodyCalls) == Flatten(old(bodyCalls)) + Since(data, mark, end)
    {
      if mark.Some? {
        FlattenSnoc(bodyCalls, data[mark.value..end]);
        bodyCalls := bodyCalls + [data[mark.value..end]];
      }
    }

    /** One call on a nonempty buffer: the state is that of taking the bytes one by
        one, and so is the body unless there is an error. After an error the bytes
        still marked are not handed over. */
    method Execute(data: seq<byte>)
      requires Valid() && data != []
      modifies this
      ensures Valid()
      ensures p == Feed(old(p), data).p
      ensures Flatten(bodyCalls) == Flatten(old(bodyCalls)) + GivenBy(old(p), data)
      ensures p.errno == HPE_OK ==> Flatten(bodyCalls) == Flatten(old(bodyCalls)) + Feed(old(p), data).body
    {
      hide Hold, Feed, ControlNext, Flatten, TakeData, Tracks, Since, GivenBy;
      ghost var before := Flatten(bodyCalls);
      ghost var start := Held(p, [], []);
      if p.errno != HPE_OK {
        HoldStopped(start, data);
        CallMeans(start, data, p, [], []);
        return;
      }
      var i := 0;
      var mark: Option<nat> := None;
      ghost var given: seq<byte> := [];
      TracksStart(start, data);
      while i < |data| && p.Running()
        invariant Valid() && p.errno == HPE_OK && i <= |data|
        invariant mark.Some? ==> mark.value <= i && (i < |data| ==> p.state == ChunkDataAlmostDone)
        invariant Tracks(start, data, i, p, mark, given)
        invariant Flatten(bodyCalls) == before + given
        decreases |data| - i
      {
        if p.state == ChunkData {
          var toRead := Min(p.contentLength, |data| - i);
          DataRound(start, data, i, p, given, toRead);
          mark := Some(i);
          p := TakeData(p, toRead);
          i := i + toRead;
        } else {
          var was := p.state;
          ControlRound(start, data, i, p, mark, given);
          p := ControlNext(p, data[i]);
          if p.errno != HPE_OK {
            CallMeans(start, data, p, given, Since(data, mark, i));
            return;
          }
          if was == ChunkDataAlmostDone {
            assert before + given + Since(data, mark, i) == before + (given + Since(data, mark, i));
            given := given + Since(data, mark, i);
            CallbackBody(data, mark, i);
            mark := None;
          }
          i := i + 1;
        }
      }
      Rest(start, data, i, p, mark, given);
      CallMeans(start, data, p, given, Since(data, mark, i));
      assert before + given + Since(data, mark, i) == before + (given + Since(data, mark, i));
      CallbackBody(data, mark, i);
    }

    /** Successive calls end in the state of a single one and, unless there is an
        error, hand over the same body. */
    method ExecuteAll(pieces: seq<seq<byte>>)
      requires Valid() && Buffers(pieces)
      modifies this
      ensures Valid()
      ensures p == Feed(old(p), Flatten(pieces)).p
      ensures Flatten(bodyCalls) == Flatten(old(bodyCalls)) + GivenCalls(old(p), pieces)
      ensures p.errno == HPE_OK ==> Flatten(bodyCalls) == Flatten(old(bodyCalls)) + GivenBy(old(p), Flatten(pieces))
    {
      hide Flatten, Feed, GivenBy, DroppedBy;
      ghost var before := Flatten(bodyCalls);
      SplitInvariant(p, pieces);
      GivenAndDropped(p, Flatten(pieces));
      var k := 0;
      while k < |pieces|
        invariant Valid() && k <= |pieces|
        invariant CallsState(old(p), pieces) == CallsState(p, pieces[k..])
        invariant before + GivenCalls(old(p), pieces) == Flatten(bodyCalls) + GivenCalls(p, pieces[k..])
      {
        assert pieces[k..][1..] == pieces[k + 1..];
        Execute(pieces[k]);
        k := k + 1;
      }
    }
  }

  function Since(data: seq<byte>, mark: Option<nat>, i: nat): seq<byte>
    requires mark.Some? ==> mark.value <= i <= |data|
  {
    if mark.Some? then data[mark.value..i] else []
  }

  lemma CallMeans(start: Held, data: seq<byte>, p: Parser, given: seq<byte>, marked: seq<byte>)
    requires start.Valid() && start.given == [] && start.marked == [] && Hold(start, data) == Held(p, given, marked)
    ensures Feed(start.p, data).p == p
    ensures GivenBy(start.p, data) == if p.errno == HPE_OK then given + marked else given
    ensures p.errno == HPE_OK ==> given + marked == Feed(start.p, data).body
  {
    hide Hold, Feed;
    HoldFeeds(start, data);
    GivenAndDropped(start.p, data);
  }

  // The loop has come to byte i, having handed over this much.
  ghost predicate Tracks(start: Held, data: seq<byte>, i: nat, p: Parser, mark: Option<nat>, given: seq<byte>)
    requires start.Valid()
  {
    && i <= |data| && (mark.Some? ==> mark.value <= i)
    && Hold(start, data[..i]) == Held(p, given, Since(data, mark, i))
  }

  lemma TracksStart(start: Held, data: seq<byte>)
    requires start.Valid() && start.given == [] && start.marked == []
    ensures Tracks(start, data, 0, start.p, None, [])
  {
    HoldNothing(start);
    assert data[..0] == [];
  }

  lemma DataRound(start: Held, data: seq<byte>, i: nat, p: Parser, given: seq<byte>, n: nat)
    requires start.Valid() && Tracks(start, data, i, p, None, given) && 0 < n <= |data| - i
    requires p.Valid() && p.Running() && p.state == ChunkData && n <= p.contentLength
    ensures var q := TakeData(p, n);
            && Tracks(start, data, i + n, q, Some(i), given)
            && q.Valid() && q.errno == HPE_OK && (i + n < |data| && n == p.contentLength ==> q.state == ChunkDataAlmostDone)
  {
    hide Hold;
    HoldConcat(start, data[..i], data[i..i + n]);
    assert data[..i + n] == data[..i] + data[i..i + n];
    HoldData(Held(p, given, []), data[i..i + n]);
    assert [] + data[i..i + n] == data[i..i + n];
  }

  lemma ControlRound(start: Held, data: seq<byte>, i: nat, p: Parser, mark: Option<nat>, given: seq<byte>)
    requires start.Valid() && Tracks(start, data, i, p, mark, given) && i < |data|
    requires p.Valid() && p.Running() && p.state != ChunkData && (mark.Some? ==> p.state == ChunkDataAlmostDone)
    ensures var q := ControlNext(p, data[i]);
            var marked := Since(data, mark, i);
            && q.Valid()
            && (q.errno != HPE_OK ==> Hold(start, data) == Held(q, given, marked))
            && (q.errno == HPE_OK ==>
                  Tracks(start, data, i + 1, q, None, if p.state == ChunkDataAlmostDone then given + marked else given))
  {
    hide Hold, ControlNext;
    HoldSnoc(start, data[..i], data[i]);
    assert data[..i + 1] == data[..i] + [data[i]];
    FeedByteValid(p, data[i]);
    var q := ControlNext(p, data[i]);
    if q.errno != HPE_OK {
      RestStays(start, data, i + 1);
    }
  }

  // Only chunk data leads to the state after it.
  lemma OnlyDataMarks(p: Parser, ch: byte)
    requires p.Valid() && p.state != ChunkData
    ensures ControlNext(p, ch).errno == HPE_OK ==> ControlNext(p, ch).state != ChunkDataAlmostDone
  {
  }

  // Nothing happens after an error, nor once the machine has left the model.
  lemma RestStays(start: Held, data: seq<byte>, i: nat)
    requires start.Valid() && i <= |data|
    requires i == |data| || !Hold(start, data[..i]).p.Running()
    ensures Hold(start, data) == Hold(start, data[..i])
  {
    hide Hold, HoldByte, Held.Valid, Parser.Valid, Parser.Running;
    HoldConcat(start, data[..i], data[i..]);
    assert data == data[..i] + data[i..];
    if i < |data| {
      HoldStopped(Hold(start, data[..i]), data[i..]);
    } else {
      assert data[..i] == data;
    }
  }

  lemma Rest(start: Held, data: seq<byte>, i: nat, p: Parser, mark: Option<nat>, given: seq<byte>)
    requires start.Valid() && Tracks(start, data, i, p, mark, given) && (i == |data| || !p.Running())
    requires mark.Some? ==> mark.value <= i <= |data|
    ensures Hold(start, data) == Held(p, given, Since(data, mark, i))
  {
    hide Hold;
    RestStays(start, data, i);
  }

  // ----- Any split into calls -----

  predicate Buffers(pieces: seq<seq<byte>>) {
    forall k :: 0 <= k < |pieces| ==> pieces[k] != []
  }

  // Successive calls, each with the effect its contract states.
  function CallsState(p: Parser, pieces: seq<seq<byte>>): (q: Parser)
    requires p.Valid()
    ensures q.Valid()
    decreases |pieces|
  {
    if pieces == [] then p else CallsState(Feed(p, pieces[0]).p, pieces[1..])
  }

  function GivenCalls(p: Parser, pieces: seq<seq<byte>>): seq<byte>
    requires p.Valid()
    decreases |pieces|
  {
    if pieces == [] then [] else GivenBy(p, pieces[0]) + GivenCalls(Feed(p, pieces[0]).p, pieces[1..])
  }

  /** Any split into calls ends in the state of taking the bytes one by one and
      hands over a prefix of their body: all of it on error-free input. */
  lemma {:induction false} SplitInvariant(p: Parser, pieces: seq<seq<byte>>)
    requires p.Valid()
    ensures CallsState(p, pieces) == Feed(p, Flatten(pieces)).p
    ensures GivenCalls(p, pieces) <= Feed(p, Flatten(pieces)).body
    ensures Feed(p, Flatten(pieces)).p.errno == HPE_OK ==> GivenCalls(p, pieces) == Feed(p, Flatten(pieces)).body
    decreases |pieces|
  {
    hide GivenBy, DroppedBy, Feed;
    if pieces == [] {
      FeedNothing(p);
    } else {
      var q, rest := Feed(p, pieces[0]).p, Flatten(pieces[1..]);
      SplitInvariant(q, pieces[1..]);
      FeedConcat(p, pieces[0], rest);
      GivenAndDropped(p, pieces[0]);
      if q.errno != HPE_OK {
        FeedStopped(q, rest);
      }
    }
  }

  // The byte at i breaks the end of a chunk whose data came, at least in part, before
  // it in the same buffer.
  predicate BreaksChunkEnd(p: Parser, data: seq<byte>, i: nat)
    requires p.Valid()
  {
    && 0 < i < |data| && data[i] != CR
    && var q := Feed(p, data[..i]).p;
       q.Running() && q.state == ChunkDataAlmostDone
  }

  // A machine that got to the end of a chunk in this buffer holds marked bytes.
  lemma MarkedAtChunkEnd(p: Parser, data: seq<byte>)
    requires p.Valid() && data != []
    ensures var h := Hold(Held(p, [], []), data);
            h.p.Running() && h.p.state == ChunkDataAlmostDone ==> h.marked != []
  {
    hide ControlNext;
    var n := |data| - 1;
    assert data == data[..n] + [data[n]];
    HoldSnoc(Held(p, [], []), data[..n], data[n]);
    var h := Hold(Held(p, [], []), data[..n]);
    if h.p.Running() && h.p.state != ChunkData {
      OnlyDataMarks(h.p, data[n]);
    }
  }

  // An error that drops marked bytes comes at such a byte.
  lemma ErrorByte(h: Held, ch: byte)
    requires h.Valid() && h.p.errno == HPE_OK
    ensures var g := HoldByte(h, ch);
            (g.p.errno != HPE_OK && g.marked != []) <==>
            (h.p.Running() && h.p.state == ChunkDataAlmostDone && ch != CR && h.marked != [])
  {
  }

  /** Exactly then some chunk data that was read is not handed over. */
  lemma {:induction false} DroppedIff(p: Parser, data: seq<byte>)
    requires p.Valid()
    ensures DroppedBy(p, data) != [] <==> exists i :: BreaksChunkEnd(p, data, i)
    decreases |data|
  {
    hide Feed, Hold, HoldByte;
    var start := Held(p, [], []);
    if data == [] {
      HoldNothing(start);
    } else {
      var n := |data| - 1;
      var front, last := data[..n], data[n];
      assert data == front + [last];
      DroppedIff(p, front);
      forall i: nat | i < n
        ensures BreaksChunkEnd(p, data, i) <==> BreaksChunkEnd(p, front, i)
      {
        assert data[..i] == front[..i];
      }
      HoldSnoc(start, front, last);
      HoldFeeds(start, front);
      HoldNothing(start);
      var h := Hold(start, front);
      if h.p.errno != HPE_OK {
        HoldStopped(h, [last]);
        HoldConcat(start, front, [last]);
        assert !BreaksChunkEnd(p, data, n);
      } else {
        ErrorByte(h, last);
        if front != [] {
          MarkedAtChunkEnd(p, front);
        }
        assert data[..n] == front;
        assert (exists i :: BreaksChunkEnd(p, data, i)) <==> BreaksChunkEnd(p, data, n);
      }
    }
  }

  lemma DroppedInPart(p: Parser, a: seq<byte>, b: seq<byte>)
    requires p.Valid() && (DroppedBy(p, a) != [] || DroppedBy(Feed(p, a).p, b) != [])
    ensures DroppedBy(p, a + b) != []
  {
    hide Feed, DroppedBy;
    var q := Feed(p, a).p;
    DroppedIff(p, a);
    DroppedIff(q, b);
    DroppedIff(p, a + b);
    if DroppedBy(p, a) != [] {
      var i: nat :| BreaksChunkEnd(p, a, i);
      assert (a + b)[..i] == a[..i];
      assert BreaksChunkEnd(p, a + b, i);
    } else {
      var i: nat :| BreaksChunkEnd(q, b, i);
      assert (a + b)[..|a| + i] == a + b[..i];
      FeedConcat(p, a, b[..i]);
      assert BreaksChunkEnd(p, a + b, |a| + i);
    }
  }

  lemma {:induction false} SplitGivesAll(p: Parser, pieces: seq<seq<byte>>)
    requires p.Valid() && DroppedBy(p, Flatten(pieces)) == []
    ensures GivenCalls(p, pieces) == Feed(p, Flatten(pieces)).body
    decreases |pieces|
  {
    hide Feed, DroppedBy, GivenBy;
    if pieces == [] {
      FeedNothing(p);
    } else {
      var a, b := pieces[0], Flatten(pieces[1..]);
      if DroppedBy(p, a) != [] || DroppedBy(Feed(p, a).p, b) != [] {
        DroppedInPart(p, a, b);
      }
      GivenAndDropped(p, a);
      SplitGivesAll(Feed(p, a).p, pieces[1..]);
      FeedConcat(p, a, b);
    }
  }

  // One byte a call.
  function Singles(data: seq<byte>): (pieces: seq<seq<byte>>)
    ensures Buffers(pieces) && Flatten(pieces) == data
    decreases |data|
  {
    if data == [] then [] else [[data[0]]] + Singles(data[1..])
  }

  lemma {:induction false} SinglesGiveAll(p: Parser, data: seq<byte>)
    requires p.Valid()
    ensures GivenCalls(p, Singles(data)) == Feed(p, data).body
    decreases |data|
  {
    hide FeedByte, HoldByte, ControlNext;
    if data != [] {
      var ch := data[0];
      assert Singles(data) == [[ch]] + Singles(data[1..]);
      SingleGives(p, ch);
      SinglesGiveAll(FeedByte(p, ch).p, data[1..]);
    }
  }

  lemma SingleGives(p: Parser, ch: byte)
    requires p.Valid()
    ensures GivenBy(p, [ch]) == FeedByte(p, ch).body && Feed(p, [ch]).p == FeedByte(p, ch).p
  {
    hide FeedByte, Hold, Feed, ControlNext, HoldByte;
    var start := Held(p, [], []);
    HoldNothing(start);
    FeedNothing(p);
    HoldSnoc(start, [], ch);
    FeedSnoc(p, [], ch);
    assert [] + [ch] == [ch];
    HoldByteFeeds(start, ch);
    var g := HoldByte(start, ch);
    assert g.given + g.marked == FeedByte(p, ch).body;
    if p.errno == HPE_OK {
      ErrorByte(start, ch);
    } else {
      HoldStopped(start, [ch]);
    }
  }

  /** All splits into calls hand over the same, or, where the end of a chunk is broken
      behind data of the same buffer, they do not: byte by byte nothing is lost. */
  lemma SplitMattersIff(p: Parser, data: seq<byte>)
    requires p.Valid()
    ensures (exists pieces: seq<seq<byte>> :: Buffers(pieces) && Flatten(pieces) == data && GivenCalls(p, pieces) != GivenBy(p, data))
       <==> exists i :: BreaksChunkEnd(p, data, i)
  {
    hide Feed, DroppedBy, GivenBy, GivenCalls, BreaksChunkEnd, Flatten, Buffers;
    DroppedIff(p, data);
    GivenAndDropped(p, data);
    SinglesGiveAll(p, data);
    forall pieces: seq<seq<byte>> | DroppedBy(p, data) == [] && Flatten(pieces) == data
      ensures GivenCalls(p, pieces) == GivenBy(p, data)
    {
      SplitGivesAll(p, pieces);
    }
    if DroppedBy(p, data) != [] {
      assert GivenCalls(p, Singles(data)) != GivenBy(p, data);
    }
  }
}
