/** The SOCKS server's reader: version 4, 4a and 5 requests (sections 3 and 4 of
    RFC 1928) taken from a buffer that fills up in arbitrary pieces. */
module Socks {
  import opened Words

  const SOCKS4_VERSION: byte := 4
  const SOCKS5_VERSION: byte := 5
  const METHOD_NOAUTH: byte := 0
  const METHOD_FAIL: byte := 0xff
  const CMD_CONNECT: byte := 1
  const ATYP_IPV4: byte := 1
  const ATYP_FQDN: byte := 3
  const ATYP_IPV6: byte := 4
  const MIN_SOCKS_PACKET := 3
  const STATIC_REQ := 4
  const SOCKS4_MAX_LENGTH := 8192
  const ADDR_SIZE := 256

  datatype Status = Waiting | NegotiationDone | HaveAddr

  datatype Family = Unspecified | Inet | Inet6

  datatype Request = Request(af: Family, addr: seq<byte>, port: nat)

  datatype Ret = Good | Incomplete | CmdNotConnect | Broken

  // The textual form of an address; none if it cannot be made.
  type Ntop = (Family, seq<byte>) -> Option<seq<byte>>

  datatype Conn = Conn(status: Status, version: byte, broken: bool, req: Request)

  // What a handler returns and leaves: connection, unread bytes, bytes sent.
  datatype Outcome = Outcome(ret: Ret, conn: Conn, source: seq<byte>, sent: seq<byte>)

  const NO_REQUEST := Request(Unspecified, [], 0)

  const NEW_CONN := Conn(Waiting, 0, false, NO_REQUEST)

  // ----- SOCKS 5 -----

  // Address length and extra length byte; none for an unknown address type.
  function AddressShape(atyp: byte, first: byte): Option<(Family, nat, nat)> {
    if atyp == ATYP_IPV4 then Some((Inet, 4, 0))
    else if atyp == ATYP_IPV6 then Some((Inet6, 16, 0))
    else if atyp == ATYP_FQDN then Some((Unspecified, first as nat, 1))
    else None
  }

  function Request5(conn: Conn, source: seq<byte>, ntop: Ntop): Outcome {
    if |source| < STATIC_REQ + 1 then Outcome(Incomplete, conn, source, [])
    else if source[0] != SOCKS5_VERSION || source[2] != 0 then Outcome(Broken, conn, source, [])
    else if source[1] != CMD_CONNECT then Outcome(CmdNotConnect, conn, source, [])
    else
      match AddressShape(source[3], source[4])
      case None => Outcome(Broken, conn, source, [])
      case Some((af, addrlen, extra)) =>
        if |source| < STATIC_REQ + addrlen + extra + 2 then Outcome(Incomplete, conn, source, [])
        else
          var at := STATIC_REQ + extra;
          Parsed(conn, af, source[at..at + addrlen], source[at + addrlen..at + addrlen + 2], source[at + addrlen + 2..], ntop)
  }

  function Parsed(conn: Conn, af: Family, addr: seq<byte>, port: seq<byte>, rest: seq<byte>, ntop: Ntop): Outcome
    requires |port| == 2
  {
    if af == Unspecified then Outcome(Good, conn.(req := Request(af, addr, FromBe16(port))), rest, [])
    else
      match ntop(af, addr)
      case None => Outcome(Broken, conn, rest, [])
      case Some(text) => Outcome(Good, conn.(req := Request(af, text, FromBe16(port))), rest, [])
  }

  function Negotiation5(conn: Conn, source: seq<byte>): Outcome
    requires source != []
  {
    var n := source[0] as nat;
    if |source| < n + 1 then Outcome(Incomplete, conn, source, [])
    else if METHOD_NOAUTH in source[1..n + 1] then
      Outcome(Good, conn, source[n + 1..], [SOCKS5_VERSION, METHOD_NOAUTH])
    else Outcome(Broken, conn, source[n + 1..], [SOCKS5_VERSION, METHOD_FAIL])
  }

  // ----- SOCKS 4 and 4a -----

  // The first zero byte at or after a position.
  function Search(source: seq<byte>, from: nat): (r: Option<nat>)
    ensures r.Some? ==> from <= r.value < |source| && source[r.value] == 0
    decreases |source| - from
  {
    if from >= |source| then None
    else if source[from] == 0 then Some(from)
    else Search(source, from + 1)
  }

  // A destination 0.0.0.x with x nonzero announces a host name.
  predicate IsV4a(ip: seq<byte>)
    requires |ip| == 4
  {
    ip[0] == 0 && ip[1] == 0 && ip[2] == 0 && ip[3] != 0
  }

  function Unfinished(conn: Conn, source: seq<byte>): Outcome {
    Outcome(if |source| > SOCKS4_MAX_LENGTH then Broken else Incomplete, conn, source, [])
  }

  function Request4(conn: Conn, source: seq<byte>, ntop: Ntop): Outcome {
    if |source| < 7 then Outcome(Incomplete, conn, source, [])
    else if source[0] != CMD_CONNECT then Outcome(Broken, conn, source, [])
    else
      match Search(source, 7)
      case None => Unfinished(conn, source)
      case Some(user) => if IsV4a(source[3..7]) then HostAfter(conn, source, user) else AddressOf(conn, source, user, ntop)
  }

  // Version 4: everything up to the end of the user name is dropped. Family and
  // port are set before the address is converted.
  function AddressOf(conn: Conn, source: seq<byte>, user: nat, ntop: Ntop): Outcome
    requires 7 <= user < |source|
  {
    var port := FromBe16(source[1..3]);
    match ntop(Inet, source[3..7])
    case None => Outcome(Broken, conn.(req := Request(Inet, conn.req.addr, port)), source[user + 1..], [])
    case Some(text) => Outcome(Good, conn.(req := Request(Inet, text, port)), source[user + 1..], [])
  }

  // Version 4a: a host name follows the user name.
  function HostAfter(conn: Conn, source: seq<byte>, user: nat): Outcome
    requires 7 <= user < |source|
  {
    if user == |source| - 1 then Outcome(Incomplete, conn, source, [])
    else
      match Search(source, user + 1)
      case None => Unfinished(conn, source)
      case Some(host) =>
        if host - user - 1 >= ADDR_SIZE then Outcome(Broken, conn, source, [])
        else
          var name := source[user + 1..host];
          Outcome(Good, conn.(req := Request(Inet, name, FromBe16(source[1..3]))), source[host + 1..], [])
  }

  // ----- One call of handle_socks -----

  function Marked(o: Outcome): Outcome {
    if o.ret == Broken || o.ret == CmdNotConnect then o.(conn := o.conn.(broken := true))
    else if o.ret == Good then o.(conn := o.conn.(status := HaveAddr))
    else o
  }

  function WithVersion(conn: Conn, source: seq<byte>, ntop: Ntop): Outcome
    requires source != [] || conn.status != Waiting
  {
    if conn.version == SOCKS4_VERSION then
      if conn.status == Waiting then Marked(Request4(conn, source, ntop)) else Outcome(Incomplete, conn, source, [])
    else if conn.version == SOCKS5_VERSION then
      if conn.status == Waiting then
        var o := Negotiation5(conn, source);
        if o.ret != Good then Marked(o)
        else
          var r := Marked(Request5(o.conn.(status := NegotiationDone), o.source, ntop));
          r.(sent := o.sent + r.sent)
      else Marked(Request5(conn, source, ntop))
    else Marked(Outcome(Broken, conn, source, []))
  }

  function Handle(conn: Conn, source: seq<byte>, ntop: Ntop): Outcome {
    if conn.broken then Outcome(Broken, conn, source, [])
    else if |source| < MIN_SOCKS_PACKET then Outcome(Incomplete, conn, source, [])
    else if conn.version == 0 then WithVersion(conn.(version := source[0]), source[1..], ntop)
    else WithVersion(conn, source, ntop)
  }

  // ----- Arrivals -----

  // The connection, the bytes it has not read yet and everything sent back.
  datatype Session = Session(conn: Conn, source: seq<byte>, sent: seq<byte>)

  const NEW_SESSION := Session(NEW_CONN, [], [])

  predicate Stopped(conn: Conn) {
    conn.broken || conn.status == HaveAddr
  }

  // The read callback: handle_socks sees new bytes until it stops or has an address.
  function Arrive(s: Session, piece: seq<byte>, ntop: Ntop): Session {
    if Stopped(s.conn) then s.(source := s.source + piece)
    else
      var o := Handle(s.conn, s.source + piece, ntop);
      Session(o.conn, o.source, s.sent + o.sent)
  }

  function ArriveAll(s: Session, pieces: seq<seq<byte>>, ntop: Ntop): Session
    decreases |pieces|
  {
    if pieces == [] then s else ArriveAll(Arrive(s, pieces[0], ntop), pieces[1..], ntop)
  }

  // The states of a connection that still reads.
  predicate Reading(conn: Conn) {
    && !conn.broken
    && match conn.status
       case Waiting => conn.version == 0 || conn.version == SOCKS4_VERSION || conn.version == SOCKS5_VERSION
       case NegotiationDone => conn.version == SOCKS5_VERSION
       case HaveAddr => false
  }

  // An unfinished negotiation has its length byte and at least one method.
  predicate Awaits(conn: Conn, source: seq<byte>) {
    Reading(conn) && (conn.version == SOCKS5_VERSION && conn.status == Waiting ==> 2 <= |source| <= source[0] as int)
  }

  // Nothing more happens before more bytes come.
  predicate Settled(s: Session, ntop: Ntop) {
    || Stopped(s.conn)
    || (Awaits(s.conn, s.source) && Handle(s.conn, s.source, ntop) == Outcome(Incomplete, s.conn, s.source, []))
  }

  // Over the limit, with a terminator of the request still to come: giving up then
  // is the one decision that later bytes could have changed.
  predicate Spoils(source: seq<byte>) {
    |source| > SOCKS4_MAX_LENGTH && source[0] == CMD_CONNECT && TerminatorMissing(source)
  }

  predicate TerminatorMissing(source: seq<byte>)
    requires |source| >= 7
  {
    match Search(source, 7)
    case None => true
    case Some(user) => IsV4a(source[3..7]) && user != |source| - 1 && Search(source, user + 1) == None
  }

  // The same for a connection, whose version byte may be the first of the bytes.
  predicate SpoiledAt(conn: Conn, source: seq<byte>) {
    if conn.version == 0 then |source| >= MIN_SOCKS_PACKET && source[0] == SOCKS4_VERSION && Spoils(source[1..])
    else conn.version == SOCKS4_VERSION && Spoils(source)
  }

  // Appending bytes does not move a zero byte already there.
  lemma {:induction false} SearchStable(source: seq<byte>, more: seq<byte>, from: nat)
    requires Search(source, from).Some?
    ensures Search(source + more, from) == Search(source, from)
    decreases |source| - from
  {
    if source[from] != 0 {
      SearchStable(source, more, from + 1);
    }
  }

  function Plus(o: Outcome, more: seq<byte>): Outcome {
    o.(source := o.source + more)
  }

  // A decision taken on part of the input is the decision on all of it.
  lemma Request5Stable(conn: Conn, source: seq<byte>, more: seq<byte>, ntop: Ntop)
    ensures var o := Request5(conn, source, ntop);
            if o.ret == Incomplete then o == Outcome(Incomplete, conn, source, [])
            else Request5(conn, source + more, ntop) == Plus(o, more)
  {
    if |source| >= STATIC_REQ + 1 {
      var whole := source + more;
      assert whole[0] == source[0] && whole[1] == source[1] && whole[2] == source[2];
      assert whole[3] == source[3] && whole[4] == source[4];
      var shape := AddressShape(source[3], source[4]);
      if shape.Some? {
        var (af, addrlen, extra) := shape.value;
        var at := STATIC_REQ + extra;
        var port := at + addrlen;
        if |source| >= port + 2 {
          assert whole[at..port] == source[at..port];
          assert whole[port..port + 2] == source[port..port + 2];
          assert whole[port + 2..] == source[port + 2..] + more;
        }
      }
    }
  }

  lemma Negotiation5Stable(conn: Conn, source: seq<byte>, more: seq<byte>)
    requires source != []
    ensures var o := Negotiation5(conn, source);
            if o.ret == Incomplete then o == Outcome(Incomplete, conn, source, [])
            else Negotiation5(conn, source + more) == Plus(o, more)
  {
    var n := source[0] as nat;
    var whole := source + more;
    assert whole[0] == source[0];
    if |source| >= n + 1 {
      assert whole[1..n + 1] == source[1..n + 1];
      assert whole[n + 1..] == source[n + 1..] + more;
    }
  }

  lemma AddressOfStable(conn: Conn, source: seq<byte>, user: nat, more: seq<byte>, ntop: Ntop)
    requires 7 <= user < |source|
    ensures AddressOf(conn, source + more, user, ntop) == Plus(AddressOf(conn, source, user, ntop), more)
    ensures AddressOf(conn, source, user, ntop).ret != Incomplete
  {
    hide FromBe16;
    var whole := source + more;
    assert whole[1..3] == source[1..3] && whole[3..7] == source[3..7];
    assert whole[user + 1..] == source[user + 1..] + more;
  }

  lemma HostAfterStable(conn: Conn, source: seq<byte>, user: nat, more: seq<byte>)
    requires 7 <= user < |source|
    requires |source| > SOCKS4_MAX_LENGTH ==> user == |source| - 1 || Search(source, user + 1) != None
    ensures var o := HostAfter(conn, source, user);
            if o.ret == Incomplete then o == Outcome(Incomplete, conn, source, [])
            else HostAfter(conn, source + more, user) == Plus(o, more)
  {
    hide FromBe16, Search;
    var whole := source + more;
    var found := Search(source, user + 1);
    if found.Some? {
      var host := found.value;
      SearchStable(source, more, user + 1);
      assert whole[1..3] == source[1..3];
      assert whole[user + 1..host] == source[user + 1..host];
      assert whole[host + 1..] == source[host + 1..] + more;
    }
  }

  lemma Request4Stable(conn: Conn, source: seq<byte>, more: seq<byte>, ntop: Ntop)
    requires !Spoils(source)
    ensures var o := Request4(conn, source, ntop);
            if o.ret == Incomplete then o == Outcome(Incomplete, conn, source, [])
            else Request4(conn, source + more, ntop) == Plus(o, more)
  {
    hide AddressOf, HostAfter, IsV4a, Search;
    if |source| >= 7 {
      SliceOfConcat(source, more, 3, 7);
      assert (source + more)[0] == source[0];
      if Search(source, 7).Some? {
        SearchStable(source, more, 7);
        AddressOfStable(conn, source, Search(source, 7).value, more, ntop);
        if source[0] == CMD_CONNECT && IsV4a(source[3..7]) {
          HostAfterStable(conn, source, Search(source, 7).value, more);
        }
      }
    }
  }

  // The same for a connection whose version is known, across the negotiation too.
  lemma VersionStable(conn: Conn, source: seq<byte>, more: seq<byte>, ntop: Ntop)
    requires source != [] || conn.status != Waiting
    requires conn.version == SOCKS4_VERSION ==> !Spoils(source) && conn.status == Waiting
    ensures var o := WithVersion(conn, source, ntop);
            var whole := WithVersion(conn, source + more, ntop);
            if o.ret != Incomplete then whole == Plus(o, more)
            else if o.conn == conn then o == Outcome(Incomplete, conn, source, [])
            else
              && conn.version == SOCKS5_VERSION && conn.status == Waiting
              && o.conn == conn.(status := NegotiationDone)
              && whole == (var r := WithVersion(o.conn, o.source + more, ntop); r.(sent := o.sent + r.sent))
  {
    hide Request4, Request5, Negotiation5, Spoils;
    if conn.version == SOCKS4_VERSION {
      Request4Stable(conn, source, more, ntop);
    } else if conn.version == SOCKS5_VERSION {
      if conn.status == Waiting {
        Negotiation5Stable(conn, source, more);
        var o := Negotiation5(conn, source);
        NegotiationKeeps(conn, source);
        NegotiationKeeps(conn, source + more);
        Request5Stable(conn.(status := NegotiationDone), o.source, more, ntop);
      } else {
        Request5Stable(conn, source, more, ntop);
      }
    }
  }

  lemma NegotiationKeeps(conn: Conn, source: seq<byte>)
    requires source != []
    ensures var o := Negotiation5(conn, source);
            o.conn == conn && |o.source| <= |source| && (o.ret == Incomplete ==> |source| <= source[0] as int)
  {
  }

  // A version byte is taken only with at least two bytes behind it.
  lemma HandleSettles(s: Session, piece: seq<byte>, ntop: Ntop)
    requires Settled(s, ntop)
    ensures Settled(Arrive(s, piece, ntop), ntop)
  {
    hide Request4, Request5, Negotiation5;
    if !Stopped(s.conn) {
      var source := s.source + piece;
      assert s.conn.status == Waiting && s.conn.version == SOCKS5_VERSION ==> source[0] == s.source[0];
      if |source| >= MIN_SOCKS_PACKET {
        var conn := if s.conn.version == 0 then s.conn.(version := source[0]) else s.conn;
        var left := if s.conn.version == 0 then source[1..] else source;
        UndecidedKeeps(conn, left, ntop);
      }
    }
  }

  lemma UndecidedKeeps(conn: Conn, source: seq<byte>, ntop: Ntop)
    requires source != [] || conn.status != Waiting
    requires Reading(conn) || (conn.status == Waiting && !conn.broken)
    ensures var o := WithVersion(conn, source, ntop);
            if o.ret != Incomplete then Stopped(o.conn)
            else
              && (o.conn == conn ==> o == Outcome(Incomplete, conn, source, []))
              && (o.conn == conn && conn.version == SOCKS5_VERSION && conn.status == Waiting ==> |source| <= source[0] as int)
              && (o.conn != conn ==>
                    && conn.version == SOCKS5_VERSION && conn.status == Waiting
                    && o.conn == conn.(status := NegotiationDone)
                    && WithVersion(o.conn, o.source, ntop) == Outcome(Incomplete, o.conn, o.source, []))
              && (o.conn == conn ==> conn.version == SOCKS4_VERSION || conn.version == SOCKS5_VERSION)
  {
    hide Request4, Request5, Negotiation5;
    if conn.version == SOCKS4_VERSION {
      Request4Keeps(conn, source, ntop);
    } else if conn.version == SOCKS5_VERSION {
      if conn.status == Waiting {
        var o := Negotiation5(conn, source);
        NegotiationKeeps(conn, source);
        Negotiation5Stable(conn, source, []);
        Request5Stable(conn.(status := NegotiationDone), o.source, [], ntop);
      } else {
        Request5Stable(conn, source, [], ntop);
      }
    }
  }

  lemma Request4Keeps(conn: Conn, source: seq<byte>, ntop: Ntop)
    ensures var o := Request4(conn, source, ntop);
            o.ret == Incomplete ==> o == Outcome(Incomplete, conn, source, [])
  {
  }

  // One call on all the bytes does what two calls do on the parts.
  lemma HandleTwice(conn: Conn, source: seq<byte>, more: seq<byte>, ntop: Ntop)
    requires Reading(conn) && !SpoiledAt(conn, source)
    ensures var o := Handle(conn, source, ntop);
            var whole := Handle(conn, source + more, ntop);
            if o.ret != Incomplete then whole == Plus(o, more) && Stopped(o.conn)
            else if |source| < MIN_SOCKS_PACKET then o == Outcome(Incomplete, conn, source, [])
            else
              && Reading(o.conn) && o.conn.version != 0
              && (o.source != [] || o.conn.status != Waiting)
              && whole == (var r := WithVersion(o.conn, o.source + more, ntop); r.(sent := o.sent + r.sent))
  {
    hide Request4, Request5, Negotiation5, Spoils;
    var whole := source + more;
    if |source| >= MIN_SOCKS_PACKET {
      assert whole[0] == source[0] && whole[1..] == source[1..] + more;
      var next := if conn.version == 0 then conn.(version := source[0]) else conn;
      var left := if conn.version == 0 then source[1..] else source;
      VersionStable(next, left, more, ntop);
      UndecidedKeeps(next, left, ntop);
      var r := WithVersion(next, left + more, ntop);
      assert [] + r.sent == r.sent;
    }
  }

  // With fewer than three bytes even a known version decides nothing.
  lemma FewBytesDecideNothing(conn: Conn, source: seq<byte>, ntop: Ntop)
    requires Reading(conn) && conn.version != 0 && |source| < MIN_SOCKS_PACKET
    requires conn.status == Waiting ==> conn.version == SOCKS4_VERSION && source != []
    ensures WithVersion(conn, source, ntop) == Outcome(Incomplete, conn, source, [])
  {
  }

  lemma ArriveTwice(s: Session, first: seq<byte>, second: seq<byte>, ntop: Ntop)
    requires Settled(s, ntop)
    requires second == [] || !SpoiledAt(s.conn, s.source + first)
    ensures Arrive(Arrive(s, first, ntop), second, ntop) == Arrive(s, first + second, ntop)
  {
    hide WithVersion, SpoiledAt;
    HandleSettles(s, first, ntop);
    var a := Arrive(s, first, ntop);
    assert s.source + (first + second) == s.source + first + second;
    if second == [] {
      assert first + second == first && a.source + second == a.source && a.sent + [] == a.sent;
    } else if !Stopped(s.conn) {
      ArriveTwiceMore(s, first, second, ntop);
    }
  }

  lemma ArriveTwiceMore(s: Session, first: seq<byte>, second: seq<byte>, ntop: Ntop)
    requires Settled(s, ntop) && !Stopped(s.conn) && Settled(Arrive(s, first, ntop), ntop)
    requires second != [] && !SpoiledAt(s.conn, s.source + first)
    ensures Arrive(Arrive(s, first, ntop), second, ntop) == Arrive(s, first + second, ntop)
  {
    hide WithVersion, SpoiledAt;
    var source := s.source + first;
    assert s.source + (first + second) == source + second;
    HandleTwice(s.conn, source, second, ntop);
    var o := Handle(s.conn, source, ntop);
    var a := Arrive(s, first, ntop);
    assert s.sent + [] == s.sent;
    if o.ret == Incomplete && |source| >= MIN_SOCKS_PACKET {
      var r := WithVersion(o.conn, o.source + second, ntop);
      assert s.sent + (o.sent + r.sent) == a.sent + r.sent;
      if |o.source + second| < MIN_SOCKS_PACKET {
        FewBytesDecideNothing(o.conn, o.source + second, ntop);
      }
    }
  }

  lemma VersionShortens(conn: Conn, source: seq<byte>, ntop: Ntop)
    requires source != [] || conn.status != Waiting
    ensures |WithVersion(conn, source, ntop).source| <= |source|
    ensures WithVersion(conn, source, ntop).conn.version == conn.version
  {
    hide Request4, Request5, Negotiation5;
    Request4Shortens(conn, source, ntop);
    Request5Shortens(conn, source, ntop);
    if source != [] {
      var o := Negotiation5(conn, source);
      NegotiationKeeps(conn, source);
      Request5Shortens(conn.(status := NegotiationDone), o.source, ntop);
    }
  }

  lemma Request4Shortens(conn: Conn, source: seq<byte>, ntop: Ntop)
    ensures var o := Request4(conn, source, ntop); |o.source| <= |source| && o.conn.version == conn.version
  {
  }

  lemma Request5Shortens(conn: Conn, source: seq<byte>, ntop: Ntop)
    ensures var o := Request5(conn, source, ntop); |o.source| <= |source| && o.conn.version == conn.version
  {
  }

  lemma StoppedAppends(s: Session, piece: seq<byte>, more: seq<byte>, ntop: Ntop)
    requires Stopped(s.conn)
    ensures Arrive(Arrive(s, piece, ntop), more, ntop) == Arrive(s, piece + more, ntop)
    ensures Stopped(Arrive(s, piece, ntop).conn)
  {
    assert s.source + piece + more == s.source + (piece + more);
  }

  lemma {:induction false} StoppedStays(s: Session, pieces: seq<seq<byte>>, ntop: Ntop)
    requires Stopped(s.conn)
    ensures ArriveAll(s, pieces, ntop) == Arrive(s, Flatten(pieces), ntop)
    decreases |pieces|
  {
    if pieces == [] {
      assert s.source + [] == s.source;
    } else {
      StoppedAppends(s, pieces[0], Flatten(pieces[1..]), ntop);
      StoppedStays(Arrive(s, pieces[0], ntop), pieces[1..], ntop);
    }
  }

  // What two arrivals give.
  function Cut(s: Session, all: seq<byte>, n: nat, ntop: Ntop): Session
    requires n <= |all|
  {
    Arrive(Arrive(s, all[..n], ntop), all[n..], ntop)
  }

  // Giving up stops the connection.
  lemma SpoiledStops(s: Session, piece: seq<byte>, ntop: Ntop)
    requires Settled(s, ntop) && !Stopped(s.conn) && SpoiledAt(s.conn, s.source + piece)
    ensures Stopped(Arrive(s, piece, ntop).conn)
  {
    hide Spoils;
    var source := s.source + piece;
    SpoilsGivesUp(
      if s.conn.version == 0 then s.conn.(version := source[0]) else s.conn,
      if s.conn.version == 0 then source[1..] else source, ntop);
    SpoilsLong(if s.conn.version == 0 then source[1..] else source);
    hide Request4;
  }

  lemma SpoilsLong(source: seq<byte>)
    requires Spoils(source)
    ensures |source| > SOCKS4_MAX_LENGTH
  {
  }

  lemma SpoilsGivesUp(conn: Conn, source: seq<byte>, ntop: Ntop)
    requires Spoils(source)
    ensures Request4(conn, source, ntop) == Outcome(Broken, conn, source, [])
  {
    hide Search, IsV4a, FromBe16;
  }

  /** Any split ends as one arrival of everything or as two, cut where it stopped. */
  lemma {:induction false} SplitIsACut(s: Session, pieces: seq<seq<byte>>, ntop: Ntop) returns (n: nat)
    requires Settled(s, ntop)
    ensures n <= |Flatten(pieces)| && ArriveAll(s, pieces, ntop) == Cut(s, Flatten(pieces), n, ntop)
    decreases |pieces|
  {
    hide Handle, SpoiledAt;
    var all := Flatten(pieces);
    if pieces == [] {
      n := 0;
      NothingArrives(s, ntop);
      assert all[..0] == [] && all[0..] == [];
    } else {
      var first, rest := pieces[0], Flatten(pieces[1..]);
      var a := Arrive(s, first, ntop);
      HandleSettles(s, first, ntop);
      if Stopped(a.conn) {
        n := |first|;
        StoppedStays(a, pieces[1..], ntop);
        assert all[..n] == first && all[n..] == rest;
      } else {
        var k := SplitIsACut(a, pieces[1..], ntop);
        n := |first| + k;
        GoesOn(s, first, rest[..k], ntop);
        assert all[..n] == first + rest[..k] && all[n..] == rest[k..];
      }
    }
  }

  lemma NothingArrives(s: Session, ntop: Ntop)
    requires Settled(s, ntop)
    ensures Arrive(s, [], ntop) == s
  {
    hide Handle;
    assert s.source + [] == s.source && s.sent + [] == s.sent;
  }

  // A connection that has not stopped has not given up.
  lemma GoesOn(s: Session, first: seq<byte>, second: seq<byte>, ntop: Ntop)
    requires Settled(s, ntop) && !Stopped(Arrive(s, first, ntop).conn)
    ensures Arrive(Arrive(s, first, ntop), second, ntop) == Arrive(s, first + second, ntop)
  {
    hide Handle, SpoiledAt;
    if Stopped(s.conn) {
      StoppedAppends(s, first, second, ntop);
    } else {
      if SpoiledAt(s.conn, s.source + first) {
        SpoiledStops(s, first, ntop);
      }
      ArriveTwice(s, first, second, ntop);
    }
  }

  // The longest input that no split can spoil: version byte, limit, one more.
  const SAFE_LENGTH := SOCKS4_MAX_LENGTH + 2

  lemma CutAgrees(all: seq<byte>, n: nat, ntop: Ntop)
    requires n <= |all| && (n < |all| ==> !SpoiledAt(NEW_CONN, all[..n]))
    ensures Cut(NEW_SESSION, all, n, ntop) == Arrive(NEW_SESSION, all, ntop)
  {
    hide Handle, SpoiledAt;
    assert NEW_SESSION.source + all[..n] == all[..n];
    assert all[..n] + all[n..] == all;
    assert n == |all| ==> all[n..] == [];
    NewSettled(ntop);
    ArriveTwice(NEW_SESSION, all[..n], all[n..], ntop);
  }

  lemma NewSettled(ntop: Ntop)
    ensures Settled(NEW_SESSION, ntop)
  {
  }

  // Where it gives up, everything after the version byte stays unread.
  lemma CutSpoils(all: seq<byte>, n: nat, ntop: Ntop)
    requires n <= |all| && SpoiledAt(NEW_CONN, all[..n])
    ensures Cut(NEW_SESSION, all, n, ntop) == Session(Conn(Waiting, SOCKS4_VERSION, true, NO_REQUEST), all[1..], [])
  {
    hide Spoils;
    var part := all[..n];
    assert NEW_SESSION.source + part == part;
    SpoilsLong(part[1..]);
    SpoilsGivesUp(Conn(Waiting, SOCKS4_VERSION, false, NO_REQUEST), part[1..], ntop);
    hide Request4;
    assert part[1..] + all[n..] == all[1..];
  }

  lemma {:induction false} NoneMeans(source: seq<byte>, from: nat, i: nat)
    requires Search(source, from) == None && from <= i < |source|
    ensures source[i] != 0
    decreases i - from
  {
    if from < i {
      NoneMeans(source, from + 1, i);
    }
  }

  // What is missing from more bytes is missing from fewer.
  lemma MissingInPrefix(source: seq<byte>, n: nat, from: nat)
    requires n <= |source|
    ensures Search(source, from) == None ==> Search(source[..n], from) == None
    ensures Search(source[..n], from).Some? ==> Search(source, from) == Search(source[..n], from)
    ensures Search(source, from).Some? && Search(source, from).value < n ==> Search(source[..n], from) == Search(source, from)
  {
    hide Search;
    var part := source[..n];
    assert source == part + source[n..];
    if Search(part, from).Some? {
      SearchStable(part, source[n..], from);
    } else if Search(source, from).Some? && Search(source, from).value < n {
      FoundIsZero(source, from);
      assert part[Search(source, from).value] == 0;
      NoneMeans(part, from, Search(source, from).value);
      assert false;
    }
  }

  lemma FoundIsZero(source: seq<byte>, from: nat)
    requires Search(source, from).Some?
    ensures from <= Search(source, from).value < |source| && source[Search(source, from).value] == 0
  {
  }

  /** Bytes that spoil an arrival spoil it at the first length over the limit, or at
      the next if that one ends in the zero byte of the user name. */
  lemma SpoiledEarly(source: seq<byte>, m: nat)
    requires SOCKS4_MAX_LENGTH + 1 <= m <= |source| && Spoils(source[..m])
    ensures Spoils(source[..SOCKS4_MAX_LENGTH + 1]) ||
            (m >= SOCKS4_MAX_LENGTH + 2 && Spoils(source[..SOCKS4_MAX_LENGTH + 2]))
  {
    hide Search, IsV4a;
    var n := SOCKS4_MAX_LENGTH + 1;
    var part, first := source[..m], source[..n];
    assert part[..n] == first && part[3..7] == first[3..7];
    MissingInPrefix(part, n, 7);
    if Search(part, 7).Some? {
      var user := Search(part, 7).value;
      MissingInPrefix(part, n, user + 1);
      if user == n - 1 {
        var second := source[..n + 1];
        assert part[..n + 1] == second && part[3..7] == second[3..7];
        MissingInPrefix(part, n + 1, 7);
        MissingInPrefix(part, n + 1, user + 1);
      }
    }
  }

  /** The client's bytes may be split in any way, to the same state, request, replies
      and unread bytes, exactly if the two cuts just over the limit make no difference. */
  lemma SplitIndependentIff(all: seq<byte>, ntop: Ntop)
    ensures (forall pieces: seq<seq<byte>> :: Flatten(pieces) == all ==> ArriveAll(NEW_SESSION, pieces, ntop) == Arrive(NEW_SESSION, all, ntop))
       <==> (forall n: nat :: (n == SAFE_LENGTH || n == SAFE_LENGTH + 1) && n <= |all| ==>
               Cut(NEW_SESSION, all, n, ntop) == Arrive(NEW_SESSION, all, ntop))
  {
    hide Handle, Spoils, Arrive, Cut;
    if forall n: nat :: (n == SAFE_LENGTH || n == SAFE_LENGTH + 1) && n <= |all| ==>
         Cut(NEW_SESSION, all, n, ntop) == Arrive(NEW_SESSION, all, ntop) {
      forall pieces: seq<seq<byte>> | Flatten(pieces) == all
        ensures ArriveAll(NEW_SESSION, pieces, ntop) == Arrive(NEW_SESSION, all, ntop)
      {
        NewSettled(ntop);
        var n := SplitIsACut(NEW_SESSION, pieces, ntop);
        AnyCutAgrees(all, n, ntop);
      }
    } else {
      var n: nat :| (n == SAFE_LENGTH || n == SAFE_LENGTH + 1) && n <= |all| &&
        Cut(NEW_SESSION, all, n, ntop) != Arrive(NEW_SESSION, all, ntop);
      TwoPieces(all, n, ntop);
    }
  }

  lemma TwoPieces(all: seq<byte>, n: nat, ntop: Ntop)
    requires n <= |all|
    ensures var pieces := [all[..n], all[n..]];
            Flatten(pieces) == all && ArriveAll(NEW_SESSION, pieces, ntop) == Cut(NEW_SESSION, all, n, ntop)
  {
    hide Arrive;
    var pieces := [all[..n], all[n..]];
    assert pieces[1..] == [all[n..]] && [all[n..]][1..] == [];
    assert Flatten([all[n..]]) == all[n..] + Flatten([]) == all[n..];
    var a := Arrive(NEW_SESSION, all[..n], ntop);
    assert ArriveAll(a, [all[n..]], ntop) == ArriveAll(Arrive(a, all[n..], ntop), [], ntop);
  }

  lemma AnyCutAgrees(all: seq<byte>, n: nat, ntop: Ntop)
    requires n <= |all|
    requires forall k: nat :: (k == SAFE_LENGTH || k == SAFE_LENGTH + 1) && k <= |all| ==>
               Cut(NEW_SESSION, all, k, ntop) == Arrive(NEW_SESSION, all, ntop)
    ensures Cut(NEW_SESSION, all, n, ntop) == Arrive(NEW_SESSION, all, ntop)
  {
    hide Arrive, Cut, Spoils;
    if n == |all| || !SpoiledAt(NEW_CONN, all[..n]) {
      CutAgrees(all, n, ntop);
    } else {
      SpoilsLong(all[..n][1..]);
      assert all[..n][1..] == all[1..][..n - 1];
      SpoiledEarly(all[1..], n - 1);
      var k := if Spoils(all[1..][..SOCKS4_MAX_LENGTH + 1]) then SAFE_LENGTH else SAFE_LENGTH + 1;
      assert all[..k][1..] == all[1..][..k - 1];
      CutSpoils(all, k, ntop);
      CutSpoils(all, n, ntop);
    }
  }

  // A version 4a request whose user name ends in the last byte of the safe length.
  function Edge(): seq<byte> {
    [SOCKS4_VERSION, CMD_CONNECT, 0, 80, 0, 0, 0, 1] + seq(SAFE_LENGTH - 9, i => 97) + [0, 98, 0]
  }

  /** The first of the two cuts alone would not do. */
  lemma OneCutIsNotEnough(ntop: Ntop)
    ensures SAFE_LENGTH + 1 < |Edge()|
    ensures Cut(NEW_SESSION, Edge(), SAFE_LENGTH, ntop) == Arrive(NEW_SESSION, Edge(), ntop)
    ensures Cut(NEW_SESSION, Edge(), SAFE_LENGTH + 1, ntop) != Arrive(NEW_SESSION, Edge(), ntop)
  {
    hide Arrive, Cut, Request4;
    var all := Edge();
    EdgeParts();
    CutAgrees(all, SAFE_LENGTH, ntop);
    CutSpoils(all, SAFE_LENGTH + 1, ntop);
    assert all == [SOCKS4_VERSION] + all[1..];
    EdgeWhole(Conn(Waiting, SOCKS4_VERSION, false, NO_REQUEST), ntop);
    FirstArrival(SOCKS4_VERSION, all[1..], ntop);
  }

  lemma EdgeParts()
    ensures !SpoiledAt(NEW_CONN, Edge()[..SAFE_LENGTH]) && SpoiledAt(NEW_CONN, Edge()[..SAFE_LENGTH + 1])
  {
    var part, more := Edge()[..SAFE_LENGTH][1..], Edge()[..SAFE_LENGTH + 1][1..];
    EdgeAddress(more);
    SearchMeaning(part, 7, SOCKS4_MAX_LENGTH);
    SearchMeaning(more, 7, SOCKS4_MAX_LENGTH);
    SearchMeaning(more, SOCKS4_MAX_LENGTH + 1, SOCKS4_MAX_LENGTH + 2);
  }

  lemma EdgeAddress(source: seq<byte>)
    requires |source| >= 7 && source[3] == 0 && source[4] == 0 && source[5] == 0 && source[6] == 1
    ensures IsV4a(source[3..7])
  {
  }

  lemma EdgeWhole(conn: Conn, ntop: Ntop)
    ensures Request4(conn, Edge()[1..], ntop).ret == Good && Request4(conn, Edge()[1..], ntop).source == []
  {
    hide FromBe16, Search, IsV4a;
    var source := Edge()[1..];
    EdgeAddress(source);
    SearchMeaning(source, 7, SOCKS4_MAX_LENGTH);
    SearchMeaning(source, SOCKS4_MAX_LENGTH + 1, SOCKS4_MAX_LENGTH + 2);
    assert source[SOCKS4_MAX_LENGTH + 3..] == [];
  }

  /** In particular, bytes that do not ask for version 4, or are not too many, may be
      split in any way. */
  lemma FragmentationIndependent(pieces: seq<seq<byte>>, ntop: Ntop)
    requires var all := Flatten(pieces); all == [] || all[0] != SOCKS4_VERSION || |all| <= SAFE_LENGTH
    ensures ArriveAll(NEW_SESSION, pieces, ntop) == Arrive(NEW_SESSION, Flatten(pieces), ntop)
  {
    hide Arrive, Cut;
    var all := Flatten(pieces);
    forall n: nat | n <= |all|
      ensures Cut(NEW_SESSION, all, n, ntop) == Arrive(NEW_SESSION, all, ntop)
    {
      CutAgrees(all, n, ntop);
    }
    NewSettled(ntop);
    var n := SplitIsACut(NEW_SESSION, pieces, ntop);
  }

  lemma {:induction false} SearchMeaning(source: seq<byte>, from: nat, at: nat)
    requires from <= at <= |source| && forall i :: from <= i < at ==> source[i] != 0
    ensures at == |source| ==> Search(source, from) == None
    ensures at < |source| && source[at] == 0 ==> Search(source, from) == Some(at)
    decreases at - from
  {
    if from < at {
      SearchMeaning(source, from + 1, at);
    }
  }

  // A version 4 request with a user name that fills all the given length.
  function LongUser(n: nat): seq<byte>
    requires n > 9
  {
    [SOCKS4_VERSION, CMD_CONNECT, 0, 80, 127, 0, 0, 1] + seq(n - 9, i => 97) + [0]
  }

  lemma {:induction false} LongUserSplit(n: nat, ntop: Ntop)
    requires n > SAFE_LENGTH
    ensures var pieces := [LongUser(n)[..n - 1], [0]];
            && Flatten(pieces) == LongUser(n)
            && ArriveAll(NEW_SESSION, pieces, ntop).source != Arrive(NEW_SESSION, LongUser(n), ntop).source
  {
    hide FromBe16;
    var whole := LongUser(n);
    var part := whole[..n - 1];
    var pieces := [part, [0]];
    assert pieces[1..] == [[0]] && [[0]][1..] == [];
    assert Flatten([[0]]) == [0] + Flatten([]) == [0];
    assert whole == part + [0];
    LongUserParts(n, ntop);
    var a := Arrive(NEW_SESSION, part, ntop);
    assert ArriveAll(NEW_SESSION, pieces, ntop) == ArriveAll(a, [[0]], ntop) == Arrive(a, [0], ntop);
  }

  lemma LongUserParts(n: nat, ntop: Ntop)
    requires n > SAFE_LENGTH
    ensures Arrive(NEW_SESSION, LongUser(n), ntop).source == []
    ensures Stopped(Arrive(NEW_SESSION, LongUser(n)[..n - 1], ntop).conn)
  {
    hide Request4, FromBe16;
    var conn := Conn(Waiting, SOCKS4_VERSION, false, NO_REQUEST);
    var whole, part := LongUser(n), LongUser(n)[..n - 1];
    assert [] + whole == whole && [] + part == part;
    assert part[0] == SOCKS4_VERSION && whole[0] == SOCKS4_VERSION;
    LongUserWhole(n, conn, ntop);
    LongUserPart(n, conn, ntop);
  }

  lemma LongUserWhole(n: nat, conn: Conn, ntop: Ntop)
    requires n > SAFE_LENGTH
    ensures Request4(conn, LongUser(n)[1..], ntop).source == []
    ensures Request4(conn, LongUser(n)[1..], ntop).ret != Incomplete
  {
    var source := LongUser(n)[1..];
    SearchMeaning(source, 7, n - 2);
    assert source[3] == 127;
    assert source[3..7][0] == 127;
    assert source[n - 2 + 1..] == [];
  }

  lemma LongUserPart(n: nat, conn: Conn, ntop: Ntop)
    requires n > SAFE_LENGTH
    ensures Request4(conn, LongUser(n)[..n - 1][1..], ntop).ret == Broken
  {
    SearchMeaning(LongUser(n)[..n - 1][1..], 7, n - 2);
  }

  // Fragmentation independence holds of a length exactly when it stays within the limit.
  lemma LimitIsExact(n: nat, ntop: Ntop)
    ensures (forall pieces :: |Flatten(pieces)| == n ==>
               ArriveAll(NEW_SESSION, pieces, ntop) == Arrive(NEW_SESSION, Flatten(pieces), ntop))
        <==> n <= SAFE_LENGTH
  {
    if n <= SAFE_LENGTH {
      forall pieces: seq<seq<byte>> | |Flatten(pieces)| == n
        ensures ArriveAll(NEW_SESSION, pieces, ntop) == Arrive(NEW_SESSION, Flatten(pieces), ntop)
      {
        FragmentationIndependent(pieces, ntop);
      }
    } else {
      LongUserSplit(n, ntop);
      assert |LongUser(n)| == n;
    }
  }

  // ----- What a request means -----

  datatype Dest = Ipv4(addr: seq<byte>) | Ipv6(addr: seq<byte>) | Name(name: seq<byte>)

  predicate WellFormed(dest: Dest) {
    match dest
    case Ipv4(addr) => |addr| == 4
    case Ipv6(addr) => |addr| == 16
    case Name(name) => |name| < 256
  }

  // Section 5 of RFC 1928: the address part of a request.
  function WireDest(dest: Dest): seq<byte>
    requires WellFormed(dest)
  {
    match dest
    case Ipv4(addr) => [ATYP_IPV4] + addr
    case Ipv6(addr) => [ATYP_IPV6] + addr
    case Name(name) => [ATYP_FQDN, |name|] + name
  }

  // Sections 3 and 4 of RFC 1928, after the version byte: method list, then CONNECT.
  function Greeting(methods: seq<byte>): seq<byte>
    requires |methods| < 256
  {
    [|methods|] + methods
  }

  function Connect(dest: Dest, port: nat): seq<byte>
    requires WellFormed(dest) && port < 0x1_0000
  {
    [SOCKS5_VERSION, CMD_CONNECT, 0] + WireDest(dest) + Be16(port)
  }

  function Target(dest: Dest, port: nat, ntop: Ntop): Option<Request> {
    match dest
    case Name(name) => Some(Request(Unspecified, name, port))
    case Ipv4(addr) => (match ntop(Inet, addr) case None => None case Some(text) => Some(Request(Inet, text, port)))
    case Ipv6(addr) => (match ntop(Inet6, addr) case None => None case Some(text) => Some(Request(Inet6, text, port)))
  }

  // What is left of a connection that has read a CONNECT: its target, or what the
  // request is if the address cannot be converted.
  function Concluded(conn: Conn, target: Option<Request>, failed: Request, rest: seq<byte>): Outcome {
    match target
    case None => Outcome(Broken, conn.(req := failed), rest, [])
    case Some(req) => Outcome(Good, conn.(req := req), rest, [])
  }

  lemma Be16Inverse(port: nat, b: seq<byte>)
    ensures port < 0x1_0000 ==> FromBe16(Be16(port)) == port
    ensures |b| == 2 ==> Be16(FromBe16(b)) == b
  {
  }

  // A request from its parts: three fixed bytes, the address, two port bytes.
  lemma WireParts(dest: Dest, port: nat, rest: seq<byte>)
    requires WellFormed(dest) && port < 0x1_0000
    ensures var source := Connect(dest, port) + rest;
            var n := |WireDest(dest)|;
            && source[..3] == [SOCKS5_VERSION, CMD_CONNECT, 0]
            && source[3..3 + n] == WireDest(dest)
            && source[3 + n..5 + n] == Be16(port)
            && source[5 + n..] == rest && |source| == 5 + n + |rest|
  {
    hide WireDest, Be16;
  }

  lemma Request5Reads(conn: Conn, dest: Dest, port: nat, rest: seq<byte>, ntop: Ntop)
    requires WellFormed(dest) && port < 0x1_0000
    ensures Request5(conn, Connect(dest, port) + rest, ntop) == Concluded(conn, Target(dest, port, ntop), conn.req, rest)
  {
    hide Be16, FromBe16, Connect;
    var source := Connect(dest, port) + rest;
    WireParts(dest, port, rest);
    Be16Inverse(port, []);
    var addr := match dest case Name(name) => name case Ipv4(a) => a case Ipv6(a) => a;
    var n := |WireDest(dest)|;
    var at := 3 + n - |addr|;
    assert WireDest(dest)[n - |addr|..] == addr;
    SliceOfSlice(source, 3, 3 + n, n - |addr|, n);
    assert source[..3][0] == source[0] && source[..3][1] == source[1] && source[..3][2] == source[2];
    SliceIndex(source, 3, 3 + n, 0);
    SliceIndex(source, 3, 3 + n, 1);
  }

  // A buffer that holds a whole version 5 CONNECT, whose port bytes start here.
  function PortAt(source: seq<byte>): Option<nat> {
    if |source| < STATIC_REQ + 1 || source[..3] != [SOCKS5_VERSION, CMD_CONNECT, 0] then None
    else
      match AddressShape(source[3], source[4])
      case None => None
      case Some((af, addrlen, extra)) =>
        var at := STATIC_REQ + extra + addrlen;
        if |source| < at + 2 then None else Some(at)
  }

  lemma GoodHasPort(conn: Conn, source: seq<byte>, ntop: Ntop)
    requires Request5(conn, source, ntop).ret == Good
    ensures PortAt(source).Some? && Request5(conn, source, ntop).source == source[PortAt(source).value + 2..]
  {
    hide FromBe16;
    assert source[..3] == [source[0], source[1], source[2]];
  }

  lemma AnyConnect(source: seq<byte>) returns (dest: Dest, port: nat)
    requires PortAt(source).Some?
    ensures WellFormed(dest) && port < 0x1_0000
    ensures source == Connect(dest, port) + source[PortAt(source).value + 2..]
  {
    hide Be16, FromBe16;
    var (af, addrlen, extra) := AddressShape(source[3], source[4]).value;
    var at := PortAt(source).value;
    var addr := source[STATIC_REQ + extra..at];
    var portBytes := source[at..at + 2];
    dest := if af == Inet then Ipv4(addr) else if af == Inet6 then Ipv6(addr) else Name(addr);
    port := FromBe16(portBytes);
    Be16Inverse(0, portBytes);
    assert source[3..at] == WireDest(dest);
    FiveParts(source, at);
  }

  // The reader answers Good to nothing else.
  lemma Request5OnlyReads(conn: Conn, source: seq<byte>, ntop: Ntop) returns (dest: Dest, port: nat)
    requires Request5(conn, source, ntop).ret == Good
    ensures WellFormed(dest) && port < 0x1_0000
    ensures source == Connect(dest, port) + Request5(conn, source, ntop).source
  {
    hide Connect, Request5;
    GoodHasPort(conn, source, ntop);
    dest, port := AnyConnect(source);
  }

  lemma FiveParts(source: seq<byte>, port: nat)
    requires 3 <= port && port + 2 <= |source|
    ensures source == source[..3] + source[3..port] + source[port..port + 2] + source[port + 2..]
  {
  }

  // The first arrival of a connection: a version byte and at least two more.
  lemma FirstArrival(version: byte, body: seq<byte>, ntop: Ntop)
    requires |body| >= 2 && version != 0
    ensures var o := WithVersion(Conn(Waiting, version, false, NO_REQUEST), body, ntop);
            Arrive(NEW_SESSION, [version] + body, ntop) == Session(o.conn, o.source, o.sent)
  {
    hide WithVersion;
    var source := [version] + body;
    assert [] + source == source && source[1..] == body;
    var o := WithVersion(Conn(Waiting, version, false, NO_REQUEST), body, ntop);
    assert [] + o.sent == o.sent;
  }

  lemma AfterGreeting(conn: Conn, methods: seq<byte>, rest: seq<byte>, ntop: Ntop)
    requires |methods| < 256 && conn.version == SOCKS5_VERSION && conn.status == Waiting
    ensures WithVersion(conn, Greeting(methods) + rest, ntop) ==
            if METHOD_NOAUTH in methods then
              var r := Marked(Request5(conn.(status := NegotiationDone), rest, ntop));
              r.(sent := [SOCKS5_VERSION, METHOD_NOAUTH] + r.sent)
            else Marked(Outcome(Broken, conn, rest, [SOCKS5_VERSION, METHOD_FAIL]))
  {
    hide Request5, Negotiation5;
    NegotiationReads(conn, methods, rest);
  }

  // One whole version 5 dialogue: the method list, then CONNECT.
  lemma Socks5Connects(methods: seq<byte>, dest: Dest, port: nat, rest: seq<byte>, ntop: Ntop)
    requires |methods| < 256 && WellFormed(dest) && port < 0x1_0000
    ensures var message := [SOCKS5_VERSION] + Greeting(methods) + Connect(dest, port);
            var end := Arrive(NEW_SESSION, message + rest, ntop);
            var target := Target(dest, port, ntop);
            if METHOD_NOAUTH in methods then
              && end.source == rest && end.sent == [SOCKS5_VERSION, METHOD_NOAUTH]
              && (if target == None then end.conn.broken && end.conn.req == NO_REQUEST
                  else end.conn.status == HaveAddr && end.conn.req == target.value)
            else
              && end.conn.broken && end.conn.req == NO_REQUEST
              && end.source == Connect(dest, port) + rest && end.sent == [SOCKS5_VERSION, METHOD_FAIL]
  {
    hide Request5, Negotiation5, WithVersion, Arrive, Target, Connect;
    var tail := Connect(dest, port) + rest;
    assert [SOCKS5_VERSION] + Greeting(methods) + Connect(dest, port) + rest == [SOCKS5_VERSION] + (Greeting(methods) + tail);
    ConnectLength(dest, port);
    FirstArrival(SOCKS5_VERSION, Greeting(methods) + tail, ntop);
    AfterGreeting(Conn(Waiting, SOCKS5_VERSION, false, NO_REQUEST), methods, tail, ntop);
    Request5Reads(Conn(NegotiationDone, SOCKS5_VERSION, false, NO_REQUEST), dest, port, rest, ntop);
  }

  lemma ConnectLength(dest: Dest, port: nat)
    requires WellFormed(dest) && port < 0x1_0000
    ensures |Connect(dest, port)| >= 2
  {
  }

  lemma NegotiationReads(conn: Conn, methods: seq<byte>, rest: seq<byte>)
    requires |methods| < 256
    ensures var found := METHOD_NOAUTH in methods;
            Negotiation5(conn, Greeting(methods) + rest) ==
            Outcome(if found then Good else Broken, conn, rest, [SOCKS5_VERSION, if found then METHOD_NOAUTH else METHOD_FAIL])
  {
    var source := Greeting(methods) + rest;
    var n := |methods|;
    assert source[0] == n && source[1..n + 1] == methods && source[n + 1..] == rest;
  }

  lemma NegotiationOnlyReads(conn: Conn, source: seq<byte>) returns (methods: seq<byte>)
    requires source != [] && Negotiation5(conn, source).ret == Good
    ensures |methods| < 256 && METHOD_NOAUTH in methods
    ensures source == Greeting(methods) + Negotiation5(conn, source).source
  {
    methods := source[1..source[0] as nat + 1];
  }

  lemma AddressMeansBothGood(conn: Conn, source: seq<byte>, ntop: Ntop)
    requires source != [] && conn == Conn(Waiting, SOCKS5_VERSION, false, NO_REQUEST)
    requires WithVersion(conn, source, ntop).conn.status == HaveAddr
    ensures var o := Negotiation5(conn, source);
            var r := Request5(conn.(status := NegotiationDone), o.source, ntop);
            o.ret == Good && r.ret == Good && WithVersion(conn, source, ntop).source == r.source
  {
    hide Request5, Negotiation5;
    NegotiationKeeps(conn, source);
    var o := Negotiation5(conn, source);
    Request5Keeps(conn.(status := NegotiationDone), o.source, ntop);
  }

  lemma Request5Keeps(conn: Conn, source: seq<byte>, ntop: Ntop)
    ensures Request5(conn, source, ntop).conn.status == conn.status
  {
  }

  // An address comes only from a first arrival that goes on with these bytes.
  lemma AddressMeansHandled(source: seq<byte>, ntop: Ntop)
    requires Arrive(NEW_SESSION, source, ntop).conn.status == HaveAddr
    ensures |source| >= 3 && source[0] != 0 && source == [source[0]] + source[1..]
    ensures Arrive(NEW_SESSION, source, ntop).conn.version == source[0]
  {
    hide WithVersion;
    assert [] + source == source;
    VersionShortens(NEW_CONN.(version := source[0]), source[1..], ntop);
    ZeroVersion(source[1..], ntop);
  }

  lemma ZeroVersion(body: seq<byte>, ntop: Ntop)
    requires body != []
    ensures WithVersion(NEW_CONN, body, ntop).conn.status == Waiting
  {
  }

  // Nothing but such a dialogue gives a version 5 connection an address.
  lemma Socks5OnlyConnects(source: seq<byte>, ntop: Ntop)
      returns (methods: seq<byte>, dest: Dest, port: nat)
    requires var end := Arrive(NEW_SESSION, source, ntop);
             end.conn.status == HaveAddr && end.conn.version == SOCKS5_VERSION
    ensures |methods| < 256 && METHOD_NOAUTH in methods && WellFormed(dest) && port < 0x1_0000
    ensures source == [SOCKS5_VERSION] + Greeting(methods) + Connect(dest, port) + Arrive(NEW_SESSION, source, ntop).source
  {
    hide Request5, Negotiation5, WithVersion, Connect, Greeting, Arrive;
    AddressMeansHandled(source, ntop);
    var conn := Conn(Waiting, SOCKS5_VERSION, false, NO_REQUEST);
    var body := source[1..];
    FirstArrival(SOCKS5_VERSION, body, ntop);
    AddressMeansBothGood(conn, body, ntop);
    methods := NegotiationOnlyReads(conn, body);
    dest, port := Request5OnlyReads(conn.(status := NegotiationDone), Negotiation5(conn, body).source, ntop);
  }

  // ----- Version 4 -----

  predicate NoZero(text: seq<byte>) {
    0 !in text
  }

  function Wire4(port: nat, ip: seq<byte>, user: seq<byte>): seq<byte>
    requires port < 0x1_0000 && |ip| == 4
  {
    [CMD_CONNECT] + Be16(port) + ip + user + [0]
  }

  lemma HostEnds(before: seq<byte>, host: seq<byte>, rest: seq<byte>)
    requires NoZero(host)
    ensures var source := before + (host + [0] + rest);
            var at := |before|;
            && Search(source, at) == Some(at + |host|)
            && source[at..at + |host|] == host && source[at + |host| + 1..] == rest
  {
    var tail := host + [0] + rest;
    var source := before + tail;
    var at := |before|;
    assert forall i :: at <= i < |source| ==> source[i] == tail[i - at];
    SearchMeaning(source, at, at + |host|);
  }

  lemma Wire4Parts(port: nat, ip: seq<byte>, user: seq<byte>, rest: seq<byte>)
    requires port < 0x1_0000 && |ip| == 4 && NoZero(user)
    ensures var source := Wire4(port, ip, user) + rest;
            && source[0] == CMD_CONNECT && source[1..3] == Be16(port) && source[3..7] == ip
            && source[7..] == user + [0] + rest
            && Search(source, 7) == Some(7 + |user|)
            && source[8 + |user|..] == rest
  {
    hide Be16, Search;
    var head := [CMD_CONNECT] + Be16(port) + ip;
    var tail := user + [0] + rest;
    assert Wire4(port, ip, user) + rest == head + tail;
    assert head[1..3] == Be16(port) && head[3..7] == ip;
    HostEnds(head, user, rest);
    SliceOfConcat(head, tail, 1, 3);
    SliceOfConcat(head, tail, 3, 7);
    assert (head + tail)[7..] == tail;
  }

  lemma Request4Reads(conn: Conn, port: nat, ip: seq<byte>, user: seq<byte>, rest: seq<byte>, ntop: Ntop)
    requires port < 0x1_0000 && |ip| == 4 && NoZero(user) && !IsV4a(ip)
    ensures Request4(conn, Wire4(port, ip, user) + rest, ntop) == Concluded(conn, Target(Ipv4(ip), port, ntop), Request(Inet, conn.req.addr, port), rest)
  {
    hide Be16, FromBe16, Wire4, Search;
    Wire4Parts(port, ip, user, rest);
    Wire4Length(port, ip, user);
    Be16Inverse(port, []);
  }

  // The address 0.0.0.x with x nonzero.
  lemma V4aBytes(ip: seq<byte>)
    requires |ip| == 4
    ensures IsV4a(ip) <==> ip[0] == ip[1] == ip[2] == 0 && ip[3] != 0
  {
  }

  // A version 4 request: an address, and a user name that is thrown away.
  lemma Socks4Connects(port: nat, ip: seq<byte>, user: seq<byte>, rest: seq<byte>, ntop: Ntop)
    requires port < 0x1_0000 && |ip| == 4 && NoZero(user) && !(ip[0] == ip[1] == ip[2] == 0 && ip[3] != 0)
    ensures var end := Arrive(NEW_SESSION, [SOCKS4_VERSION] + Wire4(port, ip, user) + rest, ntop);
            var target := Target(Ipv4(ip), port, ntop);
            && end.source == rest && end.sent == []
            && (if target == None then end.conn.broken && end.conn.req == Request(Inet, [], port)
                else end.conn.status == HaveAddr && end.conn.req == target.value)
  {
    hide Wire4, Request4, IsV4a, NoZero, Arrive, Target;
    assert [SOCKS4_VERSION] + Wire4(port, ip, user) + rest == [SOCKS4_VERSION] + (Wire4(port, ip, user) + rest);
    V4aBytes(ip);
    Wire4Length(port, ip, user);
    FirstArrival(SOCKS4_VERSION, Wire4(port, ip, user) + rest, ntop);
    Request4Reads(Conn(Waiting, SOCKS4_VERSION, false, NO_REQUEST), port, ip, user, rest, ntop);
  }

  lemma Request4aReads(conn: Conn, port: nat, ip: seq<byte>, user: seq<byte>, host: seq<byte>, rest: seq<byte>, ntop: Ntop)
    requires port < 0x1_0000 && |ip| == 4 && IsV4a(ip) && NoZero(user) && NoZero(host)
    ensures var source := Wire4(port, ip, user) + (host + [0] + rest);
            Request4(conn, source, ntop) ==
            if |host| < ADDR_SIZE then Outcome(Good, conn.(req := Request(Inet, host, port)), rest, [])
            else Outcome(Broken, conn, source, [])
  {
    hide Be16, FromBe16, Wire4, Search;
    Wire4Parts(port, ip, user, host + [0] + rest);
    Be16Inverse(port, []);
    Wire4Length(port, ip, user);
    HostEnds(Wire4(port, ip, user), host, rest);
  }

  lemma Wire4Length(port: nat, ip: seq<byte>, user: seq<byte>)
    requires port < 0x1_0000 && |ip| == 4
    ensures |Wire4(port, ip, user)| == 8 + |user|
  {
  }

  // A version 4a request: the invalid address announces a host name after the user name.
  lemma Socks4aConnects(port: nat, ip: seq<byte>, user: seq<byte>, host: seq<byte>, rest: seq<byte>, ntop: Ntop)
    requires port < 0x1_0000 && |ip| == 4 && (ip[0] == ip[1] == ip[2] == 0 && ip[3] != 0) && NoZero(user) && NoZero(host)
    ensures var all := [SOCKS4_VERSION] + Wire4(port, ip, user) + (host + [0] + rest);
            var end := Arrive(NEW_SESSION, all, ntop);
            if |host| < ADDR_SIZE then
              end.conn.status == HaveAddr && end.conn.req == Request(Inet, host, port) && end.source == rest
            else end.conn.broken && end.source == all[1..]
  {
    hide Wire4, Request4, IsV4a, NoZero, Arrive;
    var body := Wire4(port, ip, user) + (host + [0] + rest);
    assert [SOCKS4_VERSION] + Wire4(port, ip, user) + (host + [0] + rest) == [SOCKS4_VERSION] + body;
    assert ([SOCKS4_VERSION] + body)[1..] == body;
    V4aBytes(ip);
    Wire4Length(port, ip, user);
    FirstArrival(SOCKS4_VERSION, body, ntop);
    Request4aReads(Conn(Waiting, SOCKS4_VERSION, false, NO_REQUEST), port, ip, user, host, rest, ntop);
  }

  lemma {:induction false} SearchSkipsNoZero(source: seq<byte>, from: nat)
    requires Search(source, from).Some?
    ensures NoZero(source[from..Search(source, from).value])
    decreases |source| - from
  {
    if source[from] != 0 {
      SearchSkipsNoZero(source, from + 1);
      var at := Search(source, from).value;
      assert source[from..at] == [source[from]] + source[from + 1..at];
    }
  }

  // Where a Good request has its zero bytes, and what is left behind them.
  lemma GoodHasZeros(conn: Conn, source: seq<byte>, ntop: Ntop)
    requires Request4(conn, source, ntop).ret == Good
    ensures |source| >= 7 && source[0] == CMD_CONNECT && Search(source, 7).Some?
    ensures var rest := Request4(conn, source, ntop).source;
            var end := Search(source, 7).value;
            if IsV4a(source[3..7]) then
              && Search(source, end + 1).Some?
              && Search(source, end + 1).value - end - 1 < ADDR_SIZE
              && rest == source[Search(source, end + 1).value + 1..]
            else rest == source[end + 1..]
  {
    hide FromBe16, IsV4a, Search;
  }

  lemma Request4OnlyReads(conn: Conn, source: seq<byte>, ntop: Ntop)
      returns (port: nat, ip: seq<byte>, user: seq<byte>, tail: seq<byte>)
    requires Request4(conn, source, ntop).ret == Good
    ensures port < 0x1_0000 && |ip| == 4 && NoZero(user)
    ensures source == Wire4(port, ip, user) + tail
    ensures var rest := Request4(conn, source, ntop).source;
            if IsV4a(ip) then exists host :: NoZero(host) && |host| < ADDR_SIZE && tail == host + [0] + rest
            else tail == rest
  {
    hide Be16, FromBe16, Request4, IsV4a, Search, NoZero, Wire4;
    GoodHasZeros(conn, source, ntop);
    FoundIsZero(source, 7);
    var end := Search(source, 7).value;
    port, ip, user, tail := FromBe16(source[1..3]), source[3..7], source[7..end], source[end + 1..];
    SearchSkipsNoZero(source, 7);
    FieldsWire(source, end);
    if IsV4a(ip) {
      var host := HostBefore(source, end + 1);
    }
  }

  lemma FieldsWire(source: seq<byte>, end: nat)
    requires 7 <= end < |source| && source[0] == CMD_CONNECT && source[end] == 0
    ensures source == Wire4(FromBe16(source[1..3]), source[3..7], source[7..end]) + source[end + 1..]
  {
    hide Be16, FromBe16;
    Be16Inverse(0, source[1..3]);
    FiveFields(source, end);
  }

  lemma HostBefore(source: seq<byte>, from: nat) returns (host: seq<byte>)
    requires Search(source, from).Some? && Search(source, from).value - from < ADDR_SIZE
    ensures NoZero(host) && |host| < ADDR_SIZE
    ensures source[from..] == host + [0] + source[Search(source, from).value + 1..]
  {
    hide Search, NoZero;
    FoundIsZero(source, from);
    var stop := Search(source, from).value;
    SearchSkipsNoZero(source, from);
    HostTail(source, from, stop);
    host := source[from..stop];
  }

  lemma HostTail(source: seq<byte>, from: nat, stop: nat)
    requires from <= stop < |source| && source[stop] == 0
    ensures source[from..] == source[from..stop] + [0] + source[stop + 1..]
  {
  }

  lemma FiveFields(source: seq<byte>, end: nat)
    requires 7 <= end < |source| && source[0] == CMD_CONNECT && source[end] == 0
    ensures source == [CMD_CONNECT] + source[1..3] + source[3..7] + source[7..end] + [0] + source[end + 1..]
  {
  }

  // Nothing but a version 4 or 4a request gives a version 4 connection an address.
  lemma Socks4OnlyConnects(source: seq<byte>, ntop: Ntop)
      returns (port: nat, ip: seq<byte>, user: seq<byte>, tail: seq<byte>)
    requires var end := Arrive(NEW_SESSION, source, ntop);
             end.conn.status == HaveAddr && end.conn.version == SOCKS4_VERSION
    ensures port < 0x1_0000 && |ip| == 4 && NoZero(user)
    ensures source == [SOCKS4_VERSION] + Wire4(port, ip, user) + tail
    ensures var rest := Arrive(NEW_SESSION, source, ntop).source;
            if ip[0] == ip[1] == ip[2] == 0 && ip[3] != 0 then exists host :: NoZero(host) && |host| < ADDR_SIZE && tail == host + [0] + rest
            else tail == rest
  {
    hide Request4, Request5, Negotiation5, Wire4, IsV4a, NoZero, Arrive;
    AddressMeansHandled(source, ntop);
    var conn := Conn(Waiting, SOCKS4_VERSION, false, NO_REQUEST);
    FirstArrival(SOCKS4_VERSION, source[1..], ntop);
    Request4Status(conn, source[1..], ntop);
    port, ip, user, tail := Request4OnlyReads(conn, source[1..], ntop);
    V4aBytes(ip);
  }

  lemma Request4Status(conn: Conn, source: seq<byte>, ntop: Ntop)
    ensures Request4(conn, source, ntop).conn.status == conn.status
  {
  }

  // Good always comes with the address, so the callback's loop calls once.
  lemma OneCallStops(conn: Conn, source: seq<byte>, ntop: Ntop)
    requires conn.status != HaveAddr
    ensures var o := Handle(conn, source, ntop);
            match o.ret
            case Good => o.conn.status == HaveAddr
            case Incomplete => true
            case _ => o.conn.broken
  {
    hide Request4, Request5, Negotiation5;
  }

  // ----- The connection object -----

  class SocksConn {
    var conn: Conn
    var source: seq<byte>
    var dest: seq<byte>
    const ntop: Ntop

    constructor (ntop: Ntop)
      ensures conn == NEW_CONN && source == [] && dest == [] && this.ntop == ntop
    {
      this.ntop := ntop;
      conn, source, dest := NEW_CONN, [], [];
    }

    method Socks5HandleNegotiation() returns (ret: Ret)
      requires source != []
      modifies this`source, this`dest
      ensures var o := Negotiation5(conn, old(source));
              ret == o.ret && source == o.source && dest == old(dest) + o.sent
    {
      var nmethods := source[0] as nat;
      if |source| < nmethods + 1 {
        return Incomplete;
      }
      var methods := source[1..nmethods + 1];
      source := source[nmethods + 1..];
      var found := false;
      var i := 0;
      while i < |methods|
        invariant i <= |methods| && (found <==> METHOD_NOAUTH in methods[..i])
      {
        if methods[i] == METHOD_NOAUTH {
          found := true;
          break;
        }
        i := i + 1;
      }
      assert found ==> METHOD_NOAUTH in methods;
      assert !found ==> methods[..i] == methods;
      dest := dest + [SOCKS5_VERSION, if found then METHOD_NOAUTH else METHOD_FAIL];
      ret := if found then Good else Broken;
    }

    method Socks5HandleRequest() returns (ret: Ret)
      modifies this`source, this`conn
      ensures var o := Request5(old(conn), old(source), ntop);
              ret == o.ret && source == o.source && conn == o.conn && o.sent == []
    {
      if |source| < STATIC_REQ + 1 {
        return Incomplete;
      }
      if source[0] != SOCKS5_VERSION || source[2] != 0 {
        return Broken;
      }
      if source[1] != CMD_CONNECT {
        return CmdNotConnect;
      }
      var shape := AddressShape(source[3], source[4]);
      if shape == None {
        return Broken;
      }
      var (af, addrlen, extra) := shape.value;
      if |source| < STATIC_REQ + addrlen + extra + 2 {
        return Incomplete;
      }
      var at := STATIC_REQ + extra;
      var destaddr := source[at..at + addrlen];
      var destport := source[at + addrlen..at + addrlen + 2];
      source := source[at + addrlen + 2..];
      var text := if af == Unspecified then Some(destaddr) else ntop(af, destaddr);
      if text == None {
        return Broken;
      }
      conn := conn.(req := Request(af, text.value, FromBe16(destport)));
      ret := Good;
    }

    // evbuffer_search for a zero byte.
    method FindZero(from: nat) returns (r: Option<nat>)
      ensures r == Search(source, from)
    {
      var i := from;
      while i < |source| && source[i] != 0
        invariant from <= i && Search(source, from) == Search(source, i)
        decreases |source| - i
      {
        i := i + 1;
      }
      r := if i < |source| then Some(i) else None;
    }

    method Socks4ReadRequest() returns (ret: Ret)
      modifies this`source, this`conn
      ensures var o := Request4(old(conn), old(source), ntop);
              ret == o.ret && source == o.source && conn == o.conn && o.sent == []
    {
      if |source| < 7 {
        return Incomplete;
      }
      if source[0] != CMD_CONNECT {
        return Broken;
      }
      var port, ip := FromBe16(source[1..3]), source[3..7];
      var user := FindZero(7);
      if user == None {
        return if |source| > SOCKS4_MAX_LENGTH then Broken else Incomplete;
      }
      if !IsV4a(ip) {
        source := source[user.value + 1..];
        var text := ntop(Inet, ip);
        if text == None {
          conn := conn.(req := Request(Inet, conn.req.addr, port));
          return Broken;
        }
        conn := conn.(req := Request(Inet, text.value, port));
        return Good;
      }
      if user.value == |source| - 1 {
        return Incomplete;
      }
      var host := FindZero(user.value + 1);
      if host == None {
        return if |source| > SOCKS4_MAX_LENGTH then Broken else Incomplete;
      }
      if host.value - user.value - 1 >= ADDR_SIZE {
        return Broken;
      }
      conn := conn.(req := Request(Inet, source[user.value + 1..host.value], port));
      source := source[host.value + 1..];
      ret := Good;
    }

    method HandleSocks() returns (ret: Ret)
      requires conn.status != HaveAddr
      modifies this
      ensures var o := Handle(old(conn), old(source), ntop);
              ret == o.ret && source == o.source && conn == o.conn && dest == old(dest) + o.sent
    {
      hide Request4, Request5, Negotiation5;
      assert dest + [] == dest;
      if conn.broken {
        return Broken;
      }
      if |source| < MIN_SOCKS_PACKET {
        return Incomplete;
      }
      if conn.version == 0 {
        conn := conn.(version := source[0]);
        source := source[1..];
      }
      ret := HandleVersion();
    }

    // The read callback, as the network code drives the reader.
    method SocksReadCallback(piece: seq<byte>)
      modifies this
      ensures Session(conn, source, dest) == Arrive(old(Session(conn, source, dest)), piece, ntop)
    {
      hide WithVersion;
      source := source + piece;
      var ret := if conn.broken then Broken else Good;
      while ret == Good && conn.status != HaveAddr
        invariant ret == Good || Stopped(conn) || ret == Incomplete
        invariant old(Stopped(conn)) ==> conn == old(conn) && source == old(source) + piece && dest == old(dest)
        invariant !old(Stopped(conn)) && ret == Good && conn.status != HaveAddr ==>
                    conn == old(conn) && source == old(source) + piece && dest == old(dest)
        invariant !old(Stopped(conn)) && (ret != Good || conn.status == HaveAddr) ==>
                    Session(conn, source, dest) == Arrive(old(Session(conn, source, dest)), piece, ntop)
        decreases if ret == Good && conn.status != HaveAddr then 1 else 0
      {
        OneCallStops(conn, source, ntop);
        ret := HandleSocks();
      }
    }

    method HandleVersion() returns (ret: Ret)
      requires conn.status != HaveAddr && (source != [] || conn.status != Waiting)
      modifies this
      ensures var o := WithVersion(old(conn), old(source), ntop);
              ret == o.ret && source == o.source && conn == o.conn && dest == old(dest) + o.sent
    {
      hide Request4, Request5;
      assert dest + [] == dest;
      if conn.version == SOCKS4_VERSION {
        ret := Incomplete;
        if conn.status == Waiting {
          ret := Socks4ReadRequest();
        }
      } else if conn.version == SOCKS5_VERSION {
        ret := Good;
        if conn.status == Waiting {
          ret := Socks5HandleNegotiation();
          if ret == Good {
            conn := conn.(status := NegotiationDone);
          }
        }
        if ret == Good {
          ret := Socks5HandleRequest();
        }
      } else {
        ret := Broken;
      }
      if ret == Broken || ret == CmdNotConnect {
        conn := conn.(broken := true);
      } else if ret == Good {
        conn := conn.(status := HaveAddr);
      }
    }
  }
}
