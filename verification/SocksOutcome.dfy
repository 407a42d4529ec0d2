/** Which bytes the SOCKS reader still waits for more after, in terms of the bytes. With
    the theorems on what connects, every other input breaks the connection. */
module SocksOutcomes {
  import opened Words
  import opened Socks

  // A request of section 4 of RFC 1928 that may still become a whole CONNECT. With fewer
  // than five bytes nothing is looked at.
  predicate Open5(r: seq<byte>) {
    || |r| < 5
    || (r[0] == 5 && r[1] == 1 && r[2] == 0 &&
        (|| (r[3] == 1 && |r| < 10)
         || (r[3] == 4 && |r| < 22)
         || (r[3] == 3 && |r| < 7 + r[4] as int)))
  }

  predicate NoZeroFrom(r: seq<byte>, from: nat) {
    forall i :: from <= i < |r| ==> r[i] != 0
  }

  // The first zero byte behind the fixed part ends the user name.
  predicate UserEnds(r: seq<byte>, u: nat) {
    7 <= u < |r| && r[u] == 0 && forall i :: 7 <= i < u ==> r[i] != 0
  }

  // A version 4 request without its user name's end, or a version 4a one without its
  // host name's: not too long yet, except that a host name may be about to start.
  ghost predicate Open4(r: seq<byte>) {
    || |r| < 7
    || (r[0] == 1 &&
        (|| (NoZeroFrom(r, 7) && |r| <= SOCKS4_MAX_LENGTH)
         || (exists u: nat :: UserEnds(r, u) && r[3] == r[4] == r[5] == 0 && r[6] != 0 &&
               (u == |r| - 1 || (NoZeroFrom(r, u + 1) && |r| <= SOCKS4_MAX_LENGTH)))))
  }

  // All that has come so far decides nothing.
  ghost predicate Undecided(all: seq<byte>) {
    || |all| < 3
    || (all[0] == 4 && Open4(all[1..]))
    || (all[0] == 5 && (|all| < 2 + all[1] as int || (0 in all[2..2 + all[1] as int] && Open5(all[2 + all[1] as int..]))))
  }

  lemma Open5Iff(conn: Conn, r: seq<byte>, ntop: Ntop)
    ensures Request5(conn, r, ntop).ret == Incomplete <==> Open5(r)
  {
    hide FromBe16;
  }

  lemma Open4Iff(conn: Conn, r: seq<byte>, ntop: Ntop)
    ensures Request4(conn, r, ntop).ret == Incomplete <==> Open4(r)
  {
    hide FromBe16, Search, IsV4a, NoZeroFrom, UserEnds;
    if |r| >= 7 && r[0] == 1 {
      V4aBytes(r[3..7]);
      var u := FirstZero(r, 7);
      NoUser(r);
      if u < |r| {
        OneUser(r, u);
        var h := FirstZero(r, u + 1);
        NoHost(r, u);
        assert UserEnds(r, u);
        AddressDecides(conn, r, u, ntop);
      }
    }
  }

  lemma AddressDecides(conn: Conn, r: seq<byte>, u: nat, ntop: Ntop)
    requires 7 <= u < |r|
    ensures AddressOf(conn, r, u, ntop).ret != Incomplete
    ensures HostAfter(conn, r, u).ret == Incomplete <==>
            u == |r| - 1 || (Search(r, u + 1) == None && |r| <= SOCKS4_MAX_LENGTH)
  {
    hide FromBe16, Search;
  }

  // Where the search stops, or the end.
  lemma {:induction false} FirstZero(r: seq<byte>, from: nat) returns (u: nat)
    requires from <= |r|
    ensures from <= u <= |r| && (forall i :: from <= i < u ==> r[i] != 0) && (u < |r| ==> r[u] == 0)
    ensures Search(r, from) == if u < |r| then Some(u) else None
    decreases |r| - from
  {
    if from == |r| || r[from] == 0 {
      u := from;
    } else {
      u := FirstZero(r, from + 1);
    }
  }

  lemma NoUser(r: seq<byte>)
    requires |r| >= 7
    ensures NoZeroFrom(r, 7) <==> Search(r, 7) == None
    ensures NoZeroFrom(r, 7) ==> forall u: nat :: !UserEnds(r, u)
  {
    hide Search;
    var u := FirstZero(r, 7);
  }

  lemma OneUser(r: seq<byte>, u: nat)
    requires 7 <= u < |r| && Search(r, 7) == Some(u)
    ensures forall w: nat :: UserEnds(r, w) <==> w == u
  {
    hide Search;
    var v := FirstZero(r, 7);
  }

  lemma NoHost(r: seq<byte>, u: nat)
    requires 7 <= u < |r|
    ensures NoZeroFrom(r, u + 1) <==> Search(r, u + 1) == None
  {
    hide Search;
    var h := FirstZero(r, u + 1);
  }

  lemma Greeted(conn: Conn, body: seq<byte>, ntop: Ntop)
    requires body != [] && conn == Conn(Waiting, SOCKS5_VERSION, false, NO_REQUEST)
    ensures !Stopped(WithVersion(conn, body, ntop).conn) <==>
            |body| < 1 + body[0] as int || (0 in body[1..1 + body[0] as int] && Open5(body[1 + body[0] as int..]))
  {
    hide Request5, Open5;
    var o := Negotiation5(conn, body);
    NegotiationKeeps(conn, body);
    Open5Iff(conn.(status := NegotiationDone), o.source, ntop);
    Request5Keeps(conn.(status := NegotiationDone), o.source, ntop);
    KeepsUnbroken(conn.(status := NegotiationDone), o.source, ntop);
  }

  lemma KeepsUnbroken(conn: Conn, r: seq<byte>, ntop: Ntop)
    ensures Request5(conn, r, ntop).conn.broken == conn.broken && Request4(conn, r, ntop).conn.broken == conn.broken
    ensures Request4(conn, r, ntop).conn.status == conn.status
  {
  }

  /** The reader still reads after exactly these bytes, whichever way they came if they do
      not ask for version 4 or are not too many. */
  lemma WaitsIff(all: seq<byte>, ntop: Ntop)
    ensures !Stopped(Arrive(NEW_SESSION, all, ntop).conn) <==> Undecided(all)
  {
    hide Request4, Request5, Negotiation5, Open4, Open5, WithVersion;
    assert NEW_SESSION.source + all == all;
    if |all| >= 3 {
      var version, body := all[0], all[1..];
      var conn := Conn(Waiting, version, false, NO_REQUEST);
      if version == 0 {
        WrongVersion(conn, body, ntop);
      } else {
        assert all == [version] + body;
        FirstArrival(version, body, ntop);
        if version == SOCKS5_VERSION {
          Greeted(conn, body, ntop);
          assert all[1] == body[0];
          if |body| >= 1 + body[0] as int {
            assert all[2..2 + all[1] as int] == body[1..1 + body[0] as int] && all[2 + all[1] as int..] == body[1 + body[0] as int..];
          }
        } else if version == SOCKS4_VERSION {
          Requested(conn, body, ntop);
        } else {
          WrongVersion(conn, body, ntop);
        }
      }
    }
  }

  lemma Requested(conn: Conn, body: seq<byte>, ntop: Ntop)
    requires body != [] && conn == Conn(Waiting, SOCKS4_VERSION, false, NO_REQUEST)
    ensures !Stopped(WithVersion(conn, body, ntop).conn) <==> Open4(body)
  {
    hide Request4, Open4;
    Open4Iff(conn, body, ntop);
    KeepsUnbroken(conn, body, ntop);
  }

  lemma WrongVersion(conn: Conn, body: seq<byte>, ntop: Ntop)
    requires body != [] && conn.version != SOCKS4_VERSION && conn.version != SOCKS5_VERSION
    ensures WithVersion(conn, body, ntop).conn.broken
  {
  }
}
