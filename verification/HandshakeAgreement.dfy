/** What an established client tells about the server, and which clients can become established. */
module HandshakeAgreement {
  import opened Constants
  import opened Bytes
  import opened Handshake
  import opened HandshakeRuns

  // --------------------------------------------- runs in which nobody else sends

  // The server holds the cookie of the INIT ACK the client took.
  predicate FromEcho(u: Setup, w: World) {
    && |w.acks| == 1 && w.acks[0].chunk.InitAck? && |w.acks[0].chunk.data| >= COOKIE
    && w.server == Restored(u.server0, Parse(w.acks[0].chunk.data[..COOKIE]))
  }

  predicate IsReply(u: Setup, p: Packet, i: Issue)
    requires Configured(u.server)
  {
    i.init.chunk.Init? && p == Reply(u.server, u.mac, i.init, i.random)
  }

  // Every packet of the network is one of the two sides' own.
  predicate OwnPacket(u: Setup, w: World, p: Packet)
    requires Configured(u.server)
  {
    match p.chunk
    case Init(_, _, _, _, _) => p == u.init
    case InitAck(_, _, _, _, _, _, _) => exists i :: 0 <= i < |w.issued| && IsReply(u, p, w.issued[i])
    case CookieEcho(_, data) => |w.acks| == 1 && w.acks[0].chunk.InitAck? && data == w.acks[0].chunk.data
    case CookieAck(_) => FromEcho(u, w)
    case Other(_) => false
  }

  predicate Quiet(u: Setup, w: World)
    requires Configured(u.server)
  {
    && (forall p :: p in w.net ==> OwnPacket(u, w, p))
    && (w.server == u.server0 || FromEcho(u, w))
    && (w.client.status == Established ==> FromEcho(u, w))
  }

  lemma StartQuiet(u: Setup)
    requires Sound(u)
    ensures Quiet(u, Start(u))
  {
  }

  // Packets stay the two sides' own while the INIT ACK taken and the server stay the same.
  lemma OwnKept(u: Setup, w: World, w': World, p: Packet)
    requires Configured(u.server) && OwnPacket(u, w, p)
    requires w'.acks == w.acks && w'.server == w.server
    requires |w.issued| <= |w'.issued| && w.issued == w'.issued[..|w.issued|]
    ensures OwnPacket(u, w', p)
  {
    hide Reply, Restored, Parse;
    if p.chunk.InitAck? {
      var i :| 0 <= i < |w.issued| && IsReply(u, p, w.issued[i]);
      assert w'.issued[i] == w.issued[i];
    }
  }

  lemma InitQuiet(u: Setup, w: World, p: Packet, r: Random)
    requires Sound(u) && Inv(u, w) && Quiet(u, w) && Can(u, w, ToServer(p, r))
    requires p.chunk.Init? && p.dstPort < U16 && Taken(u.server, u.mac, w.server, p)
    ensures Quiet(u, Next(u, w, ToServer(p, r)))
  {
    hide Wire, Unforged, Reply, Restored, Parse, OwnPacket, Inv;
    var w' := Next(u, w, ToServer(p, r));
    forall q | q in w'.net
      ensures OwnPacket(u, w', q)
    {
      if q in w.net {
        OwnKept(u, w, w', q);
      } else {
        ReplyOwn(u, w', p, r);
      }
    }
  }

  lemma ReplyOwn(u: Setup, w: World, p: Packet, r: Random)
    requires Configured(u.server) && p.chunk.Init? && w.issued != [] && w.issued[|w.issued| - 1] == Issue(p, r)
    ensures OwnPacket(u, w, Reply(u.server, u.mac, p, r))
  {
    assert IsReply(u, Reply(u.server, u.mac, p, r), w.issued[|w.issued| - 1]);
  }

  lemma EchoQuiet(u: Setup, w: World, p: Packet, r: Random)
    requires Sound(u) && Inv(u, w) && Quiet(u, w) && Can(u, w, ToServer(p, r))
    requires p.chunk.CookieEcho? && p.dstPort < U16 && Taken(u.server, u.mac, w.server, p)
    ensures Quiet(u, Next(u, w, ToServer(p, r)))
  {
    hide Wire, Unforged, Inv, Reply, Parse;
    var w' := Next(u, w, ToServer(p, r));
    assert OwnPacket(u, w, p);
    assert w'.server == Restored(u.server0, Parse(w.acks[0].chunk.data[..COOKIE]));
    assert FromEcho(u, w');
    forall q | q in w'.net
      ensures OwnPacket(u, w', q)
    {
      if q in w.net {
        assert OwnPacket(u, w, q);
      }
    }
  }

  lemma AckTakenQuiet(u: Setup, w: World, p: Packet, r: Random)
    requires Sound(u) && Inv(u, w) && Quiet(u, w) && Can(u, w, ToClient(p, r))
    requires p.chunk.InitAck? && p.dstPort < U16 && Taken(u.client, u.clientMac, w.client, p)
    ensures Quiet(u, Next(u, w, ToClient(p, r)))
  {
    hide Wire, Unforged, Reply, Parse, Restored;
    var w' := Next(u, w, ToClient(p, r));
    assert w.acks == [] && w'.acks == [p];
    forall q | q in w'.net
      ensures OwnPacket(u, w', q)
    {
      if q in w.net {
        assert OwnPacket(u, w, q);
      }
    }
  }

  // A step that changes nothing but the client's status.
  lemma SameQuiet(u: Setup, w: World, w': World)
    requires Configured(u.server) && Quiet(u, w)
    requires w'.net == w.net && w'.acks == w.acks && w'.server == w.server && w'.issued == w.issued
    requires w'.client.status == Established ==> FromEcho(u, w)
    ensures Quiet(u, w')
  {
    hide Reply, Restored, Parse, OwnPacket;
    forall q | q in w'.net
      ensures OwnPacket(u, w', q)
    {
      OwnKept(u, w, w', q);
    }
  }

  lemma QuietStep(u: Setup, w: World, e: Event)
    requires Sound(u) && Inv(u, w) && Quiet(u, w) && Can(u, w, e) && !e.Inject?
    ensures Quiet(u, Next(u, w, e))
  {
    hide Wire, Unforged, Verifies, Serialize, Parse, Restored, Reply, Echo, Ack, Adopted;
    PortFits(e.p);
    var p, w' := e.p, Next(u, w, e);
    if e.ToServer? && Taken(u.server, u.mac, w.server, p) {
      ServerNever(u, w, p);
      if p.chunk.Init? {
        InitQuiet(u, w, p, e.r);
      } else {
        EchoQuiet(u, w, p, e.r);
      }
    } else if e.ToClient? && Taken(u.client, u.clientMac, w.client, p) {
      ClientOnly(u, w, p);
      if p.chunk.InitAck? {
        AckTakenQuiet(u, w, p, e.r);
      } else {
        assert OwnPacket(u, w, p);
        SameQuiet(u, w, w');
      }
    } else {
      SameQuiet(u, w, w');
    }
  }

  lemma ClientOnly(u: Setup, w: World, p: Packet)
    requires Inv(u, w) && p.dstPort < U16 && Taken(u.client, u.clientMac, w.client, p)
    ensures p.chunk.InitAck? || p.chunk.CookieAck?
  {
  }

  lemma {:induction false} QuietRun(u: Setup, w: World, es: seq<Event>)
    requires Sound(u) && Inv(u, w) && Quiet(u, w) && CanRun(u, w, es)
    requires forall e :: e in es ==> !e.Inject?
    ensures Inv(u, Exec(u, w, es)) && Quiet(u, Exec(u, w, es))
    decreases |es|
  {
    hide Inv, Can, Next, Quiet;
    if es != [] {
      StepInv(u, w, es[0]);
      QuietStep(u, w, es[0]);
      QuietRun(u, Next(u, w, es[0]), es[1..]);
    }
  }

  // The cookie in a reply is that of its issue.
  lemma ReplyCookie(u: Setup, i: Issue)
    requires Sound(u) && i.init.chunk.Init? && Wire(i.init) && Drawn(i.random)
    ensures
      var c := Reply(u.server, u.mac, i.init, i.random).chunk;
      && c.initTag == i.random.ackTag && c.initTsn == i.random.ackTsn && c.window == Swap32(u.server.window)
      && c.os == Swap16(u.server.os) && c.mis == Swap16(u.server.mis)
      && |c.data| >= COOKIE && Parse(c.data[..COOKIE]) == IssuedCookie(u, i)
  {
    hide Serialize, Parse;
    var cookie := IssuedCookie(u, i);
    CookieFits(u, i);
    CookieRoundTrip(cookie);
    assert Signed(u.mac, cookie)[..COOKIE] == Serialize(cookie);
  }

  // Both sides hold what one answer to the client's own INIT says: the server the INIT and the cookie's
  // tag, the client the tag and TSN of that same INIT ACK and, in network order, the server's window and counts.
  ghost predicate Agreed(u: Setup, w: World, i: Issue)
    requires Configured(u.server)
  {
    && i.init == u.init && |w.acks| == 1 && IsReply(u, w.acks[0], i)
    && Matches(w.server, i) && w.client.verTag == i.random.ackTag && w.client.tsn == i.random.ackTsn
    && w.client.window == Swap32(u.server.window)
    && w.client.os == Swap16(u.server.os) && w.client.mis == Swap16(u.server.mis)
  }

  // The tag the client sends under is the one the server keeps.
  predicate SameTag(w: World) { w.client.verTag == w.server.initTag }

  // When only the two of them send, an established client and its server agree on one answered INIT,
  // however packets were lost, repeated or reordered. They have the same tag if and only if the two
  // numbers the server drew in that answer, for the INIT ACK and for its cookie, are equal.
  lemma Agreement(u: Setup, es: seq<Event>)
    requires Sound(u) && CanRun(u, Start(u), es) && forall e :: e in es ==> !e.Inject?
    requires Exec(u, Start(u), es).client.status == Established
    ensures
      var w := Exec(u, Start(u), es);
      exists i ::
        && 0 <= i < |w.issued| && Agreed(u, w, w.issued[i])
        && (SameTag(w) <==> w.issued[i].random.ackTag == w.issued[i].random.cookieTag)
  {
    hide CanRun, Exec, Wire, Unforged, Reply, Parse;
    StartInv(u);
    StartQuiet(u);
    QuietRun(u, Start(u), es);
    var w := Exec(u, Start(u), es);
    assert OwnPacket(u, w, w.acks[0]);
    var i :| 0 <= i < |w.issued| && IsReply(u, w.acks[0], w.issued[i]);
    assert OwnPacket(u, w, w.issued[i].init);
    ReplyCookie(u, w.issued[i]);
    assert Agreed(u, w, w.issued[i]);
  }

  // --------------------------------------------- the undisturbed handshake

  // The client's packets reach the server and the server's replies reach the client.
  predicate Facing(u: Setup)
    requires u.init.dstPort < U16 && u.init.srcPort < U16 && u.peer.dstPort < U16
  {
    && u.init.dstIp == u.peer.dstIp == u.server.srcIp && u.init.srcIp == u.client.srcIp
    && Swap16(u.init.dstPort) == Swap16(u.peer.dstPort) == u.server.srcPort
    && Swap16(u.init.srcPort) == u.client.srcPort
  }

  lemma Answered(u: Setup, r: Random) returns (w: World, ack: Packet)
    requires Sound(u) && Wire(u.init) && Wire(u.peer) && Facing(u) && Drawn(r)
    ensures Can(u, Start(u), ToServer(u.init, r)) && w == Next(u, Start(u), ToServer(u.init, r))
    ensures ack == Reply(u.server, u.mac, u.init, r) && ack in w.net && w.issued == [Issue(u.init, r)]
    ensures w.server == u.server0 && w.client == u.client0
  {
    hide Reply;
    w := Next(u, Start(u), ToServer(u.init, r));
    ack := Reply(u.server, u.mac, u.init, r);
  }

  lemma Echoed(u: Setup, w: World, r: Random, ack: Packet) returns (w': World, echo: Packet)
    requires Sound(u) && Wire(u.init) && Wire(u.peer) && Facing(u) && Drawn(r)
    requires w.client == u.client0 && ack in w.net && ack == Reply(u.server, u.mac, u.init, r)
    ensures Can(u, w, ToClient(ack, r)) && w' == Next(u, w, ToClient(ack, r))
    ensures w'.client == Adopted(u.client0, ack) && w'.server == w.server && w'.issued == w.issued
    ensures echo == Echo(u.client, w'.client, u.peer) && echo in w'.net
  {
    hide Adopted, Echo, Serialize;
    ReplyOk(u, [], u.init, r);
    var bytes := Serialize(CookieFor(u.server, u.init, r));
    assert DigestSized(u.mac, bytes);
    w' := Next(u, w, ToClient(ack, r));
    echo := Echo(u.client, w'.client, u.peer);
  }

  lemma Restores(u: Setup, w: World, r: Random, echo: Packet) returns (w': World, done: Packet)
    requires Sound(u) && Wire(u.init) && Wire(u.peer) && Facing(u) && Drawn(r)
    requires w.server == u.server0 && echo in w.net && Wire(echo)
    requires echo.dstIp == u.server.srcIp && echo.dstPort == u.peer.dstPort
    requires echo.chunk == CookieEcho(ECHO_MIN, Signed(u.mac, CookieFor(u.server, u.init, r)))
    ensures Can(u, w, ToServer(echo, r)) && w' == Next(u, w, ToServer(echo, r))
    ensures w'.client == w.client && w'.server == Restored(u.server0, CookieFor(u.server, u.init, r))
    ensures done == Ack(u.server, CookieFor(u.server, u.init, r)) && done in w'.net
  {
    hide Serialize, Parse, Restored, Ack;
    var c := CookieFor(u.server, u.init, r);
    CookieFits(u, Issue(u.init, r));
    CookieRoundTrip(c);
    assert DigestSized(u.mac, Serialize(c));
    var data := Signed(u.mac, c);
    assert data[..COOKIE] == Serialize(c) && data[COOKIE..COOKIE + HMAC] == u.mac(Serialize(c));
    w' := Next(u, w, ToServer(echo, r));
    done := Ack(u.server, c);
  }

  // INIT, INIT ACK, COOKIE ECHO and COOKIE ACK, each delivered once.
  ghost function Deliveries(u: Setup, r: Random): seq<Event>
    requires Sound(u)
  {
    var ack := Reply(u.server, u.mac, u.init, r);
    var echo := Echo(u.client, Adopted(u.client0, ack), u.peer);
    var done := Ack(u.server, CookieFor(u.server, u.init, r));
    [ToServer(u.init, r)] + ([ToClient(ack, r)] + ([ToServer(echo, r)] + [ToClient(done, r)]))
  }

  // Delivered in order, the four packets establish both sides.
  lemma Completes(u: Setup, r: Random)
    requires Sound(u) && Wire(u.init) && Wire(u.peer) && Facing(u) && Drawn(r)
    ensures CanRun(u, Start(u), Deliveries(u, r))
    ensures
      var w := Exec(u, Start(u), Deliveries(u, r));
      && w.client.status == Established && Matches(w.server, Issue(u.init, r))
      && (SameTag(w) <==> r.ackTag == r.cookieTag)
  {
    hide Next, Serialize, Parse, CanRun, Exec, Can;
    var w1, ack := Answered(u, r);
    var w2, echo := Echoed(u, w1, r, ack);
    SignedSize(u, r);
    EchoOk(u, w1, ack, w2.client) by {
      ReplyOk(u, [], u.init, r);
    }
    var w3, done := Restores(u, w2, r, echo);
    var w4 := Finished(u, w3, r, done);
    RunFirst(u, w3, ToClient(done, r), []);
    assert [ToClient(done, r)] + [] == [ToClient(done, r)];
    RunFirst(u, w2, ToServer(echo, r), [ToClient(done, r)]);
    RunFirst(u, w1, ToClient(ack, r), [ToServer(echo, r)] + [ToClient(done, r)]);
    RunFirst(u, Start(u), ToServer(u.init, r), [ToClient(ack, r)] + ([ToServer(echo, r)] + [ToClient(done, r)]));
  }

  lemma RunFirst(u: Setup, w: World, e: Event, es: seq<Event>)
    requires Configured(u.server) && Configured(u.client)
    requires Can(u, w, e) && (es == [] || CanRun(u, Next(u, w, e), es))
    ensures CanRun(u, w, [e] + es)
    ensures Exec(u, w, [e] + es) == if es == [] then Next(u, w, e) else Exec(u, Next(u, w, e), es)
  {
    hide Next, Can;
    assert ([e] + es)[1..] == es;
  }

  lemma SignedSize(u: Setup, r: Random)
    requires Sound(u) && Drawn(r)
    ensures |Signed(u.mac, CookieFor(u.server, u.init, r))| == COOKIE + HMAC
  {
    assert DigestSized(u.mac, Serialize(CookieFor(u.server, u.init, r)));
  }

  lemma Finished(u: Setup, w: World, r: Random, done: Packet) returns (w': World)
    requires Sound(u) && Wire(u.init) && Wire(u.peer) && Facing(u) && Drawn(r)
    requires w.client.status == InitAckReceived && done in w.net
    requires done == Ack(u.server, CookieFor(u.server, u.init, r))
    ensures Can(u, w, ToClient(done, r)) && w' == Next(u, w, ToClient(done, r))
    ensures w'.client == w.client.(status := Established) && w'.server == w.server
  {
    w' := Next(u, w, ToClient(done, r));
  }

  // --------------------------------------------- which clients can become established

  // No packet moves a client on unless it has sent an INIT or waits for a COOKIE ACK.
  lemma {:induction false} StatusFixed(u: Setup, w: World, es: seq<Event>)
    requires Configured(u.server) && Configured(u.client) && CanRun(u, w, es)
    requires w.client.status != InitSent && w.client.status != InitAckReceived
    ensures Exec(u, w, es).client.status == w.client.status
    ensures w.client.status != Listen ==> Exec(u, w, es).client == w.client
    decreases |es|
  {
    hide Wire, Unforged, Verifies, Parse;
    if es != [] {
      if es[0].ToClient? {
        PortFits(es[0].p);
      }
      StatusFixed(u, Next(u, w, es[0]), es[1..]);
    }
  }

  // The COOKIE ACK for the client, from anyone.
  function ForgedAck(u: Setup): Packet {
    Packet(u.server.srcIp, u.client.srcIp, u.init.dstPort, u.init.srcPort, 0, CookieAck(4))
  }

  lemma AckEstablishes(u: Setup)
    requires Plain(u) && Wire(u.init) && Wire(u.peer) && Facing(u) && u.client0.status == InitAckReceived
    ensures
      var es := [Inject(ForgedAck(u)), ToClient(ForgedAck(u), Random(0, 0, 0))];
      CanRun(u, Start(u), es) && Exec(u, Start(u), es).client.status == Established
  {
    var p, r := ForgedAck(u), Random(0, 0, 0);
    var w1 := Next(u, Start(u), Inject(p));
    RunFirst(u, w1, ToClient(p, r), []);
    assert [ToClient(p, r)] + [] == [ToClient(p, r)];
    RunFirst(u, Start(u), Inject(p), [ToClient(p, r)]);
    assert [Inject(p)] + [ToClient(p, r)] == [Inject(p), ToClient(p, r)];
  }

  ghost predicate CanEstablish(u: Setup)
    requires Plain(u)
  {
    exists es :: CanRun(u, Start(u), es) && Exec(u, Start(u), es).client.status == Established
  }

  // A client that is not established becomes so in some run if and only if it starts having sent its
  // INIT, or waiting for a COOKIE ACK. The status create_client sets is neither.
  lemma EstablishableIff(u: Setup)
    requires Plain(u) && Wire(u.init) && Wire(u.peer) && Facing(u) && u.client0.status != Established
    ensures CanEstablish(u) <==> u.client0.status == InitSent || u.client0.status == InitAckReceived
  {
    hide Wire, CanRun, Exec, Facing;
    if u.client0.status == InitSent {
      Completes(u, Random(0, 0, 0));
    } else if u.client0.status == InitAckReceived {
      AckEstablishes(u);
    } else if CanEstablish(u) {
      var es :| CanRun(u, Start(u), es) && Exec(u, Start(u), es).client.status == Established;
      StatusFixed(u, Start(u), es);
    }
  }
}
