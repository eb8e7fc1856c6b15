/** A server and a client over a network that loses, duplicates, reorders and adds packets. */
module HandshakeRuns {
  import opened Constants
  import opened Bytes
  import opened Handshake
  import Builders
  import HmacMd5
  import Md5

  // One INIT the server answered, with the random numbers it used.
  datatype Issue = Issue(init: Packet, random: Random)

  // net only grows, so a packet may be delivered never, late or many times.
  datatype World = World(server: State, client: State, net: set<Packet>, issued: seq<Issue>,
                         acks: seq<Packet>,        // the INIT ACKs the client took
                         path: seq<Status>)        // the client's statuses

  datatype Event = ToServer(p: Packet, r: Random) | ToClient(p: Packet, r: Random) | Inject(p: Packet)

  datatype Setup = Setup(server: Config, client: Config, mac: Mac, clientMac: Mac, peer: Packet, init: Packet,
                         server0: State, client0: State)

  // A listening server; nothing is said of the client's status.
  ghost predicate Plain(u: Setup) {
    && Configured(u.server) && Configured(u.client) && Digests(u.mac) && Wire(u.peer)
    && Wire(u.init) && u.init.chunk.Init?
    && u.server0.status == Listen
  }

  // The client has sent its INIT.
  ghost predicate Sound(u: Setup) {
    Plain(u) && u.client0.status == InitSent
  }

  // The MAC the server uses is one of the functions the handshake is about.
  lemma HmacDigests(f: Md5.Compress)
    ensures Digests(s => HmacMd5.Hmac(f, Builders.KEY, s))
  {
    var mac: Mac := s => HmacMd5.Hmac(f, Builders.KEY, s);
    forall s
      ensures DigestSized(mac, s)
    {
      assert |HmacMd5.Hmac(f, Builders.KEY, s)| == HMAC;
    }
  }

  function Start(u: Setup): World {
    World(u.server0, u.client0, {u.init}, [], [], [u.client0.status])
  }

  function IssuedCookie(u: Setup, i: Issue): Cookie
    requires i.init.chunk.Init?
  {
    CookieFor(u.server, i.init, i.random)
  }

  // A digest that matches was made by the server: nobody else can make one.
  predicate Genuine(u: Setup, issued: seq<Issue>, data: seq<bv8>) {
    Verifies(u.mac, data) ==>
      exists i :: 0 <= i < |issued| && issued[i].init.chunk.Init? && data[..COOKIE] == Serialize(IssuedCookie(u, issued[i]))
  }

  predicate Unforged(u: Setup, issued: seq<Issue>, p: Packet) {
    match p.chunk
    case InitAck(_, _, _, _, _, _, data) => Genuine(u, issued, data)
    case CookieEcho(_, data) => Genuine(u, issued, data)
    case _ => true
  }

  predicate Can(u: Setup, w: World, e: Event) {
    match e
    case ToServer(p, r) => p in w.net && Wire(p) && Drawn(r)
    case ToClient(p, r) => p in w.net && Wire(p) && Drawn(r)
    case Inject(p) => Wire(p) && Unforged(u, w.issued, p)
  }

  function Packets(s: seq<Packet>): set<Packet> { set p | p in s }

  function Next(u: Setup, w: World, e: Event): World
    requires Configured(u.server) && Configured(u.client)
    requires Can(u, w, e)
  {
    match e
    case ToServer(p, r) =>
      w.(server := After(u.server, u.mac, w.server, p),
         net := w.net + Packets(Sent(u.server, u.mac, w.server, p, u.peer, r)),
         issued := if Taken(u.server, u.mac, w.server, p) && p.chunk.Init? then w.issued + [Issue(p, r)] else w.issued)
    case ToClient(p, r) =>
      var s := After(u.client, u.clientMac, w.client, p);
      w.(client := s,
         net := w.net + Packets(Sent(u.client, u.clientMac, w.client, p, u.peer, r)),
         acks := if Taken(u.client, u.clientMac, w.client, p) && p.chunk.InitAck? then w.acks + [p] else w.acks,
         path := if s.status == w.client.status then w.path else w.path + [s.status])
    case Inject(p) =>
      w.(net := w.net + {p})
  }

  // --------------------------------------------- the invariant

  predicate NetOk(u: Setup, w: World) {
    forall p :: p in w.net ==> Wire(p) && Unforged(u, w.issued, p)
  }

  predicate IssuedOk(w: World) {
    forall i :: 0 <= i < |w.issued| ==>
      && w.issued[i].init.chunk.Init? && w.issued[i].init in w.net
      && Wire(w.issued[i].init) && Drawn(w.issued[i].random)
  }

  // The server is untouched, or holds what one INIT put into its cookie.
  predicate ServerOk(u: Setup, w: World)
    requires IssuedOk(w)
  {
    w.server == u.server0
    || exists i :: 0 <= i < |w.issued| && w.server == Restored(u.server0, IssuedCookie(u, w.issued[i]))
  }

  // The client's statuses, the INIT ACK it took and what it holds from it.
  predicate ClientOk(u: Setup, w: World) {
    match w.client.status
    case InitSent => w.acks == [] && w.path == [InitSent] && w.client == u.client0
    case InitAckReceived =>
      |w.acks| == 1 && w.path == [InitSent, InitAckReceived] && FromAck(u, w)
    case Established =>
      |w.acks| == 1 && w.path == [InitSent, InitAckReceived, Established] && FromAck(u, w)
    case _ => false
  }

  predicate FromAck(u: Setup, w: World)
    requires |w.acks| == 1
  {
    var a := w.acks[0];
    && a.chunk.InitAck? && a in w.net
    && w.client == Adopted(u.client0, a).(status := w.client.status)
    && u.client.srcPort < U16 && Echo(u.client, w.client, u.peer) in w.net
  }

  predicate Inv(u: Setup, w: World) {
    NetOk(u, w) && IssuedOk(w) && ServerOk(u, w) && ClientOk(u, w)
  }

  lemma StartInv(u: Setup)
    requires Sound(u)
    ensures Inv(u, Start(u))
  {
  }

  // --------------------------------------------- what each packet sent looks like

  lemma GenuineKept(u: Setup, issued: seq<Issue>, more: seq<Issue>, data: seq<bv8>)
    requires Genuine(u, issued, data)
    ensures Genuine(u, issued + more, data)
  {
    if Verifies(u.mac, data) {
      var i :| 0 <= i < |issued| && issued[i].init.chunk.Init? && data[..COOKIE] == Serialize(IssuedCookie(u, issued[i]));
      assert (issued + more)[i] == issued[i];
    }
  }

  lemma NetKept(u: Setup, net: set<Packet>, issued: seq<Issue>, more: seq<Issue>)
    requires forall p :: p in net ==> Wire(p) && Unforged(u, issued, p)
    ensures forall p :: p in net ==> Wire(p) && Unforged(u, issued + more, p)
  {
    hide Wire, Genuine;
    forall p | p in net
      ensures Unforged(u, issued + more, p)
    {
      match p.chunk
      case InitAck(_, _, _, _, _, _, data) => GenuineKept(u, issued, more, data);
      case CookieEcho(_, data) => GenuineKept(u, issued, more, data);
      case _ =>
    }
  }

  lemma ReplyOk(u: Setup, issued: seq<Issue>, p: Packet, r: Random)
    requires Sound(u) && Wire(p) && p.chunk.Init? && Drawn(r)
    ensures Wire(Reply(u.server, u.mac, p, r))
    ensures Unforged(u, issued + [Issue(p, r)], Reply(u.server, u.mac, p, r))
  {
    hide Serialize;
    var c := CookieFor(u.server, p, r);
    assert DigestSized(u.mac, Serialize(c));
    var data := Signed(u.mac, c);
    assert data[..COOKIE] == Serialize(c);
    assert (issued + [Issue(p, r)])[|issued|] == Issue(p, r);
  }

  // A prefix of what the client got verifies only if the whole did.
  lemma EchoOk(u: Setup, w: World, p: Packet, s: State)
    requires Sound(u) && Wire(p) && Unforged(u, w.issued, p) && p.chunk.InitAck? && p.chunk.len > ACK_FIXED
    requires s.echo == p.chunk.data && s.verTag == p.chunk.initTag
    ensures Wire(Echo(u.client, s, u.peer)) && Unforged(u, w.issued, Echo(u.client, s, u.peer))
  {
  }

  lemma CookieFits(u: Setup, i: Issue)
    requires Sound(u) && i.init.chunk.Init? && Wire(i.init) && Drawn(i.random)
    ensures Fits(IssuedCookie(u, i))
  {
  }

  // An echo the server takes carries the cookie of one INIT it answered.
  lemma EchoNames(u: Setup, w: World, p: Packet) returns (i: nat)
    requires Sound(u) && IssuedOk(w) && Unforged(u, w.issued, p)
    requires p.chunk.CookieEcho? && Verifies(u.mac, p.chunk.data)
    ensures i < |w.issued| && Parse(p.chunk.data[..COOKIE]) == IssuedCookie(u, w.issued[i])
  {
    hide Serialize, Parse;
    i :| 0 <= i < |w.issued| && p.chunk.data[..COOKIE] == Serialize(IssuedCookie(u, w.issued[i]));
    CookieFits(u, w.issued[i]);
    CookieRoundTrip(IssuedCookie(u, w.issued[i]));
  }

  lemma AckOk(u: Setup, issued: seq<Issue>, i: Issue)
    requires Sound(u) && i.init.chunk.Init? && Wire(i.init)
    ensures Wire(Ack(u.server, IssuedCookie(u, i))) && Unforged(u, issued, Ack(u.server, IssuedCookie(u, i)))
  {
  }

  // --------------------------------------------- every step keeps the invariant

  lemma ServerStep(u: Setup, w: World, p: Packet, r: Random)
    requires Sound(u) && Inv(u, w) && Can(u, w, ToServer(p, r))
    ensures Inv(u, Next(u, w, ToServer(p, r)))
  {
    hide Wire, Unforged, Verifies, Serialize, Parse, Restored, Reply, Ack, CookieFor, IssuedCookie, ClientOk;
    PortFits(p);
    var w' := Next(u, w, ToServer(p, r));
    ClientKept(u, w, w');
    if Taken(u.server, u.mac, w.server, p) {
      match p.chunk
      case Init(_, _, _, _, _) =>
        ReplyOk(u, w.issued, p, r);
        NetKept(u, w.net, w.issued, [Issue(p, r)]);
        ServerKept(u, w, w');
      case CookieEcho(_, data) =>
        var i := EchoIn(u, w, p);
        RestoredTwice(u, w, IssuedCookie(u, w.issued[i]));
        AckOk(u, w.issued, w.issued[i]);
      case _ =>
        ServerNever(u, w, p);
    }
  }

  lemma PortFits(p: Packet)
    requires Wire(p)
    ensures p.dstPort < U16
  {
  }

  lemma ServerNever(u: Setup, w: World, p: Packet)
    requires Sound(u) && IssuedOk(w) && ServerOk(u, w) && p.dstPort < U16
    requires Taken(u.server, u.mac, w.server, p)
    ensures p.chunk.Init? || p.chunk.CookieEcho?
  {
  }

  lemma EchoIn(u: Setup, w: World, p: Packet) returns (i: nat)
    requires Sound(u) && Inv(u, w) && p in w.net && p.dstPort < U16
    requires p.chunk.CookieEcho? && Taken(u.server, u.mac, w.server, p)
    ensures i < |w.issued| && Parse(p.chunk.data[..COOKIE]) == IssuedCookie(u, w.issued[i])
  {
    hide Parse, Verifies, Wire;
    i := EchoNames(u, w, p);
  }

  lemma RestoredTwice(u: Setup, w: World, c: Cookie)
    requires IssuedOk(w) && ServerOk(u, w)
    ensures Restored(w.server, c) == Restored(u.server0, c)
  {
  }

  lemma ServerKept(u: Setup, w: World, w': World)
    requires IssuedOk(w) && IssuedOk(w') && ServerOk(u, w) && w'.server == w.server
    requires |w.issued| <= |w'.issued| && w.issued == w'.issued[..|w.issued|]
    ensures ServerOk(u, w')
  {
    if w.server != u.server0 {
      var i :| 0 <= i < |w.issued| && w.server == Restored(u.server0, IssuedCookie(u, w.issued[i]));
      assert w'.issued[i] == w.issued[i];
    }
  }

  lemma ClientKept(u: Setup, w: World, w': World)
    requires ClientOk(u, w)
    requires w'.client == w.client && w'.acks == w.acks && w'.path == w.path && w.net <= w'.net
    ensures ClientOk(u, w')
  {
  }

  lemma ClientStep(u: Setup, w: World, p: Packet, r: Random)
    requires Sound(u) && Inv(u, w) && Can(u, w, ToClient(p, r))
    ensures Inv(u, Next(u, w, ToClient(p, r)))
  {
    hide Wire, Unforged, Verifies, Serialize, Parse, Restored, Echo, IssuedCookie;
    PortFits(p);
    var w' := Next(u, w, ToClient(p, r));
    ServerKept(u, w, w');
    if Taken(u.client, u.clientMac, w.client, p) {
      match p.chunk
      case InitAck(_, _, _, _, _, _, _) =>
        EchoOk(u, w, p, w'.client);
        assert Echo(u.client, w'.client, u.peer) in w'.net;
      case CookieAck(_) =>
        EchoSame(u, w.client, w'.client);
      case _ =>
        assert false;
    } else {
      ClientKept(u, w, w');
    }
  }

  lemma EchoSame(u: Setup, s: State, t: State)
    requires u.client.srcPort < U16 && s.verTag == t.verTag && s.echo == t.echo
    ensures Echo(u.client, s, u.peer) == Echo(u.client, t, u.peer)
  {
  }

  lemma StepInv(u: Setup, w: World, e: Event)
    requires Sound(u) && Inv(u, w) && Can(u, w, e)
    ensures Inv(u, Next(u, w, e))
  {
    hide Wire, Unforged;
    match e
    case ToServer(p, r) => ServerStep(u, w, p, r);
    case ToClient(p, r) => ClientStep(u, w, p, r);
    case Inject(p) =>
      ServerKept(u, w, Next(u, w, e));
      ClientKept(u, w, Next(u, w, e));
  }

  // --------------------------------------------- runs

  predicate CanRun(u: Setup, w: World, es: seq<Event>)
    requires Configured(u.server) && Configured(u.client)
    decreases |es|
  {
    es == [] || (Can(u, w, es[0]) && CanRun(u, Next(u, w, es[0]), es[1..]))
  }

  function Exec(u: Setup, w: World, es: seq<Event>): World
    requires Configured(u.server) && Configured(u.client) && CanRun(u, w, es)
    decreases |es|
  {
    if es == [] then w else Exec(u, Next(u, w, es[0]), es[1..])
  }

  ghost predicate Reachable(u: Setup, w: World)
    requires Sound(u)
  {
    exists es :: CanRun(u, Start(u), es) && w == Exec(u, Start(u), es)
  }

  lemma {:induction false} RunInv(u: Setup, w: World, es: seq<Event>)
    requires Sound(u) && Inv(u, w) && CanRun(u, w, es)
    ensures Inv(u, Exec(u, w, es))
    decreases |es|
  {
    hide Inv, Can, Next;
    if es != [] {
      StepInv(u, w, es[0]);
      RunInv(u, Next(u, w, es[0]), es[1..]);
    }
  }

  lemma ReachableInv(u: Setup, w: World)
    requires Sound(u) && Reachable(u, w)
    ensures Inv(u, w)
  {
    hide Inv, Next, Can;
    var es :| CanRun(u, Start(u), es) && w == Exec(u, Start(u), es);
    StartInv(u);
    RunInv(u, Start(u), es);
  }

  // Tag, window, stream counts, TSNs, address and port are those of one INIT the server answered, and
  // the other tag is the one drawn for it.
  predicate Matches(s: State, i: Issue) {
    && i.init.chunk.Init?
    && s.verTag == i.init.chunk.initTag && s.window == i.init.chunk.window
    && s.os == i.init.chunk.os && s.mis == i.init.chunk.mis
    && s.tsn == s.dstTsn == i.init.chunk.initTsn
    && s.dstIp == i.init.srcIp && s.dstPort == i.init.srcPort
    && s.initTag == i.random.cookieTag
  }

  // A packet for another address or port changes nothing anywhere.
  lemma NotAddressed(u: Setup, w: World, e: Event)
    requires Configured(u.server) && Configured(u.client) && Can(u, w, e) && !e.Inject? && e.p.dstPort < U16
    requires
      var side := if e.ToServer? then u.server else u.client;
      e.p.dstIp != side.srcIp || Swap16(e.p.dstPort) != side.srcPort
    ensures Next(u, w, e) == w
  {
    hide Wire, Unforged;
  }

  // In every reachable state the server holds nothing, or all it holds comes from one INIT packet
  // that reached it; it goes on listening.
  lemma ServerFromOneInit(u: Setup, w: World)
    requires Sound(u) && Reachable(u, w)
    ensures w.server.status == Listen
    ensures w.server == u.server0
         || exists i :: 0 <= i < |w.issued| && w.issued[i].init in w.net && Matches(w.server, w.issued[i])
  {
    hide Reachable;
    ReachableInv(u, w);
    if w.server != u.server0 {
      var i :| 0 <= i < |w.issued| && w.server == Restored(u.server0, IssuedCookie(u, w.issued[i]));
      assert Matches(w.server, w.issued[i]);
    }
  }

  // However long ago its INIT was, a COOKIE ECHO the server takes restores exactly that INIT.
  lemma EchoRestoresOneInit(u: Setup, w: World, p: Packet)
    requires Sound(u) && Reachable(u, w) && p in w.net && p.dstPort < U16
    requires p.chunk.CookieEcho? && Taken(u.server, u.mac, w.server, p)
    ensures exists i :: 0 <= i < |w.issued| && w.issued[i].init in w.net
                        && Matches(After(u.server, u.mac, w.server, p), w.issued[i])
  {
    hide Reachable, Verifies, Parse, Wire, Unforged;
    ReachableInv(u, w);
    var i := EchoIn(u, w, p);
    assert Matches(After(u.server, u.mac, w.server, p), w.issued[i]);
  }

  // A cookie cannot come from two INITs that differ, so what an echo restores is never a mix.
  lemma CookieDetermines(u: Setup, i: Issue, j: Issue)
    requires Sound(u) && i.init.chunk.Init? && j.init.chunk.Init?
    requires Wire(i.init) && Wire(j.init) && Drawn(i.random) && Drawn(j.random)
    requires Serialize(IssuedCookie(u, i)) == Serialize(IssuedCookie(u, j))
    ensures i.init.chunk == j.init.chunk && i.init.srcIp == j.init.srcIp && i.init.srcPort == j.init.srcPort
    ensures i.random.cookieTag == j.random.cookieTag
  {
    hide Serialize, Parse;
    CookieFits(u, i);
    CookieFits(u, j);
    CookieRoundTrip(IssuedCookie(u, i));
    CookieRoundTrip(IssuedCookie(u, j));
  }

  // A client that is established took one INIT ACK, went through INIT_ACK_RECEIVED once, still holds
  // that INIT ACK's tag, window, counts and TSN, and echoed that INIT ACK's cookie under its tag.
  lemma ClientEstablished(u: Setup, w: World)
    requires Sound(u) && Reachable(u, w) && w.client.status == Established
    ensures w.path == [InitSent, InitAckReceived, Established]
    ensures |w.acks| == 1 && w.acks[0].chunk.InitAck? && w.acks[0] in w.net
    ensures
      var c := w.acks[0].chunk;
      && w.client.verTag == c.initTag && w.client.window == c.window && w.client.os == c.os
      && w.client.mis == c.mis && w.client.tsn == c.initTsn && w.client.echo == c.data
    ensures exists p :: p in w.net && p.chunk.CookieEcho? && p.tag == w.client.verTag
                        && p.chunk.data == w.acks[0].chunk.data
  {
    hide Reachable;
    ReachableInv(u, w);
    assert Echo(u.client, w.client, u.peer) in w.net;
  }
}
