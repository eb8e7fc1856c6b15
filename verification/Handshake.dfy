/** The four-way handshake: cookies, the chunk handlers and the dispatch on the association status. */
module Handshake {
  import opened Constants
  import opened Bytes
  import Layout

  const ECHO_MIN: nat := 4 + COOKIE + HMAC       // chunk or parameter header, cookie, digest
  const ACK_FIXED: nat := 4 + 16 + 4             // chunk header, INIT ACK header, parameter header

  datatype Status = Listen | InitSent | InitAckReceived | Established | Elsewhere

  // --------------------------------------------- cookies

  datatype Cookie = Cookie(verTag: nat, initTag: nat, window: nat, os: nat, mis: nat, tsn: nat, dstTsn: nat,
                           srcIp: nat, dstIp: nat, srcPort: nat, dstPort: nat)

  predicate Fits(c: Cookie) {
    && c.verTag < U32 && c.initTag < U32 && c.window < U32 && c.os < U16 && c.mis < U16
    && c.tsn < U32 && c.dstTsn < U32 && c.srcIp < U32 && c.dstIp < U32 && c.srcPort < U32 && c.dstPort < U32
  }

  // The cookie structure as it lies in a packet.
  function Serialize(c: Cookie): (r: seq<bv8>)
    ensures |r| == COOKIE
  {
    LeBytes(c.verTag, 4) + LeBytes(c.initTag, 4) + LeBytes(c.window, 4) + LeBytes(c.os, 2) + LeBytes(c.mis, 2)
    + LeBytes(c.tsn, 4) + LeBytes(c.dstTsn, 4) + LeBytes(c.srcIp, 4) + LeBytes(c.dstIp, 4)
    + LeBytes(c.srcPort, 4) + LeBytes(c.dstPort, 4)
  }

  function Parse(s: seq<bv8>): Cookie
    requires |s| == COOKIE
  {
    Cookie(FromLe(s[0..4]), FromLe(s[4..8]), FromLe(s[8..12]), FromLe(s[12..14]), FromLe(s[14..16]),
           FromLe(s[16..20]), FromLe(s[20..24]), FromLe(s[24..28]), FromLe(s[28..32]),
           FromLe(s[32..36]), FromLe(s[36..40]))
  }

  lemma LeRoundTrip4(x: nat)
    requires x < U32
    ensures FromLe(LeBytes(x, 4)) == x
  {
    Pow256Four();
    LeRoundTrip(x, 4);
  }

  lemma LeRoundTrip2(x: nat)
    requires x < U16
    ensures FromLe(LeBytes(x, 2)) == x
  {
    assert Pow256(2) == U16;
    LeRoundTrip(x, 2);
  }

  lemma CookieRoundTrip(c: Cookie)
    requires Fits(c)
    ensures Parse(Serialize(c)) == c
  {
    hide LeBytes, FromLe;
    LeRoundTrip4(c.verTag);
    LeRoundTrip4(c.initTag);
    LeRoundTrip4(c.window);
    LeRoundTrip2(c.os);
    LeRoundTrip2(c.mis);
    LeRoundTrip4(c.tsn);
    LeRoundTrip4(c.dstTsn);
    LeRoundTrip4(c.srcIp);
    LeRoundTrip4(c.dstIp);
    LeRoundTrip4(c.srcPort);
    LeRoundTrip4(c.dstPort);
    CookieSlices(c);
  }

  lemma CookieSlices(c: Cookie)
    ensures
      var s := Serialize(c);
      && s[0..4] == LeBytes(c.verTag, 4) && s[4..8] == LeBytes(c.initTag, 4) && s[8..12] == LeBytes(c.window, 4)
      && s[12..14] == LeBytes(c.os, 2) && s[14..16] == LeBytes(c.mis, 2) && s[16..20] == LeBytes(c.tsn, 4)
      && s[20..24] == LeBytes(c.dstTsn, 4) && s[24..28] == LeBytes(c.srcIp, 4) && s[28..32] == LeBytes(c.dstIp, 4)
      && s[32..36] == LeBytes(c.srcPort, 4) && s[36..40] == LeBytes(c.dstPort, 4)
  {
    hide LeBytes;
  }

  // --------------------------------------------- packets

  // len is the chunk length of the header; data is what the buffer holds after the fixed part.
  datatype Chunk =
    | Init(initTag: nat, window: nat, os: nat, mis: nat, initTsn: nat)
    | InitAck(len: nat, initTag: nat, window: nat, os: nat, mis: nat, initTsn: nat, data: seq<bv8>)
    | CookieEcho(len: nat, data: seq<bv8>)
    | CookieAck(len: nat)
    | Other(kind: nat)

  // Addresses and ports as they stand on the wire.
  datatype Packet = Packet(srcIp: nat, dstIp: nat, srcPort: nat, dstPort: nat, tag: nat, chunk: Chunk)

  // The fields fit their wire widths and the buffer holds what the lengths announce.
  predicate Wire(p: Packet) {
    && p.srcIp < U32 && p.dstIp < U32 && p.srcPort < U16 && p.dstPort < U16 && p.tag < U32
    && match p.chunk {
      case Init(tag, window, os, mis, tsn) => tag < U32 && window < U32 && os < U16 && mis < U16 && tsn < U32
      case InitAck(len, tag, window, os, mis, tsn, data) =>
        && len < U16 && tag < U32 && window < U32 && os < U16 && mis < U16 && tsn < U32
        && (len > ACK_FIXED ==> |data| == len - ACK_FIXED)
      case CookieEcho(len, data) => len < U16 && (len >= ECHO_MIN ==> |data| == len - 4)
      case CookieAck(len) => len < U16
      case Other(kind) => true
    }
  }

  // The local side of an association: the ULP configuration, in host order.
  datatype Config = Config(srcIp: nat, srcPort: nat, window: nat, os: nat, mis: nat)

  predicate Configured(cfg: Config) {
    cfg.srcIp < U32 && cfg.srcPort < U16 && cfg.window < U32 && cfg.os < U16 && cfg.mis < U16
  }

  // What the handlers read and write. echo is the cookie a client sends back.
  datatype State = State(status: Status, verTag: nat, initTag: nat, window: nat, os: nat, mis: nat, tsn: nat,
                         dstTsn: nat, dstIp: nat, dstPort: nat, rto: nat, srtt: nat, rttvar: nat,
                         echo: seq<bv8>)

  // The random numbers one INIT uses up.
  datatype Random = Random(ackTag: nat, ackTsn: nat, cookieTag: nat)

  predicate Drawn(r: Random) { r.ackTag < U32 && r.ackTsn < U32 && r.cookieTag < U32 }

  type Mac = seq<bv8> -> seq<bv8>

  predicate DigestSized(mac: Mac, s: seq<bv8>) { |mac(s)| == HMAC }

  ghost predicate Digests(mac: Mac) { forall s :: DigestSized(mac, s) }

  // The cookie of one INIT: every field from that packet, the tag from the random source.
  function CookieFor(cfg: Config, init: Packet, r: Random): Cookie
    requires init.chunk.Init?
  {
    var c := init.chunk;
    Cookie(c.initTag, r.cookieTag, c.window, c.os, c.mis, c.initTsn, c.initTsn,
           init.srcIp, cfg.srcIp, init.srcPort, cfg.srcPort)
  }

  function Signed(mac: Mac, c: Cookie): seq<bv8> { Serialize(c) + mac(Serialize(c)) }

  function SizeOf(s: seq<bv8>): nat { |s| }

  // The digest matches the forty bytes in front of it.
  predicate Verifies(mac: Mac, data: seq<bv8>) {
    |data| >= COOKIE + HMAC && mac(data[..COOKIE]) == data[COOKIE..COOKIE + HMAC]
  }

  // --------------------------------------------- specification of the handlers

  function Reply(cfg: Config, mac: Mac, init: Packet, r: Random): Packet
    requires init.chunk.Init? && Configured(cfg)
  {
    var data := Signed(mac, CookieFor(cfg, init, r));
    Packet(cfg.srcIp, init.srcIp, Swap16(cfg.srcPort), init.srcPort, init.chunk.initTag,
           InitAck(ACK_FIXED + SizeOf(data), r.ackTag, Swap32(cfg.window), Swap16(cfg.os), Swap16(cfg.mis),
                   r.ackTsn, data))
  }

  // The packets go out over prefilled headers: own address and port, the peer's as configured.
  function Echo(cfg: Config, s: State, peer: Packet): Packet
    requires cfg.srcPort < U16
  {
    Packet(cfg.srcIp, peer.dstIp, Swap16(cfg.srcPort), peer.dstPort, s.verTag, CookieEcho(4 + |s.echo|, s.echo))
  }

  function Restored(s: State, c: Cookie): State {
    s.(verTag := c.verTag, initTag := c.initTag, window := c.window, os := c.os, mis := c.mis,
       tsn := c.tsn, dstTsn := c.dstTsn, dstIp := c.srcIp, dstPort := c.srcPort,
       rto := SCTP_RTO_MIN, srtt := 0, rttvar := 0)
  }

  function Ack(cfg: Config, c: Cookie): Packet
    requires cfg.srcPort < U16
  {
    Packet(cfg.srcIp, c.srcIp, Swap16(cfg.srcPort), c.srcPort, c.verTag, CookieAck(4))
  }

  function Adopted(s: State, p: Packet): State
    requires p.chunk.InitAck?
  {
    var c := p.chunk;
    s.(status := InitAckReceived, verTag := c.initTag, os := c.os, mis := c.mis, window := c.window,
       tsn := c.initTsn, echo := c.data)
  }

  // Taken: the packet is for this address and port, the status admits its type, its lengths suffice
  // and, for a cookie, the digest matches.
  predicate Taken(cfg: Config, mac: Mac, s: State, p: Packet)
    requires p.dstPort < U16
  {
    && p.dstIp == cfg.srcIp && Swap16(p.dstPort) == cfg.srcPort
    && match p.chunk {
      case Init(_, _, _, _, _) => s.status == Listen
      case InitAck(len, _, _, _, _, _, _) => s.status == InitSent && len > ACK_FIXED
      case CookieEcho(len, data) => s.status == Listen && len >= ECHO_MIN && Verifies(mac, data)
      case CookieAck(len) => s.status == InitAckReceived && len >= 4
      case Other(_) => false
    }
  }

  function After(cfg: Config, mac: Mac, s: State, p: Packet): State
    requires p.dstPort < U16
  {
    if !Taken(cfg, mac, s, p) then s
    else match p.chunk {
      case Init(_, _, _, _, _) => s
      case InitAck(_, _, _, _, _, _, _) => Adopted(s, p)
      case CookieEcho(_, data) => Restored(s, Parse(data[..COOKIE]))
      case CookieAck(_) => s.(status := Established)
      case Other(_) => s
    }
  }

  function Sent(cfg: Config, mac: Mac, s: State, p: Packet, peer: Packet, r: Random): seq<Packet>
    requires p.dstPort < U16 && Configured(cfg)
  {
    if !Taken(cfg, mac, s, p) then []
    else match p.chunk {
      case Init(_, _, _, _, _) => [Reply(cfg, mac, p, r)]
      case InitAck(_, _, _, _, _, _, _) => [Echo(cfg, Adopted(s, p), peer)]
      case CookieEcho(_, data) => [Ack(cfg, Parse(data[..COOKIE]))]
      case CookieAck(_) => []
      case Other(_) => []
    }
  }

  // --------------------------------------------- the layout of a cookie

  // The forty bytes read by their offsets, low octet first.
  function ReadCookie(s: seq<bv8>): Cookie
    requires |s| >= 40
  {
    Cookie(Layout.Le32(s, 0), Layout.Le32(s, 4), Layout.Le32(s, 8), Layout.Le16(s, 12), Layout.Le16(s, 14),
           Layout.Le32(s, 16), Layout.Le32(s, 20), Layout.Le32(s, 24), Layout.Le32(s, 28),
           Layout.Le32(s, 32), Layout.Le32(s, 36))
  }

  lemma ParseReads(s: seq<bv8>)
    requires |s| == COOKIE
    ensures Parse(s) == ReadCookie(s)
  {
    hide FromLe, Layout.Le32, Layout.Le16;
    Layout.Le32Is(s, 0);
    Layout.Le32Is(s, 4);
    Layout.Le32Is(s, 8);
    Layout.Le16Is(s, 12);
    Layout.Le16Is(s, 14);
    Layout.Le32Is(s, 16);
    Layout.Le32Is(s, 20);
    Layout.Le32Is(s, 24);
    Layout.Le32Is(s, 28);
    Layout.Le32Is(s, 32);
    Layout.Le32Is(s, 36);
  }

  // An INIT ACK field by field: addresses and ports turned round, under the INIT's tag, with the local window
  // and counts in network order, and 56 bytes of cookie and digest.
  predicate Answers(cfg: Config, mac: Mac, init: Packet, r: Random, a: Packet)
    requires init.chunk.Init? && Configured(cfg)
  {
    var c := init.chunk;
    && a.srcIp == cfg.srcIp && a.srcPort == Swap16(cfg.srcPort) && a.dstIp == init.srcIp && a.dstPort == init.srcPort
    && a.tag == c.initTag && a.chunk.InitAck? && a.chunk.len == 80 && |a.chunk.data| == 56
    && a.chunk.initTag == r.ackTag && a.chunk.initTsn == r.ackTsn && a.chunk.window == Swap32(cfg.window)
    && a.chunk.os == Swap16(cfg.os) && a.chunk.mis == Swap16(cfg.mis)
    && a.chunk.data[40..] == mac(a.chunk.data[..40])
    && var k := ReadCookie(a.chunk.data);
       && k.verTag == c.initTag && k.initTag == r.cookieTag && k.window == c.window && k.os == c.os && k.mis == c.mis
       && k.tsn == k.dstTsn == c.initTsn && k.srcIp == init.srcIp && k.dstIp == cfg.srcIp
       && k.srcPort == init.srcPort && k.dstPort == cfg.srcPort
  }

  lemma AnswerReads(cfg: Config, mac: Mac, init: Packet, r: Random)
    requires Configured(cfg) && Digests(mac) && Wire(init) && init.chunk.Init? && Drawn(r)
    ensures Answers(cfg, mac, init, r, Reply(cfg, mac, init, r))
  {
    hide Serialize, Parse, ReadCookie;
    var c := CookieFor(cfg, init, r);
    var bytes := Serialize(c);
    assert DigestSized(mac, bytes);
    var data := Signed(mac, c);
    assert data[..40] == bytes && data[40..] == mac(bytes);
    CookieRoundTrip(c);
    ParseReads(bytes);
    ReadsPrefix(data);
  }

  lemma ReadsPrefix(s: seq<bv8>)
    requires |s| >= 40
    ensures ReadCookie(s[..40]) == ReadCookie(s)
  {
    hide Val;
    assert forall i :: 0 <= i < 40 ==> s[..40][i] == s[i];
  }

  // --------------------------------------------- the association

  // The digest comparison: differences are or-ed together, so every byte is looked at.
  method SameDigest(digest: seq<bv8>, claimed: seq<bv8>) returns (same: bool)
    requires |digest| == |claimed|
    ensures same <==> digest == claimed
  {
    var res: bv8 := 0;
    for i := 0 to |digest|
      invariant res == 0 <==> digest[..i] == claimed[..i]
    {
      OrIsZero(res, digest[i], claimed[i]);
      assert digest[..i + 1] == digest[..i] + [digest[i]] && claimed[..i + 1] == claimed[..i] + [claimed[i]];
      res := res | (digest[i] ^ claimed[i]);
    }
    assert digest[..|digest|] == digest && claimed[..|digest|] == claimed;
    same := res == 0;
  }

  lemma OrIsZero(res: bv8, a: bv8, b: bv8)
    ensures res | (a ^ b) == 0 <==> res == 0 && a == b
  {
  }

  class Association {
    const cfg: Config
    const mac: Mac
    const peer: Packet           // the prefilled headers: only the destination is used
    var status: Status
    var verTag: nat
    var initTag: nat
    var window: nat
    var os: nat
    var mis: nat
    var tsn: nat
    var dstTsn: nat
    var dstIp: nat
    var dstPort: nat
    var rto: nat
    var srtt: nat
    var rttvar: nat
    var echo: seq<bv8>

    ghost predicate Valid()
    {
      Configured(cfg) && Digests(mac)
    }

    function View(): State
      reads this
    {
      State(status, verTag, initTag, window, os, mis, tsn, dstTsn, dstIp, dstPort, rto, srtt, rttvar, echo)
    }

    constructor (config: Config, digest: Mac, to: Packet, initial: Status)
      requires Configured(config) && Digests(digest)
      ensures Valid() && cfg == config && mac == digest && peer == to && status == initial
    {
      cfg, mac, peer, status := config, digest, to, initial;
      verTag, initTag, window, os, mis, tsn, dstTsn, dstIp, dstPort := 0, 0, 0, 0, 0, 0, 0, 0, 0;
      rto, srtt, rttvar, echo := 0, 0, 0, [];
    }

    // sctp_process_sctp_init works on a temporary association: this one is not modified.
    method ProcessInit(p: Packet, r: Random) returns (reply: Packet)
      requires Valid() && Wire(p) && p.chunk.Init?
      ensures reply == Reply(cfg, mac, p, r)
      ensures Drawn(r) ==> Answers(cfg, mac, p, r, reply)
    {
      if Drawn(r) {
        AnswerReads(cfg, mac, p, r);
      }
      var c := p.chunk;
      var dstPort, dstIp, os, mis := p.srcPort, p.srcIp, c.os, c.mis;
      var window, verTag, tsn, dstTsn := c.window, c.initTag, c.initTsn, c.initTsn;
      var cookie := Cookie(verTag, r.cookieTag, window, os, mis, tsn, dstTsn, dstIp, cfg.srcIp, dstPort, cfg.srcPort);
      var bytes := Serialize(cookie);
      var data := bytes + mac(bytes);
      reply := Packet(cfg.srcIp, dstIp, Swap16(cfg.srcPort), dstPort, verTag,
                      InitAck(ACK_FIXED + |data|, r.ackTag, Swap32(cfg.window), Swap16(cfg.os), Swap16(cfg.mis),
                              r.ackTsn, data));
    }

    method ProcessInitAck(p: Packet) returns (r: int, out: seq<Packet>)
      requires Valid() && Wire(p) && p.chunk.InitAck?
      modifies this
      ensures r == 0 || r == -1
      ensures r == 0 <==> p.chunk.len > 24
      ensures r != 0 ==> View() == old(View()) && out == []
      ensures r == 0 ==> View() == Adopted(old(View()), p) && out == [Echo(cfg, View(), peer)]
      ensures r == 0 ==> status == InitAckReceived && verTag == p.chunk.initTag && window == p.chunk.window
      ensures r == 0 ==> os == p.chunk.os && mis == p.chunk.mis && tsn == p.chunk.initTsn && echo == p.chunk.data
      ensures unchanged(`initTag, `dstTsn, `dstIp, `dstPort, `rto, `srtt, `rttvar)
      ensures r == 0 ==> |echo| == p.chunk.len - 24 && |out| == 1 && out[0].tag == verTag
                         && out[0].dstIp == peer.dstIp && out[0].dstPort == peer.dstPort && out[0].srcIp == cfg.srcIp
                         && out[0].srcPort == Swap16(cfg.srcPort) && out[0].chunk == CookieEcho(4 + |echo|, echo)
    {
      var c := p.chunk;
      if c.len <= ACK_FIXED {
        return -1, [];
      }
      verTag, os, mis, window := c.initTag, c.os, c.mis, c.window;
      tsn := c.initTsn;
      status := InitAckReceived;
      echo := c.data[..c.len - ACK_FIXED];
      out := [Packet(cfg.srcIp, peer.dstIp, Swap16(cfg.srcPort), peer.dstPort, verTag, CookieEcho(4 + |echo|, echo))];
      r := 0;
    }

    method ProcessCookieEcho(p: Packet) returns (r: int, out: seq<Packet>)
      requires Valid() && Wire(p) && p.chunk.CookieEcho?
      modifies this
      ensures r == 0 || r == -1
      ensures r == 0 <==> p.chunk.len >= 60 && mac(p.chunk.data[..40]) == p.chunk.data[40..56]
      ensures r != 0 ==> View() == old(View()) && out == []
      ensures r == 0 ==> View() == Restored(old(View()), Parse(p.chunk.data[..COOKIE]))
      ensures r == 0 ==> out == [Ack(cfg, Parse(p.chunk.data[..COOKIE]))]
      ensures r == 0 ==> Restores(p.chunk.data) && rto == 1000 && srtt == 0 && rttvar == 0
      ensures unchanged(`status, `echo)
      ensures r == 0 ==> |out| == 1 && out[0].tag == verTag && out[0].dstIp == dstIp && out[0].dstPort == dstPort
                         && out[0].srcIp == cfg.srcIp && out[0].srcPort == Swap16(cfg.srcPort)
                         && out[0].chunk == CookieAck(4)
    {
      hide Parse, ReadCookie;
      var c := p.chunk;
      if c.len < ECHO_MIN {
        return -1, [];
      }
      assert DigestSized(mac, c.data[..COOKIE]);
      var digest := mac(c.data[..COOKIE]);
      var same := SameDigest(digest, c.data[COOKIE..COOKIE + HMAC]);
      if !same {
        return -1, [];
      }
      var cookie := Parse(c.data[..COOKIE]);
      ParseReads(c.data[..COOKIE]);
      ReadsPrefix(c.data);
      verTag, initTag, window, os, mis := cookie.verTag, cookie.initTag, cookie.window, cookie.os, cookie.mis;
      tsn, dstTsn, dstIp, dstPort := cookie.tsn, cookie.dstTsn, cookie.srcIp, cookie.srcPort;
      rto, srtt, rttvar := SCTP_RTO_MIN, 0, 0;
      out := [Packet(cfg.srcIp, dstIp, Swap16(cfg.srcPort), dstPort, verTag, CookieAck(4))];
      r := 0;
    }

    method ProcessCookieAck(p: Packet) returns (r: int)
      requires Wire(p) && p.chunk.CookieAck?
      modifies `status
      ensures r == 0 || r == -1
      ensures r == 0 <==> p.chunk.len >= 4
      ensures status == if r == 0 then Established else old(status)
    {
      if p.chunk.len < 4 {
        return -1;
      }
      status := Established;
      r := 0;
    }

    // The association holds what the cookie's bytes say, by their offsets.
    predicate Restores(data: seq<bv8>)
      requires |data| >= 40
      reads this
    {
      var k := ReadCookie(data);
      && verTag == k.verTag && initTag == k.initTag && window == k.window && os == k.os && mis == k.mis
      && tsn == k.tsn && dstTsn == k.dstTsn && dstIp == k.srcIp && dstPort == k.srcPort
    }

    // if_ip_sctp: false stands for NULL.
    method IfIpSctp(p: Packet, r: Random) returns (ok: bool, out: seq<Packet>)
      requires Valid() && Wire(p)
      modifies this
      ensures !ok ==> View() == old(View()) && out == []
      ensures p.dstIp != cfg.srcIp || Swap16(p.dstPort) != cfg.srcPort ==> !ok
      ensures p.dstIp == cfg.srcIp && Swap16(p.dstPort) == cfg.srcPort ==>
        (ok <==>
          match p.chunk
          case Init(_, _, _, _, _) => old(status) == Listen
          case InitAck(len, _, _, _, _, _, _) => old(status) == InitSent && len > 24
          case CookieEcho(len, data) => old(status) == Listen && len >= 60 && mac(data[..40]) == data[40..56]
          case CookieAck(len) => old(status) == InitAckReceived && len >= 4
          case Other(_) => false)
      ensures ok && p.chunk.Init? ==>
        View() == old(View()) && |out| == 1 && (Drawn(r) ==> Answers(cfg, mac, p, r, out[0]))
      ensures ok && p.chunk.InitAck? ==>
        status == InitAckReceived && verTag == p.chunk.initTag && window == p.chunk.window && os == p.chunk.os
        && mis == p.chunk.mis && tsn == p.chunk.initTsn && |out| == 1 && out[0].tag == verTag
        && out[0].chunk == CookieEcho(p.chunk.len - 20, p.chunk.data)
      ensures ok && p.chunk.CookieEcho? ==>
        Restores(p.chunk.data) && status == Listen && |out| == 1 && out[0].tag == verTag
        && out[0].dstIp == dstIp && out[0].dstPort == dstPort && out[0].chunk == CookieAck(4)
      ensures ok && p.chunk.CookieAck? ==> View() == old(View()).(status := Established) && out == []
      ensures ok <==> Taken(cfg, mac, old(View()), p)
      ensures View() == After(cfg, mac, old(View()), p)
      ensures out == Sent(cfg, mac, old(View()), p, peer, r)
    {
      hide Reply, Parse, Restored, Adopted, Echo, Ack, Answers, ReadCookie;
      if p.dstIp != cfg.srcIp || cfg.srcPort != Swap16(p.dstPort) {
        return false, [];
      }
      match p.chunk
      case Init(_, _, _, _, _) =>
        if status != Listen {
          return false, [];
        }
        var reply := ProcessInit(p, r);
        return true, [reply];
      case InitAck(_, _, _, _, _, _, _) =>
        if status != InitSent {
          return false, [];
        }
        var code;
        code, out := ProcessInitAck(p);
        AdoptedEcho(old(View()), p);
        return code == 0, out;
      case CookieEcho(_, _) =>
        if status != Listen {
          return false, [];
        }
        var code;
        code, out := ProcessCookieEcho(p);
        return code == 0, out;
      case CookieAck(_) =>
        if status != InitAckReceived {
          return false, [];
        }
        var code := ProcessCookieAck(p);
        return code == 0, [];
      case Other(_) =>
        return false, [];
    }
  }

  lemma AdoptedEcho(s: State, p: Packet)
    requires p.chunk.InitAck?
    ensures Adopted(s, p).echo == p.chunk.data
  {
  }
}
