/** A request, the server's response and what the client makes of it, put together. */
module EndToEnd {
  import opened Options
  import opened Wire
  import opened Validator
  import opened Grammar
  import opened Records
  import opened Scheduler
  import opened Packing
  import opened Requests
  import opened Interpretation
  import Client

  // ---------- acceptance ----------

  lemma BodiesInside(ms: seq<Message>)
    ensures forall m :: m in ms ==> |m.body| <= |EncodeAll(ms)|
  {
    forall m | m in ms
      ensures |m.body| <= |EncodeAll(ms)|
    {
      var i :| 0 <= i < |ms| && ms[i] == m;
      EncodeAllAround(ms, i);
    }
  }

  lemma AcceptedIfLegal(s: seq<byte>, env: Env, asks: seq<Ask>)
    requires Readable(s) && Sound(env) && Valid(asks)
    requires EncodePacket(RESPONSE, Response(env, asks)) <= s
    ensures Validate(s, false) == Accepted <==> Legal(false, Response(env, asks))
  {
    var ms := Response(env, asks);
    ResponseFits(env, asks);
    ResponseCountsFitInByte(env, asks);
    BodiesInside(ms);
    ParseOfEncodePacket(s, RESPONSE, ms);
    if Legal(false, ms) {
      LegalIsAccepted(s, false, ms);
    }
    if Validate(s, false) == Accepted {
      AcceptedResponse(s);
    }
  }

  /**
   * What the server sends back for a validated request passes the client's validator exactly when the server has
   * something to say to it and no message of an unknown type spoils the response. If it has nothing to say, what is
   * sent is the client's own request header.
   */
  lemma ReplyAcceptedExactly(s: seq<byte>, env: Env, asks: seq<Ask>)
    requires Readable(s) && Sound(env) && Valid(asks)
    requires Response(env, asks) != [] ==> EncodePacket(RESPONSE, Response(env, asks)) <= s
    requires Response(env, asks) == [] ==> s[2] == REQUEST
    ensures Validate(s, false) == Accepted <==> !Silent(env, asks) && !Spoilt(env, asks)
  {
    ResponseIsLegalExactly(env, asks);
    ResponseIsEmptyExactly(env, asks);
    if Response(env, asks) != [] {
      AcceptedIfLegal(s, env, asks);
    }
  }

  /** The asks of a request that a client constructs. */
  function ConstructedAsks(rec: Record, enableIp4: bool, enableIp6: bool): (asks: seq<Ask>) {
    AsksIn(RequestMessages(rec, enableIp4, enableIp6))
  }

  lemma {:induction false} AsksInOneByOne(ms: seq<Message>)
    ensures forall i :: 0 <= i < |ms| ==> AsksIn(ms)[i] == Ask(ms[i].kind, ms[i].count)
  {
    if ms != [] {
      AsksInOneByOne(ms[1..]);
      forall i | 0 <= i < |ms|
        ensures AsksIn(ms)[i] == Ask(ms[i].kind, ms[i].count)
      {
        if i > 0 {
          assert AsksIn(ms)[i] == AsksIn(ms[1..])[i - 1] && ms[i] == ms[1..][i - 1];
        }
      }
    }
  }

  lemma ConstructedAsksAre(rec: Record, enableIp4: bool, enableIp6: bool)
    ensures ConstructedAsks(rec, enableIp4, enableIp6) ==
            [Ask(ENTROPY, DEFAULT_ENTROPY_SIZE)]
            + (if rec.ip4Peers && enableIp4 then [Ask(IP4PEERS, 0)] else [])
            + (if rec.ip6Peers && enableIp6 then [Ask(IP6PEERS, 0)] else [])
  {
    AsksInOneByOne(RequestMessages(rec, enableIp4, enableIp6));
  }

  /** The answer to a request for a full default of entropy that comes first. */
  function FirstEntropy(env: Env): (m: Option<Message>) {
    var data := Read(env.device(0), DEFAULT_ENTROPY_SIZE);
    if data == [] then None else Some(Message(ENTROPY, Uchar(|data|), data))
  }

  lemma FirstAnswer(env: Env, asks: seq<Ask>)
    requires Sound(env) && asks != [] && asks[0] == Ask(ENTROPY, DEFAULT_ENTROPY_SIZE)
    ensures Packed(env, asks, 1) == Add(Pack(env.mtu - 4, [], []), FirstEntropy(env))
  {
    assert Fit(env.mtu - 4, 1, 8) == 8;
    assert Packed(env, asks, 0) == Pack(env.mtu - 4, [], []);
  }

  lemma FirstAnswerIsEntropy(env: Env, asks: seq<Ask>)
    requires Sound(env) && env.device(0) != []
    requires asks != [] && asks[0] == Ask(ENTROPY, DEFAULT_ENTROPY_SIZE)
    ensures FirstEntropy(env).Some? && FirstEntropy(env).value in Response(env, asks)
  {
    FirstAnswer(env, asks);
    PackGrows(env, asks, 1, |asks|);
    var p := Packed(env, asks, |asks|);
    assert p.answers[0] == FirstEntropy(env).value;
    assert FirstEntropy(env).value in p.answers;
  }

  lemma SilentToConstructed(rec: Record, enableIp4: bool, enableIp6: bool, env: Env)
    ensures Silent(env, ConstructedAsks(rec, enableIp4, enableIp6)) <==>
            && env.device(0) == []
            && (rec.ip4Peers && enableIp4 ==> env.enable4 && env.known4 == 0)
            && (rec.ip6Peers && enableIp6 ==> env.enable6 && env.known6 == 0)
  {
    var asks := ConstructedAsks(rec, enableIp4, enableIp6);
    ConstructedAsksAre(rec, enableIp4, enableIp6);
    assert asks[0] == Ask(ENTROPY, DEFAULT_ENTROPY_SIZE);
    if rec.ip4Peers && enableIp4 {
      assert asks[1] == Ask(IP4PEERS, 0);
    }
    if rec.ip6Peers && enableIp6 {
      assert asks[|asks| - 1] == Ask(IP6PEERS, 0);
    }
  }

  /**
   * The requests clients construct get a legal response unless the server has nothing at all to say: its device yields
   * no byte, and it serves every peer type asked for but knows no such peer. The response has entropy once the device
   * yields a byte.
   */
  lemma ConstructedRequestsAreAnswered(rec: Record, enableIp4: bool, enableIp6: bool, env: Env)
    requires Sound(env)
    ensures var asks := ConstructedAsks(rec, enableIp4, enableIp6);
            && Valid(asks)
            && (Legal(false, Response(env, asks)) <==> !Silent(env, asks))
            && (Response(env, asks) == [] <==> Silent(env, asks))
            && (Silent(env, asks) <==>
                  && env.device(0) == []
                  && (rec.ip4Peers && enableIp4 ==> env.enable4 && env.known4 == 0)
                  && (rec.ip6Peers && enableIp6 ==> env.enable6 && env.known6 == 0))
            && (env.device(0) != [] ==>
                  exists m :: m in Response(env, asks) && m.kind == ENTROPY && m.body != [] && m.body <= env.device(0))
  {
    var asks := ConstructedAsks(rec, enableIp4, enableIp6);
    ConstructedAsksAre(rec, enableIp4, enableIp6);
    KnownRequestsAreAnswerable(env, asks);
    ResponseIsEmptyExactly(env, asks);
    SilentToConstructed(rec, enableIp4, enableIp6, env);
    if env.device(0) != [] {
      FirstAnswerIsEntropy(env, asks);
    }
  }

  // ---------- what the client learns ----------

  lemma WholeRoundTrip(ps: seq<Peer>, ipv6: bool)
    requires AllOf(ps, ipv6)
    ensures |PeersBytes(ps)| == PeersSize(ipv6, |ps|) && PeersAt(PeersBytes(ps), 0, |ps|, ipv6) == ps
  {
    var body := PeersBytes(ps);
    assert body[0..|body|] == body;
    PeersRoundTrip(body, 0, |body|, ps, ipv6);
  }

  lemma PeersInEncoded(ps: seq<Peer>, ipv6: bool)
    requires AllOf(ps, ipv6) && |ps| <= 255
    ensures var m := Message(PeerKind(ipv6), |ps|, PeersBytes(ps)); WellFormed(false, m) && PeersIn(m) == ps
  {
    WholeRoundTrip(ps, ipv6);
    PeersBytesSize(ps, ipv6);
  }

  /** A peers answer reads back as the first peers the server held of that family, in its order. */
  lemma PeersAnswerRoundTrip(env: Env, ipv6: bool, count: nat, room: int)
    requires Sound(env) && room <= env.mtu - 4 && AnswerPeers(env, ipv6, count, room).Some?
    ensures var m := AnswerPeers(env, ipv6, count, room).value;
            && m.kind == PeerKind(ipv6) && WellFormed(false, m)
            && 0 < m.count as int <= env.Known(ipv6) <= |env.PeersOf(ipv6)|
            && PeersIn(m) == env.PeersOf(ipv6)[..m.count]
  {
    PeersAnswerFits(env, ipv6, count, room);
    var want := if count == 0 then env.Known(ipv6) else Min(env.Known(ipv6), count);
    var n := PeersFit(room, ipv6, want);
    PeersFitIsLargest(room, ipv6, want);
    PeersInEncoded(env.PeersOf(ipv6)[..n], ipv6);
  }

  lemma {:induction false} InterpretAppend(c: Config, ref: Ref, xs: seq<Message>, ys: seq<Message>, now: int,
                                           enableIp4: bool, enableIp6: bool)
    requires ValidRef(c, ref) && WellFormedAll(xs) && WellFormedAll(ys)
    ensures WellFormedAll(xs + ys)
    ensures Interpret(c, ref, xs + ys, now, enableIp4, enableIp6) ==
            Interpret(Interpret(c, ref, xs, now, enableIp4, enableIp6), ref, ys, now, enableIp4, enableIp6)
    decreases |ys|
  {
    if ys == [] {
      assert xs + ys == xs;
    } else {
      var last := |ys| - 1;
      assert (xs + ys)[..|xs + ys| - 1] == xs + ys[..last];
      InterpretAppend(c, ref, xs, ys[..last], now, enableIp4, enableIp6);
    }
  }

  lemma InterpretSingle(c: Config, ref: Ref, m: Message, now: int, enableIp4: bool, enableIp6: bool)
    requires ValidRef(c, ref) && WellFormed(false, m)
    ensures Interpret(c, ref, [m], now, enableIp4, enableIp6) == InterpretOne(c, ref, m, now, enableIp4, enableIp6)
  {
    assert [m][..0] == [];
  }

  /** How many peers an unlimited request for a family gets, given the room left. */
  function Granted(env: Env, ipv6: bool, room: int): (n: nat) {
    if env.Serves(ipv6) then PeersFit(room, ipv6, env.Known(ipv6)) else 0
  }

  /** What such a request leaves of the room. */
  function RoomAfter(env: Env, ipv6: bool, room: int): (r: int) {
    if room <= 0 then room
    else if !env.Serves(ipv6) then room - 6
    else if Granted(env, ipv6, room) == 0 then room
    else room - 4 - PeersSize(ipv6, Granted(env, ipv6, room))
  }

  lemma GrantedAnswer(env: Env, ipv6: bool, room: int)
    requires Sound(env) && env.Serves(ipv6) && room <= env.mtu - 4
    ensures var k, m := Granted(env, ipv6, room), AnswerPeers(env, ipv6, 0, room);
            && k <= env.Known(ipv6)
            && (k == 0 <==> m.None?)
            && (k > 0 ==> m.value.count as int == k && |Encode(m.value)| == 4 + PeersSize(ipv6, k))
  {
    PeersFitIsLargest(room, ipv6, env.Known(ipv6));
    PeersPrefixSize(env.PeersOf(ipv6), Granted(env, ipv6, room), ipv6);
  }

  lemma PeerAskStep(env: Env, asks: seq<Ask>, n: nat, ipv6: bool)
    requires Sound(env) && n < |asks| && asks[n] == Ask(PeerKind(ipv6), 0)
    ensures var p, q := Packed(env, asks, n), Packed(env, asks, n + 1);
            var k := Granted(env, ipv6, Room(p));
            && k <= env.Known(ipv6)
            && (k == 0 ==> q.answers == p.answers)
            && (k > 0 ==>
                  var m := AnswerPeers(env, ipv6, 0, Room(p));
                  m.Some? && m.value.count as int == k && q.answers == p.answers + [m.value])
            && (p.rejected == [] ==> Room(q) == RoomAfter(env, ipv6, Room(p)))
  {
    PackingBalances(env, asks, n);
    if env.Serves(ipv6) {
      GrantedAnswer(env, ipv6, Room(Packed(env, asks, n)));
    }
  }

  lemma LearnNothing(c: Config, now: int)
    ensures Learn(c, [], now) == c
  {
    assert c.probation + NewRecords(c.nextId, []) == c.probation;
  }

  /** The client learns from the answer to such a request exactly the first peers granted. */
  lemma PeerAskTeaches(env: Env, asks: seq<Ask>, n: nat, ipv6: bool, d: Config, ref: Ref, now: int, enableIp4: bool,
                       enableIp6: bool)
    requires Sound(env) && n < |asks| && asks[n] == Ask(PeerKind(ipv6), 0)
    requires if ipv6 then enableIp6 else enableIp4
    requires ValidRef(d, ref)
    ensures Granted(env, ipv6, Room(Packed(env, asks, n))) <= |env.PeersOf(ipv6)|
    ensures WellFormedAll(Packed(env, asks, n).answers) && WellFormedAll(Packed(env, asks, n + 1).answers)
    ensures Interpret(d, ref, Packed(env, asks, n + 1).answers, now, enableIp4, enableIp6) ==
            Learn(Interpret(d, ref, Packed(env, asks, n).answers, now, enableIp4, enableIp6),
                  env.PeersOf(ipv6)[..Granted(env, ipv6, Room(Packed(env, asks, n)))], now)
  {
    PeerAskStep(env, asks, n, ipv6);
    PackingBalances(env, asks, n);
    PackingBalances(env, asks, n + 1);
    var p := Packed(env, asks, n);
    var k := Granted(env, ipv6, Room(p));
    var e := Interpret(d, ref, p.answers, now, enableIp4, enableIp6);
    if k == 0 {
      LearnNothing(e, now);
    } else {
      PeersAnswerRoundTrip(env, ipv6, 0, Room(p));
      var m := AnswerPeers(env, ipv6, 0, Room(p)).value;
      InterpretAppend(d, ref, p.answers, [m], now, enableIp4, enableIp6);
      InterpretSingle(e, ref, m, now, enableIp4, enableIp6);
    }
  }

  /** The record of the server, once the response's reject message (if any) was read. */
  function AfterRejections(d: Config, ref: Ref, p: Pack): (c: Config)
    requires ValidRef(d, ref)
    ensures ValidRef(c, ref)
  {
    Assign(d, ref, DisabledBy(Deref(d, ref), RejectBody(p.rejected[..Emitted(p)]), Emitted(p)))
  }

  lemma RejectionsFirst(p: Pack, d: Config, ref: Ref, now: int, enableIp4: bool, enableIp6: bool)
    requires ValidRef(d, ref) && WellFormedAll(p.answers) && WellFormedAll(Messages(p)) && Emitted(p) <= 255
    ensures Interpret(d, ref, Messages(p), now, enableIp4, enableIp6) ==
            Interpret(AfterRejections(d, ref, p), ref, p.answers, now, enableIp4, enableIp6)
  {
    if Emitted(p) > 0 {
      assert Messages(p)[0] == RejectMessage(p);
      InterpretAppend(d, ref, [RejectMessage(p)], p.answers, now, enableIp4, enableIp6);
      InterpretSingle(d, ref, RejectMessage(p), now, enableIp4, enableIp6);
    } else {
      assert Messages(p) == p.answers;
      Client.AssignSame(d, ref);
    }
  }

  /** The room the answer to the entropy message leaves. */
  function Room4(env: Env): (r: int) {
    env.mtu - 4 - if FirstEntropy(env).Some? then |Encode(FirstEntropy(env).value)| else 0
  }

  /** The room that is left when IPv6 peers are asked for. */
  function Room6(env: Env, asked4: bool): (r: int) {
    if asked4 then RoomAfter(env, false, Room4(env)) else Room4(env)
  }

  /** How many IPv4 and IPv6 peers a client gets that asks for these families. */
  function Share4(env: Env, asked4: bool): (n: nat) {
    if asked4 then Granted(env, false, Room4(env)) else 0
  }

  function Share6(env: Env, asked4: bool, asked6: bool): (n: nat) {
    if asked6 then Granted(env, true, Room6(env, asked4)) else 0
  }

  /** After n messages of the request this room is left, and the answers so far make e of the client's lists d. */
  predicate Taught(env: Env, asks: seq<Ask>, n: nat, room: int, d: Config, e: Config, ref: Ref, now: int,
                   enableIp4: bool, enableIp6: bool)
    requires Sound(env) && n <= |asks| && ValidRef(d, ref)
  {
    var p := Packed(env, asks, n);
    && Room(p) == room
    && WellFormedAll(p.answers)
    && Interpret(d, ref, p.answers, now, enableIp4, enableIp6) == e
  }

  lemma PeerAskFollows(env: Env, asks: seq<Ask>, n: nat, room: int, ipv6: bool, d: Config, e: Config, ref: Ref,
                       now: int,
                       enableIp4: bool, enableIp6: bool)
    requires Sound(env) && n < |asks| && asks[n] == Ask(PeerKind(ipv6), 0)
    requires if ipv6 then enableIp6 else enableIp4
    requires ValidRef(d, ref) && Taught(env, asks, n, room, d, e, ref, now, enableIp4, enableIp6)
    ensures Granted(env, ipv6, room) <= |env.PeersOf(ipv6)|
    ensures var f := Learn(e, env.PeersOf(ipv6)[..Granted(env, ipv6, room)], now);
            var p, q := Packed(env, asks, n), Packed(env, asks, n + 1);
            var left := if p.rejected == [] then RoomAfter(env, ipv6, room) else Room(q);
            Taught(env, asks, n + 1, left, d, f, ref, now, enableIp4, enableIp6)
  {
    PeerAskStep(env, asks, n, ipv6);
    PeerAskTeaches(env, asks, n, ipv6, d, ref, now, enableIp4, enableIp6);
  }

  lemma TaughtIp6(env: Env, asks: seq<Ask>, n: nat, asked4: bool, asked6: bool, d: Config, e: Config, ref: Ref,
                  now: int,
                  enableIp4: bool, enableIp6: bool)
    requires Sound(env) && ValidRef(d, ref) && n <= |asks|
    requires Taught(env, asks, n, Room6(env, asked4), d, e, ref, now, enableIp4, enableIp6)
    requires |asks| == n + if asked6 then 1 else 0
    requires asked6 ==> enableIp6 && asks[n] == Ask(IP6PEERS, 0)
    ensures Share6(env, asked4, asked6) <= |env.peers6|
    ensures WellFormedAll(Packed(env, asks, |asks|).answers)
    ensures Interpret(d, ref, Packed(env, asks, |asks|).answers, now, enableIp4, enableIp6) ==
            Learn(e, env.peers6[..Share6(env, asked4, asked6)], now)
  {
    if asked6 {
      PeerAskFollows(env, asks, n, Room6(env, asked4), true, d, e, ref, now, enableIp4, enableIp6);
    } else {
      LearnNothing(e, now);
    }
  }

  lemma EntropyTeachesNothing(env: Env, asks: seq<Ask>, d: Config, ref: Ref, now: int, enableIp4: bool, enableIp6: bool)
    requires Sound(env) && ValidRef(d, ref)
    requires asks != [] && asks[0] == Ask(ENTROPY, DEFAULT_ENTROPY_SIZE)
    ensures Packed(env, asks, 1).rejected == []
    ensures Taught(env, asks, 1, Room4(env), d, d, ref, now, enableIp4, enableIp6)
  {
    FirstAnswer(env, asks);
    PackingBalances(env, asks, 1);
    if FirstEntropy(env).Some? {
      InterpretSingle(d, ref, FirstEntropy(env).value, now, enableIp4, enableIp6);
    }
  }

  lemma TaughtIp4(env: Env, asks: seq<Ask>, asked4: bool, d: Config, ref: Ref, now: int, enableIp4: bool,
                  enableIp6: bool)
    requires Sound(env) && ValidRef(d, ref)
    requires asks != [] && asks[0] == Ask(ENTROPY, DEFAULT_ENTROPY_SIZE)
    requires asked4 ==> enableIp4 && |asks| > 1 && asks[1] == Ask(IP4PEERS, 0)
    ensures Share4(env, asked4) <= |env.peers4|
    ensures Taught(env, asks, if asked4 then 2 else 1, Room6(env, asked4), d,
                   Learn(d, env.peers4[..Share4(env, asked4)], now), ref, now, enableIp4, enableIp6)
  {
    EntropyTeachesNothing(env, asks, d, ref, now, enableIp4, enableIp6);
    if asked4 {
      PeerAskFollows(env, asks, 1, Room4(env), false, d, d, ref, now, enableIp4, enableIp6);
    } else {
      LearnNothing(d, now);
    }
  }

  lemma TaughtByAnswers(env: Env, rec: Record, d: Config, ref: Ref, now: int, enableIp4: bool, enableIp6: bool)
    requires Sound(env) && ValidRef(d, ref)
    ensures var asks := ConstructedAsks(rec, enableIp4, enableIp6);
            var p := Packed(env, asks, |asks|);
            var asked4, asked6 := rec.ip4Peers && enableIp4, rec.ip6Peers && enableIp6;
            var n4, n6 := Share4(env, asked4), Share6(env, asked4, asked6);
            && WellFormedAll(p.answers)
            && n4 <= |env.peers4| && n6 <= |env.peers6|
            && Interpret(d, ref, p.answers, now, enableIp4, enableIp6) ==
               Learn(Learn(d, env.peers4[..n4], now), env.peers6[..n6], now)
  {
    var asks := ConstructedAsks(rec, enableIp4, enableIp6);
    var asked4, asked6 := rec.ip4Peers && enableIp4, rec.ip6Peers && enableIp6;
    ConstructedAsksAre(rec, enableIp4, enableIp6);
    TaughtIp4(env, asks, asked4, d, ref, now, enableIp4, enableIp6);
    var e := Learn(d, env.peers4[..Share4(env, asked4)], now);
    TaughtIp6(env, asks, if asked4 then 2 else 1, asked4, asked6, d, e, ref, now, enableIp4, enableIp6);
  }

  /**
   * The whole exchange. A client whose record of the server is rec sends the request it constructs; what it makes of
   * the server's response is: the peer types the server rejected are switched off, and then it learns the first n4 IPv4
   * and the first n6 IPv6 active servers of the server, in its order, where n4 and n6 are the most that fit.
   */
  lemma ExchangeTeachesClient(env: Env, rec: Record, d: Config, ref: Ref, now: int, enableIp4: bool, enableIp6: bool)
    requires Sound(env) && ValidRef(d, ref)
    ensures var asks := ConstructedAsks(rec, enableIp4, enableIp6);
            var response, p := Response(env, asks), Packed(env, asks, |asks|);
            var asked4, asked6 := rec.ip4Peers && enableIp4, rec.ip6Peers && enableIp6;
            var n4, n6 := Share4(env, asked4), Share6(env, asked4, asked6);
            && WellFormedAll(response)
            && n4 <= |env.peers4| && n6 <= |env.peers6|
            && Interpret(d, ref, response, now, enableIp4, enableIp6) ==
               Learn(Learn(AfterRejections(d, ref, p), env.peers4[..n4], now), env.peers6[..n6], now)
  {
    ConstructedRequestsAreAnswered(rec, enableIp4, enableIp6, env);
    var asks := ConstructedAsks(rec, enableIp4, enableIp6);
    var p := Packed(env, asks, |asks|);
    PackingBalances(env, asks, |asks|);
    RejectionsFirst(p, d, ref, now, enableIp4, enableIp6);
    TaughtByAnswers(env, rec, AfterRejections(d, ref, p), ref, now, enableIp4, enableIp6);
  }
}
