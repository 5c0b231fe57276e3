/** What a client asks for and what it takes from a response, as values. */
module Interpretation {
  import opened Wire
  import opened Validator
  import opened Grammar
  import opened Records
  import opened Scheduler

  /** The messages of a request, in order of preference: entropy, then the peers the server is not known to refuse. */
  function RequestMessages(server: Record, enableIp4: bool, enableIp6: bool): (ms: seq<Message>) {
    [Message(ENTROPY, DEFAULT_ENTROPY_SIZE, [])]
    + (if server.ip4Peers && enableIp4 then [Message(IP4PEERS, 0, [])] else [])
    + (if server.ip6Peers && enableIp6 then [Message(IP6PEERS, 0, [])] else [])
  }

  lemma HeaderOnlySize(ms: seq<Message>)
    requires forall m :: m in ms ==> m.body == []
    ensures |EncodeAll(ms)| == 4 * |ms|
  {
  }

  /**
   * Every request obeys the request grammar and asks for entropy first. It asks for a peer type exactly when the client
   * uses the family and the server has not declared it unsupported.
   */
  lemma RequestsAreLegal(server: Record, enableIp4: bool, enableIp6: bool)
    ensures var ms := RequestMessages(server, enableIp4, enableIp6);
            && Legal(true, ms) && |EncodePacket(REQUEST, ms)| == 4 + 4 * |ms|
            && ms[0].kind == ENTROPY
            && ((exists m :: m in ms && m.kind == IP4PEERS) <==> server.ip4Peers && enableIp4)
            && ((exists m :: m in ms && m.kind == IP6PEERS) <==> server.ip6Peers && enableIp6)
  {
    var ms := RequestMessages(server, enableIp4, enableIp6);
    HeaderOnlySize(ms);
    if server.ip4Peers && enableIp4 {
      assert ms[1] in ms && ms[1].kind == IP4PEERS;
    }
    if server.ip6Peers && enableIp6 {
      var i := |ms| - 1;
      assert ms[i] in ms && ms[i].kind == IP6PEERS;
    }
  }

  /** Asking for one peer type, if it is asked for. */
  lemma AskInBytes(wanted: bool, kind: byte)
    ensures var m := Message(kind, 0, []);
            EncodeAll(if wanted then [m] else []) == if wanted then [0, 4, kind, 0] else []
  {
    if wanted {
      EncodeAllSingleton(Message(kind, 0, []));
    }
  }

  lemma AsksInBytes(four: bool, six: bool)
    ensures var xs := if four then [Message(IP4PEERS, 0, [])] else [];
            var ys := if six then [Message(IP6PEERS, 0, [])] else [];
            EncodeAll([Message(ENTROPY, DEFAULT_ENTROPY_SIZE, [])] + xs + ys) ==
            [0, 4, 5, 8] + (if four then [0, 4, 4, 0] else []) + (if six then [0, 4, 6, 0] else [])
  {
    var e := [Message(ENTROPY, DEFAULT_ENTROPY_SIZE, [])];
    var xs, ys := if four then [Message(IP4PEERS, 0, [])] else [], if six then [Message(IP6PEERS, 0, [])] else [];
    EncodeAllSingleton(e[0]);
    AskInBytes(four, IP4PEERS);
    AskInBytes(six, IP6PEERS);
    EncodeAllAppend(e, xs);
    EncodeAllAppend(e + xs, ys);
  }

  /** The request, byte by byte: entropy first, then IPv4 and then IPv6 peers. */
  lemma RequestInBytes(server: Record, enableIp4: bool, enableIp6: bool)
    ensures var four, six := server.ip4Peers && enableIp4, server.ip6Peers && enableIp6;
            var n := 1 + (if four then 1 else 0) + if six then 1 else 0;
            EncodePacket(REQUEST, RequestMessages(server, enableIp4, enableIp6)) ==
            [0, 4 + 4 * n, 1, n]
            + ([0, 4, 5, 8] + (if four then [0, 4, 4, 0] else []) + (if six then [0, 4, 6, 0] else []))
  {
    AsksInBytes(server.ip4Peers && enableIp4, server.ip6Peers && enableIp6);
  }

  /** The first n entries of a reject message, applied to the record of the server that sent it. */
  function DisabledBy(r: Record, body: seq<byte>, n: nat): (q: Record)
    requires 2 * n <= |body|
  {
    if n == 0 then r else Disabled(DisabledBy(r, body, n - 1), body[2 * n - 2], body[2 * n - 1])
  }

  lemma DisabledByNext(r: Record, body: seq<byte>, n: nat)
    requires 2 * n + 2 <= |body|
    ensures DisabledBy(r, body, n + 1) == Disabled(DisabledBy(r, body, n), body[2 * n], body[2 * n + 1])
  {
  }

  lemma {:induction false} DisablingKeepsIdentity(r: Record, body: seq<byte>, n: nat)
    requires 2 * n <= |body|
    ensures var q := DisabledBy(r, body, n);
            && q.id == r.id && q.peer == r.peer && q.probationary == r.probationary && q.failureCount == r.failureCount
            && (q.ip4Peers ==> r.ip4Peers) && (q.ip6Peers ==> r.ip6Peers)
    decreases n
  {
    if n > 0 {
      DisablingKeepsIdentity(r, body, n - 1);
    }
  }

  /** Exactly the unsupported entries switch a capability off. */
  lemma {:induction false} DisabledExactly(r: Record, body: seq<byte>, n: nat)
    requires 2 * n <= |body|
    ensures DisabledBy(r, body, n).ip4Peers <==>
            r.ip4Peers && forall i :: 0 <= i < n ==> !(body[2 * i] == IP4PEERS && body[2 * i + 1] == UNSUPPORTED)
    ensures DisabledBy(r, body, n).ip6Peers <==>
            r.ip6Peers && forall i :: 0 <= i < n ==> !(body[2 * i] == IP6PEERS && body[2 * i + 1] == UNSUPPORTED)
    decreases n
  {
    if n > 0 {
      DisabledExactly(r, body, n - 1);
      assert body[2 * (n - 1)] == body[2 * n - 2] && body[2 * (n - 1) + 1] == body[2 * n - 1];
    }
  }

  /** Peers carried by a well-formed response message. */
  function PeersIn(m: Message): (ps: seq<Peer>)
    requires WellFormed(false, m) && (m.kind == IP4PEERS || m.kind == IP6PEERS)
  {
    PeersAt(m.body, 0, m.count, m.kind == IP6PEERS)
  }

  /** One message of a response from the server behind ref, for a client with these families enabled. */
  function InterpretOne(c: Config, ref: Ref, m: Message, now: int, enableIp4: bool, enableIp6: bool): (d: Config)
    requires ValidRef(c, ref) && WellFormed(false, m)
    ensures ValidRef(d, ref)
  {
    if m.kind == REJECT then Assign(c, ref, DisabledBy(Deref(c, ref), m.body, m.count))
    else if (m.kind == IP4PEERS && enableIp4) || (m.kind == IP6PEERS && enableIp6) then Learn(c, PeersIn(m), now)
    else c
  }

  predicate WellFormedAll(ms: seq<Message>) {
    forall m :: m in ms ==> WellFormed(false, m)
  }

  /** All messages of a response, first to last. */
  function Interpret(c: Config, ref: Ref, ms: seq<Message>, now: int, enableIp4: bool, enableIp6: bool): (d: Config)
    requires ValidRef(c, ref) && forall m :: m in ms ==> WellFormed(false, m)
    ensures ValidRef(d, ref)
    decreases |ms|
  {
    if ms == [] then c
    else
      var last := |ms| - 1;
      assert ms[last] in ms;
      InterpretOne(Interpret(c, ref, ms[..last], now, enableIp4, enableIp6), ref, ms[last], now, enableIp4, enableIp6)
  }

  lemma InterpretNext(c: Config, ref: Ref, ms: seq<Message>, i: nat, now: int, enableIp4: bool, enableIp6: bool)
    requires ValidRef(c, ref) && i < |ms| && forall m :: m in ms ==> WellFormed(false, m)
    ensures WellFormed(false, ms[i])
    ensures Interpret(c, ref, ms[..i + 1], now, enableIp4, enableIp6) ==
            InterpretOne(Interpret(c, ref, ms[..i], now, enableIp4, enableIp6), ref, ms[i], now, enableIp4, enableIp6)
  {
    assert ms[i] in ms;
    assert ms[..i + 1][..i] == ms[..i];
  }

  lemma InterpretOneKeepsInvariant(c: Config, ref: Ref, m: Message, now: int, enableIp4: bool, enableIp6: bool)
    requires Invariant(c) && Current(c, ref) && WellFormed(false, m)
    ensures var d := InterpretOne(c, ref, m, now, enableIp4, enableIp6); Invariant(d) && Current(d, ref)
  {
    if m.kind == REJECT {
      var r := Deref(c, ref);
      assert r in c.active || r in c.probation;
      DisablingKeepsIdentity(r, m.body, m.count);
      AssignKeepsInvariant(c, ref, DisabledBy(r, m.body, m.count));
    } else if (m.kind == IP4PEERS && enableIp4) || (m.kind == IP6PEERS && enableIp6) {
      LearnKeepsInvariant(c, PeersIn(m), now);
    }
  }

  lemma {:induction false} InterpretKeepsInvariant(c: Config, ref: Ref, ms: seq<Message>, now: int, enableIp4: bool,
                                                   enableIp6: bool)
    requires Invariant(c) && Current(c, ref) && forall m :: m in ms ==> WellFormed(false, m)
    ensures var d := Interpret(c, ref, ms, now, enableIp4, enableIp6); Invariant(d) && Current(d, ref)
    decreases |ms|
  {
    if ms != [] {
      var last := |ms| - 1;
      assert ms[last] in ms;
      InterpretKeepsInvariant(c, ref, ms[..last], now, enableIp4, enableIp6);
      var d := Interpret(c, ref, ms[..last], now, enableIp4, enableIp6);
      InterpretOneKeepsInvariant(d, ref, ms[last], now, enableIp4, enableIp6);
    }
  }

  // ---------- where the messages of an accepted response stand ----------

  /** Message i of ms stands at offset 4 + |EncodeAll(ms[..i])|. */
  function Offset(ms: seq<Message>, i: nat): (p: nat)
    requires i <= |ms|
  {
    4 + |EncodeAll(ms[..i])|
  }

  lemma MessageInside(s: seq<byte>, before: seq<byte>, m: Message, rest: seq<byte>)
    requires |m.body| < 65532
    requires var all := before + (Encode(m) + rest); 4 + |all| <= |s| && s[4..4 + |all|] == all
    ensures var p := 4 + |before|; Fits(s, p) && MessageAt(s, p) == m && Ntohs(s, p) == |Encode(m)|
  {
    SplitSlice(s, 4, before, Encode(m) + rest);
    SplitSlice(s, 4 + |before|, Encode(m), rest);
    MessageAtEncode(s, 4 + |before|, m);
  }

  /** Message i stands at its offset inside the packet. */
  predicate Stands(s: seq<byte>, ms: seq<Message>, i: nat)
    requires i < |ms|
  {
    var p := Offset(ms, i);
    && Fits(s, p) && MessageAt(s, p) == ms[i]
    && Offset(ms, i + 1) == p + Ntohs(s, p) <= Ntohs(s, 0) <= MAX_PACKET
  }

  lemma OffsetOfMessage(s: seq<byte>, ms: seq<Message>, i: nat)
    requires Readable(s) && Legal(false, ms) && EncodePacket(RESPONSE, ms) <= s && i < |ms|
    ensures Stands(s, ms, i)
  {
    LegalBodiesAreShort(false, ms);
    PacketFields(s, RESPONSE, ms);
    assert ms[i] in ms;
    EncodeAllAround(ms, i);
    MessageInside(s, EncodeAll(ms[..i]), ms[i], EncodeAll(ms[i + 1..]));
  }

  /** An accepted response is the encoding of what it parses into. */
  lemma AcceptedResponse(s: seq<byte>)
    requires Readable(s) && Validate(s, false) == Accepted
    ensures var ms := Parse(s, 4, s[3]);
            && Legal(false, ms) && EncodePacket(RESPONSE, ms) <= s
            && |ms| == s[3] as int && Offset(ms, |ms|) == Ntohs(s, 0)
  {
    ValidatorDecidesGrammar(s, false);
    var ms :| Legal(false, ms) && EncodePacket(RESPONSE, ms) <= s;
    LegalIsAccepted(s, false, ms);
    PacketFields(s, RESPONSE, ms);
    assert ms[..|ms|] == ms;
  }

  /** Each of its messages stands where it is looked for, inside the packet. */
  lemma AcceptedStands(s: seq<byte>, i: nat)
    requires Readable(s) && Validate(s, false) == Accepted
    ensures var ms := Parse(s, 4, s[3]);
            && |ms| == s[3] as int
            && (forall m :: m in ms ==> WellFormed(false, m))
            && (i < |ms| ==> Stands(s, ms, i) && Offset(ms, i) < Ntohs(s, 0) <= MAX_PACKET)
  {
    AcceptedResponse(s);
    var ms := Parse(s, 4, s[3]);
    if i < |ms| {
      OffsetOfMessage(s, ms, i);
    }
  }

  lemma SliceOfSlice(s: seq<byte>, p: nat, n: nat, k: nat, size: nat)
    requires p + n <= |s| && k + size <= n
    ensures s[p..p + n][k..k + size] == s[p + k..p + k + size]
  {
    var x, y := s[p..p + n][k..k + size], s[p + k..p + k + size];
    forall i | 0 <= i < size
      ensures x[i] == y[i]
    {
    }
  }

  lemma PeerAtSlice(s: seq<byte>, p: nat, ipv6: bool, e: seq<byte>)
    requires |e| == PeersSize(ipv6, 1) && p + |e| <= |s| && s[p..p + |e|] == e
    ensures PeerAt(s, p, ipv6) == PeerAt(e, 0, ipv6)
  {
    if ipv6 {
      assert s[p..p + 16] == e[..16] && s[p + 16..p + 18] == e[16..18];
    } else {
      assert s[p..p + 4] == e[..4] && s[p + 4..p + 6] == e[4..6];
    }
  }

  lemma {:induction false} PeersAtShift(s: seq<byte>, p: nat, count: nat, ipv6: bool, body: seq<byte>, k: nat)
    requires k + PeersSize(ipv6, count) == |body|
    requires p + |body| <= |s| && s[p..p + |body|] == body
    ensures PeersAt(s, p + k, count, ipv6) == PeersAt(body, k, count, ipv6)
    decreases count
  {
    if count > 0 {
      var entry := PeersSize(ipv6, 1);
      SliceOfSlice(s, p, |body|, k, entry);
      var e := body[k..k + entry];
      PeerAtSlice(s, p + k, ipv6, e);
      PeerAtSlice(body, k, ipv6, e);
      PeersAtShift(s, p, count - 1, ipv6, body, k + entry);
    }
  }
}

/** NrpdClient of client.cpp: building requests, and taking responses into the shared lists. */
module Client {
  import opened Options
  import opened Wire
  import opened Validator
  import opened Grammar
  import opened Generators
  import opened Records
  import opened Scheduler
  import opened Configuration
  import opened Interpretation

  lemma MessageFields(s: seq<byte>, p: nat)
    requires Fits(s, p)
    ensures var m := MessageAt(s, p);
            && s[p + 2] == m.kind && s[p + 3] == m.count
            && p + 4 + |m.body| <= |s| && s[p + 4..p + 4 + |m.body|] == m.body
  {
  }

  lemma AssignSame(c: Config, ref: Ref)
    requires ValidRef(c, ref)
    ensures Assign(c, ref, Deref(c, ref)) == c
  {
    match ref
    case InActive(i) => assert c.active[i := c.active[i]] == c.active;
    case InProbation(i) => assert c.probation[i := c.probation[i]] == c.probation;
  }

  lemma AssignTwice(c: Config, ref: Ref, q: Record, r: Record)
    requires ValidRef(c, ref)
    ensures ValidRef(Assign(c, ref, q), ref) && Assign(Assign(c, ref, q), ref, r) == Assign(c, ref, r)
  {
    match ref
    case InActive(i) => assert c.active[i := q][i := r] == c.active[i := r];
    case InProbation(i) => assert c.probation[i := q][i := r] == c.probation[i := r];
  }

  /** Writing one more header-only message behind those already there. */
  lemma AppendHeader(s: seq<byte>, ms: seq<Message>, kind: byte)
    requires 8 + |EncodeAll(ms)| <= |s| && s[4..4 + |EncodeAll(ms)|] == EncodeAll(ms)
    ensures var m := Message(kind, 0, []);
            && |EncodeAll(ms + [m])| == |EncodeAll(ms)| + 4
            && Splice(s, 4 + |EncodeAll(ms)|, Encode(m))[4..8 + |EncodeAll(ms)|] == EncodeAll(ms + [m])
  {
    EncodeAllAppend(ms, [Message(kind, 0, [])]);
    EncodeAllSingleton(Message(kind, 0, []));
  }

  lemma PrependPacketHeader(s: seq<byte>, kind: byte, ms: seq<Message>)
    requires 4 + |EncodeAll(ms)| <= |s| && s[4..4 + |EncodeAll(ms)|] == EncodeAll(ms)
    ensures var size := 4 + |EncodeAll(ms)|;
            Splice(s, 0, Htons(size) + [kind, Uchar(|ms|)])[..size] == EncodePacket(kind, ms)
  {
  }

  class NrpdClient {
    const config: NrpdConfig
    const enableIp4: bool
    const enableIp6: bool

    constructor (cfg: NrpdConfig, ip4: bool, ip6: bool)
      ensures config == cfg && enableIp4 == ip4 && enableIp6 == ip6
    {
      config, enableIp4, enableIp6 := cfg, ip4, ip6;
    }

    /** The number of headers the buffer must have room for: packet, entropy, and whatever the server supports. */
    function SupportCount(server: Record): (n: nat) {
      2 + (if server.signkey then 1 else 0) + (if server.ip4Peers then 1 else 0) + (if server.ip6Peers then 1 else 0)
    }

    /** Another peers request behind those already written. */
    method AskForPeers(kind: byte, buffer: array<byte>, p: nat, ghost asked: seq<Message>) returns (next: nat)
      requires kind == IP4PEERS || kind == IP6PEERS
      requires p == 4 + |EncodeAll(asked)| && p + 4 <= buffer.Length && buffer[4..p] == EncodeAll(asked)
      modifies buffer
      ensures next == p + 4 == 4 + |EncodeAll(asked + [Message(kind, 0, [])])|
      ensures buffer[4..next] == EncodeAll(asked + [Message(kind, 0, [])])
    {
      AppendHeader(buffer[..], asked, kind);
      var end := GenerateRequestPeersMessage(kind, 0, buffer, p);
      return end.value;
    }

    /** The messages of a request, behind the place of its header. */
    method WriteRequestMessages(server: Record, buffer: array<byte>) returns (msgCount: nat, msgSize: nat)
      requires buffer.Length >= 4 * SupportCount(server)
      modifies buffer
      ensures 1 <= msgCount <= 3 && msgSize == 4 + 4 * msgCount
      ensures
        var ms := RequestMessages(server, enableIp4, enableIp6);
        && msgCount == |ms| && msgSize == 4 + |EncodeAll(ms)| <= buffer.Length && buffer[4..msgSize] == EncodeAll(ms)
    {
      ghost var asked := [Message(ENTROPY, DEFAULT_ENTROPY_SIZE, [])];
      EncodeAllSingleton(asked[0]);
      SplicePrefix(buffer[..], 4, Encode(asked[0]));
      var msg := GenerateRequestEntropyMessage(DEFAULT_ENTROPY_SIZE, buffer, 4);
      msgCount, msgSize := 1, 8;
      assert buffer[4..msgSize] == EncodeAll(asked);
      if server.ip4Peers && enableIp4 {
        msg := AskForPeers(IP4PEERS, buffer, msg, asked);
        msgCount, msgSize := msgCount + 1, msgSize + 4;
        asked := asked + [Message(IP4PEERS, 0, [])];
      }
      if server.ip6Peers && enableIp6 {
        msg := AskForPeers(IP6PEERS, buffer, msg, asked);
        msgCount, msgSize := msgCount + 1, msgSize + 4;
        asked := asked + [Message(IP6PEERS, 0, [])];
      }
      assert asked == RequestMessages(server, enableIp4, enableIp6);
    }

    method ConstructRequest(server: Record, buffer: array<byte>) returns (size: Option<nat>)
      modifies buffer
      ensures size.Some? <==> buffer.Length >= 4 * SupportCount(server)
      ensures size.None? ==> buffer[..] == old(buffer[..])
      ensures size.Some? ==>
        var pkt := EncodePacket(REQUEST, RequestMessages(server, enableIp4, enableIp6));
        size.value == |pkt| <= buffer.Length && buffer[..size.value] == pkt
    {
      if buffer.Length < 4 * SupportCount(server) {
        return None;
      }
      var msgCount, msgSize := WriteRequestMessages(server, buffer);
      UcharIsExact(msgCount);
      PrependPacketHeader(buffer[..], REQUEST, RequestMessages(server, enableIp4, enableIp6));
      var next := GeneratePacketHeader(msgSize, REQUEST, Uchar(msgCount), buffer);
      if next.Some? {
        return Some(msgSize);
      } else {
        return None;
      }
    }

    /** Switches off what the entries of the reject message at p call unsupported. */
    method ParseRejectMessage(server: Ref, a: array<byte>, p: nat)
      requires ValidRef(config.State(), server)
      requires p + 4 <= a.Length && p + 4 + 2 * a[p + 3] as nat <= a.Length
      modifies config`activeServers, config`probationaryServers
      ensures ValidRef(old(config.State()), server)
      ensures config.State() ==
        Assign(old(config.State()), server,
               DisabledBy(Deref(old(config.State()), server), a[p + 4..p + 4 + 2 * a[p + 3] as nat], a[p + 3]))
    {
      ghost var c, r0, body := config.State(), Deref(config.State(), server), a[p + 4..p + 4 + 2 * a[p + 3] as nat];
      AssignSame(c, server);
      var rej, rejCount := p + 4, 0;
      while rejCount < a[p + 3] as int
        invariant 0 <= rejCount <= a[p + 3] as int && rej == p + 4 + 2 * rejCount
        invariant config.State() == Assign(c, server, DisabledBy(r0, body, rejCount))
      {
        var r := Deref(config.State(), server);
        assert r == DisabledBy(r0, body, rejCount);
        assert a[rej] == body[2 * rejCount] && a[rej + 1] == body[2 * rejCount + 1];
        AssignTwice(c, server, r, Disabled(r, a[rej], a[rej + 1]));
        if a[rej + 1] == SHUTTING_DOWN {
          config.Write(server, r.(shuttingdown := true));
        } else if a[rej + 1] == UNSUPPORTED {
          if a[rej] == IP4PEERS {
            config.Write(server, r.(ip4Peers := false));
          } else if a[rej] == IP6PEERS {
            config.Write(server, r.(ip6Peers := false));
          } else if a[rej] == SIGNKEY {
            config.Write(server, r.(signkey := false));
          }
        }
        AssignSame(config.State(), server);
        rej, rejCount := rej + 2, rejCount + 1;
      }
    }

    method TakePeers(buffer: array<byte>, p: nat, ghost m: Message, now: int)
      requires config.Valid()
      requires Fits(buffer[..], p) && m == MessageAt(buffer[..], p) && WellFormed(false, m)
      requires m.kind == IP4PEERS || m.kind == IP6PEERS
      modifies config`probationaryServers, config`nextId
      ensures config.Valid() && config.State() == Learn(old(config.State()), PeersIn(m), now)
    {
      MessageFields(buffer[..], p);
      PeersAtShift(buffer[..], p + 4, m.count, m.kind == IP6PEERS, m.body, 0);
      var ok := config.AddServersFromMessage(buffer, p, now);
    }

    method TakeRejections(server: Ref, buffer: array<byte>, p: nat, ghost m: Message)
      requires ValidRef(config.State(), server)
      requires Fits(buffer[..], p) && m == MessageAt(buffer[..], p) && WellFormed(false, m) && m.kind == REJECT
      modifies config`activeServers, config`probationaryServers
      ensures ValidRef(old(config.State()), server)
      ensures config.State() == Assign(old(config.State()), server,
                                       DisabledBy(Deref(old(config.State()), server), m.body, m.count))
    {
      MessageFields(buffer[..], p);
      assert buffer[..][p + 4..p + 4 + |m.body|] == buffer[p + 4..p + 4 + |m.body|];
      ParseRejectMessage(server, buffer, p);
    }

    /** The switch of ParseResponse on the message at p. */
    method TakeMessage(server: Ref, buffer: array<byte>, p: nat, ghost m: Message, now: int)
      requires config.Valid() && ValidRef(config.State(), server)
      requires Fits(buffer[..], p) && m == MessageAt(buffer[..], p) && WellFormed(false, m)
      modifies config`activeServers, config`probationaryServers, config`nextId
      ensures config.State() == InterpretOne(old(config.State()), server, m, now, enableIp4, enableIp6)
    {
      MessageFields(buffer[..], p);
      var kind := buffer[p + 2];
      if (kind == IP4PEERS && enableIp4) || (kind == IP6PEERS && enableIp6) {
        TakePeers(buffer, p, m, now);
      } else if kind == REJECT {
        TakeRejections(server, buffer, p, m);
      }
    }

    method ParseMessage(server: Ref, buffer: array<byte>, p: nat, ghost m: Message, now: int)
      requires config.Valid() && Current(config.State(), server)
      requires Fits(buffer[..], p) && m == MessageAt(buffer[..], p) && WellFormed(false, m)
      modifies config`activeServers, config`probationaryServers, config`nextId
      ensures config.Valid() && Current(config.State(), server)
      ensures config.State() == InterpretOne(old(config.State()), server, m, now, enableIp4, enableIp6)
    {
      InterpretOneKeepsInvariant(config.State(), server, m, now, enableIp4, enableIp6);
      TakeMessage(server, buffer, p, m, now);
    }

    /** One turn of the loop, on message i. */
    method ParseNext(server: Ref, buffer: array<byte>, p: nat, ghost ms: seq<Message>, ghost i: nat, ghost c: Config,
                     now: int)
        returns (next: nat)
      requires config.Valid() && Current(config.State(), server)
      requires BUFFER <= buffer.Length && Validate(buffer[..], false) == Accepted
      requires ms == Parse(buffer[..], 4, buffer[3])
      requires i < |ms| && p == Offset(ms, i)
      requires ValidRef(c, server) && (forall m :: m in ms ==> WellFormed(false, m))
      requires config.State() == Interpret(c, server, ms[..i], now, enableIp4, enableIp6)
      modifies config`activeServers, config`probationaryServers, config`nextId
      ensures config.Valid() && Current(config.State(), server)
      ensures config.State() == Interpret(c, server, ms[..i + 1], now, enableIp4, enableIp6)
      ensures next == Offset(ms, i + 1)
      ensures i + 1 < |ms| ==> next < Ntohs(buffer[..], 0) <= MAX_PACKET
    {
      AcceptedStands(buffer[..], i);
      AcceptedStands(buffer[..], i + 1);
      InterpretNext(c, server, ms, i, now, enableIp4, enableIp6);
      ParseMessage(server, buffer, p, ms[i], now);
      next := p + Ntohs(buffer[..], p);
    }

    /** The loop of ParseResponse. */
    method ParseMessages(server: Ref, bufSize: nat, buffer: array<byte>, ghost ms: seq<Message>, now: int)
      requires config.Valid() && Current(config.State(), server)
      requires BUFFER <= buffer.Length && bufSize == MAX_PACKET
      requires Validate(buffer[..], false) == Accepted && ms == Parse(buffer[..], 4, buffer[3])
      requires |ms| == buffer[3] as int && (forall m :: m in ms ==> WellFormed(false, m))
      requires |ms| > 0 ==> 4 < Ntohs(buffer[..], 0) <= MAX_PACKET
      modifies config`activeServers, config`probationaryServers, config`nextId
      ensures config.Valid() && Current(config.State(), server)
      ensures ValidRef(old(config.State()), server)
      ensures config.State() == Interpret(old(config.State()), server, ms[..|ms|], now, enableIp4, enableIp6)
    {
      ghost var c := config.State();
      var msg, msgCount := 4, 0;
      while msg < bufSize && msg < Ntohs(buffer[..], 0) && msgCount < buffer[3] as int
        invariant 0 <= msgCount <= |ms| && msg == Offset(ms, msgCount)
        invariant msgCount < |ms| ==> msg < Ntohs(buffer[..], 0) <= MAX_PACKET
        invariant config.Valid() && Current(config.State(), server)
        invariant config.State() == Interpret(c, server, ms[..msgCount], now, enableIp4, enableIp6)
        decreases |ms| - msgCount
      {
        msg := ParseNext(server, buffer, msg, ms, msgCount, c, now);
        msgCount := msgCount + 1;
      }
    }

    /** Visits exactly the messages the validator visited; bufSize is the size of the receive buffer. */
    method ParseResponse(server: Ref, bufSize: nat, buffer: array<byte>, now: int)
      requires config.Valid() && Current(config.State(), server)
      requires BUFFER <= buffer.Length && bufSize == MAX_PACKET
      requires Validate(buffer[..], false) == Accepted
      modifies config`activeServers, config`probationaryServers, config`nextId
      ensures config.Valid() && Current(config.State(), server)
      ensures
        var ms := Parse(buffer[..], 4, buffer[3]);
        && (forall m :: m in ms ==> WellFormed(false, m))
        && ValidRef(old(config.State()), server)
        && config.State() == Interpret(old(config.State()), server, ms, now, enableIp4, enableIp6)
    {
      ghost var ms := Parse(buffer[..], 4, buffer[3]);
      AcceptedStands(buffer[..], 0);
      ParseMessages(server, bufSize, buffer, ms, now);
      assert ms[..|ms|] == ms;
    }

    /** The start of a turn of ClientLoop: the next server, unless it must still wait. */
    method ChooseServer(now: int) returns (server: Option<Ref>)
      requires config.Valid()
      modifies config
      ensures config.Valid() && config.State() == Next(old(config.State())).0
      ensures server.Some? <==>
        var next := Next(old(config.State())).1;
        next.Some? && ValidRef(config.State(), next.value) && Due(Deref(config.State(), next.value), now)
      ensures server.Some? ==> server == Next(old(config.State())).1 && Current(config.State(), server.value)
    {
      server := config.GetNextServer();
      if server.Some? {
        if now <= Deref(config.State(), server.value).lastAccess + RETRY_SECONDS {
          return None;
        }
      }
    }

    /**
     * What ClientLoop does with the server GetNextServer returned, once it has sent it a request: a timeout or a
     * response that fails validation counts as a failure, any other response is parsed and counts as a success.
     */
    method FinishContact(server: Ref, timedOut: bool, buffer: array<byte>, now: int) returns (success: bool)
      requires config.Valid() && Current(config.State(), server)
      requires BUFFER <= buffer.Length
      modifies config, config.bannedServers
      ensures config.Valid()
      ensures success <==> !timedOut && Validate(buffer[..], false) == Accepted
      ensures ValidRef(old(config.State()), server)
      ensures !success ==> config.State() == Fail(old(config.State()), server, now)
      ensures success ==>
        var ms := Parse(buffer[..], 4, buffer[3]);
        && (forall m :: m in ms ==> WellFormed(false, m))
        && var d := Interpret(old(config.State()), server, ms, now, enableIp4, enableIp6);
           Current(d, server) && config.State() == Succeed(d, server, now)
    {
      if timedOut {
        config.IncrementServerFailCount(server, now);
        return false;
      }
      var verdict := ValidatePacket(buffer, false);
      if verdict != Accepted {
        config.IncrementServerFailCount(server, now);
        return false;
      }
      ParseResponse(server, MAX_PACKET, buffer, now);
      config.MarkServerSuccessful(server, now);
      return true;
    }
  }
}
