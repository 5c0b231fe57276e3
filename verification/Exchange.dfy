/** One request and its response between two nodes, through the code of both. */
module Exchange {
  import opened Wire
  import opened Validator
  import opened Grammar
  import opened Records
  import opened MruCaches
  import opened Scheduler
  import opened Packing
  import opened Requests
  import opened Server
  import opened Interpretation
  import opened Client
  import opened EndToEnd

  /** The lists of a client in contact with the server behind ref, once it has taken the server's answer. */
  function Taken(c: Config, ref: Ref, env: Env, now: int, enableIp4: bool, enableIp6: bool): (d: Config)
    requires Sound(env) && ValidRef(c, ref)
    requires Share4(env, Deref(c, ref).ip4Peers && enableIp4) <= |env.peers4|
    requires Share6(env, Deref(c, ref).ip4Peers && enableIp4, Deref(c, ref).ip6Peers && enableIp6) <= |env.peers6|
  {
    var rec := Deref(c, ref);
    var asks := ConstructedAsks(rec, enableIp4, enableIp6);
    var asked4, asked6 := rec.ip4Peers && enableIp4, rec.ip6Peers && enableIp6;
    var refused := AfterRejections(c, ref, Packed(env, asks, |asks|));
    Learn(Learn(refused, env.peers4[..Share4(env, asked4)], now), env.peers6[..Share6(env, asked4, asked6)], now)
  }

  lemma RequestArrives(s: seq<byte>, rec: Record, enableIp4: bool, enableIp6: bool)
    requires Readable(s) && EncodePacket(REQUEST, RequestMessages(rec, enableIp4, enableIp6)) <= s
    ensures Validate(s, true) == Accepted && AsksOf(s) == ConstructedAsks(rec, enableIp4, enableIp6)
    ensures s[2] == REQUEST
  {
    RequestsAreLegal(rec, enableIp4, enableIp6);
    AsksOfLegal(s, RequestMessages(rec, enableIp4, enableIp6));
  }

  lemma AnswerArrives(s: seq<byte>, env: Env, c: Config, ref: Ref, now: int, enableIp4: bool, enableIp6: bool)
    requires Readable(s) && Sound(env) && ValidRef(c, ref)
    requires !Silent(env, ConstructedAsks(Deref(c, ref), enableIp4, enableIp6))
    requires EncodePacket(RESPONSE, Response(env, ConstructedAsks(Deref(c, ref), enableIp4, enableIp6))) <= s
    ensures Validate(s, false) == Accepted
    ensures Share4(env, Deref(c, ref).ip4Peers && enableIp4) <= |env.peers4|
    ensures Share6(env, Deref(c, ref).ip4Peers && enableIp4, Deref(c, ref).ip6Peers && enableIp6) <= |env.peers6|
    ensures var ms := Parse(s, 4, s[3]);
            && WellFormedAll(ms)
            && Interpret(c, ref, ms, now, enableIp4, enableIp6) == Taken(c, ref, env, now, enableIp4, enableIp6)
  {
    var rec := Deref(c, ref);
    ConstructedRequestsAreAnswered(rec, enableIp4, enableIp6, env);
    LegalIsAccepted(s, false, Response(env, ConstructedAsks(rec, enableIp4, enableIp6)));
    ExchangeTeachesClient(env, rec, c, ref, now, enableIp4, enableIp6);
  }

  /** What the server of a node holds when it answers a client of this address family. */
  function Holdings(server: NrpdServer, srcIsIp4: bool, device: nat -> seq<byte>): (env: Env)
    reads server.config, server.config.bannedServers
  {
    EnvOf(server.config.State(), server.config.enableIp4Peers, server.config.enableIp6Peers,
          if srcIsIp4 then MAX_IP4_PACKET_SIZE else MAX_IP6_PACKET_SIZE, device)
  }

  /**
   * If the server lets a client's request through, what it sends back is in the buffer: the encoded response, or the
   * request itself if there is nothing to say.
   */
  method Serve(server: NrpdServer, buffer: array<byte>, src: Address, srcIsIp4: bool, received: int,
               device: nat -> seq<byte>, ghost asks: seq<Ask>) returns (sent: bool)
    requires buffer.Length >= BUFFER
    requires Validate(buffer[..], true) == Accepted && AsksOf(buffer[..]) == asks && buffer[2] == REQUEST
    requires server.config.Valid() && (server.recentClients as object) != server.config.bannedServers
    modifies buffer, server`mtu, server.recentClients`entries
    modifies server.config`countIp4Servers, server.config`countIp6Servers
    ensures sent <==> !Alive(old(server.recentClients.entries), server.recentClients.lifetime, src, received)
    ensures Sound(old(Holdings(server, srcIsIp4, device)))
    ensures
      var response := Response(old(Holdings(server, srcIsIp4, device)), asks);
      if sent && response != [] then EncodePacket(RESPONSE, response) <= buffer[..]
      else Validate(buffer[..], false) == Refused
  {
    ghost var env := Holdings(server, srcIsIp4, device);
    EnvIsSound(server.config.State(), server.config.enableIp4Peers, server.config.enableIp6Peers, env.mtu, device);
    assert Validate(buffer[..], false) == Refused;
    var outcome := server.HandlePacket(buffer, src, srcIsIp4, received, device);
    return outcome.Sent?;
  }

  method SendRequest(client: NrpdClient, rec: Record, server: NrpdServer, buffer: array<byte>, src: Address,
                     srcIsIp4: bool, received: int, device: nat -> seq<byte>) returns (sent: bool)
    requires buffer.Length >= BUFFER
    requires server.config.Valid() && (server.recentClients as object) != server.config.bannedServers
    modifies buffer, server`mtu, server.recentClients`entries
    modifies server.config`countIp4Servers, server.config`countIp6Servers
    ensures sent <==> !Alive(old(server.recentClients.entries), server.recentClients.lifetime, src, received)
    ensures Sound(old(Holdings(server, srcIsIp4, device)))
    ensures
      var env := old(Holdings(server, srcIsIp4, device));
      var asks := ConstructedAsks(rec, client.enableIp4, client.enableIp6);
      if sent && !Silent(env, asks) then EncodePacket(RESPONSE, Response(env, asks)) <= buffer[..]
      else Validate(buffer[..], false) == Refused
  {
    ghost var env, asks := Holdings(server, srcIsIp4, device), ConstructedAsks(rec, client.enableIp4, client.enableIp6);
    var size := client.ConstructRequest(rec, buffer);
    RequestArrives(buffer[..], rec, client.enableIp4, client.enableIp6);
    assert Holdings(server, srcIsIp4, device) == env;
    sent := Serve(server, buffer, src, srcIsIp4, received, device, asks);
    ConstructedRequestsAreAnswered(rec, client.enableIp4, client.enableIp6, env);
  }

  /**
   * The client of one node contacts another node over a network that delivers both datagrams. It succeeds unless the
   * server accepted a request from this client less than a lifetime ago, or has nothing at all to say; then the client
   * counts a failure. If it succeeds its lists become: what the server rejects is switched off, the server's first
   * active servers of each family are learnt, as many as fit, and the server is marked successful.
   */
  method Contact(client: NrpdClient, ref: Ref, server: NrpdServer, buffer: array<byte>, src: Address, srcIsIp4: bool,
                 received: int, device: nat -> seq<byte>, now: int) returns (success: bool)
    requires buffer.Length >= BUFFER
    requires client.config.Valid() && Current(client.config.State(), ref)
    requires server.config.Valid() && client.config != server.config
    requires client.config.bannedServers != server.config.bannedServers
    requires (server.recentClients as object) != client.config.bannedServers
    requires (server.recentClients as object) != server.config.bannedServers
    modifies buffer, server`mtu, server.recentClients`entries
    modifies server.config`countIp4Servers, server.config`countIp6Servers
    modifies client.config, client.config.bannedServers
    ensures client.config.Valid()
    ensures
      var c, env := old(client.config.State()), old(Holdings(server, srcIsIp4, device));
      success <==>
        && !Alive(old(server.recentClients.entries), server.recentClients.lifetime, src, received)
        && !Silent(env, ConstructedAsks(Deref(c, ref), client.enableIp4, client.enableIp6))
    ensures !success ==> client.config.State() == Fail(old(client.config.State()), ref, now)
    ensures success ==>
      var c, env := old(client.config.State()), old(Holdings(server, srcIsIp4, device));
      var asked4, asked6 := Deref(c, ref).ip4Peers && client.enableIp4, Deref(c, ref).ip6Peers && client.enableIp6;
      && Sound(env) && Share4(env, asked4) <= |env.peers4| && Share6(env, asked4, asked6) <= |env.peers6|
      && var d := Taken(c, ref, env, now, client.enableIp4, client.enableIp6);
         Current(d, ref) && client.config.State() == Succeed(d, ref, now)
  {
    ghost var c, env := client.config.State(), Holdings(server, srcIsIp4, device);
    var rec := Deref(client.config.State(), ref);
    var sent := SendRequest(client, rec, server, buffer, src, srcIsIp4, received, device);
    assert client.config.State() == c;
    if sent && !Silent(env, ConstructedAsks(rec, client.enableIp4, client.enableIp6)) {
      AnswerArrives(buffer[..], env, c, ref, now, client.enableIp4, client.enableIp6);
    }
    success := client.FinishContact(ref, !sent, buffer, now);
  }
}
