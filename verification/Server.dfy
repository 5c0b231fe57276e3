/** The requests a server sees, as lists of asks. */
module Requests {
  import opened Wire
  import opened Validator
  import opened Grammar
  import opened Packing

  /** What the server's loop reads, message by message, from p to the end of the packet. */
  function AsksFrom(s: seq<byte>, p: nat, end: nat): (asks: seq<Ask>)
    requires Readable(s) && end <= MAX_PACKET
    decreases end - p
  {
    if p >= end || Ntohs(s, p) == 0 then []
    else [Ask(s[p + 2], s[p + 3])] + AsksFrom(s, p + Ntohs(s, p), end)
  }

  function AsksOf(s: seq<byte>): (asks: seq<Ask>)
    requires Readable(s) && Validate(s, true) == Accepted
  {
    AsksFrom(s, 4, Ntohs(s, 0))
  }

  lemma {:induction false} WalkedAsks(s: seq<byte>, p: nat, end: nat)
    requires Readable(s) && end <= MAX_PACKET
    requires WalkFrom(s, p, end, true).Walked?
    ensures |AsksFrom(s, p, end)| == WalkFrom(s, p, end, true).count
    ensures forall a :: a in AsksFrom(s, p, end) ==> a.kind >= REQUEST_MSG_MIN
    decreases end - p
  {
    if p < end {
      WalkedAsks(s, p + Ntohs(s, p), end);
    }
  }

  /** A validated request holds 1 to 255 messages, none of a type a request may not carry. */
  lemma ValidatedRequests(s: seq<byte>)
    requires Readable(s) && Validate(s, true) == Accepted
    ensures Valid(AsksOf(s)) && |AsksOf(s)| == s[3] as int
  {
    WalkedAsks(s, 4, Ntohs(s, 0));
  }

  /** Where the loop stands after n messages. */
  function CursorAfter(s: seq<byte>, n: nat): (p: nat) {
    if n == 0 then 4
    else
      var q := CursorAfter(s, n - 1);
      if q + 2 <= |s| then q + Ntohs(s, q) else q
  }

  /** After n messages the loop finds the n-th ask, and moves on from it. */
  predicate Finds(s: seq<byte>, asks: seq<Ask>, n: nat)
    requires Readable(s) && n < |asks|
  {
    var p := CursorAfter(s, n);
    && p < Ntohs(s, 0) <= MAX_PACKET
    && Ntohs(s, p) > 0
    && asks[n] == Ask(s[p + 2], s[p + 3])
  }

  /** The loop finds exactly these asks. */
  predicate FindsAll(s: seq<byte>, asks: seq<Ask>)
    requires Readable(s)
  {
    && (forall n :: 0 <= n < |asks| ==> Finds(s, asks, n))
    && CursorAfter(s, |asks|) >= Ntohs(s, 0)
  }

  lemma {:induction false} WalkedAsksAt(s: seq<byte>, k: nat, asks: seq<Ask>, n: nat)
    requires Readable(s) && Ntohs(s, 0) <= MAX_PACKET && k <= n <= |asks|
    requires WalkFrom(s, CursorAfter(s, k), Ntohs(s, 0), true).Walked?
    requires asks[k..] == AsksFrom(s, CursorAfter(s, k), Ntohs(s, 0))
    ensures n < |asks| ==> Finds(s, asks, n)
    ensures n == |asks| ==> CursorAfter(s, n) >= Ntohs(s, 0)
    decreases n - k
  {
    var p, end := CursorAfter(s, k), Ntohs(s, 0);
    if k < |asks| {
      assert asks[k] == asks[k..][0];
      if k < n {
        assert asks[k + 1..] == asks[k..][1..];
        assert CursorAfter(s, k + 1) == p + Ntohs(s, p);
        WalkedAsksAt(s, k + 1, asks, n);
      }
    } else {
      assert |asks[k..]| == 0;
    }
  }

  lemma RequestFindsAll(s: seq<byte>)
    requires Readable(s) && Validate(s, true) == Accepted
    ensures FindsAll(s, AsksOf(s))
  {
    var asks := AsksOf(s);
    assert asks[0..] == asks;
    forall n: nat | n <= |asks|
      ensures n < |asks| ==> Finds(s, asks, n)
      ensures n == |asks| ==> CursorAfter(s, n) >= Ntohs(s, 0)
    {
      WalkedAsksAt(s, 0, asks, n);
    }
  }

  function AsksIn(ms: seq<Message>): (asks: seq<Ask>)
    ensures |asks| == |ms|
  {
    if ms == [] then [] else [Ask(ms[0].kind, ms[0].count)] + AsksIn(ms[1..])
  }

  lemma AsksFromNext(s: seq<byte>, p: nat, end: nat)
    requires Readable(s) && p < end <= MAX_PACKET && Fits(s, p)
    ensures var m := MessageAt(s, p);
            AsksFrom(s, p, end) == [Ask(m.kind, m.count)] + AsksFrom(s, p + Ntohs(s, p), end)
  {
  }

  lemma {:induction false} AsksOfEncodeAll(s: seq<byte>, p: nat, end: nat, ms: seq<Message>)
    requires Readable(s) && p <= end <= MAX_PACKET
    requires s[p..end] == EncodeAll(ms)
    requires forall m :: m in ms ==> |m.body| < 65532
    ensures AsksFrom(s, p, end) == AsksIn(ms)
    decreases |ms|
  {
    if ms == [] {
      assert |s[p..end]| == 0;
    } else {
      FirstOfEncodeAll(s, p, end, ms);
      AsksFromNext(s, p, end);
      AsksOfEncodeAll(s, p + Ntohs(s, p), end, ms[1..]);
    }
  }

  /** The server is asked exactly what the client encoded. */
  lemma AsksOfLegal(s: seq<byte>, ms: seq<Message>)
    requires Readable(s)
    requires Legal(true, ms) && EncodePacket(REQUEST, ms) <= s
    ensures Validate(s, true) == Accepted && AsksOf(s) == AsksIn(ms)
  {
    LegalIsAccepted(s, true, ms);
    LegalBodiesAreShort(true, ms);
    PacketFields(s, REQUEST, ms);
    AsksOfEncodeAll(s, 4, Ntohs(s, 0), ms);
  }
}

/** NrpdServer of server.cpp: from a received packet to the packet that is sent back. */
module Server {
  import opened Options
  import opened Wire
  import opened Validator
  import opened Generators
  import opened Records
  import opened MruCaches
  import opened Scheduler
  import opened Configuration
  import opened Packing
  import opened Requests
  import Answers

  /** What the configuration lets the server answer with. */
  function EnvOf(c: Config, enable4: bool, enable6: bool, mtu: nat, device: nat -> seq<byte>): (env: Env) {
    Env(mtu, Known(c, false), Known(c, true), FamilyPeers(c.active, false), FamilyPeers(c.active, true),
        enable4, enable6, device)
  }

  lemma EnvIsSound(c: Config, enable4: bool, enable6: bool, mtu: nat, device: nat -> seq<byte>)
    requires Invariant(c) && (mtu == MAX_IP4_PACKET_SIZE || mtu == MAX_IP6_PACKET_SIZE)
    ensures Sound(EnvOf(c, enable4, enable6, mtu, device))
  {
    CountKeepsInvariant(c, false);
    CountKeepsInvariant(c, true);
    FamilyPeersAreOfFamily(c.active, false);
    FamilyPeersAreOfFamily(c.active, true);
  }

  /**
   * What a server says to a request for one peer type: that it does not support it, if it does not serve the family;
   * nothing, if it knows no such server; and else its first active servers of the family.
   */
  lemma PeersAsk(c: KeptConfig, enable4: bool, enable6: bool, mtu: nat, device: nat -> seq<byte>, ipv6: bool,
                 count: byte, env: Env)
    requires mtu == 532 || mtu == 1236
    requires env == EnvOf(c, enable4, enable6, mtu, device) && Sound(env)
    ensures var kind, size := if ipv6 then 6 else 4, if ipv6 then 18 else 6;
            var ms := Response(env, [Ask(kind, count)]);
            if !(if ipv6 then enable6 else enable4) then ms == [Message(3, 1, [kind, 3])]
            else if Known(c, ipv6) == 0 then ms == []
            else
              && |ms| == 1 && ms[0].kind == kind
              && var n := ms[0].count as nat;
                 && 0 < n <= Known(c, ipv6) <= |FamilyPeers(c.active, ipv6)| && (count > 0 ==> n <= count)
                 && 8 + size * n <= mtu
                 && (n == Known(c, ipv6) || n == count || mtu < 8 + size * (n + 1))
                 && ms[0].body == PeersBytes(FamilyPeers(c.active, ipv6)[..n])
  {
    var ask := Ask(if ipv6 then 6 else 4, count);
    Answers.OneAsk(env, ask, Packed(env, [ask], 1));
    Answers.PeersAnswerInNumbers(env, ipv6, count, mtu - 4);
  }

  function EncodeEach(ms: seq<Message>): (bufs: seq<seq<byte>>)
    ensures |bufs| == |ms|
  {
    seq(|ms|, i requires 0 <= i < |ms| => Encode(ms[i]))
  }

  datatype Rejection = Rejection(kind: byte, reason: byte)

  function Rejections(kinds: seq<byte>): (rs: seq<Rejection>)
    ensures |rs| == |kinds|
  {
    seq(|kinds|, i requires 0 <= i < |kinds| => Rejection(kinds[i], UNSUPPORTED))
  }

  function Encoded(m: Option<Message>): (buf: Option<seq<byte>>) {
    if m.None? then None else Some(Encode(m.value))
  }

  lemma RejectBodyStep(kinds: seq<byte>, i: nat)
    requires i < |kinds|
    ensures RejectBody(kinds[..i + 1]) == RejectBody(kinds[..i]) + [kinds[i], UNSUPPORTED]
  {
    assert kinds[..i + 1][..i] == kinds[..i];
  }

  /** The local variables of ParseMessages hold this packing state. */
  predicate Shows(p: Pack, bytesRemaining: int, outMessageLength: nat, msgs: seq<seq<byte>>,
                  rejections: seq<Rejection>) {
    && bytesRemaining == p.remaining
    && outMessageLength == |EncodeAll(p.answers)|
    && msgs == EncodeEach(p.answers)
    && rejections == Rejections(p.rejected)
  }

  lemma EncodeEachAppend(ms: seq<Message>, m: Message)
    ensures EncodeEach(ms + [m]) == EncodeEach(ms) + [Encode(m)]
    ensures |EncodeAll(ms + [m])| == |EncodeAll(ms)| + |Encode(m)|
  {
    EncodeAllAppend(ms, [m]);
    EncodeAllSingleton(m);
  }

  lemma ShowsStart(env: Env, asks: seq<Ask>)
    requires Sound(env)
    ensures Shows(Packed(env, asks, 0), env.mtu - 4, 0, [], [])
  {
  }

  /** When the room is used up, or all messages are looked at, nothing is left to do. */
  lemma ShowsEnd(env: Env, asks: seq<Ask>, n: nat)
    requires Sound(env) && n <= |asks| && (n < |asks| ==> Room(Packed(env, asks, n)) <= 0)
    ensures Packed(env, asks, n) == Packed(env, asks, |asks|)
  {
    if n < |asks| {
      StaysPacked(env, asks, n, |asks|);
    }
  }

  /** What one message adds to them. */
  predicate ShowsNext(q: Pack, bytesRemaining: int, outMessageLength: nat, msgs: seq<seq<byte>>,
                      rejections: seq<Rejection>, kind: byte, buf: Option<seq<byte>>, rejected: bool)
  {
    if rejected then Shows(q, bytesRemaining, outMessageLength, msgs, rejections + [Rejection(kind, UNSUPPORTED)])
    else if buf.None? then Shows(q, bytesRemaining, outMessageLength, msgs, rejections)
    else
      var size := |buf.value|;
      Shows(q, bytesRemaining - size, outMessageLength + size, msgs + [buf.value], rejections)
  }

  lemma ShowsStep(env: Env, i: nat, ask: Ask, p: Pack, q: Pack,
                  bytesRemaining: int, outMessageLength: nat, msgs: seq<seq<byte>>, rejections: seq<Rejection>,
                  buf: Option<seq<byte>>)
    requires Sound(env) && q == Step(env, i, ask, p)
    requires Shows(p, bytesRemaining, outMessageLength, msgs, rejections)
    requires !Rejects(env, ask.kind) ==> buf == Encoded(Reply(env, i, ask, Room(p)))
    ensures ShowsNext(q, bytesRemaining, outMessageLength, msgs, rejections, ask.kind, buf, Rejects(env, ask.kind))
  {
    if Rejects(env, ask.kind) {
      assert Rejections(p.rejected + [ask.kind]) == Rejections(p.rejected) + [Rejection(ask.kind, UNSUPPORTED)];
    } else {
      var m := Reply(env, i, ask, Room(p));
      if m.Some? {
        EncodeEachAppend(p.answers, m.value);
      }
    }
  }

  /** After n messages the cursor p is inside the packet exactly if there is another message. */
  predicate OnTrack(s: seq<byte>, asks: seq<Ask>, n: nat, p: nat)
    requires Readable(s)
  {
    n <= |asks| && p == CursorAfter(s, n) && (p < Ntohs(s, 0) <==> n < |asks|)
  }

  lemma StaysOnTrack(s: seq<byte>, asks: seq<Ask>, n: nat)
    requires Readable(s) && FindsAll(s, asks) && n <= |asks|
    ensures OnTrack(s, asks, n, CursorAfter(s, n))
    ensures n < |asks| ==> Finds(s, asks, n)
  {
    if n < |asks| {
      assert Finds(s, asks, n);
    }
  }

  /** A splice as long as the buffer replaces all of it. */
  lemma SpliceWhole(s: seq<byte>, x: seq<byte>)
    requires |s| == |x|
    ensures Splice(s, 0, x) == x
  {
  }

  /** Message i among the encoded messages: its length field tells its size, and it fits where the copy has come to. */
  lemma EncodedMessage(ms: seq<Message>, i: nat)
    requires i < |ms| && |EncodeAll(ms)| < 65532
    ensures Ntohs(Encode(ms[i]), 0) == |Encode(ms[i])|
    ensures EncodeAll(ms[..i + 1]) == EncodeAll(ms[..i]) + Encode(ms[i])
    ensures |EncodeAll(ms[..i + 1])| <= |EncodeAll(ms)|
  {
    EncodeAllAround(ms, i);
    var e := Encode(ms[i]);
    assert e[0] == Htons(|e|)[0] && e[1] == Htons(|e|)[1];
    assert Ntohs(Htons(|e|), 0) == |e|;
  }

  lemma MulMonotone(a: int, b: int, m: nat)
    ensures a <= b ==> a * m <= b * m
  {
  }

  lemma FitsWhole(room: nat, size: nat, want: nat)
    requires size > 0 && room >= 4 + size * want
    ensures Fit(room, size, want) == want
  {
    var q := (room - 4) / size;
    assert room - 4 == q * size + (room - 4) % size;
    MulMonotone(q + 1, want, size);
    assert (q + 1) * size == q * size + size;
  }

  lemma FitsPart(room: nat, size: nat, want: nat)
    requires size > 0 && 4 <= room < 4 + size * want
    ensures Fit(room, size, want) == (room - 4) / size < want
  {
    var q := (room - 4) / size;
    assert room - 4 == q * size + (room - 4) % size;
    MulMonotone(want, q, size);
  }

  method AppendRejection(rej: Rejection, a: array<byte>, p: nat) returns (next: nat)
    requires p + 2 <= a.Length && rej.reason < REASON_MAX
    modifies a
    ensures next == p + 2
    ensures a[..next] == old(a[..p]) + [rej.kind, rej.reason]
  {
    SplicePrefix(a[..], p, [rej.kind, rej.reason]);
    var end := GenerateRejectMessage(rej.reason, rej.kind, a, p);
    return end.value;
  }

  /** Copies a generated message, and moves on by the length it carries. */
  method AppendMessage(buf: seq<byte>, a: array<byte>, p: nat) returns (next: nat)
    requires |buf| >= 4 && Ntohs(buf, 0) == |buf| && p + |buf| <= a.Length
    modifies a
    ensures next == p + |buf|
    ensures a[..next] == old(a[..p]) + buf
  {
    var count := Ntohs(buf, 0);
    assert buf[..count] == buf;
    AppendBytes(buf[..count], a, p);
    assert a[..p + count][p] == buf[0] && a[..p + count][p + 1] == buf[1];
    return p + Ntohs(a[..], p);
  }

  /**
   * What becomes of a received packet: so many bytes are sent back, or nothing is. Hangs stands for a turn that never
   * ends, because validating the packet does not.
   */
  datatype Outcome = Sent(length: nat) | Ignored | Hangs

  class NrpdServer {
    const config: NrpdConfig
    const recentClients: MruCache<Address>
    var mtu: nat

    constructor (cfg: NrpdConfig, clients: MruCache<Address>)
      ensures config == cfg && recentClients == clients && mtu == MAX_IP6_PACKET_SIZE
    {
      config := cfg;
      recentClients := clients;
      mtu := MAX_IP6_PACKET_SIZE;
    }

    function EnvNow(device: nat -> seq<byte>): (env: Env)
      reads this, config, config.bannedServers
    {
      EnvOf(config.State(), config.enableIp4Peers, config.enableIp6Peers, mtu, device)
    }

    /** The size of a message that fits and the entries it holds; 0 and the count unchanged if none fits. */
    method CalculateMessageSize(availableBytes: nat, messageSize: nat, messageCount: nat)
        returns (responseSize: nat, count: nat)
      requires messageSize > 0
      ensures responseSize == 0 <==>
        availableBytes < 4 || (messageCount > 0 && Fit(availableBytes, messageSize, messageCount) == 0)
      ensures responseSize == 0 ==> count == messageCount
      ensures responseSize > 0 ==>
        && count == Fit(availableBytes, messageSize, messageCount)
        && responseSize == 4 + messageSize * count <= availableBytes
        && (count < messageCount ==> availableBytes < responseSize + messageSize)
    {
      FitIsLargest(availableBytes, messageSize, messageCount);
      if availableBytes < 4 {
        return 0, messageCount;
      }
      responseSize := 4 + messageSize * messageCount;
      if availableBytes >= responseSize {
        FitsWhole(availableBytes, messageSize, messageCount);
        return responseSize, messageCount;
      }
      var availableMessageCount := (availableBytes - 4) / messageSize;
      FitsPart(availableBytes, messageSize, messageCount);
      if availableMessageCount == 0 {
        return 0, messageCount;
      }
      return 4 + messageSize * availableMessageCount, availableMessageCount;
    }

    /** While a request is answered: nothing but counting happened since the lists were c, and c answers with env. */
    ghost predicate Serves(c: KeptConfig, env: Env)
      reads this, config, config.bannedServers
    {
      && config.bannedServers.lifetime == BAN_SECONDS
      && OnlyCounted(c, config.State())
      && env == EnvOf(c, config.enableIp4Peers, config.enableIp6Peers, mtu, env.device) && Sound(env)
    }

    /** A peers message that fits in availableBytes, and its size; none if there are no servers or no space. */
    method GeneratePeersResponse(kind: byte, msgCount: nat, availableBytes: int, ghost c: KeptConfig, ghost env: Env)
        returns (buf: Option<seq<byte>>, outResponseSize: nat)
      requires Serves(c, env)
      requires kind == IP4PEERS || kind == IP6PEERS
      requires 0 <= availableBytes <= mtu - 4
      modifies config`countIp4Servers, config`countIp6Servers
      ensures Serves(c, env)
      ensures buf == Encoded(AnswerPeers(env, kind == IP6PEERS, msgCount, availableBytes))
      ensures buf.Some? ==> outResponseSize == |buf.value|
    {
      var ipv6 := kind == IP6PEERS;
      var count := CountServers(kind, c, env);
      if msgCount > 0 {
        count := Min(count, msgCount);
      }
      if count == 0 {
        return None, 0;
      }
      outResponseSize, count := CalculateMessageSize(availableBytes, PeersSize(ipv6, 1), count);
      if outResponseSize == 0 {
        return None, outResponseSize;
      }
      var data := FetchServers(kind, count, c, env);
      PeersPrefixSize(env.PeersOf(ipv6), count, ipv6);
      var temp := BuildPeersMessage(kind, count, data, outResponseSize);
      return Some(temp), outResponseSize;
    }

    method CountServers(kind: byte, ghost c: KeptConfig, ghost env: Env) returns (count: nat)
      requires Serves(c, env) && (kind == IP4PEERS || kind == IP6PEERS)
      modifies config`countIp4Servers, config`countIp6Servers
      ensures Serves(c, env)
      ensures count == env.Known(kind == IP6PEERS)
    {
      OnlyCountedKeeps(c, config.State());
      CountingOn(c, config.State(), kind == IP6PEERS);
      count := config.ActiveServerCount(kind);
    }

    /** GetServerList for a count that ActiveServerCount allows. */
    method FetchServers(kind: byte, count: nat, ghost c: KeptConfig, ghost env: Env) returns (data: Option<seq<byte>>)
      requires Serves(c, env) && (kind == IP4PEERS || kind == IP6PEERS)
      requires 0 < count <= env.Known(kind == IP6PEERS) <= |env.PeersOf(kind == IP6PEERS)|
      modifies config`countIp4Servers, config`countIp6Servers
      ensures Serves(c, env)
      ensures data == Some(PeersBytes(env.PeersOf(kind == IP6PEERS)[..count]))
    {
      OnlyCountedKeeps(c, config.State());
      CountingOn(c, config.State(), kind == IP6PEERS);
      data := config.GetServerList(kind, count);
    }

    method BuildPeersMessage(kind: byte, count: nat, data: Option<seq<byte>>,
                             outResponseSize: nat) returns (buf: seq<byte>)
      requires (kind == IP4PEERS || kind == IP6PEERS) && 0 < count <= 255
      requires data.Some? && |data.value| == ContentSize(kind, count) && outResponseSize == 4 + |data.value|
      ensures buf == Encode(Message(kind, Uchar(count), data.value))
    {
      var temp, msgCount := new byte[outResponseSize](_ => 0), Uchar(count);
      assert msgCount as int == count;
      assert data.value[..ContentSize(kind, msgCount)] == data.value;
      SpliceWhole(temp[..], Encode(Message(kind, msgCount, data.value)));
      var next := GenerateResponsePeersMessage(kind, msgCount, data, outResponseSize, temp, 0);
      return temp[..];
    }

    /** An entropy message of what the random device yields; none if there is no space or nothing to read. */
    method GenerateEntropyResponse(size: nat, bytesRemaining: int, device: nat -> seq<byte>, i: nat, ghost env: Env)
        returns (buf: Option<seq<byte>>, outResponseSize: nat)
      requires device == env.device && size <= 255
      requires 0 <= bytesRemaining <= MAX_IP6_PACKET_SIZE
      ensures buf == Encoded(AnswerEntropy(env, i, size, bytesRemaining))
      ensures buf.Some? ==> outResponseSize == |buf.value|
    {
      var wanted: nat := if size <= 0 then DEFAULT_ENTROPY_SIZE as nat else size;
      var actualSize, count := CalculateMessageSize(bytesRemaining, 1, wanted);
      outResponseSize := 0;
      if actualSize == 0 {
        return None, outResponseSize;
      }
      var dataSize := actualSize - 4;
      var data := Read(device(i), dataSize);
      var readSize := |data|;
      if readSize == 0 {
        return None, outResponseSize;
      } else if readSize < dataSize {
        actualSize := 4 + readSize;
      }
      var temp := BuildEntropyMessage(data, actualSize);
      outResponseSize := actualSize;
      return Some(temp), outResponseSize;
    }

    method BuildEntropyMessage(data: seq<byte>, actualSize: nat) returns (buf: seq<byte>)
      requires 0 < |data| <= 255 && actualSize == 4 + |data|
      ensures buf == Encode(Message(ENTROPY, Uchar(|data|), data))
    {
      assert data[..|data|] == data;
      var temp := new byte[actualSize](_ => 0);
      SpliceWhole(temp[..], Encode(Message(ENTROPY, Uchar(|data|), data)));
      var next := GenerateResponseEntropyMessage(Uchar(|data|), data, actualSize, temp, 0);
      return temp[..];
    }

    function CalculateRemainingBytes(availableBytes: int, rejCount: nat): (n: int) {
      if rejCount > 0 then availableBytes - (4 + rejCount * 2) else availableBytes
    }

    /** The switch on one message: an answer, nothing for lack of space or of anything to send, or a rejection. */
    method AnswerOrReject(ask: Ask, room: int, device: nat -> seq<byte>, i: nat, ghost c: KeptConfig, ghost env: Env)
        returns (buf: Option<seq<byte>>, responseSize: nat, rejected: bool)
      requires Serves(c, env) && device == env.device
      requires 0 <= room <= mtu - 4
      modifies config`countIp4Servers, config`countIp6Servers
      ensures Serves(c, env)
      ensures rejected <==> Rejects(env, ask.kind)
      ensures buf == if rejected then None else Encoded(Reply(env, i, ask, room))
      ensures buf.Some? ==> responseSize == |buf.value|
    {
      buf, responseSize, rejected := None, 0, false;
      if ask.kind == IP4PEERS || ask.kind == IP6PEERS {
        if config.EnablePeersResponse(ask.kind) {
          buf, responseSize := GeneratePeersResponse(ask.kind, ask.count, room, c, env);
        } else {
          rejected := true;
        }
      } else if ask.kind == ENTROPY {
        buf, responseSize := GenerateEntropyResponse(ask.count, room, device, i, env);
      } else {
        rejected := true;
      }
    }

    /** The reject message for the first msgCount rejections. */
    method GenerateRejections(rejections: seq<Rejection>, ghost kinds: seq<byte>, msgCount: nat, responseSize: nat)
        returns (buf: seq<byte>)
      requires rejections == Rejections(kinds)
      requires 0 < msgCount <= |rejections| && msgCount <= 255 && responseSize == 4 + 2 * msgCount
      ensures buf == Encode(Message(REJECT, Uchar(msgCount), RejectBody(kinds[..msgCount])))
    {
      var temp := new byte[responseSize](_ => 0);
      var count := Uchar(msgCount);
      UcharIsExact(msgCount);
      ghost var header := Htons(4 + 2 * count as int) + [REJECT, count];
      SplicePrefix(temp[..], 0, header);
      var rejectMsg := GenerateRejectHeader(count, temp, 0);
      assert temp[..4] == header;
      WriteRejections(rejections, kinds, msgCount, temp, rejectMsg, header);
      assert temp[..] == temp[..responseSize];
      return temp[..];
    }

    /** The entries behind the header, as many as the message has place for. */
    method WriteRejections(rejections: seq<Rejection>, ghost kinds: seq<byte>, msgCount: nat, temp: array<byte>,
                           start: nat, ghost header: seq<byte>)
      requires rejections == Rejections(kinds) && 0 < msgCount <= |rejections|
      requires start == |header| == 4 && temp.Length == 4 + 2 * msgCount && temp[..4] == header
      modifies temp
      ensures temp[..4 + 2 * msgCount] == header + RejectBody(kinds[..msgCount])
    {
      var rejectMsg, i := start, 0;
      while i < |rejections|
        invariant 0 <= i <= msgCount && rejectMsg == 4 + 2 * i
        invariant temp[..rejectMsg] == header + RejectBody(kinds[..i])
      {
        if rejectMsg >= 4 + msgCount * 2 {
          break;
        }
        RejectBodyStep(kinds, i);
        Regroup(header, RejectBody(kinds[..i]), [kinds[i], UNSUPPORTED]);
        rejectMsg := AppendRejection(rejections[i], temp, rejectMsg);
        i := i + 1;
      }
    }

    /** What is done with message n of the request. */
    method AnswerNext(ask: Ask, device: nat -> seq<byte>, n: nat,
                      ghost asks: seq<Ask>, ghost c: KeptConfig, ghost env: Env,
                      bytesRemaining0: int, outMessageLength0: nat, msgs0: seq<seq<byte>>, rejections0: seq<Rejection>)
        returns (bytesRemaining: int, outMessageLength: nat, msgs: seq<seq<byte>>, rejections: seq<Rejection>)
      requires Serves(c, env) && device == env.device && n < |asks| && ask == asks[n]
      requires Shows(Packed(env, asks, n), bytesRemaining0, outMessageLength0, msgs0, rejections0)
      requires 0 < bytesRemaining0 - Reserve(|rejections0|)
      modifies config`countIp4Servers, config`countIp6Servers
      ensures Serves(c, env)
      ensures Shows(Packed(env, asks, n + 1), bytesRemaining, outMessageLength, msgs, rejections)
    {
      ghost var p, q := Packed(env, asks, n), Packed(env, asks, n + 1);
      PackingBalances(env, asks, n);
      PackedStep(env, asks, n + 1);
      bytesRemaining, outMessageLength, msgs, rejections := bytesRemaining0, outMessageLength0, msgs0, rejections0;
      var buf, responseSize, rejected :=
        AnswerOrReject(ask, CalculateRemainingBytes(bytesRemaining, |rejections|), device, n, c, env);
      ShowsStep(env, n, ask, p, q, bytesRemaining, outMessageLength, msgs, rejections, buf);
      if rejected {
        rejections := rejections + [Rejection(ask.kind, UNSUPPORTED)];
      }
      if buf.Some? {
        msgs := msgs + [buf.value];
        bytesRemaining := bytesRemaining - responseSize;
        outMessageLength := outMessageLength + responseSize;
      }
    }

    /** One turn of the loop: the message under the cursor is answered, and the cursor moves on. */
    method AnswerUnderCursor(pkt: array<byte>, ghost s: seq<byte>, currentMsg: nat, device: nat -> seq<byte>, n: nat,
                             ghost asks: seq<Ask>, ghost c: KeptConfig, ghost env: Env,
                             bytesRemaining0: int, outMessageLength0: nat, msgs0: seq<seq<byte>>,
                             rejections0: seq<Rejection>)
        returns (next: nat, bytesRemaining: int, outMessageLength: nat, msgs: seq<seq<byte>>,
                 rejections: seq<Rejection>)
      requires s == pkt[..] && Readable(s) && FindsAll(s, asks) && n < |asks| && OnTrack(s, asks, n, currentMsg)
      requires Serves(c, env) && device == env.device
      requires Shows(Packed(env, asks, n), bytesRemaining0, outMessageLength0, msgs0, rejections0)
      requires 0 < bytesRemaining0 - Reserve(|rejections0|)
      modifies config`countIp4Servers, config`countIp6Servers
      ensures Serves(c, env)
      ensures Shows(Packed(env, asks, n + 1), bytesRemaining, outMessageLength, msgs, rejections)
      ensures currentMsg < next && OnTrack(s, asks, n + 1, next)
    {
      StaysOnTrack(s, asks, n);
      StaysOnTrack(s, asks, n + 1);
      bytesRemaining, outMessageLength, msgs, rejections :=
        AnswerNext(Ask(pkt[currentMsg + 2], pkt[currentMsg + 3]), device, n, asks, c, env,
                   bytesRemaining0, outMessageLength0, msgs0, rejections0);
      next := currentMsg + Ntohs(pkt[..], currentMsg);
    }

    /** The loop over the messages of the request, and the rejections it leaves. */
    method AnswerAll(pkt: array<byte>, device: nat -> seq<byte>,
                     ghost asks: seq<Ask>, ghost c: KeptConfig, ghost env: Env)
        returns (bytesRemaining: int, outMessageLength: nat, msgs: seq<seq<byte>>, rejections: seq<Rejection>)
      requires pkt.Length >= BUFFER && Ntohs(pkt[..], 0) <= MAX_PACKET
      requires FindsAll(pkt[..], asks)
      requires Serves(c, env) && device == env.device
      modifies config`countIp4Servers, config`countIp6Servers
      ensures Serves(c, env)
      ensures Shows(Packed(env, asks, |asks|), bytesRemaining, outMessageLength, msgs, rejections)
    {
      bytesRemaining, outMessageLength, msgs, rejections := mtu - 4, 0, [], [];
      var currentMsg: nat, end: int, n: nat := 4, Ntohs(pkt[..], 0), 0;
      ghost var s := pkt[..];
      StaysOnTrack(s, asks, 0);
      ShowsStart(env, asks);
      while currentMsg < end && CalculateRemainingBytes(bytesRemaining, |rejections|) > 0
        invariant Serves(c, env)
        invariant OnTrack(s, asks, n, currentMsg)
        invariant Shows(Packed(env, asks, n), bytesRemaining, outMessageLength, msgs, rejections)
        decreases end - currentMsg
      {
        currentMsg, bytesRemaining, outMessageLength, msgs, rejections :=
          AnswerUnderCursor(pkt, s, currentMsg, device, n, asks, c, env,
                            bytesRemaining, outMessageLength, msgs, rejections);
        n := n + 1;
      }
      ShowsEnd(env, asks, n);
    }

    /** The reject message, of as many rejections as fit, goes before the answers. */
    method PrependRejections(bytesRemaining: nat, outMessageLength0: nat, msgs0: seq<seq<byte>>,
                             rejections: seq<Rejection>, ghost p: Pack)
        returns (outMessageLength: nat, msgs: seq<seq<byte>>)
      requires Shows(p, bytesRemaining, outMessageLength0, msgs0, rejections) && |rejections| <= 255
      ensures msgs == EncodeEach(Messages(p)) && outMessageLength == |EncodeAll(Messages(p))|
    {
      outMessageLength, msgs := outMessageLength0, msgs0;
      MessagesSize(p);
      if rejections != [] {
        var responseSize, msgCount := CalculateMessageSize(bytesRemaining, 2, |rejections|);
        if responseSize > 0 {
          var buf := GenerateRejections(rejections, p.rejected, msgCount, responseSize);
          msgs := [buf] + msgs;
          outMessageLength := outMessageLength + responseSize;
        }
      }
    }

    method ParseMessages(pkt: array<byte>, device: nat -> seq<byte>)
        returns (ok: bool, outMessageLength: nat, msgs: seq<seq<byte>>)
      requires pkt.Length >= BUFFER && Validate(pkt[..], true) == Accepted
      requires config.Valid() && Sound(EnvNow(device))
      modifies config`countIp4Servers, config`countIp6Servers
      ensures ok && config.Valid() && OnlyCounted(old(config.State()), config.State())
      ensures msgs == EncodeEach(Response(old(EnvNow(device)), AsksOf(pkt[..])))
      ensures outMessageLength == |EncodeAll(Response(old(EnvNow(device)), AsksOf(pkt[..])))|
    {
      ok, outMessageLength, msgs := mtu > 4, 0, [];
      if !ok {
        return;
      }
      var bytesRemaining, rejections;
      ghost var c: KeptConfig, env, asks := config.State(), EnvNow(device), AsksOf(pkt[..]);
      RequestFindsAll(pkt[..]);
      ValidatedRequests(pkt[..]);
      bytesRemaining, outMessageLength, msgs, rejections := AnswerAll(pkt, device, asks, c, env);
      OnlyCountedKeeps(c, config.State());
      PackingBalances(env, asks, |asks|);
      outMessageLength, msgs :=
        PrependRejections(bytesRemaining, outMessageLength, msgs, rejections, Packed(env, asks, |asks|));
    }

    /**
     * The end of ServerLoop: packet header, then the messages one after another. An empty list leaves the buffer as it
     * was received, because no packet header can be generated for it.
     */
    method AssembleResponse(buffer: array<byte>, messageLength: nat, msgs: seq<seq<byte>>, ghost ms: seq<Message>)
      requires msgs == EncodeEach(ms) && messageLength == |EncodePacket(RESPONSE, ms)|
      requires messageLength <= mtu <= MAX_IP6_PACKET_SIZE && |ms| <= 255
      requires buffer.Length >= BUFFER
      modifies buffer
      ensures ms != [] ==> buffer[..messageLength] == EncodePacket(RESPONSE, ms)
      ensures ms == [] ==> buffer[..] == old(buffer[..])
    {
      assert messageLength <= mtu;
      ghost var header := Htons(messageLength) + [RESPONSE, Uchar(|ms|)];
      SplicePrefix(buffer[..], 0, header);
      var next := GeneratePacketHeader(messageLength, RESPONSE, Uchar(|msgs|), buffer);
      if next.None? {
        return;
      }
      assert buffer[..4] == header;
      var msg, i := next.value, 0;
      while i < |msgs|
        invariant 0 <= i <= |msgs|
        invariant msg == 4 + |EncodeAll(ms[..i])| <= messageLength
        invariant buffer[..msg] == header + EncodeAll(ms[..i])
      {
        EncodedMessage(ms, i);
        Regroup(header, EncodeAll(ms[..i]), Encode(ms[i]));
        msg := AppendMessage(msgs[i], buffer, msg);
        i := i + 1;
      }
      assert ms[..|ms|] == ms;
    }

    /** What follows once a request is let through: its messages are answered and the response is assembled. */
    method Answer(buffer: array<byte>, device: nat -> seq<byte>) returns (messageLength: nat)
      requires buffer.Length >= BUFFER && Validate(buffer[..], true) == Accepted
      requires config.Valid() && Sound(EnvNow(device))
      modifies buffer, config`countIp4Servers, config`countIp6Servers
      ensures config.Valid() && OnlyCounted(old(config.State()), config.State())
      ensures
        var ms := Response(old(EnvNow(device)), AsksOf(old(buffer[..])));
        && messageLength == |EncodePacket(RESPONSE, ms)| <= mtu
        && (ms != [] ==> buffer[..messageLength] == EncodePacket(RESPONSE, ms))
        && (ms == [] ==> buffer[..] == old(buffer[..]))
    {
      ghost var env, asks := EnvNow(device), AsksOf(buffer[..]);
      var ok, msgs;
      ok, messageLength, msgs := ParseMessages(buffer, device);
      assert ok;
      ValidatedRequests(buffer[..]);
      ResponseCountsFitInByte(env, asks);
      ResponseFits(env, asks);
      messageLength := messageLength + 4;
      AssembleResponse(buffer, messageLength, msgs, Response(env, asks));
    }

    /** One turn of ServerLoop on a received packet. */
    method HandlePacket(buffer: array<byte>, src: Address, srcIsIp4: bool, now: int, device: nat -> seq<byte>)
        returns (outcome: Outcome)
      requires buffer.Length >= BUFFER
      requires config.Valid() && (recentClients as object) != config.bannedServers
      modifies this`mtu, buffer, config`countIp4Servers, config`countIp6Servers, recentClients`entries
      ensures config.Valid() && OnlyCounted(old(config.State()), config.State())
      ensures outcome.Hangs? <==> Validate(old(buffer[..]), true) == Endless
      ensures outcome.Sent? <==>
        && Validate(old(buffer[..]), true) == Accepted
        && !Alive(old(recentClients.entries), recentClients.lifetime, src, now)
      ensures recentClients.entries ==
        if outcome.Sent? then old(recentClients.entries)[src := now] else old(recentClients.entries)
      ensures !outcome.Sent? ==> buffer[..] == old(buffer[..])
      ensures outcome.Sent? ==>
        var env := EnvOf(old(config.State()), config.enableIp4Peers, config.enableIp6Peers,
                         if srcIsIp4 then MAX_IP4_PACKET_SIZE else MAX_IP6_PACKET_SIZE, device);
        && Sound(env)
        && var ms := Response(env, AsksOf(old(buffer[..])));
           && outcome.length == |EncodePacket(RESPONSE, ms)| <= env.mtu
           && (ms != [] ==> buffer[..outcome.length] == EncodePacket(RESPONSE, ms))
           && (ms == [] ==> buffer[..] == old(buffer[..]))
    {
      var verdict := ValidatePacket(buffer, true);
      if verdict == Endless {
        return Hangs;
      }
      if verdict != Accepted {
        return Ignored;
      }
      var recent, cleaning := recentClients.IsPresentAdd(src, now);
      if recent {
        return Ignored;
      }
      mtu := if srcIsIp4 then MAX_IP4_PACKET_SIZE else MAX_IP6_PACKET_SIZE;
      EnvIsSound(config.State(), config.enableIp4Peers, config.enableIp6Peers, mtu, device);
      assert config.State() == old(config.State());
      var messageLength := Answer(buffer, device);
      return Sent(messageLength);
    }
  }
}
