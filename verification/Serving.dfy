/** The server loop over a whole stream of received packets: who is answered, and with what. */
module Serving {
  import opened Options
  import opened Wire
  import opened Validator
  import opened Generators
  import opened Records
  import opened MruCaches
  import opened CacheRuns
  import opened Scheduler
  import opened Packing
  import opened Requests
  import opened Server
  import Grammar

  /**
   * What matters of a packet for the client table: where it comes from, when it is received, what the validator says,
   * and at which times the cleaner runs before it, since the packet before.
   */
  datatype Arrival = Arrival(src: Address, now: int, verdict: Verdict, cleanings: seq<int>)

  // ---------- the calls on the client table ----------

  function CleanCalls(times: seq<int>): (cs: seq<Call<Address>>)
    ensures |cs| == |times|
  {
    seq(|times|, k requires 0 <= k < |times| => Clean(times[k]))
  }

  function RequestCalls(d: Arrival): (cs: seq<Call<Address>>) {
    if d.verdict == Accepted then [PresentAdd(d.src, d.now)] else []
  }

  /** The calls that the first n packets cause. */
  function Calls(ds: seq<Arrival>, n: nat): (cs: seq<Call<Address>>)
    requires n <= |ds|
    decreases n, 0
  {
    if n == 0 then [] else CallsCleaned(ds, n - 1) + RequestCalls(ds[n - 1])
  }

  /** The same with the cleaning before packet n. */
  function CallsCleaned(ds: seq<Arrival>, n: nat): (cs: seq<Call<Address>>)
    requires n < |ds|
    decreases n, 1
  {
    Calls(ds, n) + CleanCalls(ds[n].cleanings)
  }

  /** Where the IsPresentAdd of packet i stands among them. */
  function Place(ds: seq<Arrival>, i: nat): (a: nat)
    requires i < |ds|
  {
    |CallsCleaned(ds, i)|
  }

  lemma PrefixExtends<T>(x: seq<T>, y: seq<T>, z: seq<T>)
    requires x <= y
    ensures x <= y + z
  {
  }

  lemma {:induction false} CallsGrow(ds: seq<Arrival>, n: nat, m: nat)
    requires n <= m <= |ds|
    ensures Calls(ds, n) <= Calls(ds, m)
    decreases m
  {
    if n < m {
      CallsGrow(ds, n, m - 1);
      PrefixExtends(Calls(ds, n), Calls(ds, m - 1), CleanCalls(ds[m - 1].cleanings));
      PrefixExtends(Calls(ds, n), CallsCleaned(ds, m - 1), RequestCalls(ds[m - 1]));
    }
  }

  lemma {:induction false} CallsHaveNoAdds(ds: seq<Arrival>, n: nat)
    requires n <= |ds|
    ensures NoAdds(Calls(ds, n))
    decreases n
  {
    if n > 0 {
      CallsHaveNoAdds(ds, n - 1);
    }
  }

  lemma CallOf(ds: seq<Arrival>, i: nat, n: nat)
    requires i < n <= |ds| && ds[i].verdict == Accepted
    ensures Calls(ds, i + 1) == CallsCleaned(ds, i) + [PresentAdd(ds[i].src, ds[i].now)] <= Calls(ds, n)
    ensures Place(ds, i) < |Calls(ds, n)| && Calls(ds, n)[Place(ds, i)] == PresentAdd(ds[i].src, ds[i].now)
  {
    CallsGrow(ds, i + 1, n);
    assert Calls(ds, n)[Place(ds, i)] == Calls(ds, i + 1)[Place(ds, i)];
  }

  /** Every IsPresentAdd comes from a packet. */
  lemma {:induction false} Caller(ds: seq<Arrival>, n: nat, a: nat) returns (i: nat)
    requires n <= |ds| && a < |Calls(ds, n)| && Calls(ds, n)[a].PresentAdd?
    ensures i < n && ds[i].verdict == Accepted && a == Place(ds, i)
    decreases n
  {
    if a < |Calls(ds, n - 1)| {
      CallsGrow(ds, n - 1, n);
      i := Caller(ds, n - 1, a);
    } else {
      i := n - 1;
    }
  }

  lemma PlacesOrdered(ds: seq<Arrival>, i: nat, j: nat)
    requires i < j < |ds| && ds[i].verdict == Accepted
    ensures Place(ds, i) < Place(ds, j)
  {
    CallOf(ds, i, j);
  }

  /** The cleaner runs between the packet before and this one. */
  predicate CleanedBetween(times: seq<int>, now: int) {
    && (forall k, l :: 0 <= k <= l < |times| ==> times[k] <= times[l])
    && (forall t :: t in times ==> t <= now)
  }

  predicate InOrder(ds: seq<Arrival>) {
    && (forall i, j :: 0 <= i <= j < |ds| ==> ds[i].now <= ds[j].now)
    && (forall i :: 0 <= i < |ds| ==> CleanedBetween(ds[i].cleanings, ds[i].now))
    && (forall i, j, t :: 0 <= i < j < |ds| && t in ds[j].cleanings ==> ds[i].now <= t)
  }

  lemma CleanCallsOrdered(times: seq<int>, now: int)
    requires CleanedBetween(times, now)
    ensures Ordered(CleanCalls(times))
    ensures forall c :: c in CleanCalls(times) ==> c.now in times
  {
  }

  lemma CallsBefore(ds: seq<Arrival>, n: nat, t: int)
    requires InOrder(ds) && n <= |ds| && forall i :: 0 <= i < n ==> ds[i].now <= t
    ensures forall c :: c in Calls(ds, n) ==> c.now <= t
    decreases n
  {
    if n > 0 {
      CallsBefore(ds, n - 1, t);
      CleanCallsOrdered(ds[n - 1].cleanings, ds[n - 1].now);
    }
  }

  lemma OrderedAppend(xs: seq<Call<Address>>, ys: seq<Call<Address>>)
    requires Ordered(xs) && Ordered(ys) && forall x, y :: x in xs && y in ys ==> x.now <= y.now
    ensures Ordered(xs + ys)
  {
    forall i, j | 0 <= i <= j < |xs + ys|
      ensures (xs + ys)[i].now <= (xs + ys)[j].now
    {
      if i < |xs| <= j {
        assert xs[i] in xs && ys[j - |xs|] in ys;
      }
    }
  }

  lemma CleanedOrdered(ds: seq<Arrival>, n: nat)
    requires InOrder(ds) && n < |ds| && Ordered(Calls(ds, n))
    ensures Ordered(CallsCleaned(ds, n)) && forall c :: c in CallsCleaned(ds, n) ==> c.now <= ds[n].now
  {
    CleanCallsOrdered(ds[n].cleanings, ds[n].now);
    CallsBefore(ds, n, ds[n].now);
    if n > 0 {
      CallsBefore(ds, n, ds[n - 1].now);
    }
    OrderedAppend(Calls(ds, n), CleanCalls(ds[n].cleanings));
  }

  lemma RequestOrdered(cs: seq<Call<Address>>, d: Arrival)
    requires Ordered(cs) && forall c :: c in cs ==> c.now <= d.now
    ensures Ordered(cs + RequestCalls(d))
  {
    OrderedAppend(cs, RequestCalls(d));
  }

  lemma {:induction false} CallsOrdered(ds: seq<Arrival>, n: nat)
    requires InOrder(ds) && n <= |ds|
    ensures Ordered(Calls(ds, n))
    decreases n
  {
    if n > 0 {
      CallsOrdered(ds, n - 1);
      CleanedOrdered(ds, n - 1);
      RequestOrdered(CallsCleaned(ds, n - 1), ds[n - 1]);
    }
  }

  // ---------- who is answered ----------

  /** None of the first n packets hangs the server. */
  predicate Responsive(ds: seq<Arrival>, n: nat)
    requires n <= |ds|
  {
    forall i :: 0 <= i < n ==> ds[i].verdict != Endless
  }

  /** Packet i is a request that the client table would let through. */
  predicate Passes(lifetime: int, ds: seq<Arrival>, i: nat)
    requires i < |ds|
  {
    && ds[i].verdict == Accepted
    && var cs := Calls(ds, |ds|);
       Place(ds, i) < |cs| && Accepts(lifetime, cs, Place(ds, i), ds[i].src)
  }

  /** And the server lives to see it. */
  predicate Answers(lifetime: int, ds: seq<Arrival>, i: nat)
    requires i < |ds|
  {
    Responsive(ds, i) && Passes(lifetime, ds, i)
  }

  lemma CallsAreARun(lifetime: int, ds: seq<Arrival>, i: nat)
    requires InOrder(ds) && i < |ds| && ds[i].verdict == Accepted
    ensures var cs, a := Calls(ds, |ds|), Place(ds, i);
            && a < |cs| && cs[a] == PresentAdd(ds[i].src, ds[i].now) && Ordered(cs) && NoAdds(cs)
            && (Passes(lifetime, ds, i) <==> !CacheRuns.Reply(lifetime, cs, a, true))
  {
    var cs := Calls(ds, |ds|);
    CallsOrdered(ds, |ds|);
    CallOf(ds, i, |ds|);
    CallsHaveNoAdds(ds, |ds|);
  }

  /** The earlier call a refused one follows too closely. */
  lemma Blocker(lifetime: int, ds: seq<Arrival>, i: nat) returns (b: nat)
    requires InOrder(ds) && i < |ds| && ds[i].verdict == Accepted && !Passes(lifetime, ds, i)
    ensures var cs := Calls(ds, |ds|);
            && b < Place(ds, i) < |cs| && Accepts(lifetime, cs, b, ds[i].src)
            && ds[i].now < cs[b].now + lifetime
  {
    var cs, a := Calls(ds, |ds|), Place(ds, i);
    CallsAreARun(lifetime, ds, i);
    ExactRateLimit(lifetime, cs, a);
    b :| 0 <= b < a && Accepts(lifetime, cs, b, ds[i].src) && cs[a].now < cs[b].now + lifetime;
  }

  /** A request that is not answered follows too closely on one that was. */
  lemma RefusedFor(lifetime: int, ds: seq<Arrival>, i: nat) returns (j: nat)
    requires InOrder(ds) && i < |ds| && ds[i].verdict == Accepted && !Passes(lifetime, ds, i)
    ensures j < i && Passes(lifetime, ds, j) && ds[j].src == ds[i].src && ds[i].now < ds[j].now + lifetime
  {
    var b := Blocker(lifetime, ds, i);
    j := Caller(ds, |ds|, b);
    CallOf(ds, j, |ds|);
    if i < j {
      PlacesOrdered(ds, i, j);
    }
  }

  lemma RefusedAfter(lifetime: int, ds: seq<Arrival>, j: nat, i: nat)
    requires InOrder(ds) && j < i < |ds| && ds[i].verdict == Accepted
    requires Passes(lifetime, ds, j) && ds[j].src == ds[i].src && ds[i].now < ds[j].now + lifetime
    ensures !Passes(lifetime, ds, i)
  {
    var cs := Calls(ds, |ds|);
    CallsAreARun(lifetime, ds, i);
    CallsAreARun(lifetime, ds, j);
    PlacesOrdered(ds, j, i);
    ExactRateLimit(lifetime, cs, Place(ds, i));
  }

  /** A request of the same client was answered less than a lifetime before packet i. */
  predicate TooSoon(lifetime: int, ds: seq<Arrival>, i: nat)
    requires i < |ds|
  {
    exists j :: 0 <= j < i && Answers(lifetime, ds, j) && ds[j].src == ds[i].src && ds[i].now < ds[j].now + lifetime
  }

  /**
   * Over any stream of packets, and whenever the cleaner runs: a request is answered if and only if no packet before it
   * hangs the server, and no request of the same client was answered less than a lifetime before.
   */
  lemma AnsweredExactly(lifetime: int, ds: seq<Arrival>, i: nat)
    requires InOrder(ds) && i < |ds|
    ensures Answers(lifetime, ds, i) <==>
            ds[i].verdict == Accepted && Responsive(ds, i) && !TooSoon(lifetime, ds, i)
  {
    if ds[i].verdict == Accepted && Responsive(ds, i) {
      if !Passes(lifetime, ds, i) {
        var j := RefusedFor(lifetime, ds, i);
        assert Answers(lifetime, ds, j);
      }
      if j :| 0 <= j < i && Answers(lifetime, ds, j) && ds[j].src == ds[i].src && ds[i].now < ds[j].now + lifetime {
        RefusedAfter(lifetime, ds, j, i);
      }
    }
  }

  /** From packet n on nothing is answered exactly if the server hangs before n, or whatever it sees comes too soon. */
  lemma NothingAnsweredExactly(lifetime: int, ds: seq<Arrival>, n: nat)
    requires InOrder(ds) && n <= |ds|
    ensures (forall i :: n <= i < |ds| ==> !Answers(lifetime, ds, i)) <==>
            || !Responsive(ds, n)
            || (forall i :: n <= i < |ds| && Responsive(ds, i) && ds[i].verdict == Accepted ==>
                  TooSoon(lifetime, ds, i))
  {
    forall i | n <= i < |ds|
      ensures Answers(lifetime, ds, i) <==>
              ds[i].verdict == Accepted && Responsive(ds, i) && !TooSoon(lifetime, ds, i)
      ensures Responsive(ds, i) ==> Responsive(ds, n)
    {
      AnsweredExactly(lifetime, ds, i);
    }
  }

  /** A request from a client at a time when nobody is remembered any more. */
  function LateRequest(lifetime: int, ds: seq<Arrival>, src: Address): (d: Arrival) {
    var last := if ds == [] then 0 else ds[|ds| - 1].now;
    Arrival(src, if lifetime > 0 then last + lifetime else last, Accepted, [])
  }

  lemma LateRequestIsLate(lifetime: int, ds: seq<Arrival>, d: Arrival)
    requires InOrder(ds) && d == LateRequest(lifetime, ds, d.src)
    ensures InOrder(ds + [d]) && forall i :: 0 <= i < |ds| ==> ds[i].now + lifetime <= d.now
  {
  }

  lemma LateRequestIsAnswered(lifetime: int, ds: seq<Arrival>, d: Arrival)
    requires InOrder(ds) && Responsive(ds, |ds|) && d == LateRequest(lifetime, ds, d.src)
    ensures InOrder(ds + [d]) && Answers(lifetime, ds + [d], |ds|)
  {
    LateRequestIsLate(lifetime, ds, d);
    AnsweredExactly(lifetime, ds + [d], |ds|);
  }

  /** A server is deaf for good, whatever it may still receive, if and only if it received a packet that hangs it. */
  lemma DeafExactly(lifetime: int, ds: seq<Arrival>)
    requires InOrder(ds)
    ensures (forall es, i :: InOrder(ds + es) && |ds| <= i < |ds + es| ==> !Answers(lifetime, ds + es, i)) <==>
            !Responsive(ds, |ds|)
  {
    if Responsive(ds, |ds|) {
      var es := [LateRequest(lifetime, ds, V4([0, 0, 0, 0]))];
      LateRequestIsAnswered(lifetime, ds, es[0]);
      assert InOrder(ds + es) && Answers(lifetime, ds + es, |ds|);
    } else {
      var k :| 0 <= k < |ds| && ds[k].verdict == Endless;
      forall es, i | InOrder(ds + es) && |ds| <= i < |ds + es|
        ensures !Answers(lifetime, ds + es, i)
      {
        assert (ds + es)[k].verdict == Endless;
      }
    }
  }

  /** The client table when packet n arrives. */
  function Table(lifetime: int, ds: seq<Arrival>, n: nat): (m: map<Address, int>)
    requires n <= |ds|
  {
    After(lifetime, Calls(ds, n), |Calls(ds, n)|, true)
  }

  /** What is left of a table when the cleaner has run at these times. */
  function CleanedAt(m: map<Address, int>, lifetime: int, times: seq<int>): (r: map<Address, int>) {
    if times == [] then m
    else Cleaned(CleanedAt(m, lifetime, times[..|times| - 1]), lifetime, times[|times| - 1])
  }

  /** The table when packet n is looked at. */
  function TableCleaned(lifetime: int, ds: seq<Arrival>, n: nat): (m: map<Address, int>)
    requires n < |ds|
  {
    CleanedAt(Table(lifetime, ds, n), lifetime, ds[n].cleanings)
  }

  lemma AfterOneMore<K>(lifetime: int, cs: seq<Call<K>>, c: Call<K>)
    ensures After(lifetime, cs + [c], |cs| + 1, true) == Apply(After(lifetime, cs, |cs|, true), lifetime, c)
  {
    AfterPrefix(lifetime, cs, cs + [c], |cs|, true);
  }

  lemma {:induction false} AfterCleaning(lifetime: int, cs: seq<Call<Address>>, times: seq<int>)
    ensures var ds := cs + CleanCalls(times);
            After(lifetime, ds, |ds|, true) == CleanedAt(After(lifetime, cs, |cs|, true), lifetime, times)
    decreases |times|
  {
    if times == [] {
      assert cs + CleanCalls(times) == cs;
    } else {
      var n := |times| - 1;
      AfterCleaning(lifetime, cs, times[..n]);
      assert cs + CleanCalls(times) == cs + CleanCalls(times[..n]) + [Clean(times[n])];
      AfterOneMore(lifetime, cs + CleanCalls(times[..n]), Clean(times[n]));
    }
  }

  /** The table decides about a request. */
  lemma TableDecides(lifetime: int, ds: seq<Arrival>, n: nat)
    requires n < |ds| && ds[n].verdict == Accepted
    ensures Passes(lifetime, ds, n) <==> !Alive(TableCleaned(lifetime, ds, n), lifetime, ds[n].src, ds[n].now)
  {
    var cs := CallsCleaned(ds, n);
    AfterCleaning(lifetime, Calls(ds, n), ds[n].cleanings);
    CallOf(ds, n, |ds|);
    AfterPrefix(lifetime, cs, Calls(ds, |ds|), |cs|, true);
  }

  /** What a packet does to the table. */
  lemma TableStep(lifetime: int, ds: seq<Arrival>, n: nat)
    requires n < |ds|
    ensures var m, d := TableCleaned(lifetime, ds, n), ds[n];
            && (Passes(lifetime, ds, n) <==> d.verdict == Accepted && !Alive(m, lifetime, d.src, d.now))
            && Table(lifetime, ds, n + 1) == if Passes(lifetime, ds, n) then m[d.src := d.now] else m
  {
    var cs, d := CallsCleaned(ds, n), ds[n];
    AfterCleaning(lifetime, Calls(ds, n), d.cleanings);
    if d.verdict == Accepted {
      TableDecides(lifetime, ds, n);
      CallOf(ds, n, n + 1);
      AfterOneMore(lifetime, cs, PresentAdd(d.src, d.now));
    } else {
      assert Calls(ds, n + 1) == cs;
    }
  }

  // ---------- the loop ----------

  /**
   * A packet as it is received, what lies behind the buffer of the source at that moment, and when the cleaner of the
   * client table runs before it.
   */
  datatype Datagram = Datagram(data: seq<byte>, slack: seq<byte>, src: Address, srcIsIp4: bool, now: int,
                               device: nat -> seq<byte>, cleanings: seq<int>)

  predicate Receivable(d: Datagram) {
    |d.data| <= MAX_PACKET && |d.slack| == BUFFER - MAX_PACKET
  }

  predicate AllReceivable(ds: seq<Datagram>) {
    forall i :: 0 <= i < |ds| ==> Receivable(ds[i])
  }

  /** The buffer, which is cleared before each packet. */
  function Received(data: seq<byte>, slack: seq<byte>): (s: seq<byte>)
    requires |data| <= MAX_PACKET && |slack| == BUFFER - MAX_PACKET
    ensures |s| == BUFFER
  {
    data + seq(MAX_PACKET - |data|, _ => 0) + slack
  }

  lemma {:induction false} VisitedHeadersOk(s: seq<byte>, p: nat, end: nat, n: nat)
    requires Readable(s) && end <= MAX_PACKET && WalkFrom(s, p, end, true) != BadHeader
    ensures var l := Grammar.After(s, p, end, true, n); l.Running? && l.cursor < end ==> HeaderOk(s, l.cursor, true)
    decreases n
  {
    if n > 0 && p < end && Ntohs(s, p) > 0 {
      VisitedHeadersOk(s, p + Ntohs(s, p), end, n - 1);
    } else if n > 0 && p < end {
      VisitedHeadersOk(s, p, end, n - 1);
    }
  }

  /**
   * Since the buffer is cleared, a packet cannot be completed by the one before it: of an accepted request every
   * message that is looked at was received at least up to its type.
   */
  lemma AcceptedTypesWereReceived(data: seq<byte>, slack: seq<byte>, n: nat)
    requires |data| <= MAX_PACKET && |slack| == BUFFER - MAX_PACKET
    requires Validate(Received(data, slack), true) == Accepted
    ensures var s := Received(data, slack);
            var l := Grammar.After(s, 4, Ntohs(s, 0), true, n);
            l.Running? && l.cursor < Ntohs(s, 0) ==> l.cursor + 2 < |data| || l.cursor + 2 >= MAX_PACKET
  {
    var s := Received(data, slack);
    VisitedHeadersOk(s, 4, Ntohs(s, 0), n);
  }

  function ArrivalOf(d: Datagram): (arrival: Arrival)
    requires Receivable(d)
  {
    Arrival(d.src, d.now, Validate(Received(d.data, d.slack), true), d.cleanings)
  }

  function Arrivals(ds: seq<Datagram>): (arrivals: seq<Arrival>)
    requires AllReceivable(ds)
    ensures |arrivals| == |ds|
  {
    seq(|ds|, i requires 0 <= i < |ds| => ArrivalOf(ds[i]))
  }

  lemma ArrivalAt(ds: seq<Datagram>, i: nat)
    requires AllReceivable(ds) && i < |ds|
    ensures Receivable(ds[i]) && Arrivals(ds)[i] == ArrivalOf(ds[i])
  {
  }

  /** What a server that holds what c says sends for packet d, the i-th to arrive, if anything. */
  function RightReply(c: KeptConfig, enable4: bool, enable6: bool, lifetime: int,
                      arrivals: seq<Arrival>, i: nat, d: Datagram)
      : (reply: Option<seq<byte>>)
    requires Receivable(d) && i < |arrivals| && arrivals[i] == ArrivalOf(d)
  {
    if !Answers(lifetime, arrivals, i) then None
    else
      var mtu := if d.srcIsIp4 then MAX_IP4_PACKET_SIZE else MAX_IP6_PACKET_SIZE;
      EnvIsSound(c, enable4, enable6, mtu, d.device);
      var s := Received(d.data, d.slack);
      var ms := Response(EnvOf(c, enable4, enable6, mtu, d.device), AsksOf(s));
      Some(if ms != [] then EncodePacket(RESPONSE, ms) else s[..4])
  }

  /** The cleared buffer, with a packet in it. */
  method Receive(data: seq<byte>, slack: seq<byte>) returns (buffer: array<byte>)
    requires |data| <= MAX_PACKET && |slack| == BUFFER - MAX_PACKET
    ensures fresh(buffer) && buffer[..] == Received(data, slack)
  {
    buffer := new byte[BUFFER](_ => 0);
    CopyBytes(slack, buffer, MAX_PACKET);
    ghost var cleared := buffer[..];
    CopyBytes(data, buffer, 0);
    assert cleared[|data|..] == seq(MAX_PACKET - |data|, _ => 0) + slack;
  }

  /** The cleaner runs at these times. */
  method CleanTable(server: NrpdServer, times: seq<int>)
    modifies server.recentClients
    ensures server.recentClients.entries ==
      CleanedAt(old(server.recentClients.entries), server.recentClients.lifetime, times)
  {
    ghost var m := server.recentClients.entries;
    for k := 0 to |times|
      invariant server.recentClients.entries == CleanedAt(m, server.recentClients.lifetime, times[..k])
    {
      assert times[..k + 1][..k] == times[..k];
      server.recentClients.Clean(times[k]);
    }
    assert times[..|times|] == times;
  }

  /** Receiving one packet and sending its reply, if it gets one; nothing else ever happens if it hangs. */
  method ServeDatagram(server: NrpdServer, ghost c: KeptConfig, ghost arrivals: seq<Arrival>, ghost i: nat, d: Datagram)
      returns (hangs: bool, reply: Option<seq<byte>>)
    requires Receivable(d) && i < |arrivals| && arrivals[i] == ArrivalOf(d) && Responsive(arrivals, i)
    requires OnlyCounted(c, server.config.State())
    requires server.config.Valid() && (server.recentClients as object) != server.config.bannedServers
    requires server.recentClients.entries == Table(server.recentClients.lifetime, arrivals, i)
    modifies server`mtu, server.config`countIp4Servers, server.config`countIp6Servers, server.recentClients
    ensures server.config.Valid() && OnlyCounted(c, server.config.State())
    ensures hangs <==> arrivals[i].verdict == Endless
    ensures server.recentClients.entries == Table(server.recentClients.lifetime, arrivals, i + 1)
    ensures reply == RightReply(c, server.config.enableIp4Peers, server.config.enableIp6Peers,
                                server.recentClients.lifetime, arrivals, i, d)
  {
    ghost var before := server.config.State();
    TableStep(server.recentClients.lifetime, arrivals, i);
    OnlyCountedKeeps(c, before);
    CleanTable(server, d.cleanings);
    var buffer := Receive(d.data, d.slack);
    assert server.config.State() == before;
    var outcome := server.HandlePacket(buffer, d.src, d.srcIsIp4, d.now, d.device);
    OnlyCountedOn(c, before, server.config.State());
    hangs := outcome.Hangs?;
    reply := if outcome.Sent? then Some(buffer[..outcome.length]) else None;
  }

  /** What it sends for the first n packets, one after another. */
  function RightReplies(c: KeptConfig, enable4: bool, enable6: bool, lifetime: int, ds: seq<Datagram>, n: nat)
      : (replies: seq<Option<seq<byte>>>)
    requires AllReceivable(ds) && n <= |ds|
  {
    if n == 0 then []
    else
      ArrivalAt(ds, n - 1);
      RightReplies(c, enable4, enable6, lifetime, ds, n - 1) +
      [RightReply(c, enable4, enable6, lifetime, Arrivals(ds), n - 1, ds[n - 1])]
  }

  lemma OneMoreReply(c: KeptConfig, enable4: bool, enable6: bool, lifetime: int, arrivals: seq<Arrival>,
                     ds: seq<Datagram>, n: nat, replies: seq<Option<seq<byte>>>, reply: Option<seq<byte>>)
    requires AllReceivable(ds) && arrivals == Arrivals(ds) && n < |ds| && Receivable(ds[n])
    requires arrivals[n] == ArrivalOf(ds[n])
    requires replies == RightReplies(c, enable4, enable6, lifetime, ds, n)
    requires reply == RightReply(c, enable4, enable6, lifetime, arrivals, n, ds[n])
    ensures replies + [reply] == RightReplies(c, enable4, enable6, lifetime, ds, n + 1)
  {
  }

  lemma StillResponsive(ds: seq<Arrival>, n: nat)
    requires n < |ds| && Responsive(ds, n) && ds[n].verdict != Endless
    ensures Responsive(ds, n + 1)
  {
  }

  /** Receiving packets until one hangs the server. */
  method ServeUntilHung(server: NrpdServer, ghost c: KeptConfig, ghost arrivals: seq<Arrival>, ds: seq<Datagram>)
      returns (hangs: bool, n: nat, replies: seq<Option<seq<byte>>>)
    requires AllReceivable(ds) && arrivals == Arrivals(ds)
    requires server.config.Valid() && (server.recentClients as object) != server.config.bannedServers
    requires OnlyCounted(c, server.config.State())
    requires server.recentClients.entries == Table(server.recentClients.lifetime, arrivals, 0)
    modifies server`mtu, server.config`countIp4Servers, server.config`countIp6Servers, server.recentClients
    ensures server.config.Valid() && OnlyCounted(c, server.config.State())
    ensures n <= |ds| && Responsive(arrivals, n)
    ensures if hangs then n < |ds| && arrivals[n].verdict == Endless else n == |ds|
    ensures replies == RightReplies(c, server.config.enableIp4Peers, server.config.enableIp6Peers,
                                    server.recentClients.lifetime, ds, n)
  {
    hangs, n, replies := false, 0, [];
    while n < |ds|
      invariant server.config.Valid() && OnlyCounted(c, server.config.State())
      invariant n <= |ds| && Responsive(arrivals, n)
      invariant server.recentClients.entries == Table(server.recentClients.lifetime, arrivals, n)
      invariant !hangs
      invariant replies == RightReplies(c, server.config.enableIp4Peers, server.config.enableIp6Peers,
                                        server.recentClients.lifetime, ds, n)
    {
      ArrivalAt(ds, n);
      var reply;
      hangs, reply := ServeDatagram(server, c, arrivals, n, ds[n]);
      if hangs {
        break;
      }
      OneMoreReply(c, server.config.enableIp4Peers, server.config.enableIp6Peers, server.recentClients.lifetime,
                   arrivals, ds, n, replies, reply);
      StillResponsive(arrivals, n);
      replies, n := replies + [reply], n + 1;
    }
  }

  /**
   * ServerLoop, on the packets ds: it gets through all of them, or is stuck at the first that hangs it, after n others.
   * Nobody else changes the active servers meanwhile.
   */
  method ServerLoop(server: NrpdServer, ds: seq<Datagram>)
      returns (hangs: bool, n: nat, replies: seq<Option<seq<byte>>>)
    requires AllReceivable(ds)
    requires server.config.Valid() && (server.recentClients as object) != server.config.bannedServers
    requires server.recentClients.entries == map[]
    modifies server`mtu, server.config`countIp4Servers, server.config`countIp6Servers, server.recentClients
    ensures server.config.Valid() && OnlyCounted(old(server.config.State()), server.config.State())
    ensures n <= |ds| && Responsive(Arrivals(ds), n)
    ensures if hangs then n < |ds| && Arrivals(ds)[n].verdict == Endless else n == |ds|
    ensures replies == RightReplies(old(server.config.State()), server.config.enableIp4Peers,
                                    server.config.enableIp6Peers, server.recentClients.lifetime, ds, n)
  {
    hangs, n, replies := ServeUntilHung(server, server.config.State(), Arrivals(ds), ds);
  }

  /** Packets of both kinds exist, whatever lies behind the buffer: one that hangs a server, and a plain request. */
  lemma HangingPacketExists(slack: seq<byte>)
    requires |slack| == BUFFER - MAX_PACKET
    ensures Validate(Received([0, 8, REQUEST, 1, 0, 0, 7, 0], slack), true) == Endless
    ensures Validate(Received([0, 8, REQUEST, 1, 0, 4, ENTROPY, 8], slack), true) == Accepted
  {
    var s := Received([0, 8, REQUEST, 1, 0, 0, 7, 0], slack);
    assert Ntohs(s, 0) == 8 && Ntohs(s, 4) == 0;
    assert WalkFrom(s, 4, 8, true) == Loops;
    var t := Received([0, 8, REQUEST, 1, 0, 4, ENTROPY, 8], slack);
    assert Ntohs(t, 0) == 8 && Ntohs(t, 4) == 4;
    assert WalkFrom(t, 8, 8, true) == Walked(0, 8);
    assert WalkFrom(t, 4, 8, true) == Walked(1, 8);
  }
}
