/** What a client makes of any response whatever, told from the entries of its messages. */
module Lessons {
  import opened Wire
  import opened Records
  import opened Scheduler
  import opened Configuration
  import opened Interpretation

  /** The peers that a message lists. */
  function ListedIn(m: Message): (ps: seq<Peer>)
    requires WellFormed(false, m)
  {
    if m.kind == 4 || m.kind == 6 then PeersIn(m) else []
  }

  /** All peers that the messages list, one message after another. */
  function ListedBy(ms: seq<Message>): (ps: seq<Peer>)
    requires WellFormedAll(ms)
    decreases |ms|
  {
    if ms == [] then []
    else
      var last := |ms| - 1;
      assert ms[last] in ms;
      ListedBy(ms[..last]) + ListedIn(ms[last])
  }


  // ---------- peers ----------

  lemma {:induction false} PeersAtFamily(s: seq<byte>, p: nat, count: nat, ipv6: bool)
    requires p + PeersSize(ipv6, count) <= |s|
    ensures AllOf(PeersAt(s, p, count, ipv6), ipv6)
    decreases count
  {
    if count > 0 {
      PeersAtFamily(s, p + PeersSize(ipv6, 1), count - 1, ipv6);
    }
  }

  lemma ListedFamily(m: Message, p: Peer)
    requires WellFormed(false, m) && (m.kind == 4 || m.kind == 6) && p.addr.V6? != (m.kind == 6)
    ensures multiset(ListedIn(m))[p] == 0
  {
    PeersAtFamily(m.body, 0, m.count, m.kind == 6);
    assert p !in PeersIn(m);
  }

  /** The client does not use the family of the peer. */
  predicate FamilyOff(p: Peer, enableIp4: bool, enableIp6: bool) {
    if p.addr.V6? then !enableIp6 else !enableIp4
  }

  /** The same servers are active and banned in d as in c, and d has more on probation. */
  predicate Extends(c: Config, d: Config) {
    && |d.active| == |c.active| && (forall i :: 0 <= i < |c.active| ==> d.active[i].peer == c.active[i].peer)
    && d.bans == c.bans && |c.probation| <= |d.probation|
  }

  /** How often p is among the servers that d has more than c. */
  function NewOf(c: Config, d: Config, p: Peer): (n: nat)
    requires |c.probation| <= |d.probation|
  {
    multiset(Peers(d.probation[|c.probation|..]))[p]
  }

  lemma KeptOutAlike(c: Config, d: Config, p: Peer, now: int)
    requires Extends(c, d)
    ensures IsKeptOut(c, p, now) <==> IsKeptOut(d, p, now)
  {
    if r :| r in c.active && r.peer.addr == p.addr {
      var i :| 0 <= i < |c.active| && c.active[i] == r;
      assert d.active[i] in d.active && d.active[i].peer == r.peer;
    }
    if r :| r in d.active && r.peer.addr == p.addr {
      var i :| 0 <= i < |d.active| && d.active[i] == r;
      assert c.active[i] in c.active && c.active[i].peer == r.peer;
    }
  }

  lemma AssignAddsNone(c: Config, ref: Ref, d: Config, r: Record, p: Peer)
    requires ValidRef(c, ref) && Extends(c, d) && ValidRef(d, ref) && r.peer == Deref(d, ref).peer
    ensures var e := Assign(d, ref, r); Extends(c, e) && NewOf(c, e, p) == NewOf(c, d, p)
  {
    var e := Assign(d, ref, r);
    assert e.probation[|c.probation|..] == d.probation[|c.probation|..];
  }

  lemma PeersAppend(xs: seq<Record>, ys: seq<Record>)
    ensures Peers(xs + ys) == Peers(xs) + Peers(ys)
  {
  }

  lemma LearnAdds(c: Config, d: Config, ps: seq<Peer>, p: Peer, now: int)
    requires Extends(c, d)
    ensures var e := Learn(d, ps, now);
            && Extends(c, e)
            && NewOf(c, e, p) == NewOf(c, d, p) + if IsKeptOut(c, p, now) then 0 else multiset(ps)[p]
  {
    var e, rs := Learn(d, ps, now), Appended(d, ps, now);
    LearnsExactly(d, ps, [], p, now);
    KeptOutAlike(c, d, p, now);
    assert e.probation[|c.probation|..] == d.probation[|c.probation|..] + rs;
    PeersAppend(d.probation[|c.probation|..], rs);
  }

  lemma MessageTeaches(c: Config, ref: Ref, d: Config, m: Message, p: Peer, now: int, enableIp4: bool, enableIp6: bool)
    requires ValidRef(c, ref) && Extends(c, d) && ValidRef(d, ref) && WellFormed(false, m)
    ensures var e := InterpretOne(d, ref, m, now, enableIp4, enableIp6);
            && Extends(c, e)
            && NewOf(c, e, p) == NewOf(c, d, p) +
                 if FamilyOff(p, enableIp4, enableIp6) || IsKeptOut(c, p, now) then 0 else multiset(ListedIn(m))[p]
  {
    if m.kind == 3 {
      DisablingKeepsIdentity(Deref(d, ref), m.body, m.count);
      AssignAddsNone(c, ref, d, DisabledBy(Deref(d, ref), m.body, m.count), p);
    } else if m.kind == 4 || m.kind == 6 {
      if p.addr.V6? != (m.kind == 6) {
        ListedFamily(m, p);
      }
      LearnAdds(c, d, PeersIn(m), p, now);
    }
  }

  /**
   * Taking any well-formed response: each peer that is neither kept out nor of a family the client does not use is put
   * on probation as often as the messages list it, and no other. The active servers and the bans stay.
   */
  lemma {:induction false} ResponseTeachesExactly(c: Config, ref: Ref, ms: seq<Message>, p: Peer, now: int,
                                                  enableIp4: bool, enableIp6: bool)
    requires ValidRef(c, ref) && WellFormedAll(ms)
    ensures var d := Interpret(c, ref, ms, now, enableIp4, enableIp6);
            && Extends(c, d)
            && NewOf(c, d, p) ==
                 if FamilyOff(p, enableIp4, enableIp6) || IsKeptOut(c, p, now) then 0 else multiset(ListedBy(ms))[p]
    decreases |ms|
  {
    if ms != [] {
      var last := |ms| - 1;
      assert ms[last] in ms;
      ResponseTeachesExactly(c, ref, ms[..last], p, now, enableIp4, enableIp6);
      var d := Interpret(c, ref, ms[..last], now, enableIp4, enableIp6);
      MessageTeaches(c, ref, d, ms[last], p, now, enableIp4, enableIp6);
    }
  }

  // ---------- rejections ----------

  /** Entry i of the body is this one. */
  predicate EntryIs(body: seq<byte>, i: int, kind: int, reason: int) {
    0 <= 2 * i && 2 * i + 1 < |body| && body[2 * i] as int == kind && body[2 * i + 1] as int == reason
  }

  /** One of the first n entries calls the type unsupported, or says that the server shuts down. */
  predicate Unsupports(body: seq<byte>, n: nat, kind: int) {
    exists i :: 0 <= i < n && EntryIs(body, i, kind, 3)
  }

  predicate ShutsDown(body: seq<byte>, n: nat) {
    exists i :: 0 <= i < n && 2 * i + 1 < |body| && body[2 * i + 1] == 2
  }

  /** Record y is x without what the first n entries of the body take from it. */
  predicate Reduced(x: Record, body: seq<byte>, n: nat, y: Record) {
    y == x.(ip4Peers := x.ip4Peers && !Unsupports(body, n, 4),
            ip6Peers := x.ip6Peers && !Unsupports(body, n, 6),
            signkey := x.signkey && !Unsupports(body, n, 8),
            shuttingdown := x.shuttingdown || ShutsDown(body, n))
  }

  lemma OneMoreEntry(body: seq<byte>, n: nat, kind: int)
    requires 2 * n + 2 <= |body|
    ensures Unsupports(body, n + 1, kind) <==> Unsupports(body, n, kind) || EntryIs(body, n, kind, 3)
    ensures ShutsDown(body, n + 1) <==> ShutsDown(body, n) || body[2 * n + 1] == 2
  {
  }

  lemma ReducedNext(x: Record, body: seq<byte>, n: nat, z: Record)
    requires 2 * n + 2 <= |body| && Reduced(x, body, n, z)
    ensures Reduced(x, body, n + 1, Disabled(z, body[2 * n], body[2 * n + 1]))
  {
    OneMoreEntry(body, n, 4);
    OneMoreEntry(body, n, 6);
    OneMoreEntry(body, n, 8);
  }

  /** A reject message switches off exactly the capabilities its entries name, and nothing else changes. */
  lemma {:induction false} RejectionsReduce(x: Record, body: seq<byte>, n: nat)
    requires 2 * n <= |body|
    ensures Reduced(x, body, n, DisabledBy(x, body, n))
    decreases n
  {
    if n > 0 {
      RejectionsReduce(x, body, n - 1);
      DisabledByNext(x, body, n - 1);
      ReducedNext(x, body, n - 1, DisabledBy(x, body, n - 1));
    }
  }

  /** The bodies of all reject messages, one after another. */
  function RejectionsIn(ms: seq<Message>): (body: seq<byte>) {
    if ms == [] then []
    else
      var last := ms[|ms| - 1];
      RejectionsIn(ms[..|ms| - 1]) + if last.kind == 3 then last.body else []
  }

  lemma EntriesAppend(xs: seq<byte>, ys: seq<byte>, kind: int)
    requires |xs| % 2 == 0 && |ys| % 2 == 0
    ensures var body := xs + ys;
            && (Unsupports(body, |body| / 2, kind) <==>
                  Unsupports(xs, |xs| / 2, kind) || Unsupports(ys, |ys| / 2, kind))
            && (ShutsDown(body, |body| / 2) <==> ShutsDown(xs, |xs| / 2) || ShutsDown(ys, |ys| / 2))
  {
    var body, k := xs + ys, |xs| / 2;
    forall i | 0 <= i < |xs| / 2
      ensures body[2 * i] == xs[2 * i] && body[2 * i + 1] == xs[2 * i + 1]
    {
    }
    forall i | 0 <= i < |ys| / 2
      ensures body[2 * (k + i)] == ys[2 * i] && body[2 * (k + i) + 1] == ys[2 * i + 1]
    {
    }
    if i :| 0 <= i < |ys| / 2 && EntryIs(ys, i, kind, 3) {
      assert EntryIs(body, k + i, kind, 3);
    }
    if i :| 0 <= i < |ys| / 2 && ys[2 * i + 1] == 2 {
      assert body[2 * (k + i) + 1] == 2;
    }
    if i :| 0 <= i < |xs| / 2 && EntryIs(xs, i, kind, 3) {
      assert EntryIs(body, i, kind, 3);
    }
    if i :| 0 <= i < |body| / 2 && EntryIs(body, i, kind, 3) {
      assert if i < k then EntryIs(xs, i, kind, 3) else EntryIs(ys, i - k, kind, 3);
    }
    if i :| 0 <= i < |body| / 2 && body[2 * i + 1] == 2 {
      assert if i < k then xs[2 * i + 1] == 2 else ys[2 * (i - k) + 1] == 2;
    }
  }

  lemma {:induction false} RejectionsAreEven(ms: seq<Message>)
    requires WellFormedAll(ms)
    ensures |RejectionsIn(ms)| % 2 == 0
    decreases |ms|
  {
    if ms != [] {
      assert ms[|ms| - 1] in ms;
      RejectionsAreEven(ms[..|ms| - 1]);
    }
  }

  lemma ReducedOn(x: Record, xs: seq<byte>, z: Record, ys: seq<byte>, y: Record)
    requires |xs| % 2 == 0 && |ys| % 2 == 0
    requires Reduced(x, xs, |xs| / 2, z) && Reduced(z, ys, |ys| / 2, y)
    ensures Reduced(x, xs + ys, |xs + ys| / 2, y)
  {
    EntriesAppend(xs, ys, 4);
    EntriesAppend(xs, ys, 6);
    EntriesAppend(xs, ys, 8);
  }

  /** All records of c but the one behind ref are the same in d, and so are the cursors, the turn and the counts. */
  predicate OthersStay(c: Config, ref: Ref, d: Config) {
    && |c.active| == |d.active| && |c.probation| <= |d.probation|
    && (forall i :: 0 <= i < |c.active| && ref != InActive(i) ==> d.active[i] == c.active[i])
    && (forall i :: 0 <= i < |c.probation| && ref != InProbation(i) ==> d.probation[i] == c.probation[i])
    && c.activeCursor == d.activeCursor && c.probationCursor == d.probationCursor
    && c.prevReturnedProbationary == d.prevReturnedProbationary
    && c.countIp4 == d.countIp4 && c.countIp6 == d.countIp6
  }

  lemma MessageReduces(d: Config, ref: Ref, m: Message, now: int, enableIp4: bool, enableIp6: bool)
    requires ValidRef(d, ref) && WellFormed(false, m)
    ensures var e, body := InterpretOne(d, ref, m, now, enableIp4, enableIp6), if m.kind == 3 then m.body else [];
            && OthersStay(d, ref, e)
            && |body| % 2 == 0 && Reduced(Deref(d, ref), body, |body| / 2, Deref(e, ref))
  {
    if m.kind == 3 {
      RejectionsReduce(Deref(d, ref), m.body, m.count);
    }
  }

  /**
   * And the record of the server loses exactly the capabilities that some reject message calls unsupported, and is
   * marked if one says the server shuts down. Nothing else in the record, and no other record, changes.
   */
  lemma {:induction false} ResponseReducesExactly(c: Config, ref: Ref, ms: seq<Message>, now: int, enableIp4: bool,
                                                  enableIp6: bool)
    requires ValidRef(c, ref) && WellFormedAll(ms)
    ensures var d, body := Interpret(c, ref, ms, now, enableIp4, enableIp6), RejectionsIn(ms);
            OthersStay(c, ref, d) && Reduced(Deref(c, ref), body, |body| / 2, Deref(d, ref))
    decreases |ms|
  {
    if ms != [] {
      var last := |ms| - 1;
      assert ms[last] in ms;
      ResponseReducesExactly(c, ref, ms[..last], now, enableIp4, enableIp6);
      var d := Interpret(c, ref, ms[..last], now, enableIp4, enableIp6);
      var e := InterpretOne(d, ref, ms[last], now, enableIp4, enableIp6);
      MessageReduces(d, ref, ms[last], now, enableIp4, enableIp6);
      RejectionsAreEven(ms[..last]);
      ReducedOn(Deref(c, ref), RejectionsIn(ms[..last]), Deref(d, ref),
                if ms[last].kind == 3 then ms[last].body else [], Deref(e, ref));
    }
  }
}
