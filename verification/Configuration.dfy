/** NrpdConfig of config.cpp: the shared server lists, updated in place. */
module Configuration {
  import opened Options
  import opened Wire
  import opened Records
  import opened MruCaches
  import opened Scheduler
  import opened Generators

  function Peers(rs: seq<Record>): (ps: seq<Peer>)
    ensures |ps| == |rs|
  {
    seq(|rs|, i requires 0 <= i < |rs| => rs[i].peer)
  }

  /** The active servers of one family, in the order of the set. */
  function FamilyPeers(active: seq<Record>, ipv6: bool): (ps: seq<Peer>)
    ensures |ps| == Tally(active, ipv6)
  {
    Peers(OfFamily(active, ipv6))
  }

  lemma {:induction false} OfFamilyIsOfFamily(s: seq<Record>, ipv6: bool)
    ensures forall r :: r in OfFamily(s, ipv6) ==> r in s && r.Ipv6() == ipv6
  {
    if s != [] {
      OfFamilyIsOfFamily(s[1..], ipv6);
    }
  }

  lemma FamilyPeersAreOfFamily(s: seq<Record>, ipv6: bool)
    ensures AllOf(FamilyPeers(s, ipv6), ipv6)
  {
    OfFamilyIsOfFamily(s, ipv6);
    var rs, ps := OfFamily(s, ipv6), FamilyPeers(s, ipv6);
    forall p | p in ps
      ensures p.addr.V6? == ipv6
    {
      var i :| 0 <= i < |ps| && ps[i] == p;
      assert rs[i] in rs;
    }
  }

  lemma SortedTail(s: seq<Record>)
    requires Sorted(s) && s != []
    ensures Sorted(s[1..]) && forall r :: r in s[1..] ==> Less(s[0], r)
  {
  }

  lemma {:induction false} OfFamilySorted(s: seq<Record>, ipv6: bool)
    requires Sorted(s)
    ensures Sorted(OfFamily(s, ipv6))
  {
    if s != [] {
      SortedTail(s);
      OfFamilySorted(s[1..], ipv6);
      OfFamilyIsOfFamily(s[1..], ipv6);
    }
  }

  lemma {:induction false} OfFamilyHoldsAll(s: seq<Record>, ipv6: bool, r: Record)
    requires r in s && r.Ipv6() == ipv6
    ensures r in OfFamily(s, ipv6)
  {
    if r != s[0] {
      OfFamilyHoldsAll(s[1..], ipv6, r);
    }
  }

  /** The peers of a family are those of its active servers, each host once, the lower host first. */
  lemma PeersByHost(s: seq<Record>, ipv6: bool, i: nat, j: nat)
    requires Sorted(s) && i < j < |FamilyPeers(s, ipv6)|
    ensures var ps := FamilyPeers(s, ipv6);
            && |Host(ps[i].addr)| == |Host(ps[j].addr)| == (if ipv6 then 16 else 4)
            && exists k: nat :: LowerAt(Host(ps[i].addr), Host(ps[j].addr), k)
  {
    var rs := OfFamily(s, ipv6);
    OfFamilySorted(s, ipv6);
    OfFamilyIsOfFamily(s, ipv6);
    assert rs[i] in rs && rs[j] in rs && Less(rs[i], rs[j]);
    LessByBytes(rs[i], rs[j]);
  }

  lemma PeersAreTheActive(s: seq<Record>, ipv6: bool, p: Peer)
    ensures p in FamilyPeers(s, ipv6) <==> exists r :: r in s && r.peer == p && p.addr.V6? == ipv6
  {
    var rs, ps := OfFamily(s, ipv6), FamilyPeers(s, ipv6);
    OfFamilyIsOfFamily(s, ipv6);
    if p in ps {
      var i :| 0 <= i < |ps| && ps[i] == p;
      assert rs[i] in rs;
    }
    if r :| r in s && r.peer == p && p.addr.V6? == ipv6 {
      OfFamilyHoldsAll(s, ipv6, r);
      var i :| 0 <= i < |rs| && rs[i] == r;
      assert ps[i] == p;
    }
  }

  lemma FamilyPeersStep(s: seq<Record>, i: nat, ipv6: bool)
    requires i < |s|
    ensures FamilyPeers(s[..i + 1], ipv6) ==
            FamilyPeers(s[..i], ipv6) + if s[i].Ipv6() == ipv6 then [s[i].peer] else []
    ensures FamilyPeers(s[..i], ipv6) <= FamilyPeers(s, ipv6)
  {
    assert s[..i + 1] == s[..i] + [s[i]];
    OfFamilyAppend(s[..i], [s[i]], ipv6);
    assert [s[i]][1..] == [];
    assert s == s[..i] + s[i..];
    OfFamilyAppend(s[..i], s[i..], ipv6);
  }

  /** Walking over s, server i is the next of its family. */
  lemma NextFamilyPeer(s: seq<Record>, i: nat, ipv6: bool)
    requires i < |s|
    ensures Tally(s[..i + 1], ipv6) == Tally(s[..i], ipv6) + if s[i].Ipv6() == ipv6 then 1 else 0
    ensures s[i].Ipv6() == ipv6 ==>
            var n := Tally(s[..i], ipv6); n < Tally(s, ipv6) && FamilyPeers(s, ipv6)[n] == s[i].peer
  {
    FamilyPeersStep(s, i, ipv6);
    if i + 1 < |s| {
      FamilyPeersStep(s, i + 1, ipv6);
    } else {
      assert s[..i + 1] == s;
    }
  }

  lemma {:induction false} AdmittedConcat(c: Config, ps: seq<Peer>, qs: seq<Peer>, now: int)
    ensures Admitted(c, ps + qs, now) == Admitted(c, ps, now) + Admitted(c, qs, now)
  {
    if ps == [] {
      assert ps + qs == qs;
    } else {
      assert (ps + qs)[1..] == ps[1..] + qs;
      AdmittedConcat(c, ps[1..], qs, now);
    }
  }

  lemma {:induction false} AdmittedCount(c: Config, ps: seq<Peer>, p: Peer, now: int)
    ensures multiset(Admitted(c, ps, now))[p] == if Admissible(c, p, now) then multiset(ps)[p] else 0
  {
    if ps != [] {
      AdmittedCount(c, ps[1..], p, now);
      assert ps == [ps[0]] + ps[1..];
    }
  }

  /** What is admitted of a list: each peer neither banned nor active, as often and in the order it is listed. */
  lemma AdmittedIsFilter(c: Config, ps: seq<Peer>, qs: seq<Peer>, now: int)
    ensures Admitted(c, ps + qs, now) == Admitted(c, ps, now) + Admitted(c, qs, now)
    ensures forall p :: multiset(Admitted(c, ps, now))[p] == if Admissible(c, p, now) then multiset(ps)[p] else 0
  {
    AdmittedConcat(c, ps, qs, now);
    forall p: Peer
      ensures multiset(Admitted(c, ps, now))[p] == if Admissible(c, p, now) then multiset(ps)[p] else 0
    {
      AdmittedCount(c, ps, p, now);
    }
  }

  /** The records that learning these peers appends. */
  function Appended(c: Config, ps: seq<Peer>, now: int): (rs: seq<Record>) {
    Learn(c, ps, now).probation[|c.probation|..]
  }

  lemma AppendedAre(c: Config, ps: seq<Peer>, now: int)
    ensures Appended(c, ps, now) == NewRecords(c.nextId, Admitted(c, ps, now))
    ensures Peers(Appended(c, ps, now)) == Admitted(c, ps, now)
  {
    var d := Learn(c, ps, now);
    assert d.probation[|c.probation|..] == NewRecords(c.nextId, Admitted(c, ps, now));
  }

  /** An active server has the address, or the ban of this peer is less than a day old. */
  predicate IsKeptOut(c: Config, p: Peer, now: int) {
    || (exists r :: r in c.active && r.peer.addr == p.addr)
    || (p in c.bans && now < c.bans[p] + 86400)
  }

  lemma KeptOutExactly(c: Config, p: Peer, now: int)
    ensures IsKeptOut(c, p, now) <==> !Admissible(c, p, now)
  {
  }

  /**
   * What learning does, in terms of the lists: it appends records on probation and changes nothing else. Each peer that
   * is not kept out gets as many records as the list names it, the others none, and the order is that of the list.
   */
  lemma LearnsExactly(c: Config, ps: seq<Peer>, qs: seq<Peer>, p: Peer, now: int)
    ensures var d, rs := Learn(c, ps, now), Appended(c, ps, now);
            && d == c.(probation := c.probation + rs, nextId := c.nextId + |rs|)
            && multiset(Peers(rs))[p] == (if IsKeptOut(c, p, now) then 0 else multiset(ps)[p])
            && Peers(Appended(c, ps + qs, now)) == Peers(rs) + Peers(Appended(c, qs, now))
  {
    AppendedAre(c, ps, now);
    AppendedAre(c, qs, now);
    AppendedAre(c, ps + qs, now);
    KeptOutExactly(c, p, now);
    AdmittedIsFilter(c, ps, qs, now);
  }

  /** A new record has never failed or been reported on, and its server is taken to support everything. */
  lemma AppendedAreNew(c: Config, ps: seq<Peer>, now: int, i: nat)
    requires i < |Appended(c, ps, now)|
    ensures var r := Appended(c, ps, now)[i];
            && r.id == c.nextId + i && r.failureCount == 0 && r.lastAccess == 0
            && r.probationary && r.ip4Peers && r.ip6Peers && r.signkey && !r.shuttingdown
  {
    AppendedAre(c, ps, now);
  }

  lemma AdmittedAppend(c: Config, ps: seq<Peer>, p: Peer, now: int)
    ensures Admitted(c, ps + [p], now) == Admitted(c, ps, now) + if Admissible(c, p, now) then [p] else []
  {
    AdmittedConcat(c, ps, [p], now);
    assert [p][1..] == [];
  }

  function LearnOne(c: Config, p: Peer, now: int): (d: Config) {
    if Admissible(c, p, now) then c.(probation := c.probation + [NewRecord(c.nextId, p)], nextId := c.nextId + 1) else c
  }

  lemma LearnAppend(c: Config, ps: seq<Peer>, p: Peer, now: int)
    ensures Learn(c, ps + [p], now) == LearnOne(Learn(c, ps, now), p, now)
  {
    AdmittedAppend(c, ps, p, now);
    var qs := Admitted(c, ps, now);
    if Admissible(c, p, now) {
      assert NewRecords(c.nextId, qs + [p]) == NewRecords(c.nextId, qs) + [NewRecord(c.nextId + |qs|, p)];
    }
  }

  lemma {:induction false} PeersAtAppend(s: seq<byte>, p: nat, n: nat, ipv6: bool)
    requires p + PeersSize(ipv6, n + 1) <= |s|
    ensures PeersAt(s, p, n + 1, ipv6) ==
            PeersAt(s, p, n, ipv6) + [PeerAt(s, p + PeersSize(ipv6, n), ipv6)]
    decreases n
  {
    if n > 0 {
      PeersAtAppend(s, p + PeersSize(ipv6, 1), n - 1, ipv6);
    }
  }

  lemma FlagMatchesList(c: Config, ref: Ref)
    requires Invariant(c) && ValidRef(c, ref)
    ensures Deref(c, ref).probationary <==> ref.InProbation?
  {
    assert Deref(c, ref) in c.active || Deref(c, ref) in c.probation;
  }

  /** What was written to a record on probation does not matter once it is promoted and erased. */
  lemma WrittenThenErased(c: Config, i: nat, r: Record)
    requires Current(c, InProbation(i))
    ensures Erase(Activate(Assign(c, InProbation(i), r), r), InProbation(i)) == Erase(Activate(c, r), InProbation(i))
  {
    assert Remove(c.probation[i := r], i) == Remove(c.probation, i);
  }

  function Begin(n: nat): (c: Cursor) {
    if n > 0 then At(0) else End
  }

  /** `next` of an iterator that is not the sentinel. */
  function Following(c: Cursor, n: nat): (d: Cursor)
    requires c.At?
  {
    if c.i + 1 < n then At(c.i + 1) else End
  }

  class NrpdConfig {
    const enableIp4Peers: bool
    const enableIp6Peers: bool
    const bannedServers: MruCache<Peer>
    var activeServers: seq<Record>
    var probationaryServers: seq<Record>
    var activeIterator: Cursor
    var probationaryIterator: Cursor
    var prevReturnedProbationary: bool
    var countIp4Servers: int
    var countIp6Servers: int
    /** Ids handed out so far; it only serves to tell record objects apart. */
    var nextId: nat

    function State(): (c: Config)
      reads this, bannedServers
    {
      Config(activeServers, probationaryServers, activeIterator, probationaryIterator, prevReturnedProbationary,
             countIp4Servers, countIp6Servers, bannedServers.entries, nextId)
    }

    predicate Valid()
      reads this, bannedServers
    {
      Invariant(State()) && bannedServers.lifetime == BAN_SECONDS
    }

    constructor (enableIp4: bool, enableIp6: bool, now: int)
      ensures Valid() && fresh(bannedServers)
      ensures State() == Config([], [], End, End, true, -1, -1, map[], 0)
      ensures enableIp4Peers == enableIp4 && enableIp6Peers == enableIp6
    {
      enableIp4Peers := enableIp4;
      enableIp6Peers := enableIp6;
      bannedServers := new MruCache(BAN_SECONDS, now);
      activeServers, probationaryServers := [], [];
      activeIterator, probationaryIterator := End, End;
      prevReturnedProbationary := true;
      countIp4Servers, countIp6Servers := -1, -1;
      nextId := 0;
    }

    function EnablePeersResponse(kind: byte): (b: bool) {
      if kind == IP4PEERS then enableIp4Peers else if kind == IP6PEERS then enableIp6Peers else false
    }

    method ActiveServerCount(kind: byte) returns (count: nat)
      requires Valid()
      modifies this`countIp4Servers, this`countIp6Servers
      ensures Valid()
      ensures kind != IP4PEERS && kind != IP6PEERS ==> count == 0 && State() == old(State())
      ensures kind == IP4PEERS || kind == IP6PEERS ==>
        && State() == Count(old(State()), kind == IP6PEERS)
        && count == Known(old(State()), kind == IP6PEERS)
    {
      if kind != IP4PEERS && kind != IP6PEERS {
        return 0;
      }
      var ipv6 := kind == IP6PEERS;
      CountKeepsInvariant(State(), ipv6);
      if ipv6 && countIp6Servers > -1 {
        return countIp6Servers;
      } else if !ipv6 && countIp4Servers > -1 {
        return countIp4Servers;
      }
      count := 0;
      for i := 0 to |activeServers|
        modifies {}
        invariant count == Tally(activeServers[..i], ipv6)
      {
        NextFamilyPeer(activeServers, i, ipv6);
        if activeServers[i].Ipv6() == ipv6 {
          count := count + 1;
        }
      }
      assert activeServers[..|activeServers|] == activeServers;
      if ipv6 {
        countIp6Servers := count;
      } else {
        countIp4Servers := count;
      }
    }

    /** The first servers of a family, as many as are known and asked for: every slot of the buffer is filled. */
    method GetServerList(kind: byte, count: int) returns (srvlist: Option<seq<byte>>)
      requires Valid()
      modifies this`countIp4Servers, this`countIp6Servers
      ensures Valid()
      ensures srvlist.Some? <==>
        && (kind == IP4PEERS || kind == IP6PEERS)
        && count > 0 && Known(old(State()), kind == IP6PEERS) > 0
      ensures State() ==
        if (kind == IP4PEERS || kind == IP6PEERS) && count > 0 then Count(old(State()), kind == IP6PEERS)
        else old(State())
      ensures srvlist.Some? ==>
        var ipv6 := kind == IP6PEERS;
        var known := Known(old(State()), ipv6);
        && known <= Tally(activeServers, ipv6)
        && srvlist.value == PeersBytes(FamilyPeers(activeServers, ipv6)[..if known <= count then known else count])
    {
      if (kind != IP4PEERS && kind != IP6PEERS) || count <= 0 {
        return None;
      }
      var ipv6 := kind == IP6PEERS;
      CountKeepsInvariant(State(), ipv6);
      var actualCount := ActiveServerCount(kind);
      if actualCount <= 0 {
        return None;
      }
      if count < actualCount {
        actualCount := count;
      }
      var data := new byte[PeersSize(ipv6, actualCount)](_ => 0);
      CopyServers(ipv6, actualCount, data);
      return Some(data[..]);
    }

    /** One entry behind those already copied. */
    method CopyServer(peer: Peer, ipv6: bool, itr: nat, ghost all: seq<Peer>, data: array<byte>)
      requires itr < |all| && all[itr] == peer && peer.addr.V6? == ipv6
      requires PeersSize(ipv6, itr + 1) <= data.Length
      requires data[..PeersSize(ipv6, itr)] == PeersBytes(all[..itr])
      modifies data
      ensures data[..PeersSize(ipv6, itr + 1)] == PeersBytes(all[..itr + 1])
    {
      assert all[..itr + 1] == all[..itr] + [peer];
      PeersBytesAppend(all[..itr], peer);
      AppendBytes(PeerBytes(peer), data, PeersSize(ipv6, itr));
    }

    /** The loop of GetServerList that copies addresses and ports into the buffer. */
    method CopyServers(ipv6: bool, actualCount: nat, data: array<byte>)
      requires 0 < actualCount <= Tally(activeServers, ipv6)
      requires data.Length == PeersSize(ipv6, actualCount)
      modifies data
      ensures data[..] == PeersBytes(FamilyPeers(activeServers, ipv6)[..actualCount])
    {
      ghost var all := FamilyPeers(activeServers, ipv6);
      FamilyPeersAreOfFamily(activeServers, ipv6);
      var itr, i := 0, 0;
      while i < |activeServers|
        invariant 0 <= i <= |activeServers| && 0 <= itr < actualCount
        invariant itr == Tally(activeServers[..i], ipv6)
        invariant data[..PeersSize(ipv6, itr)] == PeersBytes(all[..itr])
      {
        NextFamilyPeer(activeServers, i, ipv6);
        if activeServers[i].Ipv6() == ipv6 {
          CopyServer(activeServers[i].peer, ipv6, itr, all, data);
          itr := itr + 1;
        }
        i := i + 1;
        if itr >= actualCount {
          break;
        }
      }
      assert activeServers[..|activeServers|] == activeServers;
      assert data[..] == data[..PeersSize(ipv6, actualCount)];
    }

    /** (Re-)initialises or increments both iterators. */
    method StepIterators()
      modifies this`activeIterator, this`probationaryIterator
      ensures activeIterator == Advance(old(activeIterator), |activeServers|)
      ensures probationaryIterator == Advance(old(probationaryIterator), |probationaryServers|)
    {
      if activeIterator == End {
        activeIterator := Begin(|activeServers|);
      } else {
        activeIterator := Following(activeIterator, |activeServers|);
        if activeIterator == End {
          activeIterator := Begin(|activeServers|);
        }
      }
      if probationaryIterator == End {
        probationaryIterator := Begin(|probationaryServers|);
      } else {
        probationaryIterator := Following(probationaryIterator, |probationaryServers|);
        if probationaryIterator == End {
          probationaryIterator := Begin(|probationaryServers|);
        }
      }
    }

    method GetNextServer() returns (server: Option<Ref>)
      requires Valid()
      modifies this
      ensures Valid()
      ensures (State(), server) == Next(old(State()))
      ensures server.Some? <==> old(activeServers) != [] || old(probationaryServers) != []
      ensures server.Some? ==> Current(State(), server.value)
    {
      NextKeepsInvariant(State());
      StepIterators();
      if prevReturnedProbationary {
        if activeIterator != End {
          prevReturnedProbationary := !prevReturnedProbationary;
          return Some(InActive(activeIterator.i));
        } else if probationaryIterator != End {
          return Some(InProbation(probationaryIterator.i));
        } else {
          return None;
        }
      } else {
        if probationaryIterator != End {
          prevReturnedProbationary := !prevReturnedProbationary;
          return Some(InProbation(probationaryIterator.i));
        } else if activeIterator != End {
          return Some(InActive(activeIterator.i));
        } else {
          return None;
        }
      }
    }

    /** Assignment to fields of the record behind a reference. */
    method Write(serv: Ref, r: Record)
      requires ValidRef(State(), serv)
      modifies this`activeServers, this`probationaryServers
      ensures State() == Assign(old(State()), serv, r)
    {
      match serv
      case InActive(i) => activeServers := activeServers[i := r];
      case InProbation(i) => probationaryServers := probationaryServers[i := r];
    }

    method AdjustCount(ipv6: bool, delta: int)
      modifies this`countIp4Servers, this`countIp6Servers
      ensures State() == Recounted(old(State()), ipv6, Cached(old(State()), ipv6) + delta)
    {
      if ipv6 {
        countIp6Servers := countIp6Servers + delta;
      } else {
        countIp4Servers := countIp4Servers + delta;
      }
    }

    /** Erase by iterator, then step the iterator back. */
    method EraseCurrent(serv: Ref)
      requires Current(State(), serv)
      modifies this`activeServers, this`activeIterator, this`probationaryServers, this`probationaryIterator
      ensures State() == Erase(old(State()), serv)
    {
      if serv.InProbation? {
        var tempIterator := StepBack(probationaryIterator);
        probationaryServers := Remove(probationaryServers, probationaryIterator.i);
        probationaryIterator := tempIterator;
      } else {
        var tempIterator := StepBack(activeIterator);
        activeServers := Remove(activeServers, activeIterator.i);
        activeIterator := tempIterator;
      }
    }

    method IncrementServerFailCount(serv: Ref, now: int)
      requires Valid() && Current(State(), serv)
      modifies this, bannedServers
      ensures Valid()
      ensures State() == Fail(old(State()), serv, now)
    {
      FailKeepsInvariant(State(), serv, now);
      FlagMatchesList(State(), serv);
      ReportFailure(serv, now);
    }

    method ReportFailure(serv: Ref, now: int)
      requires Current(State(), serv) && (Deref(State(), serv).probationary <==> serv.InProbation?)
      modifies this, bannedServers
      ensures State() == Fail(old(State()), serv, now)
    {
      var r := Deref(State(), serv);
      r := r.(failureCount := r.failureCount + 1, lastAccess := now);
      Write(serv, r);
      if r.failureCount + 1 >= CLIENT_MAX_SERVER_TIMEOUT_COUNT {
        bannedServers.Add(r.peer, now);
        if r.probationary {
          if Equals(r, probationaryServers[probationaryIterator.i]) {
            AdjustCount(r.Ipv6(), -1);
            EraseCurrent(serv);
          } else {
            assert false;
          }
        } else {
          if Equals(r, activeServers[activeIterator.i]) {
            AdjustCount(r.Ipv6(), -1);
            EraseCurrent(serv);
          } else {
            assert false;
          }
        }
      }
    }

    /** Emplace into the ordered set; its iterator keeps standing on its element. */
    method EmplaceActive(r: Record)
      modifies this`activeServers, this`activeIterator, this`countIp4Servers, this`countIp6Servers
      ensures State() == Activate(old(State()), r)
    {
      if !HasAddress(activeServers, r.peer.addr) {
        var p := Position(activeServers, r);
        activeServers := Insert(activeServers, r);
        if activeIterator.At? && p <= activeIterator.i {
          activeIterator := At(activeIterator.i + 1);
        }
        AdjustCount(r.Ipv6(), 1);
      }
    }

    method MarkServerSuccessful(serv: Ref, now: int)
      requires Valid() && Current(State(), serv)
      modifies this
      ensures Valid()
      ensures State() == Succeed(old(State()), serv, now)
    {
      SucceedKeepsInvariant(State(), serv, now);
      FlagMatchesList(State(), serv);
      ReportSuccess(serv, now);
    }

    method ReportSuccess(serv: Ref, now: int)
      requires Current(State(), serv) && (Deref(State(), serv).probationary <==> serv.InProbation?)
      modifies this
      ensures State() == Succeed(old(State()), serv, now)
    {
      ghost var c := State();
      var r := Deref(State(), serv).(failureCount := 0, lastAccess := now);
      Write(serv, r);
      if r.probationary {
        r := r.(probationary := false);
        Write(serv, r);
        WrittenThenErased(c, serv.i, r);
        assert State() == Assign(c, serv, r);
        EmplaceActive(r);
        assert State() == Activate(Assign(c, serv, r), r);
        if Equals(r, probationaryServers[probationaryIterator.i]) {
          EraseCurrent(serv);
        } else {
          assert false;
        }
      }
    }

    /** One turn of the loops of AddServersFromMessage. */
    method AddServer(peer: Peer, now: int)
      requires bannedServers.lifetime == BAN_SECONDS
      modifies this`probationaryServers, this`nextId
      ensures State() == LearnOne(old(State()), peer, now)
    {
      var rec := NewRecord(nextId, peer);
      var banned, cleaning := bannedServers.IsPresent(rec.peer, now);
      if banned {
        return;
      }
      if HasAddress(activeServers, rec.peer.addr) {
        return;
      }
      probationaryServers := probationaryServers + [rec];
      nextId := nextId + 1;
    }

    /** The message stands at p; validated messages hold the entries they count. */
    method AddServersFromMessage(a: array<byte>, p: nat, now: int) returns (ok: bool)
      requires Valid()
      requires p + 4 <= a.Length && p + 4 + ContentSize(a[p + 2], a[p + 3]) <= a.Length
      modifies this`probationaryServers, this`nextId
      ensures Valid()
      ensures ok <==> a[p + 2] == IP4PEERS || a[p + 2] == IP6PEERS
      ensures State() ==
        if ok then Learn(old(State()), PeersAt(a[..], p + 4, a[p + 3], a[p + 2] == IP6PEERS), now) else old(State())
    {
      if a[p + 2] != IP4PEERS && a[p + 2] != IP6PEERS {
        return false;
      }
      LearnKeepsInvariant(State(), PeersAt(a[..], p + 4, a[p + 3], a[p + 2] == IP6PEERS), now);
      AddServers(a, p, a[p + 2] == IP6PEERS, now);
      return true;
    }

    method AddNextServer(peer: Peer, now: int, ghost c: Config, ghost seen: seq<Peer>)
      requires bannedServers.lifetime == BAN_SECONDS && State() == Learn(c, seen, now)
      modifies this`probationaryServers, this`nextId
      ensures State() == Learn(c, seen + [peer], now)
    {
      LearnAppend(c, seen, peer, now);
      AddServer(peer, now);
    }

    method AddServers(a: array<byte>, p: nat, ipv6: bool, now: int)
      requires bannedServers.lifetime == BAN_SECONDS
      requires p + 4 <= a.Length && p + 4 + PeersSize(ipv6, a[p + 3]) <= a.Length
      modifies this`probationaryServers, this`nextId
      ensures State() == Learn(old(State()), PeersAt(a[..], p + 4, a[p + 3], ipv6), now)
    {
      var i, msg := 0, p + 4;
      ghost var c, s, seen := State(), a[..], [];
      while i < a[p + 3] as int
        invariant 0 <= i <= a[p + 3] as int && msg == p + 4 + PeersSize(ipv6, i)
        invariant seen == PeersAt(s, p + 4, i, ipv6)
        invariant State() == Learn(c, seen, now)
      {
        assert a[..] == s;
        var peer := PeerAt(a[..], msg, ipv6);
        PeersAtAppend(s, p + 4, i, ipv6);
        AddNextServer(peer, now, c, seen);
        seen := seen + [peer];
        i, msg := i + 1, msg + PeersSize(ipv6, 1);
      }
      assert a[..] == s;
    }
  }
}
