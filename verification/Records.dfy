/** Server records of config.cpp: their two comparison operators, and the peer entries they travel in. */
module Records {
  import opened Wire

  type Host4 = h: seq<byte> | |h| == 4 witness [0, 0, 0, 0]
  type Host16 = h: seq<byte> | |h| == 16 witness seq(16, _ => 0)
  /** Kept in network byte order, as the source does, so it is copied and never converted. */
  type Port = p: seq<byte> | |p| == 2 witness [0, 0]

  datatype Address = V4(host4: Host4) | V6(host6: Host16)

  datatype Peer = Peer(addr: Address, port: Port)

  /** One record object. The id stands for the identity of the object; copying a record on promotion keeps it. */
  datatype Record = Record(id: nat, peer: Peer, failureCount: nat, lastAccess: int,
                           probationary: bool, ip4Peers: bool, ip6Peers: bool, signkey: bool, shuttingdown: bool)
  {
    predicate Ipv6() {
      peer.addr.V6?
    }
  }

  function NewRecord(id: nat, peer: Peer): (r: Record) {
    Record(id, peer, 0, 0, true, true, true, true, false)
  }

  // ---------- comparison ----------

  function Memcmp(x: seq<byte>, y: seq<byte>): (r: int)
    requires |x| == |y|
    ensures r == 0 <==> x == y
  {
    if x == [] then 0
    else if x[0] != y[0] then x[0] as int - y[0] as int
    else
      assert x == [x[0]] + x[1..] && y == [y[0]] + y[1..];
      Memcmp(x[1..], y[1..])
  }

  /** operator==. */
  predicate Equals(a: Record, b: Record)
    ensures Equals(a, b) <==> a.peer == b.peer
  {
    if a.Ipv6() != b.Ipv6() then false
    else if a.peer.port != b.peer.port then false
    else if a.Ipv6() then Memcmp(a.peer.addr.host6, b.peer.addr.host6) == 0
    else Memcmp(a.peer.addr.host4, b.peer.addr.host4) == 0
  }

  /** operator<. */
  predicate Less(a: Record, b: Record) {
    if a.Ipv6() != b.Ipv6() then !a.Ipv6()
    else if a.Ipv6() then Memcmp(a.peer.addr.host6, b.peer.addr.host6) < 0
    else Memcmp(a.peer.addr.host4, b.peer.addr.host4) < 0
  }

  lemma {:induction false} MemcmpAntisymmetric(x: seq<byte>, y: seq<byte>)
    requires |x| == |y|
    ensures Memcmp(x, y) < 0 <==> Memcmp(y, x) > 0
  {
    if x != [] && x[0] == y[0] {
      MemcmpAntisymmetric(x[1..], y[1..]);
    }
  }

  lemma {:induction false} MemcmpTransitive(x: seq<byte>, y: seq<byte>, z: seq<byte>)
    requires |x| == |y| == |z|
    requires Memcmp(x, y) < 0 && Memcmp(y, z) < 0
    ensures Memcmp(x, z) < 0
  {
    if x[0] == y[0] == z[0] {
      MemcmpTransitive(x[1..], y[1..], z[1..]);
    }
  }

  lemma LessTransitive(a: Record, b: Record, c: Record)
    requires Less(a, b) && Less(b, c)
    ensures Less(a, c)
  {
    if a.Ipv6() && c.Ipv6() {
      MemcmpTransitive(a.peer.addr.host6, b.peer.addr.host6, c.peer.addr.host6);
    } else if !a.Ipv6() && !c.Ipv6() {
      MemcmpTransitive(a.peer.addr.host4, b.peer.addr.host4, c.peer.addr.host4);
    }
  }

  lemma LessTrichotomy(a: Record, b: Record)
    ensures !(Less(a, b) && Less(b, a))
    ensures !Less(a, b) && !Less(b, a) <==> a.peer.addr == b.peer.addr
  {
    if a.Ipv6() && b.Ipv6() {
      MemcmpAntisymmetric(a.peer.addr.host6, b.peer.addr.host6);
      MemcmpAntisymmetric(b.peer.addr.host6, a.peer.addr.host6);
    } else if !a.Ipv6() && !b.Ipv6() {
      MemcmpAntisymmetric(a.peer.addr.host4, b.peer.addr.host4);
      MemcmpAntisymmetric(b.peer.addr.host4, a.peer.addr.host4);
    }
  }

  /**
   * operator< is a strict weak order. Records it cannot tell apart are those with the same family and host, whatever
   * their ports; operator== is finer.
   */
  lemma LessIsStrictWeakOrder(a: Record, b: Record, c: Record)
    ensures !Less(a, a)
    ensures Less(a, b) ==> !Less(b, a)
    ensures Less(a, b) && Less(b, c) ==> Less(a, c)
    ensures Less(a, c) ==> Less(a, b) || Less(b, c)
    ensures !Less(a, b) && !Less(b, a) <==> a.peer.addr == b.peer.addr
    ensures Equals(a, b) ==> !Less(a, b) && !Less(b, a)
  {
    LessTrichotomy(a, a);
    LessTrichotomy(a, b);
    LessTrichotomy(b, c);
    if Less(a, b) && Less(b, c) {
      LessTransitive(a, b, c);
    }
    if Less(a, c) && !Less(a, b) && !Less(b, c) {
      if Less(b, a) {
        LessTransitive(b, a, c);
      }
    }
  }

  /** The bytes of an address, in network order. */
  function Host(a: Address): (h: seq<byte>)
    ensures |h| == if a.V6? then 16 else 4
  {
    match a case V4(h) => h case V6(h) => h
  }

  /** At byte k the two differ for the first time, and x has the lower byte. */
  predicate LowerAt(x: seq<byte>, y: seq<byte>, k: nat) {
    k < |x| && k < |y| && (forall i :: 0 <= i < k ==> x[i] == y[i]) && x[k] < y[k]
  }

  /** memcmp compares from the first byte on, and the lower byte makes the lower string. */
  lemma {:induction false} MemcmpByBytes(x: seq<byte>, y: seq<byte>)
    requires |x| == |y|
    ensures Memcmp(x, y) < 0 <==> exists k: nat :: LowerAt(x, y, k)
    decreases |x|
  {
    if x != [] {
      MemcmpByBytes(x[1..], y[1..]);
      if x[0] == y[0] {
        if k: nat :| LowerAt(x[1..], y[1..], k) {
          assert forall i :: 0 < i <= k + 1 ==> x[i] == x[1..][i - 1] && y[i] == y[1..][i - 1];
          assert LowerAt(x, y, k + 1);
        }
        if k: nat :| LowerAt(x, y, k) {
          assert LowerAt(x[1..], y[1..], k - 1);
        }
      } else {
        assert x[0] < y[0] ==> LowerAt(x, y, 0);
      }
    }
  }

  /**
   * Which order operator< is: IPv4 addresses come before IPv6 addresses, and within a family the host with the lower
   * byte at the first place where the two differ comes first.
   */
  lemma LessByBytes(a: Record, b: Record)
    ensures Less(a, b) <==>
            || (a.peer.addr.V4? && b.peer.addr.V6?)
            || (&& a.peer.addr.V4? == b.peer.addr.V4?
                && exists k: nat :: LowerAt(Host(a.peer.addr), Host(b.peer.addr), k))
  {
    if a.Ipv6() == b.Ipv6() {
      MemcmpByBytes(Host(a.peer.addr), Host(b.peer.addr));
    }
  }

  // ---------- peer entries ----------

  function PeerKind(ipv6: bool): (kind: byte) {
    if ipv6 then IP6PEERS else IP4PEERS
  }

  /** The bytes n peer entries take. */
  function PeersSize(ipv6: bool, n: nat): (size: nat) {
    if ipv6 then 18 * n else 6 * n
  }

  function PeerBytes(p: Peer): (s: seq<byte>)
    ensures |s| == PeersSize(p.addr.V6?, 1)
  {
    (match p.addr case V4(h) => h case V6(h) => h) + p.port
  }

  function PeersBytes(ps: seq<Peer>): (s: seq<byte>) {
    if ps == [] then [] else PeerBytes(ps[0]) + PeersBytes(ps[1..])
  }

  /** The peer entry of one family that stands at p. */
  function PeerAt(s: seq<byte>, p: nat, ipv6: bool): (peer: Peer)
    requires p + PeersSize(ipv6, 1) <= |s|
  {
    if ipv6 then Peer(V6(s[p..p + 16]), s[p + 16..p + 18]) else Peer(V4(s[p..p + 4]), s[p + 4..p + 6])
  }

  function PeersAt(s: seq<byte>, p: nat, count: nat, ipv6: bool): (ps: seq<Peer>)
    requires p + PeersSize(ipv6, count) <= |s|
    ensures |ps| == count
    decreases count
  {
    if count == 0 then [] else [PeerAt(s, p, ipv6)] + PeersAt(s, p + PeersSize(ipv6, 1), count - 1, ipv6)
  }

  predicate AllOf(ps: seq<Peer>, ipv6: bool) {
    forall p :: p in ps ==> p.addr.V6? == ipv6
  }

  lemma {:induction false} PeersBytesSize(ps: seq<Peer>, ipv6: bool)
    requires AllOf(ps, ipv6)
    ensures |PeersBytes(ps)| == ContentSize(PeerKind(ipv6), |ps|)
  {
    if ps != [] {
      assert ps[0] in ps;
      PeersBytesSize(ps[1..], ipv6);
    }
  }

  lemma PeerAtBytes(s: seq<byte>, p: nat, peer: Peer)
    requires p + |PeerBytes(peer)| <= |s| && s[p..p + |PeerBytes(peer)|] == PeerBytes(peer)
    ensures PeerAt(s, p, peer.addr.V6?) == peer
  {
    var b := PeerBytes(peer);
    var h := |b| - 2;
    assert s[p..p + h] == b[..h];
    assert s[p + h..p + h + 2] == b[h..];
  }

  /** The bytes from p to end are the entries of ps: its first stands at p, and the others fill the rest. */
  lemma FirstPeer(s: seq<byte>, p: nat, end: nat, ps: seq<Peer>)
    requires ps != []
    requires p <= end <= |s| && s[p..end] == PeersBytes(ps)
    ensures var q := p + |PeerBytes(ps[0])|;
            && q <= end && s[q..end] == PeersBytes(ps[1..])
            && PeerAt(s, p, ps[0].addr.V6?) == ps[0]
  {
    SplitSlice(s, p, PeerBytes(ps[0]), PeersBytes(ps[1..]));
    PeerAtBytes(s, p, ps[0]);
  }

  /** Peer entries read back as the peers they were written from, address and port unchanged and in order. */
  lemma {:induction false} PeersRoundTrip(s: seq<byte>, p: nat, end: nat, ps: seq<Peer>, ipv6: bool)
    requires AllOf(ps, ipv6)
    requires p <= end <= |s| && s[p..end] == PeersBytes(ps)
    ensures p + PeersSize(ipv6, |ps|) == end
    ensures PeersAt(s, p, |ps|, ipv6) == ps
    decreases |ps|
  {
    if ps == [] {
      assert |s[p..end]| == 0;
    } else {
      assert ps[0] in ps;
      FirstPeer(s, p, end, ps);
      PeersRoundTrip(s, p + PeersSize(ipv6, 1), end, ps[1..], ipv6);
    }
  }

  /** Where an entry stands, and what is in it: the host, and the two bytes of the port behind it. */
  predicate EntryStands(s: seq<byte>, p: nat, peer: Peer) {
    var n := if peer.addr.V6? then 16 else 4;
    p + n + 2 <= |s| && s[p..p + n] == Host(peer.addr) && s[p + n] == peer.port[0] && s[p + n + 1] == peer.port[1]
  }

  lemma FirstEntryInPlace(peer: Peer, rest: seq<byte>)
    ensures EntryStands(PeerBytes(peer) + rest, 0, peer)
  {
    var b, n := PeerBytes(peer), |Host(peer.addr)|;
    assert (b + rest)[..n] == b[..n] == Host(peer.addr);
    assert b[n] == peer.port[0] && b[n + 1] == peer.port[1];
  }

  lemma EntryBehind(b: seq<byte>, rest: seq<byte>, p: nat, peer: Peer)
    requires EntryStands(rest, p, peer)
    ensures EntryStands(b + rest, |b| + p, peer)
  {
    var n := |Host(peer.addr)|;
    assert (b + rest)[|b| + p..|b| + p + n] == rest[p..p + n];
    assert (b + rest)[|b| + p + n] == rest[p + n] && (b + rest)[|b| + p + n + 1] == rest[p + n + 1];
  }

  lemma EntryAfterFirst(ps: seq<Peer>, ipv6: bool, i: nat)
    requires AllOf(ps, ipv6) && 0 < i < |ps|
    requires EntryStands(PeersBytes(ps[1..]), PeersSize(ipv6, i - 1), ps[i])
    ensures EntryStands(PeersBytes(ps), PeersSize(ipv6, i), ps[i])
  {
    assert ps[0] in ps;
    EntryBehind(PeerBytes(ps[0]), PeersBytes(ps[1..]), PeersSize(ipv6, i - 1), ps[i]);
  }

  lemma {:induction false} EntryInPlace(ps: seq<Peer>, ipv6: bool, i: nat)
    requires AllOf(ps, ipv6) && i < |ps|
    ensures EntryStands(PeersBytes(ps), PeersSize(ipv6, i), ps[i])
    decreases i
  {
    if i == 0 {
      FirstEntryInPlace(ps[0], PeersBytes(ps[1..]));
    } else {
      EntryInPlace(ps[1..], ipv6, i - 1);
      EntryAfterFirst(ps, ipv6, i);
    }
  }

  /** Entry i of a list of one family stands behind i entries of 6, or 18, bytes. */
  lemma EntriesInPlace(ps: seq<Peer>, ipv6: bool, i: nat)
    requires AllOf(ps, ipv6) && i < |ps|
    ensures |PeersBytes(ps)| == (if ipv6 then 18 else 6) * |ps|
    ensures EntryStands(PeersBytes(ps), (if ipv6 then 18 else 6) * i, ps[i])
  {
    PeersBytesSize(ps, ipv6);
    EntryInPlace(ps, ipv6, i);
  }

  lemma {:induction false} PeersBytesAppend(ps: seq<Peer>, p: Peer)
    ensures PeersBytes(ps + [p]) == PeersBytes(ps) + PeerBytes(p)
  {
    if ps == [] {
      assert [p][1..] == [];
    } else {
      PeersBytesAppend(ps[1..], p);
      assert (ps + [p])[1..] == ps[1..] + [p];
    }
  }
}
