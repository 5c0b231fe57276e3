/** The generators of protocol.cpp, which write messages into a caller's buffer and return where they end. */
module Generators {
  import opened Options
  import opened Wire

  /** s with the bytes x written at p. */
  function Splice(s: seq<byte>, p: nat, x: seq<byte>): (r: seq<byte>)
    requires p + |x| <= |s|
    ensures |r| == |s|
  {
    s[..p] + x + s[p + |x|..]
  }

  lemma SpliceThen(s: seq<byte>, p: nat, x: seq<byte>, y: seq<byte>)
    requires p + |x| + |y| <= |s|
    ensures Splice(Splice(s, p, x), p + |x|, y) == Splice(s, p, x + y)
  {
  }

  lemma SplicePrefix(s: seq<byte>, p: nat, x: seq<byte>)
    requires p + |x| <= |s|
    ensures Splice(s, p, x)[..p + |x|] == s[..p] + x
  {
  }

  lemma Regroup(x: seq<byte>, y: seq<byte>, z: seq<byte>)
    ensures (x + y) + z == x + (y + z)
  {
  }

  /** memcpy into a buffer. */
  method CopyBytes(x: seq<byte>, a: array<byte>, p: nat)
    requires p + |x| <= a.Length
    modifies a
    ensures a[..] == Splice(old(a[..]), p, x)
  {
    var i := 0;
    while i < |x|
      invariant 0 <= i <= |x|
      invariant forall k :: p <= k < p + i ==> a[k] == x[k - p]
      invariant forall k :: 0 <= k < a.Length && !(p <= k < p + i) ==> a[k] == old(a[k])
    {
      a[p + i] := x[i];
      i := i + 1;
    }
    assert a[..p] == old(a[..])[..p];
    assert a[p..p + |x|] == x;
    assert a[p + |x|..] == old(a[..])[p + |x|..];
    assert a[..] == a[..p] + a[p..p + |x|] + a[p + |x|..];
  }

  /** memcpy behind what was written so far. */
  method AppendBytes(x: seq<byte>, a: array<byte>, p: nat)
    requires p + |x| <= a.Length
    modifies a
    ensures a[..p + |x|] == old(a[..p]) + x
  {
    SplicePrefix(a[..], p, x);
    CopyBytes(x, a, p);
  }

  /** The three header fields shared by packets and messages. */
  method WriteHeader(length: nat, kind: byte, count: byte, a: array<byte>, p: nat)
    requires p + 4 <= a.Length
    modifies a
    ensures a[..] == Splice(old(a[..]), p, Htons(length) + [kind, count])
  {
    var h := Htons(length);
    a[p], a[p + 1] := h[0], h[1];
    a[p + 2] := kind;
    a[p + 3] := count;
    assert a[..] == old(a[..])[..p] + [h[0], h[1], kind, count] + old(a[..])[p + 4..];
    assert [h[0], h[1], kind, count] == h + [kind, count];
  }

  /** A message header and the content behind it. */
  method WriteMessage(kind: byte, count: byte, content: seq<byte>, a: array<byte>, p: nat)
    requires p + 4 + |content| <= a.Length
    modifies a
    ensures a[..] == Splice(old(a[..]), p, Encode(Message(kind, count, content)))
  {
    WriteHeader(4 + |content|, kind, count, a, p);
    CopyBytes(content, a, p + 4);
    SpliceThen(old(a[..]), p, Htons(4 + |content|) + [kind, count], content);
  }

  method GenerateRequestEntropyMessage(requestedEntropy: byte, a: array<byte>, p: nat) returns (next: nat)
    requires p + 4 <= a.Length
    modifies a
    ensures next == p + 4
    ensures a[..] == Splice(old(a[..]), p, Encode(Message(ENTROPY, requestedEntropy, [])))
  {
    WriteHeader(4, ENTROPY, requestedEntropy, a, p);
    assert Encode(Message(ENTROPY, requestedEntropy, [])) == Htons(4) + [ENTROPY, requestedEntropy];
    return p + 4;
  }

  method GenerateResponseEntropyMessage(entropyLength: byte, entropy: seq<byte>, bufferSize: nat, a: array<byte>,
                                        p: nat)
      returns (next: Option<nat>)
    requires entropyLength as int <= |entropy|
    requires p + bufferSize <= a.Length
    modifies a
    ensures next.Some? <==> 0 < entropyLength as int <= bufferSize - 4
    ensures next.Some? ==>
      && next.value == p + 4 + entropyLength as int
      && a[..] == Splice(old(a[..]), p, Encode(Message(ENTROPY, entropyLength, entropy[..entropyLength])))
    ensures next.None? ==> a[..] == old(a[..])
  {
    if entropyLength == 0 {
      return None;
    }
    if bufferSize < 4 + entropyLength as int {
      return None;
    }
    WriteMessage(ENTROPY, entropyLength, entropy[..entropyLength], a, p);
    return Some(p + 4 + entropyLength as int);
  }

  method GenerateRequestPeersMessage(ipType: byte, countOfPeers: byte, a: array<byte>,
                                     p: nat) returns (next: Option<nat>)
    requires p + 4 <= a.Length
    modifies a
    ensures next.Some? <==> ipType == IP4PEERS || ipType == IP6PEERS
    ensures next.Some? ==>
      && next.value == p + 4
      && a[..] == Splice(old(a[..]), p, Encode(Message(ipType, countOfPeers, [])))
    ensures next.None? ==> a[..] == old(a[..])
  {
    if ipType != IP4PEERS && ipType != IP6PEERS {
      return None;
    }
    WriteHeader(4, ipType, countOfPeers, a, p);
    assert Encode(Message(ipType, countOfPeers, [])) == Htons(4) + [ipType, countOfPeers];
    return Some(p + 4);
  }

  method GenerateResponsePeersMessage(ipType: byte, countOfPeers: byte, listOfPeers: Option<seq<byte>>, bufferSize: nat,
                                      a: array<byte>, p: nat) returns (next: Option<nat>)
    requires listOfPeers.Some? ==> ContentSize(ipType, countOfPeers) <= |listOfPeers.value|
    requires p + bufferSize <= a.Length
    modifies a
    ensures next.Some? <==>
      && listOfPeers.Some?
      && (ipType == IP4PEERS || ipType == IP6PEERS)
      && countOfPeers > 0
      && 4 + ContentSize(ipType, countOfPeers) <= bufferSize
    ensures next.Some? ==>
      && next.value == p + 4 + ContentSize(ipType, countOfPeers)
      && a[..] == Splice(old(a[..]), p,
                         Encode(Message(ipType, countOfPeers, listOfPeers.value[..ContentSize(ipType, countOfPeers)])))
    ensures next.None? ==> a[..] == old(a[..])
  {
    if listOfPeers.None? {
      return None;
    }
    if ipType != IP4PEERS && ipType != IP6PEERS {
      return None;
    }
    if countOfPeers == 0 {
      return None;
    }
    var contentSize: nat := if ipType == IP4PEERS then 6 * countOfPeers else 18 * countOfPeers;
    if bufferSize < 4 + contentSize {
      return None;
    }
    WriteMessage(ipType, countOfPeers, listOfPeers.value[..contentSize], a, p);
    return Some(p + 4 + contentSize);
  }

  method GenerateRejectHeader(count: byte, a: array<byte>, p: nat) returns (next: nat)
    requires p + 4 <= a.Length
    modifies a
    ensures next == p + 4
    ensures a[..] == Splice(old(a[..]), p, Htons(4 + 2 * count as int) + [REJECT, count])
  {
    WriteHeader(4 + 2 * count as int, REJECT, count, a, p);
    return p + 4;
  }

  method GenerateRejectMessage(reason: byte, message: byte, a: array<byte>, p: nat) returns (next: Option<nat>)
    requires p + 2 <= a.Length
    modifies a
    ensures next == if reason < REASON_MAX then Some(p + 2) else None
    ensures next.Some? ==> a[..] == Splice(old(a[..]), p, [message, reason])
    ensures next.None? ==> a[..] == old(a[..])
  {
    if reason >= REASON_MAX {
      return None;
    }
    a[p] := message;
    a[p + 1] := reason;
    assert a[..] == old(a[..])[..p] + [message, reason] + old(a[..])[p + 2..];
    return Some(p + 2);
  }

  /** The length and msgCount parameters are narrower than what callers pass; Htons and Uchar say what is kept. */
  method GeneratePacketHeader(length: nat, kind: byte, msgCount: byte, a: array<byte>) returns (next: Option<nat>)
    requires 4 <= a.Length
    modifies a
    ensures next == if (kind == REQUEST || kind == RESPONSE) && length % 65536 <= MAX_PACKET && msgCount != 0
                    then Some(4) else None
    ensures next.Some? ==> a[..] == Splice(old(a[..]), 0, Htons(length) + [kind, msgCount])
    ensures next.None? ==> a[..] == old(a[..])
  {
    if kind != REQUEST && kind != RESPONSE {
      return None;
    }
    if length % 65536 > MAX_PACKET {
      return None;
    }
    if msgCount == 0 {
      return None;
    }
    WriteHeader(length, kind, msgCount, a, 0);
    return Some(4);
  }
}
