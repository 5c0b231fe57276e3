/** The packet format of protocol.h: constants, messages as values, and the bytes they stand for. */
module Wire {

  type byte = b: int | 0 <= b < 256

  const REQUEST: byte := 1
  const RESPONSE: byte := 2
  const REJECT: byte := 3
  const REQUEST_MSG_MIN: byte := 4
  const IP4PEERS: byte := 4
  const ENTROPY: byte := 5
  const IP6PEERS: byte := 6
  const SIGNKEY: byte := 8
  const MSG_TYPE_MAX: byte := 11

  const SHUTTING_DOWN: byte := 2
  const UNSUPPORTED: byte := 3
  const REASON_MAX: byte := 4

  const MAX_PACKET: nat := 65507
  const MAX_REJECT_MESSAGE: nat := 514
  /** A validator may look at one whole header, or reject message, that starts on the last byte of a packet. */
  const BUFFER: nat := MAX_PACKET + MAX_REJECT_MESSAGE
  const DEFAULT_ENTROPY_SIZE: byte := 8

  /** A message without its length field, which is implied by the body. */
  datatype Message = Message(kind: byte, count: byte, body: seq<byte>)

  /** Conversion to `unsigned char`. */
  function Uchar(n: nat): (b: byte) {
    n % 256
  }

  lemma UcharIsExact(n: nat)
    requires n < 256
    ensures Uchar(n) as int == n
  {
  }

  function Ntohs(s: seq<byte>, p: nat): (n: nat)
    requires p + 2 <= |s|
    ensures n < 65536
  {
    (s[p] as int) * 256 + s[p + 1] as int
  }

  /** The two bytes of `htons((unsigned short) n)`: only the low 16 bits survive. */
  function Htons(n: nat): (s: seq<byte>)
    ensures |s| == 2
    ensures n < 65536 ==> Ntohs(s, 0) == n
  {
    [(n / 256) % 256, n % 256]
  }

  function Encode(m: Message): (s: seq<byte>)
    ensures |s| == 4 + |m.body|
  {
    Htons(4 + |m.body|) + [m.kind, m.count] + m.body
  }

  function EncodeAll(ms: seq<Message>): (s: seq<byte>) {
    if ms == [] then [] else Encode(ms[0]) + EncodeAll(ms[1..])
  }

  function EncodePacket(kind: byte, ms: seq<Message>): (s: seq<byte>)
    ensures |s| == 4 + |EncodeAll(ms)|
  {
    Htons(4 + |EncodeAll(ms)|) + [kind, Uchar(|ms|)] + EncodeAll(ms)
  }

  function KindOf(isRequest: bool): byte {
    if isRequest then REQUEST else RESPONSE
  }

  /** Content size of a response message: 2 bytes a rejection, 6 or 18 bytes a peer, 1 byte of entropy. */
  function ContentSize(kind: byte, count: nat): (n: nat) {
    if kind == REJECT then 2 * count
    else if kind == IP4PEERS then 6 * count
    else if kind == IP6PEERS then 18 * count
    else count
  }

  /** Entropy may not be rejected, nor may types that no request can carry. */
  predicate RejectEntryOk(kind: byte, reason: byte) {
    REQUEST_MSG_MIN <= kind < MSG_TYPE_MAX && kind != ENTROPY && reason < REASON_MAX
  }

  predicate EntryOk(s: seq<byte>, content: nat, i: nat)
    requires content + 2 * i + 2 <= |s|
  {
    RejectEntryOk(s[content + 2 * i], s[content + 2 * i + 1])
  }

  predicate EntriesOk(s: seq<byte>, content: nat, count: nat)
    requires content + 2 * count <= |s|
  {
    forall i :: 0 <= i < count ==> EntryOk(s, content, i)
  }

  /** The grammar of messages. Requests carry headers only, save for types the server does not interpret. */
  predicate WellFormed(isRequest: bool, m: Message) {
    if isRequest then
      && m.kind >= REQUEST_MSG_MIN
      && 4 + |m.body| < MAX_PACKET
      && (m.kind <= IP6PEERS ==> m.body == [])
    else
      && REJECT <= m.kind <= IP6PEERS
      && |m.body| == ContentSize(m.kind, m.count)
      && (m.kind == REJECT ==>
            && m.count > 0
            && EntriesOk(m.body, 0, m.count))
  }

  /** What a sender may put in one packet. */
  predicate Legal(isRequest: bool, ms: seq<Message>) {
    && 1 <= |ms| <= 255
    && (forall m :: m in ms ==> WellFormed(isRequest, m))
    && |EncodePacket(KindOf(isRequest), ms)| <= MAX_PACKET
  }

  lemma SplitSlice(s: seq<byte>, p: nat, x: seq<byte>, y: seq<byte>)
    requires p + |x| + |y| <= |s| && s[p..p + |x| + |y|] == x + y
    ensures s[p..p + |x|] == x && s[p + |x|..p + |x| + |y|] == y
  {
    assert s[p..p + |x|] == (x + y)[..|x|];
    assert s[p + |x|..p + |x| + |y|] == (x + y)[|x|..];
  }

  lemma {:induction false} EncodeAllAppend(xs: seq<Message>, ys: seq<Message>)
    ensures EncodeAll(xs + ys) == EncodeAll(xs) + EncodeAll(ys)
  {
    if xs == [] {
      assert xs + ys == ys;
    } else {
      assert (xs + ys)[1..] == xs[1..] + ys;
      EncodeAllAppend(xs[1..], ys);
    }
  }

  lemma EncodeAllSingleton(m: Message)
    ensures EncodeAll([m]) == Encode(m)
  {
    assert [m][1..] == [];
    assert EncodeAll([m]) == Encode(m) + [];
  }

  lemma EncodeAllUpTo(ms: seq<Message>, i: nat)
    requires i < |ms|
    ensures EncodeAll(ms[..i + 1]) == EncodeAll(ms[..i]) + Encode(ms[i])
  {
    assert ms[..i + 1] == ms[..i] + [ms[i]];
    EncodeAllAppend(ms[..i], [ms[i]]);
    EncodeAllSingleton(ms[i]);
  }

  lemma EncodeAllFrom(ms: seq<Message>, i: nat)
    requires i < |ms|
    ensures EncodeAll(ms[i..]) == Encode(ms[i]) + EncodeAll(ms[i + 1..])
  {
    assert ms[i..][1..] == ms[i + 1..];
  }

  lemma EncodeAllSplit(ms: seq<Message>, i: nat)
    requires i <= |ms|
    ensures EncodeAll(ms) == EncodeAll(ms[..i]) + EncodeAll(ms[i..])
  {
    assert ms == ms[..i] + ms[i..];
    EncodeAllAppend(ms[..i], ms[i..]);
  }

  /** The encoding of a list around its i-th message. */
  lemma EncodeAllAround(ms: seq<Message>, i: nat)
    requires i < |ms|
    ensures EncodeAll(ms) == EncodeAll(ms[..i]) + (Encode(ms[i]) + EncodeAll(ms[i + 1..]))
    ensures EncodeAll(ms[..i + 1]) == EncodeAll(ms[..i]) + Encode(ms[i])
  {
    EncodeAllSplit(ms, i);
    EncodeAllFrom(ms, i);
    EncodeAllUpTo(ms, i);
  }
}
