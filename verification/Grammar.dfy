/** What the packet validator accepts, said without its loop: soundness, completeness and termination. */
module Grammar {
  import opened Wire
  import opened Validator

  // ---------- tilings ----------

  /**
   * Exactly n messages, each with a header valid for the packet kind and at least `least` bytes long, fill the bytes
   * from p to end: each ends where the next begins, and the last one at end.
   */
  predicate Tiling(s: seq<byte>, isRequest: bool, p: nat, end: nat, least: nat, n: nat)
    requires Readable(s) && end <= MAX_PACKET
    decreases n
  {
    if n == 0 then p == end
    else
      && p < end
      && HeaderOk(s, p, isRequest)
      && Ntohs(s, p) >= least
      && Tiling(s, isRequest, p + Ntohs(s, p), end, least, n - 1)
  }

  lemma {:induction false} WalkIsTiling(s: seq<byte>, p: nat, end: nat, isRequest: bool, n: nat)
    requires Readable(s) && end <= MAX_PACKET
    ensures WalkFrom(s, p, end, isRequest) == Walked(n, end) <==> Tiling(s, isRequest, p, end, 1, n)
    decreases n
  {
    if n > 0 && p < end && HeaderOk(s, p, isRequest) && Ntohs(s, p) > 0 {
      WalkIsTiling(s, p + Ntohs(s, p), end, isRequest, n - 1);
    }
  }

  lemma {:induction false} TilingIsWeaker(s: seq<byte>, isRequest: bool, p: nat, end: nat, least: nat, n: nat)
    requires Readable(s) && end <= MAX_PACKET && least > 0
    requires Tiling(s, isRequest, p, end, least, n)
    ensures p <= end && Tiling(s, isRequest, p, end, 1, n)
    decreases n
  {
    if n > 0 {
      TilingIsWeaker(s, isRequest, p + Ntohs(s, p), end, least, n - 1);
    }
  }

  /** The tilings the validator looks for: of the whole packet, by as many messages as its header says. */
  predicate PacketTiling(s: seq<byte>, isRequest: bool, least: nat)
    requires Readable(s)
  {
    PacketHeaderOk(s, isRequest) && Tiling(s, isRequest, 4, Ntohs(s, 0), least, s[3])
  }

  /** The validator accepts exactly the packets whose msgCount valid messages tile them without gap or overrun. */
  lemma AcceptsExactlyTilings(s: seq<byte>, isRequest: bool)
    requires Readable(s)
    ensures Validate(s, isRequest) == Accepted <==> PacketTiling(s, isRequest, 1)
  {
    if PacketHeaderOk(s, isRequest) {
      WalkIsTiling(s, 4, Ntohs(s, 0), isRequest, s[3]);
    }
  }

  // ---------- decoding ----------

  /** A message stands at p: a whole header, and as many bytes as it says. */
  predicate Fits(s: seq<byte>, p: nat) {
    p + 4 <= |s| && 4 <= Ntohs(s, p) <= |s| - p
  }

  function MessageAt(s: seq<byte>, p: nat): (m: Message)
    requires Fits(s, p)
  {
    Message(s[p + 2], s[p + 3], s[p + 4..p + Ntohs(s, p)])
  }

  /** The next n messages of s from offset p; fewer if one of them does not fit. */
  function Parse(s: seq<byte>, p: nat, n: nat): (ms: seq<Message>)
    ensures |ms| <= n
    decreases n
  {
    if n == 0 || !Fits(s, p) then [] else [MessageAt(s, p)] + Parse(s, p + Ntohs(s, p), n - 1)
  }

  lemma EncodeOfMessageAt(s: seq<byte>, p: nat)
    requires Fits(s, p)
    ensures Encode(MessageAt(s, p)) == s[p..p + Ntohs(s, p)]
  {
    var length := Ntohs(s, p);
    assert length == s[p] as int * 256 + s[p + 1] as int;
    assert Htons(length) == [s[p], s[p + 1]];
  }

  lemma MessageAtEncode(s: seq<byte>, p: nat, m: Message)
    requires |m.body| < 65532
    requires p + |Encode(m)| <= |s| && s[p..p + |Encode(m)|] == Encode(m)
    ensures Fits(s, p) && Ntohs(s, p) == |Encode(m)| && MessageAt(s, p) == m
  {
    var e := Encode(m);
    var h := Htons(4 + |m.body|);
    var slice := s[p..p + |e|];
    assert slice[0] == h[0] && slice[1] == h[1] && slice[2] == m.kind && slice[3] == m.count;
    assert s[p] == slice[0] && s[p + 1] == slice[1] && s[p + 2] == slice[2] && s[p + 3] == slice[3];
    assert Ntohs(h, 0) == |e|;
    assert s[p + 4..p + |e|] == slice[4..] == m.body;
  }

  lemma HeaderOkIsWellFormed(s: seq<byte>, p: nat, isRequest: bool)
    requires p + MAX_REJECT_MESSAGE <= |s| && Fits(s, p)
    ensures HeaderOk(s, p, isRequest) <==> WellFormed(isRequest, MessageAt(s, p))
  {
    var m := MessageAt(s, p);
    var content := p + 4;
    if |m.body| == 2 * m.count as nat {
      forall i: nat | i < m.count as nat
        ensures EntryOk(m.body, 0, i) <==> EntryOk(s, content, i)
      {
        assert m.body[2 * i] == s[content + 2 * i] && m.body[2 * i + 1] == s[content + 2 * i + 1];
      }
      assert EntriesOk(m.body, 0, m.count) <==> EntriesOk(s, content, m.count);
    }
  }

  lemma ParseCons(s: seq<byte>, p: nat, n: nat)
    requires Fits(s, p) && 0 < n
    ensures Parse(s, p, n) == [MessageAt(s, p)] + Parse(s, p + Ntohs(s, p), n - 1)
  {
  }

  /** The bytes from p to end encode ms: its first message stands at p, and the others fill the rest. */
  lemma FirstOfEncodeAll(s: seq<byte>, p: nat, end: nat, ms: seq<Message>)
    requires ms != [] && |ms[0].body| < 65532
    requires p <= end <= |s| && s[p..end] == EncodeAll(ms)
    ensures Fits(s, p) && Ntohs(s, p) == |Encode(ms[0])| && MessageAt(s, p) == ms[0]
    ensures p + Ntohs(s, p) <= end && s[p + Ntohs(s, p)..end] == EncodeAll(ms[1..])
  {
    SplitSlice(s, p, Encode(ms[0]), EncodeAll(ms[1..]));
    MessageAtEncode(s, p, ms[0]);
  }

  lemma ParseFirst(s: seq<byte>, p: nat, ms: seq<Message>)
    requires ms != [] && Fits(s, p) && MessageAt(s, p) == ms[0]
    requires Parse(s, p + Ntohs(s, p), |ms[1..]|) == ms[1..]
    ensures Parse(s, p, |ms|) == ms
  {
    ParseCons(s, p, |ms|);
    assert ms == [ms[0]] + ms[1..];
  }

  /** Reading back what EncodeAll wrote, wherever it stands. Needs only that no length overflows 16 bits. */
  lemma {:induction false} ParseOfEncodeAll(s: seq<byte>, p: nat, end: nat, ms: seq<Message>)
    requires p <= end <= |s| && s[p..end] == EncodeAll(ms)
    requires forall m :: m in ms ==> |m.body| < 65532
    ensures Parse(s, p, |ms|) == ms
    decreases |ms|
  {
    if ms != [] {
      FirstOfEncodeAll(s, p, end, ms);
      ParseOfEncodeAll(s, p + Ntohs(s, p), end, ms[1..]);
      ParseFirst(s, p, ms);
    }
  }

  lemma EncodeOneMore(s: seq<byte>, p: nat, end: nat, n: nat)
    requires Fits(s, p) && p + Ntohs(s, p) <= end <= |s| && 0 < n
    requires EncodeAll(Parse(s, p + Ntohs(s, p), n - 1)) == s[p + Ntohs(s, p)..end]
    ensures EncodeAll(Parse(s, p, n)) == s[p..end]
  {
    var q := p + Ntohs(s, p);
    ParseCons(s, p, n);
    assert Parse(s, p, n)[1..] == Parse(s, q, n - 1);
    EncodeOfMessageAt(s, p);
    assert s[p..end] == s[p..q] + s[q..end];
  }

  lemma {:induction false} ParseIsWellFormed(s: seq<byte>, isRequest: bool, p: nat, end: nat, n: nat)
    requires Readable(s) && p <= end <= MAX_PACKET
    requires Tiling(s, isRequest, p, end, 4, n)
    ensures |Parse(s, p, n)| == n && forall m :: m in Parse(s, p, n) ==> WellFormed(isRequest, m)
    decreases n
  {
    if n > 0 {
      var q := p + Ntohs(s, p);
      TilingIsWeaker(s, isRequest, q, end, 4, n - 1);
      ParseIsWellFormed(s, isRequest, q, end, n - 1);
      HeaderOkIsWellFormed(s, p, isRequest);
    }
  }

  /** A tiling by whole messages decodes into messages that encode back to the same bytes. */
  lemma {:induction false} EncodeAllOfParse(s: seq<byte>, isRequest: bool, p: nat, end: nat, n: nat)
    requires Readable(s) && p <= end <= MAX_PACKET
    requires Tiling(s, isRequest, p, end, 4, n)
    ensures EncodeAll(Parse(s, p, n)) == s[p..end]
    decreases n
  {
    if n > 0 {
      var q := p + Ntohs(s, p);
      TilingIsWeaker(s, isRequest, q, end, 4, n - 1);
      EncodeAllOfParse(s, isRequest, q, end, n - 1);
      EncodeOneMore(s, p, end, n);
    }
  }

  lemma TilingFrom(s: seq<byte>, isRequest: bool, p: nat, end: nat, least: nat, n: nat)
    requires Readable(s) && p < end <= MAX_PACKET && 0 < n
    requires HeaderOk(s, p, isRequest) && Ntohs(s, p) >= least
    requires Tiling(s, isRequest, p + Ntohs(s, p), end, least, n - 1)
    ensures Tiling(s, isRequest, p, end, least, n)
  {
  }

  lemma FirstHeaderOk(s: seq<byte>, isRequest: bool, p: nat, ms: seq<Message>)
    requires Readable(s) && p < MAX_PACKET && ms != [] && Fits(s, p) && MessageAt(s, p) == ms[0]
    requires forall m :: m in ms ==> WellFormed(isRequest, m)
    ensures HeaderOk(s, p, isRequest)
  {
    HeaderOkIsWellFormed(s, p, isRequest);
    assert WellFormed(isRequest, ms[0]);
  }

  lemma {:induction false} TilingOfEncodeAll(s: seq<byte>, isRequest: bool, p: nat, end: nat, ms: seq<Message>)
    requires Readable(s) && p <= end <= MAX_PACKET
    requires s[p..end] == EncodeAll(ms)
    requires forall m :: m in ms ==> WellFormed(isRequest, m)
    requires forall m :: m in ms ==> |m.body| < 65532
    ensures Tiling(s, isRequest, p, end, 4, |ms|)
    decreases |ms|
  {
    if ms == [] {
      assert |s[p..end]| == 0;
    } else {
      FirstOfEncodeAll(s, p, end, ms);
      FirstHeaderOk(s, isRequest, p, ms);
      TilingOfEncodeAll(s, isRequest, p + Ntohs(s, p), end, ms[1..]);
      TilingFrom(s, isRequest, p, end, 4, |ms|);
    }
  }

  lemma PacketFields(s: seq<byte>, kind: byte, ms: seq<Message>)
    requires EncodePacket(kind, ms) <= s && |EncodePacket(kind, ms)| < 65536
    ensures Ntohs(s, 0) == |EncodePacket(kind, ms)|
    ensures s[2] == kind && s[3] == Uchar(|ms|)
    ensures s[4..Ntohs(s, 0)] == EncodeAll(ms)
  {
    var pkt := EncodePacket(kind, ms);
    var h := Htons(|pkt|);
    assert pkt[0] == h[0] && pkt[1] == h[1] && pkt[2] == kind && pkt[3] == Uchar(|ms|);
    assert s[..|pkt|] == pkt;
    assert s[4..|pkt|] == pkt[4..] == EncodeAll(ms);
  }

  lemma LegalBodiesAreShort(isRequest: bool, ms: seq<Message>)
    requires Legal(isRequest, ms)
    ensures forall m :: m in ms ==> |m.body| < 65532
  {
    forall m | m in ms
      ensures |m.body| < 65532
    {
      assert WellFormed(isRequest, m);
    }
  }

  lemma LegalIsTiled(s: seq<byte>, isRequest: bool, ms: seq<Message>)
    requires Readable(s)
    requires Legal(isRequest, ms) && EncodePacket(KindOf(isRequest), ms) <= s
    ensures PacketTiling(s, isRequest, 4)
  {
    PacketFields(s, KindOf(isRequest), ms);
    UcharIsExact(|ms|);
    LegalBodiesAreShort(isRequest, ms);
    TilingOfEncodeAll(s, isRequest, 4, Ntohs(s, 0), ms);
  }

  lemma WholeTilingIsAccepted(s: seq<byte>, isRequest: bool)
    requires Readable(s) && PacketTiling(s, isRequest, 4)
    ensures Ntohs(s, 0) >= 4 && Validate(s, isRequest) == Accepted
  {
    TilingIsWeaker(s, isRequest, 4, Ntohs(s, 0), 4, s[3]);
    AcceptsExactlyTilings(s, isRequest);
  }

  /** What a receiver decodes from an encoded packet is what was sent; no validation is needed for that. */
  lemma ParseOfEncodePacket(s: seq<byte>, kind: byte, ms: seq<Message>)
    requires EncodePacket(kind, ms) <= s && |EncodePacket(kind, ms)| < 65536 && |ms| < 256
    requires forall m :: m in ms ==> |m.body| < 65532
    ensures s[3] as int == |ms| && Parse(s, 4, s[3]) == ms
  {
    PacketFields(s, kind, ms);
    ParseOfEncodeAll(s, 4, Ntohs(s, 0), ms);
  }

  /** Completeness: whatever legal packet a sender encodes is accepted, and decodes to what was sent. */
  lemma LegalIsAccepted(s: seq<byte>, isRequest: bool, ms: seq<Message>)
    requires Readable(s)
    requires Legal(isRequest, ms) && EncodePacket(KindOf(isRequest), ms) <= s
    ensures Validate(s, isRequest) == Accepted && PacketTiling(s, isRequest, 4)
    ensures s[3] as int == |ms| && Parse(s, 4, s[3]) == ms
  {
    LegalIsTiled(s, isRequest, ms);
    WholeTilingIsAccepted(s, isRequest);
    LegalBodiesAreShort(isRequest, ms);
    ParseOfEncodePacket(s, KindOf(isRequest), ms);
  }

  lemma PacketBytes(s: seq<byte>, kind: byte, ms: seq<Message>)
    requires |s| == 4 + |EncodeAll(ms)| < 65536
    requires Ntohs(s, 0) == |s| && s[2] == kind && s[3] == Uchar(|ms|) && s[4..] == EncodeAll(ms)
    ensures EncodePacket(kind, ms) == s
  {
    var h := Htons(|s|);
    assert |s| == s[0] as int * 256 + s[1] as int;
    assert h == [s[0], s[1]];
    assert s == h + [s[2], s[3]] + s[4..];
  }

  lemma TiledBytes(s: seq<byte>, end: nat, kind: byte, ms: seq<Message>)
    requires 4 <= end <= |s| && end < 65536 && Ntohs(s, 0) == end && s[2] == kind && s[3] == Uchar(|ms|)
    requires EncodeAll(ms) == s[4..end]
    ensures EncodePacket(kind, ms) == s[..end]
  {
    var pkt := s[..end];
    assert pkt[4..] == s[4..end];
    PacketBytes(pkt, kind, ms);
  }

  /** Soundness: a packet tiled by whole messages is the encoding of what it decodes to. */
  lemma TiledIsLegal(s: seq<byte>, isRequest: bool)
    requires Readable(s)
    requires PacketTiling(s, isRequest, 4)
    ensures var ms := Parse(s, 4, s[3]);
            && Legal(isRequest, ms) && EncodePacket(KindOf(isRequest), ms) <= s
            && Ntohs(s, 0) == |EncodePacket(KindOf(isRequest), ms)|
  {
    var end := Ntohs(s, 0);
    WholeTilingIsAccepted(s, isRequest);
    EncodeAllOfParse(s, isRequest, 4, end, s[3]);
    ParseIsWellFormed(s, isRequest, 4, end, s[3]);
    UcharIsExact(s[3]);
    TiledBytes(s, end, KindOf(isRequest), Parse(s, 4, s[3]));
  }

  /** In a response the length field counts the header, so no message is short. */
  lemma {:induction false} ResponseTilesAreWhole(s: seq<byte>, p: nat, end: nat, n: nat)
    requires Readable(s) && end <= MAX_PACKET
    ensures Tiling(s, false, p, end, 1, n) ==> Tiling(s, false, p, end, 4, n)
    decreases n
  {
    if n > 0 && p < end {
      ResponseTilesAreWhole(s, p + Ntohs(s, p), end, n - 1);
    }
  }

  /**
   * The validator decides the grammar. A response is accepted exactly when it starts with the encoding of legal
   * messages. A request does so exactly when whole messages tile it: the server's permissiveness about types it does
   * not know also admits messages of 1 to 3 bytes, whose header overlaps what follows. The messages are unique.
   */
  lemma ValidatorDecidesGrammar(s: seq<byte>, isRequest: bool)
    requires Readable(s)
    ensures PacketTiling(s, isRequest, 4) <==>
            exists ms :: Legal(isRequest, ms) && EncodePacket(KindOf(isRequest), ms) <= s
    ensures !isRequest ==>
            (Validate(s, false) == Accepted <==> exists ms :: Legal(false, ms) && EncodePacket(RESPONSE, ms) <= s)
    ensures forall ms, ms' ::
              && Legal(isRequest, ms) && EncodePacket(KindOf(isRequest), ms) <= s
              && Legal(isRequest, ms') && EncodePacket(KindOf(isRequest), ms') <= s
              ==> ms == ms'
  {
    if PacketTiling(s, isRequest, 4) {
      TiledIsLegal(s, isRequest);
    }
    if !isRequest {
      AcceptsExactlyTilings(s, false);
      if PacketHeaderOk(s, false) {
        ResponseTilesAreWhole(s, 4, Ntohs(s, 0), s[3]);
      }
    }
    forall ms | Legal(isRequest, ms) && EncodePacket(KindOf(isRequest), ms) <= s
      ensures PacketTiling(s, isRequest, 4) && Validate(s, isRequest) == Accepted && ms == Parse(s, 4, s[3])
    {
      LegalIsAccepted(s, isRequest, ms);
    }
  }

  /**
   * An accepted request that encodes no legal list: 7 bytes whose only message, of type 7, says it is 3 bytes long.
   */
  lemma OverlappingRequestExists() returns (s: seq<byte>)
    ensures Readable(s) && Validate(s, true) == Accepted
    ensures !exists ms :: Legal(true, ms) && EncodePacket(REQUEST, ms) <= s
  {
    s := [0, 7, REQUEST, 1, 0, 3, 7, 0] + seq(BUFFER, _ => 0);
    assert Ntohs(s, 0) == 7 && Ntohs(s, 4) == 3;
    assert WalkFrom(s, 7, 7, true) == Walked(0, 7);
    assert !PacketTiling(s, true, 4);
    ValidatorDecidesGrammar(s, true);
  }

  // ---------- in numbers ----------

  /** A client may be told that a type is refused that requests can carry and that is not entropy, for four reasons. */
  predicate MayBeRefused(kind: byte, reason: byte) {
    (kind == 4 || 6 <= kind <= 10) && reason <= 3
  }

  predicate EntryMayBeRefused(s: seq<byte>, p: nat, i: nat)
    requires p + 2 * i + 1 < |s|
  {
    MayBeRefused(s[p + 2 * i], s[p + 2 * i + 1])
  }

  predicate AllMayBeRefused(s: seq<byte>, p: nat, n: nat)
    requires p + 2 * n <= |s|
  {
    forall i :: 0 <= i < n ==> EntryMayBeRefused(s, p, i)
  }

  /** Entry i of every reject message of an accepted response is of this kind. */
  lemma AcceptedRejections(s: seq<byte>, m: Message, i: nat)
    requires Readable(s) && Validate(s, false) == Accepted
    requires m in Parse(s, 4, s[3]) && m.kind == 3 && i < m.count as int
    ensures 2 * i + 1 < |m.body| && MayBeRefused(m.body[2 * i], m.body[2 * i + 1])
  {
    AcceptsExactlyTilings(s, false);
    ResponseTilesAreWhole(s, 4, Ntohs(s, 0), s[3]);
    TilingIsWeaker(s, false, 4, Ntohs(s, 0), 4, s[3]);
    ParseIsWellFormed(s, false, 4, Ntohs(s, 0), s[3]);
    assert WellFormed(false, m) && EntryOk(m.body, 0, i);
  }

  lemma OneMessageTiles(s: seq<byte>, isRequest: bool)
    requires Readable(s) && s[3] == 1
    ensures Validate(s, isRequest) == Accepted <==>
            && PacketHeaderOk(s, isRequest) && HeaderOk(s, 4, isRequest)
            && Ntohs(s, 4) > 0 && Ntohs(s, 0) == 4 + Ntohs(s, 4)
  {
    AcceptsExactlyTilings(s, isRequest);
    if PacketHeaderOk(s, isRequest) && 4 < Ntohs(s, 0) {
      assert Tiling(s, isRequest, 4 + Ntohs(s, 4), Ntohs(s, 0), 1, 0) <==> 4 + Ntohs(s, 4) == Ntohs(s, 0);
    }
  }

  lemma EntriesInNumbers(s: seq<byte>, p: nat, n: nat)
    requires p + 2 * n <= |s|
    ensures EntriesOk(s, p, n) <==> AllMayBeRefused(s, p, n)
  {
    forall i: nat | i < n
      ensures EntryOk(s, p, i) <==> EntryMayBeRefused(s, p, i)
    {
    }
  }

  /** Which responses of one message are accepted, byte by byte. */
  lemma OneMessageResponse(s: seq<byte>)
    requires Readable(s) && s[3] == 1
    ensures var kind, count := s[6], s[7] as nat;
            var size := 256 * s[4] as int + s[5] as int;
            Validate(s, false) == Accepted <==>
              && 256 * s[0] as int + s[1] as int == 4 + size <= 65507
              && s[2] == 2
              && (|| (kind == 3 && size == 4 + 2 * count && count > 0
                      && AllMayBeRefused(s, 8, count))
                  || (kind == 4 && size == 4 + 6 * count)
                  || (kind == 5 && size == 4 + count)
                  || (kind == 6 && size == 4 + 18 * count))
  {
    OneMessageTiles(s, false);
    EntriesInNumbers(s, 8, s[7]);
  }

  /** Which requests of one message are. */
  lemma OneMessageRequest(s: seq<byte>)
    requires Readable(s) && s[3] == 1
    ensures var kind, size := s[6], 256 * s[4] as int + s[5] as int;
            Validate(s, true) == Accepted <==>
              && 256 * s[0] as int + s[1] as int == 4 + size <= 65507
              && s[2] == 1
              && ((4 <= kind <= 6 && size == 4) || (kind >= 7 && size > 0))
  {
    OneMessageTiles(s, true);
  }

  // ---------- termination ----------

  /** The cursor of the source's loop, or Exited once the loop was left through its guard or a `return`. */
  datatype Loop = Running(cursor: nat) | Exited

  /** The loop after n iterations from cursor p, as the source runs it: without looking for a zero length. */
  function After(s: seq<byte>, p: nat, end: nat, isRequest: bool, n: nat): (l: Loop)
    requires Readable(s) && end <= MAX_PACKET
    decreases n
  {
    if n == 0 then Running(p)
    else if p >= end || !HeaderOk(s, p, isRequest) then Exited
    else After(s, p + Ntohs(s, p), end, isRequest, n - 1)
  }

  lemma {:induction false} LoopsForever(s: seq<byte>, p: nat, end: nat, isRequest: bool, n: nat)
    requires Readable(s) && end <= MAX_PACKET
    requires WalkFrom(s, p, end, isRequest) == Loops
    ensures After(s, p, end, isRequest, n).Running?
    decreases n
  {
    if n > 0 {
      LoopsForever(s, p + Ntohs(s, p), end, isRequest, n - 1);
    }
  }

  lemma {:induction false} Exits(s: seq<byte>, p: nat, end: nat, isRequest: bool) returns (n: nat)
    requires Readable(s) && end <= MAX_PACKET
    requires WalkFrom(s, p, end, isRequest) != Loops
    ensures After(s, p, end, isRequest, n) == Exited
    decreases end - p
  {
    if p >= end || !HeaderOk(s, p, isRequest) {
      n := 1;
    } else {
      n := Exits(s, p + Ntohs(s, p), end, isRequest);
      n := n + 1;
    }
  }

  /** A loop that never exits reaches a message of length zero, of a type the server does not interpret. */
  lemma {:induction false} StallsAtZeroLength(s: seq<byte>, p: nat, end: nat, isRequest: bool) returns (n: nat)
    requires Readable(s) && end <= MAX_PACKET
    requires WalkFrom(s, p, end, isRequest) == Loops
    ensures var l := After(s, p, end, isRequest, n);
            && l.Running? && l.cursor < end
            && HeaderOk(s, l.cursor, isRequest) && Ntohs(s, l.cursor) == 0 && s[l.cursor + 2] > IP6PEERS
    ensures isRequest
    decreases end - p
  {
    if Ntohs(s, p) == 0 {
      n := 0;
    } else {
      n := StallsAtZeroLength(s, p + Ntohs(s, p), end, isRequest);
      n := n + 1;
    }
  }

  /** The verdict Endless says exactly that the source's loop runs for ever; a response never causes that. */
  lemma EndlessMeansForever(s: seq<byte>, isRequest: bool)
    requires Readable(s) && PacketHeaderOk(s, isRequest)
    ensures Validate(s, isRequest) == Endless <==>
            forall n: nat :: After(s, 4, Ntohs(s, 0), isRequest, n).Running?
    ensures Validate(s, isRequest) == Endless ==> isRequest
  {
    var end := Ntohs(s, 0);
    if Validate(s, isRequest) == Endless {
      forall n: nat
        ensures After(s, 4, end, isRequest, n).Running?
      {
        LoopsForever(s, 4, end, isRequest, n);
      }
      var _ := StallsAtZeroLength(s, 4, end, isRequest);
    } else {
      var n := Exits(s, 4, end, isRequest);
    }
  }

  lemma {:induction false} ZeroLengthStalls(s: seq<byte>, p: nat, end: nat, isRequest: bool, n: nat)
    requires Readable(s) && end <= MAX_PACKET
    requires var l := After(s, p, end, isRequest, n);
             && l.Running? && l.cursor < end
             && HeaderOk(s, l.cursor, isRequest) && Ntohs(s, l.cursor) == 0
    ensures WalkFrom(s, p, end, isRequest) == Loops
    decreases n
  {
    if n > 0 && Ntohs(s, p) > 0 {
      ZeroLengthStalls(s, p + Ntohs(s, p), end, isRequest, n - 1);
    }
  }

  /** Exactly when validating does not terminate: the loop comes to a valid header whose length field is zero. */
  lemma EndlessExactly(s: seq<byte>, isRequest: bool)
    requires Readable(s) && PacketHeaderOk(s, isRequest)
    ensures Validate(s, isRequest) == Endless <==>
            exists n: nat ::
              var l := After(s, 4, Ntohs(s, 0), isRequest, n);
              && l.Running? && l.cursor < Ntohs(s, 0)
              && HeaderOk(s, l.cursor, isRequest) && Ntohs(s, l.cursor) == 0
  {
    var end := Ntohs(s, 0);
    if Validate(s, isRequest) == Endless {
      var n := StallsAtZeroLength(s, 4, end, isRequest);
    }
    forall n: nat |
      var l := After(s, 4, end, isRequest, n);
      && l.Running? && l.cursor < end && HeaderOk(s, l.cursor, isRequest) && Ntohs(s, l.cursor) == 0
      ensures Validate(s, isRequest) == Endless
    {
      ZeroLengthStalls(s, 4, end, isRequest, n);
    }
  }

  /** A request that no run of the validator finishes: one message of type 7 whose length field is zero. */
  lemma EndlessRequestExists() returns (s: seq<byte>)
    ensures Readable(s) && Validate(s, true) == Endless
  {
    s := [0, 8, REQUEST, 1, 0, 0, 7, 0] + seq(BUFFER, _ => 0);
  }

  // ---------- behind the largest packet ----------

  /** The header at p, and the entries if it is a reject message of the right size, end within the largest packet. */
  predicate HeaderInside(s: seq<byte>, p: nat, isRequest: bool)
    requires p + MAX_REJECT_MESSAGE <= |s|
  {
    && p + 4 <= MAX_PACKET
    && (!isRequest && s[p + 2] == REJECT && Ntohs(s, p) == 4 + 2 * s[p + 3] as nat ==> p + Ntohs(s, p) <= MAX_PACKET)
  }

  /** So does every header the loop comes to. */
  predicate WalksInside(s: seq<byte>, p: nat, end: nat, isRequest: bool)
    requires Readable(s) && end <= MAX_PACKET
    decreases end - p
  {
    p < end ==>
      && HeaderInside(s, p, isRequest)
      && (HeaderOk(s, p, isRequest) && Ntohs(s, p) > 0 ==> WalksInside(s, p + Ntohs(s, p), end, isRequest))
  }

  predicate SamePacket(s: seq<byte>, t: seq<byte>) {
    Readable(s) && Readable(t) && forall i :: 0 <= i < MAX_PACKET ==> s[i] == t[i]
  }

  lemma SameEntries(s: seq<byte>, t: seq<byte>, p: nat, n: nat)
    requires SamePacket(s, t) && p + 2 * n <= MAX_PACKET
    ensures EntriesOk(s, p, n) <==> EntriesOk(t, p, n)
  {
    forall i: nat | i < n
      ensures EntryOk(s, p, i) <==> EntryOk(t, p, i)
    {
    }
  }

  lemma SameHeader(s: seq<byte>, t: seq<byte>, p: nat, isRequest: bool)
    requires SamePacket(s, t) && p < MAX_PACKET && HeaderInside(s, p, isRequest)
    ensures HeaderOk(s, p, isRequest) <==> HeaderOk(t, p, isRequest)
    ensures Ntohs(s, p) == Ntohs(t, p)
  {
    var count := s[p + 3] as nat;
    if p + 4 + 2 * count <= MAX_PACKET {
      SameEntries(s, t, p + 4, count);
    }
  }

  lemma {:induction false} SameWalk(s: seq<byte>, t: seq<byte>, p: nat, end: nat, isRequest: bool)
    requires SamePacket(s, t) && end <= MAX_PACKET && WalksInside(s, p, end, isRequest)
    ensures WalkFrom(s, p, end, isRequest) == WalkFrom(t, p, end, isRequest)
    decreases end - p
  {
    if p < end {
      SameHeader(s, t, p, isRequest);
      if HeaderOk(s, p, isRequest) && Ntohs(s, p) > 0 {
        SameWalk(s, t, p + Ntohs(s, p), end, isRequest);
      }
    }
  }

  /** What lies behind the largest packet does not matter if all headers that are looked at lie inside. */
  lemma SlackIsInvisible(s: seq<byte>, t: seq<byte>, isRequest: bool)
    requires SamePacket(s, t)
    requires PacketHeaderOk(s, isRequest) ==> WalksInside(s, 4, Ntohs(s, 0), isRequest)
    ensures Validate(s, isRequest) == Validate(t, isRequest)
  {
    if PacketHeaderOk(s, isRequest) {
      SameWalk(s, t, 4, Ntohs(s, 0), isRequest);
    }
  }

  /** The longest packets of each kind whose headers always do, wherever they start. */
  function SafeEnd(isRequest: bool): (n: nat) {
    MAX_PACKET + 1 - if isRequest then 4 else MAX_REJECT_MESSAGE
  }

  lemma {:induction false} ShortPacketsStayInside(s: seq<byte>, p: nat, end: nat, isRequest: bool)
    requires Readable(s) && end <= SafeEnd(isRequest)
    ensures WalksInside(s, p, end, isRequest)
    decreases end - p
  {
    if p < end && HeaderOk(s, p, isRequest) && Ntohs(s, p) > 0 {
      ShortPacketsStayInside(s, p + Ntohs(s, p), end, isRequest);
    }
  }

  /** Only requests of more than 65504 bytes and responses of more than 64994 are in question. */
  lemma ShortPacketsAreDecided(s: seq<byte>, t: seq<byte>, isRequest: bool)
    requires SamePacket(s, t) && Ntohs(s, 0) <= SafeEnd(isRequest)
    ensures Validate(s, isRequest) == Validate(t, isRequest)
  {
    ShortPacketsStayInside(s, 4, Ntohs(s, 0), isRequest);
    SlackIsInvisible(s, t, isRequest);
  }

  /** A request of 65507 bytes whose second message starts two bytes before its end. */
  function LongRequest(): (s: seq<byte>)
    ensures |s| == MAX_PACKET
  {
    [255, 227, REQUEST, 2, 255, 221, 7, 0] + seq(65497, _ => 0) + [0, 2]
  }

  /** There what lies behind the packet does decide: it is the type of the second message. */
  lemma SlackDecidesLongRequest(slack: seq<byte>)
    requires |slack| == BUFFER - MAX_PACKET
    ensures Validate(LongRequest() + slack, true) == if slack[0] >= 7 then Accepted else Refused
  {
    var s := LongRequest() + slack;
    assert Ntohs(s, 0) == 65507 && Ntohs(s, 4) == 65501;
    assert s[65505] == 0 && s[65506] == 2 && s[65507] == slack[0];
    assert Ntohs(s, 65505) == 2;
    assert WalkFrom(s, 65507, 65507, true) == Walked(0, 65507);
    assert WalkFrom(s, 65505, 65507, true) == if slack[0] >= 7 then Walked(1, 65507) else BadHeader;
  }
}
