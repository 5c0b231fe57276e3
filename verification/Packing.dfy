/** How server.cpp fills one response, as values: answers first, rejections reserved for and emitted last. */
module Packing {
  import opened Options
  import opened Wire
  import opened Records

  /** The two bytes of a request message that the server reads. */
  datatype Ask = Ask(kind: byte, count: byte)

  /**
   * What the server holds while it answers one request: the packet budget, the cached counts and active peers of each
   * family, which peer types it serves, and what its random device offers when message i is answered.
   */
  datatype Env = Env(mtu: nat, known4: nat, known6: nat, peers4: seq<Peer>, peers6: seq<Peer>,
                     enable4: bool, enable6: bool, device: nat -> seq<byte>)
  {
    function Known(ipv6: bool): (n: nat) { if ipv6 then known6 else known4 }
    function PeersOf(ipv6: bool): (ps: seq<Peer>) { if ipv6 then peers6 else peers4 }
    function Serves(ipv6: bool): (b: bool) { if ipv6 then enable6 else enable4 }
  }

  const MAX_IP4_PACKET_SIZE: nat := 532
  const MAX_IP6_PACKET_SIZE: nat := 1236

  /** The budgets are the two packet sizes, and no cached count exceeds the number of active servers. */
  predicate Sound(env: Env) {
    && (env.mtu == MAX_IP4_PACKET_SIZE || env.mtu == MAX_IP6_PACKET_SIZE)
    && env.known4 <= |env.peers4| && AllOf(env.peers4, false)
    && env.known6 <= |env.peers6| && AllOf(env.peers6, true)
  }

  /** A read returns at most the bytes asked for; nothing on an error or at the end of file. */
  function Read(offered: seq<byte>, size: nat): (s: seq<byte>)
    ensures |s| <= size
  {
    if |offered| <= size then offered else offered[..size]
  }

  function Min(a: nat, b: nat): (m: nat) {
    if a <= b then a else b
  }

  /** The largest number of entries, at most want, that fits in room together with a message header. */
  function Fit(room: int, size: nat, want: nat): (n: nat)
    requires size > 0
  {
    if room < 4 then 0 else Min(want, (room - 4) / size)
  }

  /** The largest number of peer entries, at most want, that fits in room together with a message header. */
  function PeersFit(room: int, ipv6: bool, want: nat): (n: nat) {
    if ipv6 then Fit(room, 18, want) else Fit(room, 6, want)
  }

  lemma FitIsLargest(room: int, size: nat, want: nat)
    requires size > 0
    ensures var n := Fit(room, size, want);
            && n <= want
            && (n > 0 ==> 4 + size * n <= room)
            && (n < want ==> room < 4 + size * (n + 1))
  {
    if room >= 4 {
      var q := (room - 4) / size;
      assert room - 4 == q * size + (room - 4) % size;
      var n := Min(want, q);
      assert n * size <= q * size;
      assert (q + 1) * size == q * size + size;
    }
  }

  lemma PeersFitIsLargest(room: int, ipv6: bool, want: nat)
    ensures var n := PeersFit(room, ipv6, want);
            && n <= want
            && (n > 0 ==> 4 + PeersSize(ipv6, n) <= room)
            && (n < want ==> room < 4 + PeersSize(ipv6, n + 1))
  {
    if ipv6 {
      FitIsLargest(room, 18, want);
    } else {
      FitIsLargest(room, 6, want);
    }
  }

  // ---------- the answers ----------

  function AnswerPeers(env: Env, ipv6: bool, count: nat, room: int): (m: Option<Message>)
    requires Sound(env)
  {
    var want := if count == 0 then env.Known(ipv6) else Min(env.Known(ipv6), count);
    var n := PeersFit(room, ipv6, want);
    if n == 0 then None
    else Some(Message(PeerKind(ipv6), Uchar(n), PeersBytes(env.PeersOf(ipv6)[..n])))
  }

  function AnswerEntropy(env: Env, i: nat, count: nat, room: int): (m: Option<Message>) {
    var size := if count == 0 then DEFAULT_ENTROPY_SIZE as nat else count;
    var n := Fit(room, 1, size);
    var data := Read(env.device(i), n);
    if n == 0 || data == [] then None else Some(Message(ENTROPY, Uchar(|data|), data))
  }

  datatype Pack = Pack(remaining: int, answers: seq<Message>, rejected: seq<byte>)

  function Reserve(rejections: nat): (n: nat) {
    if rejections > 0 then 4 + 2 * rejections else 0
  }

  /** CalculateRemainingBytes: what is left once the rejections recorded so far have their place. */
  function Room(p: Pack): (n: int) {
    p.remaining - Reserve(|p.rejected|)
  }

  function Add(p: Pack, m: Option<Message>): (q: Pack) {
    if m.None? then p
    else p.(remaining := p.remaining - |Encode(m.value)|, answers := p.answers + [m.value])
  }

  function Reply(env: Env, i: nat, ask: Ask, room: int): (m: Option<Message>)
    requires Sound(env)
  {
    if ask.kind == ENTROPY then AnswerEntropy(env, i, ask.count, room)
    else AnswerPeers(env, ask.kind == IP6PEERS, ask.count, room)
  }

  predicate Rejects(env: Env, kind: byte) {
    kind != ENTROPY && !(kind == IP4PEERS && env.enable4) && !(kind == IP6PEERS && env.enable6)
  }

  /** Message i of the request is answered, if it fits, or rejected. */
  function Step(env: Env, i: nat, ask: Ask, p: Pack): (q: Pack)
    requires Sound(env)
  {
    if Rejects(env, ask.kind) then p.(rejected := p.rejected + [ask.kind])
    else Add(p, Reply(env, i, ask, Room(p)))
  }

  /** One turn of the loop: nothing changes after the room is used up. */
  function Turn(env: Env, i: nat, ask: Ask, p: Pack): (q: Pack)
    requires Sound(env)
  {
    if Room(p) <= 0 then p else Step(env, i, ask, p)
  }

  /** The state once the first n messages have been looked at. */
  function Packed(env: Env, asks: seq<Ask>, n: nat): (p: Pack)
    requires Sound(env) && n <= |asks|
  {
    if n == 0 then Pack(env.mtu - 4, [], [])
    else Turn(env, n - 1, asks[n - 1], Packed(env, asks, n - 1))
  }

  function RejectBody(kinds: seq<byte>): (s: seq<byte>)
    ensures |s| == 2 * |kinds|
  {
    if kinds == [] then [] else RejectBody(kinds[..|kinds| - 1]) + [kinds[|kinds| - 1], UNSUPPORTED]
  }

  /** How many of the recorded rejections go out. */
  function Emitted(p: Pack): (n: nat)
    ensures n <= |p.rejected|
  {
    Fit(p.remaining, 2, |p.rejected|)
  }

  function RejectMessage(p: Pack): (m: Message) {
    Message(REJECT, Uchar(Emitted(p)), RejectBody(p.rejected[..Emitted(p)]))
  }

  /** The messages of the response, the reject message first. */
  function Messages(p: Pack): (ms: seq<Message>) {
    (if Emitted(p) > 0 then [RejectMessage(p)] else []) + p.answers
  }

  function Response(env: Env, asks: seq<Ask>): (ms: seq<Message>)
    requires Sound(env)
  {
    Messages(Packed(env, asks, |asks|))
  }

  // ---------- the budget ----------

  lemma PeersPrefixSize(ps: seq<Peer>, n: nat, ipv6: bool)
    requires AllOf(ps, ipv6) && n <= |ps|
    ensures |PeersBytes(ps[..n])| == ContentSize(PeerKind(ipv6), n)
  {
    PeersBytesSize(ps[..n], ipv6);
  }

  lemma PeersAnswerFits(env: Env, ipv6: bool, count: nat, room: int)
    requires Sound(env) && room <= env.mtu - 4
    ensures var m := AnswerPeers(env, ipv6, count, room);
            m.Some? ==> WellFormed(false, m.value) && |Encode(m.value)| <= room && m.value.count > 0
  {
    var want := if count == 0 then env.Known(ipv6) else Min(env.Known(ipv6), count);
    PeersFitIsLargest(room, ipv6, want);
    PeersPrefixSize(env.PeersOf(ipv6), PeersFit(room, ipv6, want), ipv6);
  }

  /** Every answer is a well-formed response message that fits in its room, and its count is not truncated. */
  lemma AnswersFit(env: Env, i: nat, ask: Ask, room: int)
    requires Sound(env) && room <= env.mtu - 4
    requires ask.kind == ENTROPY || ask.kind == IP4PEERS || ask.kind == IP6PEERS
    ensures var m := Reply(env, i, ask, room);
            m.Some? ==> WellFormed(false, m.value) && |Encode(m.value)| <= room && m.value.count > 0
  {
    if ask.kind == ENTROPY {
      FitIsLargest(room, 1, if ask.count == 0 then DEFAULT_ENTROPY_SIZE as nat else ask.count as nat);
    } else {
      PeersAnswerFits(env, ask.kind == IP6PEERS, ask.count, room);
    }
  }

  /**
   * Nothing is lost: what is left plus what the answers take is the budget; and all rejections but the newest are
   * already paid for.
   */
  predicate Balanced(env: Env, p: Pack) {
    && p.remaining + |EncodeAll(p.answers)| == env.mtu - 4
    && p.remaining >= 0
    && (p.rejected != [] ==> p.remaining > Reserve(|p.rejected| - 1))
    && (forall m :: m in p.answers ==> WellFormed(false, m))
  }

  /** Each message of the request leaves at most one answer or rejection. */
  function Recorded(p: Pack): (n: nat) {
    |p.answers| + |p.rejected|
  }

  lemma PackedStep(env: Env, asks: seq<Ask>, n: nat)
    requires Sound(env) && 0 < n <= |asks| && Room(Packed(env, asks, n - 1)) > 0
    ensures Packed(env, asks, n) == Step(env, n - 1, asks[n - 1], Packed(env, asks, n - 1))
  {
  }

  lemma StepBalances(env: Env, i: nat, ask: Ask, p: Pack, q: Pack)
    requires Sound(env) && Balanced(env, p) && Room(p) > 0 && q == Step(env, i, ask, p)
    ensures Balanced(env, q) && Recorded(q) <= Recorded(p) + 1
    ensures Room(q) < 0 ==> Rejects(env, ask.kind)
  {
    if !Rejects(env, ask.kind) {
      AnswersFit(env, i, ask, Room(p));
      var m := Reply(env, i, ask, Room(p));
      if m.Some? {
        EncodeAllAppend(p.answers, [m.value]);
        EncodeAllSingleton(m.value);
      }
    }
  }

  lemma TurnBalances(env: Env, i: nat, ask: Ask, p: Pack, q: Pack)
    requires Sound(env) && Balanced(env, p) && q == Turn(env, i, ask, p)
    ensures Balanced(env, q) && Recorded(q) <= Recorded(p) + 1
  {
    if Room(p) > 0 {
      StepBalances(env, i, ask, p, q);
    }
  }

  lemma NextBalances(env: Env, asks: seq<Ask>, n: nat, p: Pack, q: Pack)
    requires Sound(env) && 0 < n <= |asks|
    requires p == Packed(env, asks, n - 1) && q == Packed(env, asks, n)
    requires Balanced(env, p) && Recorded(p) <= n - 1
    ensures Balanced(env, q) && Recorded(q) <= n
  {
    TurnBalances(env, n - 1, asks[n - 1], p, q);
  }

  /** Budget conservation at every point of the loop. */
  lemma {:induction false} PackingBalances(env: Env, asks: seq<Ask>, n: nat)
    requires Sound(env) && n <= |asks|
    ensures Balanced(env, Packed(env, asks, n)) && Recorded(Packed(env, asks, n)) <= n
    decreases n
  {
    if n > 0 {
      PackingBalances(env, asks, n - 1);
      NextBalances(env, asks, n, Packed(env, asks, n - 1), Packed(env, asks, n));
    }
  }

  lemma {:induction false} StaysPacked(env: Env, asks: seq<Ask>, n: nat, k: nat)
    requires Sound(env) && n <= k <= |asks|
    requires Room(Packed(env, asks, n)) <= 0
    ensures Packed(env, asks, k) == Packed(env, asks, n)
    decreases k
  {
    if k > n {
      StaysPacked(env, asks, n, k - 1);
    }
  }

  /**
   * Reject reservation: of the recorded rejections all but possibly the newest are emitted, in order; one is dropped
   * exactly when the room ran out, and then the loop had stopped.
   */
  lemma AtMostOneRejectionIsDropped(env: Env, asks: seq<Ask>, n: nat)
    requires Sound(env) && n <= |asks|
    ensures var p := Packed(env, asks, n);
            && |p.rejected| - 1 <= Emitted(p) <= |p.rejected|
            && (Emitted(p) < |p.rejected| <==> Room(p) < 0)
            && (Emitted(p) < |p.rejected| ==> forall k :: n <= k <= |asks| ==> Packed(env, asks, k) == p)
  {
    PackingBalances(env, asks, n);
    var p := Packed(env, asks, n);
    FitIsLargest(p.remaining, 2, |p.rejected|);
    if Room(p) <= 0 {
      forall k | n <= k <= |asks|
        ensures Packed(env, asks, k) == p
      {
        StaysPacked(env, asks, n, k);
      }
    }
  }

  lemma MessagesSize(p: Pack)
    ensures |EncodeAll(Messages(p))| == |EncodeAll(p.answers)| + (if Emitted(p) > 0 then 4 + 2 * Emitted(p) else 0)
  {
    if Emitted(p) > 0 {
      EncodeAllAppend([RejectMessage(p)], p.answers);
      EncodeAllSingleton(RejectMessage(p));
    } else {
      assert Messages(p) == p.answers;
    }
  }

  /** The messages fit the budget with their packet header: the assertion before sending never fails. */
  lemma ResponseFits(env: Env, asks: seq<Ask>)
    requires Sound(env)
    ensures |EncodePacket(RESPONSE, Response(env, asks))| <= env.mtu
  {
    PackingBalances(env, asks, |asks|);
    var p := Packed(env, asks, |asks|);
    FitIsLargest(p.remaining, 2, |p.rejected|);
    MessagesSize(p);
  }

  lemma StepGrows(env: Env, i: nat, ask: Ask, p: Pack)
    requires Sound(env)
    ensures p.answers <= Step(env, i, ask, p).answers && p.rejected <= Step(env, i, ask, p).rejected
  {
  }

  lemma {:induction false} PackGrows(env: Env, asks: seq<Ask>, k: nat, n: nat)
    requires Sound(env) && k <= n <= |asks|
    ensures Packed(env, asks, k).answers <= Packed(env, asks, n).answers
    ensures Packed(env, asks, k).rejected <= Packed(env, asks, n).rejected
    decreases n
  {
    if k < n {
      PackGrows(env, asks, k, n - 1);
      var p := Packed(env, asks, n - 1);
      if Room(p) > 0 {
        PackedStep(env, asks, n);
        StepGrows(env, n - 1, asks[n - 1], p);
      }
    }
  }

  lemma {:induction false} PrefixPacks(env: Env, asks: seq<Ask>, k: nat, n: nat)
    requires Sound(env) && n <= k <= |asks|
    ensures Packed(env, asks[..k], n) == Packed(env, asks, n)
    decreases n
  {
    if n > 0 {
      PrefixPacks(env, asks, k, n - 1);
    }
  }

  /** Preference order: later messages of a request neither change nor displace the answers to earlier ones. */
  lemma {:induction false} EarlierAnswersStand(env: Env, asks: seq<Ask>, k: nat)
    requires Sound(env) && k <= |asks|
    ensures Packed(env, asks[..k], k) == Packed(env, asks, k)
    ensures Packed(env, asks, k).answers <= Packed(env, asks, |asks|).answers
    ensures Packed(env, asks, k).rejected <= Packed(env, asks, |asks|).rejected
  {
    PrefixPacks(env, asks, k, k);
    PackGrows(env, asks, k, |asks|);
  }

  /** No peer count is lost when it is narrowed to a byte: at most 204 peers fit in an answer. */
  lemma PeerCountsFitInByte(room: int, ipv6: bool, want: nat)
    requires room <= MAX_IP6_PACKET_SIZE - 4
    ensures Uchar(PeersFit(room, ipv6, want)) as int == PeersFit(room, ipv6, want) <= 204
  {
    var n := PeersFit(room, ipv6, want);
    PeersFitIsLargest(room, ipv6, want);
    assert PeersSize(ipv6, n) >= 6 * n;
    UcharIsExact(n);
  }

  /** What a validated request looks like to the server. */
  predicate Valid(asks: seq<Ask>) {
    1 <= |asks| <= 255 && forall a :: a in asks ==> a.kind >= REQUEST_MSG_MIN
  }

  /** Nor the counts of rejections and of messages: a response has no more of them than its request has messages. */
  lemma ResponseCountsFitInByte(env: Env, asks: seq<Ask>)
    requires Sound(env) && Valid(asks)
    ensures var n := Emitted(Packed(env, asks, |asks|)); Uchar(n) as int == n <= |asks|
    ensures var n := |Response(env, asks)|; Uchar(n) as int == n <= |asks|
  {
    PackingBalances(env, asks, |asks|);
    UcharIsExact(Emitted(Packed(env, asks, |asks|)));
    UcharIsExact(|Response(env, asks)|);
  }

  // ---------- what the client will accept ----------

  /** Entry i of a reject message is (kind, unsupported). */
  predicate Unsupports(body: seq<byte>, i: nat, kind: byte) {
    2 * i + 2 <= |body| && body[2 * i] == kind && body[2 * i + 1] == UNSUPPORTED
  }

  lemma {:induction false} RejectBodyEntries(kinds: seq<byte>)
    ensures forall i: nat :: i < |kinds| ==> Unsupports(RejectBody(kinds), i, kinds[i])
    decreases |kinds|
  {
    if kinds != [] {
      var n := |kinds| - 1;
      RejectBodyEntries(kinds[..n]);
      forall i: nat | i < |kinds|
        ensures Unsupports(RejectBody(kinds), i, kinds[i])
      {
        assert i < n ==> Unsupports(RejectBody(kinds[..n]), i, kinds[..n][i]);
      }
    }
  }

  /** Every type named in the reject message is one a client may see. */
  predicate KnownKinds(kinds: seq<byte>) {
    forall k :: k in kinds ==> k < MSG_TYPE_MAX
  }

  lemma EntriesNameKinds(body: seq<byte>, kinds: seq<byte>)
    requires |body| == 2 * |kinds|
    requires forall i: nat :: i < |kinds| ==> Unsupports(body, i, kinds[i])
    requires forall k :: k in kinds ==> REQUEST_MSG_MIN <= k && k != ENTROPY
    ensures EntriesOk(body, 0, |kinds|) <==> KnownKinds(kinds)
  {
    forall i: nat | i < |kinds|
      ensures EntryOk(body, 0, i) <==> kinds[i] < MSG_TYPE_MAX
    {
      assert Unsupports(body, i, kinds[i]) && kinds[i] in kinds;
    }
    if EntriesOk(body, 0, |kinds|) {
      forall k | k in kinds
        ensures k < MSG_TYPE_MAX
      {
        var i: nat :| i < |kinds| && kinds[i] == k;
        assert EntryOk(body, 0, i);
      }
    }
    if KnownKinds(kinds) {
      forall i | 0 <= i < |kinds|
        ensures EntryOk(body, 0, i)
      {
        assert kinds[i] in kinds;
      }
    }
  }

  lemma {:induction false} RejectedWereAsked(env: Env, asks: seq<Ask>, n: nat)
    requires Sound(env) && n <= |asks|
    ensures forall k :: k in Packed(env, asks, n).rejected ==>
              k != ENTROPY && exists i :: 0 <= i < n && asks[i].kind == k
    decreases n
  {
    if n > 0 {
      RejectedWereAsked(env, asks, n - 1);
    }
  }

  lemma RejectedKinds(env: Env, asks: seq<Ask>, n: nat)
    requires Sound(env) && Valid(asks) && n <= |asks|
    ensures forall k :: k in Packed(env, asks, n).rejected ==> REQUEST_MSG_MIN <= k && k != ENTROPY
  {
    RejectedWereAsked(env, asks, n);
  }

  lemma RejectMessageOk(p: Pack)
    requires 0 < Emitted(p) <= 255
    requires forall k :: k in p.rejected ==> REQUEST_MSG_MIN <= k && k != ENTROPY
    ensures WellFormed(false, RejectMessage(p)) <==> KnownKinds(p.rejected[..Emitted(p)])
  {
    var kinds := p.rejected[..Emitted(p)];
    forall k | k in kinds
      ensures REQUEST_MSG_MIN <= k && k != ENTROPY
    {
      assert k in p.rejected;
    }
    RejectBodyEntries(kinds);
    EntriesNameKinds(RejectBody(kinds), kinds);
  }

  /** The kinds the reject message names. */
  function Named(env: Env, asks: seq<Ask>): (kinds: seq<byte>)
    requires Sound(env)
  {
    var p := Packed(env, asks, |asks|);
    p.rejected[..Emitted(p)]
  }

  /** The response read for itself: it is legal if it holds a message and its rejections name known types. */
  lemma LegalByContent(env: Env, asks: seq<Ask>)
    requires Sound(env) && Valid(asks)
    ensures Legal(false, Response(env, asks)) <==> Response(env, asks) != [] && KnownKinds(Named(env, asks))
  {
    var p, ms := Packed(env, asks, |asks|), Response(env, asks);
    PackingBalances(env, asks, |asks|);
    ResponseFits(env, asks);
    if Emitted(p) > 0 {
      RejectedKinds(env, asks, |asks|);
      RejectMessageOk(p);
      assert ms[0] == RejectMessage(p) && ms[0] in ms;
    } else {
      assert p.rejected[..Emitted(p)] == [];
    }
  }

  // ---------- which requests get no response ----------

  /** The server has nothing to say to message i: no random byte, or no server of a peer type it serves. */
  predicate Idle(env: Env, i: nat, ask: Ask) {
    if ask.kind == ENTROPY then env.device(i) == []
    else !Rejects(env, ask.kind) && env.Known(ask.kind == IP6PEERS) == 0
  }

  lemma FitsSome(room: int, size: nat, want: nat)
    requires 0 < size && 4 + size <= room && 0 < want
    ensures 0 < Fit(room, size, want) <= want
  {
    FitIsLargest(room, size, want);
    assert size * (0 + 1) == size;
  }

  lemma PeersIdleStep(env: Env, ipv6: bool, count: nat, room: int)
    requires Sound(env) && room >= 22
    ensures AnswerPeers(env, ipv6, count, room).None? <==> env.Known(ipv6) == 0
  {
    var want := if count == 0 then env.Known(ipv6) else Min(env.Known(ipv6), count);
    if want > 0 {
      FitsSome(room, if ipv6 then 18 else 6, want);
    } else {
      PeersFitIsLargest(room, ipv6, want);
    }
  }

  lemma EntropyIdleStep(env: Env, i: nat, count: nat, room: int)
    requires room >= 5
    ensures AnswerEntropy(env, i, count, room).None? <==> env.device(i) == []
  {
    FitsSome(room, 1, if count == 0 then DEFAULT_ENTROPY_SIZE as nat else count);
  }

  /** With room for any entry, a message leaves no trace exactly if it is idle. */
  lemma IdleStep(env: Env, i: nat, ask: Ask, p: Pack)
    requires Sound(env) && Room(p) >= 22
    ensures Idle(env, i, ask) ==> Step(env, i, ask, p) == p
    ensures !Idle(env, i, ask) ==> Recorded(Step(env, i, ask, p)) > Recorded(p)
  {
    if ask.kind == ENTROPY {
      EntropyIdleStep(env, i, ask.count, Room(p));
    } else if !Rejects(env, ask.kind) {
      PeersIdleStep(env, ask.kind == IP6PEERS, ask.count, Room(p));
    }
  }

  lemma {:induction false} IdlePacks(env: Env, asks: seq<Ask>, n: nat)
    requires Sound(env) && n <= |asks|
    requires forall i :: 0 <= i < n ==> Idle(env, i, asks[i])
    ensures Packed(env, asks, n) == Pack(env.mtu - 4, [], [])
    decreases n
  {
    if n > 0 {
      IdlePacks(env, asks, n - 1);
      IdleStep(env, n - 1, asks[n - 1], Packed(env, asks, n - 1));
    }
  }

  /** The first message that is not idle leaves an answer or a rejection. */
  lemma {:induction false} BusyPacks(env: Env, asks: seq<Ask>, n: nat)
    requires Sound(env) && n <= |asks|
    requires exists i :: 0 <= i < n && !Idle(env, i, asks[i])
    ensures Recorded(Packed(env, asks, n)) > 0
    decreases n
  {
    if i :| 0 <= i < n - 1 && !Idle(env, i, asks[i]) {
      BusyPacks(env, asks, n - 1);
      PackGrows(env, asks, n - 1, n);
    } else {
      IdlePacks(env, asks, n - 1);
      IdleStep(env, n - 1, asks[n - 1], Packed(env, asks, n - 1));
      PackedStep(env, asks, n);
    }
  }

  /** If the room has run out, it was a rejection that used it up: an answer came before, or another rejection. */
  lemma RecordedIsSent(env: Env, asks: seq<Ask>)
    requires Sound(env)
    ensures Recorded(Packed(env, asks, |asks|)) > 0 ==> Messages(Packed(env, asks, |asks|)) != []
  {
    var p := Packed(env, asks, |asks|);
    PackingBalances(env, asks, |asks|);
    AtMostOneRejectionIsDropped(env, asks, |asks|);
    if p.answers == [] {
      assert p.remaining == env.mtu - 4;
    }
  }

  /** The server has nothing to say to any message of the request. */
  predicate Silent(env: Env, asks: seq<Ask>) {
    forall i :: 0 <= i < |asks| ==> Idle(env, i, asks[i])
  }

  /** Which requests get a response without messages: those the server has nothing to say to. */
  lemma ResponseIsEmptyExactly(env: Env, asks: seq<Ask>)
    requires Sound(env)
    ensures Response(env, asks) == [] <==> Silent(env, asks)
  {
    if Silent(env, asks) {
      IdlePacks(env, asks, |asks|);
    } else {
      BusyPacks(env, asks, |asks|);
      RecordedIsSent(env, asks);
    }
  }

  /** A server whose random device fails answers a plain request for entropy with nothing. */
  lemma EmptyResponseExists() returns (env: Env, asks: seq<Ask>)
    ensures Sound(env) && Valid(asks) && Response(env, asks) == []
  {
    env := Env(MAX_IP4_PACKET_SIZE, 0, 0, [], [], true, true, i => []);
    asks := [Ask(ENTROPY, 8)];
    assert asks[0].kind == ENTROPY && Idle(env, 0, asks[0]);
    ResponseIsEmptyExactly(env, asks);
  }

  // ---------- which requests spoil their response ----------

  /** What recording one more rejection takes of the room. */
  function RejectionCost(p: Pack): (n: nat) {
    if p.rejected == [] then 6 else 2
  }

  /** Message i is rejected, and its rejection is not the one that is dropped. */
  predicate SendsRejection(env: Env, asks: seq<Ask>, i: nat)
    requires Sound(env) && i < |asks|
  {
    Rejects(env, asks[i].kind) && Room(Packed(env, asks, i)) >= RejectionCost(Packed(env, asks, i))
  }

  lemma RejectionStep(env: Env, asks: seq<Ask>, i: nat)
    requires Sound(env) && i < |asks| && Rejects(env, asks[i].kind) && Room(Packed(env, asks, i)) > 0
    ensures var p, q := Packed(env, asks, i), Packed(env, asks, i + 1);
            && q.rejected == p.rejected + [asks[i].kind]
            && Room(q) == Room(p) - RejectionCost(p)
  {
    PackedStep(env, asks, i + 1);
  }

  /** As long as no further rejection is recorded, answers leave room for those there are. */
  lemma {:induction false} RoomStays(env: Env, asks: seq<Ask>, n: nat, k: nat)
    requires Sound(env) && n <= k <= |asks| && Room(Packed(env, asks, n)) >= 0
    requires |Packed(env, asks, k).rejected| == |Packed(env, asks, n).rejected|
    ensures Room(Packed(env, asks, k)) >= 0
    decreases k
  {
    if n < k {
      PackGrows(env, asks, n, k - 1);
      PackGrows(env, asks, k - 1, k);
      RoomStays(env, asks, n, k - 1);
      PackingBalances(env, asks, k - 1);
      if Room(Packed(env, asks, k - 1)) > 0 {
        PackedStep(env, asks, k);
        StepBalances(env, k - 1, asks[k - 1], Packed(env, asks, k - 1), Packed(env, asks, k));
      }
    }
  }

  lemma RejectionIsRecorded(env: Env, asks: seq<Ask>, i: nat)
    requires Sound(env) && i < |asks| && Rejects(env, asks[i].kind) && Room(Packed(env, asks, i)) > 0
    ensures var r, kinds := |Packed(env, asks, i).rejected|, Packed(env, asks, |asks|).rejected;
            r < |kinds| && kinds[r] == asks[i].kind
  {
    RejectionStep(env, asks, i);
    PackGrows(env, asks, i + 1, |asks|);
  }

  /** A rejection without place in the room is the newest, and the one that is dropped. */
  lemma RejectionWithoutPlace(env: Env, asks: seq<Ask>, n: nat)
    requires Sound(env) && n <= |asks| && Room(Packed(env, asks, n)) < 0
    ensures Emitted(Packed(env, asks, |asks|)) == |Packed(env, asks, n).rejected| - 1
  {
    AtMostOneRejectionIsDropped(env, asks, n);
    StaysPacked(env, asks, n, |asks|);
  }

  lemma RejectionWithPlace(env: Env, asks: seq<Ask>, n: nat)
    requires Sound(env) && n <= |asks| && Room(Packed(env, asks, n)) >= 0
    ensures Emitted(Packed(env, asks, |asks|)) >= |Packed(env, asks, n).rejected|
  {
    AtMostOneRejectionIsDropped(env, asks, |asks|);
    PackGrows(env, asks, n, |asks|);
    if |Packed(env, asks, |asks|).rejected| == |Packed(env, asks, n).rejected| {
      RoomStays(env, asks, n, |asks|);
    }
  }

  /** A rejection is sent if and only if the room it was recorded in had place for it. */
  lemma RejectionIsSentExactly(env: Env, asks: seq<Ask>, i: nat)
    requires Sound(env) && i < |asks| && Rejects(env, asks[i].kind) && Room(Packed(env, asks, i)) > 0
    ensures SendsRejection(env, asks, i) <==> |Packed(env, asks, i).rejected| < Emitted(Packed(env, asks, |asks|))
  {
    RejectionStep(env, asks, i);
    if Room(Packed(env, asks, i + 1)) < 0 {
      RejectionWithoutPlace(env, asks, i + 1);
    } else {
      RejectionWithPlace(env, asks, i + 1);
    }
  }

  lemma {:induction false} RejectionComesFrom(env: Env, asks: seq<Ask>, n: nat, r: nat) returns (i: nat)
    requires Sound(env) && n <= |asks| && r < |Packed(env, asks, n).rejected|
    ensures i < n && Rejects(env, asks[i].kind) && Room(Packed(env, asks, i)) > 0
    ensures |Packed(env, asks, i).rejected| == r
    decreases n
  {
    var p := Packed(env, asks, n - 1);
    if r < |p.rejected| {
      i := RejectionComesFrom(env, asks, n - 1, r);
    } else {
      i := n - 1;
      if Room(p) > 0 {
        PackedStep(env, asks, n);
      }
    }
  }

  /** Message i has a type the protocol does not know, and the response says so. */
  predicate Spoils(env: Env, asks: seq<Ask>, i: nat)
    requires Sound(env) && i < |asks|
  {
    asks[i].kind >= MSG_TYPE_MAX && SendsRejection(env, asks, i)
  }

  lemma SentIsNamed(env: Env, asks: seq<Ask>, i: nat)
    requires Sound(env) && i < |asks| && SendsRejection(env, asks, i)
    ensures asks[i].kind in Named(env, asks)
  {
    RejectionIsRecorded(env, asks, i);
    RejectionIsSentExactly(env, asks, i);
    assert Named(env, asks)[|Packed(env, asks, i).rejected|] == asks[i].kind;
  }

  lemma NamedWasSent(env: Env, asks: seq<Ask>, r: nat) returns (i: nat)
    requires Sound(env) && r < |Named(env, asks)|
    ensures i < |asks| && SendsRejection(env, asks, i) && Named(env, asks)[r] == asks[i].kind
  {
    i := RejectionComesFrom(env, asks, |asks|, r);
    RejectionIsRecorded(env, asks, i);
    RejectionIsSentExactly(env, asks, i);
  }

  predicate Spoilt(env: Env, asks: seq<Ask>)
    requires Sound(env)
  {
    exists i :: 0 <= i < |asks| && Spoils(env, asks, i)
  }

  lemma KnownKindsExactly(env: Env, asks: seq<Ask>)
    requires Sound(env)
    ensures KnownKinds(Named(env, asks)) <==> !Spoilt(env, asks)
  {
    var kinds := Named(env, asks);
    forall i | 0 <= i < |asks| && Spoils(env, asks, i)
      ensures asks[i].kind in kinds
    {
      SentIsNamed(env, asks, i);
    }
    if k :| k in kinds && k >= MSG_TYPE_MAX {
      var r: nat :| r < |kinds| && kinds[r] == k;
      var i := NamedWasSent(env, asks, r);
      assert Spoils(env, asks, i);
    }
  }

  /**
   * Which requests get a legal response: those the server has something to say to, and without a message of an
   * unknown type whose rejection has place in the response. A server that rejects the unknown type of a newer
   * client thereby sends a packet that fails validation.
   */
  lemma ResponseIsLegalExactly(env: Env, asks: seq<Ask>)
    requires Sound(env) && Valid(asks)
    ensures Legal(false, Response(env, asks)) <==> !Silent(env, asks) && !Spoilt(env, asks)
  {
    LegalByContent(env, asks);
    ResponseIsEmptyExactly(env, asks);
    KnownKindsExactly(env, asks);
  }

  /** Requests that use known types only are answered legally unless the server has nothing at all to say. */
  lemma KnownRequestsAreAnswerable(env: Env, asks: seq<Ask>)
    requires Sound(env) && Valid(asks)
    requires forall a :: a in asks ==> a.kind < MSG_TYPE_MAX
    ensures Legal(false, Response(env, asks)) <==> !Silent(env, asks)
  {
    ResponseIsLegalExactly(env, asks);
    forall i | 0 <= i < |asks|
      ensures !Spoils(env, asks, i)
    {
      assert asks[i] in asks;
    }
  }

  /** One unknown type in an otherwise answered request makes the response unacceptable. */
  lemma UnknownTypeSpoilsResponse(env: Env)
    requires Sound(env)
    ensures var asks := [Ask(ENTROPY, 8), Ask(MSG_TYPE_MAX, 0)];
            Valid(asks) && !Legal(false, Response(env, asks))
  {
    var asks := [Ask(ENTROPY, 8), Ask(MSG_TYPE_MAX, 0)];
    var p := Packed(env, asks, 0);
    AnswersFit(env, 0, asks[0], 12);
    assert Fit(Room(p), 1, 8) == 8;
    assert Packed(env, asks, 1) == Step(env, 0, asks[0], p);
    assert Spoils(env, asks, 1);
    ResponseIsLegalExactly(env, asks);
  }
}
