/**
 * The response read for itself: which messages it holds, how many entries they have, and what one more message of the
 * request adds to it, without the steps by which the server packs it.
 */
module Answers {
  import opened Options
  import opened Wire
  import opened Records
  import opened Packing

  // ---------- single answers ----------

  /**
   * A peers answer lists the first n peers of its family: no more than are known, or asked for, or fit with a header of
   * 4 bytes, and as many as all three allow. There is none if n would be 0.
   */
  lemma PeersAnswerInNumbers(env: Env, ipv6: bool, count: nat, room: int)
    requires Sound(env) && room <= env.mtu - 4
    ensures var m, size := AnswerPeers(env, ipv6, count, room), if ipv6 then 18 else 6;
            && (m.None? <==> env.Known(ipv6) == 0 || room < 4 + size)
            && (m.Some? ==>
                  var n := m.value.count as nat;
                  && m.value.kind == (if ipv6 then 6 else 4)
                  && 0 < n <= env.Known(ipv6) && (count > 0 ==> n <= count) && 4 + size * n <= room
                  && (n == env.Known(ipv6) || n == count || room < 4 + size * (n + 1))
                  && m.value.body == PeersBytes(env.PeersOf(ipv6)[..n]))
  {
    var want := if count == 0 then env.Known(ipv6) else Min(env.Known(ipv6), count);
    PeersFitIsLargest(room, ipv6, want);
    PeerCountsFitInByte(room, ipv6, want);
  }

  /**
   * An entropy answer holds the first bytes the device offers: no more than asked for, or 8 if that is left open, no
   * more than fit, and as many as all three allow.
   */
  lemma EntropyAnswerInNumbers(env: Env, i: nat, count: byte, room: int)
    ensures var m, data := AnswerEntropy(env, i, count, room), env.device(i);
            && (m.None? <==> data == [] || room < 5)
            && (m.Some? ==>
                  var n, want: nat := |m.value.body|, if count == 0 then 8 else count;
                  && m.value.kind == 5 && m.value.count as int == n
                  && 0 < n <= |data| && n <= want && 4 + n <= room
                  && (n == |data| || n == want || room < 5 + n)
                  && m.value.body == data[..n])
  {
    FitIsLargest(room, 1, if count == 0 then 8 else count);
  }

  /** The server refuses this type: unknown ones, and peer types it does not serve. */
  predicate Refuses(env: Env, kind: byte) {
    || kind < 4 || kind > 6
    || (kind == 4 && !env.enable4)
    || (kind == 6 && !env.enable6)
  }

  /** What is said to message i if it is not refused. */
  function Said(env: Env, i: nat, ask: Ask, room: int): (m: Option<Message>)
    requires Sound(env)
  {
    if ask.kind == 5 then AnswerEntropy(env, i, ask.count, room)
    else AnswerPeers(env, ask.kind == 6, ask.count, room)
  }

  // ---------- a response taken apart ----------

  /** The messages that are not rejections. */
  function AnswersOf(ms: seq<Message>): (xs: seq<Message>) {
    if ms == [] then []
    else (if ms[0].kind == 3 then [] else [ms[0]]) + AnswersOf(ms[1..])
  }

  /** The types that the first message refuses. */
  function RefusalsOf(ms: seq<Message>): (kinds: seq<byte>) {
    if ms == [] || ms[0].kind != 3 || |ms[0].body| != 2 * ms[0].count as nat then []
    else seq(ms[0].count, i requires 0 <= i < ms[0].count as int => ms[0].body[2 * i])
  }

  /** The types of the request that the server refuses, in order. */
  function RefusedBy(env: Env, asks: seq<Ask>): (kinds: seq<byte>) {
    if asks == [] then []
    else
      var last := asks[|asks| - 1].kind;
      RefusedBy(env, asks[..|asks| - 1]) + if Refuses(env, last) then [last] else []
  }

  /** What is left of the packet beside its header, the answers, and a rejection of everything refused so far. */
  function RoomBeside(env: Env, asks: seq<Ask>): (room: int)
    requires Sound(env)
  {
    env.mtu - 4 - |EncodeAll(AnswersOf(Response(env, asks)))|
    - if RefusedBy(env, asks) == [] then 0 else 4 + 2 * |RefusedBy(env, asks)|
  }

  // ---------- how it relates to the packing ----------

  predicate NoRejections(ms: seq<Message>) {
    forall m :: m in ms ==> m.kind != 3
  }

  lemma {:induction false} AnswersAreNoRejections(env: Env, asks: seq<Ask>, n: nat)
    requires Sound(env) && n <= |asks|
    ensures NoRejections(Packed(env, asks, n).answers)
    decreases n
  {
    if n > 0 {
      AnswersAreNoRejections(env, asks, n - 1);
    }
  }

  lemma {:induction false} AnswersOfAnswers(ms: seq<Message>)
    requires NoRejections(ms)
    ensures AnswersOf(ms) == ms
  {
    if ms != [] {
      assert ms[0] in ms;
      AnswersOfAnswers(ms[1..]);
    }
  }

  lemma AnswersAre(env: Env, asks: seq<Ask>)
    requires Sound(env)
    ensures AnswersOf(Response(env, asks)) == Packed(env, asks, |asks|).answers
  {
    var p := Packed(env, asks, |asks|);
    AnswersAreNoRejections(env, asks, |asks|);
    AnswersOfAnswers(p.answers);
    if Emitted(p) > 0 {
      assert Messages(p)[0] == RejectMessage(p) && Messages(p)[1..] == p.answers;
    } else {
      assert Messages(p) == p.answers;
    }
  }

  lemma RefusalsInBody(kinds: seq<byte>, i: nat)
    requires i < |kinds|
    ensures RejectBody(kinds)[2 * i] == kinds[i] && RejectBody(kinds)[2 * i + 1] == 3
  {
    RejectBodyEntries(kinds);
    assert Unsupports(RejectBody(kinds), i, kinds[i]);
  }

  lemma RefusalsOfMessage(p: Pack)
    requires 0 < Emitted(p) <= 255
    ensures RefusalsOf([RejectMessage(p)] + p.answers) == p.rejected[..Emitted(p)]
  {
    var kinds, ms := p.rejected[..Emitted(p)], [RejectMessage(p)] + p.answers;
    forall i | 0 <= i < |kinds|
      ensures RefusalsOf(ms)[i] == kinds[i]
    {
      RefusalsInBody(kinds, i);
    }
  }

  lemma RefusalsAre(env: Env, asks: seq<Ask>)
    requires Sound(env) && Valid(asks)
    ensures RefusalsOf(Response(env, asks)) == Named(env, asks)
  {
    var p := Packed(env, asks, |asks|);
    PackingBalances(env, asks, |asks|);
    AnswersAreNoRejections(env, asks, |asks|);
    if Emitted(p) > 0 {
      RefusalsOfMessage(p);
    } else {
      assert Messages(p) == p.answers;
      assert p.answers != [] ==> p.answers[0] in p.answers;
    }
  }

  lemma RefusedByOneMore(env: Env, asks: seq<Ask>, ask: Ask)
    ensures RefusedBy(env, asks + [ask]) == RefusedBy(env, asks) + if Refuses(env, ask.kind) then [ask.kind] else []
  {
    assert (asks + [ask])[..|asks|] == asks;
  }

  lemma RefusesIsRejects(env: Env, kind: byte)
    ensures Refuses(env, kind) <==> Rejects(env, kind)
  {
  }

  lemma UpToHere(asks: seq<Ask>, n: nat)
    requires 0 < n <= |asks|
    ensures asks[..n] == asks[..n - 1] + [asks[n - 1]]
  {
  }

  lemma OneMoreRecorded(env: Env, asks: seq<Ask>, n: nat, kinds: seq<byte>)
    requires Sound(env) && 0 < n <= |asks| && kinds == RefusedBy(env, asks[..n - 1])
    requires var p := Packed(env, asks, n - 1); p.rejected <= kinds && (Room(p) > 0 ==> p.rejected == kinds)
    ensures var p := Packed(env, asks, n);
            && p.rejected <= RefusedBy(env, asks[..n])
            && (Room(p) > 0 ==> p.rejected == RefusedBy(env, asks[..n]))
  {
    UpToHere(asks, n);
    RefusedByOneMore(env, asks[..n - 1], asks[n - 1]);
    if Room(Packed(env, asks, n - 1)) > 0 {
      PackedStep(env, asks, n);
      RefusesIsRejects(env, asks[n - 1].kind);
    }
  }

  /** As long as there is room everything refused was recorded, and never anything else. */
  lemma {:induction false} RecordedAreRefused(env: Env, asks: seq<Ask>, n: nat)
    requires Sound(env) && n <= |asks|
    ensures var p := Packed(env, asks, n);
            && p.rejected <= RefusedBy(env, asks[..n])
            && (Room(p) > 0 ==> p.rejected == RefusedBy(env, asks[..n]))
    decreases n
  {
    if n > 0 {
      RecordedAreRefused(env, asks, n - 1);
      OneMoreRecorded(env, asks, n, RefusedBy(env, asks[..n - 1]));
    }
  }

  lemma RoomsAgree(env: Env, asks: seq<Ask>, p: Pack)
    requires Sound(env) && p == Packed(env, asks, |asks|)
    ensures RoomBeside(env, asks) <= 0 <==> Room(p) <= 0
    ensures Room(p) > 0 ==> RoomBeside(env, asks) == Room(p) && p.rejected == RefusedBy(env, asks)
  {
    assert asks[..|asks|] == asks;
    RecordedAreRefused(env, asks, |asks|);
    PackingBalances(env, asks, |asks|);
    AnswersAre(env, asks);
  }

  lemma OneMoreTurn(env: Env, asks: seq<Ask>, ask: Ask, p: Pack, q: Pack)
    requires Sound(env) && p == Packed(env, asks, |asks|) && q == Packed(env, asks + [ask], |asks| + 1)
    ensures q == Packing.Turn(env, |asks|, ask, p)
  {
    var all := asks + [ask];
    PrefixPacks(env, all, |asks|, |asks|);
    assert all[..|asks|] == asks;
  }

  lemma NamedInFull(env: Env, asks: seq<Ask>, p: Pack)
    requires Sound(env) && p == Packed(env, asks, |asks|)
    ensures Room(p) >= 0 ==> Named(env, asks) == p.rejected
    ensures Room(p) < 0 ==> p.rejected != [] && Named(env, asks) == p.rejected[..|p.rejected| - 1]
  {
    AtMostOneRejectionIsDropped(env, asks, |asks|);
    PackingBalances(env, asks, |asks|);
  }

  // ---------- the whole response ----------

  /** A reject message is only ever the first message of a response. */
  lemma RejectComesFirst(env: Env, asks: seq<Ask>, i: nat)
    requires Sound(env) && i < |Response(env, asks)|
    ensures Response(env, asks)[i].kind == REJECT ==> i == 0
  {
    var p := Packed(env, asks, |asks|);
    AnswersAreNoRejections(env, asks, |asks|);
    if i > 0 {
      var k := i - if Emitted(p) > 0 then 1 else 0;
      assert Response(env, asks)[i] == p.answers[k] && p.answers[k] in p.answers;
    }
  }

  /** That message names types the server refuses, in the order of the request, each as unsupported. */
  predicate RejectIs(m: Message, kinds: seq<byte>) {
    && m.kind == 3 && kinds != [] && m.count as int == |kinds| && |m.body| == 2 * |kinds|
    && forall i :: 0 <= i < |kinds| ==> m.body[2 * i] == kinds[i] && m.body[2 * i + 1] == 3
  }

  /** A response is its reject message, if it refuses anything, and its answers. */
  lemma ResponseInTwoParts(env: Env, asks: seq<Ask>)
    requires Sound(env) && Valid(asks)
    ensures var ms, kinds := Response(env, asks), RefusalsOf(Response(env, asks));
            && kinds <= RefusedBy(env, asks)
            && (if kinds == [] then ms == AnswersOf(ms)
                else ms != [] && RejectIs(ms[0], kinds) && ms[1..] == AnswersOf(ms))
  {
    var p, ms := Packed(env, asks, |asks|), Response(env, asks);
    assert asks[..|asks|] == asks;
    AnswersAre(env, asks);
    RefusalsAre(env, asks);
    RecordedAreRefused(env, asks, |asks|);
    ResponseCountsFitInByte(env, asks);
    if Emitted(p) > 0 {
      var kinds := p.rejected[..Emitted(p)];
      assert ms[0] == RejectMessage(p) && ms[1..] == p.answers;
      forall i | 0 <= i < |kinds|
        ensures ms[0].body[2 * i] == kinds[i] && ms[0].body[2 * i + 1] == 3
      {
        RefusalsInBody(kinds, i);
      }
    } else {
      assert ms == p.answers;
    }
  }

  lemma NothingMore(env: Env, asks: seq<Ask>, ask: Ask, p: Pack)
    requires Sound(env) && p == Packed(env, asks, |asks|) && Room(p) <= 0
    ensures Response(env, asks + [ask]) == Response(env, asks)
  {
    OneMoreTurn(env, asks, ask, p, Packed(env, asks + [ask], |asks| + 1));
  }

  lemma OneMoreAnswer(env: Env, asks: seq<Ask>, ask: Ask, p: Pack, q: Pack)
    requires Sound(env) && p == Packed(env, asks, |asks|) && q == Packed(env, asks + [ask], |asks| + 1)
    requires Room(p) > 0 && !Refuses(env, ask.kind)
    ensures var m := Said(env, |asks|, ask, Room(p));
            q.answers == p.answers + if m.Some? then [m.value] else []
    ensures Named(env, asks + [ask]) == Named(env, asks)
  {
    OneMoreTurn(env, asks, ask, p, q);
    RefusesIsRejects(env, ask.kind);
    NamedInFull(env, asks, p);
    NamedInFull(env, asks + [ask], q);
    PackingBalances(env, asks, |asks|);
    StepBalances(env, |asks|, ask, p, q);
  }

  lemma OneMoreRefusal(env: Env, asks: seq<Ask>, ask: Ask, p: Pack, q: Pack)
    requires Sound(env) && p == Packed(env, asks, |asks|) && q == Packed(env, asks + [ask], |asks| + 1)
    requires Room(p) > 0 && Refuses(env, ask.kind)
    ensures q.answers == p.answers
    ensures Named(env, asks + [ask]) ==
            Named(env, asks) + if Room(p) >= (if Named(env, asks) == [] then 6 else 2) then [ask.kind] else []
  {
    OneMoreTurn(env, asks, ask, p, q);
    RefusesIsRejects(env, ask.kind);
    NamedInFull(env, asks, p);
    NamedInFull(env, asks + [ask], q);
    assert q.rejected == p.rejected + [ask.kind];
  }

  /**
   * What one more message of a request adds to the response, in terms of responses only. With no room left beside what
   * is there, nothing. A type that is refused is named behind the others if there are 6 bytes for the first or 2 for
   * any other; anything else gets its answer for that room behind the other answers. Nothing that was there changes.
   */
  lemma ResponseBuildsUp(env: Env, asks: seq<Ask>, ask: Ask)
    requires Sound(env) && Valid(asks) && Valid(asks + [ask])
    ensures var xs, ys, room := Response(env, asks), Response(env, asks + [ask]), RoomBeside(env, asks);
            var m := Said(env, |asks|, ask, room);
            if room <= 0 then ys == xs
            else if Refuses(env, ask.kind) then
              && AnswersOf(ys) == AnswersOf(xs)
              && RefusalsOf(ys) ==
                 RefusalsOf(xs) + if room >= (if RefusalsOf(xs) == [] then 6 else 2) then [ask.kind] else []
            else
              && AnswersOf(ys) == AnswersOf(xs) + (if m.Some? then [m.value] else [])
              && RefusalsOf(ys) == RefusalsOf(xs)
  {
    var p, q := Packed(env, asks, |asks|), Packed(env, asks + [ask], |asks| + 1);
    RoomsAgree(env, asks, p);
    AnswersAre(env, asks);
    AnswersAre(env, asks + [ask]);
    RefusalsAre(env, asks);
    RefusalsAre(env, asks + [ask]);
    if Room(p) <= 0 {
      NothingMore(env, asks, ask, p);
    } else if Refuses(env, ask.kind) {
      OneMoreRefusal(env, asks, ask, p, q);
    } else {
      OneMoreAnswer(env, asks, ask, p, q);
    }
  }

  lemma OneRefusal(p: Pack, kind: byte)
    requires p.answers == [] && p.rejected == [kind] && p.remaining >= 6
    ensures Messages(p) == [Message(3, 1, [kind, 3])]
  {
    assert Emitted(p) == 1 && p.rejected[..1] == [kind];
    assert [kind][..0] == [] && RejectBody([]) == [];
    assert RejectBody([kind]) == [kind, UNSUPPORTED];
    assert Messages(p) == [RejectMessage(p)];
  }

  lemma OneAnswer(p: Pack)
    requires p.rejected == []
    ensures Messages(p) == p.answers
  {
    assert Emitted(p) == 0;
  }

  /** The response to a request of one message. */
  lemma OneAsk(env: Env, ask: Ask, p: Pack)
    requires Sound(env) && ask.kind >= REQUEST_MSG_MIN && p == Packed(env, [ask], 1)
    ensures var m := Said(env, 0, ask, env.mtu - 4);
            Response(env, [ask]) ==
            if Refuses(env, ask.kind) then [Message(3, 1, [ask.kind, 3])]
            else if m.Some? then [m.value]
            else []
  {
    assert Packed(env, [ask], 0) == Pack(env.mtu - 4, [], []);
    PackedStep(env, [ask], 1);
    RefusesIsRejects(env, ask.kind);
    if Refuses(env, ask.kind) {
      OneRefusal(p, ask.kind);
    } else {
      OneAnswer(p);
    }
  }
}
