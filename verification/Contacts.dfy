/** What the client does with a response is a stretch of a run, so what holds over runs holds for the client. */
module Contacts {
  import opened Options
  import opened Wire
  import opened Records
  import opened Scheduler
  import opened Interpretation
  import opened Runs
  import opened EndToEnd
  import Client

  function RejectEvents(body: seq<byte>, n: nat): (es: seq<Event>)
    requires 2 * n <= |body|
  {
    if n == 0 then [] else RejectEvents(body, n - 1) + [Rejected(body[2 * n - 2], body[2 * n - 1])]
  }

  function EventsOfOne(m: Message, now: int, enableIp4: bool, enableIp6: bool): (es: seq<Event>)
    requires WellFormed(false, m)
  {
    if m.kind == REJECT then RejectEvents(m.body, m.count)
    else if (m.kind == IP4PEERS && enableIp4) || (m.kind == IP6PEERS && enableIp6) then [Learned(PeersIn(m), now)]
    else []
  }

  /** The events that taking a response amounts to. */
  function EventsOf(ms: seq<Message>, now: int, enableIp4: bool, enableIp6: bool): (es: seq<Event>)
    requires WellFormedAll(ms)
    decreases |ms|
  {
    if ms == [] then []
    else
      var last := |ms| - 1;
      assert ms[last] in ms;
      EventsOf(ms[..last], now, enableIp4, enableIp6) + EventsOfOne(ms[last], now, enableIp4, enableIp6)
  }

  lemma {:induction false} ExecAppend(r: Run, xs: seq<Event>, ys: seq<Event>)
    requires Good(r)
    ensures Exec(r, xs + ys) == Exec(Exec(r, xs), ys)
    decreases |xs|
  {
    if xs == [] {
      assert xs + ys == ys;
    } else {
      StepKeepsGood(r, xs[0]);
      assert (xs + ys)[1..] == xs[1..] + ys;
      ExecAppend(Step(r, xs[0]), xs[1..], ys);
    }
  }

  lemma ExecSingle(r: Run, e: Event)
    requires Good(r)
    ensures Exec(r, [e]) == Step(r, e)
  {
    StepKeepsGood(r, e);
    assert [e][1..] == [];
  }

  lemma AssignedIsListed(c: Config, ref: Ref, r: Record)
    requires ValidRef(c, ref)
    ensures ValidRef(Assign(c, ref, r), ref) && Deref(Assign(c, ref, r), ref) == r && Lists(Assign(c, ref, r), r)
  {
    match ref
    case InActive(i) => assert c.active[i := r][i] == r;
    case InProbation(i) => assert c.probation[i := r][i] == r;
  }

  lemma RejectionIsEvent(r: Run, ref: Ref, c: Config, rec: Record, kind: byte, reason: byte)
    requires Good(r) && r.pending == Some(ref) && ValidRef(c, ref) && r.cfg == Assign(c, ref, rec)
    ensures Exec(r, [Rejected(kind, reason)]) == r.(cfg := Assign(c, ref, Disabled(rec, kind, reason)))
  {
    ExecSingle(r, Rejected(kind, reason));
    Client.AssignTwice(c, ref, rec, Disabled(rec, kind, reason));
    AssignedIsListed(c, ref, rec);
  }

  /** Running the first n entries of a reject message is disabling what they name. */
  predicate RejectsLike(r: Run, ref: Ref, body: seq<byte>, n: nat)
    requires Good(r) && ValidRef(r.cfg, ref) && 2 * n <= |body|
  {
    Exec(r, RejectEvents(body, n)) == r.(cfg := Assign(r.cfg, ref, DisabledBy(Deref(r.cfg, ref), body, n)))
  }

  lemma NoRejection(r: Run, ref: Ref, body: seq<byte>)
    requires Good(r) && ValidRef(r.cfg, ref)
    ensures RejectsLike(r, ref, body, 0)
  {
    Client.AssignSame(r.cfg, ref);
  }

  lemma RejectEventsNext(body: seq<byte>, n: nat)
    requires 2 * n + 2 <= |body|
    ensures RejectEvents(body, n + 1) == RejectEvents(body, n) + [Rejected(body[2 * n], body[2 * n + 1])]
  {
  }

  lemma OneMoreRejection(r: Run, ref: Ref, body: seq<byte>, n: nat)
    requires Good(r) && r.pending == Some(ref) && 0 < 2 * n <= |body|
    requires RejectsLike(r, ref, body, n - 1)
    ensures RejectsLike(r, ref, body, n)
  {
    var k := n - 1;
    var xs, rec := RejectEvents(body, k), DisabledBy(Deref(r.cfg, ref), body, k);
    var kind, reason := body[2 * k], body[2 * k + 1];
    ExecAppend(r, xs, [Rejected(kind, reason)]);
    RejectionIsEvent(Exec(r, xs), ref, r.cfg, rec, kind, reason);
    RejectEventsNext(body, k);
    DisabledByNext(Deref(r.cfg, ref), body, k);
  }

  lemma {:induction false} RejectionsAreEvents(r: Run, ref: Ref, body: seq<byte>, n: nat)
    requires Good(r) && r.pending == Some(ref) && 2 * n <= |body|
    ensures RejectsLike(r, ref, body, n)
    decreases n
  {
    if n == 0 {
      NoRejection(r, ref, body);
    } else {
      RejectionsAreEvents(r, ref, body, n - 1);
      OneMoreRejection(r, ref, body, n);
    }
  }

  lemma MessageIsEvents(r: Run, ref: Ref, m: Message, now: int, enableIp4: bool, enableIp6: bool)
    requires Good(r) && r.pending == Some(ref) && WellFormed(false, m)
    ensures Exec(r, EventsOfOne(m, now, enableIp4, enableIp6)) ==
            r.(cfg := InterpretOne(r.cfg, ref, m, now, enableIp4, enableIp6))
  {
    if m.kind == REJECT {
      RejectionsAreEvents(r, ref, m.body, m.count);
    } else if (m.kind == IP4PEERS && enableIp4) || (m.kind == IP6PEERS && enableIp6) {
      ExecSingle(r, Learned(PeersIn(m), now));
    }
  }

  /** Interpreting a response is running its events with the server still pending. */
  lemma {:induction false} ResponsesAreEvents(r: Run, ref: Ref, ms: seq<Message>, now: int, enableIp4: bool,
                                              enableIp6: bool)
    requires Good(r) && r.pending == Some(ref) && WellFormedAll(ms)
    ensures Exec(r, EventsOf(ms, now, enableIp4, enableIp6)) ==
            r.(cfg := Interpret(r.cfg, ref, ms, now, enableIp4, enableIp6))
    decreases |ms|
  {
    if ms != [] {
      var last := |ms| - 1;
      assert ms[last] in ms;
      ResponsesAreEvents(r, ref, ms[..last], now, enableIp4, enableIp6);
      var xs, ys := EventsOf(ms[..last], now, enableIp4, enableIp6), EventsOfOne(ms[last], now, enableIp4, enableIp6);
      ExecAppend(r, xs, ys);
      MessageIsEvents(Exec(r, xs), ref, ms[last], now, enableIp4, enableIp6);
    }
  }

  /** A successful contact: taking the response and marking the server is the run of its events and a success. */
  lemma ContactIsRun(r: Run, ref: Ref, ms: seq<Message>, now: int, enableIp4: bool, enableIp6: bool)
    requires Good(r) && r.pending == Some(ref) && WellFormedAll(ms)
    ensures var d := Interpret(r.cfg, ref, ms, now, enableIp4, enableIp6);
            && Current(d, ref)
            && Exec(r, EventsOf(ms, now, enableIp4, enableIp6) + [Answered(now)]).cfg == Succeed(d, ref, now)
  {
    var es := EventsOf(ms, now, enableIp4, enableIp6);
    ResponsesAreEvents(r, ref, ms, now, enableIp4, enableIp6);
    ExecAppend(r, es, [Answered(now)]);
    ExecSingle(Exec(r, es), Answered(now));
  }

  lemma OneRecordPerId(c: Config, x: Record, y: Record)
    requires IdsOk(c) && Lists(c, x) && Lists(c, y) && x.id == y.id
    ensures x == y
  {
  }

  /** The record says its server does not serve this peer type. */
  predicate Off(r: Record, kind: byte) {
    (kind == IP4PEERS && !r.ip4Peers) || (kind == IP6PEERS && !r.ip6Peers)
  }

  lemma OffStaysOff(s: Run, x: Record, kind: byte, es: seq<Event>)
    requires Good(s) && Lists(s.cfg, x) && Off(x, kind)
    ensures forall y :: Lists(Exec(s, es).cfg, y) && y.id == x.id ==> Off(y, kind)
  {
    CapabilitiesOnlyFall(s, es);
    IdsBelowNext(s.cfg, x);
    forall y | Lists(Exec(s, es).cfg, y) && y.id == x.id
      ensures Off(y, kind)
    {
      var z :| Lists(s.cfg, z) && Inherits(z, y);
      OneRecordPerId(s.cfg, z, x);
    }
  }

  /**
   * Once a server has rejected a peer type as unsupported, no request constructed for that record ever asks for it
   * again, whatever happens in between; and every such request is still legal and asks for entropy.
   */
  lemma UnsupportedIsNeverAskedAgain(r: Run, ref: Ref, kind: byte, es: seq<Event>, enableIp4: bool, enableIp6: bool)
    requires Good(r) && r.pending == Some(ref) && (kind == IP4PEERS || kind == IP6PEERS)
    ensures var q := Exec(r, [Rejected(kind, UNSUPPORTED)] + es);
            forall y :: Lists(q.cfg, y) && y.id == Deref(r.cfg, ref).id ==>
              && Legal(true, RequestMessages(y, enableIp4, enableIp6))
              && RequestMessages(y, enableIp4, enableIp6)[0].kind == ENTROPY
              && forall m :: m in RequestMessages(y, enableIp4, enableIp6) ==> m.kind != kind
  {
    var e, x' := Rejected(kind, UNSUPPORTED), Disabled(Deref(r.cfg, ref), kind, UNSUPPORTED);
    StepKeepsGood(r, e);
    ExecSingle(r, e);
    ExecAppend(r, [e], es);
    AssignedIsListed(r.cfg, ref, x');
    OffStaysOff(Step(r, e), x', kind, es);
    forall y: Record | Off(y, kind)
      ensures Legal(true, RequestMessages(y, enableIp4, enableIp6))
      ensures RequestMessages(y, enableIp4, enableIp6)[0].kind == ENTROPY
      ensures forall m :: m in RequestMessages(y, enableIp4, enableIp6) ==> m.kind != kind
    {
      RequestsAreLegal(y, enableIp4, enableIp6);
    }
  }

  // ---------- the server ----------

  lemma ExecCounted(r: Run, ipv6: bool, es: seq<Event>)
    requires Good(r) && (es == [] || es == [Counted(ipv6)])
    ensures Exec(r, es) == if es == [] then r else r.(cfg := Count(r.cfg, ipv6))
  {
    if es != [] {
      ExecSingle(r, Counted(ipv6));
    }
  }

  /** Serving a request, which only counts, is a stretch of a run too: of at most one count of each family. */
  lemma ServingIsRun(r: Run, d: Config) returns (es: seq<Event>)
    requires Good(r) && OnlyCounted(r.cfg, d)
    ensures Exec(r, es) == r.(cfg := d)
    ensures forall e :: e in es ==> e.Counted?
  {
    var four := if d.countIp4 != r.cfg.countIp4 then [Counted(false)] else [];
    var six := if d.countIp6 != r.cfg.countIp6 then [Counted(true)] else [];
    es := four + six;
    ExecAppend(r, four, six);
    ExecCounted(r, false, four);
    ExecCounted(Exec(r, four), true, six);
  }
}
