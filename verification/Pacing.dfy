/**
 * A whole run of a client against the table of clients of one of its servers: which of its requests are refused. The
 * client waits for each record of a server, the server for each address of a client.
 */
module Pacing {
  import opened Options
  import opened Records
  import opened Scheduler
  import opened Runs
  import opened Validator
  import opened Serving
  import Contacts

  /**
   * A turn of the client loop that sends a request: what happens before, when the request is sent and when, if ever,
   * it is received, what happens until the turn ends, and the report it ends with, if any. Times are those of the
   * clock of the client.
   */
  datatype Turn = Turn(before: seq<Event>, sent: int, received: Option<int>, during: seq<Event>, report: Option<Event>)

  predicate IsReport(e: Event) {
    e.TimedOut? || e.Answered?
  }

  function TurnEvents(t: Turn): (es: seq<Event>) {
    t.before + t.during + if t.report.Some? then [t.report.value] else []
  }

  /** Only the server chosen last is asked, if its waiting time is over, and only at the end it is reported on. */
  predicate TurnOk(t: Turn, q: Run)
    requires Good(q)
  {
    && q.pending.Some? && Due(Deref(q.cfg, q.pending.value), t.sent)
    && (forall e :: e in t.before ==> !IsReport(e))
    && (forall e :: e in t.during ==> !IsReport(e) && !e.GetNext?)
    && (t.received.Some? ==> t.sent <= t.received.value)
    && (t.report.Some? ==> IsReport(t.report.value) && t.sent <= t.report.value.now)
  }

  /** The turn leads from r to s. */
  predicate Leads(r: Run, t: Turn, s: Run) {
    Good(r) && TurnOk(t, Exec(r, t.before)) && s == Exec(r, TurnEvents(t))
  }

  /** The clock does not run backwards, and a turn is over before the next begins. */
  predicate TurnsInOrder(ts: seq<Turn>) {
    && (forall i, j :: 0 <= i <= j < |ts| ==> ts[i].sent <= ts[j].sent)
    && (forall i, j :: 0 <= i < j < |ts| && ts[i].report.Some? && IsReport(ts[i].report.value) ==>
          ts[i].report.value.now <= ts[j].sent)
  }

  predicate LeadsAt(rs: seq<Run>, ts: seq<Turn>, i: nat)
    requires |rs| == |ts| + 1 && i < |ts|
  {
    Leads(rs[i], ts[i], rs[i + 1])
  }

  /** The turns ts are a run of the client loop through the states rs. */
  predicate ClientRun(rs: seq<Run>, ts: seq<Turn>) {
    && |rs| == |ts| + 1 && TurnsInOrder(ts)
    && forall i :: 0 <= i < |ts| ==> LeadsAt(rs, ts, i)
  }

  /** The record through which the server is asked in a turn that begins in r. */
  function Asked(r: Run, t: Turn): (rec: Record)
    requires Good(r) && TurnOk(t, Exec(r, t.before))
  {
    var q := Exec(r, t.before);
    Deref(q.cfg, q.pending.value)
  }

  // ---------- a record waits ----------

  lemma ListensOne(r: Run, e: Event, ref: Ref)
    requires Good(r) && r.pending == Some(ref) && !IsReport(e) && !e.GetNext?
    ensures Step(r, e).pending == r.pending && ValidRef(Step(r, e).cfg, ref)
    ensures Deref(Step(r, e).cfg, ref).id == Deref(r.cfg, ref).id
  {
    match e
    case Learned(_, _) =>
    case Counted(_) =>
    case BansCleaned(_) =>
    case Rejected(kind, reason) =>
      Contacts.AssignedIsListed(r.cfg, ref, Disabled(Deref(r.cfg, ref), kind, reason));
  }

  /** Until it is reported on, the server asked stays where it is. */
  lemma {:induction false} Listens(r: Run, es: seq<Event>)
    requires Good(r) && r.pending.Some?
    requires forall e :: e in es ==> !IsReport(e) && !e.GetNext?
    ensures Exec(r, es).pending == r.pending
    ensures Deref(Exec(r, es).cfg, r.pending.value).id == Deref(r.cfg, r.pending.value).id
    decreases |es|
  {
    if es != [] {
      StepKeepsGood(r, es[0]);
      ListensOne(r, es[0], r.pending.value);
      assert es[0] in es && forall e :: e in es[1..] ==> e in es;
      Listens(Step(r, es[0]), es[1..]);
    }
  }

  lemma AskedIsCreated(r: Run)
    requires Good(r) && r.pending.Some?
    ensures Deref(r.cfg, r.pending.value).id < r.cfg.nextId
  {
    DisjointIds(r.cfg, r.pending.value);
    ListedIsCreated(r.cfg);
  }

  lemma TurnSplits(r: Run, t: Turn, q: Run)
    requires Good(r) && q == Exec(r, t.before) && t.report.Some?
    ensures Exec(r, TurnEvents(t)) == Step(Exec(q, t.during), t.report.value)
  {
    Contacts.ExecAppend(r, t.before, t.during);
    Contacts.ExecAppend(r, t.before + t.during, [t.report.value]);
    Contacts.ExecSingle(Exec(q, t.during), t.report.value);
  }

  lemma ReportStampsAsked(q: Run, e: Event)
    requires Good(q) && q.pending.Some? && IsReport(e)
    ensures var s, id := Step(q, e), Deref(q.cfg, q.pending.value).id; Stamped(s.cfg, id, e.now) && id < s.cfg.nextId
  {
    ReportIsStamped(q, q.pending.value, e, e.now);
    AskedIsCreated(q);
    OnlyLearningCreates(q, e);
  }

  ghost predicate StampedIn(r: Run, id: nat, t: int) {
    id < r.cfg.nextId && Stamped(r.cfg, id, t)
  }

  predicate ReportsAt(t: Turn, now: int) {
    t.report.Some? && IsReport(t.report.value) && t.report.value.now == now
  }

  /** The report of a turn stamps the record it asked through. */
  lemma TurnStamps(r: Run, t: Turn, s: Run, id: nat, now: int)
    requires Leads(r, t, s) && ReportsAt(t, now) && id == Asked(r, t).id
    ensures StampedIn(s, id, now)
  {
    var q := Exec(r, t.before);
    TurnSplits(r, t, q);
    Listens(q, t.during);
    ReportStampsAsked(Exec(q, t.during), t.report.value);
  }

  lemma StaysStamped(r: Run, es: seq<Event>, id: nat, t: int)
    requires Good(r) && StampedIn(r, id, t)
    requires forall e :: e in es ==> NotBefore(e, t)
    ensures StampedIn(Exec(r, es), id, t)
  {
    StampStays(r, es, id, t);
    CapabilitiesOnlyFall(r, es);
  }

  /** The turn asks, and reports, only from now on. */
  lemma LaterTurnKeepsStamp(r: Run, t: Turn, s: Run, id: nat, now: int)
    requires Leads(r, t, s) && now <= t.sent && StampedIn(r, id, now)
    ensures StampedIn(s, id, now) && StampedIn(Exec(r, t.before), id, now)
  {
    StaysStamped(r, TurnEvents(t), id, now);
    StaysStamped(r, t.before, id, now);
  }

  lemma StampedNext(rs: seq<Run>, ts: seq<Turn>, k: nat, id: nat, now: int)
    requires |rs| == |ts| + 1 && k < |ts| && LeadsAt(rs, ts, k) && now <= ts[k].sent && StampedIn(rs[k], id, now)
    ensures StampedIn(rs[k + 1], id, now)
  {
    LaterTurnKeepsStamp(rs[k], ts[k], rs[k + 1], id, now);
  }

  lemma {:induction false} StampedUntil(rs: seq<Run>, ts: seq<Turn>, k: nat, n: nat, id: nat, now: int)
    requires |rs| == |ts| + 1 && k <= n <= |ts| && StampedIn(rs[k], id, now)
    requires forall i :: k <= i < n ==> LeadsAt(rs, ts, i) && now <= ts[i].sent
    ensures StampedIn(rs[n], id, now)
    decreases n
  {
    if n > k {
      StampedUntil(rs, ts, k, n - 1, id, now);
      StampedNext(rs, ts, n - 1, id, now);
    }
  }

  lemma AskedIsDue(r: Run, t: Turn, s: Run, id: nat, now: int)
    requires Leads(r, t, s) && now <= t.sent && StampedIn(r, id, now) && id == Asked(r, t).id
    ensures t.sent > now + RETRY_SECONDS
  {
    LaterTurnKeepsStamp(r, t, s, id, now);
    assert Lists(Exec(r, t.before).cfg, Asked(r, t));
  }

  lemma ReportStampsUntil(rs: seq<Run>, ts: seq<Turn>, i: nat, j: nat, id: nat, now: int)
    requires ClientRun(rs, ts) && i < j < |ts| && ReportsAt(ts[i], now) && StampedIn(rs[i + 1], id, now)
    ensures StampedIn(rs[j], id, now) && now <= ts[j].sent
  {
    StampedUntil(rs, ts, i + 1, j, id, now);
  }

  lemma StampedThen(rs: seq<Run>, ts: seq<Turn>, i: nat, id: nat, now: int)
    requires |rs| == |ts| + 1 && i < |ts| && LeadsAt(rs, ts, i) && ReportsAt(ts[i], now)
    requires id == Asked(rs[i], ts[i]).id
    ensures StampedIn(rs[i + 1], id, now)
  {
    TurnStamps(rs[i], ts[i], rs[i + 1], id, now);
  }

  lemma DueThen(rs: seq<Run>, ts: seq<Turn>, j: nat, id: nat, now: int)
    requires |rs| == |ts| + 1 && j < |ts| && LeadsAt(rs, ts, j) && now <= ts[j].sent && StampedIn(rs[j], id, now)
    requires id == Asked(rs[j], ts[j]).id
    ensures ts[j].sent > now + RETRY_SECONDS
  {
    AskedIsDue(rs[j], ts[j], rs[j + 1], id, now);
  }

  /** A server reported on is not asked again through the same record before its waiting time is over. */
  lemma WaitsAfterReport(rs: seq<Run>, ts: seq<Turn>, i: nat, j: nat, id: nat, now: int)
    requires ClientRun(rs, ts) && i < j < |ts| && ReportsAt(ts[i], now)
    requires LeadsAt(rs, ts, i) && LeadsAt(rs, ts, j)
    requires id == Asked(rs[i], ts[i]).id && id == Asked(rs[j], ts[j]).id
    ensures ts[j].sent > now + RETRY_SECONDS
  {
    StampedThen(rs, ts, i, id, now);
    ReportStampsUntil(rs, ts, i, j, id, now);
    DueThen(rs, ts, j, id, now);
  }

  // ---------- the server it asks ----------

  /** What a turn means to the network: the record asked through, and its times. */
  datatype Request = Request(id: nat, peer: Peer, sent: int, received: Option<int>, reported: Option<int>)

  function RequestOf(t: Turn, rec: Record): (q: Request) {
    Request(rec.id, rec.peer, t.sent, t.received,
            if t.report.Some? && IsReport(t.report.value) then Some(t.report.value.now) else None)
  }

  function RequestsOf(rs: seq<Run>, ts: seq<Turn>): (qs: seq<Request>)
    requires ClientRun(rs, ts)
    ensures |qs| == |ts|
  {
    seq(|ts|, i requires 0 <= i < |ts| =>
          assert LeadsAt(rs, ts, i);
          RequestOf(ts[i], Asked(rs[i], ts[i])))
  }

  /** After a report, a record waits. */
  predicate Paced(qs: seq<Request>) {
    && (forall i :: 0 <= i < |qs| && qs[i].received.Some? ==> qs[i].sent <= qs[i].received.value)
    && (forall i, j :: 0 <= i < j < |qs| && qs[i].id == qs[j].id && qs[i].reported.Some? ==>
          qs[j].sent > qs[i].reported.value + RETRY_SECONDS)
  }

  /** All requests of a client run are paced, record by record. */
  lemma RequestsArePaced(rs: seq<Run>, ts: seq<Turn>)
    requires ClientRun(rs, ts)
    ensures Paced(RequestsOf(rs, ts))
  {
    var qs := RequestsOf(rs, ts);
    forall i, j | 0 <= i < j < |qs| && qs[i].id == qs[j].id && qs[i].reported.Some?
      ensures qs[j].sent > qs[i].reported.value + RETRY_SECONDS
    {
      assert LeadsAt(rs, ts, i) && LeadsAt(rs, ts, j);
      WaitsAfterReport(rs, ts, i, j, qs[i].id, qs[i].reported.value);
    }
    forall i | 0 <= i < |qs| && qs[i].received.Some?
      ensures qs[i].sent <= qs[i].received.value
    {
      assert LeadsAt(rs, ts, i);
    }
  }

  /**
   * The way to a server: its address and port, the address it sees the client under, by how much its clock is ahead,
   * and which of the packets it receives are the requests of the client.
   */
  datatype Route = Route(peer: Peer, src: Address, skew: int, at: seq<nat>)

  predicate Reaches(q: Request, route: Route) {
    q.peer == route.peer && q.received.Some?
  }

  /** Request i is packet at[i], and from its address the server receives requests of this client only. */
  predicate Delivered(qs: seq<Request>, route: Route, ds: seq<Arrival>) {
    && |route.at| == |qs|
    && (forall i :: 0 <= i < |qs| && Reaches(qs[i], route) ==>
          && route.at[i] < |ds| && ds[route.at[i]].verdict == Accepted && ds[route.at[i]].src == route.src
          && ds[route.at[i]].now == qs[i].received.value + route.skew)
    && (forall k :: 0 <= k < |ds| && ds[k].verdict == Accepted && ds[k].src == route.src ==>
          exists i :: 0 <= i < |qs| && Reaches(qs[i], route) && route.at[i] == k)
  }

  /** Request i was received before request j, less than a lifetime before, and answered. */
  predicate Crowds(lifetime: int, qs: seq<Request>, route: Route, ds: seq<Arrival>, i: nat, j: nat)
    requires |route.at| == |qs| && i < |qs| && j < |qs| && Reaches(qs[j], route) && Delivered(qs, route, ds)
  {
    && Reaches(qs[i], route) && route.at[i] < route.at[j] && Answers(lifetime, ds, route.at[i])
    && qs[j].received.value < qs[i].received.value + lifetime
  }

  predicate Crowded(lifetime: int, qs: seq<Request>, route: Route, ds: seq<Arrival>, j: nat)
    requires |route.at| == |qs| && j < |qs| && Reaches(qs[j], route) && Delivered(qs, route, ds)
  {
    exists i :: 0 <= i < |qs| && Crowds(lifetime, qs, route, ds, i, j)
  }

  /**
   * Both requests went through one record, and the client reported on the earlier one, and not before the server had
   * received it.
   */
  predicate OneAfterTheOther(q: Request, q': Request) {
    && q.id == q'.id && q.reported.Some?
    && (q.received.Some? ==> q.received.value <= q.reported.value)
  }

  predicate Separate(qs: seq<Request>, i: nat, j: nat)
    requires i < |qs| && j < |qs|
  {
    if i < j then OneAfterTheOther(qs[i], qs[j]) else OneAfterTheOther(qs[j], qs[i])
  }

  lemma CrowdedIsTooSoon(lifetime: int, qs: seq<Request>, route: Route, ds: seq<Arrival>, j: nat)
    requires Delivered(qs, route, ds) && j < |qs| && Reaches(qs[j], route)
    ensures TooSoon(lifetime, ds, route.at[j]) <==> Crowded(lifetime, qs, route, ds, j)
  {
    var n := route.at[j];
    if TooSoon(lifetime, ds, n) {
      var k :| 0 <= k < n && Answers(lifetime, ds, k) && ds[k].src == ds[n].src && ds[n].now < ds[k].now + lifetime;
      var i :| 0 <= i < |qs| && Reaches(qs[i], route) && route.at[i] == k;
      assert Crowds(lifetime, qs, route, ds, i, j);
    }
    if i :| 0 <= i < |qs| && Crowds(lifetime, qs, route, ds, i, j) {
      assert Answers(lifetime, ds, route.at[i]) && ds[route.at[i]].src == ds[n].src;
    }
  }

  lemma SeparateDoNotCrowd(lifetime: int, qs: seq<Request>, route: Route, ds: seq<Arrival>, i: nat, j: nat)
    requires Paced(qs) && Delivered(qs, route, ds) && InOrder(ds) && lifetime <= RETRY_SECONDS
    requires i < |qs| && j < |qs| && Reaches(qs[j], route) && Crowds(lifetime, qs, route, ds, i, j)
    ensures !Separate(qs, i, j)
  {
    assert ds[route.at[i]].now <= ds[route.at[j]].now;
  }

  /**
   * The server refuses a request of a client if and only if it hangs already, or it answered another request of the
   * client less than a lifetime before.
   */
  lemma RefusedExactly(lifetime: int, rs: seq<Run>, ts: seq<Turn>, qs: seq<Request>, route: Route, ds: seq<Arrival>,
                       j: nat)
    requires ClientRun(rs, ts) && qs == RequestsOf(rs, ts)
    requires Delivered(qs, route, ds) && InOrder(ds) && j < |qs| && Reaches(qs[j], route)
    ensures !Answers(lifetime, ds, route.at[j]) <==>
            !Responsive(ds, route.at[j]) || Crowded(lifetime, qs, route, ds, j)
  {
    AnsweredExactly(lifetime, ds, route.at[j]);
    CrowdedIsTooSoon(lifetime, qs, route, ds, j);
  }

  /**
   * And the two requests then came through different records of this server, or the client was not done with the
   * earlier one: it did not report on it, or only before the server received it.
   */
  lemma OnlyOthersCrowd(lifetime: int, rs: seq<Run>, ts: seq<Turn>, qs: seq<Request>, route: Route, ds: seq<Arrival>,
                        i: nat, j: nat)
    requires ClientRun(rs, ts) && qs == RequestsOf(rs, ts)
    requires Delivered(qs, route, ds) && InOrder(ds) && lifetime <= RETRY_SECONDS
    requires i < |qs| && j < |qs| && Reaches(qs[j], route)
    ensures Crowds(lifetime, qs, route, ds, i, j) ==> !Separate(qs, i, j)
  {
    if Crowds(lifetime, qs, route, ds, i, j) {
      RequestsArePaced(rs, ts);
      SeparateDoNotCrowd(lifetime, qs, route, ds, i, j);
    }
  }

  /** A client that reports on every contact, and asks a server through one record only, is answered until it hangs. */
  lemma PacedClientIsAnswered(lifetime: int, rs: seq<Run>, ts: seq<Turn>, qs: seq<Request>, route: Route,
                              ds: seq<Arrival>, j: nat)
    requires ClientRun(rs, ts) && qs == RequestsOf(rs, ts)
    requires Delivered(qs, route, ds) && InOrder(ds) && lifetime <= RETRY_SECONDS
    requires j < |qs| && Reaches(qs[j], route)
    requires forall i :: 0 <= i < |qs| && i != j && Reaches(qs[i], route) ==> Separate(qs, i, j)
    ensures Answers(lifetime, ds, route.at[j]) <==> Responsive(ds, route.at[j])
  {
    RefusedExactly(lifetime, rs, ts, qs, route, ds, j);
    if i :| 0 <= i < |qs| && Crowds(lifetime, qs, route, ds, i, j) {
      OnlyOthersCrowd(lifetime, rs, ts, qs, route, ds, i, j);
    }
  }

  // ---------- a server that is refused to a client because it was learnt twice ----------

  /** The client learns p twice and asks it through one record. */
  function AsksOnce(p: Peer, t: int): (turn: Turn) {
    Turn([Learned([p, p], t), GetNext], t, Some(t), [], Some(Answered(t)))
  }

  /** The next time it is the turn of a server on probation, it asks through the other. */
  function AsksAgain(t: int): (turn: Turn) {
    Turn([GetNext, GetNext], t + 1, Some(t + 1), [], Some(TimedOut(t + 2)))
  }

  /** When it asks for the first time. */
  function FirstChosen(p: Peer): (r: Run) {
    var c := Config([], [NewRecord(0, p), NewRecord(1, p)], End, At(0), true, -1, -1, map[], 2);
    Run(c, Some(InProbation(0)), [], 0, {})
  }

  /** When one record is promoted. */
  function OnePromoted(p: Peer, t: int): (r: Run) {
    var c := Activate(Started().cfg, Proven(NewRecord(0, p), t));
    Run(c.(probation := [NewRecord(1, p)], prevReturnedProbationary := true, nextId := 2), None, [Succeeded(0)], 0, {})
  }

  /** When it asks for the second time. */
  function SecondChosen(p: Peer, t: int): (r: Run) {
    var r := OnePromoted(p, t);
    r.(cfg := r.cfg.(activeCursor := At(0), probationCursor := At(0)), pending := Some(InProbation(0)))
  }

  /** When it has given up. */
  function OneFailed(p: Peer, t: int): (r: Run) {
    var r := SecondChosen(p, t);
    r.(cfg := r.cfg.(probation := [FailedOnce(NewRecord(1, p), t + 2)]), pending := None,
       log := [Succeeded(0), Failed(1)])
  }

  lemma ExecTwo(r: Run, x: Event, y: Event)
    requires Good(r) && Good(Step(r, x))
    ensures Exec(r, [x, y]) == Step(Step(r, x), y)
  {
    assert [x, y] == [x] + [y];
    Contacts.ExecAppend(r, [x], [y]);
    Contacts.ExecSingle(r, x);
    Contacts.ExecSingle(Step(r, x), y);
  }

  lemma LearnsTwice(p: Peer, t: int, c: Config)
    requires c == Started().cfg
    ensures Learn(c, [p, p], t) == c.(probation := [NewRecord(0, p), NewRecord(1, p)], nextId := 2)
  {
    assert Admitted(c, [p], t) == [p];
    assert [p, p][1..] == [p];
    assert Admitted(c, [p, p], t) == [p, p];
    assert NewRecords(0, [p, p]) == [NewRecord(0, p), NewRecord(1, p)];
  }

  lemma ChoosesFirst(p: Peer, t: int)
    ensures Good(Started()) && Exec(Started(), [Learned([p, p], t), GetNext]) == FirstChosen(p)
  {
    LearnsTwice(p, t, Started().cfg);
    StepKeepsGood(Started(), Learned([p, p], t));
    ExecTwo(Started(), Learned([p, p], t), GetNext);
  }

  lemma PromotesFirst(p: Peer, t: int)
    requires Good(FirstChosen(p))
    ensures Step(FirstChosen(p), Answered(t)) == OnePromoted(p, t)
  {
    assert Remove([NewRecord(0, p), NewRecord(1, p)], 0) == [NewRecord(1, p)];
  }

  lemma ChoosesSecond(p: Peer, t: int)
    requires Good(OnePromoted(p, t))
    ensures Exec(OnePromoted(p, t), [GetNext, GetNext]) == SecondChosen(p, t)
  {
    StepKeepsGood(OnePromoted(p, t), GetNext);
    ExecTwo(OnePromoted(p, t), GetNext, GetNext);
  }

  lemma FailsSecond(p: Peer, t: int)
    requires Good(SecondChosen(p, t))
    ensures Step(SecondChosen(p, t), TimedOut(t + 2)) == OneFailed(p, t)
  {
  }

  lemma QuietTurn(r: Run, t: Turn, q: Run, s: Run)
    requires Good(r) && q == Exec(r, t.before) && t.during == [] && t.report.Some? && TurnOk(t, q)
    requires s == Step(q, t.report.value)
    ensures Leads(r, t, s)
  {
    TurnSplits(r, t, q);
  }

  lemma FirstTurn(p: Peer, t: int, turn: Turn)
    requires t > RETRY_SECONDS && turn == AsksOnce(p, t)
    ensures Leads(Started(), turn, OnePromoted(p, t)) && Asked(Started(), turn) == NewRecord(0, p)
  {
    ChoosesFirst(p, t);
    PromotesFirst(p, t);
    QuietTurn(Started(), turn, FirstChosen(p), OnePromoted(p, t));
  }

  lemma SecondTurn(p: Peer, t: int, turn: Turn)
    requires t > RETRY_SECONDS && Good(OnePromoted(p, t)) && turn == AsksAgain(t)
    ensures Leads(OnePromoted(p, t), turn, OneFailed(p, t)) && Asked(OnePromoted(p, t), turn) == NewRecord(1, p)
  {
    ChoosesSecond(p, t);
    FailsSecond(p, t);
    QuietTurn(OnePromoted(p, t), turn, SecondChosen(p, t), OneFailed(p, t));
  }

  lemma TwoTurns(p: Peer, t: int, t0: Turn, t1: Turn, r0: Run, r1: Run, r2: Run)
    requires t > RETRY_SECONDS && t0 == AsksOnce(p, t) && t1 == AsksAgain(t)
    requires r0 == Started() && r1 == OnePromoted(p, t) && r2 == OneFailed(p, t)
    ensures Leads(r0, t0, r1) && Asked(r0, t0) == NewRecord(0, p)
    ensures Leads(r1, t1, r2) && Asked(r1, t1) == NewRecord(1, p)
  {
    FirstTurn(p, t, t0);
    SecondTurn(p, t, t1);
  }

  lemma PairIsRun(rs: seq<Run>, ts: seq<Turn>, a: Record, b: Record)
    requires |rs| == 3 && |ts| == 2 && TurnsInOrder(ts) && LeadsAt(rs, ts, 0) && LeadsAt(rs, ts, 1)
    requires Asked(rs[0], ts[0]) == a && Asked(rs[1], ts[1]) == b
    ensures ClientRun(rs, ts)
    ensures RequestsOf(rs, ts) == [RequestOf(ts[0], a), RequestOf(ts[1], b)]
  {
  }

  /** What p receives of it. */
  function TwoPackets(src: Address, t: int): (ds: seq<Arrival>) {
    [Arrival(src, t, Accepted, []), Arrival(src, t + 1, Accepted, [])]
  }

  lemma TwoRequestsDelivered(p: Peer, src: Address, t: int, qs: seq<Request>)
    requires qs == [RequestOf(AsksOnce(p, t), NewRecord(0, p)), RequestOf(AsksAgain(t), NewRecord(1, p))]
    ensures Delivered(qs, Route(p, src, 0, [0, 1]), TwoPackets(src, t))
  {
    var route := Route(p, src, 0, [0, 1]);
    assert Reaches(qs[0], route) && Reaches(qs[1], route);
    assert route.at[0] == 0 && route.at[1] == 1;
  }

  lemma SecondIsTooSoon(src: Address, t: int, ds: seq<Arrival>)
    requires ds == TwoPackets(src, t)
    ensures InOrder(ds) && Answers(RETRY_SECONDS, ds, 0) && Responsive(ds, 1) && !Answers(RETRY_SECONDS, ds, 1)
  {
    AnsweredExactly(RETRY_SECONDS, ds, 0);
    AnsweredExactly(RETRY_SECONDS, ds, 1);
  }

  /**
   * Refusals do happen to a client that reports on every contact: from the start of a node, with any server it is told
   * of twice in one response. The server answers the request through the first record and refuses the one through the
   * second, a second later, and the client counts a failure.
   */
  lemma SecondRecordIsRefused(p: Peer, src: Address, t: int, rs: seq<Run>, ts: seq<Turn>, ds: seq<Arrival>)
    requires t > RETRY_SECONDS && ds == TwoPackets(src, t)
    requires rs == [Started(), OnePromoted(p, t), OneFailed(p, t)] && ts == [AsksOnce(p, t), AsksAgain(t)]
    ensures ClientRun(rs, ts) && Delivered(RequestsOf(rs, ts), Route(p, src, 0, [0, 1]), ds) && InOrder(ds)
    ensures Answers(RETRY_SECONDS, ds, 0) && Responsive(ds, 1) && !Answers(RETRY_SECONDS, ds, 1)
    ensures rs[2].log == [Succeeded(0), Failed(1)]
  {
    TwoTurns(p, t, ts[0], ts[1], rs[0], rs[1], rs[2]);
    PairIsRun(rs, ts, NewRecord(0, p), NewRecord(1, p));
    TwoRequestsDelivered(p, src, t, RequestsOf(rs, ts));
    SecondIsTooSoon(src, t, ds);
  }
}
