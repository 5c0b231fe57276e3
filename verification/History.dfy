/** What a record says of its server, told from the reports on it over a whole run; and the ban list told likewise. */
module History {
  import opened Options
  import opened Wire
  import opened Records
  import opened MruCaches
  import opened CacheRuns
  import opened Scheduler
  import opened Runs
  import Rotation

  // ---------- reports and what they say ----------

  predicate IsReport(e: Event) {
    e.TimedOut? || e.Answered? || e.Rejected?
  }

  /** What the event reports about record id: nothing, unless that is the one returned last. */
  function ReportOn(r: Run, e: Event, id: nat): (h: seq<Event>)
    requires Good(r)
  {
    if IsReport(e) && r.pending.Some? && Deref(r.cfg, r.pending.value).id == id then [e] else []
  }

  /** All that is reported about it over a run. */
  function ReportsOn(r: Run, es: seq<Event>, id: nat): (h: seq<Event>)
    requires Good(r)
    decreases |es|
  {
    if es == [] then []
    else
      StepKeepsGood(r, es[0]);
      ReportOn(r, es[0], id) + ReportsOn(Step(r, es[0]), es[1..], id)
  }

  /** The time of the last failure or success, or t if there was none. */
  function LastReport(h: seq<Event>, t: int): (now: int) {
    if h == [] then t
    else match h[|h| - 1]
         case TimedOut(now) => now
         case Answered(now) => now
         case _ => LastReport(h[..|h| - 1], t)
  }

  /** The failures since the last success, or since the start, where there were n. */
  function FailuresSince(h: seq<Event>, n: nat): (k: nat) {
    if h == [] then n
    else match h[|h| - 1]
         case TimedOut(_) => FailuresSince(h[..|h| - 1], n) + 1
         case Answered(_) => 0
         case _ => FailuresSince(h[..|h| - 1], n)
  }

  predicate Succeeds(h: seq<Event>) {
    exists e :: e in h && e.Answered?
  }

  predicate ShutsDown(h: seq<Event>) {
    exists e :: e in h && e.Rejected? && e.reason == 2
  }

  predicate Unsupported(h: seq<Event>, kind: int) {
    exists e :: e in h && e.Rejected? && e.kind as int == kind && e.reason == 3
  }

  /** Record y is record x after the reports h: nothing else changed it. */
  predicate Tells(x: Record, h: seq<Event>, y: Record) {
    && y.id == x.id && y.peer == x.peer
    && y.lastAccess == LastReport(h, x.lastAccess)
    && y.failureCount == FailuresSince(h, x.failureCount)
    && (y.probationary <==> x.probationary && !Succeeds(h))
    && (y.ip4Peers <==> x.ip4Peers && !Unsupported(h, 4))
    && (y.ip6Peers <==> x.ip6Peers && !Unsupported(h, 6))
    && (y.signkey <==> x.signkey && !Unsupported(h, 8))
    && (y.shuttingdown <==> x.shuttingdown || ShutsDown(h))
  }

  lemma TellsNothing(x: Record)
    ensures Tells(x, [], x)
  {
  }

  lemma {:induction false} LastReportAppend(h: seq<Event>, k: seq<Event>, t: int)
    ensures LastReport(h + k, t) == LastReport(k, LastReport(h, t))
    decreases |k|
  {
    if k == [] {
      assert h + k == h;
    } else {
      assert (h + k)[..|h + k| - 1] == h + k[..|k| - 1];
      LastReportAppend(h, k[..|k| - 1], t);
    }
  }

  lemma {:induction false} FailuresAppend(h: seq<Event>, k: seq<Event>, n: nat)
    ensures FailuresSince(h + k, n) == FailuresSince(k, FailuresSince(h, n))
    decreases |k|
  {
    if k == [] {
      assert h + k == h;
    } else {
      assert (h + k)[..|h + k| - 1] == h + k[..|k| - 1];
      FailuresAppend(h, k[..|k| - 1], n);
    }
  }

  lemma RejectionsAppend(h: seq<Event>, k: seq<Event>, kind: int)
    ensures Succeeds(h + k) <==> Succeeds(h) || Succeeds(k)
    ensures ShutsDown(h + k) <==> ShutsDown(h) || ShutsDown(k)
    ensures Unsupported(h + k, kind) <==> Unsupported(h, kind) || Unsupported(k, kind)
  {
    assert forall e :: e in h + k <==> e in h || e in k;
  }

  lemma TellsOn(x: Record, h: seq<Event>, z: Record, k: seq<Event>, y: Record)
    requires Tells(x, h, z) && Tells(z, k, y)
    ensures Tells(x, h + k, y)
  {
    LastReportAppend(h, k, x.lastAccess);
    FailuresAppend(h, k, x.failureCount);
    RejectionsAppend(h, k, 4);
    RejectionsAppend(h, k, 6);
    RejectionsAppend(h, k, 8);
  }

  // ---------- one event ----------

  lemma FailureTells(x: Record, now: int)
    ensures Tells(x, [TimedOut(now)], FailedOnce(x, now))
  {
    assert [TimedOut(now)][..0] == [];
  }

  lemma SuccessTells(x: Record, now: int)
    ensures Tells(x, [Answered(now)], Proven(x, now))
  {
    assert Answered(now) in [Answered(now)];
  }

  lemma RejectionTells(x: Record, kind: byte, reason: byte)
    ensures Tells(x, [Rejected(kind, reason)], Disabled(x, kind, reason))
  {
    var h := [Rejected(kind, reason)];
    assert h[..0] == [] && h[0] in h;
  }

  lemma AssignLeaves(c: Config, ref: Ref, r: Record, y: Record)
    requires IdsOk(c) && ValidRef(c, ref) && r.id == Deref(c, ref).id && Lists(Assign(c, ref, r), y)
    ensures if y.id == r.id then y == r else Lists(c, y)
  {
    DisjointIds(c, ref);
    match ref
    case InActive(i) => IdsUpdate(c.active, i, r);
    case InProbation(i) => IdsUpdate(c.probation, i, r);
  }

  lemma EvictionLeaves(c: Config, ref: Ref, now: int, y: Record)
    requires IdsOk(c) && Current(c, ref) && FailsFinally(Deref(c, ref)) && Lists(Fail(c, ref, now), y)
    ensures y.id != Deref(c, ref).id && Lists(c, y)
  {
    EvictionIds(c, ref, now);
    assert y.id in Listed(Fail(c, ref, now));
    EraseOnlyRemoves(c, ref);
  }

  lemma PromotionLeaves(c: Config, i: nat, now: int, y: Record)
    requires Invariant(c) && Current(c, InProbation(i)) && Lists(Succeed(c, InProbation(i), now), y)
    ensures if y.id == c.probation[i].id then y == Proven(c.probation[i], now) else Lists(c, y)
  {
    var rec := Proven(c.probation[i], now);
    PromotedLists(c, i, now);
    DisjointIds(c, InProbation(i));
    InRemove(c.probation, i);
    InInsert(c.active, rec);
  }

  /** A report changes the record rec it is about as the reports tell, and no other. */
  predicate Changes(c: Config, rec: Record, e: Event, y: Record) {
    if y.id == rec.id then Tells(rec, [e], y) else Lists(c, y)
  }

  lemma FailChanges(c: Config, ref: Ref, now: int, y: Record)
    requires Invariant(c) && Current(c, ref) && Lists(Fail(c, ref, now), y)
    ensures Changes(c, Deref(c, ref), TimedOut(now), y)
  {
    var rec := Deref(c, ref);
    if FailsFinally(rec) {
      EvictionLeaves(c, ref, now, y);
    } else {
      AssignLeaves(c, ref, FailedOnce(rec, now), y);
      FailureTells(rec, now);
    }
  }

  lemma SucceedChanges(c: Config, ref: Ref, now: int, y: Record)
    requires Invariant(c) && Current(c, ref) && Lists(Succeed(c, ref, now), y)
    ensures Changes(c, Deref(c, ref), Answered(now), y)
  {
    SuccessTells(Deref(c, ref), now);
    if ref.InActive? {
      AssignLeaves(c, ref, Proven(Deref(c, ref), now), y);
    } else {
      PromotionLeaves(c, ref.i, now, y);
    }
  }

  lemma RejectChanges(c: Config, ref: Ref, kind: byte, reason: byte, y: Record)
    requires Invariant(c) && Current(c, ref)
    requires Lists(Assign(c, ref, Disabled(Deref(c, ref), kind, reason)), y)
    ensures Changes(c, Deref(c, ref), Rejected(kind, reason), y)
  {
    AssignLeaves(c, ref, Disabled(Deref(c, ref), kind, reason), y);
    RejectionTells(Deref(c, ref), kind, reason);
  }

  lemma ReportTells(r: Run, ref: Ref, e: Event, y: Record)
    requires Good(r) && r.pending == Some(ref) && IsReport(e) && Lists(Report(r, ref, e).cfg, y)
    ensures Changes(r.cfg, Deref(r.cfg, ref), e, y)
  {
    match e
    case TimedOut(now) => FailChanges(r.cfg, ref, now, y);
    case Answered(now) => SucceedChanges(r.cfg, ref, now, y);
    case Rejected(kind, reason) => RejectChanges(r.cfg, ref, kind, reason, y);
  }

  lemma OtherEventsLeave(r: Run, e: Event, y: Record)
    requires Good(r) && Lists(Step(r, e).cfg, y) && y.id < r.cfg.nextId && (!IsReport(e) || r.pending.None?)
    ensures Lists(r.cfg, y)
  {
    if e.Learned? {
      NewRecordsAreNew(r.cfg.nextId, Admitted(r.cfg, e.peers, e.now));
    }
  }

  lemma StepTells(r: Run, e: Event, y: Record) returns (x: Record)
    requires Good(r) && Lists(Step(r, e).cfg, y) && y.id < r.cfg.nextId
    ensures Lists(r.cfg, x) && Tells(x, ReportOn(r, e, y.id), y)
  {
    x := y;
    if IsReport(e) && r.pending.Some? {
      var ref := r.pending.value;
      ReportTells(r, ref, e, y);
      if y.id == Deref(r.cfg, ref).id {
        x := Deref(r.cfg, ref);
      }
    } else {
      OtherEventsLeave(r, e, y);
    }
  }

  // ---------- whole runs ----------

  /** A record as it is created: never reported on, and taken to support everything. */
  predicate Unreported(x: Record) {
    && x.failureCount == 0 && x.lastAccess == 0 && x.probationary
    && x.ip4Peers && x.ip6Peers && x.signkey && !x.shuttingdown
  }

  predicate LearntIn(p: Peer, es: seq<Event>) {
    exists e :: e in es && e.Learned? && p in e.peers
  }

  /** Where record x comes from: it was listed in r, or is created during es for a server learnt then. */
  predicate Begins(r: Run, es: seq<Event>, x: Record) {
    if x.id < r.cfg.nextId then Lists(r.cfg, x) else Unreported(x) && LearntIn(x.peer, es)
  }

  lemma {:induction false} AdmittedAreLearnt(c: Config, ps: seq<Peer>, now: int)
    ensures forall p :: p in Admitted(c, ps, now) ==> p in ps
  {
    if ps != [] {
      AdmittedAreLearnt(c, ps[1..], now);
    }
  }

  lemma CreatedUnreported(r: Run, e: Event, y: Record)
    requires Good(r) && Lists(Step(r, e).cfg, y) && y.id >= r.cfg.nextId
    ensures Unreported(y) && LearntIn(y.peer, [e])
  {
    StepKeepsGood(r, e);
    IdsBelowNext(Step(r, e).cfg, y);
    if !e.Learned? {
      OnlyLearningCreates(r, e);
    } else {
      var qs := Admitted(r.cfg, e.peers, e.now);
      ListedIsCreated(r.cfg);
      assert y in NewRecords(r.cfg.nextId, qs);
      NewRecordPeers(r.cfg.nextId, qs);
      AdmittedAreLearnt(r.cfg, e.peers, e.now);
      assert e in [e];
    }
  }

  lemma NothingBeforeCreation(r: Run, e: Event, id: nat)
    requires Good(r) && id >= r.cfg.nextId
    ensures ReportOn(r, e, id) == []
  {
    if r.pending.Some? {
      DisjointIds(r.cfg, r.pending.value);
      ListedIsCreated(r.cfg);
    }
  }

  /** One event earlier: record z of the next state goes back to a record that was listed, or created by the event. */
  lemma BeginsBefore(r: Run, e: Event, es: seq<Event>, q: Run, z: Record) returns (x: Record)
    requires Good(r) && q == Step(r, e) && Good(q) && Begins(q, es, z)
    ensures Begins(r, [e] + es, x) && Tells(x, ReportOn(r, e, z.id), z)
  {
    x := z;
    StepDescends(r, e);
    if z.id < r.cfg.nextId {
      x := StepTells(r, e, z);
    } else {
      NothingBeforeCreation(r, e, z.id);
      TellsNothing(z);
      if z.id < q.cfg.nextId {
        CreatedUnreported(r, e, z);
        var f :| f in [e] && f.Learned? && z.peer in f.peers;
        assert f in [e] + es;
      } else {
        var f :| f in es && f.Learned? && z.peer in f.peers;
        assert f in [e] + es;
      }
    }
  }

  /** Record y, listed after es, goes back to x by the reports on it. */
  predicate GoesBack(r: Run, es: seq<Event>, x: Record, y: Record)
    requires Good(r)
  {
    Begins(r, es, x) && Tells(x, ReportsOn(r, es, y.id), y)
  }

  lemma GoesBackOneMore(r: Run, es: seq<Event>, q: Run, z: Record, y: Record) returns (x: Record)
    requires Good(r) && es != [] && q == Step(r, es[0]) && Good(q) && GoesBack(q, es[1..], z, y)
    ensures GoesBack(r, es, x, y)
  {
    assert es == [es[0]] + es[1..];
    x := BeginsBefore(r, es[0], es[1..], q, z);
    TellsOn(x, ReportOn(r, es[0], y.id), z, ReportsOn(q, es[1..], y.id), y);
  }

  /**
   * Over every run, a listed record is its own history: its peer is the one it was created for, it was last accessed
   * when it was last reported on, it has failed as often as reported since its last success, it is on probation until
   * its first success, and exactly those capabilities are off that some report on it called unsupported. No event that
   * is not a report on this record changes anything in it. A record that was not there when the run began starts out
   * unreported.
   */
  lemma {:induction false} RecordsTellTheirHistory(r: Run, es: seq<Event>, y: Record) returns (x: Record)
    requires Good(r) && Lists(Exec(r, es).cfg, y)
    ensures Begins(r, es, x) && Tells(x, ReportsOn(r, es, y.id), y)
    decreases |es|
  {
    if es == [] {
      x := y;
      IdsBelowNext(r.cfg, y);
      TellsNothing(y);
    } else {
      StepKeepsGood(r, es[0]);
      var z := RecordsTellTheirHistory(Step(r, es[0]), es[1..], y);
      x := GoesBackOneMore(r, es, Step(r, es[0]), z, y);
    }
  }

  /**
   * So a server is due exactly when more than the waiting time has passed since the last report through its record, or
   * since the epoch of the clock if there was none.
   */
  lemma DueExactly(r: Run, es: seq<Event>, y: Record, now: int)
    requires Good(r) && Lists(Exec(r, es).cfg, y)
    ensures exists x :: Begins(r, es, x) && x.id == y.id &&
              (Due(y, now) <==> now > LastReport(ReportsOn(r, es, y.id), x.lastAccess) + 60)
  {
    var x := RecordsTellTheirHistory(r, es, y);
  }

  // ---------- the ban list ----------

  /** The calls an event makes on the ban list: an Add for a fourth failure in a row, a Clean by the cleaner. */
  function BanCall(r: Run, e: Event): (cs: seq<Call<Peer>>)
    requires Good(r)
  {
    if e.BansCleaned? then [Call.Clean(e.now)]
    else if e.TimedOut? && r.pending.Some? && Deref(r.cfg, r.pending.value).failureCount >= 3 then
      [Call.Add(Deref(r.cfg, r.pending.value).peer, e.now)]
    else []
  }

  function BanCalls(r: Run, es: seq<Event>): (cs: seq<Call<Peer>>)
    requires Good(r)
    decreases |es|
  {
    if es == [] then []
    else
      StepKeepsGood(r, es[0]);
      BanCall(r, es[0]) + BanCalls(Step(r, es[0]), es[1..])
  }

  lemma FailureBans(c: Config, ref: Ref, now: int)
    requires Current(c, ref)
    ensures var rec := Deref(c, ref);
            Fail(c, ref, now).bans == if rec.failureCount >= 3 then Emplaced(c.bans, rec.peer, now) else c.bans
  {
  }

  lemma SuccessBansNobody(c: Config, ref: Ref, now: int)
    requires Current(c, ref)
    ensures Succeed(c, ref, now).bans == c.bans
  {
  }

  lemma BansFollow(r: Run, e: Event)
    requires Good(r)
    ensures Step(r, e).cfg.bans ==
            if BanCall(r, e) == [] then r.cfg.bans else Apply(r.cfg.bans, 86400, BanCall(r, e)[0])
  {
    if e.TimedOut? && r.pending.Some? {
      FailureBans(r.cfg, r.pending.value, e.now);
    } else if e.Answered? && r.pending.Some? {
      SuccessBansNobody(r.cfg, r.pending.value, e.now);
    }
  }

  lemma AfterMore(cs: seq<Call<Peer>>, ds: seq<Call<Peer>>, m: map<Peer, int>)
    requires After(86400, cs, |cs|, true) == m && |ds| <= 1
    ensures After(86400, cs + ds, |cs + ds|, true) == if ds == [] then m else Apply(m, 86400, ds[0])
  {
    if ds == [] {
      assert cs + ds == cs;
    } else {
      AfterPrefix(86400, cs, cs + ds, |cs|, true);
    }
  }

  predicate BansAre(r: Run, cs: seq<Call<Peer>>) {
    r.cfg.bans == After(86400, cs, |cs|, true)
  }

  lemma BansOneMore(r: Run, e: Event, q: Run, cs: seq<Call<Peer>>)
    requires Good(r) && q == Step(r, e) && BansAre(r, cs)
    ensures BansAre(q, cs + BanCall(r, e))
  {
    BansFollow(r, e);
    AfterMore(cs, BanCall(r, e), r.cfg.bans);
  }

  lemma Regrouped<T>(x: seq<T>, y: seq<T>, z: seq<T>)
    ensures x + y + z == x + (y + z)
  {
  }

  /**
   * Over every run the ban list is what the cache makes of one Add for each fourth failure in a row and of the
   * cleanings, for a lifetime of a day, so what holds of runs of the cache holds of bans. Nothing else touches it.
   */
  lemma {:induction false} BansAreACacheRun(r: Run, es: seq<Event>, cs: seq<Call<Peer>>)
    requires Good(r) && r.cfg.bans == After(86400, cs, |cs|, true)
    ensures var ds := cs + BanCalls(r, es); Exec(r, es).cfg.bans == After(86400, ds, |ds|, true)
    decreases |es|
  {
    if es == [] {
      assert cs + BanCalls(r, es) == cs;
    } else {
      var q, c := Step(r, es[0]), BanCall(r, es[0]);
      StepKeepsGood(r, es[0]);
      BansOneMore(r, es[0], q, cs);
      BansAreACacheRun(q, es[1..], cs + c);
      Regrouped(cs, c, BanCalls(q, es[1..]));
    }
  }

  // ---------- the turns ----------

  /** The lists are equally long, and their cursors and the turn are the same. */
  predicate SameTurns(c: Config, d: Config) {
    && |c.active| == |d.active| && |c.probation| == |d.probation|
    && c.activeCursor == d.activeCursor && c.probationCursor == d.probationCursor
    && c.prevReturnedProbationary == d.prevReturnedProbationary
  }

  /** In both lists the same records stand in the same places. */
  predicate SamePlaces(c: Config, d: Config) {
    && SameTurns(c, d)
    && (forall i :: 0 <= i < |c.active| ==> c.active[i].id == d.active[i].id)
    && (forall i :: 0 <= i < |c.probation| ==> c.probation[i].id == d.probation[i].id)
  }

  /** The event neither evicts nor promotes a server, nor does the client learn one. */
  predicate KeepsLists(r: Run, e: Event)
    requires Good(r)
  {
    && (e.Learned? ==> Admitted(r.cfg, e.peers, e.now) == [])
    && (e.TimedOut? && r.pending.Some? ==> Deref(r.cfg, r.pending.value).failureCount < 3)
    && (e.Answered? && r.pending.Some? ==> r.pending.value.InActive?)
  }

  lemma AssignKeepsPlaces(c: Config, ref: Ref, rec: Record)
    requires ValidRef(c, ref) && rec.id == Deref(c, ref).id
    ensures SamePlaces(c, Assign(c, ref, rec))
  {
  }

  /** Such an event moves no server and no cursor, unless it is GetNext, and does not change whose turn it is. */
  lemma OnlyGetNextTurns(r: Run, e: Event)
    requires Good(r) && KeepsLists(r, e) && !e.GetNext?
    ensures SamePlaces(r.cfg, Step(r, e).cfg)
  {
    var c := r.cfg;
    if IsReport(e) && r.pending.Some? {
      var ref := r.pending.value;
      var rec := Deref(c, ref);
      match e
      case TimedOut(now) => AssignKeepsPlaces(c, ref, FailedOnce(rec, now));
      case Answered(now) => AssignKeepsPlaces(c, ref, Proven(rec, now));
      case Rejected(kind, reason) => AssignKeepsPlaces(c, ref, Disabled(rec, kind, reason));
    }
  }

  /** An eviction closes the gap, and the cursor of the list steps back over it; nothing else moves. */
  lemma EvictionClosesGap(c: Config, ref: Ref, now: int, k: nat)
    requires Current(c, ref) && Deref(c, ref).failureCount >= 3
    ensures var d, back := Fail(c, ref, now), if ref.i > 0 then At(ref.i - 1) else End;
            && d.prevReturnedProbationary == c.prevReturnedProbationary
            && (if ref.InActive? then
                  && d.probation == c.probation && d.probationCursor == c.probationCursor
                  && |d.active| == |c.active| - 1 && d.activeCursor == back
                  && (k < |d.active| ==> d.active[k] == c.active[if k < ref.i then k else k + 1])
                else
                  && d.active == c.active && d.activeCursor == c.activeCursor
                  && |d.probation| == |c.probation| - 1 && d.probationCursor == back
                  && (k < |d.probation| ==> d.probation[k] == c.probation[if k < ref.i then k else k + 1]))
  {
  }

  /** So does a promotion in the list on probation. */
  lemma PromotionClosesGap(c: Config, i: nat, now: int, k: nat)
    requires Current(c, InProbation(i))
    ensures var d := Succeed(c, InProbation(i), now);
            && d.prevReturnedProbationary == c.prevReturnedProbationary
            && |d.probation| == |c.probation| - 1 && d.probationCursor == (if i > 0 then At(i - 1) else End)
            && (k < |d.probation| ==> d.probation[k] == c.probation[if k < i then k else k + 1])
  {
  }

  predicate AllKeepLists(r: Run, es: seq<Event>)
    requires Good(r)
    decreases |es|
  {
    es != [] ==>
      && KeepsLists(r, es[0])
      && Good(Step(r, es[0])) && AllKeepLists(Step(r, es[0]), es[1..])
  }

  /** What the calls of GetNext in the run return. */
  function Returned(r: Run, es: seq<Event>): (refs: seq<Option<Ref>>)
    requires Good(r)
    decreases |es|
  {
    if es == [] then []
    else
      StepKeepsGood(r, es[0]);
      (if es[0].GetNext? then [Step(r, es[0]).pending] else []) + Returned(Step(r, es[0]), es[1..])
  }

  lemma NextKeepsSame(c: Config, d: Config)
    requires SameTurns(c, d)
    ensures SameTurns(Next(c).0, Next(d).0) && Next(c).1 == Next(d).1
  {
  }

  lemma {:induction false} NextTimesFrom(c: Config, k: nat)
    ensures Rotation.NextTimes(c, k + 1) == Rotation.NextTimes(Next(c).0, k)
    decreases k
  {
    if k > 0 {
      NextTimesFrom(c, k - 1);
    } else {
      assert Rotation.NextTimes(c, 0) == c;
    }
  }

  lemma ReturnedNext(r: Run, es: seq<Event>, c: Config, q: Run, n: nat)
    requires Good(r) && es != [] && q == Step(r, es[0]) && Good(q) && SameTurns(c, r.cfg)
    requires es[0].GetNext? && n < |Returned(r, es)|
    requires n > 0 ==> Returned(q, es[1..])[n - 1] == Rotation.Turn(Next(c).0, n - 1)
    ensures Returned(r, es)[n] == Rotation.Turn(c, n)
  {
    NextKeepsSame(c, r.cfg);
    assert Rotation.NextTimes(c, 0) == c;
    if n > 0 {
      NextTimesFrom(c, n - 1);
    }
  }

  /**
   * However reports, counts and cleanings fall between the calls of GetNextServer: as long as no server comes or goes,
   * the n-th call returns what the n-th of as many calls in a row would return. So what holds of calls in a row, that
   * turns alternate and which servers get theirs, holds of runs.
   */
  lemma {:induction false} TurnsOverRuns(r: Run, es: seq<Event>, c: Config, n: nat)
    requires Good(r) && AllKeepLists(r, es) && SameTurns(c, r.cfg) && n < |Returned(r, es)|
    ensures Returned(r, es)[n] == Rotation.Turn(c, n)
    decreases |es|
  {
    var q := Step(r, es[0]);
    if es[0].GetNext? {
      NextKeepsSame(c, r.cfg);
      if n > 0 {
        TurnsOverRuns(q, es[1..], Next(c).0, n - 1);
      }
      ReturnedNext(r, es, c, q, n);
    } else {
      OnlyGetNextTurns(r, es[0]);
      TurnsOverRuns(q, es[1..], c, n);
    }
  }
}
