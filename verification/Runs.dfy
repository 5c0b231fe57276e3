/**
 * Whole runs of the client loop over the shared lists, with the server thread counting and the ban cleaner running at
 * any moment. A server is reported on only while it is the one GetNextServer returned last.
 */
module Runs {
  import opened Options
  import opened Wire
  import opened Records
  import opened MruCaches
  import opened Scheduler

  /** A report on the record object with this id. */
  datatype Outcome = Failed(id: nat) | Succeeded(id: nat)

  datatype Event =
    | GetNext
    | TimedOut(now: int)
    | Answered(now: int)
    | Rejected(kind: byte, reason: byte)
    | Learned(peers: seq<Peer>, now: int)
    | Counted(ipv6: bool)
    | BansCleaned(now: int)

  /**
   * The lists, the server returned last and not yet reported on, and what happened so far: reports, evictions, and
   * records that were promoted into an address already active.
   */
  datatype Run = Run(cfg: Config, pending: Option<Ref>, log: seq<Outcome>, evictions: nat, merged: set<nat>)

  predicate Good(r: Run) {
    Invariant(r.cfg) && (r.pending.Some? ==> Current(r.cfg, r.pending.value))
  }

  predicate Merges(c: Config, ref: Ref)
    requires ValidRef(c, ref)
  {
    ref.InProbation? && HasAddress(c.active, Deref(c, ref).peer.addr)
  }

  function Report(r: Run, ref: Ref, e: Event): (q: Run)
    requires Current(r.cfg, ref)
    requires e.TimedOut? || e.Answered? || e.Rejected?
  {
    var rec := Deref(r.cfg, ref);
    match e
    case TimedOut(now) =>
      r.(cfg := Fail(r.cfg, ref, now), pending := None, log := r.log + [Failed(rec.id)],
         evictions := r.evictions + if FailsFinally(rec) then 1 else 0)
    case Answered(now) =>
      r.(cfg := Succeed(r.cfg, ref, now), pending := None, log := r.log + [Succeeded(rec.id)],
         merged := r.merged + if Merges(r.cfg, ref) then {rec.id} else {})
    case Rejected(kind, reason) =>
      r.(cfg := Assign(r.cfg, ref, Disabled(rec, kind, reason)))
  }

  /** A report without a pending server is not an event of any run; it changes nothing here. */
  function Step(r: Run, e: Event): (q: Run)
    requires Good(r)
  {
    match e
    case GetNext => var (d, ref) := Next(r.cfg); r.(cfg := d, pending := ref)
    case Learned(ps, now) => r.(cfg := Learn(r.cfg, ps, now))
    case Counted(ipv6) => r.(cfg := Count(r.cfg, ipv6))
    case BansCleaned(now) => r.(cfg := r.cfg.(bans := Cleaned(r.cfg.bans, BAN_SECONDS, now)))
    case _ => if r.pending.None? then r else Report(r, r.pending.value, e)
  }

  lemma DisablingKeepsGood(r: Run, ref: Ref, kind: byte, reason: byte)
    requires Good(r) && r.pending == Some(ref)
    ensures Good(Report(r, ref, Rejected(kind, reason)))
  {
    var rec := Deref(r.cfg, ref);
    assert rec in r.cfg.active || rec in r.cfg.probation;
    AssignKeepsInvariant(r.cfg, ref, Disabled(rec, kind, reason));
  }

  lemma StepKeepsGood(r: Run, e: Event)
    requires Good(r)
    ensures Good(Step(r, e))
  {
    var c := r.cfg;
    match e
    case GetNext => NextKeepsInvariant(c);
    case Learned(ps, now) => LearnKeepsInvariant(c, ps, now);
    case Counted(ipv6) => CountKeepsInvariant(c, ipv6);
    case BansCleaned(now) =>
    case TimedOut(now) =>
      if r.pending.Some? {
        FailKeepsInvariant(c, r.pending.value, now);
      }
    case Answered(now) =>
      if r.pending.Some? {
        SucceedKeepsInvariant(c, r.pending.value, now);
      }
    case Rejected(kind, reason) =>
      if r.pending.Some? {
        DisablingKeepsGood(r, r.pending.value, kind, reason);
      }
  }

  /** The state after the events es, in which the scheduler invariant holds at every point. */
  function Exec(r: Run, es: seq<Event>): (q: Run)
    requires Good(r)
    ensures Good(q)
    decreases |es|
  {
    if es == [] then r
    else
      StepKeepsGood(r, es[0]);
      Exec(Step(r, es[0]), es[1..])
  }

  /**
   * In every reachable state the cursors are valid, flags match lists, the active set is strictly sorted with one
   * record per address, no cached count exceeds the truth, and a pending server is still under its cursor.
   */
  lemma InvariantOverRuns(r: Run, es: seq<Event>)
    requires Good(r)
    ensures var q := Exec(r, es);
            && CursorOk(q.cfg.activeCursor, |q.cfg.active|) && CursorOk(q.cfg.probationCursor, |q.cfg.probation|)
            && Sorted(q.cfg.active)
            && (forall i, j :: 0 <= i < j < |q.cfg.active| ==> q.cfg.active[i].peer.addr != q.cfg.active[j].peer.addr)
            && (forall x :: x in q.cfg.active ==> !x.probationary)
            && (forall x :: x in q.cfg.probation ==> x.probationary)
            && (forall ipv6 :: Known(q.cfg, ipv6) <= Tally(q.cfg.active, ipv6))
            && (q.pending.Some? ==> Current(q.cfg, q.pending.value))
  {
    var q := Exec(r, es);
    SortedHasDistinctAddresses(q.cfg.active);
    CountKeepsInvariant(q.cfg, false);
    CountKeepsInvariant(q.cfg, true);
  }

  // ---------- whose turn it is ----------

  lemma FlagStays(r: Run, e: Event)
    requires Good(r) && !e.GetNext?
    ensures Step(r, e).cfg.prevReturnedProbationary == r.cfg.prevReturnedProbationary
  {
  }

  lemma FlagFollows(c: Config)
    ensures var (d, ref) := Next(c);
            d.prevReturnedProbationary == if ref.Some? then ref.value.InProbation? else c.prevReturnedProbationary
  {
  }

  /** No GetNext among these events returns a server. */
  predicate NobodyReturned(r: Run, es: seq<Event>)
    requires Good(r)
    decreases |es|
  {
    es != [] ==>
      && Good(Step(r, es[0]))
      && (es[0].GetNext? ==> Step(r, es[0]).pending.None?)
      && NobodyReturned(Step(r, es[0]), es[1..])
  }

  lemma {:induction false} FlagOverRuns(r: Run, es: seq<Event>)
    requires Good(r) && NobodyReturned(r, es)
    ensures Exec(r, es).cfg.prevReturnedProbationary == r.cfg.prevReturnedProbationary
    decreases |es|
  {
    if es != [] {
      if es[0].GetNext? {
        FlagFollows(r.cfg);
      } else {
        FlagStays(r, es[0]);
      }
      FlagOverRuns(Step(r, es[0]), es[1..]);
    }
  }

  /**
   * Turns alternate over runs: whatever happens to the lists between two servers that are returned, the second comes
   * from the other list than the first if that has a server by then, and otherwise from the same.
   */
  lemma TurnsAlternate(r: Run, es: seq<Event>, q: Run, s: Run)
    requires Good(r) && q == Step(r, GetNext) && Good(q) && q.pending.Some?
    requires NobodyReturned(q, es) && s == Exec(q, es)
    ensures var next := Step(s, GetNext).pending;
            if q.pending.value.InActive? then
              && (next.Some? && next.value.InProbation? <==> s.cfg.probation != [])
              && (next.Some? && next.value.InActive? <==> s.cfg.probation == [] && s.cfg.active != [])
            else
              && (next.Some? && next.value.InActive? <==> s.cfg.active != [])
              && (next.Some? && next.value.InProbation? <==> s.cfg.active == [] && s.cfg.probation != [])
  {
    FlagFollows(r.cfg);
    FlagOverRuns(q, es);
  }

  // ---------- failure accounting ----------

  /** How many failures were reported on this record since its last success. */
  function Streak(log: seq<Outcome>, id: nat): (n: nat) {
    if log == [] then 0
    else
      var last := log[|log| - 1];
      if last == Succeeded(id) then 0
      else Streak(log[..|log| - 1], id) + if last == Failed(id) then 1 else 0
  }

  function Ids(s: seq<Record>): (ids: set<nat>) {
    set q | q in s :: q.id
  }

  function Listed(c: Config): (ids: set<nat>) {
    Ids(c.active) + Ids(c.probation)
  }

  predicate Matches(s: seq<Record>, log: seq<Outcome>) {
    forall q :: q in s ==> q.failureCount == Streak(log, q.id)
  }

  /** Nothing has happened yet: every record created is listed, with no failures. */
  predicate Fresh(r: Run) {
    && Good(r) && r.log == [] && r.evictions == 0 && r.merged == {}
    && (forall q :: q in r.cfg.active ==> q.failureCount == 0)
    && (forall q :: q in r.cfg.probation ==> q.failureCount == 0)
    && (forall id: nat :: id < r.cfg.nextId ==> id in Listed(r.cfg))
    && |r.cfg.active| + |r.cfg.probation| == r.cfg.nextId
  }

  predicate Books(r: Run) {
    && Matches(r.cfg.active, r.log) && Matches(r.cfg.probation, r.log)
    && (forall o :: o in r.log ==> o.id < r.cfg.nextId)
    && (forall id :: id in r.merged ==> id < r.cfg.nextId)
    && (forall id: nat :: id < r.cfg.nextId ==> (id !in Listed(r.cfg) <==> Streak(r.log, id) == 4 || id in r.merged))
    && |r.cfg.active| + |r.cfg.probation| + r.evictions + |r.merged| == r.cfg.nextId
  }

  lemma {:induction false} NoStreakWithoutReports(log: seq<Outcome>, n: nat, id: nat)
    requires (forall o :: o in log ==> o.id < n) && n <= id
    ensures Streak(log, id) == 0
  {
    if log != [] {
      assert log[|log| - 1] in log;
      NoStreakWithoutReports(log[..|log| - 1], n, id);
    }
  }

  lemma StreakStep(log: seq<Outcome>, o: Outcome, id: nat)
    ensures Streak(log + [o], id) ==
            if o == Succeeded(id) then 0 else if o == Failed(id) then Streak(log, id) + 1 else Streak(log, id)
  {
    assert (log + [o])[..|log|] == log;
  }

  lemma IdsRemove(s: seq<Record>, i: nat)
    requires i < |s| && DistinctIds(s)
    ensures Ids(Remove(s, i)) == Ids(s) - {s[i].id}
  {
    InRemove(s, i);
  }

  lemma IdsUpdate(s: seq<Record>, i: nat, r: Record)
    requires i < |s| && r.id == s[i].id && DistinctIds(s)
    ensures Ids(s[i := r]) == Ids(s)
    ensures forall q :: q in s[i := r] && q != r ==> q in s && q.id != r.id
  {
    var t := s[i := r];
    forall id | id in Ids(s)
      ensures id in Ids(t)
    {
      var k :| 0 <= k < |s| && s[k].id == id;
      assert t[k].id == id && t[k] in t;
    }
    forall q | q in t && q != r
      ensures q in s && q.id != r.id
    {
      var k :| 0 <= k < |t| && t[k] == q;
    }
    forall id | id in Ids(t)
      ensures id in Ids(s)
    {
      assert s[i].id in Ids(s);
    }
  }

  /** Reports on other records do not touch a list's agreement with the log. */
  lemma OthersMatch(s: seq<Record>, log: seq<Outcome>, o: Outcome)
    requires Matches(s, log) && o.id !in Ids(s)
    ensures Matches(s, log + [o])
  {
    forall q | q in s
      ensures q.failureCount == Streak(log + [o], q.id)
    {
      assert q.id in Ids(s);
      StreakStep(log, o, q.id);
    }
  }

  /** The reported record takes the new count, the rest of its list is as before. */
  lemma UpdateMatches(s: seq<Record>, log: seq<Outcome>, i: nat, r: Record, o: Outcome)
    requires i < |s| && r.id == s[i].id == o.id && DistinctIds(s) && Matches(s, log)
    requires r.failureCount == Streak(log + [o], o.id)
    ensures Matches(s[i := r], log + [o])
  {
    IdsUpdate(s, i, r);
    forall q | q in s[i := r]
      ensures q.failureCount == Streak(log + [o], q.id)
    {
      StreakStep(log, o, q.id);
    }
  }

  lemma RemoveMatches(s: seq<Record>, log: seq<Outcome>, i: nat, o: Outcome)
    requires i < |s| && s[i].id == o.id && DistinctIds(s) && Matches(s, log)
    ensures Matches(Remove(s, i), log + [o])
  {
    InRemove(s, i);
    forall q | q in Remove(s, i)
      ensures q.failureCount == Streak(log + [o], q.id)
    {
      StreakStep(log, o, q.id);
    }
  }

  lemma ListedIsCreated(c: Config)
    requires IdsOk(c)
    ensures forall id :: id in Listed(c) ==> id < c.nextId
  {
  }

  /** The ledger after a report on record o.id: it stays listed, is evicted, or is merged away. */
  lemma KeepBooks(r: Run, q: Run, o: Outcome)
    requires Good(r) && Books(r) && o.id in Listed(r.cfg)
    requires q.log == r.log + [o] && q.cfg.nextId == r.cfg.nextId
    requires Matches(q.cfg.active, q.log) && Matches(q.cfg.probation, q.log)
    requires |q.cfg.active| + |q.cfg.probation| + q.evictions + |q.merged| == q.cfg.nextId
    requires
      || (Listed(q.cfg) == Listed(r.cfg) && q.merged == r.merged && Streak(q.log, o.id) != 4)
      || (Listed(q.cfg) == Listed(r.cfg) - {o.id} && q.merged == r.merged && Streak(q.log, o.id) == 4)
      || (Listed(q.cfg) == Listed(r.cfg) - {o.id} && q.merged == r.merged + {o.id})
    ensures Books(q)
  {
    ListedIsCreated(r.cfg);
    forall id: nat | id < q.cfg.nextId
      ensures id !in Listed(q.cfg) <==> Streak(q.log, id) == 4 || id in q.merged
    {
      StreakStep(r.log, o, id);
    }
  }

  lemma DisjointIds(c: Config, ref: Ref)
    requires IdsOk(c) && ValidRef(c, ref)
    ensures Deref(c, ref).id in Listed(c)
    ensures Deref(c, ref).id !in Ids(if ref.InActive? then c.probation else c.active)
  {
    var rec := Deref(c, ref);
    assert rec in c.active || rec in c.probation;
  }

  lemma EvictionIds(c: Config, ref: Ref, now: int)
    requires IdsOk(c) && Current(c, ref) && FailsFinally(Deref(c, ref))
    ensures Listed(Fail(c, ref, now)) == Listed(c) - {Deref(c, ref).id}
  {
    DisjointIds(c, ref);
    match ref
    case InActive(i) => IdsRemove(c.active, i);
    case InProbation(i) => IdsRemove(c.probation, i);
  }

  lemma EvictionMatches(c: Config, ref: Ref, now: int, log: seq<Outcome>)
    requires IdsOk(c) && Current(c, ref) && FailsFinally(Deref(c, ref))
    requires Matches(c.active, log) && Matches(c.probation, log)
    ensures var d, o := Fail(c, ref, now), Failed(Deref(c, ref).id);
            Matches(d.active, log + [o]) && Matches(d.probation, log + [o])
  {
    var o := Failed(Deref(c, ref).id);
    DisjointIds(c, ref);
    match ref
    case InActive(i) =>
      OthersMatch(c.probation, log, o);
      RemoveMatches(c.active, log, i, o);
    case InProbation(i) =>
      OthersMatch(c.active, log, o);
      RemoveMatches(c.probation, log, i, o);
  }

  /** Assigning a record its new count keeps the ids, and the lists in agreement with the log. */
  lemma RecountMatches(c: Config, ref: Ref, r: Record, log: seq<Outcome>, o: Outcome)
    requires IdsOk(c) && ValidRef(c, ref) && r.id == Deref(c, ref).id == o.id
    requires Matches(c.active, log) && Matches(c.probation, log)
    requires r.failureCount == Streak(log + [o], o.id)
    ensures var d := Assign(c, ref, r);
            && Listed(d) == Listed(c)
            && Matches(d.active, log + [o]) && Matches(d.probation, log + [o])
  {
    DisjointIds(c, ref);
    match ref
    case InActive(i) =>
      OthersMatch(c.probation, log, o);
      UpdateMatches(c.active, log, i, r, o);
      IdsUpdate(c.active, i, r);
    case InProbation(i) =>
      OthersMatch(c.active, log, o);
      UpdateMatches(c.probation, log, i, r, o);
      IdsUpdate(c.probation, i, r);
  }

  lemma CountMatches(r: Run, ref: Ref)
    requires Good(r) && Books(r) && Current(r.cfg, ref)
    ensures Deref(r.cfg, ref).failureCount == Streak(r.log, Deref(r.cfg, ref).id) <= 3
  {
    var rec := Deref(r.cfg, ref);
    assert rec in r.cfg.active || rec in r.cfg.probation;
  }

  lemma EvictionKeepsBooks(r: Run, ref: Ref, now: int)
    requires Good(r) && Books(r) && Current(r.cfg, ref) && FailsFinally(Deref(r.cfg, ref))
    ensures Books(Report(r, ref, TimedOut(now)))
  {
    var id, q := Deref(r.cfg, ref).id, Report(r, ref, TimedOut(now));
    DisjointIds(r.cfg, ref);
    CountMatches(r, ref);
    StreakStep(r.log, Failed(id), id);
    EvictionIds(r.cfg, ref, now);
    EvictionMatches(r.cfg, ref, now, r.log);
    assert Streak(q.log, id) == 4 && q.merged == r.merged;
    KeepBooks(r, q, Failed(id));
  }

  lemma FailureKeepsBooks(r: Run, ref: Ref, now: int)
    requires Good(r) && Books(r) && Current(r.cfg, ref) && !FailsFinally(Deref(r.cfg, ref))
    ensures Books(Report(r, ref, TimedOut(now)))
  {
    var rec, q := Deref(r.cfg, ref), Report(r, ref, TimedOut(now));
    var rec' := FailedOnce(rec, now);
    DisjointIds(r.cfg, ref);
    CountMatches(r, ref);
    StreakStep(r.log, Failed(rec.id), rec.id);
    RecountMatches(r.cfg, ref, rec', r.log, Failed(rec.id));
    assert q.cfg == Assign(r.cfg, ref, rec') && Streak(q.log, rec.id) != 4;
    KeepBooks(r, q, Failed(rec.id));
  }

  lemma FailKeepsBooks(r: Run, ref: Ref, now: int)
    requires Good(r) && Books(r) && Current(r.cfg, ref)
    ensures Books(Report(r, ref, TimedOut(now)))
  {
    if FailsFinally(Deref(r.cfg, ref)) {
      EvictionKeepsBooks(r, ref, now);
    } else {
      FailureKeepsBooks(r, ref, now);
    }
  }

  lemma PromotedLists(c: Config, i: nat, now: int)
    requires Current(c, InProbation(i))
    ensures var d := Succeed(c, InProbation(i), now);
            && d.probation == Remove(c.probation, i)
            && d.active == (if Merges(c, InProbation(i)) then c.active
                            else Insert(c.active, Proven(c.probation[i], now)))
            && d.nextId == c.nextId
  {
  }

  lemma IdsInsert(s: seq<Record>, r: Record)
    ensures Ids(Insert(s, r)) == Ids(s) + {r.id}
  {
    InInsert(s, r);
  }

  lemma PromotionIds(c: Config, i: nat, now: int)
    requires Invariant(c) && Current(c, InProbation(i))
    ensures Listed(Succeed(c, InProbation(i), now)) ==
            if Merges(c, InProbation(i)) then Listed(c) - {c.probation[i].id} else Listed(c)
  {
    PromotedLists(c, i, now);
    IdsRemove(c.probation, i);
    DisjointIds(c, InProbation(i));
    IdsInsert(c.active, Proven(c.probation[i], now));
  }

  lemma PromotionMatches(c: Config, i: nat, now: int, log: seq<Outcome>)
    requires Invariant(c) && Current(c, InProbation(i))
    requires Matches(c.active, log) && Matches(c.probation, log)
    ensures var d, o := Succeed(c, InProbation(i), now), Succeeded(c.probation[i].id);
            Matches(d.active, log + [o]) && Matches(d.probation, log + [o])
  {
    var rec' := Proven(c.probation[i], now);
    var o := Succeeded(rec'.id);
    PromotedLists(c, i, now);
    DisjointIds(c, InProbation(i));
    StreakStep(log, o, rec'.id);
    OthersMatch(c.active, log, o);
    RemoveMatches(c.probation, log, i, o);
    InInsert(c.active, rec');
  }

  lemma PromotionCounts(r: Run, i: nat, now: int)
    requires Good(r) && Books(r) && Current(r.cfg, InProbation(i))
    ensures var q := Report(r, InProbation(i), Answered(now));
            && q.cfg.nextId == r.cfg.nextId
            && |q.cfg.active| + |q.cfg.probation| + q.evictions + |q.merged| == q.cfg.nextId
  {
    PromotedLists(r.cfg, i, now);
    DisjointIds(r.cfg, InProbation(i));
    ListedIsCreated(r.cfg);
    assert r.cfg.probation[i].id !in r.merged;
  }

  lemma PromotionKeepsBooks(r: Run, i: nat, now: int)
    requires Good(r) && Books(r) && Current(r.cfg, InProbation(i))
    ensures Books(Report(r, InProbation(i), Answered(now)))
  {
    var id := r.cfg.probation[i].id;
    DisjointIds(r.cfg, InProbation(i));
    StreakStep(r.log, Succeeded(id), id);
    PromotionIds(r.cfg, i, now);
    PromotionMatches(r.cfg, i, now, r.log);
    PromotionCounts(r, i, now);
    KeepBooks(r, Report(r, InProbation(i), Answered(now)), Succeeded(id));
  }

  lemma SuccessKeepsBooks(r: Run, i: nat, now: int)
    requires Good(r) && Books(r) && Current(r.cfg, InActive(i))
    ensures Books(Report(r, InActive(i), Answered(now)))
  {
    var rec := r.cfg.active[i];
    var o := Succeeded(rec.id);
    DisjointIds(r.cfg, InActive(i));
    StreakStep(r.log, o, rec.id);
    RecountMatches(r.cfg, InActive(i), Proven(rec, now), r.log, o);
    KeepBooks(r, Report(r, InActive(i), Answered(now)), o);
  }

  lemma {:induction false} IdsOfNewRecords(id: nat, ps: seq<Peer>)
    ensures forall i: nat :: i in Ids(NewRecords(id, ps)) <==> id <= i < id + |ps|
  {
    var rs := NewRecords(id, ps);
    forall i: nat | id <= i < id + |ps|
      ensures i in Ids(rs)
    {
      assert rs[i - id] in rs && rs[i - id].id == i;
    }
  }

  lemma IdsAppend(s: seq<Record>, t: seq<Record>)
    ensures Ids(s + t) == Ids(s) + Ids(t)
  {
    assert forall q :: q in s + t <==> q in s || q in t;
  }

  lemma NewRecordsMatch(log: seq<Outcome>, id: nat, ps: seq<Peer>)
    requires forall o :: o in log ==> o.id < id
    ensures Matches(NewRecords(id, ps), log)
  {
    NewRecordsAreNew(id, ps);
    forall q | q in NewRecords(id, ps)
      ensures Streak(log, q.id) == 0
    {
      NoStreakWithoutReports(log, id, q.id);
    }
  }

  lemma LearningKeepsBooks(r: Run, ps: seq<Peer>, now: int)
    requires Good(r) && Books(r)
    ensures Books(Step(r, Learned(ps, now)))
  {
    var c, q := r.cfg, Step(r, Learned(ps, now));
    var qs := Admitted(c, ps, now);
    var rs := NewRecords(c.nextId, qs);
    NewRecordsMatch(r.log, c.nextId, qs);
    IdsOfNewRecords(c.nextId, qs);
    IdsAppend(c.probation, rs);
    assert q.cfg.probation == c.probation + rs;
    assert forall x :: x in c.probation + rs <==> x in c.probation || x in rs;
    forall id: nat | c.nextId <= id < q.cfg.nextId
      ensures id in Listed(q.cfg) && Streak(r.log, id) == 0
    {
      NoStreakWithoutReports(r.log, c.nextId, id);
    }
  }

  lemma UpdateKeepsMatches(s: seq<Record>, i: nat, r: Record, log: seq<Outcome>)
    requires i < |s| && DistinctIds(s) && Matches(s, log)
    requires r.id == s[i].id && r.failureCount == s[i].failureCount
    ensures Ids(s[i := r]) == Ids(s) && Matches(s[i := r], log)
  {
    IdsUpdate(s, i, r);
    assert s[i] in s;
  }

  lemma DisablingKeepsLists(c: Config, ref: Ref, kind: byte, reason: byte, log: seq<Outcome>)
    requires IdsOk(c) && ValidRef(c, ref) && Matches(c.active, log) && Matches(c.probation, log)
    ensures var d := Assign(c, ref, Disabled(Deref(c, ref), kind, reason));
            && Listed(d) == Listed(c) && Matches(d.active, log) && Matches(d.probation, log)
            && |d.active| == |c.active| && |d.probation| == |c.probation| && d.nextId == c.nextId
  {
    var r := Disabled(Deref(c, ref), kind, reason);
    match ref
    case InActive(i) => UpdateKeepsMatches(c.active, i, r, log);
    case InProbation(i) => UpdateKeepsMatches(c.probation, i, r, log);
  }

  lemma DisablingKeepsBooks(r: Run, ref: Ref, kind: byte, reason: byte)
    requires Good(r) && Books(r) && Current(r.cfg, ref)
    ensures Books(Report(r, ref, Rejected(kind, reason)))
  {
    DisablingKeepsLists(r.cfg, ref, kind, reason, r.log);
  }

  lemma ReportKeepsBooks(r: Run, ref: Ref, e: Event)
    requires Good(r) && Books(r) && Current(r.cfg, ref)
    requires e.TimedOut? || e.Answered? || e.Rejected?
    ensures Books(Report(r, ref, e))
  {
    match e
    case TimedOut(now) => FailKeepsBooks(r, ref, now);
    case Answered(now) =>
      if ref.InActive? {
        SuccessKeepsBooks(r, ref.i, now);
      } else {
        PromotionKeepsBooks(r, ref.i, now);
      }
    case Rejected(kind, reason) => DisablingKeepsBooks(r, ref, kind, reason);
  }

  lemma SameListsSameBooks(r: Run, q: Run)
    requires Books(r) && q.cfg.active == r.cfg.active && q.cfg.probation == r.cfg.probation
    requires q.cfg.nextId == r.cfg.nextId && q.log == r.log && q.evictions == r.evictions && q.merged == r.merged
    ensures Books(q)
  {
  }

  lemma StepKeepsBooks(r: Run, e: Event)
    requires Good(r) && Books(r)
    ensures Books(Step(r, e))
  {
    match e
    case Learned(ps, now) => LearningKeepsBooks(r, ps, now);
    case GetNext => SameListsSameBooks(r, Step(r, e));
    case Counted(_) => SameListsSameBooks(r, Step(r, e));
    case BansCleaned(_) => SameListsSameBooks(r, Step(r, e));
    case _ =>
      if r.pending.Some? {
        ReportKeepsBooks(r, r.pending.value, e);
      }
  }

  lemma {:induction false} BooksOverRuns(r: Run, es: seq<Event>)
    requires Good(r) && Books(r)
    ensures Books(Exec(r, es))
    decreases |es|
  {
    if es != [] {
      StepKeepsGood(r, es[0]);
      StepKeepsBooks(r, es[0]);
      BooksOverRuns(Step(r, es[0]), es[1..]);
    }
  }

  /**
   * Over every run: a listed record's count is its number of failures since its last success, at most 3; a record
   * leaves the lists exactly at its fourth failure in a row, or when it is promoted into an address already active;
   * and listed, evicted and merged records add up to all records ever created.
   */
  lemma FailureAccounting(r: Run, es: seq<Event>)
    requires Fresh(r)
    ensures var q := Exec(r, es);
            && (forall x :: x in q.cfg.active || x in q.cfg.probation ==>
                  x.failureCount == Streak(q.log, x.id) && x.failureCount <= 3)
            && (forall id: nat :: id < q.cfg.nextId && id !in q.merged ==>
                  (id in Listed(q.cfg) <==> Streak(q.log, id) < 4))
            && (forall id :: id in q.merged ==> id !in Listed(q.cfg))
            && |q.cfg.active| + |q.cfg.probation| + q.evictions + |q.merged| == q.cfg.nextId
  {
    forall id: nat | id < r.cfg.nextId
      ensures Streak(r.log, id) == 0
    {
    }
    BooksOverRuns(r, es);
    var q := Exec(r, es);
    forall id: nat | id < q.cfg.nextId && id in Listed(q.cfg)
      ensures Streak(q.log, id) < 4
    {
      var x :| (x in q.cfg.active || x in q.cfg.probation) && x.id == id;
    }
    forall id: nat | id < q.cfg.nextId && id !in Listed(q.cfg) && id !in q.merged
      ensures Streak(q.log, id) == 4
    {
    }
  }

  // ---------- what is learnt about a server ----------

  predicate Lists(c: Config, q: Record) {
    q in c.active || q in c.probation
  }

  /** Same record object; nothing the server said it does not support has been forgotten. */
  predicate Inherits(x: Record, y: Record) {
    && x.id == y.id && x.peer == y.peer
    && (y.ip4Peers ==> x.ip4Peers) && (y.ip6Peers ==> x.ip6Peers) && (y.signkey ==> x.signkey)
    && (x.shuttingdown ==> y.shuttingdown)
  }

  /** Every record of d that existed in c was listed there. */
  ghost predicate Descends(c: Config, d: Config) {
    && c.nextId <= d.nextId
    && forall y :: Lists(d, y) && y.id < c.nextId ==> exists x :: Lists(c, x) && Inherits(x, y)
  }

  lemma AssignDescends(c: Config, ref: Ref, r: Record)
    requires ValidRef(c, ref) && Inherits(Deref(c, ref), r)
    ensures Descends(c, Assign(c, ref, r))
  {
    var x := Deref(c, ref);
    assert Lists(c, x);
    forall y | Lists(Assign(c, ref, r), y)
      ensures exists x :: Lists(c, x) && Inherits(x, y)
    {
      if y == r {
        assert Inherits(x, y);
      } else {
        match ref {
          case InActive(i) => InUpdate(c.active, i, r);
          case InProbation(i) => InUpdate(c.probation, i, r);
        }
        assert Lists(c, y) && Inherits(y, y);
      }
    }
  }

  lemma PromotionDescends(c: Config, i: nat, now: int)
    requires Current(c, InProbation(i))
    ensures Descends(c, Succeed(c, InProbation(i), now))
  {
    var rec, d := c.probation[i], Succeed(c, InProbation(i), now);
    var rec' := Proven(rec, now);
    PromotedLists(c, i, now);
    InRemove(c.probation, i);
    InInsert(c.active, rec');
    assert Lists(c, rec) && Inherits(rec, rec');
    forall y | Lists(d, y)
      ensures exists x :: Lists(c, x) && Inherits(x, y)
    {
      assert y == rec' || (Lists(c, y) && Inherits(y, y));
    }
  }

  lemma EraseOnlyRemoves(c: Config, ref: Ref)
    requires Current(c, ref)
    ensures forall y :: Lists(Erase(c, ref), y) ==> Lists(c, y) && Inherits(y, y)
  {
    match ref
    case InActive(i) => InRemove(c.active, i);
    case InProbation(i) => InRemove(c.probation, i);
  }

  lemma EvictionDescends(c: Config, ref: Ref, now: int)
    requires Current(c, ref) && FailsFinally(Deref(c, ref))
    ensures Descends(c, Fail(c, ref, now))
  {
    EraseOnlyRemoves(c, ref);
    var d := Fail(c, ref, now);
    assert d.active == Erase(c, ref).active && d.probation == Erase(c, ref).probation;
    forall y | Lists(d, y)
      ensures Lists(c, y) && Inherits(y, y)
    {
      assert Lists(Erase(c, ref), y);
    }
  }

  lemma ReportDescends(r: Run, ref: Ref, e: Event)
    requires Current(r.cfg, ref)
    requires e.TimedOut? || e.Answered? || e.Rejected?
    ensures Descends(r.cfg, Report(r, ref, e).cfg)
  {
    var c, rec := r.cfg, Deref(r.cfg, ref);
    match e
    case Rejected(kind, reason) =>
      AssignDescends(c, ref, Disabled(rec, kind, reason));
    case TimedOut(now) =>
      if FailsFinally(rec) {
        EvictionDescends(c, ref, now);
      } else {
        AssignDescends(c, ref, FailedOnce(rec, now));
      }
    case Answered(now) =>
      if ref.InActive? {
        AssignDescends(c, ref, Proven(rec, now));
      } else {
        PromotionDescends(c, ref.i, now);
      }
  }

  lemma StepDescends(r: Run, e: Event)
    requires Good(r)
    ensures Descends(r.cfg, Step(r, e).cfg)
  {
    var c, d := r.cfg, Step(r, e).cfg;
    if (e.TimedOut? || e.Answered? || e.Rejected?) && r.pending.Some? {
      ReportDescends(r, r.pending.value, e);
    } else {
      forall y | Lists(d, y) && y.id < c.nextId
        ensures Lists(c, y) && Inherits(y, y)
      {
      }
    }
  }

  /**
   * For the life of a record, through promotion and whatever else happens: its address and port stay, capabilities
   * once switched off stay off, and a record that has left the lists never comes back.
   */
  lemma {:induction false} CapabilitiesOnlyFall(r: Run, es: seq<Event>)
    requires Good(r)
    ensures Descends(r.cfg, Exec(r, es).cfg)
    decreases |es|
  {
    if es == [] {
      assert forall y :: Inherits(y, y);
    } else {
      StepKeepsGood(r, es[0]);
      StepDescends(r, es[0]);
      var q := Step(r, es[0]);
      CapabilitiesOnlyFall(q, es[1..]);
      var d := Exec(q, es[1..]).cfg;
      forall y | Lists(d, y) && y.id < r.cfg.nextId
        ensures exists x :: Lists(r.cfg, x) && Inherits(x, y)
      {
        var z :| Lists(q.cfg, z) && Inherits(z, y);
        var x :| Lists(r.cfg, x) && Inherits(x, z);
        assert Inherits(x, y);
      }
    }
  }

  // ---------- the cached counts ----------

  /** How far a family's cached count lies below the truth. */
  function Lag(c: Config, ipv6: bool): (n: int) {
    Tally(c.active, ipv6) - Cached(c, ipv6)
  }

  /** The event evicts a server on probation, which was never counted. */
  predicate EvictsUncounted(r: Run, e: Event, ipv6: bool)
    requires Good(r)
  {
    && e.TimedOut? && r.pending.Some? && r.pending.value.InProbation?
    && var rec := Deref(r.cfg, r.pending.value);
       FailsFinally(rec) && rec.Ipv6() == ipv6
  }

  function UncountedEvictions(r: Run, es: seq<Event>, ipv6: bool): (n: nat)
    requires Good(r)
    decreases |es|
  {
    if es == [] then 0
    else
      StepKeepsGood(r, es[0]);
      (if EvictsUncounted(r, es[0], ipv6) then 1 else 0) + UncountedEvictions(Step(r, es[0]), es[1..], ipv6)
  }

  lemma FailLag(c: Config, ref: Ref, now: int, ipv6: bool)
    requires Current(c, ref)
    ensures var r := Deref(c, ref);
            Lag(Fail(c, ref, now), ipv6) == Lag(c, ipv6) +
            if ref.InProbation? && FailsFinally(r) && r.Ipv6() == ipv6 then 1 else 0
  {
    var r := Deref(c, ref);
    if ref.InActive? {
      if FailsFinally(r) {
        TallyAround(c.active, ref.i, ipv6);
      } else {
        TallyUpdate(c.active, ref.i, FailedOnce(r, now), ipv6);
      }
    }
  }

  lemma SucceedLag(c: Config, ref: Ref, now: int, ipv6: bool)
    requires Current(c, ref)
    ensures Lag(Succeed(c, ref, now), ipv6) == Lag(c, ipv6)
  {
    var r := Proven(Deref(c, ref), now);
    if ref.InActive? {
      TallyUpdate(c.active, ref.i, r, ipv6);
    } else {
      TallyInsert(c.active, r, ipv6);
    }
  }

  lemma ReportLag(r: Run, ref: Ref, e: Event, ipv6: bool)
    requires Good(r) && r.pending == Some(ref) && (e.TimedOut? || e.Answered? || e.Rejected?)
    ensures Lag(Report(r, ref, e).cfg, ipv6) == Lag(r.cfg, ipv6) + if EvictsUncounted(r, e, ipv6) then 1 else 0
  {
    match e
    case TimedOut(now) => FailLag(r.cfg, ref, now, ipv6);
    case Answered(now) => SucceedLag(r.cfg, ref, now, ipv6);
    case Rejected(kind, reason) =>
      if ref.InActive? {
        TallyUpdate(r.cfg.active, ref.i, Disabled(Deref(r.cfg, ref), kind, reason), ipv6);
      }
  }

  /** The event counts the servers of a family anew, because their number is taken to be unknown. */
  predicate Recounts(r: Run, e: Event, ipv6: bool) {
    e == Counted(ipv6) && Cached(r.cfg, ipv6) < 0
  }

  /** Only the eviction of a server on probation moves a count off the truth, and only a first count back to it. */
  lemma LagStep(r: Run, e: Event, ipv6: bool)
    requires Good(r)
    ensures Lag(Step(r, e).cfg, ipv6) ==
            if Recounts(r, e, ipv6) then 0
            else Lag(r.cfg, ipv6) + if EvictsUncounted(r, e, ipv6) then 1 else 0
  {
    if r.pending.Some? && (e.TimedOut? || e.Answered? || e.Rejected?) {
      ReportLag(r, r.pending.value, e, ipv6);
    }
  }

  predicate NeverRecounts(r: Run, es: seq<Event>, ipv6: bool)
    requires Good(r)
    decreases |es|
  {
    if es == [] then true
    else
      StepKeepsGood(r, es[0]);
      !Recounts(r, es[0], ipv6) && NeverRecounts(Step(r, es[0]), es[1..], ipv6)
  }

  /** The last recount of the run is the k-th event, or there is none and k is 0. */
  predicate LastRecount(r: Run, es: seq<Event>, ipv6: bool, k: nat)
    requires Good(r) && k <= |es|
  {
    && (k > 0 ==> Recounts(Exec(r, es[..k - 1]), es[k - 1], ipv6))
    && NeverRecounts(Exec(r, es[..k]), es[k..], ipv6)
  }

  predicate LagSince(r: Run, es: seq<Event>, ipv6: bool, k: nat)
    requires Good(r) && k <= |es|
  {
    Lag(Exec(r, es).cfg, ipv6) ==
    (if k == 0 then Lag(r.cfg, ipv6) else 0) + UncountedEvictions(Exec(r, es[..k]), es[k..], ipv6)
  }

  lemma ExecFirst(r: Run, es: seq<Event>, k: nat)
    requires Good(r) && 0 < k <= |es|
    ensures Good(Step(r, es[0]))
    ensures Exec(r, es[..k]) == Exec(Step(r, es[0]), es[1..][..k - 1])
    ensures es[k..] == es[1..][k - 1..]
  {
    StepKeepsGood(r, es[0]);
    assert es[..k][1..] == es[1..][..k - 1];
  }

  lemma RecountLater(r: Run, es: seq<Event>, ipv6: bool, k: nat, q: Run)
    requires Good(r) && Good(q) && 0 < k < |es| && q == Step(r, es[0])
    requires LastRecount(q, es[1..], ipv6, k) && LagSince(q, es[1..], ipv6, k)
    ensures LastRecount(r, es, ipv6, k + 1) && LagSince(r, es, ipv6, k + 1)
  {
    ExecFirst(r, es, k);
    ExecFirst(r, es, k + 1);
    ExecFirst(r, es, |es|);
    assert es[..|es|] == es && es[1..][..|es| - 1] == es[1..];
  }

  lemma RecountNow(r: Run, es: seq<Event>, ipv6: bool, q: Run)
    requires Good(r) && Good(q) && es != [] && q == Step(r, es[0])
    requires LastRecount(q, es[1..], ipv6, 0) && LagSince(q, es[1..], ipv6, 0)
    ensures var k := if Recounts(r, es[0], ipv6) then 1 else 0;
            LastRecount(r, es, ipv6, k) && LagSince(r, es, ipv6, k)
  {
    LagStep(r, es[0], ipv6);
    assert es[..0] == [] && es[1..][..0] == [] && es[1..][0..] == es[1..] && es[0..] == es;
    ExecFirst(r, es, 1);
  }

  /**
   * How stale a cached count is, over every run: it lies below the truth by one for every server of its family that was
   * evicted from probation since the last recount. If there was none, what it was off at first adds to them.
   */
  lemma {:induction false} LagAccounting(r: Run, es: seq<Event>, ipv6: bool) returns (k: nat)
    requires Good(r)
    ensures k <= |es| && LastRecount(r, es, ipv6, k)
    ensures Lag(Exec(r, es).cfg, ipv6) ==
            (if k == 0 then Lag(r.cfg, ipv6) else 0) + UncountedEvictions(Exec(r, es[..k]), es[k..], ipv6)
    decreases |es|
  {
    if es == [] {
      k := 0;
    } else {
      StepKeepsGood(r, es[0]);
      k := LagAccounting(Step(r, es[0]), es[1..], ipv6);
      assert LagSince(Step(r, es[0]), es[1..], ipv6, k);
      if k > 0 {
        RecountLater(r, es, ipv6, k, Step(r, es[0]));
        k := k + 1;
      } else {
        RecountNow(r, es, ipv6, Step(r, es[0]));
        k := if Recounts(r, es[0], ipv6) then 1 else 0;
      }
    }
  }

  /** A node that has only just started: no servers, counts unknown. */
  function Started(): (r: Run) {
    Run(Config([], [], End, End, true, -1, -1, map[], 0), None, [], 0, {})
  }

  /** A server learnt by such a node, and chosen. */
  lemma FirstServer(p: Peer, now: int)
    ensures Good(Started()) && Good(Step(Started(), Learned([p], now)))
    ensures var r := Step(Step(Started(), Learned([p], now)), GetNext);
            && Good(r) && r.pending == Some(InProbation(0))
            && r.cfg.active == [] && r.cfg.probation == [NewRecord(0, p)]
            && r.cfg.countIp4 == r.cfg.countIp6 == -1
  {
    var r0 := Started();
    StepKeepsGood(r0, Learned([p], now));
    assert Admitted(r0.cfg, [p], now) == [p];
    assert Step(r0, Learned([p], now)).cfg.probation == [NewRecord(0, p)];
    StepKeepsGood(Step(r0, Learned([p], now)), GetNext);
  }

  lemma ExecThree(r: Run, x: Event, y: Event, z: Event)
    requires Good(r) && Good(Step(r, x)) && Good(Step(Step(r, x), y))
    ensures Exec(r, [x, y, z]) == Step(Step(Step(r, x), y), z)
  {
    var q, t := Step(r, x), Step(Step(r, x), y);
    StepKeepsGood(t, z);
    assert [x, y, z][1..] == [y, z] && [y, z][1..] == [z] && [z][1..] == [];
    assert Exec(t, [z]) == Exec(Step(t, z), []);
    assert Exec(q, [y, z]) == Exec(t, [z]);
  }

  /**
   * A stale count that is not negative is believed: if a node's first server is promoted before its family was ever
   * counted, the sentinel -1 becomes 0, and the node answers that it knows no server of the family although it has one.
   */
  lemma FirstPromotionIsUncounted(p: Peer, now: int)
    ensures Good(Started())
    ensures var ipv6, c := p.addr.V6?, Exec(Started(), [Learned([p], now), GetNext, Answered(now)]).cfg;
            Tally(c.active, ipv6) == 1 && Known(c, ipv6) == 0 && Known(Count(c, ipv6), ipv6) == 0
  {
    FirstServer(p, now);
    ExecThree(Started(), Learned([p], now), GetNext, Answered(now));
    TallyInsert([], Proven(NewRecord(0, p), now), p.addr.V6?);
  }

  // ---------- bans ----------

  /** The event happens before the ban runs out, if it looks at bans at all. */
  predicate Before(e: Event, limit: int) {
    match e
    case Learned(_, now) => now < limit
    case BansCleaned(now) => now < limit
    case _ => true
  }

  /** The ban of p dates from t, and no record of p is as new as n. */
  ghost predicate Banned(c: Config, p: Peer, t: int, n: nat) {
    && p in c.bans && c.bans[p] == t
    && (forall y :: Lists(c, y) && y.peer == p ==> y.id < n)
  }

  lemma {:induction false} AdmittedAreAdmissible(c: Config, ps: seq<Peer>, now: int)
    ensures forall p :: p in Admitted(c, ps, now) ==> Admissible(c, p, now)
  {
    if ps != [] {
      AdmittedAreAdmissible(c, ps[1..], now);
    }
  }

  lemma NewRecordPeers(id: nat, ps: seq<Peer>)
    ensures forall r :: r in NewRecords(id, ps) ==> r.peer in ps
  {
  }

  lemma BanStays(r: Run, e: Event, p: Peer, limit: int)
    requires Good(r) && p in r.cfg.bans && r.cfg.bans[p] + BAN_SECONDS == limit && Before(e, limit)
    ensures p in Step(r, e).cfg.bans && Step(r, e).cfg.bans[p] == r.cfg.bans[p]
  {
  }

  lemma IdsBelowNext(c: Config, x: Record)
    requires IdsOk(c) && Lists(c, x)
    ensures x.id < c.nextId
  {
  }

  lemma OnlyLearningCreates(r: Run, e: Event)
    requires Good(r) && !e.Learned?
    ensures Step(r, e).cfg.nextId == r.cfg.nextId
  {
  }

  lemma BannedAreNotLearnt(c: Config, ps: seq<Peer>, now: int, p: Peer, y: Record)
    requires IdsOk(c) && p in c.bans && now < c.bans[p] + BAN_SECONDS
    requires Lists(Learn(c, ps, now), y) && y.peer == p
    ensures y.id < c.nextId
  {
    AdmittedAreAdmissible(c, ps, now);
    NewRecordPeers(c.nextId, Admitted(c, ps, now));
  }

  lemma NoNewRecord(r: Run, e: Event, p: Peer, y: Record)
    requires Good(r) && p in r.cfg.bans && Before(e, r.cfg.bans[p] + BAN_SECONDS)
    requires Lists(Step(r, e).cfg, y) && y.peer == p
    ensures y.id < r.cfg.nextId
  {
    if e.Learned? {
      BannedAreNotLearnt(r.cfg, e.peers, e.now, p, y);
    } else {
      StepKeepsGood(r, e);
      OnlyLearningCreates(r, e);
      IdsBelowNext(Step(r, e).cfg, y);
    }
  }

  lemma BannedStep(r: Run, e: Event, p: Peer, t: int, n: nat)
    requires Good(r) && Banned(r.cfg, p, t, n) && Before(e, t + BAN_SECONDS)
    ensures Banned(Step(r, e).cfg, p, t, n)
  {
    var c, d := r.cfg, Step(r, e).cfg;
    BanStays(r, e, p, t + BAN_SECONDS);
    StepDescends(r, e);
    forall y | Lists(d, y) && y.peer == p
      ensures y.id < n
    {
      NoNewRecord(r, e, p, y);
      var x :| Lists(c, x) && Inherits(x, y);
    }
  }

  lemma {:induction false} BannedOverRuns(r: Run, es: seq<Event>, p: Peer, t: int, n: nat)
    requires Good(r) && Banned(r.cfg, p, t, n)
    requires forall e :: e in es ==> Before(e, t + BAN_SECONDS)
    ensures Banned(Exec(r, es).cfg, p, t, n)
    decreases |es|
  {
    if es != [] {
      StepKeepsGood(r, es[0]);
      assert es[0] in es && forall e :: e in es[1..] ==> e in es;
      BannedStep(r, es[0], p, t, n);
      BannedOverRuns(Step(r, es[0]), es[1..], p, t, n);
    }
  }

  /**
   * A server that is evicted stays away: until its entry in the ban list expires no new record of it is listed, whoever
   * recommends it and whenever the list is cleaned. The entry dates from the eviction, unless there was one already,
   * which Add leaves as it is.
   */
  lemma EvictedStaysAway(r: Run, now: int, es: seq<Event>)
    requires Good(r) && r.pending.Some? && FailsFinally(Deref(r.cfg, r.pending.value))
    requires var p := Deref(r.cfg, r.pending.value).peer;
             forall e :: e in es ==> Before(e, (if p in r.cfg.bans then r.cfg.bans[p] else now) + BAN_SECONDS)
    ensures var p := Deref(r.cfg, r.pending.value).peer;
            forall y :: Lists(Exec(r, [TimedOut(now)] + es).cfg, y) && y.peer == p ==> y.id < r.cfg.nextId
    ensures Deref(r.cfg, r.pending.value).id !in Listed(Step(r, TimedOut(now)).cfg)
  {
    var rec, q := Deref(r.cfg, r.pending.value), Step(r, TimedOut(now));
    StepKeepsGood(r, TimedOut(now));
    EvictionIds(r.cfg, r.pending.value, now);
    assert ([TimedOut(now)] + es)[1..] == es;
    assert forall y :: Lists(q.cfg, y) ==> y.id < r.cfg.nextId;
    BannedOverRuns(q, es, rec.peer, if rec.peer in r.cfg.bans then r.cfg.bans[rec.peer] else now, r.cfg.nextId);
  }

  // ---------- waiting ----------

  /** The event reports nothing earlier than t. */
  predicate NotBefore(e: Event, t: int) {
    match e
    case TimedOut(now) => now >= t
    case Answered(now) => now >= t
    case _ => true
  }

  /** Wherever record id is listed, it was last reported on at t or later. */
  ghost predicate Stamped(c: Config, id: nat, t: int) {
    forall y :: Lists(c, y) && y.id == id ==> y.lastAccess >= t
  }

  lemma AssignStamps(c: Config, ref: Ref, r: Record, id: nat, t: int)
    requires ValidRef(c, ref) && Stamped(c, id, t)
    requires r.id == id ==> r.lastAccess >= t
    ensures Stamped(Assign(c, ref, r), id, t)
  {
    match ref
    case InActive(i) => InUpdate(c.active, i, r);
    case InProbation(i) => InUpdate(c.probation, i, r);
  }

  lemma PromotionStamps(c: Config, i: nat, now: int, id: nat, t: int)
    requires Current(c, InProbation(i)) && Stamped(c, id, t) && now >= t
    ensures Stamped(Succeed(c, InProbation(i), now), id, t)
  {
    PromotedLists(c, i, now);
    InRemove(c.probation, i);
    InInsert(c.active, Proven(c.probation[i], now));
  }

  lemma EvictionStamps(c: Config, ref: Ref, now: int, id: nat, t: int)
    requires Current(c, ref) && FailsFinally(Deref(c, ref)) && Stamped(c, id, t)
    ensures Stamped(Fail(c, ref, now), id, t)
  {
    EraseOnlyRemoves(c, ref);
    var d := Fail(c, ref, now);
    assert d.active == Erase(c, ref).active && d.probation == Erase(c, ref).probation;
  }

  lemma ReportStamps(r: Run, ref: Ref, e: Event, id: nat, t: int)
    requires Current(r.cfg, ref) && Stamped(r.cfg, id, t) && NotBefore(e, t)
    requires e.TimedOut? || e.Answered? || e.Rejected?
    ensures Stamped(Report(r, ref, e).cfg, id, t)
  {
    var c, rec := r.cfg, Deref(r.cfg, ref);
    assert Lists(c, rec);
    match e
    case TimedOut(now) =>
      if FailsFinally(rec) {
        EvictionStamps(c, ref, now, id, t);
      } else {
        AssignStamps(c, ref, FailedOnce(rec, now), id, t);
      }
    case Answered(now) =>
      if ref.InActive? {
        AssignStamps(c, ref, Proven(rec, now), id, t);
      } else {
        PromotionStamps(c, ref.i, now, id, t);
      }
    case Rejected(kind, reason) =>
      AssignStamps(c, ref, Disabled(rec, kind, reason), id, t);
  }

  lemma LearningStamps(c: Config, ps: seq<Peer>, now: int, id: nat, t: int)
    requires Stamped(c, id, t) && id < c.nextId
    ensures Stamped(Learn(c, ps, now), id, t)
  {
    NewRecordsAreNew(c.nextId, Admitted(c, ps, now));
  }

  lemma StampStep(r: Run, e: Event, id: nat, t: int)
    requires Good(r) && Stamped(r.cfg, id, t) && id < r.cfg.nextId && NotBefore(e, t)
    ensures Stamped(Step(r, e).cfg, id, t) && id < Step(r, e).cfg.nextId
  {
    match e
    case Learned(ps, now) => LearningStamps(r.cfg, ps, now, id, t);
    case GetNext =>
    case Counted(_) =>
    case BansCleaned(_) =>
    case _ =>
      OnlyLearningCreates(r, e);
      if r.pending.Some? {
        ReportStamps(r, r.pending.value, e, id, t);
      }
  }

  lemma {:induction false} StampStays(r: Run, es: seq<Event>, id: nat, t: int)
    requires Good(r) && Stamped(r.cfg, id, t) && id < r.cfg.nextId
    requires forall e :: e in es ==> NotBefore(e, t)
    ensures Stamped(Exec(r, es).cfg, id, t)
    decreases |es|
  {
    if es != [] {
      StepKeepsGood(r, es[0]);
      assert es[0] in es && forall e :: e in es[1..] ==> e in es;
      StampStep(r, es[0], id, t);
      StampStays(Step(r, es[0]), es[1..], id, t);
    }
  }

  lemma AssignIsStamped(c: Config, ref: Ref, r: Record)
    requires IdsOk(c) && ValidRef(c, ref) && r.id == Deref(c, ref).id
    ensures Stamped(Assign(c, ref, r), r.id, r.lastAccess)
  {
    DisjointIds(c, ref);
    match ref
    case InActive(i) => IdsUpdate(c.active, i, r);
    case InProbation(i) => IdsUpdate(c.probation, i, r);
  }

  lemma EvictionIsStamped(c: Config, ref: Ref, now: int)
    requires IdsOk(c) && Current(c, ref) && FailsFinally(Deref(c, ref))
    ensures Stamped(Fail(c, ref, now), Deref(c, ref).id, now)
  {
    EvictionIds(c, ref, now);
    forall y | Lists(Fail(c, ref, now), y)
      ensures y.id in Listed(Fail(c, ref, now))
    {
    }
  }

  lemma PromotionIsStamped(c: Config, i: nat, now: int)
    requires IdsOk(c) && Current(c, InProbation(i))
    ensures Stamped(Succeed(c, InProbation(i), now), c.probation[i].id, now)
  {
    DisjointIds(c, InProbation(i));
    PromotedLists(c, i, now);
    InRemove(c.probation, i);
    InInsert(c.active, Proven(c.probation[i], now));
    forall y | y in c.active
      ensures y.id != c.probation[i].id
    {
      assert y.id in Ids(c.active);
    }
  }

  lemma ReportIsStamped(r: Run, ref: Ref, e: Event, now: int)
    requires Good(r) && r.pending == Some(ref) && (e == TimedOut(now) || e == Answered(now))
    ensures Stamped(Step(r, e).cfg, Deref(r.cfg, ref).id, now)
  {
    var c, rec := r.cfg, Deref(r.cfg, ref);
    if e.Answered? {
      if ref.InActive? {
        AssignIsStamped(c, ref, Proven(rec, now));
      } else {
        PromotionIsStamped(c, ref.i, now);
      }
    } else if FailsFinally(rec) {
      EvictionIsStamped(c, ref, now);
    } else {
      AssignIsStamped(c, ref, FailedOnce(rec, now));
    }
  }

  /**
   * A client that reports on a server at time now does not ask that server again, through this record, before the
   * waiting time is over, whatever happens in between.
   */
  lemma ReportsArePaced(r: Run, ref: Ref, e: Event, now: int, es: seq<Event>)
    requires Good(r) && r.pending == Some(ref) && (e == TimedOut(now) || e == Answered(now))
    requires forall f :: f in es ==> NotBefore(f, now)
    ensures forall y, t :: Lists(Exec(r, [e] + es).cfg, y) && y.id == Deref(r.cfg, ref).id && Due(y, t) ==>
              t > now + RETRY_SECONDS
  {
    StepKeepsGood(r, e);
    assert ([e] + es)[1..] == es;
    DisjointIds(r.cfg, ref);
    ListedIsCreated(r.cfg);
    OnlyLearningCreates(r, e);
    ReportIsStamped(r, ref, e, now);
    StampStays(Step(r, e), es, Deref(r.cfg, ref).id, now);
  }
}
