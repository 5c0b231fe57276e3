/**
 * A peers answer while the client thread reports on servers. The server counts the servers of a family, then
 * GetServerList counts them once more, then it copies them; between any two of these anything may happen.
 */
module Interleaving {
  import opened Records
  import opened Scheduler
  import opened Configuration
  import opened Runs
  import Packing

  // ---------- the counts over a run ----------

  /** What an event does to the cached count of a family. */
  function CountChange(r: Run, e: Event, ipv6: bool): (n: int)
    requires Good(r)
  {
    if r.pending.None? || Deref(r.cfg, r.pending.value).Ipv6() != ipv6 then 0
    else if e.TimedOut? && FailsFinally(Deref(r.cfg, r.pending.value)) then -1
    else if e.Answered? && r.pending.value.InProbation? && !Merges(r.cfg, r.pending.value) then 1
    else 0
  }

  /** Promotions less evictions, of servers on probation too. */
  function CountChanges(r: Run, es: seq<Event>, ipv6: bool): (n: int)
    requires Good(r)
    decreases |es|
  {
    if es == [] then 0
    else
      StepKeepsGood(r, es[0]);
      CountChange(r, es[0], ipv6) + CountChanges(Step(r, es[0]), es[1..], ipv6)
  }

  lemma CachedStep(r: Run, e: Event, ipv6: bool)
    requires Good(r) && e != Counted(ipv6)
    ensures Cached(Step(r, e).cfg, ipv6) == Cached(r.cfg, ipv6) + CountChange(r, e, ipv6)
  {
  }

  /** Promotions less evictions of active servers. */
  function TrueChanges(r: Run, es: seq<Event>, ipv6: bool): (n: int)
    requires Good(r)
  {
    CountChanges(r, es, ipv6) + UncountedEvictions(r, es, ipv6)
  }

  lemma {:induction false} CountsOverRuns(r: Run, es: seq<Event>, ipv6: bool)
    requires Good(r) && Counted(ipv6) !in es
    ensures Cached(Exec(r, es).cfg, ipv6) == Cached(r.cfg, ipv6) + CountChanges(r, es, ipv6)
    ensures Tally(Exec(r, es).cfg.active, ipv6) == Tally(r.cfg.active, ipv6) + TrueChanges(r, es, ipv6)
    decreases |es|
  {
    if es != [] {
      StepKeepsGood(r, es[0]);
      CachedStep(r, es[0], ipv6);
      LagStep(r, es[0], ipv6);
      CountsOverRuns(Step(r, es[0]), es[1..], ipv6);
    }
  }

  // ---------- the answer ----------

  /**
   * What becomes of the answer: the number of entries in the message, the slots of the list they are copied from, and
   * the servers in the first of these slots. The other slots are zero.
   */
  datatype Copy = Nothing | Copied(claimed: nat, slots: nat, servers: seq<Peer>)

  /** Counting in c, counting again in d, copying in e. */
  function PeersCopied(c: Config, d: Config, e: Config, ipv6: bool, wanted: nat, room: int): (copy: Copy) {
    var want := if wanted == 0 then Known(c, ipv6) else Packing.Min(Known(c, ipv6), wanted);
    var n := Packing.PeersFit(room, ipv6, want);
    if n == 0 || Known(d, ipv6) == 0 then Nothing
    else
      var slots := Packing.Min(Known(d, ipv6), n);
      Copied(n, slots, FamilyPeers(e.active, ipv6)[..Packing.Min(slots, Tally(e.active, ipv6))])
  }

  /** Every entry of the message is a server. */
  predicate Whole(copy: Copy) {
    copy.Copied? ==> |copy.servers| == copy.claimed
  }

  /** If nothing happens meanwhile, the answer is the specified one, and whole. */
  lemma UndisturbedIsWhole(c: KeptConfig, ipv6: bool, wanted: nat, room: int, env: Packing.Env)
    requires Packing.Sound(env) && env.Known(ipv6) == Known(c, ipv6) && env.PeersOf(ipv6) == FamilyPeers(c.active, ipv6)
    ensures var copy, m := PeersCopied(c, Count(c, ipv6), Count(c, ipv6), ipv6, wanted, room),
                           Packing.AnswerPeers(env, ipv6, wanted, room);
            && Whole(copy) && (copy.Copied? <==> m.Some?)
            && (m.Some? ==> m.value.body == PeersBytes(copy.servers))
  {
    CountKeepsInvariant(c, ipv6);
    Packing.PeersFitIsLargest(room, ipv6, if wanted == 0 then Known(c, ipv6) else Packing.Min(Known(c, ipv6), wanted));
  }

  lemma WholeExactly(c: Config, d: Config, e: Config, ipv6: bool, wanted: nat, room: int)
    ensures var copy := PeersCopied(c, d, e, ipv6, wanted, room);
            Whole(copy) <==>
              (copy.Copied? ==> copy.claimed <= Known(d, ipv6) && copy.claimed <= Tally(e.active, ipv6))
  {
  }

  lemma CountedOnce(r: Run, ipv6: bool)
    requires Good(r)
    ensures var q := Step(r, Counted(ipv6));
            && Good(q) && q.cfg.active == r.cfg.active
            && Cached(q.cfg, ipv6) == Known(q.cfg, ipv6) == Known(r.cfg, ipv6) <= Tally(r.cfg.active, ipv6)
  {
    StepKeepsGood(r, Counted(ipv6));
    CountKeepsInvariant(r.cfg, ipv6);
  }

  /** The answer to a request that is looked at in state r, with xs and ys between the three looks at the servers. */
  function Answer(r: Run, xs: seq<Event>, ys: seq<Event>, ipv6: bool, wanted: nat, room: int): (copy: Copy)
    requires Good(r)
  {
    StepKeepsGood(r, Counted(ipv6));
    var d := Exec(Step(r, Counted(ipv6)), xs);
    PeersCopied(r.cfg, d.cfg, Exec(d, ys).cfg, ipv6, wanted, room)
  }

  /**
   * Whatever the client does meanwhile, all entries of a peers answer are servers if and only if promotions and
   * evictions leave the number known at the second look, and the true number at the third, at least as large as the
   * number claimed at the first. What is known at the second look is the cached count, or the truth once that count
   * has fallen below zero.
   */
  lemma AnswerIsWholeExactly(r: Run, xs: seq<Event>, ys: seq<Event>, ipv6: bool, wanted: nat, room: int, q: Run)
    requires Good(r) && Counted(ipv6) !in xs && Counted(ipv6) !in ys
    requires q == Step(r, Counted(ipv6)) && Good(q)
    ensures var copy := Answer(r, xs, ys, ipv6, wanted, room);
            var known := Known(r.cfg, ipv6) + CountChanges(q, xs, ipv6);
            var there := Tally(r.cfg.active, ipv6) + TrueChanges(q, xs, ipv6);
            Whole(copy) <==>
              (copy.Copied? ==>
                 && copy.claimed <= (if known >= 0 then known else there)
                 && copy.claimed <= there + TrueChanges(Exec(q, xs), ys, ipv6))
  {
    CountedOnce(r, ipv6);
    CountsOverRuns(q, xs, ipv6);
    CountsOverRuns(Exec(q, xs), ys, ipv6);
    WholeExactly(r.cfg, Exec(q, xs).cfg, Exec(Exec(q, xs), ys).cfg, ipv6, wanted, room);
  }

  lemma EvictionIsCounted(q: Run, now: int, ipv6: bool)
    requires Good(q) && q.pending.Some? && FailsFinally(Deref(q.cfg, q.pending.value))
    requires Deref(q.cfg, q.pending.value).Ipv6() == ipv6
    ensures CountChanges(q, [TimedOut(now)], ipv6) == -1
  {
    StepKeepsGood(q, TimedOut(now));
    assert [TimedOut(now)][1..] == [];
    assert CountChanges(Step(q, TimedOut(now)), [], ipv6) == 0;
  }

  /**
   * It does happen: a server on the verge of eviction, on either list, whose last failure is reported between the first
   * two looks. If more than one server is known and all fit, the message claims one entry more than its list has slots.
   */
  lemma EvictionLeavesGap(r: Run, now: int, ipv6: bool, room: int, q: Run)
    requires Good(r) && r.pending.Some? && FailsFinally(Deref(r.cfg, r.pending.value))
    requires Deref(r.cfg, r.pending.value).Ipv6() == ipv6
    requires Known(r.cfg, ipv6) > 1 && Packing.PeersFit(room, ipv6, Known(r.cfg, ipv6)) == Known(r.cfg, ipv6)
    requires q == Step(r, Counted(ipv6)) && Good(q)
    ensures var copy := Answer(r, [TimedOut(now)], [], ipv6, 0, room);
            copy.Copied? && copy.claimed == Known(r.cfg, ipv6) && copy.slots == copy.claimed - 1 && !Whole(copy)
  {
    CountedOnce(r, ipv6);
    EvictionIsCounted(q, now, ipv6);
    CountsOverRuns(q, [TimedOut(now)], ipv6);
  }
}
