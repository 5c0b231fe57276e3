/** The server lists of config.cpp as values: what each operation does to them, and what every operation keeps. */
module Scheduler {
  import opened Options
  import opened Wire
  import opened Records
  import opened MruCaches

  const CLIENT_MAX_SERVER_TIMEOUT_COUNT: nat := 5
  const BAN_SECONDS: int := 86400
  /** A record's retry time: it starts as this, and its factor 1.25 is 1 on whole seconds. */
  const RETRY_SECONDS: int := 60

  /**
   * A list iterator: the end sentinel, or a position. Stepping back from the first element gives the sentinel. This is
   * a choice: C++ gives `prev(begin())` no meaning.
   */
  datatype Cursor = End | At(i: nat)

  /** A ServerRecord&: a place in one of the two lists. */
  datatype Ref = InActive(i: nat) | InProbation(i: nat)

  datatype Config = Config(
    active: seq<Record>,
    probation: seq<Record>,
    activeCursor: Cursor,
    probationCursor: Cursor,
    prevReturnedProbationary: bool,
    countIp4: int,
    countIp6: int,
    bans: map<Peer, int>,
    nextId: nat)

  // ---------- sequences ----------

  function Remove<T>(s: seq<T>, i: nat): (r: seq<T>)
    requires i < |s|
  {
    s[..i] + s[i + 1..]
  }

  predicate Sorted(s: seq<Record>) {
    forall i, j :: 0 <= i < j < |s| ==> Less(s[i], s[j])
  }

  predicate HasAddress(s: seq<Record>, a: Address) {
    exists i :: 0 <= i < |s| && s[i].peer.addr == a
  }

  /** Where the ordered set keeps, or would keep, a record with r's address. */
  function Position(s: seq<Record>, r: Record): (p: nat)
    ensures p <= |s|
  {
    if s == [] || !Less(s[0], r) then 0 else 1 + Position(s[1..], r)
  }

  function Insert(s: seq<Record>, r: Record): (t: seq<Record>) {
    s[..Position(s, r)] + [r] + s[Position(s, r)..]
  }

  lemma {:induction false} PositionSplits(s: seq<Record>, r: Record)
    requires Sorted(s)
    ensures forall i :: 0 <= i < Position(s, r) ==> Less(s[i], r)
    ensures forall i :: Position(s, r) <= i < |s| ==> !Less(s[i], r)
  {
    if s != [] {
      if Less(s[0], r) {
        PositionSplits(s[1..], r);
        forall i | 1 <= i < |s|
          ensures s[i] == s[1..][i - 1]
        {
        }
      } else {
        forall i | 0 <= i < |s|
          ensures !Less(s[i], r)
        {
          if i > 0 {
            LessIsStrictWeakOrder(s[0], s[i], r);
          }
        }
      }
    }
  }

  /** Inserting an address that is not there keeps the set strictly sorted, hence one record per address. */
  lemma InsertKeepsSorted(s: seq<Record>, r: Record)
    requires Sorted(s) && !HasAddress(s, r.peer.addr)
    ensures Sorted(Insert(s, r))
  {
    PositionSplits(s, r);
    var p, t := Position(s, r), Insert(s, r);
    forall i | p <= i < |s|
      ensures Less(r, s[i])
    {
      LessTrichotomy(r, s[i]);
    }
    forall i, j | 0 <= i < j < |t|
      ensures Less(t[i], t[j])
    {
    }
  }

  lemma SortedHasDistinctAddresses(s: seq<Record>)
    requires Sorted(s)
    ensures forall i, j :: 0 <= i < j < |s| ==> s[i].peer.addr != s[j].peer.addr
  {
    forall i, j | 0 <= i < j < |s|
      ensures s[i].peer.addr != s[j].peer.addr
    {
      LessTrichotomy(s[i], s[j]);
    }
  }

  // ---------- families and their cached counts ----------

  function OfFamily(s: seq<Record>, ipv6: bool): (t: seq<Record>) {
    if s == [] then []
    else if s[0].Ipv6() == ipv6 then [s[0]] + OfFamily(s[1..], ipv6)
    else OfFamily(s[1..], ipv6)
  }

  function Tally(s: seq<Record>, ipv6: bool): (n: nat) {
    |OfFamily(s, ipv6)|
  }

  lemma {:induction false} OfFamilyAppend(s: seq<Record>, t: seq<Record>, ipv6: bool)
    ensures OfFamily(s + t, ipv6) == OfFamily(s, ipv6) + OfFamily(t, ipv6)
  {
    if s == [] {
      assert s + t == t;
    } else {
      assert (s + t)[1..] == s[1..] + t;
      OfFamilyAppend(s[1..], t, ipv6);
    }
  }

  lemma TallyAround(s: seq<Record>, i: nat, ipv6: bool)
    requires i < |s|
    ensures Tally(s, ipv6) == Tally(Remove(s, i), ipv6) + if s[i].Ipv6() == ipv6 then 1 else 0
  {
    assert s == s[..i] + ([s[i]] + s[i + 1..]);
    OfFamilyAppend(s[..i], [s[i]] + s[i + 1..], ipv6);
    OfFamilyAppend([s[i]], s[i + 1..], ipv6);
    OfFamilyAppend(s[..i], s[i + 1..], ipv6);
    assert [s[i]][1..] == [];
  }

  lemma TallyInsert(s: seq<Record>, r: Record, ipv6: bool)
    ensures Tally(Insert(s, r), ipv6) == Tally(s, ipv6) + if r.Ipv6() == ipv6 then 1 else 0
  {
    var p, t := Position(s, r), Insert(s, r);
    TallyAround(t, p, ipv6);
    assert Remove(t, p) == s;
  }

  lemma TallyUpdate(s: seq<Record>, i: nat, r: Record, ipv6: bool)
    requires i < |s| && r.peer == s[i].peer
    ensures Tally(s[i := r], ipv6) == Tally(s, ipv6)
  {
    TallyAround(s, i, ipv6);
    TallyAround(s[i := r], i, ipv6);
    assert Remove(s[i := r], i) == Remove(s, i);
  }

  function Cached(c: Config, ipv6: bool): (n: int) {
    if ipv6 then c.countIp6 else c.countIp4
  }

  function Recounted(c: Config, ipv6: bool, n: int): (d: Config) {
    if ipv6 then c.(countIp6 := n) else c.(countIp4 := n)
  }

  /** What ActiveServerCount answers: the cached count unless it is negative. */
  function Known(c: Config, ipv6: bool): (n: nat) {
    if Cached(c, ipv6) > -1 then Cached(c, ipv6) else Tally(c.active, ipv6)
  }

  // ---------- the operations ----------

  /** Count: the state after ActiveServerCount. */
  function Count(c: Config, ipv6: bool): (d: Config) {
    Recounted(c, ipv6, Known(c, ipv6))
  }

  function Advance(c: Cursor, n: nat): (d: Cursor) {
    if c.At? && c.i + 1 < n then At(c.i + 1) else if n > 0 then At(0) else End
  }

  function StepBack(c: Cursor): (d: Cursor) {
    if c.At? && c.i > 0 then At(c.i - 1) else End
  }

  /** Next: both cursors move, whichever list the server is taken from; no server if both lists are empty. */
  function Next(c: Config): (r: (Config, Option<Ref>)) {
    var d := c.(activeCursor := Advance(c.activeCursor, |c.active|),
                probationCursor := Advance(c.probationCursor, |c.probation|));
    var fromActive := d.activeCursor.At? && (c.prevReturnedProbationary || d.probationCursor.End?);
    if fromActive then (d.(prevReturnedProbationary := false), Some(InActive(d.activeCursor.i)))
    else if d.probationCursor.At? then (d.(prevReturnedProbationary := true), Some(InProbation(d.probationCursor.i)))
    else (d, None)
  }

  predicate ValidRef(c: Config, ref: Ref) {
    match ref case InActive(i) => i < |c.active| case InProbation(i) => i < |c.probation|
  }

  function Deref(c: Config, ref: Ref): (r: Record)
    requires ValidRef(c, ref)
  {
    match ref case InActive(i) => c.active[i] case InProbation(i) => c.probation[i]
  }

  function Assign(c: Config, ref: Ref, r: Record): (d: Config)
    requires ValidRef(c, ref)
  {
    match ref
    case InActive(i) => c.(active := c.active[i := r])
    case InProbation(i) => c.(probation := c.probation[i := r])
  }

  /** The record the cursor of its list stands on: what GetNextServer returned last, until it is reported on. */
  predicate Current(c: Config, ref: Ref) {
    && ValidRef(c, ref)
    && match ref case InActive(i) => c.activeCursor == At(i) case InProbation(i) => c.probationCursor == At(i)
  }

  /** Erase the record from its list, leaving the list's cursor on the element before it. */
  function Erase(c: Config, ref: Ref): (d: Config)
    requires Current(c, ref)
  {
    match ref
    case InActive(i) => c.(active := Remove(c.active, i), activeCursor := StepBack(At(i)))
    case InProbation(i) => c.(probation := Remove(c.probation, i), probationCursor := StepBack(At(i)))
  }

  predicate FailsFinally(r: Record) {
    r.failureCount + 2 >= CLIENT_MAX_SERVER_TIMEOUT_COUNT
  }

  /** The record after a failure, and after a success, reported at now. */
  function FailedOnce(r: Record, now: int): (q: Record) {
    r.(failureCount := r.failureCount + 1, lastAccess := now)
  }

  function Proven(r: Record, now: int): (q: Record) {
    r.(failureCount := 0, probationary := false, lastAccess := now)
  }

  /** The client asks a server only after waiting since the last report on it. */
  predicate Due(r: Record, now: int) {
    now > r.lastAccess + RETRY_SECONDS
  }

  function Fail(c: Config, ref: Ref, now: int): (d: Config)
    requires Current(c, ref)
  {
    var r := Deref(c, ref);
    if FailsFinally(r) then
      var e := Erase(c, ref).(bans := Emplaced(c.bans, r.peer, now));
      Recounted(e, r.Ipv6(), Cached(c, r.Ipv6()) - 1)
    else
      Assign(c, ref, FailedOnce(r, now))
  }

  /** Emplacing into the active set. A cursor keeps standing on its element when another is inserted before it. */
  function Activate(c: Config, r: Record): (d: Config) {
    if HasAddress(c.active, r.peer.addr) then c
    else
      var p := Position(c.active, r);
      var cursor := if c.activeCursor.At? && p <= c.activeCursor.i then At(c.activeCursor.i + 1) else c.activeCursor;
      Recounted(c.(active := Insert(c.active, r), activeCursor := cursor), r.Ipv6(), Cached(c, r.Ipv6()) + 1)
  }

  function Succeed(c: Config, ref: Ref, now: int): (d: Config)
    requires Current(c, ref)
  {
    var r := Proven(Deref(c, ref), now);
    match ref
    case InActive(_) => Assign(c, ref, r)
    case InProbation(_) => Erase(Activate(c, r), ref)
  }

  /** Whether a learnt peer is put on probation: operator== decides about bans, operator< about active servers. */
  predicate Admissible(c: Config, p: Peer, now: int) {
    !Alive(c.bans, BAN_SECONDS, p, now) && !HasAddress(c.active, p.addr)
  }

  function Admitted(c: Config, ps: seq<Peer>, now: int): (qs: seq<Peer>) {
    if ps == [] then []
    else if Admissible(c, ps[0], now) then [ps[0]] + Admitted(c, ps[1..], now)
    else Admitted(c, ps[1..], now)
  }

  function NewRecords(id: nat, ps: seq<Peer>): (rs: seq<Record>)
    ensures |rs| == |ps|
  {
    seq(|ps|, i requires 0 <= i < |ps| => NewRecord(id + i, ps[i]))
  }

  function Learn(c: Config, ps: seq<Peer>, now: int): (d: Config) {
    var qs := Admitted(c, ps, now);
    c.(probation := c.probation + NewRecords(c.nextId, qs), nextId := c.nextId + |qs|)
  }

  /** One entry of a reject message, applied to the record it is about. */
  function Disabled(r: Record, kind: byte, reason: byte): (q: Record) {
    if reason == SHUTTING_DOWN then r.(shuttingdown := true)
    else if reason != UNSUPPORTED then r
    else if kind == IP4PEERS then r.(ip4Peers := false)
    else if kind == IP6PEERS then r.(ip6Peers := false)
    else if kind == SIGNKEY then r.(signkey := false)
    else r
  }

  // ---------- the invariant ----------

  predicate CursorOk(c: Cursor, n: nat) {
    c.At? ==> c.i < n
  }

  predicate CountsOk(c: Config) {
    c.countIp4 <= Tally(c.active, false) && c.countIp6 <= Tally(c.active, true)
  }

  predicate DistinctIds(s: seq<Record>) {
    forall i, j :: 0 <= i < j < |s| ==> s[i].id != s[j].id
  }

  predicate IdsOk(c: Config) {
    && DistinctIds(c.active) && DistinctIds(c.probation)
    && (forall r, q :: r in c.active && q in c.probation ==> r.id != q.id)
    && (forall r :: r in c.active ==> r.id < c.nextId)
    && (forall r :: r in c.probation ==> r.id < c.nextId)
  }

  predicate Invariant(c: Config) {
    && CursorOk(c.activeCursor, |c.active|)
    && CursorOk(c.probationCursor, |c.probation|)
    && Sorted(c.active)
    && (forall r :: r in c.active ==> !r.probationary && !(r.failureCount > 3))
    && (forall r :: r in c.probation ==> r.probationary && !(r.failureCount > 3))
    && CountsOk(c)
    && IdsOk(c)
  }

  /** Lists that keep the invariant. */
  type KeptConfig = c: Config | Invariant(c) witness Config([], [], End, End, true, -1, -1, map[], 0)

  lemma UpdateKeepsSorted(s: seq<Record>, i: nat, r: Record)
    requires Sorted(s) && i < |s| && r.peer == s[i].peer
    ensures Sorted(s[i := r])
  {
  }

  lemma InUpdate(s: seq<Record>, i: nat, r: Record)
    requires i < |s|
    ensures forall q :: q in s[i := r] ==> q == r || q in s
  {
  }

  /** Changing fields of a listed record other than its identity, peer and list keeps the invariant. */
  lemma AssignKeepsInvariant(c: Config, ref: Ref, r: Record)
    requires Invariant(c) && ValidRef(c, ref)
    requires var q := Deref(c, ref); r.id == q.id && r.peer == q.peer && r.probationary == q.probationary
    requires r.failureCount <= 3
    ensures Invariant(Assign(c, ref, r))
  {
    match ref
    case InActive(i) =>
      UpdateKeepsSorted(c.active, i, r);
      InUpdate(c.active, i, r);
      TallyUpdate(c.active, i, r, false);
      TallyUpdate(c.active, i, r, true);
    case InProbation(i) =>
      InUpdate(c.probation, i, r);
  }

  lemma RemoveShifts<T>(s: seq<T>, i: nat)
    requires i < |s|
    ensures |Remove(s, i)| == |s| - 1
    ensures forall k :: 0 <= k < i ==> Remove(s, i)[k] == s[k]
    ensures forall k :: i <= k < |s| - 1 ==> Remove(s, i)[k] == s[k + 1]
  {
  }

  lemma RemoveKeepsOrder(s: seq<Record>, i: nat)
    requires i < |s|
    ensures DistinctIds(s) ==> DistinctIds(Remove(s, i))
    ensures Sorted(s) ==> Sorted(Remove(s, i))
  {
    RemoveShifts(s, i);
  }

  lemma InRemoved(s: seq<Record>, i: nat, q: Record)
    requires i < |s|
    ensures q in Remove(s, i) ==> q in s && (DistinctIds(s) ==> q.id != s[i].id)
    ensures q in s && q.id != s[i].id ==> q in Remove(s, i)
  {
    var t := Remove(s, i);
    RemoveShifts(s, i);
    if q in t {
      var k :| 0 <= k < |t| && t[k] == q;
      assert q == s[if k < i then k else k + 1];
    }
    if q in s && q.id != s[i].id {
      var k :| 0 <= k < |s| && s[k] == q;
      assert q == t[if k < i then k else k - 1];
    }
  }

  lemma InRemove(s: seq<Record>, i: nat)
    requires i < |s|
    ensures forall q :: q in Remove(s, i) ==> q in s
    ensures DistinctIds(s) ==> DistinctIds(Remove(s, i)) && forall q :: q in Remove(s, i) ==> q.id != s[i].id
    ensures forall q :: q in s && q.id != s[i].id ==> q in Remove(s, i)
    ensures Sorted(s) ==> Sorted(Remove(s, i))
  {
    RemoveKeepsOrder(s, i);
    forall q
      ensures q in Remove(s, i) ==> q in s && (DistinctIds(s) ==> q.id != s[i].id)
      ensures q in s && q.id != s[i].id ==> q in Remove(s, i)
    {
      InRemoved(s, i, q);
    }
  }

  lemma EraseKeepsIds(c: Config, ref: Ref)
    requires IdsOk(c) && Current(c, ref)
    ensures IdsOk(Erase(c, ref))
  {
    match ref
    case InActive(i) => InRemove(c.active, i);
    case InProbation(i) => InRemove(c.probation, i);
  }

  lemma EvictActiveKeepsInvariant(c: Config, i: nat, now: int)
    requires Invariant(c) && Current(c, InActive(i)) && FailsFinally(c.active[i])
    ensures Invariant(Fail(c, InActive(i), now))
  {
    EraseKeepsIds(c, InActive(i));
    InRemove(c.active, i);
    TallyAround(c.active, i, false);
    TallyAround(c.active, i, true);
    var d := Fail(c, InActive(i), now);
    assert d.active == Remove(c.active, i) && d.probation == c.probation;
    assert CountsOk(d);
    assert IdsOk(d);
  }

  lemma EraseProbationKeepsInvariant(c: Config, i: nat, d: Config)
    requires Invariant(c) && Current(c, InProbation(i))
    requires d.active == c.active && d.activeCursor == c.activeCursor && d.nextId == c.nextId
    requires d.probation == Remove(c.probation, i) && d.probationCursor == StepBack(At(i))
    requires d.countIp4 <= c.countIp4 && d.countIp6 <= c.countIp6
    ensures Invariant(d)
  {
    EraseKeepsIds(c, InProbation(i));
    InRemove(c.probation, i);
    assert IdsOk(d);
  }

  lemma FailKeepsInvariant(c: Config, ref: Ref, now: int)
    requires Invariant(c) && Current(c, ref)
    ensures Invariant(Fail(c, ref, now))
  {
    var r := Deref(c, ref);
    if !FailsFinally(r) {
      AssignKeepsInvariant(c, ref, FailedOnce(r, now));
      assert Fail(c, ref, now) == Assign(c, ref, FailedOnce(r, now));
    } else if ref.InActive? {
      EvictActiveKeepsInvariant(c, ref.i, now);
    } else {
      EraseProbationKeepsInvariant(c, ref.i, Fail(c, ref, now));
    }
  }

  /** What stands at each place after an insertion. */
  function InsertedAt(s: seq<Record>, r: Record, k: nat): (q: Record)
    requires k <= |s|
  {
    var p := Position(s, r);
    if k < p then s[k] else if k == p then r else s[k - 1]
  }

  lemma InsertShifts(s: seq<Record>, r: Record)
    ensures |Insert(s, r)| == |s| + 1
    ensures forall k :: 0 <= k <= |s| ==> Insert(s, r)[k] == InsertedAt(s, r, k)
  {
  }

  lemma InInserted(s: seq<Record>, r: Record, q: Record)
    ensures q in Insert(s, r) <==> q == r || q in s
  {
    var p, t := Position(s, r), Insert(s, r);
    assert q in t <==> q in s[..p] || q == r || q in s[p..];
    assert s == s[..p] + s[p..];
  }

  lemma InsertedDiffer(s: seq<Record>, r: Record, i: nat, j: nat)
    requires DistinctIds(s) && r !in s && i < j <= |s|
    requires forall q :: q in s ==> q.id != r.id
    ensures InsertedAt(s, r, i).id != InsertedAt(s, r, j).id
  {
    var p := Position(s, r);
    if i == p {
      assert s[j - 1] in s;
    } else if j == p {
      assert s[i] in s;
    }
  }

  lemma InsertKeepsDistinct(s: seq<Record>, r: Record)
    ensures DistinctIds(s) && (forall q :: q in s ==> q.id != r.id) ==> DistinctIds(Insert(s, r))
  {
    InsertShifts(s, r);
    if DistinctIds(s) && forall q :: q in s ==> q.id != r.id {
      forall i, j | 0 <= i < j <= |s|
        ensures InsertedAt(s, r, i).id != InsertedAt(s, r, j).id
      {
        InsertedDiffer(s, r, i, j);
      }
    }
  }

  lemma InInsert(s: seq<Record>, r: Record)
    ensures forall q :: q in Insert(s, r) <==> q == r || q in s
    ensures DistinctIds(s) && (forall q :: q in s ==> q.id != r.id) ==> DistinctIds(Insert(s, r))
  {
    forall q
      ensures q in Insert(s, r) <==> q == r || q in s
    {
      InInserted(s, r, q);
    }
    InsertKeepsDistinct(s, r);
  }

  lemma ActivateKeepsInvariant(c: Config, r: Record)
    requires Invariant(c)
    requires !r.probationary && r.failureCount == 0 && r.id < c.nextId
    requires forall q :: q in c.active || q in c.probation ==> q.id != r.id
    ensures Invariant(Activate(c, r))
  {
    if !HasAddress(c.active, r.peer.addr) {
      InsertKeepsSorted(c.active, r);
      InInsert(c.active, r);
      TallyInsert(c.active, r, false);
      TallyInsert(c.active, r, true);
      var d := Activate(c, r);
      assert d.active == Insert(c.active, r) && d.probation == c.probation;
      assert CountsOk(d);
      assert IdsOk(d);
    }
  }

  lemma PromotionOrderIsIrrelevant(c: Config, i: nat, r: Record)
    requires Current(c, InProbation(i))
    ensures Erase(Activate(c, r), InProbation(i)) == Activate(Erase(c, InProbation(i)), r)
  {
  }

  lemma PromoteKeepsInvariant(c: Config, i: nat, r: Record, now: int)
    requires Invariant(c) && Current(c, InProbation(i))
    requires r == Proven(c.probation[i], now)
    ensures Invariant(Activate(Erase(c, InProbation(i)), r))
  {
    var d := Erase(c, InProbation(i));
    EraseProbationKeepsInvariant(c, i, d);
    InRemove(c.probation, i);
    ActivateKeepsInvariant(d, r);
  }

  lemma SucceedKeepsInvariant(c: Config, ref: Ref, now: int)
    requires Invariant(c) && Current(c, ref)
    ensures Invariant(Succeed(c, ref, now))
  {
    var r := Proven(Deref(c, ref), now);
    match ref
    case InActive(_) =>
      AssignKeepsInvariant(c, ref, r);
    case InProbation(i) =>
      PromoteKeepsInvariant(c, i, r, now);
      PromotionOrderIsIrrelevant(c, i, r);
  }

  lemma NewRecordsAreNew(id: nat, ps: seq<Peer>)
    ensures DistinctIds(NewRecords(id, ps))
    ensures forall r :: r in NewRecords(id, ps) ==> id <= r.id < id + |ps| && r.probationary && r.failureCount == 0
  {
  }

  lemma AppendKeepsDistinct(s: seq<Record>, t: seq<Record>, id: nat)
    requires DistinctIds(s) && DistinctIds(t)
    requires forall r :: r in s ==> r.id < id
    requires forall r :: r in t ==> id <= r.id
    ensures DistinctIds(s + t)
  {
    forall i, j | 0 <= i < j < |s + t|
      ensures (s + t)[i].id != (s + t)[j].id
    {
      if i < |s| <= j {
        assert s[i] in s && t[j - |s|] in t;
      }
    }
  }

  lemma LearnKeepsInvariant(c: Config, ps: seq<Peer>, now: int)
    requires Invariant(c)
    ensures Invariant(Learn(c, ps, now))
  {
    var qs := Admitted(c, ps, now);
    NewRecordsAreNew(c.nextId, qs);
    AppendKeepsDistinct(c.probation, NewRecords(c.nextId, qs), c.nextId);
    assert forall r :: r in c.probation + NewRecords(c.nextId, qs) <==>
      r in c.probation || r in NewRecords(c.nextId, qs);
  }

  /** Every operation keeps the invariant, the reports being about the server that was returned last. */
  lemma NextKeepsInvariant(c: Config)
    requires Invariant(c)
    ensures Invariant(Next(c).0)
    ensures Next(c).1.Some? <==> c.active != [] || c.probation != []
    ensures Next(c).1.Some? ==> Current(Next(c).0, Next(c).1.value)
  {
  }

  /** The cached counts never exceed the truth, and equal it right after a recount. */
  lemma CountKeepsInvariant(c: Config, ipv6: bool)
    requires Invariant(c)
    ensures Invariant(Count(c, ipv6))
    ensures Known(c, ipv6) <= Tally(c.active, ipv6)
    ensures Known(Count(c, ipv6), ipv6) == Known(c, ipv6)
    ensures Cached(c, ipv6) < 0 ==> Cached(Count(c, ipv6), ipv6) == Tally(c.active, ipv6)
  {
  }

  /** Nothing happened to c but counting: a cached count may have been filled in. */
  predicate OnlyCounted(c: Config, d: Config) {
    && d == c.(countIp4 := d.countIp4, countIp6 := d.countIp6)
    && (d.countIp4 == c.countIp4 || d.countIp4 == Known(c, false))
    && (d.countIp6 == c.countIp6 || d.countIp6 == Known(c, true))
  }

  lemma CountingOn(c: Config, d: Config, ipv6: bool)
    requires OnlyCounted(c, d)
    ensures OnlyCounted(c, Count(d, ipv6))
  {
  }

  lemma OnlyCountedOn(c: Config, d: Config, e: Config)
    requires OnlyCounted(c, d) && OnlyCounted(d, e)
    ensures OnlyCounted(c, e)
  {
  }

  lemma OnlyCountedKeeps(c: Config, d: Config)
    requires Invariant(c) && OnlyCounted(c, d)
    ensures Invariant(d)
    ensures d.active == c.active && Known(d, false) == Known(c, false) && Known(d, true) == Known(c, true)
  {
  }
}
