/** The expiring cache of mrucache.h: the server's rate limiter and the client's ban list. */
module MruCaches {

  /** The entry of k has not expired. */
  predicate Alive<K>(m: map<K, int>, lifetime: int, k: K, now: int) {
    k in m && now < m[k] + lifetime
  }

  function Cleaned<K>(m: map<K, int>, lifetime: int, now: int): (r: map<K, int>) {
    map k | k in m && now <= m[k] + lifetime :: m[k]
  }

  /** `emplace` never overwrites. */
  function Emplaced<K>(m: map<K, int>, k: K, now: int): (r: map<K, int>) {
    if k in m then m else m[k := now]
  }

  /** No entry is more than a lifetime older than the last cleaning. */
  predicate Swept<K>(m: map<K, int>, lifetime: int, lastCleanTime: int) {
    forall k :: k in m ==> lastCleanTime <= m[k] + lifetime
  }

  class MruCache<K(==)> {
    const lifetime: int
    var entries: map<K, int>
    var lastCleanTime: int

    constructor (lifetimeSeconds: int, now: int)
      ensures lifetime == lifetimeSeconds && entries == map[] && lastCleanTime == now
      ensures Swept(entries, lifetime, lastCleanTime)
    {
      lifetime := lifetimeSeconds;
      entries := map[];
      lastCleanTime := now;
    }

    /** Erases while it iterates, in whatever order the table yields its keys. */
    method Clean(now: int)
      modifies this
      ensures entries == Cleaned(old(entries), lifetime, now)
      ensures lastCleanTime == now && Swept(entries, lifetime, lastCleanTime)
    {
      var todo := entries.Keys;
      while todo != {}
        invariant todo <= entries.Keys <= old(entries).Keys
        invariant forall k :: k in entries ==> entries[k] == old(entries)[k]
        invariant forall k :: k in old(entries) && k !in todo ==> (k in entries <==> now <= old(entries)[k] + lifetime)
        decreases todo
      {
        var item :| item in todo;
        todo := todo - {item};
        if now > entries[item] + lifetime {
          entries := entries - {item};
        }
      }
      lastCleanTime := now;
    }

    /**
     * Whether a cleaner thread is started; the thread itself may clean at any later moment. A call that starts none
     * leaves nothing in the table that is two lifetimes old, so stale entries do not pile up.
     */
    method ScheduleCleaning(now: int) returns (started: bool)
      ensures started ==> lastCleanTime + lifetime <= now
      ensures !started && Swept(entries, lifetime, lastCleanTime) ==>
              forall k :: k in entries ==> now < entries[k] + 2 * lifetime
    {
      started := now >= lastCleanTime + lifetime;
    }

    /** Accepts k, returning false, unless its entry is alive. */
    method IsPresentAdd(k: K, now: int) returns (present: bool, cleaning: bool)
      modifies this`entries
      ensures present == Alive(old(entries), lifetime, k, now)
      ensures entries == if present then old(entries) else old(entries)[k := now]
      ensures old(Swept(entries, lifetime, lastCleanTime)) && lastCleanTime <= now + lifetime ==>
              && Swept(entries, lifetime, lastCleanTime)
              && (!cleaning ==> forall q :: q in entries ==> now < entries[q] + 2 * lifetime)
    {
      if k in entries {
        if now >= entries[k] + lifetime {
          present := false;
          entries := entries[k := now];
        } else {
          present := true;
        }
      } else {
        entries := entries[k := now];
        present := false;
      }
      cleaning := ScheduleCleaning(now);
    }

    method IsPresent(k: K, now: int) returns (found: bool, cleaning: bool)
      ensures found == Alive(entries, lifetime, k, now)
      ensures !cleaning && Swept(entries, lifetime, lastCleanTime) ==>
              forall q :: q in entries ==> now < entries[q] + 2 * lifetime
    {
      found := false;
      if k in entries {
        if now >= entries[k] + lifetime {
          found := false;
        } else {
          found := true;
        }
      }
      cleaning := ScheduleCleaning(now);
    }

    method Add(k: K, now: int)
      modifies this`entries
      ensures entries == Emplaced(old(entries), k, now)
      ensures old(Swept(entries, lifetime, lastCleanTime)) && lastCleanTime <= now + lifetime ==>
              Swept(entries, lifetime, lastCleanTime)
    {
      if k !in entries {
        entries := entries[k := now];
      }
    }
  }
}

/** Runs of cache operations: what callers observe does not depend on when the cleaner runs. */
module CacheRuns {
  import opened MruCaches

  datatype Call<K> = PresentAdd(k: K, now: int) | Present(k: K, now: int) | Add(k: K, now: int) | Clean(now: int)

  function Apply<K>(m: map<K, int>, lifetime: int, c: Call<K>): (r: map<K, int>) {
    match c
    case PresentAdd(k, now) => if Alive(m, lifetime, k, now) then m else m[k := now]
    case Present(_, _) => m
    case Add(k, now) => Emplaced(m, k, now)
    case Clean(now) => Cleaned(m, lifetime, now)
  }

  /** The cache after the first n calls, from empty; with `cleaning` false every Clean is skipped. */
  function After<K>(lifetime: int, cs: seq<Call<K>>, n: nat, cleaning: bool): (m: map<K, int>)
    requires n <= |cs|
  {
    if n == 0 then map[]
    else
      var m := After(lifetime, cs, n - 1, cleaning);
      if cs[n - 1].Clean? && !cleaning then m else Apply(m, lifetime, cs[n - 1])
  }

  /** What the i-th call returns, if it is a query. */
  predicate Reply<K(==)>(lifetime: int, cs: seq<Call<K>>, i: nat, cleaning: bool)
    requires i < |cs|
  {
    && (cs[i].PresentAdd? || cs[i].Present?)
    && Alive(After(lifetime, cs, i, cleaning), lifetime, cs[i].k, cs[i].now)
  }

  predicate Ordered<K>(cs: seq<Call<K>>) {
    forall i, j :: 0 <= i <= j < |cs| ==> cs[i].now <= cs[j].now
  }

  predicate NoAdds<K>(cs: seq<Call<K>>) {
    forall i :: 0 <= i < |cs| ==> !cs[i].Add?
  }

  // ---------- the cleaner ----------

  /** The i-th call adds a key whose entry has expired but would be there still if nothing was ever cleaned. */
  predicate MeetsExpired<K(==)>(lifetime: int, cs: seq<Call<K>>, i: nat)
    requires i < |cs|
  {
    var h := After(lifetime, cs, i, false);
    cs[i].Add? && cs[i].k in h && h[cs[i].k] + lifetime < cs[i].now
  }

  predicate NoneMeetsExpired<K(==)>(lifetime: int, cs: seq<Call<K>>) {
    forall i :: 0 <= i < |cs| ==> !MeetsExpired(lifetime, cs, i)
  }

  /** Every query gets the answer it would get if nothing was ever cleaned. */
  predicate Invisible<K(==)>(lifetime: int, cs: seq<Call<K>>) {
    forall i :: 0 <= i < |cs| ==> Reply(lifetime, cs, i, true) == Reply(lifetime, cs, i, false)
  }

  /** m is h without some entries that had expired before now. */
  predicate Thinned<K>(m: map<K, int>, h: map<K, int>, lifetime: int, now: int) {
    && (forall k :: k in m ==> k in h && m[k] == h[k])
    && (forall k :: k in h && k !in m ==> h[k] + lifetime < now)
  }

  lemma {:induction false} CleaningThins<K>(lifetime: int, cs: seq<Call<K>>, n: nat)
    requires Ordered(cs) && NoneMeetsExpired(lifetime, cs) && n < |cs|
    ensures Thinned(After(lifetime, cs, n, true), After(lifetime, cs, n, false), lifetime, cs[n].now)
    decreases n
  {
    if n > 0 {
      CleaningThins(lifetime, cs, n - 1);
      assert cs[n - 1].now <= cs[n].now && !MeetsExpired(lifetime, cs, n - 1);
    }
  }

  /** Whenever the cleaner runs, it is invisible unless some Add meets an expired entry; rate limiting uses no Add. */
  lemma CleanerIsInvisible<K>(lifetime: int, cs: seq<Call<K>>)
    requires Ordered(cs)
    ensures NoneMeetsExpired(lifetime, cs) ==> Invisible(lifetime, cs)
    ensures NoAdds(cs) ==> NoneMeetsExpired(lifetime, cs)
  {
    if NoneMeetsExpired(lifetime, cs) {
      forall i | 0 <= i < |cs|
        ensures Reply(lifetime, cs, i, true) == Reply(lifetime, cs, i, false)
      {
        CleaningThins(lifetime, cs, i);
      }
    }
  }

  /** The calls among the first n that can change the table when nothing is cleaned. */
  function Updates<K>(cs: seq<Call<K>>, n: nat): (us: seq<Call<K>>)
    requires n <= |cs|
    ensures |us| <= n
  {
    if n == 0 then []
    else Updates(cs, n - 1) + if cs[n - 1].PresentAdd? || cs[n - 1].Add? then [cs[n - 1]] else []
  }

  lemma {:induction false} UpdatesGrow<K>(cs: seq<Call<K>>, n: nat, m: nat)
    requires n <= m <= |cs|
    ensures Updates(cs, n) <= Updates(cs, m)
    decreases m
  {
    if n < m {
      UpdatesGrow(cs, n, m - 1);
    }
  }

  /** Without cleaning, only the updates matter. */
  lemma {:induction false} HistoryOfUpdates<K>(lifetime: int, cs: seq<Call<K>>, n: nat, us: seq<Call<K>>)
    requires n <= |cs| && Updates(cs, n) <= us
    ensures After(lifetime, cs, n, false) == After(lifetime, us, |Updates(cs, n)|, false)
    decreases n
  {
    if n > 0 {
      UpdatesGrow(cs, n - 1, n);
      HistoryOfUpdates(lifetime, cs, n - 1, us);
      if cs[n - 1].PresentAdd? || cs[n - 1].Add? {
        var m := |Updates(cs, n)|;
        assert us[m - 1] == Updates(cs, n)[m - 1] == cs[n - 1];
      }
    }
  }

  lemma {:induction false} UpdatesOfUpdates<K>(us: seq<Call<K>>, n: nat)
    requires n <= |us| && forall c :: c in us ==> c.PresentAdd? || c.Add?
    ensures Updates(us, n) == us[..n]
    decreases n
  {
    if n > 0 {
      UpdatesOfUpdates(us, n - 1);
      assert us[n - 1] in us && us[..n] == us[..n - 1] + [us[n - 1]];
    }
  }

  lemma UpdatesWithin<K>(cs: seq<Call<K>>, n: nat, us: seq<Call<K>>)
    requires n <= |cs| && Updates(cs, |cs|) <= us
    ensures Updates(cs, n) <= us
  {
    UpdatesGrow(cs, n, |cs|);
  }

  /** An Add of a run is an Add of its updates, and finds the same table there. */
  lemma AddAmongUpdates<K>(lifetime: int, cs: seq<Call<K>>, us: seq<Call<K>>, i: nat)
    requires Updates(cs, |cs|) <= us && i < |cs| && cs[i].Add?
    ensures var j := |Updates(cs, i)|;
            j < |us| && us[j] == cs[i] && After(lifetime, cs, i, false) == After(lifetime, us, j, false)
  {
    UpdatesWithin(cs, i, us);
    UpdatesWithin(cs, i + 1, us);
    HistoryOfUpdates(lifetime, cs, i, us);
    var j := |Updates(cs, i)|;
    assert Updates(cs, i + 1)[j] == us[j];
  }

  lemma UpdatesMeetExpired<K>(lifetime: int, cs: seq<Call<K>>, us: seq<Call<K>>)
    requires Updates(cs, |cs|) <= us && NoneMeetsExpired(lifetime, us)
    ensures NoneMeetsExpired(lifetime, cs)
  {
    forall i | 0 <= i < |cs|
      ensures !MeetsExpired(lifetime, cs, i)
    {
      if cs[i].Add? {
        AddAmongUpdates(lifetime, cs, us, i);
        assert !MeetsExpired(lifetime, us, |Updates(cs, i)|);
      }
    }
  }

  lemma {:induction false} AfterPrefix<K>(lifetime: int, cs: seq<Call<K>>, ds: seq<Call<K>>, n: nat, cleaning: bool)
    requires cs <= ds && n <= |cs|
    ensures After(lifetime, cs, n, cleaning) == After(lifetime, ds, n, cleaning)
    decreases n
  {
    if n > 0 {
      AfterPrefix(lifetime, cs, ds, n - 1, cleaning);
    }
  }

  lemma {:induction false} NoCleanNoDifference<K>(lifetime: int, cs: seq<Call<K>>, n: nat)
    requires n <= |cs| && forall c :: c in cs ==> !c.Clean?
    ensures After(lifetime, cs, n, true) == After(lifetime, cs, n, false)
    decreases n
  {
    if n > 0 {
      NoCleanNoDifference(lifetime, cs, n - 1);
      assert cs[n - 1] in cs;
    }
  }

  /** A run that shows the cleaner: clean right before such an Add, and query the key right after it. */
  function Exposing<K>(us: seq<Call<K>>, i: nat): (cs: seq<Call<K>>)
    requires i < |us| && us[i].Add?
  {
    us[..i] + [Clean(us[i].now), us[i], Present(us[i].k, us[i].now)]
  }

  lemma {:induction false} UpdatesPrefix<K>(us: seq<Call<K>>, cs: seq<Call<K>>, n: nat)
    requires n <= |us| && n <= |cs| && us[..n] == cs[..n]
    ensures Updates(cs, n) == Updates(us, n)
    decreases n
  {
    if n > 0 {
      assert us[n - 1] == us[..n][n - 1] == cs[n - 1];
      assert us[..n - 1] == us[..n][..n - 1] == cs[..n - 1];
      UpdatesPrefix(us, cs, n - 1);
    }
  }

  lemma ExposingIsARun<K>(us: seq<Call<K>>, i: nat)
    requires i < |us| && us[i].Add? && Ordered(us) && forall c :: c in us ==> c.PresentAdd? || c.Add?
    ensures var cs := Exposing(us, i); Ordered(cs) && Updates(cs, |cs|) <= us
  {
    var cs := Exposing(us, i);
    UpdatesPrefix(us, cs, i);
    UpdatesOfUpdates(us, i);
    assert cs[i] == Clean(us[i].now) && cs[i + 1] == us[i] && cs[i + 2] == Present(us[i].k, us[i].now);
    assert Updates(cs, i + 1) == us[..i];
    assert Updates(cs, i + 2) == us[..i] + [us[i]];
    assert Updates(cs, i + 3) == us[..i + 1];
  }

  lemma ExpiredAddExposes<K>(lifetime: int, us: seq<Call<K>>, i: nat)
    requires lifetime > 0 && i < |us| && MeetsExpired(lifetime, us, i)
    requires forall c :: c in us ==> c.PresentAdd? || c.Add?
    ensures !Invisible(lifetime, Exposing(us, i))
  {
    var cs, h, k, now := Exposing(us, i), After(lifetime, us, i, false), us[i].k, us[i].now;
    NoCleanNoDifference(lifetime, us, i);
    AfterPrefix(lifetime, us[..i], us, i, true);
    AfterPrefix(lifetime, us[..i], us, i, false);
    AfterPrefix(lifetime, us[..i], cs, i, true);
    AfterPrefix(lifetime, us[..i], cs, i, false);
    assert cs[i] == Clean(now) && cs[i + 1] == us[i] && cs[i + 2] == Present(k, now);
    assert After(lifetime, cs, i + 1, true) == Cleaned(h, lifetime, now);
    assert After(lifetime, cs, i + 2, true) == Cleaned(h, lifetime, now)[k := now];
    assert After(lifetime, cs, i + 1, false) == h;
    assert After(lifetime, cs, i + 2, false) == h;
    assert Reply(lifetime, cs, i + 2, true) && !Reply(lifetime, cs, i + 2, false);
  }

  lemma {:induction false} EntriesAreOld<K>(lifetime: int, cs: seq<Call<K>>, n: nat, cleaning: bool)
    requires Ordered(cs) && n < |cs|
    ensures forall k :: k in After(lifetime, cs, n, cleaning) ==> After(lifetime, cs, n, cleaning)[k] <= cs[n].now
    decreases n
  {
    if n > 0 {
      EntriesAreOld(lifetime, cs, n - 1, cleaning);
      assert cs[n - 1].now <= cs[n].now;
    }
  }

  lemma NothingLives<K>(lifetime: int, cs: seq<Call<K>>)
    requires Ordered(cs) && lifetime <= 0
    ensures Invisible(lifetime, cs)
  {
    forall i | 0 <= i < |cs|
      ensures Reply(lifetime, cs, i, true) == Reply(lifetime, cs, i, false)
    {
      EntriesAreOld(lifetime, cs, i, true);
      EntriesAreOld(lifetime, cs, i, false);
    }
  }

  /**
   * When the cleaner is invisible: whatever queries are asked along these updates, and whenever the cleaner runs, every
   * answer is as if nothing was ever cleaned, if and only if none of the updates is an Add that meets an expired entry
   * (or nothing lives at all).
   */
  lemma CleanerIsInvisibleExactly<K(!new)>(lifetime: int, us: seq<Call<K>>)
    requires Ordered(us) && forall c :: c in us ==> c.PresentAdd? || c.Add?
    ensures lifetime <= 0 || NoneMeetsExpired(lifetime, us) <==>
            forall cs :: Ordered(cs) && Updates(cs, |cs|) <= us ==> Invisible(lifetime, cs)
  {
    forall cs | Ordered(cs) && Updates(cs, |cs|) <= us && (lifetime <= 0 || NoneMeetsExpired(lifetime, us))
      ensures Invisible(lifetime, cs)
    {
      if lifetime <= 0 {
        NothingLives(lifetime, cs);
      } else {
        UpdatesMeetExpired(lifetime, cs, us);
        CleanerIsInvisible(lifetime, cs);
      }
    }
    if lifetime > 0 && !NoneMeetsExpired(lifetime, us) {
      var i :| 0 <= i < |us| && MeetsExpired(lifetime, us, i);
      ExposingIsARun(us, i);
      ExpiredAddExposes(lifetime, us, i);
    }
  }

  // ---------- rate limiting ----------

  /** The i-th call was an IsPresentAdd for k that was let through. */
  predicate Accepts<K(==)>(lifetime: int, cs: seq<Call<K>>, i: nat, k: K)
    requires i < |cs|
  {
    cs[i].PresentAdd? && cs[i].k == k && !Reply(lifetime, cs, i, true)
  }

  lemma {:induction false} HistoryIsLastAccepted<K>(lifetime: int, cs: seq<Call<K>>, n: nat, k: K)
    requires Ordered(cs) && NoAdds(cs) && n <= |cs|
    ensures var h := After(lifetime, cs, n, false);
            && (k in h ==> exists j :: 0 <= j < n && Accepts(lifetime, cs, j, k) && cs[j].now == h[k])
            && (forall j :: 0 <= j < n && Accepts(lifetime, cs, j, k) ==> k in h && cs[j].now <= h[k])
    decreases n
  {
    if n > 0 {
      HistoryIsLastAccepted(lifetime, cs, n - 1, k);
      CleanerIsInvisible(lifetime, cs);
      CleaningThins(lifetime, cs, n - 1);
      var h, c := After(lifetime, cs, n - 1, false), cs[n - 1];
      if Accepts(lifetime, cs, n - 1, k) {
        assert After(lifetime, cs, n, false) == h[k := c.now];
      } else if k in h {
        var j :| 0 <= j < n - 1 && Accepts(lifetime, cs, j, k) && cs[j].now == h[k];
        assert After(lifetime, cs, n, false)[k] == h[k];
      }
    }
  }

  /**
   * The limiter refuses a client exactly when some earlier call of it was accepted less than one lifetime ago. So two
   * accepted calls of one client are at least a lifetime apart.
   */
  lemma ExactRateLimit<K>(lifetime: int, cs: seq<Call<K>>, i: nat)
    requires Ordered(cs) && NoAdds(cs) && i < |cs|
    ensures cs[i].PresentAdd? || cs[i].Present? ==>
            (Reply(lifetime, cs, i, true) <==>
             exists j :: 0 <= j < i && Accepts(lifetime, cs, j, cs[i].k) && cs[i].now < cs[j].now + lifetime)
    ensures forall j, k :: 0 <= j < i && Accepts(lifetime, cs, j, k) && Accepts(lifetime, cs, i, k)
              ==> cs[j].now + lifetime <= cs[i].now
  {
    CleanerIsInvisible(lifetime, cs);
    if cs[i].PresentAdd? || cs[i].Present? {
      HistoryIsLastAccepted(lifetime, cs, i, cs[i].k);
    }
  }

  // ---------- the ban list ----------

  lemma {:induction false} EntriesComeFromAdds<K>(lifetime: int, cs: seq<Call<K>>, n: nat, k: K)
    requires n <= |cs|
    requires forall i :: 0 <= i < n ==> !cs[i].PresentAdd?
    ensures var m := After(lifetime, cs, n, true);
            k in m ==> exists j :: 0 <= j < n && cs[j] == Call.Add(k, m[k])
    decreases n
  {
    if n > 0 {
      EntriesComeFromAdds(lifetime, cs, n - 1, k);
      var m := After(lifetime, cs, n, true);
      if k in m && k !in After(lifetime, cs, n - 1, true) {
        assert cs[n - 1] == Call.Add(k, m[k]);
      }
    }
  }

  lemma {:induction false} EntryStays<K>(lifetime: int, cs: seq<Call<K>>, j: nat, i: nat, k: K)
    requires Ordered(cs) && j < i < |cs| && k in After(lifetime, cs, j + 1, true)
    requires cs[i].now < After(lifetime, cs, j + 1, true)[k] + lifetime
    ensures k in After(lifetime, cs, i, true)
    ensures After(lifetime, cs, i, true)[k] == After(lifetime, cs, j + 1, true)[k]
    decreases i
  {
    if i > j + 1 {
      assert cs[i - 1].now <= cs[i].now;
      EntryStays(lifetime, cs, j, i - 1, k);
    }
  }

  /**
   * With Add in the run the list still never bans without cause, and a ban lasts its full lifetime if the server was
   * not in the table when it was added.
   */
  lemma BansAreJustifiedAndLast<K>(lifetime: int, cs: seq<Call<K>>, i: nat)
    requires Ordered(cs) && i < |cs| && cs[i].Present?
    requires forall n :: 0 <= n < |cs| ==> !cs[n].PresentAdd?
    ensures Reply(lifetime, cs, i, true) ==>
            exists j :: 0 <= j < i && cs[j].Add? && cs[j].k == cs[i].k && cs[i].now < cs[j].now + lifetime
    ensures forall j :: 0 <= j < i && cs[j].Add? && cs[j].k == cs[i].k
              && cs[j].k !in After(lifetime, cs, j, true) && cs[i].now < cs[j].now + lifetime
              ==> Reply(lifetime, cs, i, true)
  {
    EntriesComeFromAdds(lifetime, cs, i, cs[i].k);
    forall j | 0 <= j < i && cs[j].Add? && cs[j].k == cs[i].k
               && cs[j].k !in After(lifetime, cs, j, true) && cs[i].now < cs[j].now + lifetime
      ensures Reply(lifetime, cs, i, true)
    {
      EntryStays(lifetime, cs, j, i, cs[i].k);
    }
  }

  lemma {:induction false} EntryOnlyGoes<K>(lifetime: int, cs: seq<Call<K>>, j: nat, i: nat, k: K)
    requires j < i <= |cs| && k in After(lifetime, cs, j + 1, true)
    requires forall n :: j < n < i && (cs[n].Add? || cs[n].PresentAdd?) ==> cs[n].k != k
    ensures var m := After(lifetime, cs, i, true); k in m ==> m[k] == After(lifetime, cs, j + 1, true)[k]
    decreases i
  {
    if i > j + 1 {
      EntryOnlyGoes(lifetime, cs, j, i - 1, k);
    }
  }

  /**
   * How long an Add bans, whenever the cleaner runs and until the key is added again: for a lifetime, counted from the
   * entry that was there already if there was one, however old it is, and from the Add otherwise.
   */
  lemma BanLastsExactly<K>(lifetime: int, cs: seq<Call<K>>, j: nat, i: nat)
    requires Ordered(cs) && j < i < |cs| && cs[j].Add? && cs[i] == Present(cs[j].k, cs[i].now)
    requires forall n :: j < n < i && (cs[n].Add? || cs[n].PresentAdd?) ==> cs[n].k != cs[j].k
    ensures var m, k := After(lifetime, cs, j, true), cs[j].k;
            Reply(lifetime, cs, i, true) <==> cs[i].now < (if k in m then m[k] else cs[j].now) + lifetime
  {
    var k := cs[j].k;
    EntryOnlyGoes(lifetime, cs, j, i, k);
    if cs[i].now < After(lifetime, cs, j + 1, true)[k] + lifetime {
      EntryStays(lifetime, cs, j, i, k);
    }
  }

  /**
   * So an Add bans at all exactly when the key was absent or is banned already, and for a full lifetime exactly when
   * it was absent or its entry is as new as the Add.
   */
  lemma AddTakesEffectExactly<K>(m: map<K, int>, lifetime: int, k: K, now: int)
    requires lifetime > 0
    ensures Alive(Emplaced(m, k, now), lifetime, k, now) <==> k !in m || Alive(m, lifetime, k, now)
    ensures (forall t :: now <= t < now + lifetime ==> Alive(Emplaced(m, k, now), lifetime, k, t)) <==>
            k !in m || now <= m[k]
  {
    if k in m {
      assert Emplaced(m, k, now) == m;
      if now > m[k] {
        assert !Alive(Emplaced(m, k, now), lifetime, k, now + lifetime - 1);
      }
    } else {
      assert Emplaced(m, k, now)[k] == now;
    }
  }

  /** So runs with Add do depend on the cleaner: the second ban of a server holds only if its first was cleaned out. */
  lemma CleanerIsVisibleWithAdds(lifetime: int) returns (cs: seq<Call<int>>)
    requires lifetime > 0
    ensures Ordered(cs) && |cs| == 4
    ensures Reply(lifetime, cs, 3, true) != Reply(lifetime, cs, 3, false)
  {
    var t := lifetime + 1;
    cs := [Call.Add(0, 0), Call.Clean(t), Call.Add(0, t), Call.Present(0, t)];
    forall cleaning: bool
      ensures After(lifetime, cs, 1, cleaning) == map[0 := 0]
    {
      assert After(lifetime, cs, 0, cleaning) == map[];
      assert After(lifetime, cs, 1, cleaning) == Emplaced(map[], 0, 0);
    }
    assert After(lifetime, cs, 2, true) == Cleaned(map[0 := 0], lifetime, t) == map[];
    assert After(lifetime, cs, 3, true) == Emplaced(map[], 0, t) == map[0 := t];
    assert After(lifetime, cs, 2, false) == map[0 := 0];
    assert After(lifetime, cs, 3, false) == Emplaced(map[0 := 0], 0, t) == map[0 := 0];
  }
}
