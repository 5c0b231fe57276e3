/** Which servers a sequence of GetNextServer calls returns while the lists do not change. */
module Rotation {
  import opened Options
  import opened Scheduler
  import opened Records

  function NextTimes(c: Config, k: nat): (d: Config) {
    if k == 0 then c else Next(NextTimes(c, k - 1)).0
  }

  /** What call number k returns, counting from 0. */
  function Turn(c: Config, k: nat): (server: Option<Ref>) {
    Next(NextTimes(c, k)).1
  }

  /** One of the two lists: the active set or the probationary list. */
  function Length(c: Config, active: bool): (n: nat) {
    if active then |c.active| else |c.probation|
  }

  function Place(active: bool, i: nat): (ref: Ref) {
    if active then InActive(i) else InProbation(i)
  }

  function CursorOf(c: Config, active: bool): (r: Cursor) {
    if active then c.activeCursor else c.probationCursor
  }

  /** The position the list's cursor moves to first. */
  function Entry(c: Config, active: bool): (n: nat) {
    var r := CursorOf(c, active);
    if r.At? then r.i + 1 else 0
  }

  // ---------- arithmetic ----------

  lemma Multiples(q: int, m: int)
    requires 0 < m
    ensures q >= 1 ==> q * m >= m
    ensures q >= 2 ==> q * m >= 2 * m
    ensures q <= -1 ==> q * m <= -m
    ensures q <= -2 ==> q * m <= -2 * m
  {
  }

  lemma DivisionIsUnique(p: int, s: int, q: int, r: int, m: int)
    requires 0 <= s < m && 0 <= r < m && p * m + s == q * m + r
    ensures s == r
  {
    Multiples(q - p, m);
    assert (q - p) * m == q * m - p * m;
  }

  lemma ModIs(x: int, q: int, r: int, m: int)
    requires 0 <= r < m && x == q * m + r
    ensures x % m == r
  {
    DivisionIsUnique(x / m, x % m, q, r, m);
  }

  lemma ModStep(x: int, m: int)
    requires 0 < m
    ensures (x + 1) % m == if x % m + 1 < m then x % m + 1 else 0
  {
    assert x == (x / m) * m + x % m;
    if x % m + 1 < m {
      ModIs(x + 1, x / m, x % m + 1, m);
    } else {
      ModIs(x + 1, x / m + 1, 0, m);
    }
  }

  /** The distance d, reduced modulo m, from x to a position congruent to j. */
  lemma Distance(x: int, j: int, m: int)
    requires 0 <= j < m
    ensures (x + (j - x) % m) % m == j
  {
    var d := (j - x) % m;
    assert j - x == ((j - x) / m) * m + d;
    ModIs(x + d, -((j - x) / m), j, m);
  }

  lemma SameResidue(x: int, y: int, m: int) returns (q: int)
    requires 0 < m && x % m == y % m
    ensures y - x == q * m
  {
    q := y / m - x / m;
    assert x == (x / m) * m + x % m && y == (y / m) * m + y % m;
  }

  lemma SmallMultiple(q: int, m: int, d: int)
    requires 0 < m && d == q * m && -2 * m < d < 2 * m
    ensures d == 0 || d == m || d == -m
  {
    Multiples(q, m);
    assert q == -1 || q == 0 || q == 1;
  }

  /** Two numbers less than m apart whose doubles agree modulo m are equal, or differ by half of m. */
  lemma SameDoubles(x: nat, m: int, t: nat, u: nat)
    requires 0 < m && -m < u - t < m
    requires (x + 2 * t) % m == (x + 2 * u) % m
    ensures t == u || 2 * (u - t) == m || 2 * (t - u) == m
  {
    var q := SameResidue(x + 2 * t, x + 2 * u, m);
    SmallMultiple(q, m, 2 * (u - t));
  }

  lemma AddModulus(y: int, m: int)
    requires m > 0
    ensures (y + m) % m == y % m
  {
    ModIs(y + m, y / m + 1, y % m, m);
  }

  lemma SameSingles(x: nat, m: int, t: nat, u: nat)
    requires 0 < m && -m < u - t < m
    requires (x + t) % m == (x + u) % m
    ensures t == u
  {
    var q := SameResidue(x + t, x + u, m);
    SmallMultiple(q, m, u - t);
  }

  lemma ParityCancels(y: nat, r: nat)
    ensures (y + r) % 2 == y % 2 <==> r % 2 == 0
    ensures (y + 2 * r) % 2 == y % 2
  {
  }

  lemma OddDistance(y: nat, m: nat, j: nat) returns (d: nat)
    requires j < m && m % 2 == 1
    ensures d < m && (y + 2 * d) % m == j
  {
    Distance(y, j, m);
    var r := (j - y) % m;
    if r % 2 == 0 {
      d := r / 2;
      assert y + 2 * d == y + r;
    } else {
      d := (r + m) / 2;
      assert y + 2 * d == y + r + m;
      AddModulus(y + r, m);
    }
  }

  lemma EvenModulusKeepsParity(y: nat, m: nat)
    requires m > 0 && m % 2 == 0
    ensures (y % m) % 2 == y % 2
  {
    var h, q := m / 2, y / m;
    assert y == q * m + y % m;
    assert m == 2 * h;
    assert q * m == 2 * (q * h);
    ModIs(y, q * h + (y % m) / 2, (y % m) % 2, 2);
  }

  lemma EvenDistance(y: nat, m: nat, j: nat) returns (d: nat)
    requires j < m && m % 2 == 0 && j % 2 == y % 2
    ensures 2 * d < m && (y + 2 * d) % m == j
  {
    Distance(y, j, m);
    var r := (j - y) % m;
    EvenModulusKeepsParity(y + r, m);
    ParityCancels(y, r);
    d := r / 2;
    assert 2 * d == r;
  }

  // ---------- positions in a circular list ----------

  /** Where k steps lead in a circular list of n, the first step from the end sentinel or from before entry e. */
  function Spot(e: nat, n: nat, k: nat): (p: nat)
    requires 0 < n && e <= n
    ensures p < n
    decreases k
  {
    if k == 0 then (if e < n then e else 0)
    else if Spot(e, n, k - 1) + 1 < n then Spot(e, n, k - 1) + 1 else 0
  }

  lemma {:induction false} SpotIsResidue(e: nat, n: nat, k: nat)
    requires 0 < n && e <= n
    ensures Spot(e, n, k) == (e + k) % n
    decreases k
  {
    if k > 0 {
      SpotIsResidue(e, n, k - 1);
      ModStep(e + k - 1, n);
    } else if e < n {
      ModIs(e, 0, e, n);
    } else {
      ModIs(e, 1, 0, n);
    }
  }

  lemma SpotsDiffer(e: nat, n: nat, t: nat, u: nat)
    requires 0 < n && e <= n && t != u && t < u + n && u < t + n
    ensures Spot(e, n, t) != Spot(e, n, u)
  {
    SpotIsResidue(e, n, t);
    SpotIsResidue(e, n, u);
    if Spot(e, n, t) == Spot(e, n, u) {
      SameSingles(e, n, t, u);
    }
  }

  lemma SpotReached(e: nat, n: nat, s: nat, j: nat) returns (t: nat)
    requires e <= n && j < n
    ensures s <= t < s + n && Spot(e, n, t) == j
  {
    Distance(e + s, j, n);
    t := s + (j - (e + s)) % n;
    assert e + s + (j - (e + s)) % n == e + t;
    SpotIsResidue(e, n, t);
  }

  lemma SpotOnceByOne(e: nat, n: nat, s: nat, j: nat) returns (t: nat)
    requires e <= n && j < n
    ensures s <= t < s + n && Spot(e, n, t) == j
    ensures forall u: nat :: s <= u < s + n && u != t ==> Spot(e, n, u) != j
  {
    t := SpotReached(e, n, s, j);
    forall u: nat | s <= u < s + n && u != t
      ensures Spot(e, n, u) != j
    {
      SpotsDiffer(e, n, t, u);
    }
  }

  /** Every other step: the step numbers f, f + 2, f + 4, ... */
  function SpotByTwo(e: nat, n: nat, f: nat, t: nat): (p: nat)
    requires 0 < n && e <= n
  {
    Spot(e, n, f + 2 * t)
  }

  /** Two of those steps less than n apart lead to the same spot only if they are half of n apart. */
  lemma SpotsByTwoDiffer(e: nat, n: nat, f: nat, t: nat, u: nat)
    requires 0 < n && e <= n && t != u && t < u + n && u < t + n
    requires 2 * (u - t) != n && 2 * (t - u) != n
    ensures SpotByTwo(e, n, f, t) != SpotByTwo(e, n, f, u)
  {
    SpotIsResidue(e, n, f + 2 * t);
    SpotIsResidue(e, n, f + 2 * u);
    if SpotByTwo(e, n, f, t) == SpotByTwo(e, n, f, u) {
      assert (e + f) + 2 * t == e + (f + 2 * t) && (e + f) + 2 * u == e + (f + 2 * u);
      SameDoubles(e + f, n, t, u);
    }
  }

  lemma SpotByTwoAt(e: nat, n: nat, f: nat, s: nat, d: nat)
    requires 0 < n && e <= n
    ensures SpotByTwo(e, n, f, s + d) == (e + f + 2 * s + 2 * d) % n
  {
    SpotIsResidue(e, n, f + 2 * (s + d));
    assert e + (f + 2 * (s + d)) == e + f + 2 * s + 2 * d;
  }

  lemma SpotOnceByTwoOdd(e: nat, n: nat, f: nat, s: nat, j: nat) returns (t: nat)
    requires e <= n && j < n && n % 2 == 1
    ensures s <= t < s + n && SpotByTwo(e, n, f, t) == j
    ensures forall u: nat :: s <= u < s + n && u != t ==> SpotByTwo(e, n, f, u) != j
  {
    var d := OddDistance(e + f + 2 * s, n, j);
    SpotByTwoAt(e, n, f, s, d);
    t := s + d;
    forall u: nat | s <= u < s + n && u != t
      ensures SpotByTwo(e, n, f, u) != j
    {
      SpotsByTwoDiffer(e, n, f, t, u);
    }
  }

  lemma SpotOnceByTwoEven(e: nat, n: nat, f: nat, s: nat, j: nat) returns (t: nat)
    requires e <= n && j < n && n % 2 == 0 && j % 2 == (e + f) % 2
    ensures s <= t < s + n / 2 && SpotByTwo(e, n, f, t) == j
    ensures forall u: nat :: s <= u < s + n / 2 && u != t ==> SpotByTwo(e, n, f, u) != j
  {
    ParityCancels(e + f, s);
    var d := EvenDistance(e + f + 2 * s, n, j);
    SpotByTwoAt(e, n, f, s, d);
    t := s + d;
    forall u: nat | s <= u < s + n / 2 && u != t
      ensures SpotByTwo(e, n, f, u) != j
    {
      SpotsByTwoDiffer(e, n, f, t, u);
    }
  }

  lemma SpotKeepsParity(e: nat, n: nat, f: nat, t: nat)
    requires 0 < n && e <= n && n % 2 == 0
    ensures SpotByTwo(e, n, f, t) % 2 == (e + f) % 2
  {
    var y := e + (f + 2 * t);
    SpotIsResidue(e, n, f + 2 * t);
    EvenModulusKeepsParity(y, n);
    assert y == (e + f) + 2 * t;
    ParityCancels(e + f, t);
  }

  // ---------- the cursors and the turn flag ----------

  predicate CursorsOk(c: Config) {
    CursorOk(c.activeCursor, |c.active|) && CursorOk(c.probationCursor, |c.probation|)
  }

  lemma {:induction false} CursorAfter(c: Config, active: bool, k: nat)
    requires CursorsOk(c)
    ensures var d, n := NextTimes(c, k + 1), Length(c, active);
            && d.active == c.active && d.probation == c.probation
            && CursorOf(d, active) == if n == 0 then End else At(Spot(Entry(c, active), n, k))
    decreases k
  {
    if k > 0 {
      CursorAfter(c, active, k - 1);
    } else {
      assert NextTimes(c, 0) == c;
    }
  }

  lemma NextFlips(c: Config)
    requires c.active != [] && c.probation != []
    ensures Next(c).0.prevReturnedProbationary == !c.prevReturnedProbationary
  {
  }

  lemma {:induction false} ListsStay(c: Config, k: nat)
    ensures NextTimes(c, k).active == c.active && NextTimes(c, k).probation == c.probation
    decreases k
  {
    if k > 0 {
      ListsStay(c, k - 1);
    }
  }

  /** The turn flag after k alternations, starting from b. */
  function Alternated(b: bool, k: nat): (r: bool)
    decreases k
  {
    if k == 0 then b else !Alternated(b, k - 1)
  }

  lemma {:induction false} AlternatedByParity(b: bool, k: nat)
    ensures Alternated(b, k) == if k % 2 == 0 then b else !b
    decreases k
  {
    if k > 0 {
      AlternatedByParity(b, k - 1);
    }
  }

  lemma {:induction false} FlagAfter(c: Config, k: nat)
    requires c.active != [] && c.probation != []
    ensures NextTimes(c, k).prevReturnedProbationary == Alternated(c.prevReturnedProbationary, k)
    decreases k
  {
    if k > 0 {
      FlagAfter(c, k - 1);
      ListsStay(c, k - 1);
      NextFlips(NextTimes(c, k - 1));
    }
  }

  /** While one list is empty the other is walked cyclically. */
  lemma AloneTurn(c: Config, active: bool, k: nat)
    requires CursorsOk(c) && Length(c, active) > 0 && Length(c, !active) == 0
    ensures Turn(c, k) == Some(Place(active, Spot(Entry(c, active), Length(c, active), k)))
  {
    CursorAfter(c, active, k);
    CursorAfter(c, !active, k);
  }

  /** The first turn of a list when turns alternate. */
  function FirstTurn(c: Config, active: bool): (k: nat) {
    if c.prevReturnedProbationary == active then 0 else 1
  }

  /** With both lists occupied turns alternate, and both cursors step on every call. */
  lemma AlternatingTurn(c: Config, active: bool, k: nat)
    requires CursorsOk(c) && c.active != [] && c.probation != []
    ensures k % 2 == FirstTurn(c, active) ==>
            Turn(c, k) == Some(Place(active, Spot(Entry(c, active), Length(c, active), k)))
    ensures k % 2 != FirstTurn(c, active) ==>
            Turn(c, k) == Some(Place(!active, Spot(Entry(c, !active), Length(c, !active), k)))
  {
    FlagAfter(c, k);
    AlternatedByParity(c.prevReturnedProbationary, k);
    CursorAfter(c, active, k);
    CursorAfter(c, !active, k);
  }

  // ---------- fairness ----------

  /** The only one of calls s, s + 1, ..., s + n - 1 that returns server j is call t. */
  predicate ServedOnce(c: Config, active: bool, j: nat, s: nat, n: nat, t: nat) {
    && s <= t < s + n
    && Turn(c, t) == Some(Place(active, j))
    && forall u: nat :: s <= u < s + n && u != t ==> Turn(c, u) != Some(Place(active, j))
  }

  /** One list only: any n consecutive calls return each of its n servers exactly once. */
  lemma FairAlone(c: Config, active: bool, s: nat, j: nat)
    requires CursorsOk(c) && j < Length(c, active) && Length(c, !active) == 0
    ensures exists t: nat :: ServedOnce(c, active, j, s, Length(c, active), t)
  {
    var n := Length(c, active);
    var t := SpotOnceByOne(Entry(c, active), n, s, j);
    AloneTurn(c, active, t);
    forall u: nat | s <= u < s + n && u != t
      ensures Turn(c, u) != Some(Place(active, j))
    {
      AloneTurn(c, active, u);
    }
    assert ServedOnce(c, active, j, s, n, t);
  }

  /** What a list's own turn number t returns, when turns alternate: the list is walked two positions a turn. */
  function OwnTurn(c: Config, active: bool, t: nat): (server: Option<Ref>) {
    Turn(c, FirstTurn(c, active) + 2 * t)
  }

  lemma OwnTurnSpot(c: Config, active: bool, t: nat)
    requires CursorsOk(c) && c.active != [] && c.probation != []
    ensures OwnTurn(c, active, t) ==
            Some(Place(active, SpotByTwo(Entry(c, active), Length(c, active), FirstTurn(c, active), t)))
  {
    AlternatingTurn(c, active, FirstTurn(c, active) + 2 * t);
  }

  /** Of the list's own turns s, ..., s + n - 1 the only one that goes to server j is turn t. */
  predicate OwnTurnOnce(c: Config, active: bool, j: nat, s: nat, n: nat, t: nat) {
    && s <= t < s + n
    && OwnTurn(c, active, t) == Some(Place(active, j))
    && forall u: nat :: s <= u < s + n && u != t ==> OwnTurn(c, active, u) != Some(Place(active, j))
  }

  lemma OwnTurnsOnce(c: Config, active: bool, j: nat, s: nat, n: nat, t: nat)
    requires CursorsOk(c) && c.active != [] && c.probation != []
    requires var e, m, f := Entry(c, active), Length(c, active), FirstTurn(c, active);
             && s <= t < s + n && SpotByTwo(e, m, f, t) == j
             && forall u: nat :: s <= u < s + n && u != t ==> SpotByTwo(e, m, f, u) != j
    ensures OwnTurnOnce(c, active, j, s, n, t)
  {
    OwnTurnSpot(c, active, t);
    forall u: nat | s <= u < s + n && u != t
      ensures OwnTurn(c, active, u) != Some(Place(active, j))
    {
      OwnTurnSpot(c, active, u);
    }
  }

  /** Both lists occupied, odd length: any n consecutive turns of the list serve each of its n servers exactly once. */
  lemma FairWhenOdd(c: Config, active: bool, s: nat, j: nat)
    requires CursorsOk(c) && c.active != [] && c.probation != []
    requires j < Length(c, active) && Length(c, active) % 2 == 1
    ensures exists t: nat :: OwnTurnOnce(c, active, j, s, Length(c, active), t)
  {
    var t := SpotOnceByTwoOdd(Entry(c, active), Length(c, active), FirstTurn(c, active), s, j);
    OwnTurnsOnce(c, active, j, s, Length(c, active), t);
  }

  /** The parity of the positions a list of even length is served at. */
  function ServedParity(c: Config, active: bool): (p: nat) {
    (Entry(c, active) + FirstTurn(c, active)) % 2
  }

  /** Both lists occupied, even length n: each position of one parity is served once in any n / 2 turns of the list. */
  lemma OneParityWhenEven(c: Config, active: bool, s: nat, j: nat)
    requires CursorsOk(c) && c.active != [] && c.probation != []
    requires j < Length(c, active) && Length(c, active) % 2 == 0 && j % 2 == ServedParity(c, active)
    ensures exists t: nat :: OwnTurnOnce(c, active, j, s, Length(c, active) / 2, t)
  {
    var t := SpotOnceByTwoEven(Entry(c, active), Length(c, active), FirstTurn(c, active), s, j);
    OwnTurnsOnce(c, active, j, s, Length(c, active) / 2, t);
  }

  lemma NeverServed(c: Config, active: bool, j: nat, k: nat)
    requires CursorsOk(c) && c.active != [] && c.probation != []
    requires j < Length(c, active) && Length(c, active) % 2 == 0 && j % 2 != ServedParity(c, active)
    ensures Turn(c, k) != Some(Place(active, j))
  {
    var f := FirstTurn(c, active);
    AlternatingTurn(c, active, k);
    if k % 2 == f {
      assert k == f + 2 * (k / 2);
      SpotKeepsParity(Entry(c, active), Length(c, active), f, k / 2);
    }
  }

  /**
   * Both lists occupied, even length: a server is ever returned if and only if its position has that parity. The others
   * wait until a list changes.
   */
  lemma StarvedExactlyWhenOtherParity(c: Config, active: bool, j: nat)
    requires CursorsOk(c) && c.active != [] && c.probation != []
    requires j < Length(c, active) && Length(c, active) % 2 == 0
    ensures (exists k: nat :: Turn(c, k) == Some(Place(active, j))) <==> j % 2 == ServedParity(c, active)
  {
    if j % 2 == ServedParity(c, active) {
      OneParityWhenEven(c, active, 0, j);
      var t: nat :| OwnTurnOnce(c, active, j, 0, Length(c, active) / 2, t);
      assert Turn(c, FirstTurn(c, active) + 2 * t) == Some(Place(active, j));
    } else {
      forall k: nat
        ensures Turn(c, k) != Some(Place(active, j))
      {
        NeverServed(c, active, j, k);
      }
    }
  }

  // ---------- removal under a cursor ----------

  function ListOf(c: Config, active: bool): (s: seq<Record>) {
    if active then c.active else c.probation
  }

  /** The record a list's cursor stands on. */
  function Standing(c: Config, active: bool): (r: Option<Record>) {
    match CursorOf(c, active)
    case End => None
    case At(i) => if i < Length(c, active) then Some(ListOf(c, active)[i]) else None
  }

  /** The element after position i of a circular list, or none if i is its only one. */
  function CyclicSuccessor(s: seq<Record>, i: nat): (r: Option<Record>)
    requires i < |s|
  {
    if |s| == 1 then None else if i + 1 < |s| then Some(s[i + 1]) else Some(s[0])
  }

  lemma RemovalLosesNoTurn(s: seq<Record>, i: nat)
    requires i < |s|
    ensures var t := Remove(s, i);
            match Advance(StepBack(At(i)), |t|)
            case End => CyclicSuccessor(s, i) == None
            case At(k) => k < |t| && CyclicSuccessor(s, i) == Some(t[k])
  {
  }

  lemma NextAdvances(c: Config, active: bool)
    ensures var s := ListOf(c, active);
            Standing(Next(c).0, active) ==
            match Advance(CursorOf(c, active), |s|) case End => None case At(k) => if k < |s| then Some(s[k]) else None
  {
  }

  /** After an eviction the list's next turn goes to the cyclic successor of the evicted server; the other stays. */
  lemma EvictionLosesNoTurn(c: Config, ref: Ref, now: int)
    requires Current(c, ref) && FailsFinally(Deref(c, ref))
    ensures var active := ref.InActive?;
            && Standing(Next(Fail(c, ref, now)).0, active) == CyclicSuccessor(ListOf(c, active), ref.i)
            && Standing(Fail(c, ref, now), !active) == Standing(c, !active)
  {
    var active, d := ref.InActive?, Fail(c, ref, now);
    RemovalLosesNoTurn(ListOf(c, active), ref.i);
    NextAdvances(d, active);
    assert ListOf(d, active) == Remove(ListOf(c, active), ref.i) && CursorOf(d, active) == StepBack(At(ref.i));
    assert ListOf(d, !active) == ListOf(c, !active) && CursorOf(d, !active) == CursorOf(c, !active);
  }

  lemma ActivateKeepsStanding(c: Config, r: Record)
    ensures Standing(Activate(c, r), true) == Standing(c, true)
  {
  }

  lemma PromotionInParts(c: Config, i: nat, now: int, e: Config, d: Config)
    requires Current(c, InProbation(i)) && d == Succeed(c, InProbation(i), now)
    requires e == Activate(c, Proven(c.probation[i], now))
    ensures d.probation == Remove(c.probation, i) && d.probationCursor == StepBack(At(i))
    ensures d.active == e.active && d.activeCursor == e.activeCursor
  {
  }

  /** A promotion does the same for the probationary list, and the cursor of the active set stays on its server. */
  lemma PromotionLosesNoTurn(c: Config, i: nat, now: int)
    requires Current(c, InProbation(i))
    ensures Standing(Next(Succeed(c, InProbation(i), now)).0, false) == CyclicSuccessor(c.probation, i)
    ensures Standing(Succeed(c, InProbation(i), now), true) == Standing(c, true)
  {
    var r := Proven(c.probation[i], now);
    var e, d := Activate(c, r), Succeed(c, InProbation(i), now);
    PromotionInParts(c, i, now, e, d);
    RemovalLosesNoTurn(c.probation, i);
    ActivateKeepsStanding(c, r);
    NextAdvances(d, false);
  }
}
