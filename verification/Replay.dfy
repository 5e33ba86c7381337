/** The bounded, lazily swept cache of proof identifiers. Times are nanoseconds since 1970. */
module Replay {
  const SECOND: int := 1_000_000_000
  const SWEEP_INTERVAL: int := 10 * SECOND
  // The zero time.Time, 1 January of year 1.
  const ZERO_TIME: int := -62_135_596_800 * SECOND

  datatype Outcome = Fresh | Seen | Full

  datatype Cache = Cache(entries: map<string, int>, max: int, lastSweep: int)

  const EMPTY: map<string, int> := map[]

  function NewCache(max: int): Cache { Cache(EMPTY, max, ZERO_TIME) }

  /** The entries whose expiry lies ahead. */
  function Swept(entries: map<string, int>, now: int): map<string, int> {
    map k | k in entries && now < entries[k] :: entries[k]
  }

  datatype Op = Op(key: string, expiry: int, now: int)

  function CheckAndStore(c: Cache, op: Op): (Cache, Outcome) {
    if op.key in c.entries && op.now < c.entries[op.key] then (c, Seen)
    else if |c.entries| >= c.max || op.now - c.lastSweep > SWEEP_INTERVAL then
      var swept := c.(entries := Swept(c.entries, op.now), lastSweep := op.now);
      if |swept.entries| >= c.max then (swept, Full)
      else (swept.(entries := swept.entries[op.key := op.expiry]), Fresh)
    else (c.(entries := c.entries[op.key := op.expiry]), Fresh)
  }

  class ReplayCache {
    var entries: map<string, int>
    const max: int
    var lastSweep: int

    ghost function State(): Cache
      reads this
    {
      Cache(entries, max, lastSweep)
    }

    constructor (max: int)
      ensures State() == NewCache(max)
    {
      entries, this.max, lastSweep := map[], max, ZERO_TIME;
    }

    method Store(key: string, expiry: int, now: int) returns (r: Outcome)
      modifies this
      ensures (State(), r) == CheckAndStore(old(State()), Op(key, expiry, now))
    {
      if key in entries && now < entries[key] {
        return Seen;
      }
      if |entries| >= max || now - lastSweep > SWEEP_INTERVAL {
        var toVisit := entries.Keys;
        while toVisit != {}
          invariant toVisit <= old(entries).Keys && lastSweep == old(lastSweep)
          invariant forall k | k in toVisit :: k in entries
          invariant forall k | k in entries :: k in old(entries) && entries[k] == old(entries)[k]
          invariant forall k | k in old(entries) && k !in toVisit :: k in entries <==> now < old(entries)[k]
          decreases toVisit
        {
          var k :| k in toVisit;
          toVisit := toVisit - {k};
          if !(now < entries[k]) {
            entries := entries - {k};
          }
        }
        assert entries == Swept(old(entries), now);
        lastSweep := now;
        if |entries| >= max {
          return Full;
        }
      }
      entries := entries[key := expiry];
      return Fresh;
    }
  }

  // ------------------------------------------------------------ the eager reference

  /** What the cache promises, with no laziness: drop what has expired, then decide. */
  function EagerStep(live: map<string, int>, max: int, op: Op): (map<string, int>, Outcome) {
    var now := Swept(live, op.now);
    if op.key in now then (now, Seen)
    else if |now| >= max then (now, Full)
    else (now[op.key := op.expiry], Fresh)
  }

  function LazyOutcomes(c: Cache, ops: seq<Op>): (r: seq<Outcome>)
    ensures |r| == |ops|
    decreases ops
  {
    if ops == [] then []
    else [CheckAndStore(c, ops[0]).1] + LazyOutcomes(CheckAndStore(c, ops[0]).0, ops[1..])
  }

  function EagerOutcomes(live: map<string, int>, max: int, ops: seq<Op>): (r: seq<Outcome>)
    ensures |r| == |ops|
    decreases ops
  {
    if ops == [] then []
    else [EagerStep(live, max, ops[0]).1] + EagerOutcomes(EagerStep(live, max, ops[0]).0, max, ops[1..])
  }

  function AfterLazy(c: Cache, ops: seq<Op>): Cache
    decreases ops
  {
    if ops == [] then c else AfterLazy(CheckAndStore(c, ops[0]).0, ops[1..])
  }

  ghost predicate ClockNeverBack(ops: seq<Op>) {
    forall i, j | 0 <= i < j < |ops| :: ops[i].now <= ops[j].now
  }

  /** The two caches hold the same live entries at every time from t on. */
  ghost predicate SameLive(c: Cache, live: map<string, int>, t: int) {
    forall u | t <= u :: Swept(c.entries, u) == Swept(live, u)
  }

  lemma SweptTwice(entries: map<string, int>, t: int, u: int)
    requires t <= u
    ensures Swept(Swept(entries, t), u) == Swept(entries, u)
  {
  }

  lemma SweptSmaller(entries: map<string, int>, t: int)
    ensures |Swept(entries, t)| <= |entries|
  {
    var swept := Swept(entries, t);
    assert swept.Keys <= entries.Keys;
    SubsetSmaller(swept.Keys, entries.Keys);
    assert |swept.Keys| == |swept| && |entries.Keys| == |entries|;
  }

  lemma SubsetSmaller<T>(a: set<T>, b: set<T>)
    requires a <= b
    ensures |a| <= |b|
  {
    assert b == a + (b - a);
  }

  lemma SweptStore(entries: map<string, int>, key: string, expiry: int, t: int)
    ensures Swept(entries[key := expiry], t) ==
            if t < expiry then Swept(entries, t)[key := expiry] else Swept(entries, t) - {key}
  {
  }

  lemma StepRefines(c: Cache, live: map<string, int>, t: int, op: Op)
    requires SameLive(c, live, t) && t <= op.now
    ensures var (c', r) := CheckAndStore(c, op);
            var (live', r') := EagerStep(live, c.max, op);
            r == r' && c'.max == c.max && SameLive(c', live', op.now)
  {
    var now := Swept(live, op.now);
    assert now == Swept(c.entries, op.now);
    SweptSmaller(c.entries, op.now);
    var (c', r) := CheckAndStore(c, op);
    var (live', r') := EagerStep(live, c.max, op);
    forall u | op.now <= u ensures Swept(c'.entries, u) == Swept(live', u) {
      SweptTwice(live, op.now, u);
      SweptTwice(c.entries, op.now, u);
      SweptStore(c.entries, op.key, op.expiry, u);
      SweptStore(now, op.key, op.expiry, u);
    }
  }

  lemma {:induction false} OutcomesRefine(c: Cache, live: map<string, int>, t: int, ops: seq<Op>)
    requires SameLive(c, live, t) && ClockNeverBack(ops) && (ops != [] ==> t <= ops[0].now)
    ensures LazyOutcomes(c, ops) == EagerOutcomes(live, c.max, ops)
    decreases ops
  {
    if ops != [] {
      StepRefines(c, live, t, ops[0]);
      OutcomesRefine(CheckAndStore(c, ops[0]).0, EagerStep(live, c.max, ops[0]).0, ops[0].now, ops[1..]);
    }
  }

  /**
   * The lazy cache refines the eager one: with a clock that never goes back, every answer
   * is the eager answer, whenever the sweeps happened to run.
   */
  lemma LazyRefinesEager(max: int, ops: seq<Op>)
    requires ClockNeverBack(ops)
    ensures LazyOutcomes(NewCache(max), ops) == EagerOutcomes(EMPTY, max, ops)
  {
    if ops != [] {
      OutcomesRefine(NewCache(max), EMPTY, ops[0].now, ops);
    }
  }

  /** The bound holds with any clock. */
  lemma {:induction false} NeverOverfull(c: Cache, ops: seq<Op>)
    requires |c.entries| <= if c.max > 0 then c.max else 0
    ensures var c' := AfterLazy(c, ops);
            c'.max == c.max && |c'.entries| <= if c.max > 0 then c.max else 0
    decreases ops
  {
    if ops != [] {
      SweptSmaller(c.entries, ops[0].now);
      NeverOverfull(CheckAndStore(c, ops[0]).0, ops[1..]);
    }
  }
}
