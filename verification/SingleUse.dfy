/**
 * Single use of a proof. A request reads the clock, and later takes its turn at the cache
 * with that reading; in between, other requests may do either. What the cache then sees
 * is a sequence of submissions whose readings need not be in order.
 */
module SingleUse {
  import opened Replay

  /** ProofWindow and ClockSkew. */
  datatype Policy = Policy(window: int, skew: int)

  datatype Proof = Proof(thumbprint: string, jti: string, iat: int)

  function CacheKey(p: Proof): string { p.thumbprint + ":" + p.jti }

  /** Thumbprints are base64url, so the separator is not in them. */
  predicate Separable(p: Proof) { ':' !in p.thumbprint }

  lemma CacheKeyInjective(p: Proof, q: Proof)
    requires Separable(p) && Separable(q) && CacheKey(p) == CacheKey(q)
    ensures p.thumbprint == q.thumbprint && p.jti == q.jti
  {
    var m, n := |p.thumbprint|, |q.thumbprint|;
    assert CacheKey(p)[m] == ':' && CacheKey(q)[n] == ':';
    assert m == n;
    assert p.thumbprint == CacheKey(p)[..m] && q.thumbprint == CacheKey(q)[..m];
    assert p.jti == CacheKey(p)[m + 1..] && q.jti == CacheKey(q)[m + 1..];
  }

  /** The acceptance window around a reading of the clock. */
  predicate InWindow(pol: Policy, iat: int, now: int) {
    !(iat < now - pol.window - pol.skew || iat > now + pol.skew)
  }

  function Expiry(pol: Policy, iat: int): int { iat + pol.window + 2 * pol.skew }

  datatype Submission = Submission(proof: Proof, now: int)

  datatype Verdict = Accepted | OutOfWindow | Replayed | CacheFull

  /** The freshness check and then the cache. */
  function Submit(pol: Policy, c: Cache, s: Submission): (Cache, Verdict) {
    if !InWindow(pol, s.proof.iat, s.now) then (c, OutOfWindow)
    else
      var (c', r) := CheckAndStore(c, Op(CacheKey(s.proof), Expiry(pol, s.proof.iat), s.now));
      (c', match r case Fresh => Accepted case Seen => Replayed case Full => CacheFull)
  }

  function After(pol: Policy, c: Cache, subs: seq<Submission>): Cache
    decreases subs
  {
    if subs == [] then c else After(pol, Submit(pol, c, subs[0]).0, subs[1..])
  }

  function Verdicts(pol: Policy, c: Cache, subs: seq<Submission>): (r: seq<Verdict>)
    ensures |r| == |subs|
    decreases subs
  {
    if subs == [] then []
    else [Submit(pol, c, subs[0]).1] + Verdicts(pol, Submit(pol, c, subs[0]).0, subs[1..])
  }

  /** No proof is accepted at two places of the run. */
  ghost predicate AcceptedOnce(pol: Policy, c: Cache, subs: seq<Submission>) {
    forall i, j | 0 <= i < j < |subs| && subs[i].proof == subs[j].proof ::
      !(Verdicts(pol, c, subs)[i] == Accepted && Verdicts(pol, c, subs)[j] == Accepted)
  }

  /** No reading reaches the cache more than lag behind one that reached it earlier. */
  ghost predicate LagAtMost(subs: seq<Submission>, lag: int) {
    forall i, j | 0 <= i < j < |subs| :: subs[i].now - subs[j].now <= lag
  }

  // ---------------------------------------------------------------- an entry survives

  lemma SubmitKeepsEntry(pol: Policy, c: Cache, s: Submission, key: string, expiry: int)
    requires key in c.entries && c.entries[key] == expiry && (InWindow(pol, s.proof.iat, s.now) ==> s.now < expiry)
    ensures var c' := Submit(pol, c, s).0; key in c'.entries && c'.entries[key] == expiry
  {
  }

  /** A stored proof is refused for as long as every reading that reaches the cache lies before its expiry. */
  lemma {:induction false} StoredIsRefused(pol: Policy, c: Cache, subs: seq<Submission>, proof: Proof, j: nat)
    requires CacheKey(proof) in c.entries && c.entries[CacheKey(proof)] == Expiry(pol, proof.iat)
    requires j < |subs| && subs[j].proof == proof
    requires forall i | 0 <= i <= j && InWindow(pol, subs[i].proof.iat, subs[i].now) :: subs[i].now < Expiry(pol, proof.iat)
    ensures Verdicts(pol, c, subs)[j] != Accepted
    decreases subs
  {
    if j > 0 {
      SubmitKeepsEntry(pol, c, subs[0], CacheKey(proof), Expiry(pol, proof.iat));
      StoredIsRefused(pol, Submit(pol, c, subs[0]).0, subs[1..], proof, j - 1);
    }
  }

  /** The first whole second from t on. */
  function NextSecond(t: int): int { (t + SECOND - 1) / SECOND * SECOND }

  /**
   * The readings never lag too far for the policy: by less than the skew, or else so little
   * that no proof issued at a whole second can reach the cache when the entry of another
   * has expired and the other may still be accepted.
   */
  predicate LagTolerated(pol: Policy, lag: int) {
    lag < pol.skew || NextSecond(pol.skew) > pol.window + 2 * pol.skew + lag
  }

  /** iat is a claim in whole seconds. */
  ghost predicate WholeSeconds(subs: seq<Submission>) {
    forall i | 0 <= i < |subs| :: subs[i].proof.iat % SECOND == 0
  }

  lemma MultiplesApart(a: int, b: int)
    requires a % SECOND == 0 && b % SECOND == 0
    ensures (a - b) % SECOND == 0
  {
  }

  lemma NoSecondBefore(t: int, q: int)
    requires q % SECOND == 0 && t <= q
    ensures NextSecond(t) <= q
  {
  }

  /** While a proof may still be accepted, no submission in its own window finds it expired. */
  lemma NotYetExpired(pol: Policy, lag: int, proof: Proof, s: Submission, last: int)
    requires LagTolerated(pol, lag) && InWindow(pol, s.proof.iat, s.now)
    requires lag < pol.skew || (proof.iat % SECOND == 0 && s.proof.iat % SECOND == 0)
    requires InWindow(pol, proof.iat, last) && s.now - last <= lag
    ensures s.now < Expiry(pol, proof.iat)
  {
    if lag >= pol.skew && s.now >= Expiry(pol, proof.iat) {
      MultiplesApart(s.proof.iat, proof.iat);
      NoSecondBefore(pol.skew, s.proof.iat - proof.iat);
    }
  }

  lemma {:induction false} NotAcceptedAgain(pol: Policy, c: Cache, subs: seq<Submission>, lag: int, i: nat, j: nat)
    requires LagAtMost(subs, lag) && 0 <= lag && LagTolerated(pol, lag) && (lag < pol.skew || WholeSeconds(subs))
    requires i < j < |subs| && subs[i].proof == subs[j].proof
    requires Verdicts(pol, c, subs)[i] == Accepted
    ensures Verdicts(pol, c, subs)[j] != Accepted
    decreases subs
  {
    var c', rest := Submit(pol, c, subs[0]).0, subs[1..];
    if i > 0 {
      NotAcceptedAgain(pol, c', rest, lag, i - 1, j - 1);
    } else if Verdicts(pol, c, subs)[j] == Accepted {
      var proof := subs[0].proof;
      AcceptedInWindow(pol, c', rest, j - 1);
      forall k | 0 <= k <= j - 1 && InWindow(pol, rest[k].proof.iat, rest[k].now)
        ensures rest[k].now < Expiry(pol, proof.iat)
      {
        assert rest[k] == subs[k + 1];
        assert k + 1 < j ==> subs[k + 1].now - subs[j].now <= lag;
        NotYetExpired(pol, lag, proof, rest[k], subs[j].now);
      }
      StoredIsRefused(pol, c', rest, proof, j - 1);
    }
  }

  lemma {:induction false} AcceptedInWindow(pol: Policy, c: Cache, subs: seq<Submission>, j: nat)
    requires j < |subs| && Verdicts(pol, c, subs)[j] == Accepted
    ensures InWindow(pol, subs[j].proof.iat, subs[j].now)
    decreases subs
  {
    if j > 0 {
      AcceptedInWindow(pol, Submit(pol, c, subs[0]).0, subs[1..], j - 1);
    }
  }

  // ------------------------------------------------------------------------- theorems

  /** Single use in any run whose readings lag less than the skew, from any cache. */
  lemma SingleUseUnderLag(pol: Policy, c: Cache, subs: seq<Submission>, lag: int)
    requires LagAtMost(subs, lag) && 0 <= lag < pol.skew
    ensures AcceptedOnce(pol, c, subs)
  {
    ToleratedIsSingleUse(pol, c, subs, lag);
  }

  /** An accepted first submission, and a later one accepted by what it left, are of different proofs. */
  lemma FirstAndLater(pol: Policy, c: Cache, first: Submission, rest: seq<Submission>, k: nat, lag: int)
    requires LagAtMost([first] + rest, lag) && 0 <= lag < pol.skew && k < |rest|
    requires Submit(pol, c, first).1 == Accepted && Verdicts(pol, Submit(pol, c, first).0, rest)[k] == Accepted
    ensures first.proof != rest[k].proof
  {
    hide Submit, LagAtMost;
    var subs := [first] + rest;
    assert subs[1..] == rest;
    SingleUseUnderLag(pol, c, subs, lag);
    assert Verdicts(pol, c, subs)[0] == Accepted && Verdicts(pol, c, subs)[k + 1] == Accepted;
    hide Verdicts;
    assert subs[0] == first && subs[k + 1] == rest[k];
  }

  lemma ToleratedIsSingleUse(pol: Policy, c: Cache, subs: seq<Submission>, lag: int)
    requires LagAtMost(subs, lag) && lag >= 0 && LagTolerated(pol, lag) && (lag < pol.skew || WholeSeconds(subs))
    ensures AcceptedOnce(pol, c, subs)
  {
    forall i, j | 0 <= i < j < |subs| && subs[i].proof == subs[j].proof
      ensures !(Verdicts(pol, c, subs)[i] == Accepted && Verdicts(pol, c, subs)[j] == Accepted)
    {
      if Verdicts(pol, c, subs)[i] == Accepted {
        NotAcceptedAgain(pol, c, subs, lag, i, j);
      }
    }
  }

  /** No run of proofs issued at whole seconds, over a cache of this size, accepts one twice. */
  ghost predicate AlwaysSingleUse(pol: Policy, max: int, lag: int) {
    forall subs: seq<Submission> | WholeSeconds(subs) && LagAtMost(subs, lag) :: AcceptedOnce(pol, NewCache(max), subs)
  }

  /**
   * A cache without room accepts nothing. A cache with room for one refuses everything
   * else until its entry has expired, by which time no proof it has seen is in its window.
   */
  predicate Tolerated(pol: Policy, max: int, lag: int) {
    max <= 0 || (max == 1 && pol.skew > 0) || LagTolerated(pol, lag)
  }

  // --------------------------------------------------------------- a cache of one entry

  /** The cache holds an entry that outlives this time. */
  ghost predicate HoldsPast(c: Cache, t: int) {
    exists k :: k in c.entries && c.entries[k] >= t
  }

  lemma NotEmpty(m: map<string, int>, k: string)
    requires k in m
    ensures |m| >= 1
  {
    assert m.Keys != {};
  }

  lemma OneSlotStep(pol: Policy, c: Cache, s: Submission, t: int)
    requires c.max == 1 && pol.skew > 0 && HoldsPast(c, t)
    ensures var c' := Submit(pol, c, s).0; c'.max == 1 && HoldsPast(c', t)
  {
    var k :| k in c.entries && c.entries[k] >= t;
    NotEmpty(c.entries, k);
    var c', key, swept := Submit(pol, c, s).0, CacheKey(s.proof), Swept(c.entries, s.now);
    hide CacheKey;
    if !InWindow(pol, s.proof.iat, s.now) || (key in c.entries && s.now < c.entries[key]) {
      assert c' == c;
    } else if |swept| >= 1 {
      var u :| u in swept;
      assert c'.entries == swept;
      if k !in swept { assert swept[u] > s.now >= t; } else { assert swept[k] >= t; }
    } else {
      if k in swept { NotEmpty(swept, k); }
      assert c'.entries[key] == Expiry(pol, s.proof.iat) > s.now >= t;
    }
  }

  /** While an entry outlives a proof's expiry, that proof is not accepted. */
  lemma OneSlotRefuses(pol: Policy, c: Cache, s: Submission)
    requires c.max == 1 && pol.skew > 0 && HoldsPast(c, Expiry(pol, s.proof.iat))
    ensures Submit(pol, c, s).1 != Accepted
  {
    var k :| k in c.entries && c.entries[k] >= Expiry(pol, s.proof.iat);
    NotEmpty(c.entries, k);
    if InWindow(pol, s.proof.iat, s.now) {
      assert k in Swept(c.entries, s.now);
      NotEmpty(Swept(c.entries, s.now), k);
    }
  }

  lemma {:induction false} OneSlotRefusesLater(pol: Policy, c: Cache, subs: seq<Submission>, proof: Proof, j: nat)
    requires c.max == 1 && pol.skew > 0 && HoldsPast(c, Expiry(pol, proof.iat))
    requires j < |subs| && subs[j].proof == proof
    ensures Verdicts(pol, c, subs)[j] != Accepted
    decreases subs
  {
    hide Submit, HoldsPast;
    if j == 0 {
      OneSlotRefuses(pol, c, subs[0]);
    } else {
      OneSlotStep(pol, c, subs[0], Expiry(pol, proof.iat));
      OneSlotRefusesLater(pol, Submit(pol, c, subs[0]).0, subs[1..], proof, j - 1);
    }
  }

  lemma SubmitKeepsMax(pol: Policy, c: Cache, s: Submission)
    ensures Submit(pol, c, s).0.max == c.max
    ensures Submit(pol, c, s).1 == Accepted ==> c.max > 0 && HoldsPast(Submit(pol, c, s).0, Expiry(pol, s.proof.iat))
  {
    var c' := Submit(pol, c, s).0;
    if Submit(pol, c, s).1 == Accepted {
      assert c'.entries[CacheKey(s.proof)] >= Expiry(pol, s.proof.iat);
    }
  }

  /** With room for one entry, and any positive skew, proofs are single use at any lag whatever. */
  lemma {:induction false} OneSlotSingleUse(pol: Policy, c: Cache, subs: seq<Submission>, i: nat, j: nat)
    requires c.max == 1 && pol.skew > 0 && i < j < |subs| && subs[i].proof == subs[j].proof
    requires Verdicts(pol, c, subs)[i] == Accepted
    ensures Verdicts(pol, c, subs)[j] != Accepted
    decreases subs
  {
    hide Submit, HoldsPast;
    var c', rest := Submit(pol, c, subs[0]).0, subs[1..];
    SubmitKeepsMax(pol, c, subs[0]);
    if i > 0 {
      OneSlotSingleUse(pol, c', rest, i - 1, j - 1);
    } else {
      OneSlotRefusesLater(pol, c', rest, subs[0].proof, j - 1);
    }
  }

  lemma {:induction false} NoRoomAcceptsNothing(pol: Policy, c: Cache, subs: seq<Submission>, i: nat)
    requires c.max <= 0 && i < |subs|
    ensures Verdicts(pol, c, subs)[i] != Accepted
    decreases subs
  {
    SubmitKeepsMax(pol, c, subs[0]);
    hide Submit;
    if i > 0 {
      NoRoomAcceptsNothing(pol, Submit(pol, c, subs[0]).0, subs[1..], i - 1);
    }
  }

  lemma ToleratedHolds(pol: Policy, max: int, subs: seq<Submission>, lag: int)
    requires lag >= 0 && Tolerated(pol, max, lag) && WholeSeconds(subs) && LagAtMost(subs, lag)
    ensures AcceptedOnce(pol, NewCache(max), subs)
  {
    if LagTolerated(pol, lag) {
      ToleratedIsSingleUse(pol, NewCache(max), subs, lag);
    } else {
      forall i, j | 0 <= i < j < |subs| && subs[i].proof == subs[j].proof
        ensures !(Verdicts(pol, NewCache(max), subs)[i] == Accepted && Verdicts(pol, NewCache(max), subs)[j] == Accepted)
      {
        if max <= 0 {
          NoRoomAcceptsNothing(pol, NewCache(max), subs, i);
        } else if Verdicts(pol, NewCache(max), subs)[i] == Accepted {
          OneSlotSingleUse(pol, NewCache(max), subs, i, j);
        }
      }
    }
  }

  // ------------------------------------------------------------ a run that breaks it

  /** Proofs of one key and second, one after the other; the first is accepted twice in the end. */
  function Filler(i: nat): Proof { Proof("k", seq(i + 1, _ => 'p'), 0) }

  function ProofR(pol: Policy): Proof { Proof("k", "r", NextSecond(pol.skew)) }

  /** The last reading at which the fillers are accepted, and the reading of the later proof. */
  function LastReading(pol: Policy): int { pol.window + pol.skew }

  function SweepReading(pol: Policy): int {
    var earliest := NextSecond(pol.skew) - pol.skew;
    if earliest <= pol.window + 2 * pol.skew then pol.window + 2 * pol.skew else earliest
  }

  function FillRun(pol: Policy, n: nat): seq<Submission> {
    if n == 0 then [] else FillRun(pol, n - 1) + [Submission(Filler(n - 1), LastReading(pol))]
  }

  /** Proofs fill the cache, the sweep for a later one empties it, and the first is back in. */
  function LateRun(pol: Policy, max: nat): seq<Submission> {
    FillRun(pol, max) + [Submission(ProofR(pol), SweepReading(pol))] + [Submission(Filler(0), LastReading(pol))]
  }

  lemma FillerKey(i: nat)
    ensures |CacheKey(Filler(i))| == i + 3 && CacheKey(Filler(i))[2] == 'p'
  {
  }

  /** What the first n fillers leave in the cache. */
  function Filled(n: nat, expiry: int): map<string, int> {
    if n == 0 then EMPTY else Filled(n - 1, expiry)[CacheKey(Filler(n - 1)) := expiry]
  }

  lemma {:induction false} FilledKeys(n: nat, expiry: int)
    ensures |Filled(n, expiry)| == n
    ensures forall k | k in Filled(n, expiry) :: 3 <= |k| < n + 3 && k[2] == 'p' && Filled(n, expiry)[k] == expiry
  {
    if n > 0 {
      FilledKeys(n - 1, expiry);
      FillerKey(n - 1);
      hide Filled, Filler, CacheKey;
      assert Filled(n, expiry) == Filled(n - 1, expiry)[CacheKey(Filler(n - 1)) := expiry] by { FilledStep(n, expiry); }
    }
  }

  lemma FilledStep(n: nat, expiry: int)
    requires n > 0
    ensures Filled(n, expiry) == Filled(n - 1, expiry)[CacheKey(Filler(n - 1)) := expiry]
  {
  }

  /** The cache after n fillers, none of which made it sweep but the first. */
  function FilledCache(pol: Policy, max: int, n: nat): Cache {
    Cache(Filled(n, Expiry(pol, 0)), max, if n == 0 then ZERO_TIME else LastReading(pol))
  }

  lemma FillStep(pol: Policy, max: int, n: nat)
    requires pol.window >= 0 && pol.skew >= 0 && n < max
    ensures Submit(pol, FilledCache(pol, max, n), Submission(Filler(n), LastReading(pol))) == (FilledCache(pol, max, n + 1), Accepted)
  {
    FilledKeys(n, Expiry(pol, 0));
    FillerKey(n);
    FilledStep(n + 1, Expiry(pol, 0));
    hide Filled, Filler, CacheKey;
    var key, c := CacheKey(Filler(n)), FilledCache(pol, max, n);
    assert key !in c.entries;
    if n == 0 {
      assert c.entries == EMPTY by { FilledNone(Expiry(pol, 0)); }
      assert Swept(EMPTY, LastReading(pol)) == EMPTY;
    }
    assert Filler(n).iat == 0 by { FillerIat(n); }
  }

  lemma FilledNone(expiry: int)
    ensures Filled(0, expiry) == EMPTY
  {
  }

  lemma FillerIat(n: nat)
    ensures Filler(n).iat == 0
  {
  }

  lemma {:induction false} FillRunFills(pol: Policy, max: int, n: nat)
    requires pol.window >= 0 && pol.skew >= 0 && n <= max
    ensures |FillRun(pol, n)| == n && After(pol, NewCache(max), FillRun(pol, n)) == FilledCache(pol, max, n)
    ensures n > 0 ==> Verdicts(pol, NewCache(max), FillRun(pol, n))[0] == Accepted
    ensures forall i | 0 <= i < n :: FillRun(pol, n)[i] == Submission(Filler(i), LastReading(pol))
  {
    if n > 0 {
      FillRunFills(pol, max, n - 1);
      FillStep(pol, max, n - 1);
      OneMore(pol, NewCache(max), FillRun(pol, n - 1), Submission(Filler(n - 1), LastReading(pol)));
      hide Submit, Filler, FilledCache, After, Verdicts;
    }
  }

  /** The later proof finds a full cache of expired entries, and leaves the cache to itself. */
  lemma SweepsAll(pol: Policy, max: int)
    requires pol.window >= 0 && pol.skew >= 0 && max >= 1 && Expiry(pol, 0) <= SweepReading(pol)
    requires InWindow(pol, ProofR(pol).iat, SweepReading(pol))
    ensures Submit(pol, FilledCache(pol, max, max), Submission(ProofR(pol), SweepReading(pol))) ==
            (Cache(map[CacheKey(ProofR(pol)) := Expiry(pol, ProofR(pol).iat)], max, SweepReading(pol)), Accepted)
  {
    FilledKeys(max, Expiry(pol, 0));
    hide Filled, SweepReading, NextSecond;
    var key := CacheKey(ProofR(pol));
    assert key[2] == 'r';
    assert Swept(Filled(max, Expiry(pol, 0)), SweepReading(pol)) == EMPTY;
  }

  lemma FirstIsBack(pol: Policy, max: int, r: string, expiry: int)
    requires pol.window >= 0 && pol.skew >= 0 && max >= 2 && r != CacheKey(Filler(0))
    requires LastReading(pol) <= SweepReading(pol)
    ensures Submit(pol, Cache(map[r := expiry], max, SweepReading(pol)), Submission(Filler(0), LastReading(pol))).1 == Accepted
  {
    hide CacheKey, NextSecond;
  }

  lemma LateRunFits(pol: Policy, max: nat, lag: int)
    requires pol.window >= 0 && pol.skew >= 0 && lag >= 0 && !LagTolerated(pol, lag)
    ensures WholeSeconds(LateRun(pol, max)) && LagAtMost(LateRun(pol, max), lag)
    ensures InWindow(pol, ProofR(pol).iat, SweepReading(pol))
    ensures LastReading(pol) <= Expiry(pol, 0) <= SweepReading(pol)
  {
    assert pol.skew <= NextSecond(pol.skew) && NextSecond(pol.skew) % SECOND == 0;
    FillRunFills(pol, max, max);
    hide NextSecond;
    var subs := LateRun(pol, max);
    assert |subs| == max + 2;
    forall i | 0 <= i < |subs| ensures subs[i].proof.iat % SECOND == 0 && (i != max ==> subs[i].now == LastReading(pol)) {
      if i < max { assert subs[i] == FillRun(pol, max)[i]; }
    }
  }

  lemma LateRunAccepts(pol: Policy, max: nat, lag: int)
    requires pol.window >= 0 && pol.skew >= 0 && lag >= 0 && !LagTolerated(pol, lag) && max >= 2
    ensures |LateRun(pol, max)| == max + 2 && LateRun(pol, max)[0].proof == LateRun(pol, max)[max + 1].proof
    ensures Verdicts(pol, NewCache(max), LateRun(pol, max))[0] == Verdicts(pol, NewCache(max), LateRun(pol, max))[max + 1] == Accepted
  {
    LateRunFits(pol, max, lag);
    FillRunFills(pol, max, max);
    SweepsAll(pol, max);
    FillerKey(0);
    assert CacheKey(ProofR(pol))[2] == 'r';
    FirstIsBack(pol, max, CacheKey(ProofR(pol)), Expiry(pol, ProofR(pol).iat));
    hide Submit, NextSecond, SweepReading, CacheKey, FilledCache, Filler;
    var fill, r, p := FillRun(pol, max), Submission(ProofR(pol), SweepReading(pol)), Submission(Filler(0), LastReading(pol));
    OneMore(pol, NewCache(max), fill, r);
    OneMore(pol, NewCache(max), fill + [r], p);
    hide After, Verdicts;
    assert LateRun(pol, max) == fill + [r] + [p];
  }

  /** With no skew at all, a proof at its last reading is expired as soon as it is stored. */
  lemma NoSkewAcceptsTwice(pol: Policy, max: int)
    requires pol.window >= 0 && pol.skew == 0 && max == 1
    ensures var s := Submission(Filler(0), LastReading(pol));
            Verdicts(pol, NewCache(max), [s, s]) == [Accepted, Accepted]
  {
    var s := Submission(Filler(0), LastReading(pol));
    FillStep(pol, max, 0);
    FilledNone(0);
    var c := FilledCache(pol, max, 0);
    assert c.entries == EMPTY && c == NewCache(max);
    var c1 := FilledCache(pol, max, 1);
    FilledStep(1, Expiry(pol, 0));
    var key := CacheKey(Filler(0));
    assert c1.entries == map[key := LastReading(pol)];
    hide CacheKey, Filler;
    assert Swept(c1.entries, LastReading(pol)) == EMPTY;
    assert Filler(0).iat == 0 by { FillerIat(0); }
    assert Submit(pol, c1, s).1 == Accepted;
    hide Submit;
    assert [s, s][1..] == [s] && [s][1..] == [];
    assert Verdicts(pol, c1, [s]) == [Accepted] + Verdicts(pol, Submit(pol, c1, s).0, []);
    assert Verdicts(pol, c, [s, s]) == [Accepted] + Verdicts(pol, c1, [s]);
  }

  /** Readings that fall too far behind let a swept proof in again, whatever the size of the cache. */
  lemma LateReadingBreaksSingleUse(pol: Policy, max: int, lag: int)
    requires pol.window >= 0 && pol.skew >= 0 && lag >= 0 && !Tolerated(pol, max, lag)
    ensures !AlwaysSingleUse(pol, max, lag)
  {
    if max >= 2 {
      LateRunFits(pol, max, lag);
      LateRunAccepts(pol, max, lag);
      TwiceBreaks(pol, max, lag, LateRun(pol, max), max + 1);
    } else {
      NoSkewAcceptsTwice(pol, max);
      var s := Submission(Filler(0), LastReading(pol));
      TwiceBreaks(pol, max, lag, [s, s], 1);
    }
  }

  lemma TwiceBreaks(pol: Policy, max: int, lag: int, subs: seq<Submission>, j: nat)
    requires WholeSeconds(subs) && LagAtMost(subs, lag) && 0 < j < |subs| && subs[0].proof == subs[j].proof
    requires Verdicts(pol, NewCache(max), subs)[0] == Verdicts(pol, NewCache(max), subs)[j] == Accepted
    ensures !AlwaysSingleUse(pol, max, lag)
  {
    hide Verdicts, NewCache, WholeSeconds, LagAtMost;
    assert !AcceptedOnce(pol, NewCache(max), subs);
  }

  /**
   * Exactly how late a reading may be: over a cache of a given size, proofs are single use
   * in every run in which readings lag by at most `lag`, if and only if that is tolerated.
   */
  lemma SingleUseIff(pol: Policy, max: int, lag: int)
    requires pol.window >= 0 && pol.skew >= 0 && lag >= 0
    ensures AlwaysSingleUse(pol, max, lag) <==> Tolerated(pol, max, lag)
  {
    if Tolerated(pol, max, lag) {
      forall subs: seq<Submission> | WholeSeconds(subs) && LagAtMost(subs, lag) ensures AcceptedOnce(pol, NewCache(max), subs) {
        ToleratedHolds(pol, max, subs, lag);
      }
    } else {
      LateReadingBreaksSingleUse(pol, max, lag);
    }
  }

  /** For any cache of more than one entry, and a window and skew worth a second, the bound is the skew itself. */
  lemma SingleUseIffLagBelowSkew(pol: Policy, max: int, lag: int)
    requires pol.window >= 0 && pol.skew >= 0 && lag >= 0 && pol.window + 2 * pol.skew >= SECOND && max >= 2
    ensures AlwaysSingleUse(pol, max, lag) <==> lag < pol.skew
  {
    SingleUseIff(pol, max, lag);
    assert NextSecond(pol.skew) < pol.skew + SECOND;
  }

  // ------------------------------------------------------------- no false accusations

  lemma {:induction false} EntriesWereAccepted(pol: Policy, c: Cache, subs: seq<Submission>, key: string)
    requires key in After(pol, c, subs).entries
    ensures key in c.entries ||
            exists i | 0 <= i < |subs| :: Verdicts(pol, c, subs)[i] == Accepted && CacheKey(subs[i].proof) == key
    decreases subs
  {
    if subs != [] {
      var c' := Submit(pol, c, subs[0]).0;
      EntriesWereAccepted(pol, c', subs[1..], key);
      if key !in c'.entries {
        var i :| 0 <= i < |subs| - 1 && Verdicts(pol, c', subs[1..])[i] == Accepted && CacheKey(subs[1..][i].proof) == key;
        assert Verdicts(pol, c, subs)[i + 1] == Accepted && subs[i + 1] == subs[1..][i];
      } else if key !in c.entries {
        assert Verdicts(pol, c, subs)[0] == Accepted && CacheKey(subs[0].proof) == key;
      }
    }
  }

  lemma {:induction false} VerdictAt(pol: Policy, c: Cache, subs: seq<Submission>, j: nat)
    requires j < |subs|
    ensures Verdicts(pol, c, subs)[j] == Submit(pol, After(pol, c, subs[..j]), subs[j]).1
    ensures Verdicts(pol, c, subs)[..j] == Verdicts(pol, c, subs[..j])
    decreases subs
  {
    if j > 0 {
      VerdictAt(pol, Submit(pol, c, subs[0]).0, subs[1..], j - 1);
      assert subs[..j][1..] == subs[1..][..j - 1];
    } else {
      assert subs[..0] == [];
    }
  }

  /** A proof is refused as replayed only if its key and identifier were accepted before. */
  lemma ReplayedWasAccepted(pol: Policy, max: int, subs: seq<Submission>, j: nat)
    requires j < |subs| && Verdicts(pol, NewCache(max), subs)[j] == Replayed
    requires forall i | 0 <= i <= j :: Separable(subs[i].proof)
    ensures exists i | 0 <= i < j ::
              && Verdicts(pol, NewCache(max), subs)[i] == Accepted
              && subs[i].proof.thumbprint == subs[j].proof.thumbprint && subs[i].proof.jti == subs[j].proof.jti
  {
    var c := NewCache(max);
    VerdictAt(pol, c, subs, j);
    var key := CacheKey(subs[j].proof);
    EntriesWereAccepted(pol, c, subs[..j], key);
    var i :| 0 <= i < j && Verdicts(pol, c, subs[..j])[i] == Accepted && CacheKey(subs[..j][i].proof) == key;
    assert Verdicts(pol, c, subs)[i] == Verdicts(pol, c, subs)[..j][i];
    CacheKeyInjective(subs[i].proof, subs[j].proof);
  }

  lemma {:induction false} OneMore(pol: Policy, c: Cache, subs: seq<Submission>, s: Submission)
    ensures After(pol, c, subs + [s]) == Submit(pol, After(pol, c, subs), s).0
    ensures Verdicts(pol, c, subs + [s]) == Verdicts(pol, c, subs) + [Submit(pol, After(pol, c, subs), s).1]
    decreases subs
  {
    hide Submit;
    if subs == [] {
      assert subs + [s] == [s] && [s][1..] == [];
    } else {
      OneMore(pol, Submit(pol, c, subs[0]).0, subs[1..], s);
      assert (subs + [s])[1..] == subs[1..] + [s];
    }
  }

  // --------------------------------------------------------------- concurrent requests

  datatype Event =
    | ReadClock(req: nat, at: int)
    | TakeTurn(req: nat, proof: Proof)  // the request checks freshness and goes to the cache

  /** The submissions the cache sees in a run of interleaved requests. */
  function SubmissionsOf(es: seq<Event>, readings: map<nat, int>): seq<Submission>
    decreases es
  {
    if es == [] then []
    else match es[0]
      case ReadClock(req, at) => SubmissionsOf(es[1..], readings[req := at])
      case TakeTurn(req, proof) =>
        (if req in readings then [Submission(proof, readings[req])] else []) + SubmissionsOf(es[1..], readings)
  }

  /**
   * Every request has a reading when its turn comes, and that reading is later than the
   * latest reading anyone made so far, less the skew.
   */
  ghost predicate Timely(es: seq<Event>, readings: map<nat, int>, latest: int, skew: int)
    decreases es
  {
    es == [] ||
    match es[0]
    case ReadClock(req, at) => Timely(es[1..], readings[req := at], if at > latest then at else latest, skew)
    case TakeTurn(req, _) => req in readings && readings[req] > latest - skew && Timely(es[1..], readings, latest, skew)
  }

  lemma {:induction false} TimelyBoundsLag(es: seq<Event>, readings: map<nat, int>, latest: int, skew: int)
    requires Timely(es, readings, latest, skew) && forall r | r in readings :: readings[r] <= latest
    ensures var subs := SubmissionsOf(es, readings);
            (forall j | 0 <= j < |subs| :: subs[j].now > latest - skew) && LagAtMost(subs, skew - 1)
    decreases es
  {
    if es != [] {
      match es[0]
      case ReadClock(req, at) => TimelyBoundsLag(es[1..], readings[req := at], if at > latest then at else latest, skew);
      case TakeTurn(req, proof) =>
        TimelyBoundsLag(es[1..], readings, latest, skew);
        var rest := SubmissionsOf(es[1..], readings);
        var subs := [Submission(proof, readings[req])] + rest;
        forall i, j | 0 <= i < j < |subs| ensures subs[i].now - subs[j].now <= skew - 1 {
          assert subs[j] == rest[j - 1];
          if i > 0 { assert subs[i] == rest[i - 1]; }
        }
    }
  }

  /**
   * Proof single use over concurrent runs: in any interleaving of clock readings and cache
   * steps in which no reading is handed over a skew behind the latest, a proof is accepted
   * at most once.
   */
  lemma ConcurrentSingleUse(pol: Policy, max: int, es: seq<Event>, start: int)
    requires pol.skew > 0 && Timely(es, map[], start, pol.skew)
    ensures AcceptedOnce(pol, NewCache(max), SubmissionsOf(es, map[]))
  {
    TimelyBoundsLag(es, map[], start, pol.skew);
    SingleUseUnderLag(pol, NewCache(max), SubmissionsOf(es, map[]), pol.skew - 1);
  }
}
