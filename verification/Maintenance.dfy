/**
 * The renewal loop over unbounded time. Ticks come at the loop's interval, renewals
 * succeed, and the authority's NotAfter is the requested one cut to whole seconds, as a
 * certificate stores it. Durations and times are nanoseconds.
 */
module Maintenance {
  import opened Wrappers
  import opened ClientModel

  const MINUTE: int := 60 * SECOND

  function Clamp(low: int, x: int, high: int): int {
    var capped := if x < high then x else high;
    if capped > low then capped else low
  }

  /** Maintain's ticker period, always taken from the classical margin. */
  function Interval(cfg: Config): int { Clamp(SECOND, Margin(cfg, ClassicalPlane) / 4, MINUTE) }

  /**
   * The loop ticks at least once a minute and at most once a second; and four times within
   * the classical margin, as nearly as those bounds allow.
   */
  lemma TickRate(cfg: Config)
    ensures 1_000_000_000 <= Interval(cfg) <= 60_000_000_000
    ensures Interval(cfg) == 1_000_000_000 || 4 * Interval(cfg) <= Margin(cfg, ClassicalPlane)
    ensures Interval(cfg) == 60_000_000_000 || Margin(cfg, ClassicalPlane) < 4 * (Interval(cfg) + 1)
  {
  }

  /** The lifetime checks of Config.Validate. */
  predicate Validate(cfg: Config) {
    cfg.certLifetime > 0 && cfg.renewBefore < cfg.certLifetime
  }

  function IssuedNotAfter(now: int, lifetime: int): int { (now + lifetime) / SECOND * SECOND }

  /** The loop's treatment of one plane at one tick, with a renewal that succeeds. */
  function PlaneTick(cfg: Config, s: State, p: Plane, now: int): State {
    if NeedsRenewalPlane(cfg, s, p, now) then
      RotatePlane(cfg, s, p, PlaneEnv(now, Some(Credential("", IssuedNotAfter(now, Lifetime(cfg, p)))))).0
    else s
  }

  function TickTime(cfg: Config, start: int, k: nat): int { start + (k + 1) * Interval(cfg) }

  /** The state just before tick k of a loop that started at `start`. */
  function BeforeTick(cfg: Config, s: State, p: Plane, start: int, k: nat): State {
    if k == 0 then s
    else PlaneTick(cfg, BeforeTick(cfg, s, p, start, k - 1), p, TickTime(cfg, start, k - 1))
  }

  /** One tick of the whole loop at `now`, with renewals that succeed. */
  function LoopTick(cfg: Config, s: State, now: int): State {
    var renew := (p: Plane) => PlaneEnv(now, Some(Credential("", IssuedNotAfter(now, Lifetime(cfg, p)))));
    Tick(cfg, s, TickEnv(now, now, RotateEnv(renew(ClassicalPlane), renew(PqPlane))))
  }

  /** The state of the whole loop just before tick k. */
  function LoopBeforeTick(cfg: Config, s: State, start: int, k: nat): State {
    if k == 0 then s
    else LoopTick(cfg, LoopBeforeTick(cfg, s, start, k - 1), TickTime(cfg, start, k - 1))
  }

  predicate Maintained(cfg: Config, p: Plane) { p.ClassicalPlane? || PqEnabled(cfg) }

  lemma LoopTickOfPlane(cfg: Config, s: State, s': State, p: Plane, now: int)
    requires Maintained(cfg, p) && IdOf(s, p) == IdOf(s', p)
    ensures IdOf(LoopTick(cfg, s, now), p) == IdOf(PlaneTick(cfg, s', p, now), p)
  {
  }

  /**
   * The whole loop over both planes is, for the certificate of each, that plane's loop by
   * itself: what follows about one plane holds of it in the loop.
   */
  lemma {:induction false} LoopIsPlaneLoops(cfg: Config, s: State, p: Plane, start: int, k: nat)
    requires Maintained(cfg, p)
    ensures IdOf(LoopBeforeTick(cfg, s, start, k), p) == IdOf(BeforeTick(cfg, s, p, start, k), p)
  {
    if k > 0 {
      LoopIsPlaneLoops(cfg, s, p, start, k - 1);
      LoopTickOfPlane(cfg, LoopBeforeTick(cfg, s, start, k - 1), BeforeTick(cfg, s, p, start, k - 1), p, TickTime(cfg, start, k - 1));
    }
  }

  /**
   * Starting at `start`, the plane holds a certificate, which ends at a whole second: one
   * that is not yet due for renewal, or one issued just now.
   */
  predicate Settled(cfg: Config, s: State, p: Plane, start: int) {
    && IdOf(s, p).Some?
    && var end := IdOf(s, p).value.notAfter;
       && end % SECOND == 0
       && (Margin(cfg, p) < end - start <= Lifetime(cfg, p) || end == IssuedNotAfter(start, Lifetime(cfg, p)))
  }

  predicate ValidAt(s: State, p: Plane, now: int) {
    IdOf(s, p).Some? && now < IdOf(s, p).value.notAfter
  }

  predicate RenewedAt(cfg: Config, s: State, p: Plane, start: int, k: nat) {
    NeedsRenewalPlane(cfg, BeforeTick(cfg, s, p, start, k), p, TickTime(cfg, start, k))
  }

  /** A margin shorter than the lifetime, as Config.Validate demands of the classical plane. */
  predicate MarginFits(cfg: Config, p: Plane) {
    0 < Margin(cfg, p) < Lifetime(cfg, p)
  }

  /** The margin covers the interval, and so does the least a new certificate has left. */
  predicate TicksInTime(cfg: Config, p: Plane) {
    Interval(cfg) <= Margin(cfg, p) && Interval(cfg) + SECOND <= Lifetime(cfg, p)
  }

  lemma IssuedBounds(now: int, lifetime: int)
    ensures now + lifetime - SECOND < IssuedNotAfter(now, lifetime) <= now + lifetime
  {
  }

  lemma TicksApart(cfg: Config, start: int, k: nat)
    ensures TickTime(cfg, start, k + 1) == TickTime(cfg, start, k) + Interval(cfg)
  {
    assert (k + 2) * Interval(cfg) == (k + 1) * Interval(cfg) + Interval(cfg);
  }

  /** What a certificate that was not renewed, or was renewed just now, has left at least. */
  function Least(cfg: Config, p: Plane): int {
    var m, l := Margin(cfg, p), Lifetime(cfg, p) - SECOND;
    if m <= l then m else l
  }

  /** At every tick the certificate has more left than that, less an interval. */
  lemma {:induction false} RemainingAtTick(cfg: Config, s: State, p: Plane, start: int, k: nat)
    requires MarginFits(cfg, p) && TicksInTime(cfg, p) && Settled(cfg, s, p, start)
    ensures var s' := BeforeTick(cfg, s, p, start, k);
            IdOf(s', p).Some? && IdOf(s', p).value.notAfter - TickTime(cfg, start, k) > Least(cfg, p) - Interval(cfg)
  {
    if k > 0 {
      RemainingAtTick(cfg, s, p, start, k - 1);
      TicksApart(cfg, start, k - 1);
      IssuedBounds(TickTime(cfg, start, k - 1), Lifetime(cfg, p));
    } else {
      IssuedBounds(start, Lifetime(cfg, p));
    }
  }

  ghost predicate NeverExpires(cfg: Config, p: Plane) {
    forall s: State, start: int, k: nat | Settled(cfg, s, p, start) ::
      ValidAt(BeforeTick(cfg, s, p, start, k), p, TickTime(cfg, start, k))
  }

  /** Both planes hold a certificate that ends at this time. */
  function Ending(notAfter: int): State {
    NOT_STARTED.(id := Some(Credential("", notAfter)), pqId := Some(Credential("", notAfter)))
  }

  /** A certificate that is due for renewal at a tick at `first`, and was not due before. */
  function DueAt(cfg: Config, p: Plane, first: int): State {
    Ending((first + Margin(cfg, p)) / SECOND * SECOND)
  }

  /** The tick at which truncation costs a new certificate the most: it ends at time 0. */
  function WorstTick(cfg: Config, p: Plane): int { SECOND - 1 - Lifetime(cfg, p) }

  lemma IssuedAtWorst(cfg: Config, p: Plane)
    ensures IssuedNotAfter(WorstTick(cfg, p), Lifetime(cfg, p)) == 0
  {
    assert IssuedNotAfter(WorstTick(cfg, p), Lifetime(cfg, p)) == (SECOND - 1) / SECOND * SECOND;
  }

  lemma RenewedAtWorstTick(cfg: Config, p: Plane)
    requires MarginFits(cfg, p) && Interval(cfg) <= Margin(cfg, p) && Interval(cfg) + Margin(cfg, p) <= Lifetime(cfg, p)
    ensures var start := WorstTick(cfg, p) - Interval(cfg);
            var s := DueAt(cfg, p, WorstTick(cfg, p));
            && Settled(cfg, s, p, start) && TickTime(cfg, start, 0) == WorstTick(cfg, p)
            && RenewedAt(cfg, s, p, start, 0)
            && IdOf(BeforeTick(cfg, s, p, start, 1), p) == Some(Credential("", 0))
  {
    var t := WorstTick(cfg, p);
    var start, s := t - Interval(cfg), DueAt(cfg, p, t);
    assert BeforeTick(cfg, s, p, start, 0) == s;
    assert TickTime(cfg, start, 0) == t;
    IssuedAtWorst(cfg, p);
    assert BeforeTick(cfg, s, p, start, 1) == PlaneTick(cfg, s, p, t);
  }

  /**
   * Renewal never misses, exactly when the interval fits into the margin and, with the
   * second that truncation may cost, into the lifetime: then and only then no loop, however
   * started, ever finds the plane's certificate expired at a tick.
   */
  lemma NeverExpiresIff(cfg: Config, p: Plane)
    requires MarginFits(cfg, p)
    ensures NeverExpires(cfg, p) <==> TicksInTime(cfg, p)
  {
    var m, i := Margin(cfg, p), Interval(cfg);
    if TicksInTime(cfg, p) {
      forall s: State, start: int, k: nat | Settled(cfg, s, p, start)
        ensures ValidAt(BeforeTick(cfg, s, p, start, k), p, TickTime(cfg, start, k))
      {
        RemainingAtTick(cfg, s, p, start, k);
      }
    } else if i > m {
      var s, start := Ending(0), -m - 1;
      assert Settled(cfg, s, p, start) && TickTime(cfg, start, 0) == start + i;
      assert BeforeTick(cfg, s, p, start, 0) == s;
      assert !ValidAt(BeforeTick(cfg, s, p, start, 0), p, TickTime(cfg, start, 0));
    } else {
      IssuedAtWorst(cfg, p);
      var s, start := Ending(0), WorstTick(cfg, p);
      assert Settled(cfg, s, p, start) && TickTime(cfg, start, 0) == start + i;
      assert BeforeTick(cfg, s, p, start, 0) == s;
      assert !ValidAt(BeforeTick(cfg, s, p, start, 0), p, TickTime(cfg, start, 0));
    }
  }

  /** A second of margin and two of lifetime are enough for the classical plane. */
  lemma ClassicalNeverExpires(cfg: Config)
    requires SECOND <= Margin(cfg, ClassicalPlane) < Lifetime(cfg, ClassicalPlane)
    requires 2 * SECOND <= Lifetime(cfg, ClassicalPlane)
    ensures NeverExpires(cfg, ClassicalPlane)
  {
    NeverExpiresIff(cfg, ClassicalPlane);
    if Interval(cfg) > SECOND {
      assert Interval(cfg) <= Margin(cfg, ClassicalPlane) / 4;
    }
  }

  /** One second of margin is not: with a lifetime of a second and a half the certificate expires at a tick. */
  lemma ShortLifetimeCanExpire()
    ensures var cfg := Config(LongTerm, Off, false, SECOND, 3 * SECOND / 2, 0, "", "");
            Validate(cfg) && Margin(cfg, ClassicalPlane) == SECOND && !NeverExpires(cfg, ClassicalPlane)
  {
    var cfg := Config(LongTerm, Off, false, SECOND, 3 * SECOND / 2, 0, "", "");
    NeverExpiresIff(cfg, ClassicalPlane);
  }

  /** A valid configuration whose post-quantum certificate expires between two ticks. */
  lemma PqPlaneCanExpire()
    ensures var cfg := Config(LongTerm, ThroughShim, false, 0, 7 * 24 * 60 * MINUTE, MINUTE, "", "");
            Validate(cfg) && MarginFits(cfg, PqPlane) && !NeverExpires(cfg, PqPlane)
  {
    var cfg := Config(LongTerm, ThroughShim, false, 0, 7 * 24 * 60 * MINUTE, MINUTE, "", "");
    assert Margin(cfg, PqPlane) == 12 * SECOND && Interval(cfg) == MINUTE;
    NeverExpiresIff(cfg, PqPlane);
  }

  /** Between renewals the certificate stays the one issued at the earlier of the two. */
  lemma {:induction false} KeptUntil(cfg: Config, s: State, p: Plane, start: int, j: nat, k: nat)
    requires MarginFits(cfg, p) && TicksInTime(cfg, p) && Settled(cfg, s, p, start)
    requires j < k && RenewedAt(cfg, s, p, start, j)
    requires forall i | j < i < k :: !RenewedAt(cfg, s, p, start, i)
    ensures var s' := BeforeTick(cfg, s, p, start, k);
            IdOf(s', p).Some? && IdOf(s', p).value.notAfter == IssuedNotAfter(TickTime(cfg, start, j), Lifetime(cfg, p))
  {
    RemainingAtTick(cfg, s, p, start, k - 1);
    hide TickTime, IssuedNotAfter, Interval, Margin, Lifetime;
    if j + 1 < k {
      KeptUntil(cfg, s, p, start, j, k - 1);
      assert !RenewedAt(cfg, s, p, start, k - 1);
    } else {
      assert RenewedAt(cfg, s, p, start, k - 1);
      RemainingPositive(cfg, s, p, start, j);
    }
  }

  lemma RemainingPositive(cfg: Config, s: State, p: Plane, start: int, k: nat)
    requires MarginFits(cfg, p) && TicksInTime(cfg, p) && Settled(cfg, s, p, start)
    ensures ValidAt(BeforeTick(cfg, s, p, start, k), p, TickTime(cfg, start, k))
  {
    RemainingAtTick(cfg, s, p, start, k);
  }

  /** Successive renewals, with none in between. */
  predicate Successive(cfg: Config, s: State, p: Plane, start: int, j: nat, k: nat) {
    && j < k && RenewedAt(cfg, s, p, start, j) && RenewedAt(cfg, s, p, start, k)
    && forall i | j < i < k :: !RenewedAt(cfg, s, p, start, i)
  }

  function Apart(cfg: Config, start: int, j: nat, k: nat): int { TickTime(cfg, start, k) - TickTime(cfg, start, j) }

  /**
   * Successive renewals of the loop are at least lifetime - margin apart, less the second
   * that truncation may cost, and at most lifetime - margin + interval.
   */
  lemma RenewalSpacing(cfg: Config, s: State, p: Plane, start: int, j: nat, k: nat)
    requires MarginFits(cfg, p) && TicksInTime(cfg, p) && Settled(cfg, s, p, start)
    requires Successive(cfg, s, p, start, j, k)
    ensures Lifetime(cfg, p) - Margin(cfg, p) - SECOND < Apart(cfg, start, j, k)
                <= Lifetime(cfg, p) - Margin(cfg, p) + Interval(cfg)
  {
    KeptUntil(cfg, s, p, start, j, k);
    IssuedBounds(TickTime(cfg, start, j), Lifetime(cfg, p));
    TicksApart(cfg, start, k - 1);
    if j + 1 < k {
      KeptUntil(cfg, s, p, start, j, k - 1);
      assert !RenewedAt(cfg, s, p, start, k - 1);
    }
  }

  /** The promise without that second: no two renewals closer than lifetime - margin. */
  ghost predicate SpacedByMargin(cfg: Config, p: Plane) {
    forall s: State, start: int, j: nat, k: nat | Settled(cfg, s, p, start) && Successive(cfg, s, p, start, j, k) ::
      Apart(cfg, start, j, k) >= Lifetime(cfg, p) - Margin(cfg, p)
  }

  /**
   * No whole number of intervals falls into the second before lifetime - margin, where a
   * certificate that truncation cut short can already be due.
   */
  predicate NoTickTooEarly(cfg: Config, p: Plane) {
    var wait := Lifetime(cfg, p) - Margin(cfg, p);
    wait <= Interval(cfg) || (wait - 1) % Interval(cfg) >= SECOND - 1
  }

  lemma ApartIsTicks(cfg: Config, start: int, j: nat, k: nat)
    requires j < k
    ensures Apart(cfg, start, j, k) == (k - j) * Interval(cfg) >= Interval(cfg)
  {
    var i := Interval(cfg);
    assert i >= 0;
    hide Interval;
    Difference(k + 1, j + 1, i);
    Difference(k - j, 1, i);
    Positive(k - j - 1, i);
  }

  /** A multiple of i that lies between w - SECOND and w leaves w - 1 a small remainder. */
  lemma MultipleNear(n: int, i: int, w: int)
    requires i >= SECOND && w - SECOND < n * i < w
    ensures (w - 1) % i == w - 1 - n * i < SECOND - 1
  {
    var r := w - 1 - n * i;
    assert w - 1 == n * i + r && 0 <= r < i;
    RemainderUnique(n, i, r);
  }

  lemma RemainderUnique(n: int, i: int, r: int)
    requires 0 <= r < i
    ensures (n * i + r) % i == r
  {
    var x := n * i + r;
    var q, rest := x / i, x % i;
    assert x == q * i + rest;
    Difference(q, n, i);
    SmallMultiple(q - n, i, r - rest);
  }

  lemma Difference(q: int, n: int, i: int)
    ensures (q - n) * i == q * i - n * i
  {
  }

  lemma SmallMultiple(d: int, i: int, x: int)
    requires -i < x < i && d * i == x
    ensures x == 0
  {
    if d >= 1 { Difference(d, 1, i); Positive(d - 1, i); }
    if d <= -1 { Difference(-d, 1, i); Positive(-d - 1, i); }
  }

  lemma Positive(d: int, i: int)
    requires d >= 0 && i >= 0
    ensures d * i >= 0
  {
  }

  /** Before any tick up to n after the worst one, its certificate is still in place. */
  lemma {:induction false} WorstKept(cfg: Config, p: Plane, n: nat)
    requires MarginFits(cfg, p) && TicksInTime(cfg, p) && n >= 1
    requires n * Interval(cfg) < Lifetime(cfg, p) - Margin(cfg, p)
    requires Interval(cfg) + Margin(cfg, p) <= Lifetime(cfg, p)
    ensures var start := WorstTick(cfg, p) - Interval(cfg);
            var s := DueAt(cfg, p, WorstTick(cfg, p));
            && IdOf(BeforeTick(cfg, s, p, start, n), p) == Some(Credential("", 0))
            && TickTime(cfg, start, n) == WorstTick(cfg, p) + n * Interval(cfg)
            && forall i | 0 < i < n :: !RenewedAt(cfg, s, p, start, i)
  {
    var i := Interval(cfg);
    var start, s := WorstTick(cfg, p) - i, DueAt(cfg, p, WorstTick(cfg, p));
    assert TickTime(cfg, start, n) == WorstTick(cfg, p) + n * i by { assert (n + 1) * i == n * i + i; }
    if n == 1 {
      RenewedAtWorstTick(cfg, p);
    } else {
      assert n * i == (n - 1) * i + i;
      WorstKept(cfg, p, n - 1);
      assert !RenewedAt(cfg, s, p, start, n - 1);
    }
  }

  /** The largest multiple of i below w is within a second of it when w - 1 leaves a small remainder. */
  lemma NearMultiple(i: int, w: int) returns (n: nat)
    requires SECOND <= i < w && (w - 1) % i < SECOND - 1
    ensures n >= 1 && w - SECOND < n * i < w
  {
    var q, rest := (w - 1) / i, (w - 1) % i;
    assert w - 1 == q * i + rest;
    if q < 1 { Positive(-q, i); Difference(0, -q, i); }
    n := q;
  }

  lemma TooEarlyBreaks(cfg: Config, p: Plane)
    requires MarginFits(cfg, p) && TicksInTime(cfg, p) && !NoTickTooEarly(cfg, p)
    ensures !SpacedByMargin(cfg, p)
  {
    var n := NearMultiple(Interval(cfg), Lifetime(cfg, p) - Margin(cfg, p));
    CrowdedAt(cfg, p, n);
  }

  lemma CrowdedAt(cfg: Config, p: Plane, n: nat)
    requires MarginFits(cfg, p) && TicksInTime(cfg, p) && n >= 1
    requires Lifetime(cfg, p) - Margin(cfg, p) - SECOND < n * Interval(cfg) < Lifetime(cfg, p) - Margin(cfg, p)
    ensures !SpacedByMargin(cfg, p)
  {
    Difference(n, 1, Interval(cfg));
    Positive(n - 1, Interval(cfg));
    WorstKept(cfg, p, n);
    RenewedAtWorstTick(cfg, p);
    var start, s := WorstTick(cfg, p) - Interval(cfg), DueAt(cfg, p, WorstTick(cfg, p));
    ApartIsTicks(cfg, start, 0, n);
    hide BeforeTick, TickTime, Interval, Margin, Lifetime, DueAt;
    assert RenewedAt(cfg, s, p, start, n);
    assert Successive(cfg, s, p, start, 0, n);
  }

  /**
   * Exactly when renewals are at least lifetime - margin apart, from every start: when no
   * whole number of intervals falls into the last second before it.
   */
  lemma SpacedByMarginIff(cfg: Config, p: Plane)
    requires MarginFits(cfg, p) && TicksInTime(cfg, p)
    ensures SpacedByMargin(cfg, p) <==> NoTickTooEarly(cfg, p)
  {
    if NoTickTooEarly(cfg, p) {
      forall s: State, start: int, j: nat, k: nat | Settled(cfg, s, p, start) && Successive(cfg, s, p, start, j, k)
        ensures Apart(cfg, start, j, k) >= Lifetime(cfg, p) - Margin(cfg, p)
      {
        RenewalSpacing(cfg, s, p, start, j, k);
        ApartIsTicks(cfg, start, j, k);
        if Apart(cfg, start, j, k) < Lifetime(cfg, p) - Margin(cfg, p) {
          MultipleNear(k - j, Interval(cfg), Lifetime(cfg, p) - Margin(cfg, p));
        }
      }
    } else {
      TooEarlyBreaks(cfg, p);
    }
  }

  /** Five seconds of lifetime and half of it as margin: renewals can be two seconds apart. */
  lemma RenewalsCanCrowd()
    ensures var cfg := Config(LongTerm, Off, false, 5 * SECOND / 2, 5 * SECOND, 0, "", "");
            && Validate(cfg) && MarginFits(cfg, ClassicalPlane) && TicksInTime(cfg, ClassicalPlane)
            && !SpacedByMargin(cfg, ClassicalPlane)
  {
    var cfg := Config(LongTerm, Off, false, 5 * SECOND / 2, 5 * SECOND, 0, "", "");
    SpacedByMarginIff(cfg, ClassicalPlane);
  }
}
