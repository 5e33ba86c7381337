/**
 * The client's credentials and token cache as a state machine. Every outside answer, of
 * the clock, the certificate authority, the authorization server or the shim, is an
 * argument of the operation that asks for it, so a run quantifies over all of them.
 */
module ClientModel {
  import opened Wrappers

  const SECOND: int := 1_000_000_000
  const EXPIRY_SKEW: int := 5 * SECOND

  /** Methods A, B and C. */
  datatype BindingMethod = LongTerm | Ephemeral | DPoPKey

  /** PQ_MODE and PQ_ISSUER; `direct` is PQ_ISSUER=keycloak. */
  datatype PostQuantum = Off | ThroughShim | Direct

  datatype Config = Config(binding: BindingMethod, pq: PostQuantum, everyToken: bool,
                           renewBefore: int, certLifetime: int, pqCertLifetime: int,
                           jkt: string, pqJkt: string)

  datatype Plane = ClassicalPlane | PqPlane

  datatype Credential = Credential(thumbprint: string, notAfter: int)

  /**
   * A token as accepted: what was received, with the cnf members it carries itself, then
   * what the client recorded about it, and the classical token it was upgraded from.
   */
  datatype Token = Token(value: string, alg: string, expiresAt: int, x5t: Option<string>, jkt: Option<string>,
                         binding: string, thumbprint: string, certNotAfter: Option<int>, postQuantum: bool,
                         classical: Option<Jws>)

  /** The mutable state, and two histories: tokens accepted, certificates of the active plane. */
  datatype State = State(id: Option<Credential>, pqId: Option<Credential>,
                         cached: Option<Token>, tokensOnCert: nat,
                         accepted: seq<Token>, certificates: seq<Credential>)

  const NOT_STARTED: State := State(None, None, None, 0, [], [])

  // ---------------------------------------------------------------------- environment

  /** A token as received: its claims where they are well formed. */
  datatype Jws = Jws(value: string, alg: string, expiresAt: int,
                     x5t: Option<string>, jkt: Option<string>, dpopType: bool)

  datatype Reply = Refused | NonceDemanded | Answer(jws: Option<Jws>)

  datatype PlaneEnv = PlaneEnv(now: int, reply: Option<Credential>)

  datatype RotateEnv = RotateEnv(classical: PlaneEnv, pq: PlaneEnv)

  datatype IssueEnv = IssueEnv(first: Reply, second: Reply, shim: Option<Jws>)

  datatype TokenEnv = TokenEnv(checkClassical: int, checkPq: int, renew: RotateEnv,
                               usableAt: int, every: RotateEnv, issue: IssueEnv)

  /** Starting one plane: what is on disk, whether there is a bootstrap credential, the replies. */
  datatype StartEnv = StartEnv(onDisk: Option<Credential>, now: int, check: int, renew: PlaneEnv,
                               hasBootstrap: bool, enrolled: Option<Credential>)

  datatype TickEnv = TickEnv(checkClassical: int, checkPq: int, rotate: RotateEnv)

  // ------------------------------------------------------------------- configuration

  predicate PqEnabled(cfg: Config) { !cfg.pq.Off? }

  predicate IsPqAlg(alg: string) { "ML-DSA-" <= alg }

  function Lifetime(cfg: Config, p: Plane): int {
    if p.PqPlane? && cfg.pqCertLifetime > 0 then cfg.pqCertLifetime else cfg.certLifetime
  }

  /** renewBeforeFor: the configured margin, or a fifth of the lifetime, truncated. */
  function RenewBeforeFor(cfg: Config, lifetime: int): int {
    if cfg.renewBefore > 0 then cfg.renewBefore
    else if lifetime >= 0 then lifetime / 5 else -(-lifetime / 5)
  }

  function Margin(cfg: Config, p: Plane): int { RenewBeforeFor(cfg, Lifetime(cfg, p)) }

  // ---------------------------------------------------------------------- operations

  function IdOf(s: State, p: Plane): Option<Credential> {
    if p.PqPlane? then s.pqId else s.id
  }

  function ActivePlane(cfg: Config): Plane {
    if PqEnabled(cfg) then PqPlane else ClassicalPlane
  }

  /** The credential a resource server sees. */
  function Active(cfg: Config, s: State): Option<Credential> { IdOf(s, ActivePlane(cfg)) }

  function Install(cfg: Config, s: State, p: Plane, c: Credential): State {
    var s' := if p.PqPlane? then s.(pqId := Some(c)) else s.(id := Some(c));
    if p == ActivePlane(cfg) then s'.(certificates := s.certificates + [c]) else s'
  }

  /** A new certificate: whatever was bound to the old one is dropped. */
  function Enrolled(cfg: Config, s: State, p: Plane, c: Credential): State {
    Install(cfg, s, p, c).(cached := None, tokensOnCert := 0)
  }

  predicate NeedsRenewalPlane(cfg: Config, s: State, p: Plane, now: int) {
    IdOf(s, p).None? || IdOf(s, p).value.notAfter - now <= Margin(cfg, p)
  }

  predicate NeedsRenewal(cfg: Config, s: State, classicalAt: int, pqAt: int) {
    NeedsRenewalPlane(cfg, s, ClassicalPlane, classicalAt) || (PqEnabled(cfg) && NeedsRenewalPlane(cfg, s, PqPlane, pqAt))
  }

  function RotatePlane(cfg: Config, s: State, p: Plane, env: PlaneEnv): (State, bool) {
    if IdOf(s, p).None? || env.now >= IdOf(s, p).value.notAfter || env.reply.None? then (s, false)
    else (Enrolled(cfg, s, p, env.reply.value), true)
  }

  function RotateAll(cfg: Config, s: State, env: RotateEnv): (State, bool) {
    var (s1, ok) := RotatePlane(cfg, s, ClassicalPlane, env.classical);
    if ok && PqEnabled(cfg) then RotatePlane(cfg, s1, PqPlane, env.pq) else (s1, ok)
  }

  /** Token.usable: both the token and its certificate outlive the skew. */
  predicate Usable(t: Token, now: int) {
    now + EXPIRY_SKEW <= t.expiresAt && (t.certNotAfter.Some? ==> now + EXPIRY_SKEW <= t.certNotAfter.value)
  }

  function Raw(j: Jws): Token { Token(j.value, j.alg, j.expiresAt, j.x5t, j.jkt, "", "", None, false, None) }

  /** requirePQToken, for a server that signs with ML-DSA itself. */
  function RequirePq(t: Token): Option<Token> {
    if IsPqAlg(t.alg) then Some(t.(postQuantum := true)) else None
  }

  /** upgradeToPQ and the check that the shim bound the token to the credential held. */
  function Upgrade(shim: Option<Jws>, classical: Jws, member: string, want: string, certNotAfter: Option<int>): Option<Token> {
    if shim.None? || !IsPqAlg(shim.value.alg) then None
    else
      var got := if member == "jkt" then shim.value.jkt else shim.value.x5t;
      if got != Some(want) then None
      else Some(Raw(shim.value).(postQuantum := true, binding := member, thumbprint := want, certNotAfter := certNotAfter,
                                 classical := Some(classical)))
  }

  /** Methods A and B: the token a call of issueLocked accepts, if it accepts one. */
  function AcceptCertBound(cfg: Config, s: State, env: IssueEnv): Option<Token> {
    var as_ := if cfg.pq.Direct? then s.pqId else s.id;
    if as_.None? || !env.first.Answer? || env.first.jws.None? then None
    else
      var jws := env.first.jws.value;
      if jws.x5t != Some(as_.value.thumbprint) then None
      else
        var t := Raw(jws).(binding := "x5t#S256", thumbprint := as_.value.thumbprint, certNotAfter := Some(as_.value.notAfter));
        match cfg.pq
        case Off => Some(t)
        case Direct => RequirePq(t)
        case ThroughShim =>
          if s.pqId.None? then None
          else Upgrade(env.shim, jws, "x5t#S256", s.pqId.value.thumbprint, Some(s.pqId.value.notAfter))
  }

  /** The reply the retry loop of Method C ends with: one nonce demand is answered. */
  function FinalReply(env: IssueEnv): Reply {
    if env.first.NonceDemanded? then env.second else env.first
  }

  /** Method C: the same for a key-bound token. */
  function AcceptDPoP(cfg: Config, env: IssueEnv): Option<Token> {
    var want := if cfg.pq.Direct? then cfg.pqJkt else cfg.jkt;
    var reply := FinalReply(env);
    if !reply.Answer? || reply.jws.None? || reply.jws.value.jkt != Some(want) || !reply.jws.value.dpopType then None
    else
      var t := Raw(reply.jws.value).(binding := "jkt", thumbprint := want);
      match cfg.pq
      case Off => Some(t)
      case Direct => RequirePq(t)
      case ThroughShim => Upgrade(env.shim, reply.jws.value, "jkt", cfg.pqJkt, None)
  }

  function Issue(cfg: Config, s: State, env: IssueEnv): (State, Option<Token>) {
    var t := if cfg.binding.DPoPKey? then AcceptDPoP(cfg, env) else AcceptCertBound(cfg, s, env);
    if t.None? then (s, None)
    else
      var s' := s.(cached := t, accepted := s.accepted + [t.value]);
      (if cfg.binding.DPoPKey? then s' else s'.(tokensOnCert := s.tokensOnCert + 1), t)
  }

  function GetToken(cfg: Config, s: State, env: TokenEnv): (State, Option<Token>) {
    var (s1, ok) := if NeedsRenewal(cfg, s, env.checkClassical, env.checkPq) then RotateAll(cfg, s, env.renew) else (s, true);
    if !ok then (s1, None)
    else if s1.cached.Some? && Usable(s1.cached.value, env.usableAt) then (s1, s1.cached)
    else if cfg.binding.Ephemeral? && cfg.everyToken && s1.tokensOnCert > 0 then
      var (s2, rotated) := RotateAll(cfg, s1, env.every);
      if rotated then Issue(cfg, s2, env.issue) else (s2, None)
    else Issue(cfg, s1, env.issue)
  }

  function IssueToken(cfg: Config, s: State, env: TokenEnv): (State, Option<Token>) {
    var (s1, ok) := if NeedsRenewal(cfg, s, env.checkClassical, env.checkPq) then RotateAll(cfg, s, env.renew) else (s, true);
    if ok then Issue(cfg, s1, env.issue) else (s1, None)
  }

  function StartPlane(cfg: Config, s: State, p: Plane, env: StartEnv): (State, bool) {
    if IdOf(s, p).Some? then (s, true)
    else if env.onDisk.Some? && env.now < env.onDisk.value.notAfter then
      var s1 := Install(cfg, s, p, env.onDisk.value);
      if NeedsRenewalPlane(cfg, s1, p, env.check) then RotatePlane(cfg, s1, p, env.renew) else (s1, true)
    else if env.hasBootstrap && env.enrolled.Some? then (Enrolled(cfg, s, p, env.enrolled.value), true)
    else (s, false)
  }

  function Start(cfg: Config, s: State, classical: StartEnv, pq: StartEnv): (State, bool) {
    var (s1, ok) := StartPlane(cfg, s, ClassicalPlane, classical);
    if ok && PqEnabled(cfg) then StartPlane(cfg, s1, PqPlane, pq) else (s1, ok)
  }

  /** One tick of Maintain: each plane on its own, failures ignored. */
  function Tick(cfg: Config, s: State, env: TickEnv): State {
    var s1 := if NeedsRenewalPlane(cfg, s, ClassicalPlane, env.checkClassical)
              then RotatePlane(cfg, s, ClassicalPlane, env.rotate.classical).0 else s;
    if PqEnabled(cfg) && NeedsRenewalPlane(cfg, s1, PqPlane, env.checkPq)
    then RotatePlane(cfg, s1, PqPlane, env.rotate.pq).0 else s1
  }

  // ----------------------------------------------------------------------------- runs

  datatype Op =
    | OpStart(classical: StartEnv, pq: StartEnv)
    | OpToken(env: TokenEnv)
    | OpIssue(env: TokenEnv)
    | OpRotate(rotate: RotateEnv)
    | OpTick(tick: TickEnv)

  function Apply(cfg: Config, s: State, op: Op): (State, Option<Token>) {
    match op
    case OpStart(classical, pq) => (Start(cfg, s, classical, pq).0, None)
    case OpToken(env) => GetToken(cfg, s, env)
    case OpIssue(env) => IssueToken(cfg, s, env)
    case OpRotate(env) => (RotateAll(cfg, s, env).0, None)
    case OpTick(env) => (Tick(cfg, s, env), None)
  }

  function Run(cfg: Config, s: State, ops: seq<Op>): State
    decreases ops
  {
    if ops == [] then s else Run(cfg, Apply(cfg, s, ops[0]).0, ops[1..])
  }

  // ---------------------------------------------------------------------- binding invariant

  /** The token names the credential itself, in its own cnf; and so did the classical token before it. */
  predicate NamesCredential(cfg: Config, s: State, t: Token) {
    if cfg.binding.DPoPKey? then
      && t.jkt == Some(if PqEnabled(cfg) then cfg.pqJkt else cfg.jkt)
      && (cfg.pq.ThroughShim? ==> t.classical.Some? && t.classical.value.jkt == Some(cfg.jkt))
    else
      && Active(cfg, s).Some? && t.x5t == Some(Active(cfg, s).value.thumbprint)
      && (cfg.pq.ThroughShim? ==> t.classical.Some? && s.id.Some? && t.classical.value.x5t == Some(s.id.value.thumbprint))
  }

  /** The token is one the current credentials can use, and no downgrade. */
  predicate WellBound(cfg: Config, s: State, t: Token) {
    && NamesCredential(cfg, s, t)
    && t.postQuantum == PqEnabled(cfg) && (PqEnabled(cfg) ==> IsPqAlg(t.alg))
    && if cfg.binding.DPoPKey? then
         t.binding == "jkt" && t.thumbprint == (if PqEnabled(cfg) then cfg.pqJkt else cfg.jkt) && t.certNotAfter.None?
       else
         && t.binding == "x5t#S256" && Active(cfg, s).Some?
         && t.thumbprint == Active(cfg, s).value.thumbprint
         && t.certNotAfter == Some(Active(cfg, s).value.notAfter)
  }

  /** An accepted token names, in its own cnf, a credential the client has had. */
  ghost predicate Sound(cfg: Config, s: State, t: Token) {
    && t.postQuantum == PqEnabled(cfg) && (PqEnabled(cfg) ==> IsPqAlg(t.alg))
    && if cfg.binding.DPoPKey? then t.jkt == Some(t.thumbprint)
       else t.x5t == Some(t.thumbprint) && exists c :: c in s.certificates && c.thumbprint == t.thumbprint
  }

  ghost predicate Inv(cfg: Config, s: State) {
    && (s.cached.Some? ==>
          WellBound(cfg, s, s.cached.value) && s.id.Some? && (PqEnabled(cfg) ==> s.pqId.Some?) && s.cached.value in s.accepted)
    && (Active(cfg, s).Some? ==> Active(cfg, s).value in s.certificates)
    && forall t | t in s.accepted :: Sound(cfg, s, t)
  }

  lemma InstallKeepsInv(cfg: Config, s: State, p: Plane, c: Credential)
    requires Inv(cfg, s) && s.cached.None?
    ensures Inv(cfg, Install(cfg, s, p, c))
  {
    hide WellBound;
    var s' := Install(cfg, s, p, c);
    assert forall x | x in s.certificates :: x in s'.certificates;
    forall t | t in s'.accepted ensures Sound(cfg, s', t) {
      assert Sound(cfg, s, t);
    }
  }

  lemma EnrolledKeepsInv(cfg: Config, s: State, p: Plane, c: Credential)
    requires Inv(cfg, s)
    ensures Inv(cfg, Enrolled(cfg, s, p, c))
  {
    InstallKeepsInv(cfg, s.(cached := None), p, c);
    hide Sound, WellBound;
  }

  lemma RotatePlaneKeepsInv(cfg: Config, s: State, p: Plane, env: PlaneEnv)
    requires Inv(cfg, s)
    ensures Inv(cfg, RotatePlane(cfg, s, p, env).0)
    ensures RotatePlane(cfg, s, p, env).1 ==>
              var s' := RotatePlane(cfg, s, p, env).0;
              IdOf(s', p).Some? && s'.tokensOnCert == 0 && (s.id.Some? ==> s'.id.Some?) && (s.pqId.Some? ==> s'.pqId.Some?)
  {
    if env.reply.Some? { EnrolledKeepsInv(cfg, s, p, env.reply.value); }
    hide Inv;
  }

  lemma RotateKeepsInv(cfg: Config, s: State, env: RotateEnv)
    requires Inv(cfg, s)
    ensures Inv(cfg, RotateAll(cfg, s, env).0)
    ensures RotateAll(cfg, s, env).1 ==> s.id.Some? && (PqEnabled(cfg) ==> s.pqId.Some?)
    ensures RotateAll(cfg, s, env).1 ==>
              var s' := RotateAll(cfg, s, env).0; s'.id.Some? && (PqEnabled(cfg) ==> s'.pqId.Some?) && s'.tokensOnCert == 0
  {
    RotatePlaneKeepsInv(cfg, s, ClassicalPlane, env.classical);
    RotatePlaneKeepsInv(cfg, RotatePlane(cfg, s, ClassicalPlane, env.classical).0, PqPlane, env.pq);
    hide Inv;
  }

  lemma IssueBinds(cfg: Config, s: State, env: IssueEnv)
    requires Inv(cfg, s) && s.id.Some? && (PqEnabled(cfg) ==> s.pqId.Some?)
    ensures var (s', t) := Issue(cfg, s, env); Inv(cfg, s') && (t.Some? ==> WellBound(cfg, s', t.value))
  {
    var (s', t) := Issue(cfg, s, env);
    if t.Some? {
      AcceptedIsWellBound(cfg, s, env);
      hide AcceptCertBound, AcceptDPoP, Upgrade;
      assert WellBound(cfg, s', t.value);
      forall x | x in s'.accepted ensures Sound(cfg, s', x) {
        if x in s.accepted { assert Sound(cfg, s, x); }
      }
    }
  }

  lemma AcceptedIsWellBound(cfg: Config, s: State, env: IssueEnv)
    requires Issue(cfg, s, env).1.Some?
    ensures WellBound(cfg, s, Issue(cfg, s, env).1.value)
    ensures !cfg.binding.DPoPKey? ==> s.id.Some? || cfg.pq.Direct?
  {
  }

  lemma StartPlaneKeepsInv(cfg: Config, s: State, p: Plane, env: StartEnv)
    requires Inv(cfg, s) && (p.PqPlane? ==> PqEnabled(cfg))
    ensures Inv(cfg, StartPlane(cfg, s, p, env).0)
  {
    if IdOf(s, p).None? {
      assert s.cached.None?;
      if env.onDisk.Some? {
        InstallKeepsInv(cfg, s, p, env.onDisk.value);
        RotatePlaneKeepsInv(cfg, Install(cfg, s, p, env.onDisk.value), p, env.renew);
      }
      if env.enrolled.Some? { EnrolledKeepsInv(cfg, s, p, env.enrolled.value); }
    }
    hide Inv, RotatePlane, Install, Enrolled;
  }

  lemma StartKeepsInv(cfg: Config, s: State, classical: StartEnv, pq: StartEnv)
    requires Inv(cfg, s)
    ensures Inv(cfg, Start(cfg, s, classical, pq).0)
  {
    hide Inv, StartPlane;
    StartPlaneKeepsInv(cfg, s, ClassicalPlane, classical);
    if PqEnabled(cfg) { StartPlaneKeepsInv(cfg, StartPlane(cfg, s, ClassicalPlane, classical).0, PqPlane, pq); }
  }

  lemma TickKeepsInv(cfg: Config, s: State, env: TickEnv)
    requires Inv(cfg, s)
    ensures Inv(cfg, Tick(cfg, s, env))
  {
    hide Inv, RotatePlane;
    RotatePlaneKeepsInv(cfg, s, ClassicalPlane, env.rotate.classical);
    var s1 := if NeedsRenewalPlane(cfg, s, ClassicalPlane, env.checkClassical)
              then RotatePlane(cfg, s, ClassicalPlane, env.rotate.classical).0 else s;
    RotatePlaneKeepsInv(cfg, s1, PqPlane, env.rotate.pq);
  }

  lemma ReadyAfterCheck(cfg: Config, s: State, env: TokenEnv)
    requires Inv(cfg, s)
    ensures var (s1, ok) := if NeedsRenewal(cfg, s, env.checkClassical, env.checkPq) then RotateAll(cfg, s, env.renew) else (s, true);
            Inv(cfg, s1) && (ok ==> s1.id.Some? && (PqEnabled(cfg) ==> s1.pqId.Some?))
  {
    RotateKeepsInv(cfg, s, env.renew);
    hide Inv, RotateAll;
  }

  lemma TokenKeepsInv(cfg: Config, s: State, env: TokenEnv)
    requires Inv(cfg, s)
    ensures var (s', t) := GetToken(cfg, s, env); Inv(cfg, s') && (t.Some? ==> WellBound(cfg, s', t.value))
  {
    hide Issue, RotateAll, NeedsRenewal, WellBound, Sound;
    ReadyAfterCheck(cfg, s, env);
    var (s1, ok) := if NeedsRenewal(cfg, s, env.checkClassical, env.checkPq) then RotateAll(cfg, s, env.renew) else (s, true);
    if ok {
      RotateKeepsInv(cfg, s1, env.every);
      IssueBinds(cfg, s1, env.issue);
      if RotateAll(cfg, s1, env.every).1 {
        IssueBinds(cfg, RotateAll(cfg, s1, env.every).0, env.issue);
      }
    }
  }

  lemma IssueTokenKeepsInv(cfg: Config, s: State, env: TokenEnv)
    requires Inv(cfg, s)
    ensures var (s', t) := IssueToken(cfg, s, env); Inv(cfg, s') && (t.Some? ==> WellBound(cfg, s', t.value))
  {
    hide Issue, RotateAll, NeedsRenewal, WellBound, Inv;
    ReadyAfterCheck(cfg, s, env);
    var (s1, ok) := if NeedsRenewal(cfg, s, env.checkClassical, env.checkPq) then RotateAll(cfg, s, env.renew) else (s, true);
    if ok {
      IssueBinds(cfg, s1, env.issue);
    }
  }

  lemma ApplyKeepsInv(cfg: Config, s: State, op: Op)
    requires Inv(cfg, s)
    ensures var (s', t) := Apply(cfg, s, op); Inv(cfg, s') && (t.Some? ==> WellBound(cfg, s', t.value))
  {
    hide Inv, WellBound, GetToken, IssueToken, RotateAll, Start, Tick;
    match op
    case OpStart(classical, pq) => StartKeepsInv(cfg, s, classical, pq);
    case OpToken(env) => TokenKeepsInv(cfg, s, env);
    case OpIssue(env) => IssueTokenKeepsInv(cfg, s, env);
    case OpRotate(env) => RotateKeepsInv(cfg, s, env);
    case OpTick(env) => TickKeepsInv(cfg, s, env);
  }

  lemma {:induction false} RunKeepsInv(cfg: Config, s: State, ops: seq<Op>)
    requires Inv(cfg, s)
    ensures Inv(cfg, Run(cfg, s, ops))
    decreases ops
  {
    if ops != [] {
      ApplyKeepsInv(cfg, s, ops[0]);
      RunKeepsInv(cfg, Apply(cfg, s, ops[0]).0, ops[1..]);
    }
  }

  /**
   * Cache binding: after any run of operations with any replies, half-failed rotations
   * included, the cached token, and whatever the next operation returns, is bound to the
   * credential held now. A token of a retired certificate is never returned.
   */
  lemma CacheBinding(cfg: Config, ops: seq<Op>, next: Op)
    ensures var s := Run(cfg, NOT_STARTED, ops);
            var (s', t) := Apply(cfg, s, next);
            && (s.cached.Some? ==> WellBound(cfg, s, s.cached.value))
            && (t.Some? ==> WellBound(cfg, s', t.value))
  {
    RunKeepsInv(cfg, NOT_STARTED, ops);
    ApplyKeepsInv(cfg, Run(cfg, NOT_STARTED, ops), next);
  }

  /**
   * The binding is the token's own: after any run, the cnf of the returned token, as it was
   * received, names the credential a resource server will see, or the proof key of Method
   * C; and if the shim is in the path, the cnf of the classical token before it named the
   * classical credential. Every token ever accepted names one the client has had.
   */
  lemma TokensNameTheirCredential(cfg: Config, ops: seq<Op>, next: Op)
    ensures var s := Run(cfg, NOT_STARTED, ops);
            var (s', t) := Apply(cfg, s, next);
            && (t.Some? && !cfg.binding.DPoPKey? ==>
                  var shown := if cfg.pq.Off? then s'.id else s'.pqId;
                  && shown.Some? && t.value.x5t == Some(shown.value.thumbprint)
                  && t.value.certNotAfter == Some(shown.value.notAfter)
                  && (cfg.pq.ThroughShim? ==>
                        t.value.classical.Some? && s'.id.Some? && t.value.classical.value.x5t == Some(s'.id.value.thumbprint)))
            && (t.Some? && cfg.binding.DPoPKey? ==>
                  && t.value.jkt == Some(if cfg.pq.Off? then cfg.jkt else cfg.pqJkt)
                  && (cfg.pq.ThroughShim? ==> t.value.classical.Some? && t.value.classical.value.jkt == Some(cfg.jkt)))
            && (forall x | x in s.accepted && !cfg.binding.DPoPKey? ::
                  exists c :: c in s.certificates && x.x5t == Some(c.thumbprint))
            && (forall x | x in s.accepted && cfg.binding.DPoPKey? :: x.jkt == Some(x.thumbprint))
  {
    RunKeepsInv(cfg, NOT_STARTED, ops);
    var s := Run(cfg, NOT_STARTED, ops);
    ApplyKeepsInv(cfg, s, next);
    hide Run, Apply;
    forall x | x in s.accepted
      ensures !cfg.binding.DPoPKey? ==> exists c :: c in s.certificates && x.x5t == Some(c.thumbprint)
      ensures cfg.binding.DPoPKey? ==> x.jkt == Some(x.thumbprint)
    {
      assert Sound(cfg, s, x);
    }
  }

  /** Methods A and B: exactly the replies that make a token, and the token they make. */
  lemma CertBoundAcceptedIff(cfg: Config, s: State, env: IssueEnv)
    requires !cfg.binding.DPoPKey?
    ensures var (s', t) := Issue(cfg, s, env);
            && (t.None? ==> s' == s)
            && (t.Some? ==> s' == s.(cached := t, accepted := s.accepted + [t.value], tokensOnCert := s.tokensOnCert + 1))
            && (cfg.pq.Off? ==>
                  (t.Some? <==> env.first.Answer? && env.first.jws.Some? && s.id.Some?
                                && env.first.jws.value.x5t == Some(s.id.value.thumbprint)))
            && (cfg.pq.Direct? ==>
                  (t.Some? <==> env.first.Answer? && env.first.jws.Some? && s.pqId.Some?
                                && env.first.jws.value.x5t == Some(s.pqId.value.thumbprint)
                                && "ML-DSA-" <= env.first.jws.value.alg))
            && (cfg.pq.ThroughShim? ==>
                  (t.Some? <==> env.first.Answer? && env.first.jws.Some? && s.id.Some? && s.pqId.Some?
                                && env.first.jws.value.x5t == Some(s.id.value.thumbprint)
                                && env.shim.Some? && "ML-DSA-" <= env.shim.value.alg
                                && env.shim.value.x5t == Some(s.pqId.value.thumbprint)))
            && (t.Some? ==> Received(t.value, if cfg.pq.ThroughShim? then env.shim else env.first.jws))
  {
  }

  /** The token is this reply, unchanged. */
  predicate Received(t: Token, jws: Option<Jws>) {
    && jws.Some? && t.value == jws.value.value && t.alg == jws.value.alg && t.expiresAt == jws.value.expiresAt
    && t.x5t == jws.value.x5t && t.jkt == jws.value.jkt
  }

  /** Method C: the same, with the reply to the one repetition if a nonce was demanded. */
  lemma KeyBoundAcceptedIff(cfg: Config, s: State, env: IssueEnv)
    requires cfg.binding.DPoPKey?
    ensures var (s', t) := Issue(cfg, s, env);
            var reply := if env.first.NonceDemanded? then env.second else env.first;
            && (t.None? ==> s' == s)
            && (t.Some? ==> s' == s.(cached := t, accepted := s.accepted + [t.value]))
            && (cfg.pq.Off? ==>
                  (t.Some? <==> reply.Answer? && reply.jws.Some? && reply.jws.value.dpopType && reply.jws.value.jkt == Some(cfg.jkt)))
            && (cfg.pq.Direct? ==>
                  (t.Some? <==> reply.Answer? && reply.jws.Some? && reply.jws.value.dpopType && reply.jws.value.jkt == Some(cfg.pqJkt)
                                && "ML-DSA-" <= reply.jws.value.alg))
            && (cfg.pq.ThroughShim? ==>
                  (t.Some? <==> reply.Answer? && reply.jws.Some? && reply.jws.value.dpopType && reply.jws.value.jkt == Some(cfg.jkt)
                                && env.shim.Some? && "ML-DSA-" <= env.shim.value.alg && env.shim.value.jkt == Some(cfg.pqJkt)))
            && (t.Some? ==> Received(t.value, if cfg.pq.ThroughShim? then env.shim else reply.jws))
  {
  }

  /** When a plane is due, with the configured margin or a fifth of its lifetime. */
  lemma RenewalDueIff(cfg: Config, s: State, classicalAt: int, pqAt: int)
    requires cfg.certLifetime > 0
    ensures var classical := if cfg.renewBefore > 0 then cfg.renewBefore else cfg.certLifetime / 5;
            var pqLifetime := if cfg.pqCertLifetime > 0 then cfg.pqCertLifetime else cfg.certLifetime;
            var pq := if cfg.renewBefore > 0 then cfg.renewBefore else pqLifetime / 5;
            NeedsRenewal(cfg, s, classicalAt, pqAt) <==>
              || s.id.None? || s.id.value.notAfter - classicalAt <= classical
              || (!cfg.pq.Off? && (s.pqId.None? || s.pqId.value.notAfter - pqAt <= pq))
  {
  }

  /**
   * A rotation succeeds exactly if every certificate is still valid and every request is
   * answered, installs exactly the answers, in order, and drops the token bound before.
   */
  lemma RotationIff(cfg: Config, s: State, env: RotateEnv)
    ensures var (s', ok) := RotateAll(cfg, s, env);
            var first := s.id.Some? && env.classical.now < s.id.value.notAfter && env.classical.reply.Some?;
            var second := s.pqId.Some? && env.pq.now < s.pqId.value.notAfter && env.pq.reply.Some?;
            && (ok <==> first && (cfg.pq.Off? || second))
            && s'.id == (if first then env.classical.reply else s.id)
            && s'.pqId == (if first && second && !cfg.pq.Off? then env.pq.reply else s.pqId)
            && (if first then s'.cached.None? && s'.tokensOnCert == 0 else s' == s)
            && s'.accepted == s.accepted
  {
  }

  /** While nothing is due, a cached token with five seconds left, and a certificate with as many, is returned as it is. */
  lemma CachedIsReturned(cfg: Config, s: State, env: TokenEnv)
    requires !NeedsRenewal(cfg, s, env.checkClassical, env.checkPq) && s.cached.Some?
    requires env.usableAt + 5_000_000_000 <= s.cached.value.expiresAt
    requires s.cached.value.certNotAfter.Some? ==> env.usableAt + 5_000_000_000 <= s.cached.value.certNotAfter.value
    ensures GetToken(cfg, s, env) == (s, s.cached)
  {
  }

  /** And only such a token comes from the cache; any other was accepted in this very call. */
  lemma ReturnedIsUsableOrNew(cfg: Config, s: State, env: TokenEnv)
    ensures var (s', t) := GetToken(cfg, s, env);
            t.Some? ==>
              || s'.accepted == s.accepted + [t.value]
              || (&& s' == s && t == s.cached
                  && env.usableAt + 5_000_000_000 <= t.value.expiresAt
                  && (t.value.certNotAfter.Some? ==> env.usableAt + 5_000_000_000 <= t.value.certNotAfter.value))
  {
    RotationIff(cfg, s, env.renew);
    var s1 := if NeedsRenewal(cfg, s, env.checkClassical, env.checkPq) then RotateAll(cfg, s, env.renew).0 else s;
    RotationIff(cfg, s1, env.every);
    IssueAppends(cfg, s1, env.issue);
    IssueAppends(cfg, RotateAll(cfg, s1, env.every).0, env.issue);
    hide Issue, RotateAll, NeedsRenewal;
  }

  /** When nothing is due, credentials change only for the every-token policy, and only if the certificate has carried a token. */
  lemma TokenRotatesIff(cfg: Config, s: State, env: TokenEnv)
    requires !NeedsRenewal(cfg, s, env.checkClassical, env.checkPq)
    requires s.cached.Some? ==> env.usableAt + 5_000_000_000 > s.cached.value.expiresAt
    ensures GetToken(cfg, s, env) ==
            if cfg.binding == Ephemeral && cfg.everyToken && s.tokensOnCert > 0 then
              var (s', rotated) := RotateAll(cfg, s, env.every);
              if rotated then Issue(cfg, s', env.issue) else (s', None)
            else Issue(cfg, s, env.issue)
  {
  }

  /** When something is due, it is renewed once, and a token is issued on what that leaves, if it succeeds. */
  lemma DueIsRenewedFirst(cfg: Config, s: State, env: TokenEnv)
    requires NeedsRenewal(cfg, s, env.checkClassical, env.checkPq)
    ensures var (s', rotated) := RotateAll(cfg, s, env.renew);
            var after := if rotated then Issue(cfg, s', env.issue) else (s', None);
            GetToken(cfg, s, env) == after && IssueToken(cfg, s, env) == after
  {
    RotationIff(cfg, s, env.renew);
    hide RotateAll, Issue, NeedsRenewal;
  }

  /** IssueToken never answers from the cache. */
  lemma IssueTokenIsNew(cfg: Config, s: State, env: TokenEnv)
    ensures !NeedsRenewal(cfg, s, env.checkClassical, env.checkPq) ==> IssueToken(cfg, s, env) == Issue(cfg, s, env.issue)
    ensures var (s', t) := IssueToken(cfg, s, env); t.Some? ==> s'.accepted == s.accepted + [t.value]
  {
    RotationIff(cfg, s, env.renew);
    IssueAppends(cfg, s, env.issue);
    IssueAppends(cfg, RotateAll(cfg, s, env.renew).0, env.issue);
    hide RotateAll, Issue, NeedsRenewal;
  }

  /** Start succeeds exactly if each plane in use starts, the classical one first; then each has a certificate. */
  lemma StartIff(cfg: Config, s: State, classical: StartEnv, pq: StartEnv)
    ensures var (s', ok) := Start(cfg, s, classical, pq);
            var (s1, first) := StartPlane(cfg, s, ClassicalPlane, classical);
            && (ok <==> first && (cfg.pq.Off? || StartPlane(cfg, s1, PqPlane, pq).1))
            && (ok ==> s'.id.Some? && (!cfg.pq.Off? ==> s'.pqId.Some?))
            && (!first ==> s' == s1)
  {
  }

  lemma IssueAppends(cfg: Config, s: State, env: IssueEnv)
    ensures var (s', t) := Issue(cfg, s, env); t.Some? ==> s'.accepted == s.accepted + [t.value]
  {
    hide AcceptCertBound, AcceptDPoP;
  }

  /**
   * A successful start leaves every plane with a certificate: the one it had, or one from
   * disk that was valid when read and is not yet due, or a new one.
   */
  lemma StartedPlaneIff(cfg: Config, s: State, p: Plane, env: StartEnv)
    ensures var (s', ok) := StartPlane(cfg, s, p, env);
            var held := if p.PqPlane? then s.pqId else s.id;
            var holds := if p.PqPlane? then s'.pqId else s'.id;
            var usable := env.onDisk.Some? && env.now < env.onDisk.value.notAfter;
            var due := env.onDisk.Some? && env.onDisk.value.notAfter - env.check <= Margin(cfg, p);
            && (held.Some? ==> ok && s' == s)
            && (held.None? && usable && !due ==>
                  && ok && holds == env.onDisk
                  && env.now < holds.value.notAfter && Margin(cfg, p) < holds.value.notAfter - env.check)
            && (held.None? && usable && due ==>
                  && (ok <==> env.renew.now < env.onDisk.value.notAfter && env.renew.reply.Some?)
                  && (ok ==> holds == env.renew.reply) && (!ok ==> holds == env.onDisk))
            && (held.None? && !usable ==>
                  && (ok <==> env.hasBootstrap && env.enrolled.Some?)
                  && (ok ==> holds == env.enrolled) && (!ok ==> s' == s))
  {
  }

  /** The thumbprint of the key proofFor signs with. */
  function ProofKeyFor(cfg: Config, t: Token): Option<string> {
    if !t.postQuantum then Some(cfg.jkt)
    else if PqEnabled(cfg) then Some(cfg.pqJkt)
    else None
  }

  /**
   * No downgrade, and the right key: in post-quantum mode every token ever accepted is
   * signed with ML-DSA and marked so, and outside it none is; under Method C the proof key
   * chosen for a returned token is always the one the token is bound to.
   */
  lemma NoDowngradeAndMatchingKey(cfg: Config, ops: seq<Op>, next: Op)
    ensures var s := Run(cfg, NOT_STARTED, ops);
            && (forall t | t in s.accepted :: t.postQuantum == PqEnabled(cfg) && (PqEnabled(cfg) ==> IsPqAlg(t.alg)))
            && (cfg.binding.DPoPKey? && Apply(cfg, s, next).1.Some? ==>
                  ProofKeyFor(cfg, Apply(cfg, s, next).1.value) == Some(Apply(cfg, s, next).1.value.thumbprint))
  {
    RunKeepsInv(cfg, NOT_STARTED, ops);
    ApplyKeepsInv(cfg, Run(cfg, NOT_STARTED, ops), next);
  }
}
