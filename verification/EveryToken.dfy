/** The every-token rotation policy of Method B: what it promises, and where it stops holding. */
module EveryToken {
  import opened Wrappers
  import opened ClientModel

  /** No two accepted tokens are bound to the same certificate. */
  ghost predicate OneTokenPerCertificate(s: State) {
    forall i, j | 0 <= i < j < |s.accepted| :: s.accepted[i].thumbprint != s.accepted[j].thumbprint
  }

  /** The certificate authority never issues the same certificate twice. */
  ghost predicate CertificatesDistinct(s: State) {
    forall i, j | 0 <= i < j < |s.certificates| :: s.certificates[i].thumbprint != s.certificates[j].thumbprint
  }

  ghost predicate NoIssueToken(ops: seq<Op>) {
    forall op | op in ops :: !op.OpIssue?
  }

  /** The promise over every run of Start, Token, Rotate and Maintain. */
  ghost predicate PolicyHolds(cfg: Config) {
    forall ops: seq<Op> | NoIssueToken(ops) && CertificatesDistinct(Run(cfg, NOT_STARTED, ops)) ::
      OneTokenPerCertificate(Run(cfg, NOT_STARTED, ops))
  }

  // ------------------------------------------------------------ without a second plane

  ghost predicate Known(s: State, thumbprint: string) {
    exists k | 0 <= k < |s.certificates| :: s.certificates[k].thumbprint == thumbprint
  }

  ghost predicate UnusedIfZero(cfg: Config, s: State) {
    Active(cfg, s).Some? && s.tokensOnCert == 0 ==>
      forall t | t in s.accepted :: t.thumbprint != Active(cfg, s).value.thumbprint
  }

  ghost predicate Inv(cfg: Config, s: State) {
    && OneTokenPerCertificate(s)
    && (forall t | t in s.accepted :: Known(s, t.thumbprint))
    && (Active(cfg, s).Some? ==> |s.certificates| > 0 && s.certificates[|s.certificates| - 1] == Active(cfg, s).value)
    && UnusedIfZero(cfg, s)
  }

  lemma KnownGrows(s: State, s': State, thumbprint: string)
    requires s.certificates <= s'.certificates && Known(s, thumbprint)
    ensures Known(s', thumbprint)
  {
    var k :| 0 <= k < |s.certificates| && s.certificates[k].thumbprint == thumbprint;
    assert s'.certificates[k] == s.certificates[k];
  }

  /** A new classical certificate leaves every accepted token on an older one. */
  lemma InstallKeepsInv(cfg: Config, s: State, c: Credential)
    requires Inv(cfg, s) && cfg.pq.Off? && CertificatesDistinct(Install(cfg, s, ClassicalPlane, c))
    ensures Inv(cfg, Install(cfg, s, ClassicalPlane, c)) && Inv(cfg, Enrolled(cfg, s, ClassicalPlane, c))
  {
    var s', s2 := Install(cfg, s, ClassicalPlane, c), Enrolled(cfg, s, ClassicalPlane, c);
    forall t | t in s.accepted ensures Known(s', t.thumbprint) && Known(s2, t.thumbprint) && t.thumbprint != c.thumbprint {
      KnownGrows(s, s', t.thumbprint);
      KnownGrows(s, s2, t.thumbprint);
      var k :| 0 <= k < |s.certificates| && s.certificates[k].thumbprint == t.thumbprint;
      assert s'.certificates[k] == s.certificates[k] && s'.certificates[|s.certificates|] == c;
    }
  }

  lemma RotateKeepsInv(cfg: Config, s: State, p: PlaneEnv)
    requires Inv(cfg, s) && cfg.pq.Off? && CertificatesDistinct(RotatePlane(cfg, s, ClassicalPlane, p).0)
    ensures Inv(cfg, RotatePlane(cfg, s, ClassicalPlane, p).0)
    ensures RotatePlane(cfg, s, ClassicalPlane, p).1 ==> RotatePlane(cfg, s, ClassicalPlane, p).0.tokensOnCert == 0
  {
    if p.reply.Some? && RotatePlane(cfg, s, ClassicalPlane, p).1 {
      InstallKeepsInv(cfg, s, p.reply.value);
    }
  }

  /** A token is issued only on a certificate that carries none. */
  lemma IssueKeepsInv(cfg: Config, s: State, env: IssueEnv)
    requires Inv(cfg, s) && cfg.pq.Off? && cfg.binding.Ephemeral? && s.tokensOnCert == 0
    ensures Inv(cfg, Issue(cfg, s, env).0)
  {
    var (s', t) := Issue(cfg, s, env);
    if t.Some? {
      assert s'.certificates[|s.certificates| - 1].thumbprint == t.value.thumbprint;
      forall u | u in s'.accepted ensures Known(s', u.thumbprint) {
        if u in s.accepted { KnownGrows(s, s', u.thumbprint); }
      }
    }
  }

  lemma DistinctBefore(s: State, s': State)
    requires s.certificates <= s'.certificates && CertificatesDistinct(s')
    ensures CertificatesDistinct(s)
  {
    assert forall i | 0 <= i < |s.certificates| :: s.certificates[i] == s'.certificates[i];
  }

  lemma TokenKeepsInv(cfg: Config, s: State, env: TokenEnv)
    requires Inv(cfg, s) && cfg.pq.Off? && cfg.binding.Ephemeral? && cfg.everyToken
    requires CertificatesDistinct(GetToken(cfg, s, env).0)
    ensures Inv(cfg, GetToken(cfg, s, env).0)
  {
    var s' := GetToken(cfg, s, env).0;
    var (s1, ok) := if NeedsRenewal(cfg, s, env.checkClassical, env.checkPq) then RotateAll(cfg, s, env.renew) else (s, true);
    var s2 := RotateAll(cfg, s1, env.every).0;
    IssueKeepsCertificates(cfg, s1, env.issue);
    IssueKeepsCertificates(cfg, s2, env.issue);
    hide Issue, NeedsRenewal;
    if !ok || (s1.cached.Some? && Usable(s1.cached.value, env.usableAt)) || s1.tokensOnCert == 0 {
      DistinctBefore(s1, s');
      if s1 != s { RotateKeepsInv(cfg, s, env.renew.classical); }
      if s1.tokensOnCert == 0 { IssueKeepsInv(cfg, s1, env.issue); }
    } else {
      DistinctBefore(s2, s');
      DistinctBefore(s1, s2);
      if s1 != s { RotateKeepsInv(cfg, s, env.renew.classical); }
      RotateKeepsInv(cfg, s1, env.every.classical);
      if RotateAll(cfg, s1, env.every).1 { IssueKeepsInv(cfg, s2, env.issue); }
    }
  }

  lemma IssueKeepsCertificates(cfg: Config, s: State, env: IssueEnv)
    ensures Issue(cfg, s, env).0.certificates == s.certificates
  {
  }

  lemma StartKeepsInv(cfg: Config, s: State, classical: StartEnv, pq: StartEnv)
    requires Inv(cfg, s) && cfg.pq.Off? && CertificatesDistinct(Start(cfg, s, classical, pq).0)
    ensures Inv(cfg, Start(cfg, s, classical, pq).0)
  {
    var s' := Start(cfg, s, classical, pq).0;
    if s.id.None? && classical.onDisk.Some? && classical.now < classical.onDisk.value.notAfter {
      var s1 := Install(cfg, s, ClassicalPlane, classical.onDisk.value);
      DistinctBefore(s1, s');
      InstallKeepsInv(cfg, s, classical.onDisk.value);
      if s1 != s' { RotateKeepsInv(cfg, s1, classical.renew); }
    } else if s.id.None? && classical.hasBootstrap && classical.enrolled.Some? {
      InstallKeepsInv(cfg, s, classical.enrolled.value);
    }
  }

  lemma ApplyKeepsInv(cfg: Config, s: State, op: Op)
    requires Inv(cfg, s) && cfg.pq.Off? && cfg.binding.Ephemeral? && cfg.everyToken && !op.OpIssue?
    requires CertificatesDistinct(Apply(cfg, s, op).0)
    ensures Inv(cfg, Apply(cfg, s, op).0)
  {
    match op
    case OpStart(classical, pq) => StartKeepsInv(cfg, s, classical, pq);
    case OpToken(env) => TokenKeepsInv(cfg, s, env);
    case OpRotate(env) => RotateKeepsInv(cfg, s, env.classical);
    case OpTick(env) =>
      if NeedsRenewalPlane(cfg, s, ClassicalPlane, env.checkClassical) {
        RotateKeepsInv(cfg, s, env.rotate.classical);
      }
  }

  lemma {:induction false} CertificatesGrow(cfg: Config, s: State, ops: seq<Op>)
    ensures s.certificates <= Run(cfg, s, ops).certificates
    decreases ops
  {
    if ops != [] {
      OneStepGrows(cfg, s, ops[0]);
      CertificatesGrow(cfg, Apply(cfg, s, ops[0]).0, ops[1..]);
    }
  }

  lemma OneStepGrows(cfg: Config, s: State, op: Op)
    ensures s.certificates <= Apply(cfg, s, op).0.certificates
  {
    hide GetToken, IssueToken;
    match op
    case OpToken(env) => TokenGrows(cfg, s, env);
    case OpIssue(env) => IssueTokenGrows(cfg, s, env);
    case _ =>
  }

  lemma TokenGrows(cfg: Config, s: State, env: TokenEnv)
    ensures s.certificates <= GetToken(cfg, s, env).0.certificates
  {
    hide Issue, RotateAll, NeedsRenewal;
    var s1 := if NeedsRenewal(cfg, s, env.checkClassical, env.checkPq) then RotateAll(cfg, s, env.renew).0 else s;
    RotateGrows(cfg, s, env.renew);
    RotateGrows(cfg, s1, env.every);
    IssueKeepsCertificates(cfg, s1, env.issue);
    IssueKeepsCertificates(cfg, RotateAll(cfg, s1, env.every).0, env.issue);
  }

  lemma IssueTokenGrows(cfg: Config, s: State, env: TokenEnv)
    ensures s.certificates <= IssueToken(cfg, s, env).0.certificates
  {
    hide Issue, RotateAll, NeedsRenewal;
    var s1 := if NeedsRenewal(cfg, s, env.checkClassical, env.checkPq) then RotateAll(cfg, s, env.renew).0 else s;
    RotateGrows(cfg, s, env.renew);
    IssueKeepsCertificates(cfg, s1, env.issue);
  }

  lemma RotateGrows(cfg: Config, s: State, env: RotateEnv)
    ensures s.certificates <= RotateAll(cfg, s, env).0.certificates
  {
  }

  lemma {:induction false} RunKeepsInv(cfg: Config, s: State, ops: seq<Op>)
    requires Inv(cfg, s) && cfg.pq.Off? && cfg.binding.Ephemeral? && cfg.everyToken && NoIssueToken(ops)
    requires CertificatesDistinct(Run(cfg, s, ops))
    ensures Inv(cfg, Run(cfg, s, ops))
    decreases ops
  {
    if ops != [] {
      var s1 := Apply(cfg, s, ops[0]).0;
      assert ops[0] in ops && forall op | op in ops[1..] :: op in ops;
      CertificatesGrow(cfg, s1, ops[1..]);
      DistinctBefore(s1, Run(cfg, s, ops));
      ApplyKeepsInv(cfg, s, ops[0]);
      RunKeepsInv(cfg, s1, ops[1..]);
    }
  }

  // --------------------------------------------------------------- with a second plane

  /** A whole second beyond both margins. */
  function FarFuture(cfg: Config): int {
    var m, n := Margin(cfg, ClassicalPlane), Margin(cfg, PqPlane);
    (((if m > 0 then m else 0) + (if n > 0 then n else 0)) / SECOND + 1) * SECOND
  }

  function Replying(cfg: Config, classicalThumbprint: string): IssueEnv {
    var x5t := if cfg.pq.Direct? then "p1" else classicalThumbprint;
    IssueEnv(Answer(Some(Jws("as", "ML-DSA-65", 0, Some(x5t), None, false))), Refused,
             Some(Jws("shim", "ML-DSA-65", 0, Some("p1"), None, false)))
  }

  function Asking(cfg: Config, classicalThumbprint: string): TokenEnv {
    var failing := RotateEnv(PlaneEnv(0, Some(Credential("c2", FarFuture(cfg)))), PlaneEnv(0, None));
    TokenEnv(0, 0, failing, 0, failing, Replying(cfg, classicalThumbprint))
  }

  /** Two tokens with a rotation between them that renews the classical certificate only. */
  function HalfRotation(cfg: Config): seq<Op> {
    var far := FarFuture(cfg);
    var enrol := (name: string) => StartEnv(None, 0, 0, PlaneEnv(0, None), true, Some(Credential(name, far)));
    [OpStart(enrol("c1"), enrol("p1")), OpToken(Asking(cfg, "c1")), OpToken(Asking(cfg, "c1")), OpToken(Asking(cfg, "c2"))]
  }

  lemma HalfRotationReusesCertificate(cfg: Config)
    requires PqEnabled(cfg) && cfg.binding.Ephemeral? && cfg.everyToken
    ensures var s := Run(cfg, NOT_STARTED, HalfRotation(cfg));
            NoIssueToken(HalfRotation(cfg)) && CertificatesDistinct(s) && !OneTokenPerCertificate(s)
  {
    var ops := HalfRotation(cfg);
    HalfStart(cfg);
    var s1 := Apply(cfg, Both(cfg), ops[1]).0;
    TokenOnCertificate(cfg, Both(cfg), "c1");
    HalfRotated(cfg, s1);
    var s2 := Apply(cfg, s1, ops[2]).0;
    TokenOnCertificate(cfg, s2, "c2");
    FourSteps(cfg, NOT_STARTED, ops);
    hide Apply, Run, Issue, Asking;
    var s := Run(cfg, NOT_STARTED, ops);
    assert |s.accepted| == 2 && s.accepted[0].thumbprint == "p1" && s.accepted[1].thumbprint == "p1";
  }

  /** The state after a start that enrolled both planes. */
  function Both(cfg: Config): State {
    var far := FarFuture(cfg);
    State(Some(Credential("c1", far)), Some(Credential("p1", far)), None, 0, [], [Credential("p1", far)])
  }

  lemma HalfStart(cfg: Config)
    requires PqEnabled(cfg)
    ensures Apply(cfg, NOT_STARTED, HalfRotation(cfg)[0]).0 == Both(cfg)
  {
  }

  lemma TokenOnCertificate(cfg: Config, s: State, classical: string)
    requires PqEnabled(cfg) && cfg.binding.Ephemeral? && cfg.everyToken
    requires s.id == Some(Credential(classical, FarFuture(cfg))) && s.pqId == Some(Credential("p1", FarFuture(cfg)))
    requires s.cached.None? && s.tokensOnCert == 0
    ensures var s' := Apply(cfg, s, OpToken(Asking(cfg, classical))).0;
            && s'.cached.Some? && s'.cached.value.thumbprint == "p1" && s'.accepted == s.accepted + [s'.cached.value]
            && !Usable(s'.cached.value, 0)
            && s' == s.(cached := s'.cached, tokensOnCert := 1, accepted := s'.accepted)
  {
  }

  /** The rotation the policy asks for renews the first certificate and fails on the second. */
  lemma HalfRotated(cfg: Config, s: State)
    requires PqEnabled(cfg) && cfg.binding.Ephemeral? && cfg.everyToken
    requires s.id.Some? && s.id.value.notAfter == FarFuture(cfg) && s.pqId == Some(Credential("p1", FarFuture(cfg)))
    requires s.tokensOnCert == 1 && s.cached.Some? && !Usable(s.cached.value, 0)
    ensures Apply(cfg, s, OpToken(Asking(cfg, "c1"))).0 ==
            s.(id := Some(Credential("c2", FarFuture(cfg))), cached := None, tokensOnCert := 0)
  {
  }

  lemma FourSteps(cfg: Config, s: State, ops: seq<Op>)
    requires |ops| == 4
    ensures var s1 := Apply(cfg, s, ops[0]).0;
            var s2 := Apply(cfg, s1, ops[1]).0;
            var s3 := Apply(cfg, s2, ops[2]).0;
            Run(cfg, s, ops) == Apply(cfg, s3, ops[3]).0
  {
    hide Apply;
    var s2 := Apply(cfg, Apply(cfg, s, ops[0]).0, ops[1]).0;
    assert Run(cfg, s, ops) == Run(cfg, s2, ops[1..][1..]);
    assert Run(cfg, s2, ops[1..][1..]) == Run(cfg, Apply(cfg, Apply(cfg, s2, ops[2]).0, ops[3]).0, ops[1..][1..][1..][1..]);
  }

  /**
   * Every-token rotation: for Method B with that policy, no two accepted tokens share a
   * certificate in any run of Start, Token, Rotate and Maintain, if and only if the client
   * has no post-quantum plane. With one, a rotation can fail after its first half.
   */
  lemma PolicyHoldsIff(cfg: Config)
    requires cfg.binding.Ephemeral? && cfg.everyToken
    ensures PolicyHolds(cfg) <==> !PqEnabled(cfg)
  {
    if PqEnabled(cfg) {
      HalfRotationReusesCertificate(cfg);
    } else {
      forall ops: seq<Op> | NoIssueToken(ops) && CertificatesDistinct(Run(cfg, NOT_STARTED, ops))
        ensures OneTokenPerCertificate(Run(cfg, NOT_STARTED, ops))
      {
        RunKeepsInv(cfg, NOT_STARTED, ops);
      }
    }
  }
}
