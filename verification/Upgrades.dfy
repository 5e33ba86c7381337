/**
 * Runs of the upgrade service. Requests are served concurrently: each is authorized, then
 * takes its turn at the shim's replay cache, then has its token minted, in steps that
 * interleave with those of any other requests.
 */
module Upgrades {
  import opened Wrappers
  import opened Replay
  import opened SingleUse
  import opened Shim
  import V = Validator

  datatype Setup = Setup(cfg: Config, pol: Policy, algs: set<string>, max: int)

  /** A request on its way; slot is its place among the submissions to the shim's cache. */
  datatype Stage =
    | Authorized(r: Request, p: V.Principal)
    | Proved(r: Request, p: V.Principal, b: Binding, slot: nat)

  datatype Minted = Minted(r: Request, p: V.Principal, b: Binding, slot: nat, at: int, claims: Claims)

  datatype State = State(granting: Cache, proofs: Cache, stages: map<nat, Stage>,
                         spent: seq<Submission>, minted: seq<Minted>)

  function Initial(u: Setup, granting: Cache): State { State(granting, NewCache(u.max), map[], [], []) }

  datatype Event =
    | Authorize(id: nat, r: Request, now: int)
    | Prove(id: nat, b: Binding, now: int)
    | Mint(id: nat, now: int, jti: string)
    | Drop(id: nat)

  ghost predicate CanProve(u: Setup, s: State, id: nat, b: Binding) {
    id in s.stages && s.stages[id].Authorized? && Proves(u.cfg, s.stages[id].r, s.stages[id].p.clientId, b)
  }

  ghost function Apply(u: Setup, s: State, e: Event): State {
    match e
    case Authorize(id, r, now) =>
      var (granting, p) := V.Decide(u.pol, u.algs, s.granting, Classical(u.cfg, r), now);
      if id in s.stages then s
      else if p.None? then s.(granting := granting)
      else s.(granting := granting, stages := s.stages[id := Authorized(r, p.value)])
    case Prove(id, b, now) =>
      if !CanProve(u, s, id, b) then s
      else
        var stage := s.stages[id];
        var sub := Submission(ProofOf(stage.r, b), now);
        var (proofs, v) := Submit(u.cfg.pol, s.proofs, sub);
        s.(proofs := proofs, spent := s.spent + [sub],
           stages := if v == Accepted then s.stages[id := Proved(stage.r, stage.p, b, |s.spent|)] else s.stages - {id})
    case Mint(id, now, jti) =>
      if id !in s.stages || !s.stages[id].Proved? then s
      else
        var stage := s.stages[id];
        var m := Minted(stage.r, stage.p, stage.b, stage.slot, now, Token(u.cfg, ClaimsOf(stage.r), stage.p, stage.b, now, jti));
        s.(stages := s.stages - {id}, minted := s.minted + [m])
    case Drop(id) => s.(stages := s.stages - {id})
  }

  ghost function Run(u: Setup, s: State, es: seq<Event>): State
    decreases es
  {
    if es == [] then s else Run(u, Apply(u, s, es[0]), es[1..])
  }

  // -------------------------------------------------------------------- the invariant

  /**
   * The classical token was valid and held by this caller: the client its claims name,
   * with the credential that its cnf names.
   */
  predicate Granted(u: Setup, r: Request, p: V.Principal) {
    && r.token.Some? && V.StaticallyOk(u.algs, Classical(u.cfg, r))
    && p.clientId == FirstString(r.token.value, CLIENT_CLAIMS)
    && Confirms(r.token.value, p.binding, p.thumbprint)
    && p.binding == (if Classical(u.cfg, r).token.value.cnf.jkt.Text? then "jkt" else "x5t#S256")
  }

  /** The submission at this slot was accepted, and was this request's proof. */
  ghost predicate Owns(u: Setup, spent: seq<Submission>, slot: nat, r: Request, p: V.Principal, b: Binding) {
    && slot < |spent|
    && Granted(u, r, p) && Proves(u.cfg, r, p.clientId, b)
    && Verdicts(u.cfg.pol, NewCache(u.max), spent)[slot] == Accepted
    && spent[slot].proof == ProofOf(r, b)
  }

  ghost predicate StageOk(u: Setup, spent: seq<Submission>, stage: Stage) {
    match stage
    case Authorized(r, p) => Granted(u, r, p)
    case Proved(r, p, b, slot) => slot < |spent| && Owns(u, spent, slot, r, p, b)
  }

  ghost predicate MintedOk(u: Setup, spent: seq<Submission>, m: Minted) {
    && m.slot < |spent| && Owns(u, spent, m.slot, m.r, m.p, m.b)
    && exists jti :: m.claims == Token(u.cfg, ClaimsOf(m.r), m.p, m.b, m.at, jti)
  }

  ghost predicate Inv(u: Setup, s: State) {
    && s.proofs == After(u.cfg.pol, NewCache(u.max), s.spent)
    && (forall id | id in s.stages :: StageOk(u, s.spent, s.stages[id]))
    && (forall i | 0 <= i < |s.minted| :: MintedOk(u, s.spent, s.minted[i]))
    && SlotsDiffer(s)
  }

  ghost predicate SlotsDiffer(s: State) {
    && (forall id, id' | id in s.stages && id' in s.stages && s.stages[id].Proved? && s.stages[id'].Proved? && id != id' ::
          s.stages[id].slot != s.stages[id'].slot)
    && (forall id, i | id in s.stages && s.stages[id].Proved? && 0 <= i < |s.minted| ::
          s.stages[id].slot != s.minted[i].slot)
    && (forall i, j | 0 <= i < j < |s.minted| :: s.minted[i].slot != s.minted[j].slot)
  }

  lemma DecideGrants(u: Setup, c: Cache, r: Request, now: int)
    ensures var p := V.Decide(u.pol, u.algs, c, Classical(u.cfg, r), now).1; p.Some? ==> Granted(u, r, p.value)
  {
  }

  lemma OwnsStays(u: Setup, spent: seq<Submission>, sub: Submission, slot: nat, r: Request, p: V.Principal, b: Binding)
    requires Owns(u, spent, slot, r, p, b)
    ensures Owns(u, spent + [sub], slot, r, p, b)
  {
    OneMore(u.cfg.pol, NewCache(u.max), spent, sub);
    hide Granted, Proves, Verdicts;
  }

  lemma OthersStay(u: Setup, s: State, sub: Submission)
    requires Inv(u, s)
    ensures forall id | id in s.stages :: StageOk(u, s.spent + [sub], s.stages[id])
    ensures forall i | 0 <= i < |s.minted| :: MintedOk(u, s.spent + [sub], s.minted[i])
  {
    hide Owns, Granted, Token, After;
    forall id | id in s.stages ensures StageOk(u, s.spent + [sub], s.stages[id]) {
      assert StageOk(u, s.spent, s.stages[id]);
      match s.stages[id]
      case Authorized(_, _) =>
      case Proved(r, p, b, slot) => OwnsStays(u, s.spent, sub, slot, r, p, b);
    }
    forall i | 0 <= i < |s.minted| ensures MintedOk(u, s.spent + [sub], s.minted[i]) {
      var m := s.minted[i];
      assert MintedOk(u, s.spent, m);
      OwnsStays(u, s.spent, sub, m.slot, m.r, m.p, m.b);
    }
  }

  /** An accepted proof is owned by the request that submitted it, at the newest slot. */
  lemma ProverOwns(u: Setup, s: State, id: nat, b: Binding, now: int)
    requires Inv(u, s) && CanProve(u, s, id, b)
    ensures var stage := s.stages[id];
            var sub := Submission(ProofOf(stage.r, b), now);
            && Submit(u.cfg.pol, s.proofs, sub).0 == After(u.cfg.pol, NewCache(u.max), s.spent + [sub])
            && (Submit(u.cfg.pol, s.proofs, sub).1 == Accepted ==>
                  Owns(u, s.spent + [sub], |s.spent|, stage.r, stage.p, b))
  {
    assert StageOk(u, s.spent, s.stages[id]);
    OneMore(u.cfg.pol, NewCache(u.max), s.spent, Submission(ProofOf(s.stages[id].r, b), now));
    hide Granted, Verdicts, Submit, After, Possesses, Addressed, MintedOk;
  }

  lemma ProveKeepsInv(u: Setup, s: State, id: nat, b: Binding, now: int)
    requires Inv(u, s) && CanProve(u, s, id, b)
    ensures Inv(u, Apply(u, s, Prove(id, b, now)))
  {
    var sub := Submission(ProofOf(s.stages[id].r, b), now);
    ProverOwns(u, s, id, b, now);
    OthersStay(u, s, sub);
    SlotsBelow(u, s);
    var spent, stage, v := s.spent + [sub], s.stages[id], Submit(u.cfg.pol, s.proofs, sub).1;
    var proved := Proved(stage.r, stage.p, b, |s.spent|);
    assert v == Accepted ==> StageOk(u, spent, proved);
    NewStage(s, id, proved);
    hide StageOk, MintedOk, Submit, After, Proves, ProofOf, SlotsDiffer, CanProve;
    var s', stages := Apply(u, s, Prove(id, b, now)), if v == Accepted then s.stages[id := proved] else s.stages - {id};
    assert forall k | k in stages :: StageOk(u, spent, stages[k]);
    Assembled(u, s, s', spent, stages);
  }

  lemma Assembled(u: Setup, s: State, s': State, spent: seq<Submission>, stages: map<nat, Stage>)
    requires s'.proofs == After(u.cfg.pol, NewCache(u.max), spent)
    requires s' == s.(proofs := s'.proofs, spent := spent, stages := stages)
    requires forall k | k in stages :: StageOk(u, spent, stages[k])
    requires forall i | 0 <= i < |s.minted| :: MintedOk(u, spent, s.minted[i])
    requires SlotsDiffer(s.(stages := stages))
    ensures Inv(u, s')
  {
    hide StageOk, MintedOk, After, SlotsDiffer;
    SlotsIgnore(s, s', stages);
  }

  lemma SlotsIgnore(s: State, s': State, stages: map<nat, Stage>)
    requires SlotsDiffer(s.(stages := stages)) && s'.stages == stages && s'.minted == s.minted
    ensures SlotsDiffer(s')
  {
  }

  lemma NewStage(s: State, id: nat, stage: Stage)
    requires SlotsDiffer(s) && stage.Proved? && stage.slot == |s.spent|
    requires forall k | k in s.stages && s.stages[k].Proved? :: s.stages[k].slot < |s.spent|
    requires forall i | 0 <= i < |s.minted| :: s.minted[i].slot < |s.spent|
    ensures SlotsDiffer(s.(stages := s.stages[id := stage])) && SlotsDiffer(s.(stages := s.stages - {id}))
  {
  }

  lemma SlotsBelow(u: Setup, s: State)
    requires Inv(u, s)
    ensures forall k | k in s.stages && s.stages[k].Proved? :: s.stages[k].slot < |s.spent|
    ensures forall i | 0 <= i < |s.minted| :: s.minted[i].slot < |s.spent|
  {
    hide Owns, Granted, After;
    forall k | k in s.stages && s.stages[k].Proved? ensures s.stages[k].slot < |s.spent| {
      assert StageOk(u, s.spent, s.stages[k]);
    }
    forall i | 0 <= i < |s.minted| ensures s.minted[i].slot < |s.spent| {
      assert MintedOk(u, s.spent, s.minted[i]);
    }
  }

  lemma AuthorizeKeepsInv(u: Setup, s: State, e: Event)
    requires Inv(u, s) && e.Authorize?
    ensures Inv(u, Apply(u, s, e))
  {
    var s', p := Apply(u, s, e), V.Decide(u.pol, u.algs, s.granting, Classical(u.cfg, e.r), e.now).1;
    DecideGrants(u, s.granting, e.r, e.now);
    hide V.Decide, Granted, Owns, After, MintedOk, SlotsDiffer;
    if s'.stages != s.stages {
      UnprovedStage(s, e.id, Authorized(e.r, p.value));
      SlotsIgnore(s, s', s.stages[e.id := Authorized(e.r, p.value)]);
    } else {
      SlotsIgnore(s, s', s.stages);
    }
  }

  lemma UnprovedStage(s: State, id: nat, stage: Stage)
    requires SlotsDiffer(s) && id !in s.stages && stage.Authorized?
    ensures SlotsDiffer(s.(stages := s.stages[id := stage]))
  {
  }

  lemma MintKeepsInv(u: Setup, s: State, id: nat, now: int, jti: string)
    requires Inv(u, s) && id in s.stages && s.stages[id].Proved?
    ensures Inv(u, Apply(u, s, Mint(id, now, jti)))
  {
    hide Owns, After, Token, Granted, Submit, V.Decide, Proves, ProofOf;
    var s', stage := Apply(u, s, Mint(id, now, jti)), s.stages[id];
    var m := s'.minted[|s.minted|];
    assert StageOk(u, s.spent, stage);
    assert MintedOk(u, s.spent, m);
    MovedSlot(s, id, m);
    hide MintedOk, StageOk, SlotsDiffer;
    assert s' == s.(stages := s.stages - {id}, minted := s.minted + [m]);
  }

  lemma MovedSlot(s: State, id: nat, m: Minted)
    requires SlotsDiffer(s) && id in s.stages && s.stages[id].Proved? && m.slot == s.stages[id].slot
    ensures SlotsDiffer(s.(stages := s.stages - {id}, minted := s.minted + [m]))
  {
  }

  lemma StepKeepsInv(u: Setup, s: State, e: Event)
    requires Inv(u, s)
    ensures Inv(u, Apply(u, s, e))
  {
    hide Owns, After, Token, StageOk, MintedOk, Proves, CanProve;
    match e
    case Authorize(id, r, now) => AuthorizeKeepsInv(u, s, e);
    case Prove(id, b, now) => if CanProve(u, s, id, b) { ProveKeepsInv(u, s, id, b, now); }
    case Mint(id, now, jti) => if id in s.stages && s.stages[id].Proved? { MintKeepsInv(u, s, id, now, jti); }
    case Drop(id) =>
  }

  lemma {:induction false} RunKeepsInv(u: Setup, s: State, es: seq<Event>)
    requires Inv(u, s)
    ensures Inv(u, Run(u, s, es))
    decreases es
  {
    if es != [] {
      StepKeepsInv(u, s, es[0]);
      RunKeepsInv(u, Apply(u, s, es[0]), es[1..]);
    }
  }

  // ------------------------------------------------------------------------- theorems

  /** One minted token, against the request it answers. */
  ghost predicate Transfers(u: Setup, m: Minted) {
    // The classical token was valid, authorized and held by the caller its claims name.
    && Granted(u, m.r, m.p)
    // The caller holds the new credential, and proved it for this very token.
    && Proves(u.cfg, m.r, m.p.clientId, m.b) && m.r.proofs[0].value.claims.value.ath == m.r.tokenHash
    // That credential is the only binding, and the authorization claims are unchanged.
    && "cnf" in m.claims && m.claims["cnf"] == Object(map[(if m.b.Certified? then "x5t#S256" else "jkt") := Text(m.b.thumbprint)])
    && (forall name | name in {"sub", "aud", "azp", "client_id", "scope", "realm_access", "resource_access"} ::
          (name in m.claims <==> name in ClaimsOf(m.r)) && (name in m.claims ==> m.claims[name] == ClaimsOf(m.r)[name]))
    // So whatever scope and role are required, they are in both tokens or in neither.
    && (forall required: Required :: Permits(required, m.claims) <==> Permits(required, ClaimsOf(m.r)))
    // It ends within the lifetime, and with the classical token if that has an integer exp.
    && "exp" in m.claims && m.claims["exp"].Integer?
    && m.claims["exp"].n * SECOND <= m.at + u.cfg.lifetime
    && ("exp" in ClaimsOf(m.r) && ClaimsOf(m.r)["exp"].Integer? ==> m.claims["exp"].n <= ClaimsOf(m.r)["exp"].n)
    // It outlives the classical token exactly if that exp is no integer and the lifetime is longer.
    && (ClassicalExpiry(ClaimsOf(m.r)).Some? ==>
          (m.claims["exp"].n <= ClassicalExpiry(ClaimsOf(m.r)).value <==>
           ClaimsOf(m.r)["exp"].Integer? || (m.at + u.cfg.lifetime) / SECOND <= ClassicalExpiry(ClaimsOf(m.r)).value))
  }

  /**
   * Binding transfer: in every run, each minted token transfers the binding of a valid
   * classical token to a credential its holder has, and no two minted tokens come from
   * the same proof, given readings that lag less than the skew.
   */
  lemma BindingTransfer(u: Setup, granting: Cache, es: seq<Event>, lag: int)
    requires LagAtMost(Run(u, Initial(u, granting), es).spent, lag) && 0 <= lag < u.cfg.pol.skew
    ensures var minted := Run(u, Initial(u, granting), es).minted;
            && (forall i | 0 <= i < |minted| :: Transfers(u, minted[i]))
            && (forall i, j | 0 <= i < j < |minted| :: ProofOf(minted[i].r, minted[i].b) != ProofOf(minted[j].r, minted[j].b))
  {
    RunKeepsInv(u, Initial(u, granting), es);
    var s := Run(u, Initial(u, granting), es);
    SingleUseUnderLag(u.cfg.pol, NewCache(u.max), s.spent, lag);
    forall i | 0 <= i < |s.minted| ensures Transfers(u, s.minted[i]) {
      MintedTransfers(u, s, i);
    }
    DifferentProofs(u, s);
  }

  lemma DifferentProofs(u: Setup, s: State)
    requires Inv(u, s) && AcceptedOnce(u.cfg.pol, NewCache(u.max), s.spent)
    ensures forall i | 0 <= i < |s.minted| :: Owns(u, s.spent, s.minted[i].slot, s.minted[i].r, s.minted[i].p, s.minted[i].b)
    ensures forall i, j | 0 <= i < j < |s.minted| :: ProofOf(s.minted[i].r, s.minted[i].b) != ProofOf(s.minted[j].r, s.minted[j].b)
  {
    hide Verdicts, After, Token, Granted, StageOk, Possesses;
    forall i | 0 <= i < |s.minted|
      ensures Owns(u, s.spent, s.minted[i].slot, s.minted[i].r, s.minted[i].p, s.minted[i].b)
    {
      assert MintedOk(u, s.spent, s.minted[i]);
    }
    forall i, j | 0 <= i < j < |s.minted|
      ensures ProofOf(s.minted[i].r, s.minted[i].b) != ProofOf(s.minted[j].r, s.minted[j].b)
    {
      var m, n := s.minted[i], s.minted[j];
      assert Owns(u, s.spent, m.slot, m.r, m.p, m.b) && Owns(u, s.spent, n.slot, n.r, n.p, n.b);
      var a, b := if m.slot < n.slot then m.slot else n.slot, if m.slot < n.slot then n.slot else m.slot;
      assert a < b;
    }
  }

  lemma MintedTransfers(u: Setup, s: State, i: nat)
    requires Inv(u, s) && i < |s.minted|
    ensures Owns(u, s.spent, s.minted[i].slot, s.minted[i].r, s.minted[i].p, s.minted[i].b)
    ensures Transfers(u, s.minted[i])
  {
    hide Token, Possesses, Verdicts, Granted, Proves, ProofOf, After, SlotsDiffer;
    var m := s.minted[i];
    assert MintedOk(u, s.spent, m);
    var jti :| m.claims == Token(u.cfg, ClaimsOf(m.r), m.p, m.b, m.at, jti);
    TokenTransfers(u.cfg, ClaimsOf(m.r), m.p, m.b, m.at, jti);
    TokenEnds(u.cfg, ClaimsOf(m.r), m.p, m.b, m.at, jti);
    DecisionTransfers(u.cfg, ClaimsOf(m.r), m.p, m.b, m.at, jti);
    if ClassicalExpiry(ClaimsOf(m.r)).Some? {
      NoLongerThanClassicalIff(u.cfg, ClaimsOf(m.r), m.p, m.b, m.at, jti);
    }
    ProvesThisToken(u.cfg, m.r, m.p.clientId, m.b);
  }

  lemma ProvesThisToken(cfg: Config, r: Request, clientId: string, b: Binding)
    requires Proves(cfg, r, clientId, b)
    ensures |r.proofs| == 1 && r.proofs[0].Some? && r.proofs[0].value.claims.Some?
    ensures r.proofs[0].value.claims.value.ath == r.tokenHash
  {
    hide Possesses;
  }


  // ------------------------------------------------------- a token that outlives its own

  /** A certificate-bound token of a client, with an exp between two seconds. */
  function FractionalClaims(whole: int): Claims {
    map["client_id" := Text("c"), "exp" := Fraction(whole), "cnf" := Object(map["x5t#S256" := Text("x")])]
  }

  /** Its upgrade to an ML-DSA key, for the token and with a proof issued in that second. */
  function FractionalRequest(whole: int): Request {
    var proof := V.ProofClaims("hash", "POST", Some("htu"), "jti", Some(whole));
    Request(Some(V.Bearer), Some(FractionalClaims(whole)), "hash", Some(V.PeerCertificate(true, "x")), [], "POST", Some("htu"),
            [Some(PQProof(PROOF_TYPE, ML_DSA + "65", Absent, Parsed(Jwk("AKP", Some(1), Some("t"))), {1}, Some(proof)))], Some("htu"))
  }

  function FractionalRun(whole: int): seq<Event> {
    var now := whole * SECOND;
    [Authorize(0, FractionalRequest(whole), now), Prove(0, Keyed("t"), now), Mint(0, now, "j")]
  }

  lemma FractionalIsGranted(u: Setup, granting: Cache, whole: int)
    requires Permits(u.cfg.required, FractionalClaims(whole))
    ensures V.Decide(u.pol, u.algs, granting, Classical(u.cfg, FractionalRequest(whole)), whole * SECOND)
         == (granting, Some(V.Principal("c", "x5t#S256", "x")))
  {
    var claims := FractionalClaims(whole);
    assert CLIENT_CLAIMS[0] == "client_id";
    assert FirstString(claims, CLIENT_CLAIMS) == "c";
    assert ReadCnf(claims) == V.CnfObject(V.Text("x"), V.Missing);
  }

  lemma FractionalIsProved(u: Setup, whole: int)
    requires u.cfg.pol.window >= 0 && u.cfg.pol.skew >= 0 && u.max > 0
    ensures Proves(u.cfg, FractionalRequest(whole), "c", Keyed("t"))
    ensures Submit(u.cfg.pol, NewCache(u.max), Submission(ProofOf(FractionalRequest(whole), Keyed("t")), whole * SECOND)).1 == Accepted
  {
    hide CacheKey;
    assert Swept(EMPTY, whole * SECOND) == EMPTY;
    assert ML_DSA <= ML_DSA + "65";
    assert ProvesKey(FractionalRequest(whole).proofs[0].value, "t");
  }

  /**
   * A run of the service in which a classical token in its last second, whose exp is not an
   * integer, is upgraded to one that has the whole lifetime ahead.
   */
  lemma FractionalExpiryIsExtended(u: Setup, granting: Cache, whole: int)
    requires Permits(u.cfg.required, FractionalClaims(whole)) && u.cfg.lifetime >= SECOND
    requires u.cfg.pol.window >= 0 && u.cfg.pol.skew >= 0 && u.max > 0
    ensures var minted := Run(u, Initial(u, granting), FractionalRun(whole)).minted;
            && |minted| == 1 && Transfers(u, minted[0])
            && ClassicalExpiry(ClaimsOf(minted[0].r)) == Some(whole)
            && "exp" in minted[0].claims && minted[0].claims["exp"].Integer? && minted[0].claims["exp"].n > whole
  {
    var s, es := Initial(u, granting), FractionalRun(whole);
    RunKeepsInv(u, s, es);
    FractionalMinted(u, granting, whole);
    FractionalHas(whole);
    hide Inv, Run, FractionalRequest, Transfers, FractionalClaims, ClaimsOf;
    MintedTransfers(u, Run(u, s, es), 0);
    TransferOutlives(u, Run(u, s, es).minted[0], whole);
  }

  lemma TransferOutlives(u: Setup, m: Minted, whole: int)
    requires Transfers(u, m) && ClaimsOf(m.r) == FractionalClaims(whole) && m.at == whole * SECOND && u.cfg.lifetime >= SECOND
    ensures ClassicalExpiry(ClaimsOf(m.r)) == Some(whole)
    ensures "exp" in m.claims && m.claims["exp"].Integer? && m.claims["exp"].n > whole
  {
    OutlivesBy(whole, u.cfg.lifetime);
    hide Granted, Proves, ProofOf, Permits;
    assert FractionalClaims(whole)["exp"] == Fraction(whole);
  }

  lemma FractionalMinted(u: Setup, granting: Cache, whole: int)
    requires Permits(u.cfg.required, FractionalClaims(whole))
    requires u.cfg.pol.window >= 0 && u.cfg.pol.skew >= 0 && u.max > 0
    ensures var minted := Run(u, Initial(u, granting), FractionalRun(whole)).minted;
            |minted| == 1 && minted[0].r == FractionalRequest(whole) && minted[0].at == whole * SECOND
  {
    var s, es := Initial(u, granting), FractionalRun(whole);
    FractionalIsGranted(u, granting, whole);
    FractionalIsProved(u, whole);
    hide V.Decide, Submit, Proves, Token, ProofOf, Classical, FractionalRequest;
    var r := FractionalRequest(whole);
    var s1 := Apply(u, s, es[0]);
    assert s1.stages == map[0 := Authorized(r, V.Principal("c", "x5t#S256", "x"))] && s1.proofs == NewCache(u.max);
    var s2 := Apply(u, s1, es[1]);
    assert CanProve(u, s1, 0, Keyed("t"));
    assert 0 in s2.stages && s2.stages[0].Proved? && s2.stages[0].r == r;
    var s3 := Apply(u, s2, es[2]);
    assert es[1..][0] == es[1] && es[1..][1..][0] == es[2] && es[1..][1..][1..] == [];
    assert Run(u, s, es) == Run(u, s2, es[1..][1..]) == Run(u, s3, es[1..][1..][1..]) == s3;
  }

  lemma FractionalHas(whole: int)
    ensures ClaimsOf(FractionalRequest(whole)) == FractionalClaims(whole)
  {
  }

  lemma OutlivesBy(whole: int, lifetime: int)
    requires lifetime >= SECOND
    ensures (whole * SECOND + lifetime) / SECOND > whole
  {
  }
}
