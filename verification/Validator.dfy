/**
 * The resource-side checks. Signatures, chains and token parsing are answered by the
 * request's fields; what is modelled is which checks run, in which order, and what they
 * do to the replay cache.
 */
module Validator {
  import opened Wrappers
  import opened Replay
  import opened SingleUse

  datatype Scheme = Bearer | DPoP

  /** A member of the cnf object: missing, not a non-empty string, or its text. */
  datatype Member = Missing | NotText | Text(text: string)

  datatype Cnf = CnfAbsent | CnfNotObject | CnfObject(x5t: Member, jkt: Member)

  /** The claims of a valid token, as far as the binding checks read them. */
  datatype TokenClaims = TokenClaims(cnf: Cnf, authorized: bool, clientId: string)

  /** A proof's own key: usable, with a signature that verifies under it, and its thumbprint. */
  datatype ProofKey = ProofKey(usable: bool, verifies: bool, thumbprint: Option<string>)

  /** A proof's claims; htu is already normalised, None when it cannot be; iat in seconds. */
  datatype ProofClaims = ProofClaims(ath: string, htm: string, htu: Option<string>, jti: string, iat: Option<int>)

  datatype ProofHeader = ProofHeader(typ: string, alg: string, key: Option<ProofKey>, claims: Option<ProofClaims>)

  datatype PeerCertificate = PeerCertificate(chainOk: bool, thumbprint: string)

  /** A request after parsing: None where the corresponding part failed to parse. */
  datatype Request = Request(authorization: Option<Scheme>, token: Option<TokenClaims>, tokenHash: string,
                             peer: Option<PeerCertificate>, proofs: seq<Option<ProofHeader>>,
                             verb: string, htu: Option<string>)

  datatype Reason =
    | AuthorizationRejected | TokenRejected | InsufficientScope
    | CnfMissing | CnfMalformed | CnfUnrecognized
    | CertBoundWrongScheme | ClientCertMissing | ClientCertRejected | X5tMismatch
    | DPoPAsBearer | ProofMissing | ProofMultiple | ProofMalformed | ProofType | ProofAlg
    | ProofJwk | ProofSignature | JktMismatch | AthMissing | AthMismatch | HtmMismatch | HtuMismatch
    | JtiMissing | IatOutOfWindow | ProofReplayed | ReplayCacheFull

  /** Binding and Thumbprint of the Principal. */
  datatype Principal = Principal(clientId: string, binding: string, thumbprint: string)

  datatype Result = Granted(principal: Principal) | Denied(reason: Reason)

  // ---------------------------------------------------------------- what is promised

  /** RFC 8705 section 3: this session's certificate is the one the token names. */
  predicate HoldsCertificate(r: Request, x5t: string) {
    r.peer.Some? && r.peer.value.chainOk && r.peer.value.thumbprint == x5t
  }

  /** RFC 9449 section 4.3 up to freshness: one proof, by the token's key, for this token and request. */
  predicate ProofFits(algs: set<string>, r: Request, jkt: string) {
    && r.authorization == Some(DPoP)
    && |r.proofs| == 1 && r.proofs[0].Some?
    && var p := r.proofs[0].value;
       && p.typ == "dpop+jwt" && (algs == {} || p.alg in algs)
       && p.key.Some? && p.key.value.usable && p.key.value.verifies && p.key.value.thumbprint == Some(jkt)
       && p.claims.Some?
       && var c := p.claims.value;
          && c.ath != "" && c.ath == r.tokenHash
          && c.htm == r.verb
          && c.htu.Some? && c.htu == r.htu
          && c.jti != "" && c.iat.Some?
  }

  /** The proof a fitting request submits to the cache. */
  function SubmittedProof(algs: set<string>, r: Request, jkt: string): Proof
    requires ProofFits(algs, r, jkt)
  {
    var c := r.proofs[0].value.claims.value;
    Proof(jkt, c.jti, c.iat.value * SECOND)
  }

  /** The cnf members that can be checked: at least one, and none malformed. */
  predicate Bound(cnf: Cnf) {
    cnf.CnfObject? && !cnf.x5t.NotText? && !cnf.jkt.NotText? && (cnf.x5t.Text? || cnf.jkt.Text?)
  }

  /** Everything but the freshness of the proof. */
  predicate StaticallyOk(algs: set<string>, r: Request) {
    && r.authorization.Some? && r.token.Some? && r.token.value.authorized
    && var cnf := r.token.value.cnf;
       && Bound(cnf)
       && (cnf.x5t.Text? ==> HoldsCertificate(r, cnf.x5t.text) && (r.authorization == Some(Bearer) || cnf.jkt.Text?))
       && (cnf.jkt.Text? ==> ProofFits(algs, r, cnf.jkt.text))
  }

  /** What Authorize amounts to: the cache it leaves, and the caller it grants. */
  function Decide(pol: Policy, algs: set<string>, c: Cache, r: Request, now: int): (Cache, Option<Principal>) {
    if !StaticallyOk(algs, r) then (c, None)
    else
      var token := r.token.value;
      if token.cnf.jkt.Text? then
        var jkt := token.cnf.jkt.text;
        var (c', v) := Submit(pol, c, Submission(SubmittedProof(algs, r, jkt), now));
        (c', if v == Accepted then Some(Principal(token.clientId, "jkt", jkt)) else None)
      else
        (c, Some(Principal(token.clientId, "x5t#S256", token.cnf.x5t.text)))
  }

  class Validator {
    const pol: Policy
    const algs: set<string>
    const cache: ReplayCache

    constructor (pol: Policy, algs: set<string>, size: int)
      ensures this.pol == pol && this.algs == algs && fresh(cache) && cache.State() == NewCache(size)
    {
      this.pol, this.algs := pol, algs;
      cache := new ReplayCache(size);
    }

    /** The checks in the source's order; only a fitting, fresh proof reaches the cache. */
    method CheckDPoPBinding(r: Request, jkt: string, now: int) returns (rejection: Option<Reason>)
      requires r.authorization.Some?
      modifies cache
      ensures !ProofFits(algs, r, jkt) ==> rejection.Some? && cache.State() == old(cache.State())
      ensures ProofFits(algs, r, jkt) ==>
                var (c, v) := Submit(pol, old(cache.State()), Submission(SubmittedProof(algs, r, jkt), now));
                && cache.State() == c
                && rejection == match v
                                case Accepted => None
                                case OutOfWindow => Some(IatOutOfWindow)
                                case Replayed => Some(ProofReplayed)
                                case CacheFull => Some(ReplayCacheFull)
    {
      if r.authorization.value != DPoP { return Some(DPoPAsBearer); }
      if |r.proofs| == 0 { return Some(ProofMissing); }
      if |r.proofs| > 1 { return Some(ProofMultiple); }
      if r.proofs[0].None? { return Some(ProofMalformed); }
      var proof := r.proofs[0].value;
      if proof.typ != "dpop+jwt" { return Some(ProofType); }
      if |algs| > 0 && proof.alg !in algs { return Some(ProofAlg); }
      if proof.key.None? || !proof.key.value.usable { return Some(ProofJwk); }
      if !proof.key.value.verifies { return Some(ProofSignature); }
      if proof.key.value.thumbprint.None? { return Some(ProofJwk); }
      if proof.key.value.thumbprint.value != jkt { return Some(JktMismatch); }
      if proof.claims.None? { return Some(ProofMalformed); }
      var claims := proof.claims.value;
      if claims.ath == "" { return Some(AthMissing); }
      if claims.ath != r.tokenHash { return Some(AthMismatch); }
      if claims.htm != r.verb { return Some(HtmMismatch); }
      if claims.htu.None? || r.htu.None? || claims.htu != r.htu { return Some(HtuMismatch); }
      if claims.jti == "" { return Some(JtiMissing); }
      if claims.iat.None? { return Some(ProofMalformed); }
      var iat := claims.iat.value * SECOND;
      if iat < now - pol.window - pol.skew || iat > now + pol.skew { return Some(IatOutOfWindow); }
      var expiry := iat + (pol.window + 2 * pol.skew);
      var outcome := cache.Store(jkt + ":" + claims.jti, expiry, now);
      match outcome {
        case Seen => return Some(ProofReplayed);
        case Full => return Some(ReplayCacheFull);
        case Fresh => return None;
      }
    }

    method CheckCertificateBinding(r: Request, x5t: string, alsoDPoP: bool) returns (rejection: Option<Reason>)
      requires r.authorization.Some?
      ensures rejection.None? <==> HoldsCertificate(r, x5t) && (r.authorization == Some(Bearer) || alsoDPoP)
    {
      if r.authorization.value != Bearer && !alsoDPoP { return Some(CertBoundWrongScheme); }
      if r.peer.None? { return Some(ClientCertMissing); }
      if !r.peer.value.chainOk { return Some(ClientCertRejected); }
      if r.peer.value.thumbprint != x5t { return Some(X5tMismatch); }
      return None;
    }

    /**
     * No bound token, no entry: a caller is granted exactly when the token is valid and
     * authorized, it is bound, and this request proves every binding it carries, with a
     * fresh proof when one of them is a key. A proof is spent only by a request that
     * passed everything else.
     */
    method Authorize(r: Request, now: int) returns (result: Result)
      modifies cache
      ensures (cache.State(), if result.Granted? then Some(result.principal) else None)
           == Decide(pol, algs, old(cache.State()), r, now)
    {
      if r.authorization.None? { return Denied(AuthorizationRejected); }
      if r.token.None? { return Denied(TokenRejected); }
      var claims := r.token.value;
      if !claims.authorized { return Denied(InsufficientScope); }
      if claims.cnf.CnfAbsent? { return Denied(CnfMissing); }
      if claims.cnf.CnfNotObject? { return Denied(CnfMalformed); }
      var x5t, jkt := claims.cnf.x5t, claims.cnf.jkt;
      if x5t.NotText? || jkt.NotText? { return Denied(CnfMalformed); }
      if x5t.Missing? && jkt.Missing? { return Denied(CnfUnrecognized); }
      var p := Principal(claims.clientId, "", "");
      if x5t.Text? {
        var rejection := CheckCertificateBinding(r, x5t.text, jkt.Text?);
        if rejection.Some? { return Denied(rejection.value); }
        p := p.(binding := "x5t#S256", thumbprint := x5t.text);
      }
      if jkt.Text? {
        var rejection := CheckDPoPBinding(r, jkt.text, now);
        if rejection.Some? { return Denied(rejection.value); }
        p := p.(binding := "jkt", thumbprint := jkt.text);
      }
      return Granted(p);
    }
  }

  // --------------------------------------------------- the decision, claim by claim

  /** RFC 8705: a token bound to a certificate alone, in the terms of the request. */
  lemma CertificateTokenGrantedIff(pol: Policy, algs: set<string>, c: Cache, r: Request, now: int)
    requires r.token.Some? && r.token.value.cnf.CnfObject?
    requires r.token.value.cnf.x5t.Text? && r.token.value.cnf.jkt.Missing?
    ensures var (c', p) := Decide(pol, algs, c, r, now);
            var token := r.token.value;
            && c' == c
            && (p.Some? <==> r.authorization == Some(Bearer) && token.authorized
                             && r.peer.Some? && r.peer.value.chainOk && r.peer.value.thumbprint == token.cnf.x5t.text)
            && (p.Some? ==> p.value == Principal(token.clientId, "x5t#S256", token.cnf.x5t.text))
  {
  }

  /** RFC 9449: a token bound to a key, and to a certificate as well if it names one. */
  lemma KeyTokenGrantedIff(pol: Policy, algs: set<string>, c: Cache, r: Request, now: int)
    requires r.token.Some? && r.token.value.cnf.CnfObject?
    requires r.token.value.cnf.jkt.Text? && !r.token.value.cnf.x5t.NotText?
    ensures var p := Decide(pol, algs, c, r, now).1;
            var (token, jkt) := (r.token.value, r.token.value.cnf.jkt.text);
            && (p.Some? ==> p.value == Principal(token.clientId, "jkt", jkt))
            && (p.Some? <==>
                  && r.authorization == Some(DPoP) && token.authorized
                  && (token.cnf.x5t.Text? ==> r.peer.Some? && r.peer.value.chainOk && r.peer.value.thumbprint == token.cnf.x5t.text)
                  && |r.proofs| == 1 && r.proofs[0].Some?
                  && var proof := r.proofs[0].value;
                     && proof.typ == "dpop+jwt" && (algs == {} || proof.alg in algs)
                     && proof.key.Some? && proof.key.value.usable && proof.key.value.verifies
                     && proof.key.value.thumbprint == Some(jkt)
                     && proof.claims.Some?
                     && var claims := proof.claims.value;
                        && claims.ath == r.tokenHash && claims.ath != "" && claims.htm == r.verb
                        && claims.htu.Some? && claims.htu == r.htu && claims.jti != "" && claims.iat.Some?
                        && var iat := claims.iat.value * 1_000_000_000;
                           && now - pol.window - pol.skew <= iat <= now + pol.skew
                           && CheckAndStore(c, Op(jkt + ":" + claims.jti, iat + pol.window + 2 * pol.skew, now)).1.Fresh?)
  {
    hide CheckAndStore;
  }

  /** Without a valid, bound token nobody is granted, and no proof is spent. */
  lemma UnboundIsDenied(pol: Policy, algs: set<string>, c: Cache, r: Request, now: int)
    requires || r.authorization.None? || r.token.None? || !r.token.value.cnf.CnfObject?
             || r.token.value.cnf.x5t.NotText? || r.token.value.cnf.jkt.NotText?
             || (r.token.value.cnf.x5t.Missing? && r.token.value.cnf.jkt.Missing?)
    ensures Decide(pol, algs, c, r, now) == (c, None)
  {
  }
}
