/**
 * The upgrade service: a validated classical token and a post-quantum proof go in, a
 * token bound to the proof's credential comes out. Signatures, chains and hashes are
 * answered by the request's fields; times are nanoseconds since 1970.
 */
module Shim {
  import opened Wrappers
  import opened Replay
  import opened SingleUse
  import V = Validator

  // ------------------------------------------------------------------------ the inputs

  /** A JSON value; Fraction is a number not written as a 64-bit integer, by its integral part. */
  datatype Json =
    | Text(text: string) | Integer(n: int) | Fraction(whole: int) | Object(members: map<string, Json>)
    | List(items: seq<Json>) | Other(id: nat)

  type Claims = map<string, Json>

  type Key = nat

  datatype Certificate = Certificate(key: Key, mlDsa: bool, commonName: string, thumbprint: string)

  /** A header member: absent, present but of the wrong form, or parsed. */
  datatype Member<T> = Absent | Malformed | Parsed(value: T)

  datatype Jwk = Jwk(kty: string, key: Option<Key>, thumbprint: Option<string>)

  /** x5c lists what its items parse to; `signers` are the keys the signature verifies under. */
  datatype PQProof = PQProof(typ: string, alg: string, x5c: Member<seq<Option<Certificate>>>, jwk: Member<Jwk>,
                             signers: set<Key>, claims: Option<V.ProofClaims>)

  /** An upgrade request: the classical token's claims if it is valid, and the proof headers. */
  datatype Request = Request(authorization: Option<V.Scheme>, token: Option<Claims>, tokenHash: string,
                             peer: Option<V.PeerCertificate>, dpop: seq<Option<V.ProofHeader>>, verb: string, htu: Option<string>,
                             proofs: seq<Option<PQProof>>, issuerHtu: Option<string>)

  datatype Binding = Certified(thumbprint: string) | Keyed(thumbprint: string)

  /** RequiredScope and RequiredRole of the validator, empty for none, and strings.Fields. */
  datatype Required = Required(scope: string, role: string, fields: string -> seq<string>)

  datatype Config = Config(issuer: string, signingAlg: string, lifetime: int, pol: Policy,
                           trusts: seq<Certificate> -> bool, required: Required)

  const PROOF_TYPE := "pq-binding+jwt"
  const ML_DSA := "ML-DSA-"

  // ------------------------------------------------------- the classical token's claims

  /** A cnf member as the validator reads it: a non-empty string, or not. */
  function ReadMember(members: map<string, Json>, name: string): V.Member {
    if name !in members then V.Missing
    else if members[name].Text? && members[name].text != "" then V.Text(members[name].text)
    else V.NotText
  }

  function ReadCnf(claims: Claims): V.Cnf {
    if "cnf" !in claims then V.CnfAbsent
    else match claims["cnf"]
      case Object(members) => V.CnfObject(ReadMember(members, "x5t#S256"), ReadMember(members, "jkt"))
      case _ => V.CnfNotObject
  }

  /** The first of these claims that is a non-empty string. */
  function FirstString(claims: Claims, names: seq<string>): string {
    if names == [] then ""
    else if names[0] in claims && claims[names[0]].Text? && claims[names[0]].text != "" then claims[names[0]].text
    else FirstString(claims, names[1..])
  }

  /** The scope claim, and the roles of realm_access, where they have the right form. */
  function ScopeOf(claims: Claims): string {
    if "scope" in claims && claims["scope"].Text? then claims["scope"].text else ""
  }

  function RolesOf(claims: Claims): seq<Json> {
    if "realm_access" in claims && claims["realm_access"].Object?
       && "roles" in claims["realm_access"].members && claims["realm_access"].members["roles"].List?
    then claims["realm_access"].members["roles"].items
    else []
  }

  /** checkAuthorization: the scope and the role that are required, if any are. */
  predicate Permits(required: Required, claims: Claims) {
    && (required.scope == "" || required.scope in required.fields(ScopeOf(claims)))
    && (required.role == "" || Text(required.role) in RolesOf(claims))
  }

  const CLIENT_CLAIMS: seq<string> := ["client_id", "azp"]

  /** The request as the validator sees it: every part of it read from the same claims. */
  function Classical(cfg: Config, r: Request): V.Request {
    V.Request(r.authorization,
              if r.token.None? then None
              else Some(V.TokenClaims(ReadCnf(r.token.value), Permits(cfg.required, r.token.value), FirstString(r.token.value, CLIENT_CLAIMS))),
              r.tokenHash, r.peer, r.dpop, r.verb, r.htu)
  }

  /** The claims of the validated token; none of them if it is not valid. */
  function ClaimsOf(r: Request): Claims { if r.token.Some? then r.token.value else map[] }

  /** A cnf object with this text under this name. */
  predicate Confirms(claims: Claims, name: string, thumbprint: string) {
    && "cnf" in claims && claims["cnf"].Object?
    && name in claims["cnf"].members && claims["cnf"].members[name] == Text(thumbprint)
  }

  // ------------------------------------------------------------------ what is promised

  ghost predicate IsChain(items: seq<Option<Certificate>>, chain: seq<Certificate>) {
    |chain| == |items| > 0 && forall i | 0 <= i < |items| :: items[i] == Some(chain[i])
  }

  /** Methods A and B: a trusted ML-DSA certificate of the same client signed the proof. */
  ghost predicate ProvesCertificate(cfg: Config, p: PQProof, clientId: string, chain: seq<Certificate>) {
    && p.x5c.Parsed? && IsChain(p.x5c.value, chain) && cfg.trusts(chain)
    && chain[0].mlDsa && chain[0].key in p.signers
    && (clientId == "" || chain[0].commonName == clientId)
  }

  /** Method C: the ML-DSA key the proof itself carries signed it. */
  predicate ProvesKey(p: PQProof, thumbprint: string) {
    && p.x5c.Absent? && p.jwk.Parsed? && p.jwk.value.kty == "AKP"
    && p.jwk.value.key.Some? && p.jwk.value.key.value in p.signers
    && p.jwk.value.thumbprint == Some(thumbprint)
  }

  ghost predicate Possesses(cfg: Config, p: PQProof, clientId: string, b: Binding) {
    match b
    case Certified(thumbprint) =>
      exists chain: seq<Certificate> :: ProvesCertificate(cfg, p, clientId, chain) && chain[0].thumbprint == thumbprint
    case Keyed(thumbprint) => ProvesKey(p, thumbprint)
  }

  /** The claims tie the proof to this token and this request. */
  predicate Addressed(r: Request, c: V.ProofClaims) {
    && c.ath != "" && c.ath == r.tokenHash && c.htm == r.verb
    && c.htu.Some? && c.htu == r.issuerHtu && c.jti != "" && c.iat.Some?
  }

  /** Everything about the proof but its freshness. */
  ghost predicate Proves(cfg: Config, r: Request, clientId: string, b: Binding) {
    && |r.proofs| == 1 && r.proofs[0].Some?
    && var p := r.proofs[0].value;
       && p.typ == PROOF_TYPE && ML_DSA <= p.alg
       && Possesses(cfg, p, clientId, b)
       && p.claims.Some? && Addressed(r, p.claims.value)
  }

  function ProofOf(r: Request, b: Binding): Proof
    requires |r.proofs| == 1 && r.proofs[0].Some? && r.proofs[0].value.claims.Some?
    requires r.proofs[0].value.claims.value.iat.Some?
  {
    var c := r.proofs[0].value.claims.value;
    Proof(b.thumbprint, c.jti, c.iat.value * SECOND)
  }

  lemma SameChain(items: seq<Option<Certificate>>, c: seq<Certificate>, d: seq<Certificate>)
    requires IsChain(items, c) && IsChain(items, d)
    ensures c == d
  {
    forall i | 0 <= i < |items| ensures c[i] == d[i] {
      assert items[i] == Some(c[i]) == Some(d[i]);
    }
  }

  /** A proof of a certificate, in the terms of the headers: what is trusted, whose it is, and that it signed. */
  lemma ProvesCertificateIff(cfg: Config, r: Request, clientId: string, thumbprint: string)
    ensures Proves(cfg, r, clientId, Certified(thumbprint)) <==>
              && |r.proofs| == 1 && r.proofs[0].Some?
              && var p := r.proofs[0].value;
                 && p.typ == "pq-binding+jwt" && "ML-DSA-" <= p.alg
                 && p.x5c.Parsed? && p.x5c.value != []
                 && (exists chain: seq<Certificate> | |chain| == |p.x5c.value| ::
                       && (forall i | 0 <= i < |chain| :: p.x5c.value[i] == Some(chain[i]))
                       && cfg.trusts(chain) && chain[0].mlDsa && chain[0].key in p.signers
                       && (clientId == "" || chain[0].commonName == clientId) && chain[0].thumbprint == thumbprint)
                 && p.claims.Some?
                 && var c := p.claims.value;
                    && c.ath != "" && c.ath == r.tokenHash && c.htm == r.verb
                    && c.htu.Some? && c.htu == r.issuerHtu && c.jti != "" && c.iat.Some?
  {
    if |r.proofs| == 1 && r.proofs[0].Some? {
      var p := r.proofs[0].value;
      if Possesses(cfg, p, clientId, Certified(thumbprint)) {
        var chain: seq<Certificate> :| ProvesCertificate(cfg, p, clientId, chain) && chain[0].thumbprint == thumbprint;
        assert |chain| == |p.x5c.value|;
      }
      forall chain: seq<Certificate> | p.x5c.Parsed? && |chain| == |p.x5c.value| > 0
        && (forall i | 0 <= i < |chain| :: p.x5c.value[i] == Some(chain[i]))
        && cfg.trusts(chain) && chain[0].mlDsa && chain[0].key in p.signers
        && (clientId == "" || chain[0].commonName == clientId) && chain[0].thumbprint == thumbprint
        ensures Possesses(cfg, p, clientId, Certified(thumbprint))
      {
        assert ProvesCertificate(cfg, p, clientId, chain);
      }
    }
  }

  /** And a proof of a key: the ML-DSA key it carries signed it. */
  lemma ProvesKeyIff(cfg: Config, r: Request, clientId: string, thumbprint: string)
    ensures Proves(cfg, r, clientId, Keyed(thumbprint)) <==>
              && |r.proofs| == 1 && r.proofs[0].Some?
              && var p := r.proofs[0].value;
                 && p.typ == "pq-binding+jwt" && "ML-DSA-" <= p.alg
                 && p.x5c.Absent? && p.jwk.Parsed? && p.jwk.value.kty == "AKP"
                 && p.jwk.value.key.Some? && p.jwk.value.key.value in p.signers && p.jwk.value.thumbprint == Some(thumbprint)
                 && p.claims.Some?
                 && var c := p.claims.value;
                    && c.ath != "" && c.ath == r.tokenHash && c.htm == r.verb
                    && c.htu.Some? && c.htu == r.issuerHtu && c.jti != "" && c.iat.Some?
  {
  }

  /** A request asks for at most one binding. */
  lemma OneBinding(cfg: Config, r: Request, clientId: string, b: Binding, b': Binding)
    requires Proves(cfg, r, clientId, b) && Proves(cfg, r, clientId, b')
    ensures b == b'
  {
    var p := r.proofs[0].value;
    if b.Certified? && b'.Certified? {
      var chain: seq<Certificate> :| ProvesCertificate(cfg, p, clientId, chain) && chain[0].thumbprint == b.thumbprint;
      var chain': seq<Certificate> :| ProvesCertificate(cfg, p, clientId, chain') && chain'[0].thumbprint == b'.thumbprint;
      SameChain(p.x5c.value, chain, chain');
    }
  }

  // --------------------------------------------------------------------- the new token

  const COPIED: seq<string> := ["sub", "aud", "azp", "client_id", "scope", "realm_access", "resource_access"]

  /** The number the shim reads: absent, or anything but a 64-bit integer, is none. */
  function Whole(claims: Claims, name: string): Option<int> {
    if name in claims && claims[name].Integer? then Some(claims[name].n) else None
  }

  function Expires(cfg: Config, claims: Claims, now: int): int {
    var exp := now + cfg.lifetime;
    match Whole(claims, "exp")
    case Some(e) => if e * SECOND < exp then e * SECOND else exp
    case None => exp
  }

  function Cnf(b: Binding): Json {
    Object(match b case Certified(t) => map["x5t#S256" := Text(t)] case Keyed(t) => map["jkt" := Text(t)])
  }

  /** The claims the shim writes itself. */
  function Own(cfg: Config, b: Binding, now: int, exp: int, jti: string): Claims {
    map["iss" := Text(cfg.issuer), "iat" := Integer(now / SECOND), "nbf" := Integer(now / SECOND),
        "exp" := Integer(exp / SECOND), "jti" := Text(jti), "cnf" := Cnf(b)]
  }

  function Carried(claims: Claims, names: seq<string>): Claims {
    map name | name in names && name in claims :: claims[name]
  }

  lemma CarryOne(own: Claims, claims: Claims, names: seq<string>, name: string)
    ensures own + Carried(claims, names + [name]) ==
            var before := own + Carried(claims, names);
            if name in claims then before[name := claims[name]] else before
  {
  }

  function Provenance(cfg: Config, claims: Claims, p: V.Principal, now: int): Json {
    Object(map["iss" := if "iss" in claims then claims["iss"] else Other(0),
               "binding" := Text(p.binding), "cnf" := Text(p.thumbprint),
               "upgraded_at" := Integer(now / SECOND), "shim_signing_alg" := Text(cfg.signingAlg)])
  }

  /** The claims of the token minted for a request. */
  function Token(cfg: Config, claims: Claims, p: V.Principal, b: Binding, now: int, jti: string): Claims {
    (Own(cfg, b, now, Expires(cfg, claims, now), jti) + Carried(claims, COPIED))["upgraded_from" := Provenance(cfg, claims, p, now)]
  }

  lemma TokenHas(cfg: Config, claims: Claims, p: V.Principal, b: Binding, now: int, jti: string, name: string)
    ensures var t := Token(cfg, claims, p, b, now, jti);
            var own := Own(cfg, b, now, Expires(cfg, claims, now), jti);
            if name == "upgraded_from" then name in t && t[name] == Provenance(cfg, claims, p, now)
            else if name in COPIED && name in claims then name in t && t[name] == claims[name]
            else (name in t <==> name in own) && (name in own ==> t[name] == own[name])
  {
    hide Own, Provenance, Expires;
  }

  /** The authorization claims are carried over unchanged, and the new binding is the only one. */
  lemma TokenTransfers(cfg: Config, claims: Claims, p: V.Principal, b: Binding, now: int, jti: string)
    ensures var t := Token(cfg, claims, p, b, now, jti);
            && (forall name | name in {"sub", "aud", "azp", "client_id", "scope", "realm_access", "resource_access"} ::
                  (name in t <==> name in claims) && (name in t ==> t[name] == claims[name]))
            && (forall name | name in t ::
                  name in {"iss", "iat", "nbf", "exp", "jti", "cnf", "upgraded_from",
                           "sub", "aud", "azp", "client_id", "scope", "realm_access", "resource_access"})
            && "cnf" in t && t["cnf"] == Object(map[(if b.Certified? then "x5t#S256" else "jkt") := Text(b.thumbprint)])
  {
    var t := Token(cfg, claims, p, b, now, jti);
    CopiedNames();
    TokenHas(cfg, claims, p, b, now, jti, "cnf");
    hide Token, Provenance, Expires, COPIED;
    forall name | name in {"sub", "aud", "azp", "client_id", "scope", "realm_access", "resource_access"}
      ensures (name in t <==> name in claims) && (name in t ==> t[name] == claims[name])
    {
      TokenHas(cfg, claims, p, b, now, jti, name);
    }
    forall name | name in t
      ensures name in {"iss", "iat", "nbf", "exp", "jti", "cnf", "upgraded_from",
                       "sub", "aud", "azp", "client_id", "scope", "realm_access", "resource_access"}
    {
      TokenHas(cfg, claims, p, b, now, jti, name);
    }
  }

  lemma CopiedNames()
    ensures forall name | name in {"sub", "aud", "azp", "client_id", "scope", "realm_access", "resource_access"} :: name in COPIED
    ensures forall name | name in COPIED :: name in {"sub", "aud", "azp", "client_id", "scope", "realm_access", "resource_access"}
  {
    assert COPIED[0] == "sub" && COPIED[1] == "aud" && COPIED[2] == "azp" && COPIED[3] == "client_id";
    assert COPIED[4] == "scope" && COPIED[5] == "realm_access" && COPIED[6] == "resource_access";
  }

  /**
   * So the authorization decision is the same: whatever scope and role a resource server
   * requires, it finds in the new token exactly if it would find them in the classical
   * one, and it names the same client.
   */
  lemma DecisionTransfers(cfg: Config, claims: Claims, p: V.Principal, b: Binding, now: int, jti: string)
    ensures var t := Token(cfg, claims, p, b, now, jti);
            && (forall required: Required :: Permits(required, t) <==> Permits(required, claims))
            && ScopeOf(t) == ScopeOf(claims) && RolesOf(t) == RolesOf(claims)
            && FirstString(t, ["client_id", "azp"]) == FirstString(claims, ["client_id", "azp"])
  {
    TokenTransfers(cfg, claims, p, b, now, jti);
    hide Token;
    var t := Token(cfg, claims, p, b, now, jti);
    assert "scope" in t <==> "scope" in claims;
    assert "realm_access" in t <==> "realm_access" in claims;
    ClientOf(t);
    ClientOf(claims);
    assert "client_id" in t <==> "client_id" in claims;
    assert "azp" in t <==> "azp" in claims;
  }

  /** What the validator requires is exactly the scope among the scope's fields and the role among the roles. */
  lemma PermitsIff(required: Required, claims: Claims, scope: string, roles: seq<Json>)
    requires "scope" in claims && claims["scope"] == Text(scope)
    requires "realm_access" in claims && claims["realm_access"].Object? && "roles" in claims["realm_access"].members
    requires claims["realm_access"].members["roles"] == List(roles)
    ensures Permits(required, claims) <==>
              && (required.scope == "" || required.scope in required.fields(scope))
              && (required.role == "" || exists i | 0 <= i < |roles| :: roles[i] == Text(required.role))
  {
  }

  /** The client of a token: its client_id if that is a non-empty string, or else its azp. */
  lemma ClientOf(claims: Claims)
    ensures var client := FirstString(claims, CLIENT_CLAIMS);
            if "client_id" in claims && claims["client_id"].Text? && claims["client_id"].text != "" then
              client == claims["client_id"].text
            else if "azp" in claims && claims["azp"].Text? then client == claims["azp"].text
            else client == ""
  {
    assert CLIENT_CLAIMS == ["client_id", "azp"] && CLIENT_CLAIMS[1..] == ["azp"] && ["azp"][1..] == [];
    assert FirstString(claims, []) == "";
    assert FirstString(claims, ["azp"]) ==
           if "azp" in claims && claims["azp"].Text? && claims["azp"].text != "" then claims["azp"].text
           else FirstString(claims, ["azp"][1..]);
  }

  /** What the shim says itself: who issued the token, when, and what it was upgraded from. */
  lemma TokenStates(cfg: Config, claims: Claims, p: V.Principal, b: Binding, now: int, jti: string)
    ensures var t := Token(cfg, claims, p, b, now, jti);
            && "iss" in t && t["iss"] == Text(cfg.issuer)
            && "iat" in t && "nbf" in t && t["iat"] == t["nbf"] == Integer(now / 1_000_000_000)
            && "jti" in t && t["jti"] == Text(jti)
            && "upgraded_from" in t && t["upgraded_from"].Object?
            && var from := t["upgraded_from"].members;
               && "binding" in from && from["binding"] == Text(p.binding)
               && "cnf" in from && from["cnf"] == Text(p.thumbprint)
               && "iss" in from && ("iss" in claims ==> from["iss"] == claims["iss"])
               && "shim_signing_alg" in from && from["shim_signing_alg"] == Text(cfg.signingAlg)
  {
    CopiedNames();
    hide Token, Expires, COPIED;
    TokenHas(cfg, claims, p, b, now, jti, "iss");
    TokenHas(cfg, claims, p, b, now, jti, "iat");
    TokenHas(cfg, claims, p, b, now, jti, "nbf");
    TokenHas(cfg, claims, p, b, now, jti, "jti");
    TokenHas(cfg, claims, p, b, now, jti, "upgraded_from");
  }

  /**
   * Every new token has the whole lifetime, cut to seconds, unless a classical exp that is
   * an integer comes before, and then ends with that.
   */
  lemma TokenEnds(cfg: Config, claims: Claims, p: V.Principal, b: Binding, now: int, jti: string)
    ensures var t := Token(cfg, claims, p, b, now, jti);
            var whole := (now + cfg.lifetime) / 1_000_000_000;
            && "exp" in t && t["exp"].Integer?
            && t["exp"].n * SECOND <= now + cfg.lifetime
            && ("exp" in claims && claims["exp"].Integer? ==> t["exp"].n == if claims["exp"].n < whole then claims["exp"].n else whole)
            && (!("exp" in claims && claims["exp"].Integer?) ==> t["exp"].n == whole)
  {
    CopiedNames();
    TokenHas(cfg, claims, p, b, now, jti, "exp");
    hide Token, COPIED;
  }

  /** When the resource server stops accepting a token, as it reads a numeric exp. */
  function ClassicalExpiry(claims: Claims): Option<int> {
    if "exp" !in claims then None
    else match claims["exp"] case Integer(e) => Some(e) case Fraction(whole) => Some(whole) case _ => None
  }

  /**
   * Exactly when the new token does not outlive the classical one: its exp is written as
   * an integer, or the configured lifetime ends first anyway.
   */
  lemma NoLongerThanClassicalIff(cfg: Config, claims: Claims, p: V.Principal, b: Binding, now: int, jti: string)
    requires ClassicalExpiry(claims).Some?
    ensures var t := Token(cfg, claims, p, b, now, jti);
            && "exp" in t && t["exp"].Integer?
            && (t["exp"].n <= ClassicalExpiry(claims).value <==>
                claims["exp"].Integer? || (now + cfg.lifetime) / SECOND <= ClassicalExpiry(claims).value)
  {
    TokenEnds(cfg, claims, p, b, now, jti);
    hide Token;
  }

  // ------------------------------------------------------------------------ the server

  class Server {
    const cfg: Config
    const validator: V.Validator
    const replay: ReplayCache

    /** The shim's cache of proofs is not the validator's. */
    predicate Separate() { validator.cache != replay }

    constructor (cfg: Config, validator: V.Validator, size: int)
      ensures Separate() && this.cfg == cfg && this.validator == validator
      ensures fresh(replay) && replay.State() == NewCache(size)
    {
      this.cfg, this.validator := cfg, validator;
      replay := new ReplayCache(size);
    }

    static method ChainFromProof(x5c: Member<seq<Option<Certificate>>>) returns (chain: Option<seq<Certificate>>)
      ensures chain.Some? ==> x5c.Parsed? && IsChain(x5c.value, chain.value)
      ensures chain.None? ==> !x5c.Parsed? || forall c: seq<Certificate> :: !IsChain(x5c.value, c)
    {
      if !x5c.Parsed? || |x5c.value| == 0 { return None; }
      var items, certs := x5c.value, [];
      for i := 0 to |items|
        invariant |certs| == i && forall k | 0 <= k < i :: items[k] == Some(certs[k])
      {
        if items[i].None? { return None; }
        certs := certs + [items[i].value];
      }
      return Some(certs);
    }

    /** Possession, then the claims, then freshness: a proof is spent only if all else holds. */
    method VerifyPQProof(r: Request, clientId: string, now: int) returns (binding: Option<Binding>)
      modifies replay
      ensures (forall b: Binding :: !Proves(cfg, r, clientId, b)) ==> binding.None? && replay.State() == old(replay.State())
      ensures forall b: Binding | Proves(cfg, r, clientId, b) ::
                var (c, v) := Submit(cfg.pol, old(replay.State()), Submission(ProofOf(r, b), now));
                replay.State() == c && binding == if v == Accepted then Some(b) else None
    {
      if |r.proofs| != 1 || r.proofs[0].None? { return None; }
      var p := r.proofs[0].value;
      if p.typ != PROOF_TYPE || !(ML_DSA <= p.alg) { return None; }
      var found := Credential(p, clientId);
      if found.None? { return None; }
      var ok := CheckProofClaims(r, p, found.value, now);
      assert p.claims.Some? && Addressed(r, p.claims.value) ==> Proves(cfg, r, clientId, found.value);
      return if ok then found else None;
    }

    method CheckProofClaims(r: Request, p: PQProof, b: Binding, now: int) returns (ok: bool)
      requires |r.proofs| == 1 && r.proofs[0] == Some(p)
      modifies replay
      ensures !(p.claims.Some? && Addressed(r, p.claims.value)) ==> !ok && replay.State() == old(replay.State())
      ensures p.claims.Some? && Addressed(r, p.claims.value) ==>
                var (c, v) := Submit(cfg.pol, old(replay.State()), Submission(ProofOf(r, b), now));
                replay.State() == c && (ok <==> v == Accepted)
    {
      if p.claims.None? { return false; }
      var claims := p.claims.value;
      if claims.ath == "" || claims.ath != r.tokenHash { return false; }
      if claims.htm != r.verb { return false; }
      if claims.htu.None? || r.issuerHtu.None? || claims.htu != r.issuerHtu { return false; }
      if claims.iat.None? { return false; }
      var issued := claims.iat.value * SECOND;
      if issued < now - cfg.pol.window - cfg.pol.skew || issued > now + cfg.pol.skew { return false; }
      if claims.jti == "" { return false; }
      var expiry := issued + (cfg.pol.window + 2 * cfg.pol.skew);
      var outcome := replay.Store(b.thumbprint + ":" + claims.jti, expiry, now);
      return outcome == Fresh;
    }

    static method CopyClaims(own: Claims, classical: Claims, names: seq<string>) returns (claims: Claims)
      ensures claims == own + Carried(classical, names)
    {
      claims := own;
      for i := 0 to |names|
        invariant claims == own + Carried(classical, names[..i])
      {
        CarryOne(own, classical, names[..i], names[i]);
        assert names[..i + 1] == names[..i] + [names[i]];
        if names[i] in classical {
          claims := claims[names[i] := classical[names[i]]];
        }
      }
      assert names[..|names|] == names;
    }

    /** Own claims first, then the copied ones in order, then the provenance. */
    method Issue(classical: Claims, p: V.Principal, b: Binding, now: int, jti: string) returns (claims: Claims)
      ensures claims == Token(cfg, classical, p, b, now, jti)
    {
      hide Own, Carried, Provenance;
      var exp := now + cfg.lifetime;
      if "exp" in classical && classical["exp"].Integer? && classical["exp"].n * SECOND < exp {
        exp := classical["exp"].n * SECOND;
      }
      claims := Own(cfg, b, now, exp, jti);
      claims := CopyClaims(claims, classical, COPIED);
      claims := claims["upgraded_from" := Provenance(cfg, classical, p, now)];
    }

    method Credential(p: PQProof, clientId: string) returns (binding: Option<Binding>)
      ensures binding.Some? ==> Possesses(cfg, p, clientId, binding.value)
      ensures forall b: Binding | Possesses(cfg, p, clientId, b) :: binding == Some(b)
    {
      if !p.x5c.Absent? {
        var chain := ChainFromProof(p.x5c);
        forall c: seq<Certificate> | chain.Some? && IsChain(p.x5c.value, c) ensures c == chain.value {
          SameChain(p.x5c.value, c, chain.value);
        }
        if chain.None? || !cfg.trusts(chain.value) { return None; }
        var leaf := chain.value[0];
        if !leaf.mlDsa { return None; }
        if clientId != "" && leaf.commonName != clientId { return None; }
        if leaf.key !in p.signers { return None; }
        return Some(Certified(leaf.thumbprint));
      }
      if !p.jwk.Parsed? || p.jwk.value.kty != "AKP" || p.jwk.value.key.None? { return None; }
      if p.jwk.value.key.value !in p.signers || p.jwk.value.thumbprint.None? { return None; }
      return Some(Keyed(p.jwk.value.thumbprint.value));
    }

    /**
     * The whole upgrade, with one reading of the clock per step. Nothing is minted unless
     * the classical token is granted and the proof proves possession of the new binding;
     * the proof is spent only once the classical token has been granted.
     */
    method Upgrade(r: Request, atToken: int, atProof: int, atIssue: int, jti: string) returns (minted: Option<Claims>)
      requires Separate()
      modifies validator.cache, replay
      ensures var (vc, p) := V.Decide(validator.pol, validator.algs, old(validator.cache.State()), Classical(cfg, r), atToken);
              && validator.cache.State() == vc
              && (p.None? ==> minted.None? && replay.State() == old(replay.State()))
              && (p.Some? && (forall b: Binding :: !Proves(cfg, r, p.value.clientId, b)) ==>
                    minted.None? && replay.State() == old(replay.State()))
              && (p.Some? ==> forall b: Binding | Proves(cfg, r, p.value.clientId, b) ::
                    var (c, v) := Submit(cfg.pol, old(replay.State()), Submission(ProofOf(r, b), atProof));
                    && replay.State() == c
                    && minted == if v == Accepted then Some(Token(cfg, ClaimsOf(r), p.value, b, atIssue, jti)) else None)
    {
      var granted := validator.Authorize(Classical(cfg, r), atToken);
      if granted.Denied? { return None; }
      var binding := VerifyPQProof(r, granted.principal.clientId, atProof);
      if binding.None? { return None; }
      var claims := Issue(ClaimsOf(r), granted.principal, binding.value, atIssue, jti);
      return Some(claims);
    }
  }
}
