/**
 * The ingress gate: which authorization frames open a tunnel to the local application.
 * Token and proof texts are resolved by an environment; the gate is what is modelled.
 */
module Ingress {
  import opened Wrappers
  import opened ByteStrings
  import opened Replay
  import opened SingleUse
  import opened Records
  import V = Validator
  import Tunnel

  datatype AuthFrame = AuthFrame(version: int, clientId: string, route: string, target: string, token: string, proof: string)

  datatype Route = Route(name: string, local: string)

  /** The certificate the tunnel handshake authenticated. */
  datatype Peer = Peer(commonName: string, certificate: V.PeerCertificate)

  /**
   * What the opaque parts make of a text: the frame in a message, the trimmed token, its
   * hash and claims, the proof, whether a target is an absolute URI and the htu it stands for.
   */
  datatype Environment = Environment(
    frame: bytes -> Option<AuthFrame>, trim: string -> string, hash: string -> string,
    token: string -> Option<V.TokenClaims>, proof: string -> Option<V.ProofHeader>,
    absolute: string -> bool, htu: string -> Option<string>)

  datatype Ack = Ack(ok: bool, binding: string, code: string)

  const VERSION: int := 1
  const OPERATION := "TUNNEL"

  // ------------------------------------------------------------------ what is promised

  function IngressAuthority(authority: string, route: string): string { authority + "/" + route }

  function Target(authority: string, route: string): string { "https://" + IngressAuthority(authority, route) }

  ghost predicate Served(routes: seq<Route>, name: string) {
    exists i | 0 <= i < |routes| :: routes[i].name == name
  }

  /** A frame as the request the validator sees. */
  function AsRequest(env: Environment, f: AuthFrame, peer: Peer): V.Request {
    var token := env.trim(f.token);
    V.Request(if token == "" then None else Some(if f.proof != "" then V.DPoP else V.Bearer),
              env.token(token), env.hash(token), Some(peer.certificate),
              if f.proof != "" then [env.proof(f.proof)] else [], OPERATION, env.htu(f.target))
  }

  /** The frame is for this sidecar and a route it serves. */
  ghost predicate ForUs(env: Environment, routes: seq<Route>, authority: string, f: AuthFrame) {
    && f.version == VERSION && Served(routes, f.route) && f.target == Target(authority, f.route)
    && f.token != "" && env.absolute(f.target)
  }

  /** The caller the token names is the peer that completed the handshake, as far as both are named. */
  predicate SameCaller(clientId: string, peer: Peer) {
    clientId == "" || peer.commonName == "" || clientId == peer.commonName
  }

  /** What the gate decides, and the cache it leaves. */
  ghost function Admission(g: Setup, c: Cache, a: Arrival): (Cache, Option<V.Principal>) {
    if !ForUs(g.env, g.routes, g.authority, a.frame) then (c, None)
    else
      var (c', p) := V.Decide(g.pol, g.algs, c, AsRequest(g.env, a.frame, a.peer), a.now);
      (c', if p.Some? && SameCaller(p.value.clientId, a.peer) then p else None)
  }

  datatype Setup = Setup(env: Environment, routes: seq<Route>, authority: string, pol: Policy, algs: set<string>)

  /** A decoded frame from a peer, and the clock reading of its validation. */
  datatype Arrival = Arrival(frame: AuthFrame, peer: Peer, now: int)

  class Gate {
    const g: Setup
    const validator: V.Validator

    constructor (g: Setup, size: int)
      ensures this.g == g && validator.pol == g.pol && validator.algs == g.algs
      ensures fresh(validator) && fresh(validator.cache) && validator.cache.State() == NewCache(size)
    {
      this.g := g;
      validator := new V.Validator(g.pol, g.algs, size);
    }

    /** The first route of that name. */
    method IngressTarget(name: string) returns (local: Option<string>)
      ensures local.Some? <==> Served(g.routes, name)
      ensures local.Some? ==> exists i | 0 <= i < |g.routes| ::
                && g.routes[i] == Route(name, local.value)
                && forall k | 0 <= k < i :: g.routes[k].name != name
    {
      for i := 0 to |g.routes|
        invariant forall k | 0 <= k < i :: g.routes[k].name != name
      {
        if g.routes[i].name == name {
          return Some(g.routes[i].local);
        }
      }
      return None;
    }

    /** AuthorizeChannel: the same checks as for a request, against the tunnel peer. */
    method AuthorizeChannel(f: AuthFrame, peer: Peer, now: int) returns (result: V.Result)
      requires validator.pol == g.pol && validator.algs == g.algs
      modifies validator.cache
      ensures f.token == "" || !g.env.absolute(f.target) ==>
                result.Denied? && validator.cache.State() == old(validator.cache.State())
      ensures f.token != "" && g.env.absolute(f.target) ==>
                (validator.cache.State(), if result.Granted? then Some(result.principal) else None)
                == V.Decide(g.pol, g.algs, old(validator.cache.State()), AsRequest(g.env, f, peer), now)
    {
      if f.token == "" { return V.Denied(V.AuthorizationRejected); }
      if !g.env.absolute(f.target) { return V.Denied(V.HtuMismatch); }
      result := validator.Authorize(AsRequest(g.env, f, peer), now);
    }

    /**
     * The reply to a frame. It accepts exactly when the gate admits the caller; a proof is
     * spent by any frame for this sidecar that the validator accepts, admitted or not.
     */
    method Accept(message: bytes, peer: Peer, now: int) returns (ack: Ack)
      requires validator.pol == g.pol && validator.algs == g.algs
      modifies validator.cache
      ensures g.env.frame(message).None? ==> !ack.ok && validator.cache.State() == old(validator.cache.State())
      ensures g.env.frame(message).Some? ==>
                var (c, p) := Admission(g, old(validator.cache.State()), Arrival(g.env.frame(message).value, peer, now));
                && validator.cache.State() == c
                && (ack.ok <==> p.Some?)
                && (ack.ok ==> ack.binding == p.value.binding)
      // The first check that fails is the one that is reported.
      ensures ack.code == "authorization_frame_malformed" <==> g.env.frame(message).None?
      ensures g.env.frame(message).Some? ==>
                var f := g.env.frame(message).value;
                && (ack.code == "authorization_frame_version" <==> f.version != 1)
                && (ack.code == "route_unknown" <==> f.version == 1 && forall i | 0 <= i < |g.routes| :: g.routes[i].name != f.route)
                && (ack.code == "channel_target_mismatch" <==>
                      && f.version == 1 && (exists i | 0 <= i < |g.routes| :: g.routes[i].name == f.route)
                      && f.target != "https://" + g.authority + "/" + f.route)
    {
      var decoded := g.env.frame(message);
      if decoded.None? { return Ack(false, "", "authorization_frame_malformed"); }
      var frame := decoded.value;
      if frame.version != VERSION { return Ack(false, "", "authorization_frame_version"); }
      var local := IngressTarget(frame.route);
      if local.None? { return Ack(false, "", "route_unknown"); }
      if frame.target != "https://" + IngressAuthority(g.authority, frame.route) { return Ack(false, "", "channel_target_mismatch"); }
      var result := AuthorizeChannel(frame, peer, now);
      match result
      case Denied(_) => return Ack(false, "", "rejected");
      case Granted(p) =>
        if p.clientId != "" && peer.commonName != "" && p.clientId != peer.commonName {
          return Ack(false, "", "peer_identity_mismatch");
        }
        return Ack(true, p.binding, "");
    }
  }

  // ------------------------------------------------------------------------ whole runs

  ghost function AfterAll(g: Setup, c: Cache, arrivals: seq<Arrival>): Cache
    decreases arrivals
  {
    if arrivals == [] then c else AfterAll(g, Admission(g, c, arrivals[0]).0, arrivals[1..])
  }

  /** Whom the gate lets in, arrival by arrival. */
  ghost function Admitted(g: Setup, c: Cache, arrivals: seq<Arrival>): (r: seq<Option<V.Principal>>)
    ensures |r| == |arrivals|
    decreases arrivals
  {
    if arrivals == [] then []
    else [Admission(g, c, arrivals[0]).1] + Admitted(g, Admission(g, c, arrivals[0]).0, arrivals[1..])
  }

  ghost predicate ReachesCache(g: Setup, a: Arrival) {
    && ForUs(g.env, g.routes, g.authority, a.frame)
    && var r := AsRequest(g.env, a.frame, a.peer);
       V.StaticallyOk(g.algs, r) && r.token.value.cnf.jkt.Text?
  }

  ghost function SubmissionOf(g: Setup, a: Arrival): Submission
    requires ReachesCache(g, a)
  {
    var r := AsRequest(g.env, a.frame, a.peer);
    Submission(V.SubmittedProof(g.algs, r, r.token.value.cnf.jkt.text), a.now)
  }

  /** The proofs the gate hands to the replay cache, in order. */
  ghost function Spent(g: Setup, arrivals: seq<Arrival>): seq<Submission>
    decreases arrivals
  {
    if arrivals == [] then []
    else (if ReachesCache(g, arrivals[0]) then [SubmissionOf(g, arrivals[0])] else []) + Spent(g, arrivals[1..])
  }

  lemma AdmissionSubmits(g: Setup, c: Cache, a: Arrival)
    ensures !ReachesCache(g, a) ==> Admission(g, c, a).0 == c
    ensures ReachesCache(g, a) ==>
              var (c', v) := Submit(g.pol, c, SubmissionOf(g, a));
              Admission(g, c, a).0 == c' && (Admission(g, c, a).1.Some? ==> v == Accepted)
  {
    hide Submit, V.StaticallyOk;
  }

  /** Every admission by a key is an acceptance of its proof by the cache. */
  lemma {:induction false} AdmittedWasAccepted(g: Setup, c: Cache, arrivals: seq<Arrival>, j: nat)
    requires j < |arrivals| && ReachesCache(g, arrivals[j]) && Admitted(g, c, arrivals)[j].Some?
    ensures exists k | 0 <= k < |Spent(g, arrivals)| ::
              && Verdicts(g.pol, c, Spent(g, arrivals))[k] == Accepted
              && Spent(g, arrivals)[k] == SubmissionOf(g, arrivals[j])
    decreases arrivals
  {
    hide Submit, ReachesCache, SubmissionOf, Admission;
    var spent, rest := Spent(g, arrivals), Spent(g, arrivals[1..]);
    var c' := Admission(g, c, arrivals[0]).0;
    AdmissionSubmits(g, c, arrivals[0]);
    if j == 0 {
      assert Verdicts(g.pol, c, spent)[0] == Accepted && spent[0] == SubmissionOf(g, arrivals[0]);
    } else {
      AdmittedWasAccepted(g, c', arrivals[1..], j - 1);
      var k :| 0 <= k < |rest| && Verdicts(g.pol, c', rest)[k] == Accepted && rest[k] == SubmissionOf(g, arrivals[j]);
      if ReachesCache(g, arrivals[0]) {
        assert spent[1..] == rest;
        assert Verdicts(g.pol, c, spent)[k + 1] == Accepted && spent[k + 1] == rest[k];
      } else {
        assert spent == rest;
      }
    }
  }

  lemma {:induction false} AdmittedIsFit(g: Setup, c: Cache, arrivals: seq<Arrival>, j: nat)
    requires j < |arrivals| && Admitted(g, c, arrivals)[j].Some?
    ensures exists c' :: Admission(g, c', arrivals[j]).1 == Admitted(g, c, arrivals)[j]
    decreases arrivals
  {
    hide Admission;
    if j > 0 {
      AdmittedIsFit(g, Admission(g, c, arrivals[0]).0, arrivals[1..], j - 1);
    }
  }

  /** What an admitted connection has shown. */
  ghost predicate Shown(g: Setup, a: Arrival, p: V.Principal) {
    && ForUs(g.env, g.routes, g.authority, a.frame) && SameCaller(p.clientId, a.peer)
    && var r := AsRequest(g.env, a.frame, a.peer);
       && V.StaticallyOk(g.algs, r)
       && p.clientId == r.token.value.clientId
       && (p.binding == "x5t#S256" ==> a.peer.certificate.chainOk && a.peer.certificate.thumbprint == p.thumbprint)
       && (p.binding != "x5t#S256" ==> p.binding == "jkt" && V.ProofFits(g.algs, r, p.thumbprint))
  }

  lemma AdmissionShows(g: Setup, c: Cache, a: Arrival)
    ensures var p := Admission(g, c, a).1; p.Some? ==> Shown(g, a, p.value)
  {
    hide Submit;
  }

  /**
   * The gate over any run: whoever is admitted addressed this sidecar and a route it
   * serves, holds the certificate the token names or signed a proof for this token, this
   * target and a tunnel, and is the handshake's peer; and no proof opens two tunnels.
   */
  lemma GateOverRuns(g: Setup, c: Cache, arrivals: seq<Arrival>, lag: int)
    requires LagAtMost(Spent(g, arrivals), lag) && 0 <= lag < g.pol.skew
    ensures var admitted := Admitted(g, c, arrivals);
            && (forall j | 0 <= j < |arrivals| && admitted[j].Some? :: Shown(g, arrivals[j], admitted[j].value))
            && (forall i, j | 0 <= i < j < |arrivals| && admitted[i].Some? && admitted[j].Some?
                   && ReachesCache(g, arrivals[i]) && ReachesCache(g, arrivals[j]) ::
                   SubmissionOf(g, arrivals[i]).proof != SubmissionOf(g, arrivals[j]).proof)
  {
    hide Admission, Shown, ReachesCache, SubmissionOf, Submit;
    var admitted := Admitted(g, c, arrivals);
    forall j | 0 <= j < |arrivals| && admitted[j].Some? ensures Shown(g, arrivals[j], admitted[j].value) {
      AdmittedIsFit(g, c, arrivals, j);
      var c' :| Admission(g, c', arrivals[j]).1 == admitted[j];
      AdmissionShows(g, c', arrivals[j]);
    }
    forall i, j | 0 <= i < j < |arrivals| && admitted[i].Some? && admitted[j].Some?
                  && ReachesCache(g, arrivals[i]) && ReachesCache(g, arrivals[j])
      ensures SubmissionOf(g, arrivals[i]).proof != SubmissionOf(g, arrivals[j]).proof
    {
      AdmittedTwice(g, c, arrivals, i, j, lag);
    }
  }

  lemma {:induction false} AdmittedTwice(g: Setup, c: Cache, arrivals: seq<Arrival>, i: nat, j: nat, lag: int)
    requires LagAtMost(Spent(g, arrivals), lag) && 0 <= lag < g.pol.skew
    requires i < j < |arrivals| && Admitted(g, c, arrivals)[i].Some? && Admitted(g, c, arrivals)[j].Some?
    requires ReachesCache(g, arrivals[i]) && ReachesCache(g, arrivals[j])
    ensures SubmissionOf(g, arrivals[i]).proof != SubmissionOf(g, arrivals[j]).proof
    decreases arrivals
  {
    if i > 0 {
      RestLags(g, arrivals, lag);
      hide Admission, ReachesCache, SubmissionOf, Submit, LagAtMost, Spent;
      AdmittedTwice(g, Admission(g, c, arrivals[0]).0, arrivals[1..], i - 1, j - 1, lag);
    } else {
      AdmittedFirst(g, c, arrivals, j, lag);
    }
  }

  lemma RestLags(g: Setup, arrivals: seq<Arrival>, lag: int)
    requires arrivals != [] && LagAtMost(Spent(g, arrivals), lag)
    ensures LagAtMost(Spent(g, arrivals[1..]), lag)
  {
    hide ReachesCache, SubmissionOf;
    var spent, rest := Spent(g, arrivals), Spent(g, arrivals[1..]);
    if ReachesCache(g, arrivals[0]) {
      assert forall m | 0 <= m < |rest| :: rest[m] == spent[m + 1];
    } else {
      assert spent == rest;
    }
  }

  lemma AdmittedFirst(g: Setup, c: Cache, arrivals: seq<Arrival>, j: nat, lag: int)
    requires LagAtMost(Spent(g, arrivals), lag) && 0 <= lag < g.pol.skew
    requires 0 < j < |arrivals| && Admitted(g, c, arrivals)[0].Some? && Admitted(g, c, arrivals)[j].Some?
    requires ReachesCache(g, arrivals[0]) && ReachesCache(g, arrivals[j])
    ensures SubmissionOf(g, arrivals[0]).proof != SubmissionOf(g, arrivals[j]).proof
  {
    var c', first, rest := Admission(g, c, arrivals[0]).0, SubmissionOf(g, arrivals[0]), Spent(g, arrivals[1..]);
    AdmissionSubmits(g, c, arrivals[0]);
    assert Spent(g, arrivals) == [first] + rest;
    hide Admission, ReachesCache, SubmissionOf, Submit, LagAtMost;
    AdmittedWasAccepted(g, c', arrivals[1..], j - 1);
    var k :| 0 <= k < |rest| && Verdicts(g.pol, c', rest)[k] == Accepted && rest[k] == SubmissionOf(g, arrivals[j]);
    hide Verdicts, Spent;
    FirstAndLater(g.pol, c, first, rest, k, lag);
  }

  // ------------------------------------------------------ the decision, field by field

  /** An admitted frame is a frame of this version for a served route of this very sidecar. */
  lemma AdmittedTarget(g: Setup, c: Cache, a: Arrival)
    requires Admission(g, c, a).1.Some?
    ensures a.frame.version == 1
    ensures exists i | 0 <= i < |g.routes| :: g.routes[i].name == a.frame.route
    ensures a.frame.target == "https://" + g.authority + "/" + a.frame.route
  {
    hide V.Decide;
    assert ("https://" + (g.authority + "/" + a.frame.route)) == "https://" + g.authority + "/" + a.frame.route;
  }

  /** So one target is one route: a proof minted for a route opens no other. */
  lemma OneTargetOneRoute(g: Setup, c: Cache, a: Arrival, c': Cache, b: Arrival)
    requires Admission(g, c, a).1.Some? && Admission(g, c', b).1.Some? && a.frame.target == b.frame.target
    ensures a.frame.route == b.frame.route
  {
    AdmittedTarget(g, c, a);
    AdmittedTarget(g, c', b);
    var prefix := "https://" + g.authority + "/";
    assert a.frame.route == a.frame.target[|prefix|..] == b.frame.target[|prefix|..] == b.frame.route;
  }

  /** A route of the peer's egress sidecar: its name, and the authority it connects to. */
  datatype EgressRoute = EgressRoute(name: string, peer: string)

  /** The frame the egress builds for its route: version, route and target are its own, the rest the token's. */
  method BuildAuthFrame(r: EgressRoute, clientId: string, token: string, proof: string) returns (f: AuthFrame)
    ensures f.version == 1 && f.route == r.name && f.target == "https://" + r.peer + "/" + r.name
    ensures f.clientId == clientId && f.token == token && f.proof == proof
  {
    f := AuthFrame(VERSION, clientId, r.name, "https://" + r.peer + "/" + r.name, token, proof);
  }

  /**
   * What an egress builds for its peer is what that peer's ingress demands: a frame for a
   * route served there is taken as one for it if and only if the egress connects to that
   * ingress's own authority, and the token and the target are not empty.
   */
  lemma EgressFrameIsForIts(g: Setup, r: EgressRoute, f: AuthFrame)
    requires f.version == 1 && f.route == r.name && f.target == "https://" + r.peer + "/" + r.name
    requires exists i | 0 <= i < |g.routes| :: g.routes[i].name == r.name
    ensures ForUs(g.env, g.routes, g.authority, f) <==> r.peer == g.authority && f.token != "" && g.env.absolute(f.target)
  {
    var tail := "/" + r.name;
    assert Target(g.authority, r.name) == "https://" + (g.authority + tail);
    assert f.target == "https://" + (r.peer + tail);
    if f.target == Target(g.authority, r.name) {
      assert r.peer + tail == f.target[8..] == g.authority + tail;
      assert r.peer == (r.peer + tail)[..|r.peer + tail| - |tail|] == g.authority;
    }
  }

  /** Admission with a token bound to a certificate: every condition, in the terms of the frame. */
  lemma AdmittedByCertificateIff(g: Setup, c: Cache, a: Arrival)
    requires var token := g.env.token(g.env.trim(a.frame.token));
             token.Some? && token.value.cnf.CnfObject? && token.value.cnf.x5t.Text? && token.value.cnf.jkt.Missing?
    ensures var (f, token) := (a.frame, g.env.token(g.env.trim(a.frame.token)).value);
            Admission(g, c, a).1.Some? <==>
              && f.version == 1 && (exists i | 0 <= i < |g.routes| :: g.routes[i].name == f.route)
              && f.target == "https://" + g.authority + "/" + f.route && g.env.absolute(f.target)
              && f.token != "" && g.env.trim(f.token) != "" && f.proof == "" && token.authorized
              && a.peer.certificate.chainOk && a.peer.certificate.thumbprint == token.cnf.x5t.text
              && (token.clientId == "" || a.peer.commonName == "" || token.clientId == a.peer.commonName)
  {
    V.CertificateTokenGrantedIff(g.pol, g.algs, c, AsRequest(g.env, a.frame, a.peer), a.now);
    hide V.Decide;
    assert ("https://" + (g.authority + "/" + a.frame.route)) == "https://" + g.authority + "/" + a.frame.route;
  }

  /** And with a token bound to a key: the one proof is by that key, for this token, a tunnel and this target. */
  lemma AdmittedByKeyIff(g: Setup, c: Cache, a: Arrival)
    requires var token := g.env.token(g.env.trim(a.frame.token));
             token.Some? && token.value.cnf.CnfObject? && token.value.cnf.x5t.Missing? && token.value.cnf.jkt.Text?
    ensures var (f, token) := (a.frame, g.env.token(g.env.trim(a.frame.token)).value);
            var jkt := token.cnf.jkt.text;
            Admission(g, c, a).1.Some? <==>
              && f.version == 1 && (exists i | 0 <= i < |g.routes| :: g.routes[i].name == f.route)
              && f.target == "https://" + g.authority + "/" + f.route && g.env.absolute(f.target)
              && f.token != "" && g.env.trim(f.token) != "" && f.proof != "" && token.authorized
              && (token.clientId == "" || a.peer.commonName == "" || token.clientId == a.peer.commonName)
              && g.env.proof(f.proof).Some?
              && var proof := g.env.proof(f.proof).value;
                 && proof.typ == "dpop+jwt" && (g.algs == {} || proof.alg in g.algs)
                 && proof.key.Some? && proof.key.value.usable && proof.key.value.verifies
                 && proof.key.value.thumbprint == Some(jkt)
                 && proof.claims.Some?
                 && var claims := proof.claims.value;
                    && claims.ath == g.env.hash(g.env.trim(f.token)) && claims.ath != "" && claims.htm == "TUNNEL"
                    && claims.htu.Some? && claims.htu == g.env.htu(f.target) && claims.jti != "" && claims.iat.Some?
                    && var iat := claims.iat.value * 1_000_000_000;
                       && a.now - g.pol.window - g.pol.skew <= iat <= a.now + g.pol.skew
                       && CheckAndStore(c, Op(jkt + ":" + claims.jti, iat + g.pol.window + 2 * g.pol.skew, a.now)).1.Fresh?
  {
    V.KeyTokenGrantedIff(g.pol, g.algs, c, AsRequest(g.env, a.frame, a.peer), a.now);
    hide V.Decide, CheckAndStore;
    assert ("https://" + (g.authority + "/" + a.frame.route)) == "https://" + g.authority + "/" + a.frame.route;
  }

  // ---------------------------------------------------------- the gate and its tunnel

  /** The gate as the tunnel of one connection meets it, with the cache of that moment. */
  ghost predicate Opens(g: Setup, c: Cache, peer: Peer, now: int, message: bytes) {
    g.env.frame(message).Some? && Admission(g, c, Arrival(g.env.frame(message).value, peer, now)).1.Some?
  }

  /**
   * Composition: on a connection whose ingress answers with Accept, application bytes move
   * in either direction only if the frame that this very egress wrote shows everything the
   * gate demands of this very peer.
   */
  lemma AuthorizedStream(g: Setup, c: Cache, peer: Peer, now: int, gate: Tunnel.Gate,
                         d1: Direction, d2: Direction, es: seq<Tunnel.Event>)
    requires forall m :: gate.accepts(m) <==> Opens(g, c, peer, now, m)
    requires d1.Valid() && d2.Valid() && Tunnel.ValidRun(gate, d1, d2, Tunnel.UNCONNECTED, es)
    ensures var s := Tunnel.Run(d1, d2, Tunnel.UNCONNECTED, es);
            s.c2s.out != [] || s.s2c.out != [] || s.c2s.payload != [] || s.s2c.payload != [] ==>
              && s.c2s.control.Some? && g.env.frame(s.c2s.control.value).Some?
              && exists p :: Shown(g, Arrival(g.env.frame(s.c2s.control.value).value, peer, now), p)
  {
    Tunnel.TunnelledStream(gate, d1, d2, es);
    hide Tunnel.Run, Tunnel.ValidRun, Shown, Admission;
    var s := Tunnel.Run(d1, d2, Tunnel.UNCONNECTED, es);
    if s.c2s.control.Some? && g.env.frame(s.c2s.control.value).Some? {
      var a := Arrival(g.env.frame(s.c2s.control.value).value, peer, now);
      AdmissionShows(g, c, a);
    }
  }
}
