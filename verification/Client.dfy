/** The client object: the operations that overwrite its fields, each proved against the state machine. */
module Client {
  import opened Wrappers
  import opened ClientModel

  /** The credential cell of one plane. */
  class Identity {
    var cert: Option<Credential>

    constructor ()
      ensures cert.None?
    {
      cert := None;
    }

    method Set(c: Credential)
      modifies this
      ensures cert == Some(c)
    {
      cert := Some(c);
    }
  }

  class Client {
    const cfg: Config
    const id: Identity
    const pqID: Identity
    var cached: Option<Token>
    var tokensOnCert: nat
    ghost var accepted: seq<Token>
    ghost var certificates: seq<Credential>

    /** The two planes have cells of their own. */
    ghost predicate Separate()
    {
      id != pqID
    }

    /** A cached token is bound to the credentials held now, and no accepted one was a downgrade. */
    ghost predicate Valid()
      reads this, id, pqID
    {
      Separate() && Inv(cfg, View())
    }

    ghost function View(): State
      reads this, id, pqID
    {
      State(id.cert, pqID.cert, cached, tokensOnCert, accepted, certificates)
    }

    constructor (cfg: Config)
      ensures Valid() && this.cfg == cfg && View() == NOT_STARTED && fresh(id) && fresh(pqID)
    {
      this.cfg := cfg;
      id := new Identity();
      pqID := new Identity();
      cached, tokensOnCert, accepted, certificates := None, 0, [], [];
    }

    function Cell(p: Plane): Identity { if p.PqPlane? then pqID else id }

    method Install(p: Plane, c: Credential)
      requires Separate()
      modifies this`certificates, id, pqID
      ensures View() == ClientModel.Install(cfg, old(View()), p, c)
    {
      Cell(p).Set(c);
      if p == ActivePlane(cfg) {
        certificates := certificates + [c];
      }
    }

    /** enrollLocked, when the authority answered: install, then drop what was bound before. */
    method EnrollLocked(p: Plane, reply: Option<Credential>) returns (ok: bool)
      requires Separate()
      modifies this, id, pqID
      ensures ok <==> reply.Some?
      ensures View() == if ok then Enrolled(cfg, old(View()), p, reply.value) else old(View())
    {
      if reply.None? {
        return false;
      }
      Install(p, reply.value);
      cached := None;
      tokensOnCert := 0;
      return true;
    }

    method NeedsRenewalPlaneAt(p: Plane, now: int) returns (needs: bool)
      requires Separate()
      ensures needs == NeedsRenewalPlane(cfg, View(), p, now)
    {
      var leaf := Cell(p).cert;
      needs := leaf.None? || leaf.value.notAfter - now <= Margin(cfg, p);
    }

    method NeedsRenewalAt(classicalAt: int, pqAt: int) returns (needs: bool)
      requires Separate()
      ensures needs == NeedsRenewal(cfg, View(), classicalAt, pqAt)
    {
      needs := NeedsRenewalPlaneAt(ClassicalPlane, classicalAt);
      if !needs && PqEnabled(cfg) {
        needs := NeedsRenewalPlaneAt(PqPlane, pqAt);
      }
    }

    method RotatePlaneLocked(p: Plane, env: PlaneEnv) returns (ok: bool)
      requires Separate()
      modifies this, id, pqID
      ensures (View(), ok) == RotatePlane(cfg, old(View()), p, env)
    {
      var cur := Cell(p).cert;
      if cur.None? {
        return false;
      }
      if !(env.now < cur.value.notAfter) {
        return false;
      }
      ok := EnrollLocked(p, env.reply);
    }

    method RotateLocked(env: RotateEnv) returns (ok: bool)
      requires Separate()
      modifies this, id, pqID
      ensures (View(), ok) == RotateAll(cfg, old(View()), env)
    {
      ok := RotatePlaneLocked(ClassicalPlane, env.classical);
      if !ok {
        return false;
      }
      if PqEnabled(cfg) {
        ok := RotatePlaneLocked(PqPlane, env.pq);
      }
    }

    /** Rotate renews the certificates now; failure half way leaves a valid client too. */
    method Rotate(env: RotateEnv) returns (ok: bool)
      requires Valid()
      modifies this, id, pqID
      ensures (View(), ok) == RotateAll(cfg, old(View()), env)
      ensures Valid()
    {
      ApplyKeepsInv(cfg, View(), OpRotate(env));
      ok := RotateLocked(env);
    }

    method StartIdentity(p: Plane, env: StartEnv) returns (ok: bool)
      requires Separate()
      modifies this, id, pqID
      ensures (View(), ok) == StartPlane(cfg, old(View()), p, env)
    {
      if Cell(p).cert.Some? {
        return true;
      }
      if env.onDisk.Some? && env.now < env.onDisk.value.notAfter {
        Install(p, env.onDisk.value);
        var needs := NeedsRenewalPlaneAt(p, env.check);
        if needs {
          ok := RotatePlaneLocked(p, env.renew);
          return;
        }
        return true;
      }
      if !env.hasBootstrap {
        return false;
      }
      ok := EnrollLocked(p, env.enrolled);
    }

    method StartAll(classical: StartEnv, pq: StartEnv) returns (ok: bool)
      requires Valid()
      modifies this, id, pqID
      ensures (View(), ok) == Start(cfg, old(View()), classical, pq)
      ensures Valid()
    {
      ApplyKeepsInv(cfg, View(), OpStart(classical, pq));
      ok := StartIdentity(ClassicalPlane, classical);
      if !ok {
        return false;
      }
      if PqEnabled(cfg) {
        ok := StartIdentity(PqPlane, pq);
      }
    }

    /** issueLocked of Methods A and B. */
    method IssueCertBoundLocked(env: IssueEnv) returns (tok: Option<Token>)
      requires Separate() && !cfg.binding.DPoPKey?
      modifies this
      ensures (View(), tok) == Issue(cfg, old(View()), env)
    {
      var leaf := if cfg.pq.Direct? then pqID.cert else id.cert;
      if leaf.None? || !env.first.Answer? || env.first.jws.None? {
        return None;
      }
      var t := Raw(env.first.jws.value);
      if env.first.jws.value.x5t != Some(leaf.value.thumbprint) {
        return None;
      }
      t := t.(binding := "x5t#S256", thumbprint := leaf.value.thumbprint, certNotAfter := Some(leaf.value.notAfter));
      match cfg.pq {
        case Off => tok := Some(t);
        case Direct => tok := RequirePq(t);
        case ThroughShim =>
          var pqLeaf := pqID.cert;
          if pqLeaf.None? {
            return None;
          }
          tok := Upgrade(env.shim, env.first.jws.value, "x5t#S256", pqLeaf.value.thumbprint, Some(pqLeaf.value.notAfter));
      }
      if tok.Some? {
        cached := tok;
        tokensOnCert := tokensOnCert + 1;
        accepted := accepted + [tok.value];
      }
    }

    /** issueLocked of Method C: at most one nonce demand is answered. */
    method IssueDPoPLocked(env: IssueEnv) returns (tok: Option<Token>)
      requires Separate() && cfg.binding.DPoPKey?
      modifies this
      ensures (View(), tok) == Issue(cfg, old(View()), env)
    {
      var want := if cfg.pq.Direct? then cfg.pqJkt else cfg.jkt;
      var attempt: nat := 0;
      var reply := env.first;
      while reply.NonceDemanded? && attempt == 0
        invariant attempt == 0 ==> reply == env.first
        invariant attempt > 0 ==> attempt == 1 && env.first.NonceDemanded? && reply == env.second
        decreases 1 - attempt
      {
        attempt := attempt + 1;
        reply := env.second;
      }
      if !reply.Answer? || reply.jws.None? {
        return None;
      }
      var jws := reply.jws.value;
      if jws.jkt != Some(want) || !jws.dpopType {
        return None;
      }
      var t := Raw(jws).(binding := "jkt", thumbprint := want);
      match cfg.pq {
        case Off => tok := Some(t);
        case Direct => tok := RequirePq(t);
        case ThroughShim => tok := Upgrade(env.shim, jws, "jkt", cfg.pqJkt, None);
      }
      if tok.Some? {
        cached := tok;
        accepted := accepted + [tok.value];
      }
    }

    method IssueLocked(env: IssueEnv) returns (tok: Option<Token>)
      requires Separate()
      modifies this
      ensures (View(), tok) == Issue(cfg, old(View()), env)
    {
      if cfg.binding.DPoPKey? {
        tok := IssueDPoPLocked(env);
      } else {
        tok := IssueCertBoundLocked(env);
      }
    }

    method Token(env: TokenEnv) returns (tok: Option<Token>)
      requires Valid()
      modifies this, id, pqID
      ensures (View(), tok) == GetToken(cfg, old(View()), env)
      ensures Valid() && (tok.Some? ==> WellBound(cfg, View(), tok.value))
    {
      ApplyKeepsInv(cfg, View(), OpToken(env));
      hide Issue, RotateAll, NeedsRenewal;
      var needs := NeedsRenewalAt(env.checkClassical, env.checkPq);
      if needs {
        var ok := RotateLocked(env.renew);
        if !ok {
          return None;
        }
      }
      if cached.Some? && Usable(cached.value, env.usableAt) {
        return cached;
      }
      if cfg.binding.Ephemeral? && cfg.everyToken && tokensOnCert > 0 {
        var ok := RotateLocked(env.every);
        if !ok {
          return None;
        }
      }
      tok := IssueLocked(env.issue);
    }

    method IssueTokenNow(env: TokenEnv) returns (tok: Option<Token>)
      requires Valid()
      modifies this, id, pqID
      ensures (View(), tok) == IssueToken(cfg, old(View()), env)
      ensures Valid() && (tok.Some? ==> WellBound(cfg, View(), tok.value))
    {
      ApplyKeepsInv(cfg, View(), OpIssue(env));
      hide Issue, RotateAll, NeedsRenewal;
      var needs := NeedsRenewalAt(env.checkClassical, env.checkPq);
      if needs {
        var ok := RotateLocked(env.renew);
        if !ok {
          return None;
        }
      }
      tok := IssueLocked(env.issue);
    }

    /** One tick of Maintain: the loop over the planes. */
    method MaintainTick(env: TickEnv)
      requires Valid()
      modifies this, id, pqID
      ensures View() == Tick(cfg, old(View()), env)
      ensures Valid()
    {
      ApplyKeepsInv(cfg, View(), OpTick(env));
      var planes := if PqEnabled(cfg) then [ClassicalPlane, PqPlane] else [ClassicalPlane];
      ghost var s := View();
      ghost var s1 := if NeedsRenewalPlane(cfg, s, ClassicalPlane, env.checkClassical)
                      then RotatePlane(cfg, s, ClassicalPlane, env.rotate.classical).0 else s;
      for i := 0 to |planes|
        invariant Separate()
        invariant View() == if i == 0 then s else if i == 1 then s1 else Tick(cfg, s, env)
      {
        var p := planes[i];
        var needs := NeedsRenewalPlaneAt(p, if p.PqPlane? then env.checkPq else env.checkClassical);
        if needs {
          var ok := RotatePlaneLocked(p, if p.PqPlane? then env.rotate.pq else env.rotate.classical);
        }
      }
    }
  }
}
