/** The enrollment authority: one issuing path, and the tree of certificates it grows. */
module Enrollment {
  import opened Wrappers
  import Ledger

  datatype KeyFamily = ClassicalKey | PostQuantumKey

  /** A certificate as the authority reads it; credential holds the ledger's view. */
  datatype Certificate = Certificate(credential: Ledger.Credential, dnsNames: seq<string>, notAfter: int)
  {
    function CommonName(): string { credential.commonName }
  }

  datatype Profile = Bootstrap | Renew

  /** The lifetime parameter: absent, unparseable, or a duration. */
  datatype LifetimeParam = Unset | Unparseable | Given(duration: int)

  datatype Csr = Csr(family: KeyFamily, dnsNames: seq<string>)

  /** A request once TLS and parsing are done; chainOk is VerifyChain against the endpoint's pool. */
  datatype Request = Request(caller: Option<Certificate>, chainOk: bool, lifetime: LifetimeParam, csr: Option<Csr>)

  datatype Config = Config(defaultLifetime: int, minLifetime: int, maxLifetime: int, allowedSuffixes: seq<string>,
                           classicalNotAfter: int, pqNotAfter: Option<int>)

  /** What is issued: the template's fields that the policy constrains. */
  datatype Issued = Issued(commonName: string, dnsNames: seq<string>, family: KeyFamily, issuedAt: int, notAfter: int)

  datatype Refusal =
    | CertificateMissing | CertificateRejected | IdentityInvalid | LifetimeInvalid | LifetimeOutOfPolicy
    | CsrRejected | KeyNotAllowed | LifetimeExceedsIssuer | DnsNotAuthorized | BootstrapReused
    | Internal  // the random source or the signature failed

  datatype Result = Ok(cert: Issued) | Refused(why: Refusal)

  // --------------------------------------------------------------------------- policy

  predicate LowerAlnum(ch: char) { 'a' <= ch <= 'z' || '0' <= ch <= '9' }

  /** identityPattern: 1 to 63 characters, alphanumeric at both ends, dashes inside. */
  predicate ValidIdentity(cn: string) {
    && 1 <= |cn| <= 63
    && LowerAlnum(cn[0]) && LowerAlnum(cn[|cn| - 1])
    && forall i | 0 <= i < |cn| :: LowerAlnum(cn[i]) || cn[i] == '-'
  }

  predicate HasSuffix(name: string, suffix: string) {
    |suffix| <= |name| && name[|name| - |suffix|..] == suffix
  }

  ghost predicate SuffixAllowed(cfg: Config, name: string) {
    cfg.allowedSuffixes == [] || exists i | 0 <= i < |cfg.allowedSuffixes| :: HasSuffix(name, cfg.allowedSuffixes[i])
  }

  ghost predicate DnsGranted(cfg: Config, granted: seq<string>, name: string) {
    name in granted && SuffixAllowed(cfg, name)
  }

  function ChosenLifetime(cfg: Config, p: LifetimeParam): Option<int> {
    match p
    case Unset => Some(cfg.defaultLifetime)
    case Unparseable => None
    case Given(d) => Some(d)
  }

  /** branchFor: the branch's own NotAfter, None when there is no such branch. */
  function BranchNotAfter(cfg: Config, family: KeyFamily): Option<int> {
    if family.PostQuantumKey? then cfg.pqNotAfter else Some(cfg.classicalNotAfter)
  }

  /** Everything the authority demands except that a bootstrap credential be unused. */
  ghost predicate Permitted(cfg: Config, r: Request, now: int) {
    && r.caller.Some? && r.chainOk && ValidIdentity(r.caller.value.CommonName())
    && ChosenLifetime(cfg, r.lifetime).Some?
    && var lifetime := ChosenLifetime(cfg, r.lifetime).value;
       && cfg.minLifetime <= lifetime <= cfg.maxLifetime
       && r.csr.Some?
       && var branch := BranchNotAfter(cfg, r.csr.value.family);
          && branch.Some? && now + lifetime <= branch.value
          && forall i | 0 <= i < |r.csr.value.dnsNames| ::
               DnsGranted(cfg, r.caller.value.dnsNames, r.csr.value.dnsNames[i])
  }

  ghost function TheCertificate(cfg: Config, r: Request, now: int): Issued
    requires Permitted(cfg, r, now)
  {
    Issued(r.caller.value.CommonName(), r.csr.value.dnsNames, r.csr.value.family,
           now, now + ChosenLifetime(cfg, r.lifetime).value)
  }

  /** The lifetime a request gets: the one it asks for, or the default if it asks for none. */
  predicate Asks(cfg: Config, r: Request, lifetime: int) {
    (r.lifetime.Unset? && lifetime == cfg.defaultLifetime) || r.lifetime == Given(lifetime)
  }

  /** A DNS name is granted if the caller has it and, where suffixes are configured, it ends with one of them. */
  lemma DnsGrantedIff(cfg: Config, granted: seq<string>, name: string)
    ensures DnsGranted(cfg, granted, name) <==>
              && name in granted
              && (cfg.allowedSuffixes == [] ||
                  exists prefix: string, suffix: string :: suffix in cfg.allowedSuffixes && name == prefix + suffix)
  {
    if name in granted && cfg.allowedSuffixes != [] {
      if SuffixAllowed(cfg, name) {
        var i :| 0 <= i < |cfg.allowedSuffixes| && HasSuffix(name, cfg.allowedSuffixes[i]);
        var suffix := cfg.allowedSuffixes[i];
        assert name == name[..|name| - |suffix|] + suffix && suffix in cfg.allowedSuffixes;
      }
      forall prefix: string, suffix: string | suffix in cfg.allowedSuffixes && name == prefix + suffix ensures SuffixAllowed(cfg, name) {
        var i :| 0 <= i < |cfg.allowedSuffixes| && cfg.allowedSuffixes[i] == suffix;
        assert HasSuffix(name, cfg.allowedSuffixes[i]);
      }
    }
  }

  /** What policy permits, in the terms of the request and the configuration. */
  lemma PermittedIff(cfg: Config, r: Request, now: int)
    ensures Permitted(cfg, r, now) <==>
              && r.caller.Some? && r.chainOk && r.csr.Some?
              && 1 <= |r.caller.value.CommonName()| <= 63
              && (forall i | 0 <= i < |r.caller.value.CommonName()| ::
                    || 'a' <= r.caller.value.CommonName()[i] <= 'z' || '0' <= r.caller.value.CommonName()[i] <= '9'
                    || (r.caller.value.CommonName()[i] == '-' && 0 < i < |r.caller.value.CommonName()| - 1))
              && (exists lifetime | Asks(cfg, r, lifetime) ::
                    && cfg.minLifetime <= lifetime <= cfg.maxLifetime
                    && (r.csr.value.family.ClassicalKey? ==> now + lifetime <= cfg.classicalNotAfter)
                    && (r.csr.value.family.PostQuantumKey? ==> cfg.pqNotAfter.Some? && now + lifetime <= cfg.pqNotAfter.value))
              && (forall i | 0 <= i < |r.csr.value.dnsNames| :: DnsGranted(cfg, r.caller.value.dnsNames, r.csr.value.dnsNames[i]))
  {
    if ChosenLifetime(cfg, r.lifetime).Some? {
      assert Asks(cfg, r, ChosenLifetime(cfg, r.lifetime).value);
    }
    assert forall lifetime | Asks(cfg, r, lifetime) :: ChosenLifetime(cfg, r.lifetime) == Some(lifetime);
    if r.caller.Some? { IdentityIff(r.caller.value.CommonName()); }
    hide DnsGranted, ValidIdentity;
  }

  lemma IdentityIff(cn: string)
    ensures ValidIdentity(cn) <==>
              && 1 <= |cn| <= 63
              && (forall i | 0 <= i < |cn| ::
                    'a' <= cn[i] <= 'z' || '0' <= cn[i] <= '9' || (cn[i] == '-' && 0 < i < |cn| - 1))
  {
  }

  /** And what it then issues: to the caller, for the names and key of the request, from now for what was asked. */
  lemma IssuedAsAsked(cfg: Config, r: Request, now: int)
    requires Permitted(cfg, r, now)
    ensures var c := TheCertificate(cfg, r, now);
            && c.commonName == r.caller.value.credential.commonName
            && c.dnsNames == r.csr.value.dnsNames && c.family == r.csr.value.family && c.issuedAt == now
            && (r.lifetime.Unset? ==> c.notAfter == now + cfg.defaultLifetime)
            && (r.lifetime.Given? ==> c.notAfter == now + r.lifetime.duration)
            && !r.lifetime.Unparseable?
  {
  }

  method DnsSuffixAllowed(cfg: Config, name: string) returns (ok: bool)
    ensures ok <==> SuffixAllowed(cfg, name)
  {
    if |cfg.allowedSuffixes| == 0 {
      return true;
    }
    for i := 0 to |cfg.allowedSuffixes|
      invariant forall k | 0 <= k < i :: !HasSuffix(name, cfg.allowedSuffixes[k])
    {
      if HasSuffix(name, cfg.allowedSuffixes[i]) {
        return true;
      }
    }
    return false;
  }

  class Server {
    const cfg: Config
    const ledger: Ledger.UsedCredentials

    constructor (cfg: Config, ledger: Ledger.UsedCredentials)
      ensures this.cfg == cfg && this.ledger == ledger
    {
      this.cfg, this.ledger := cfg, ledger;
    }

    /**
     * The issuing path of both endpoints. A renewal is granted exactly when policy permits
     * it and it can be signed; a bootstrap also needs an unused credential, durably consumed
     * first, and stays consumed if the signature then fails. A request that policy does not
     * permit never costs its credential.
     */
    method Issue(r: Request, p: Profile, now: int, stamp: string, signs: bool) returns (result: Result)
      modifies ledger`used, ledger.file
      ensures result.Ok? ==> signs && Permitted(cfg, r, now) && result.cert == TheCertificate(cfg, r, now)
      ensures result == Refused(Internal) ==> !signs && Permitted(cfg, r, now)
      ensures result.Refused? && result.why != BootstrapReused && result.why != Internal ==> !Permitted(cfg, r, now)
      ensures p.Renew? || !Permitted(cfg, r, now) ==>
                ledger.used == old(ledger.used) && ledger.file.text == old(ledger.file.text)
      ensures p.Renew? ==> (result.Ok? <==> signs && Permitted(cfg, r, now)) && result != Refused(BootstrapReused)
      ensures p.Bootstrap? && (result.Ok? || result == Refused(Internal)) ==>
                var key := Ledger.CredentialKey(r.caller.value.credential);
                && key !in old(ledger.used) && ledger.used == old(ledger.used) + {key}
                && ledger.file.synced == |ledger.file.text|
                && ledger.file.text == old(ledger.file.text) +
                   Ledger.Line(Ledger.Entry(key, r.caller.value.CommonName(), stamp))
      ensures p.Bootstrap? && result.Refused? && result != Refused(Internal) ==> ledger.used == old(ledger.used)
      // The key's family selects the branch: there is always one for a classical key.
      ensures r.csr.Some? && r.csr.value.family.ClassicalKey? ==> result != Refused(KeyNotAllowed)
      ensures result == Refused(KeyNotAllowed) ==> r.csr.Some? && r.csr.value.family.PostQuantumKey? && cfg.pqNotAfter.None?
      ensures r.csr.Some? && r.csr.value.family.PostQuantumKey? && cfg.pqNotAfter.None? ==> result.Refused?
    {
      if r.caller.None? { return Refused(CertificateMissing); }
      var caller := r.caller.value;
      if !r.chainOk { return Refused(CertificateRejected); }
      var identity := caller.CommonName();
      if !ValidIdentity(identity) { return Refused(IdentityInvalid); }
      var lifetime := cfg.defaultLifetime;
      if !r.lifetime.Unset? {
        if r.lifetime.Unparseable? { return Refused(LifetimeInvalid); }
        lifetime := r.lifetime.duration;
      }
      if lifetime < cfg.minLifetime || lifetime > cfg.maxLifetime { return Refused(LifetimeOutOfPolicy); }
      var notAfter := now + lifetime;
      if r.csr.None? { return Refused(CsrRejected); }
      var csr := r.csr.value;
      var branch := BranchNotAfter(cfg, csr.family);
      if branch.None? { return Refused(KeyNotAllowed); }
      if notAfter > branch.value { return Refused(LifetimeExceedsIssuer); }
      for i := 0 to |csr.dnsNames|
        invariant forall k | 0 <= k < i :: DnsGranted(cfg, caller.dnsNames, csr.dnsNames[k])
        invariant ledger.used == old(ledger.used) && ledger.file.text == old(ledger.file.text)
      {
        var allowed := DnsSuffixAllowed(cfg, csr.dnsNames[i]);
        if csr.dnsNames[i] !in caller.dnsNames || !allowed { return Refused(DnsNotAuthorized); }
      }
      if p.Bootstrap? {
        var ok := ledger.Consume(caller.credential, stamp);
        if !ok { return Refused(BootstrapReused); }
      }
      if !signs { return Refused(Internal); }
      return Ok(Issued(identity, csr.dnsNames, csr.family, now, notAfter));
    }
  }

  // ------------------------------------------------------------------ the issuance tree

  /** Where a certificate came from: a bootstrap credential, or the certificate it renewed. */
  datatype Parent = FromBootstrap(boot: Certificate) | Renews(index: nat)

  datatype Node = Node(cert: Issued, parent: Parent)

  /** The ledger, and every certificate ever issued, oldest first. */
  datatype World = World(ledger: Ledger.State, nodes: seq<Node>)

  const NO_CERTIFICATES: World := World(Ledger.NEW_LEDGER, [])

  datatype Event =
    | LedgerEvent(e: Ledger.Event)  // crashes, reopenings, and consumptions that led to no certificate
    | Enroll(r: Request, now: int, stamp: string)
    | RenewNode(index: nat, r: Request, now: int)

  function EntryFor(c: Certificate, stamp: string): Ledger.Entry {
    Ledger.Entry(Ledger.CredentialKey(c.credential), c.CommonName(), stamp)
  }

  /** The caller of a renewal holds a certificate this authority signed. */
  predicate Holds(caller: Certificate, cert: Issued) {
    caller.CommonName() == cert.commonName && caller.dnsNames == cert.dnsNames
  }

  ghost predicate Enabled(cfg: Config, w: World, e: Event) {
    match e
    case LedgerEvent(l) => Ledger.Enabled(w.ledger, l)
    case Enroll(r, now, stamp) =>
      && Permitted(cfg, r, now)
      && Ledger.Enabled(w.ledger, Ledger.Consume(EntryFor(r.caller.value, stamp)))
    case RenewNode(index, r, now) =>
      index < |w.nodes| && Permitted(cfg, r, now) && Holds(r.caller.value, w.nodes[index].cert)
  }

  ghost function Apply(cfg: Config, w: World, e: Event): World
    requires Enabled(cfg, w, e)
  {
    match e
    case LedgerEvent(l) => w.(ledger := Ledger.Apply(w.ledger, l))
    case Enroll(r, now, stamp) =>
      World(Ledger.Apply(w.ledger, Ledger.Consume(EntryFor(r.caller.value, stamp))),
            w.nodes + [Node(TheCertificate(cfg, r, now), FromBootstrap(r.caller.value))])
    case RenewNode(index, r, now) =>
      w.(nodes := w.nodes + [Node(TheCertificate(cfg, r, now), Renews(index))])
  }

  ghost predicate ValidRun(cfg: Config, w: World, es: seq<Event>)
    decreases es
  {
    es == [] || (Enabled(cfg, w, es[0]) && ValidRun(cfg, Apply(cfg, w, es[0]), es[1..]))
  }

  ghost function Run(cfg: Config, w: World, es: seq<Event>): World
    requires ValidRun(cfg, w, es)
    decreases es
  {
    if es == [] then w else Run(cfg, Apply(cfg, w, es[0]), es[1..])
  }

  /** No enrolment, and no consumption that led to no certificate, goes onto a line that hides it. */
  ghost predicate Unhidden(cfg: Config, w: World, e: Event)
    requires Enabled(cfg, w, e)
  {
    match e
    case LedgerEvent(l) => Ledger.Unhidden(w.ledger, l)
    case Enroll(r, _, stamp) => Ledger.Unhidden(w.ledger, Ledger.Consume(EntryFor(r.caller.value, stamp)))
    case RenewNode(_, _, _) => true
  }

  ghost predicate NeverHidden(cfg: Config, w: World, es: seq<Event>)
    requires ValidRun(cfg, w, es)
    decreases es
  {
    es == [] || (Unhidden(cfg, w, es[0]) && NeverHidden(cfg, Apply(cfg, w, es[0]), es[1..]))
  }

  /** Renewals point back. */
  ghost predicate PointsBack(nodes: seq<Node>) {
    forall i | 0 <= i < |nodes| && nodes[i].parent.Renews? :: nodes[i].parent.index < i
  }

  /** The bootstrap credential at the root of a certificate's branch of the tree. */
  ghost function RootOf(nodes: seq<Node>, i: nat): Certificate
    requires PointsBack(nodes) && i < |nodes|
    decreases i
  {
    match nodes[i].parent
    case FromBootstrap(boot) => boot
    case Renews(index) => RootOf(nodes, index)
  }

  /** What policy says of one certificate by itself. */
  ghost predicate WithinPolicy(cfg: Config, c: Issued) {
    && cfg.minLifetime <= c.notAfter - c.issuedAt <= cfg.maxLifetime
    && BranchNotAfter(cfg, c.family).Some? && c.notAfter <= BranchNotAfter(cfg, c.family).value
    && forall i | 0 <= i < |c.dnsNames| :: SuffixAllowed(cfg, c.dnsNames[i])
  }

  ghost predicate DescendsFrom(c: Issued, boot: Certificate) {
    && c.commonName == boot.CommonName()
    && forall i | 0 <= i < |c.dnsNames| :: c.dnsNames[i] in boot.dnsNames
  }

  /** The keys of the bootstrap credentials that were exchanged for a certificate. */
  ghost function RootKeys(nodes: seq<Node>): seq<string> {
    if nodes == [] then []
    else
      var last := nodes[|nodes| - 1];
      RootKeys(nodes[..|nodes| - 1]) +
      if last.parent.FromBootstrap? then [Ledger.CredentialKey(last.parent.boot.credential)] else []
  }

  ghost predicate Distinct(keys: seq<string>) {
    forall i, j | 0 <= i < j < |keys| :: keys[i] != keys[j]
  }

  ghost predicate TreeInv(cfg: Config, w: World) {
    && PointsBack(w.nodes)
    && forall i | 0 <= i < |w.nodes| :: WithinPolicy(cfg, w.nodes[i].cert) && DescendsFrom(w.nodes[i].cert, RootOf(w.nodes, i))
  }

  /** Issued bootstraps were consumed, and a key that was not consumed issued nothing. */
  ghost predicate RootsInv(w: World) {
    && Ledger.Inv(w.ledger)
    && Distinct(RootKeys(w.nodes))
    && forall k | k in RootKeys(w.nodes) :: k in w.ledger.consumed
  }

  lemma {:induction false} RootStable(nodes: seq<Node>, more: seq<Node>, i: nat)
    requires PointsBack(nodes) && PointsBack(nodes + more) && i < |nodes|
    ensures RootOf(nodes + more, i) == RootOf(nodes, i)
    decreases i
  {
    assert (nodes + more)[i] == nodes[i];
    if nodes[i].parent.Renews? {
      RootStable(nodes, more, nodes[i].parent.index);
    }
  }

  lemma NewNodeKeepsTree(cfg: Config, w: World, r: Request, now: int, parent: Parent)
    requires TreeInv(cfg, w) && Permitted(cfg, r, now)
    requires parent.FromBootstrap? ==> parent.boot == r.caller.value
    requires parent.Renews? ==> parent.index < |w.nodes| && Holds(r.caller.value, w.nodes[parent.index].cert)
    ensures TreeInv(cfg, w.(nodes := w.nodes + [Node(TheCertificate(cfg, r, now), parent)]))
  {
    var node := Node(TheCertificate(cfg, r, now), parent);
    var nodes := w.nodes + [node];
    forall i | 0 <= i < |nodes| ensures WithinPolicy(cfg, nodes[i].cert) && DescendsFrom(nodes[i].cert, RootOf(nodes, i)) {
      if i < |w.nodes| {
        RootStable(w.nodes, [node], i);
      } else {
        forall k | 0 <= k < |node.cert.dnsNames|
          ensures SuffixAllowed(cfg, node.cert.dnsNames[k]) && node.cert.dnsNames[k] in r.caller.value.dnsNames
        {
          assert DnsGranted(cfg, r.caller.value.dnsNames, node.cert.dnsNames[k]);
        }
        if parent.Renews? {
          RootStable(w.nodes, [node], parent.index);
          assert DescendsFrom(w.nodes[parent.index].cert, RootOf(w.nodes, parent.index));
        }
      }
    }
  }

  lemma StepKeepsTree(cfg: Config, w: World, e: Event)
    requires TreeInv(cfg, w) && Enabled(cfg, w, e)
    ensures TreeInv(cfg, Apply(cfg, w, e))
  {
    match e
    case LedgerEvent(_) =>
    case Enroll(r, now, _) => NewNodeKeepsTree(cfg, w, r, now, FromBootstrap(r.caller.value));
    case RenewNode(index, r, now) => NewNodeKeepsTree(cfg, w, r, now, Renews(index));
  }

  lemma ConsumedGrows(s: Ledger.State, e: Ledger.Event)
    requires Ledger.Enabled(s, e)
    ensures s.consumed <= Ledger.Apply(s, e).consumed
  {
  }

  lemma EnrollKeepsRoots(w: World, c: Certificate, stamp: string, cert: Issued)
    requires RootsInv(w) && Ledger.Enabled(w.ledger, Ledger.Consume(EntryFor(c, stamp)))
    requires Ledger.Unhidden(w.ledger, Ledger.Consume(EntryFor(c, stamp)))
    ensures var l := Ledger.Apply(w.ledger, Ledger.Consume(EntryFor(c, stamp)));
            RootsInv(World(l, w.nodes + [Node(cert, FromBootstrap(c))]))
  {
    var e := Ledger.Consume(EntryFor(c, stamp));
    var l := Ledger.Apply(w.ledger, e);
    var nodes := w.nodes + [Node(cert, FromBootstrap(c))];
    var key := Ledger.CredentialKey(c.credential);
    Ledger.StepKeepsInv(w.ledger, e);
    assert l.consumed == w.ledger.consumed + [key] && key !in w.ledger.consumed;
    hide Ledger.Inv, Ledger.CredentialKey, Ledger.Apply, Ledger.Enabled;
    assert nodes[..|w.nodes|] == w.nodes;
    assert RootKeys(nodes) == RootKeys(w.nodes) + [key];
  }

  lemma StepKeepsRoots(cfg: Config, w: World, e: Event)
    requires RootsInv(w) && Enabled(cfg, w, e) && Unhidden(cfg, w, e)
    ensures RootsInv(Apply(cfg, w, e))
  {
    match e
    case LedgerEvent(l) =>
      Ledger.StepKeepsInv(w.ledger, l);
      ConsumedGrows(w.ledger, l);
      hide Ledger.Inv, Ledger.Apply, Ledger.Enabled;
    case Enroll(r, now, stamp) => EnrollKeepsRoots(w, r.caller.value, stamp, TheCertificate(cfg, r, now));
    case RenewNode(_, _, _) =>
      hide Ledger.Inv;
      var w' := Apply(cfg, w, e);
      assert w'.nodes[..|w.nodes|] == w.nodes;
      assert RootKeys(w'.nodes) == RootKeys(w.nodes);
  }

  lemma {:induction false} RunKeepsTree(cfg: Config, w: World, es: seq<Event>)
    requires TreeInv(cfg, w) && ValidRun(cfg, w, es)
    ensures TreeInv(cfg, Run(cfg, w, es))
    decreases es
  {
    if es != [] {
      StepKeepsTree(cfg, w, es[0]);
      RunKeepsTree(cfg, Apply(cfg, w, es[0]), es[1..]);
    }
  }

  lemma {:induction false} RunKeepsRoots(cfg: Config, w: World, es: seq<Event>)
    requires RootsInv(w) && ValidRun(cfg, w, es) && NeverHidden(cfg, w, es)
    ensures RootsInv(Run(cfg, w, es))
    decreases es
  {
    if es != [] {
      StepKeepsRoots(cfg, w, es[0]);
      RunKeepsRoots(cfg, Apply(cfg, w, es[0]), es[1..]);
    }
  }

  /**
   * Issuance tree: in every run of enrollments and renewals, over crashes of the ledger,
   * every certificate is within policy and descends from one bootstrap credential, whose
   * name it keeps and whose DNS names bound its own.
   */
  lemma IssuanceTree(cfg: Config, es: seq<Event>, i: nat)
    requires ValidRun(cfg, NO_CERTIFICATES, es) && i < |Run(cfg, NO_CERTIFICATES, es).nodes|
    ensures var nodes := Run(cfg, NO_CERTIFICATES, es).nodes;
            && PointsBack(nodes) && WithinPolicy(cfg, nodes[i].cert) && DescendsFrom(nodes[i].cert, RootOf(nodes, i))
            // The branch of its key's family outlives it; there is no other for a post-quantum key.
            && (nodes[i].cert.family.ClassicalKey? ==> nodes[i].cert.notAfter <= cfg.classicalNotAfter)
            && (nodes[i].cert.family.PostQuantumKey? ==>
                  cfg.pqNotAfter.Some? && nodes[i].cert.notAfter <= cfg.pqNotAfter.value)
            && cfg.minLifetime <= nodes[i].cert.notAfter - nodes[i].cert.issuedAt <= cfg.maxLifetime
            && nodes[i].cert.commonName == RootOf(nodes, i).credential.commonName
            && (forall k | 0 <= k < |nodes[i].cert.dnsNames| :: nodes[i].cert.dnsNames[k] in RootOf(nodes, i).dnsNames)
  {
    RunKeepsTree(cfg, NO_CERTIFICATES, es);
  }

  /**
   * Single enrollment: in every such run, no two certificates were enrolled with the same
   * bootstrap credential, wherever the crashes fell, provided no ledger entry went onto a
   * cut line that hides it. `EnrolledTwiceIff` says what happens otherwise.
   */
  lemma SingleEnrollment(cfg: Config, es: seq<Event>, i: nat, j: nat)
    requires ValidRun(cfg, NO_CERTIFICATES, es) && NeverHidden(cfg, NO_CERTIFICATES, es) && i < j < |Run(cfg, NO_CERTIFICATES, es).nodes|
    requires Run(cfg, NO_CERTIFICATES, es).nodes[i].parent.FromBootstrap? && Run(cfg, NO_CERTIFICATES, es).nodes[j].parent.FromBootstrap?
    ensures var nodes := Run(cfg, NO_CERTIFICATES, es).nodes;
            Ledger.CredentialKey(nodes[i].parent.boot.credential) != Ledger.CredentialKey(nodes[j].parent.boot.credential)
  {
    RunKeepsRoots(cfg, NO_CERTIFICATES, es);
    TwoRootKeys(Run(cfg, NO_CERTIFICATES, es).nodes, i, j);
  }

  /** An enrolment, a clean restart of the authority, and the same enrolment again. */
  function EnrollAgain(w: World, r: Request, now: int, stamp: string, e: Ledger.Entry): seq<Event> {
    [Enroll(r, now, stamp), LedgerEvent(Ledger.Crash(|w.ledger.text + Ledger.Line(e)|)), LedgerEvent(Ledger.Open),
     Enroll(r, now, stamp)]
  }

  /**
   * And exactly then: in any world, a permitted bootstrap that was not used yet can be
   * enrolled, and after a restart enrolled again, if and only if its ledger entry goes onto
   * a cut line that hides it.
   */
  lemma EnrolledTwiceIff(cfg: Config, w: World, r: Request, now: int, stamp: string)
    requires Permitted(cfg, r, now) && Ledger.WellFormed(EntryFor(r.caller.value, stamp))
    requires w.ledger.memory.Some? && EntryFor(r.caller.value, stamp).key !in w.ledger.memory.value
    requires Ledger.Readable(w.ledger.text + Ledger.Line(EntryFor(r.caller.value, stamp)))
    ensures var e := EntryFor(r.caller.value, stamp);
            var es := EnrollAgain(w, r, now, stamp, e);
            && (ValidRun(cfg, w, es) <==> !Ledger.Appendable(w.ledger.text, e.key))
            && (ValidRun(cfg, w, es) ==>
                  var node := Node(TheCertificate(cfg, r, now), FromBootstrap(r.caller.value));
                  Run(cfg, w, es).nodes == w.nodes + [node, node])
  {
    var e := EntryFor(r.caller.value, stamp);
    var es, ls := EnrollAgain(w, r, now, stamp, e), Ledger.Again(w.ledger, e);
    Ledger.ConsumedTwiceIff(w.ledger, e);
    Ledger.FourEvents(w.ledger, ls);
    hide Permitted, Ledger.Appendable, Ledger.Readable, Ledger.KeysIn, Ledger.Line, Ledger.WellFormed, Ledger.ValidRun, Ledger.Run;
    var w1 := Apply(cfg, w, es[0]);
    var w2 := Apply(cfg, w1, es[1]);
    var w3 := Apply(cfg, w2, es[2]);
    var e1, e2, e3, e4 := es[1..], es[1..][1..], es[1..][1..][1..], es[1..][1..][1..][1..];
    assert e4 == [] && e3[0] == es[3] && e2[0] == es[2] && e1[0] == es[1];
    assert ValidRun(cfg, w3, e3) <==> Enabled(cfg, w3, es[3]);
    assert ValidRun(cfg, w2, e2) <==> ValidRun(cfg, w3, e3);
    assert ValidRun(cfg, w1, e1) <==> ValidRun(cfg, w2, e2);
    if ValidRun(cfg, w, es) {
      var node := Node(TheCertificate(cfg, r, now), FromBootstrap(r.caller.value));
      assert Run(cfg, w, es) == Run(cfg, w2, e2) == Run(cfg, Apply(cfg, w3, es[3]), e4);
      assert w.nodes + [node] + [node] == w.nodes + [node, node];
    }
  }

  lemma {:induction false} RootKeyListed(nodes: seq<Node>, i: nat) returns (k: nat)
    requires i < |nodes| && nodes[i].parent.FromBootstrap?
    ensures k < |RootKeys(nodes)| && RootKeys(nodes)[k] == Ledger.CredentialKey(nodes[i].parent.boot.credential)
    ensures i == |nodes| - 1 ==> k == |RootKeys(nodes)| - 1
    ensures i < |nodes| - 1 ==> k < |RootKeys(nodes[..|nodes| - 1])|
    decreases |nodes|
  {
    if i == |nodes| - 1 {
      return |RootKeys(nodes)| - 1;
    }
    k := RootKeyListed(nodes[..|nodes| - 1], i);
  }

  lemma {:induction false} TwoRootKeys(nodes: seq<Node>, i: nat, j: nat)
    requires i < j < |nodes| && nodes[i].parent.FromBootstrap? && nodes[j].parent.FromBootstrap?
    requires Distinct(RootKeys(nodes))
    ensures Ledger.CredentialKey(nodes[i].parent.boot.credential) != Ledger.CredentialKey(nodes[j].parent.boot.credential)
    decreases |nodes|
  {
    var before := nodes[..|nodes| - 1];
    assert forall k | 0 <= k < |RootKeys(before)| :: RootKeys(nodes)[k] == RootKeys(before)[k];
    if j < |nodes| - 1 {
      TwoRootKeys(before, i, j);
    } else {
      var k := RootKeyListed(nodes, i);
      var l := RootKeyListed(nodes, j);
    }
  }

  /** A permitted identity makes a ledger line that reads back. */
  lemma PermittedEntryWellFormed(cfg: Config, r: Request, now: int, stamp: string)
    requires Permitted(cfg, r, now)
    requires '\n' !in stamp && |stamp| > 0 && stamp[|stamp| - 1] == 'Z'
    ensures Ledger.WellFormed(EntryFor(r.caller.value, stamp))
  {
    Ledger.CredentialKeyPlain(r.caller.value.credential);
  }
}
