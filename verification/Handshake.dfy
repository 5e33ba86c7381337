/**
 * The two-message handshake as a protocol among any number of client sessions, server
 * sessions and an adversary that sees and injects every message. The cryptography is
 * ideal: a hash and a key derivation are free constructors, a signature verifies exactly
 * when it is in the log of valid ones, and decapsulation is a map that Encapsulate fills.
 */
module Handshake {
  import opened Wrappers
  import opened ByteStrings
  import opened Frame
  import opened PeerIdentity
  import opened Hello

  const CLIENT_CONTEXT := "PQTB1 client hello"
  const SERVER_CONTEXT := "PQTB1 server hello"
  const CLIENT_TO_SERVER := "PQTB1 c2s"
  const SERVER_TO_CLIENT := "PQTB1 s2c"

  // ------------------------------------------------------------------ key derivation

  type Secret = nat

  datatype Digest = Sha256(message: bytes)

  datatype Derived = Hkdf(secret: Secret, salt: Digest, info: string, size: nat)

  function Transcript(clientHello: bytes, serverHello: bytes): Digest {
    Sha256(clientHello + serverHello)
  }

  /** The key and IV material newConn gives one end. */
  datatype ConnKeys = ConnKeys(sealKey: Derived, openKey: Derived, sealIV: Derived, openIV: Derived)

  function NewConnKeys(shared: Secret, transcript: Digest, isClient: bool): ConnKeys {
    var c2s, s2c := Hkdf(shared, transcript, CLIENT_TO_SERVER, 32), Hkdf(shared, transcript, SERVER_TO_CLIENT, 32);
    var c2sIV, s2cIV := Hkdf(shared, transcript, CLIENT_TO_SERVER + " iv", 4), Hkdf(shared, transcript, SERVER_TO_CLIENT + " iv", 4);
    if isClient then ConnKeys(c2s, s2c, c2sIV, s2cIV) else ConnKeys(s2c, c2s, s2cIV, c2sIV)
  }

  /** Each side seals with what the other opens, key and IV both. */
  predicate Crossed(a: ConnKeys, b: ConnKeys) {
    && a.sealKey == b.openKey && a.openKey == b.sealKey
    && a.sealIV == b.openIV && a.openIV == b.sealIV
  }

  lemma DirectionsDiffer()
    ensures CLIENT_TO_SERVER != SERVER_TO_CLIENT
  {
    assert CLIENT_TO_SERVER[6] != SERVER_TO_CLIENT[6];
  }

  lemma ContextsDiffer()
    ensures CLIENT_CONTEXT != SERVER_CONTEXT
  {
    assert CLIENT_CONTEXT[6] != SERVER_CONTEXT[6];
  }

  /** The two ends' keys and IVs, each from the secret and the transcript under a name of its own. */
  lemma KeySchedule(shared: Secret, transcript: Digest)
    ensures var (client, server) := (NewConnKeys(shared, transcript, true), NewConnKeys(shared, transcript, false));
            && Crossed(client, server)
            && client.sealKey == Hkdf(shared, transcript, "PQTB1 c2s", 32)
            && server.sealKey == Hkdf(shared, transcript, "PQTB1 s2c", 32)
            && client.sealIV == Hkdf(shared, transcript, "PQTB1 c2s iv", 4)
            && server.sealIV == Hkdf(shared, transcript, "PQTB1 s2c iv", 4)
  {
  }

  // ------------------------------------------------------------------------- sessions

  datatype ClientDone = ClientDone(reply: HelloFields, shared: Secret)

  /** One call of Client: what it sent, and the reply it accepted. */
  datatype ClientSession = ClientSession(key: PublicKey, chain: seq<bytes>, ek: bytes, sig: bytes,
                                         done: Option<ClientDone>)
  {
    function SignedBody(): bytes { Body(chain, ek) }
    function ClientHello(): bytes { Message(chain, ek, sig) }
    function Keys(): ConnKeys
      requires done.Some?
    {
      NewConnKeys(done.value.shared, Transcript(ClientHello(), Serialize(done.value.reply)), true)
    }
  }

  /** One call of Server that got as far as signing its hello. */
  datatype ServerSession = ServerSession(key: PublicKey, hello: HelloFields, chain: seq<bytes>, ct: bytes,
                                         shared: Secret, sig: bytes)
  {
    function ServerBody(): bytes { Body(chain, ct) }
    function ServerHello(): bytes { Message(chain, ct, sig) }
    function SignedMessage(): bytes { Serialize(hello) + ServerBody() }
    function Keys(): ConnKeys {
      NewConnKeys(shared, Transcript(Serialize(hello), ServerHello()), false)
    }
  }

  /** An entry of the signature log. */
  datatype Signed = Signed(key: PublicKey, context: string, message: bytes, sig: bytes)

  datatype World = World(valid: set<Signed>, decap: map<(bytes, bytes), Secret>,
                         clients: seq<ClientSession>, servers: seq<ServerSession>)

  const START: World := World({}, map[], [], [])

  /** The parser of certificates, and the keys that only honest sessions sign with. */
  datatype Env = Env(parse: CertParser, honest: set<PublicKey>)

  datatype Event =
    | ClientStart(key: PublicKey, chain: seq<bytes>, ek: bytes, sig: bytes)
    | ClientFinish(i: nat, cfg: TrustConfig, now: int, reply: HelloFields, shared: Secret)
    | ServerRespond(cfg: TrustConfig, now: int, session: ServerSession)
    | AdversarySigns(forged: Signed)
    | AdversaryEncapsulates(pair: (bytes, bytes), secret: Secret)

  function ClientSignature(h: HelloFields): Signed
    requires |h.chain| > 0
  {
    SignedRegionIsBody(Raws(h.chain), h.keyMaterial, h.sig);
    Signed(h.chain[0].key, CLIENT_CONTEXT, SignedRegion(Serialize(h), h.sig), h.sig)
  }

  function ServerSignature(clientHello: bytes, h: HelloFields): Signed
    requires |h.chain| > 0
  {
    SignedRegionIsBody(Raws(h.chain), h.keyMaterial, h.sig);
    Signed(h.chain[0].key, SERVER_CONTEXT, clientHello + SignedRegion(Serialize(h), h.sig), h.sig)
  }

  /** What each step checks before it goes on. */
  ghost predicate Enabled(env: Env, w: World, e: Event) {
    match e
    case ClientStart(_, _, ek, _) =>
      // GenerateKey768 never returns an encapsulation key twice.
      forall c | c in w.clients :: c.ek != ek
    case ClientFinish(i, cfg, now, reply, shared) =>
      && i < |w.clients| && w.clients[i].done.None?
      && |w.clients[i].ClientHello()| <= MAX_FRAME && |Serialize(reply)| <= MAX_FRAME
      && WellFormed(env.parse, reply)
      && Authentic(cfg, reply.chain, now, ServerAuth)
      && ServerSignature(w.clients[i].ClientHello(), reply) in w.valid
      // Decapsulate is a function: it answers as before when it was asked before.
      && var pair := (w.clients[i].ek, reply.keyMaterial); (pair in w.decap ==> w.decap[pair] == shared)
    case ServerRespond(cfg, now, s) =>
      && |Serialize(s.hello)| <= MAX_FRAME
      && WellFormed(env.parse, s.hello)
      && Authentic(cfg, s.hello.chain, now, ClientAuth)
      && ClientSignature(s.hello) in w.valid
      // Encapsulate returns a fresh ciphertext and a fresh secret.
      && (s.hello.keyMaterial, s.ct) !in w.decap && s.shared !in w.decap.Values
    case AdversarySigns(f) =>
      // Signatures of honest keys cannot be forged, but their bytes may be altered.
      f.key in env.honest ==> exists sig :: Signed(f.key, f.context, f.message, sig) in w.valid
    case AdversaryEncapsulates(pair, _) =>
      pair !in w.decap
  }

  function Apply(w: World, e: Event): World {
    match e
    case ClientStart(key, chain, ek, sig) =>
      var c := ClientSession(key, chain, ek, sig, None);
      w.(valid := w.valid + {Signed(key, CLIENT_CONTEXT, c.SignedBody(), sig)}, clients := w.clients + [c])
    case ClientFinish(i, _, _, reply, shared) =>
      if i < |w.clients| then
        var c := w.clients[i];
        w.(clients := w.clients[i := c.(done := Some(ClientDone(reply, shared)))],
           decap := w.decap[(c.ek, reply.keyMaterial) := shared])
      else w
    case ServerRespond(_, _, s) =>
      w.(valid := w.valid + {Signed(s.key, SERVER_CONTEXT, s.SignedMessage(), s.sig)},
         decap := w.decap[(s.hello.keyMaterial, s.ct) := s.shared], servers := w.servers + [s])
    case AdversarySigns(f) => w.(valid := w.valid + {f})
    case AdversaryEncapsulates(pair, secret) => w.(decap := w.decap[pair := secret])
  }

  ghost predicate ValidRun(env: Env, w: World, es: seq<Event>)
    decreases es
  {
    es == [] || (Enabled(env, w, es[0]) && ValidRun(env, Apply(w, es[0]), es[1..]))
  }

  function Run(w: World, es: seq<Event>): World
    decreases es
  {
    if es == [] then w else Run(Apply(w, es[0]), es[1..])
  }

  // ------------------------------------------------------------------------ invariant

  ghost predicate SignerKnown(env: Env, w: World, s: Signed) {
    s.key in env.honest ==>
      && (s.context == CLIENT_CONTEXT ==>
            exists i | 0 <= i < |w.clients| :: w.clients[i].key == s.key && w.clients[i].SignedBody() == s.message)
      && (s.context == SERVER_CONTEXT ==>
            exists j | 0 <= j < |w.servers| :: w.servers[j].key == s.key && w.servers[j].SignedMessage() == s.message)
  }

  ghost predicate ServerOk(env: Env, w: World, s: ServerSession) {
    && |Serialize(s.hello)| <= MAX_FRAME && WellFormed(env.parse, s.hello)
    && ClientSignature(s.hello) in w.valid
    && (s.hello.keyMaterial, s.ct) in w.decap && w.decap[(s.hello.keyMaterial, s.ct)] == s.shared
  }

  ghost predicate ClientOk(env: Env, w: World, c: ClientSession) {
    c.done.Some? ==>
      var reply := c.done.value.reply;
      && |c.ClientHello()| <= MAX_FRAME && |Serialize(reply)| <= MAX_FRAME
      && WellFormed(env.parse, reply)
      && ServerSignature(c.ClientHello(), reply) in w.valid
      && (c.ek, reply.keyMaterial) in w.decap && w.decap[(c.ek, reply.keyMaterial)] == c.done.value.shared
  }

  ghost predicate Inv(env: Env, w: World) {
    && (forall s | s in w.valid :: SignerKnown(env, w, s))
    && (forall j | 0 <= j < |w.servers| :: ServerOk(env, w, w.servers[j]))
    && (forall i | 0 <= i < |w.clients| :: ClientOk(env, w, w.clients[i]))
    && (forall i, k | 0 <= i < k < |w.clients| :: w.clients[i].ek != w.clients[k].ek)
    && (forall j, k | 0 <= j < k < |w.servers| :: w.servers[j].shared != w.servers[k].shared)
  }

  /** Sessions are only added or completed, and the two logs only grow. */
  ghost predicate Grows(w: World, w': World) {
    && w.valid <= w'.valid
    && (forall p | p in w.decap :: p in w'.decap && w'.decap[p] == w.decap[p])
    && |w.clients| <= |w'.clients|
    && (forall i | 0 <= i < |w.clients| ::
          w'.clients[i] == w.clients[i] || w'.clients[i] == w.clients[i].(done := w'.clients[i].done))
    && w.servers <= w'.servers
  }

  lemma StepGrows(env: Env, w: World, e: Event)
    requires Enabled(env, w, e)
    ensures Grows(w, Apply(w, e))
  {
  }

  lemma GrowsKeepsSigner(env: Env, w: World, w': World, s: Signed)
    requires Grows(w, w') && SignerKnown(env, w, s)
    ensures SignerKnown(env, w', s)
  {
    if s.key in env.honest && s.context == CLIENT_CONTEXT {
      var i :| 0 <= i < |w.clients| && w.clients[i].key == s.key && w.clients[i].SignedBody() == s.message;
      assert w'.clients[i].SignedBody() == s.message;
    }
    if s.key in env.honest && s.context == SERVER_CONTEXT {
      var j :| 0 <= j < |w.servers| && w.servers[j].key == s.key && w.servers[j].SignedMessage() == s.message;
      assert w'.servers[j] == w.servers[j];
    }
  }

  lemma NewSignerKnown(env: Env, w: World, e: Event, s: Signed)
    requires Inv(env, w) && Enabled(env, w, e)
    requires s in Apply(w, e).valid && s !in w.valid
    ensures SignerKnown(env, Apply(w, e), s)
  {
    var w' := Apply(w, e);
    ContextsDiffer();
    match e
    case ClientStart(_, _, _, _) => assert w'.clients[|w.clients|].SignedBody() == s.message;
    case ServerRespond(_, _, _) => assert w'.servers[|w.servers|].SignedMessage() == s.message;
    case AdversarySigns(f) =>
      StepGrows(env, w, e);
      if f.key in env.honest {
        var sig :| Signed(f.key, f.context, f.message, sig) in w.valid;
        GrowsKeepsSigner(env, w, w', Signed(f.key, f.context, f.message, sig));
      }
    case _ =>
  }

  lemma StepKeepsSessions(env: Env, w: World, e: Event)
    requires Inv(env, w) && Enabled(env, w, e)
    ensures var w' := Apply(w, e);
            && (forall j | 0 <= j < |w'.servers| :: ServerOk(env, w', w'.servers[j]))
            && (forall i | 0 <= i < |w'.clients| :: ClientOk(env, w', w'.clients[i]))
  {
    var w' := Apply(w, e);
    StepGrows(env, w, e);
    forall j | 0 <= j < |w'.servers| ensures ServerOk(env, w', w'.servers[j]) {
      if j < |w.servers| { assert ServerOk(env, w, w.servers[j]); }
    }
    forall i | 0 <= i < |w'.clients| ensures ClientOk(env, w', w'.clients[i]) {
      if i < |w.clients| { assert ClientOk(env, w, w.clients[i]); }
    }
  }

  lemma StepKeepsDistinct(env: Env, w: World, e: Event)
    requires Inv(env, w) && Enabled(env, w, e)
    ensures var w' := Apply(w, e);
            && (forall i, k | 0 <= i < k < |w'.clients| :: w'.clients[i].ek != w'.clients[k].ek)
            && (forall j, k | 0 <= j < k < |w'.servers| :: w'.servers[j].shared != w'.servers[k].shared)
  {
    var w' := Apply(w, e);
    StepGrows(env, w, e);
    forall i, k | 0 <= i < k < |w'.clients| ensures w'.clients[i].ek != w'.clients[k].ek {
      assert w.clients[i].ek == w'.clients[i].ek;
      if k < |w.clients| { assert w.clients[k].ek == w'.clients[k].ek; }
    }
    forall j, k | 0 <= j < k < |w'.servers| ensures w'.servers[j].shared != w'.servers[k].shared {
      assert ServerOk(env, w, w.servers[j]);
      assert w.servers[j].shared in w.decap.Values;
    }
  }

  lemma StepKeepsInv(env: Env, w: World, e: Event)
    requires Inv(env, w) && Enabled(env, w, e)
    ensures Inv(env, Apply(w, e))
  {
    var w' := Apply(w, e);
    StepGrows(env, w, e);
    forall s | s in w'.valid ensures SignerKnown(env, w', s) {
      if s in w.valid {
        GrowsKeepsSigner(env, w, w', s);
      } else {
        NewSignerKnown(env, w, e, s);
      }
    }
    StepKeepsSessions(env, w, e);
    StepKeepsDistinct(env, w, e);
  }

  lemma {:induction false} RunKeepsInv(env: Env, w: World, es: seq<Event>)
    requires Inv(env, w) && ValidRun(env, w, es)
    ensures Inv(env, Run(w, es))
    decreases es
  {
    if es != [] {
      StepKeepsInv(env, w, es[0]);
      RunKeepsInv(env, Apply(w, es[0]), es[1..]);
    }
  }

  // ------------------------------------------------------------------------- theorems

  lemma {:induction false} StepsAreEnabled(env: Env, w: World, es: seq<Event>, k: nat) returns (before: World)
    requires ValidRun(env, w, es) && k < |es|
    ensures Enabled(env, before, es[k])
    decreases es
  {
    hide Enabled, Apply;
    if k == 0 {
      return w;
    }
    before := StepsAreEnabled(env, Apply(w, es[0]), es[1..], k - 1);
  }

  /**
   * Peer identity over runs: every session that finishes, and every one that responds, did so
   * with a chain verified for the peer's role, with an ML-DSA leaf, and with the name it was
   * told to expect, if it was told one.
   */
  lemma PeersAreAuthenticated(env: Env, es: seq<Event>, k: nat)
    requires ValidRun(env, START, es) && k < |es|
    ensures es[k].ClientFinish? ==>
              var (cfg, chain, now) := (es[k].cfg, es[k].reply.chain, es[k].now);
              && chain != [] && cfg.verifyChain(chain, now, ServerAuth) && chain[0].key.MlDsa?
              && (|| cfg.peerName == ""
                  || cfg.equalFold(chain[0].commonName, cfg.peerName)
                  || exists i | 0 <= i < |chain[0].dnsNames| :: cfg.equalFold(chain[0].dnsNames[i], cfg.peerName))
    ensures es[k].ServerRespond? ==>
              var (cfg, chain, now) := (es[k].cfg, es[k].session.hello.chain, es[k].now);
              && chain != [] && cfg.verifyChain(chain, now, ClientAuth) && chain[0].key.MlDsa?
              && (|| cfg.peerName == ""
                  || cfg.equalFold(chain[0].commonName, cfg.peerName)
                  || exists i | 0 <= i < |chain[0].dnsNames| :: cfg.equalFold(chain[0].dnsNames[i], cfg.peerName))
  {
    var before := StepsAreEnabled(env, START, es, k);
  }

  /** A message short enough for one frame has three fields that fit their headers. */
  lemma SmallMessageIsShaped(chain: seq<bytes>, keyMaterial: bytes, sig: bytes)
    requires |Message(chain, keyMaterial, sig)| <= MAX_FRAME
    ensures Shaped(Message(chain, keyMaterial, sig), ChainBytes(chain), keyMaterial, sig)
  {
    assert |Message(chain, keyMaterial, sig)| == |HEADER| + 12 + |ChainBytes(chain)| + |keyMaterial| + |sig|;
  }

  /** Client session i and server session j are the two ends of one handshake. */
  ghost predicate Agree(c: ClientSession, s: ServerSession)
    requires c.done.Some?
  {
    var reply := c.done.value.reply;
    && Serialize(s.hello) == c.ClientHello()
    && s.ServerBody() == Body(Raws(reply.chain), reply.keyMaterial)
    && s.shared == c.done.value.shared
    && (s.sig == reply.sig <==> s.ServerHello() == Serialize(reply))
    && (s.sig == reply.sig <==> Crossed(c.Keys(), s.Keys()))
  }

  lemma SameBodySameCiphertext(chain: seq<bytes>, ct: bytes, h: HelloFields)
    requires Body(chain, ct) == Body(Raws(h.chain), h.keyMaterial)
    requires |Serialize(h)| <= MAX_FRAME
    ensures ct == h.keyMaterial
  {
    var m, n := Message(chain, ct, h.sig), Serialize(h);
    assert m == Body(chain, ct) + Field(h.sig) == n;
    SmallMessageIsShaped(chain, ct, h.sig);
    SmallMessageIsShaped(Raws(h.chain), h.keyMaterial, h.sig);
    ShapedPrefixFree(m, ChainBytes(chain), ct, h.sig, [], n, ChainBytes(Raws(h.chain)), h.keyMaterial, h.sig, []);
  }

  lemma SignedTogether(env: Env, w: World, c: ClientSession, s: ServerSession)
    requires c.done.Some? && ClientOk(env, w, c) && ServerOk(env, w, s)
    requires ServerSignature(c.ClientHello(), c.done.value.reply).message == s.SignedMessage()
    ensures Agree(c, s)
  {
    hide Body, Shaped, Crossed, Decodable;
    var reply := c.done.value.reply;
    var theirs := Body(Raws(reply.chain), reply.keyMaterial);
    SignedRegionIsBody(Raws(reply.chain), reply.keyMaterial, reply.sig);
    SmallMessageIsShaped(c.chain, c.ek, c.sig);
    SmallMessageIsShaped(Raws(s.hello.chain), s.hello.keyMaterial, s.hello.sig);
    ShapedPrefixFree(c.ClientHello(), ChainBytes(c.chain), c.ek, c.sig, theirs,
                     Serialize(s.hello), ChainBytes(Raws(s.hello.chain)), s.hello.keyMaterial, s.hello.sig, s.ServerBody());
    SameBodySameCiphertext(s.chain, s.ct, reply);
    if s.sig == reply.sig {
      SameTranscript(c, s);
    }
    if Crossed(c.Keys(), s.Keys()) || s.ServerHello() == Serialize(reply) {
      SameSignature(c, s);
    }
  }

  /** Keys that cross over come from one transcript, and so from one signature. */
  lemma SameSignature(c: ClientSession, s: ServerSession)
    requires c.done.Some? && Serialize(s.hello) == c.ClientHello()
    requires s.ServerBody() == Body(Raws(c.done.value.reply.chain), c.done.value.reply.keyMaterial)
    requires Crossed(c.Keys(), s.Keys()) || s.ServerHello() == Serialize(c.done.value.reply)
    ensures s.sig == c.done.value.reply.sig
  {
    hide Body;
    var reply := c.done.value.reply;
    var hello, x, y := c.ClientHello(), s.ServerHello(), Serialize(reply);
    assert hello + x == hello + y;
    assert x == (hello + x)[|hello|..] == (hello + y)[|hello|..] == y;
    var body := s.ServerBody();
    assert Field(s.sig) == x[|body|..] == y[|body|..] == Field(reply.sig);
    assert s.sig == Field(s.sig)[4..] == Field(reply.sig)[4..] == reply.sig;
  }

  lemma SameTranscript(c: ClientSession, s: ServerSession)
    requires c.done.Some? && s.shared == c.done.value.shared && s.sig == c.done.value.reply.sig
    requires Serialize(s.hello) == c.ClientHello()
    requires s.ServerBody() == Body(Raws(c.done.value.reply.chain), c.done.value.reply.keyMaterial)
    ensures s.ServerHello() == Serialize(c.done.value.reply) && Crossed(c.Keys(), s.Keys())
  {
    hide Body;
  }

  ghost predicate FinishedWithHonest(env: Env, c: ClientSession) {
    c.done.Some? && |c.done.value.reply.chain| > 0 && c.done.value.reply.chain[0].key in env.honest
  }

  ghost predicate UniquePartner(w: World, c: ClientSession, j: nat)
    requires c.done.Some? && |c.done.value.reply.chain| > 0
  {
    && j < |w.servers|
    && w.servers[j].key == c.done.value.reply.chain[0].key
    && Agree(c, w.servers[j])
    && forall k | 0 <= k < |w.servers| && Agree(c, w.servers[k]) :: k == j
  }

  lemma PartnerExists(env: Env, w: World, c: ClientSession) returns (j: nat)
    requires Inv(env, w) && c in w.clients && FinishedWithHonest(env, c)
    ensures j < |w.servers| && w.servers[j].key == c.done.value.reply.chain[0].key && Agree(c, w.servers[j])
  {
    assert ClientOk(env, w, c);
    var signature := ServerSignature(c.ClientHello(), c.done.value.reply);
    assert SignerKnown(env, w, signature);
    ContextsDiffer();
    j :| 0 <= j < |w.servers| && w.servers[j].key == signature.key && w.servers[j].SignedMessage() == signature.message;
    assert ServerOk(env, w, w.servers[j]);
    SignedTogether(env, w, c, w.servers[j]);
  }

  /**
   * Handshake agreement: in every run, a client that finished with the key of an honest
   * peer has exactly one server session of that key as its partner, which signed exactly
   * the hello the client sent and exactly the server body the client accepted.
   */
  lemma ClientAgreement(env: Env, es: seq<Event>, c: ClientSession)
    requires ValidRun(env, START, es)
    requires c in Run(START, es).clients && FinishedWithHonest(env, c)
    ensures exists j :: UniquePartner(Run(START, es), c, j)
  {
    RunKeepsInv(env, START, es);
    var w := Run(START, es);
    var j := PartnerExists(env, w, c);
    hide Agree;
    forall k | 0 <= k < |w.servers| && Agree(c, w.servers[k]) ensures k == j {
      AgreeFixesSecret(c, w.servers[j]);
      AgreeFixesSecret(c, w.servers[k]);
    }
    assert UniquePartner(w, c, j);
  }

  lemma AgreeFixesSecret(c: ClientSession, s: ServerSession)
    requires c.done.Some? && Agree(c, s)
    ensures s.shared == c.done.value.shared
  {
  }

  /** Client session i, and no other, signed the body of this hello. */
  ghost predicate UniqueSigner(w: World, h: HelloFields, i: nat)
    requires |h.chain| > 0
  {
    && i < |w.clients|
    && w.clients[i].key == h.chain[0].key
    && w.clients[i].SignedBody() == Body(Raws(h.chain), h.keyMaterial)
    && forall k | 0 <= k < |w.clients| && w.clients[k].SignedBody() == w.clients[i].SignedBody() :: k == i
  }

  /** The other half: a server's honest peer started exactly one session that signed this hello. */
  lemma ServerAgreement(env: Env, es: seq<Event>, j: nat)
    requires ValidRun(env, START, es)
    requires j < |Run(START, es).servers|
    requires |Run(START, es).servers[j].hello.chain| > 0
    requires Run(START, es).servers[j].hello.chain[0].key in env.honest
    ensures exists i :: UniqueSigner(Run(START, es), Run(START, es).servers[j].hello, i)
  {
    RunKeepsInv(env, START, es);
    var w := Run(START, es);
    var h := w.servers[j].hello;
    assert ServerOk(env, w, w.servers[j]);
    SignedRegionIsBody(Raws(h.chain), h.keyMaterial, h.sig);
    assert SignerKnown(env, w, ClientSignature(h));
    ContextsDiffer();
    var i :| 0 <= i < |w.clients| && w.clients[i].key == h.chain[0].key && w.clients[i].SignedBody() == Body(Raws(h.chain), h.keyMaterial);
    hide Body, Message;
    forall k | 0 <= k < |w.clients| && w.clients[k].SignedBody() == w.clients[i].SignedBody() ensures k == i {
      SameBodySameCiphertext(w.clients[k].chain, w.clients[k].ek, h);
      SameBodySameCiphertext(w.clients[i].chain, w.clients[i].ek, h);
    }
    assert UniqueSigner(w, h, i);
  }

  lemma DistinctClientKeys(env: Env, w: World, i: nat, k: nat)
    requires Inv(env, w) && i < k < |w.clients| && w.clients[i].done.Some? && w.clients[k].done.Some?
    ensures w.clients[i].Keys().sealKey != w.clients[k].Keys().sealKey
  {
    var c, d := w.clients[i], w.clients[k];
    assert ClientOk(env, w, c) && ClientOk(env, w, d);
    var x, y := Serialize(c.done.value.reply), Serialize(d.done.value.reply);
    if c.ClientHello() + x == d.ClientHello() + y {
      SmallMessageIsShaped(c.chain, c.ek, c.sig);
      SmallMessageIsShaped(d.chain, d.ek, d.sig);
      ShapedPrefixFree(c.ClientHello(), ChainBytes(c.chain), c.ek, c.sig, x,
                       d.ClientHello(), ChainBytes(d.chain), d.ek, d.sig, y);
    }
  }

  /**
   * One sealer per key: over any run, no two sessions, on either side and with any
   * adversary between them, ever hold the same sealing key. This is what lets one log of
   * sealed records stand for one writer.
   */
  lemma OneSealerPerKey(env: Env, es: seq<Event>)
    requires ValidRun(env, START, es)
    ensures var w := Run(START, es);
            && (forall i, k | 0 <= i < k < |w.clients| && w.clients[i].done.Some? && w.clients[k].done.Some? ::
                  w.clients[i].Keys().sealKey != w.clients[k].Keys().sealKey)
            && (forall j, k | 0 <= j < k < |w.servers| :: w.servers[j].Keys().sealKey != w.servers[k].Keys().sealKey)
            && (forall i, j | 0 <= i < |w.clients| && w.clients[i].done.Some? && 0 <= j < |w.servers| ::
                  w.clients[i].Keys().sealKey != w.servers[j].Keys().sealKey)
  {
    RunKeepsInv(env, START, es);
    var w := Run(START, es);
    DirectionsDiffer();
    forall i, k | 0 <= i < k < |w.clients| && w.clients[i].done.Some? && w.clients[k].done.Some?
      ensures w.clients[i].Keys().sealKey != w.clients[k].Keys().sealKey
    {
      DistinctClientKeys(env, w, i, k);
    }
  }

  // -------------------------------------------------------------- who seals for whom

  /** A session with keys, on either side. */
  datatype End = ClientEnd(i: nat) | ServerEnd(j: nat)

  predicate IsEnd(w: World, e: End) {
    match e
    case ClientEnd(i) => i < |w.clients| && w.clients[i].done.Some?
    case ServerEnd(j) => j < |w.servers|
  }

  function KeysOf(w: World, e: End): ConnKeys
    requires IsEnd(w, e)
  {
    match e
    case ClientEnd(i) => w.clients[i].Keys()
    case ServerEnd(j) => w.servers[j].Keys()
  }

  /** Equal keys of the two directions come with equal IVs. */
  lemma SameKeySameIV(w: World, opener: End, sealer: End)
    requires IsEnd(w, opener) && IsEnd(w, sealer)
    requires KeysOf(w, sealer).sealKey == KeysOf(w, opener).openKey
    ensures KeysOf(w, sealer).sealIV == KeysOf(w, opener).openIV
  {
    DirectionsDiffer();
  }

  /** Only an end of the other role can seal what an end opens: never itself, nor another of its role. */
  lemma SealerHasOtherRole(w: World, opener: End, sealer: End)
    requires IsEnd(w, opener) && IsEnd(w, sealer)
    requires KeysOf(w, sealer).sealKey == KeysOf(w, opener).openKey
    ensures opener.ClientEnd? <==> sealer.ServerEnd?
  {
    DirectionsDiffer();
  }

  /** For a client that finished with an honest peer, only its partner seals what it opens. */
  lemma OnlyPartnerSeals(env: Env, es: seq<Event>, i: nat, sealer: End)
    requires ValidRun(env, START, es)
    requires IsEnd(Run(START, es), ClientEnd(i)) && FinishedWithHonest(env, Run(START, es).clients[i])
    requires IsEnd(Run(START, es), sealer)
    requires KeysOf(Run(START, es), sealer).sealKey == KeysOf(Run(START, es), ClientEnd(i)).openKey
    ensures sealer.ServerEnd? && UniquePartner(Run(START, es), Run(START, es).clients[i], sealer.j)
  {
    var w := Run(START, es);
    var c := w.clients[i];
    SealerHasOtherRole(w, ClientEnd(i), sealer);
    ClientAgreement(env, es, c);
    var j :| UniquePartner(w, c, j);
    RunKeepsInv(env, START, es);
    SharedSecretIsPartner(env, w, c, j, sealer.j);
  }

  lemma SharedSecretIsPartner(env: Env, w: World, c: ClientSession, j: nat, k: nat)
    requires Inv(env, w) && c.done.Some? && |c.done.value.reply.chain| > 0
    requires UniquePartner(w, c, j) && k < |w.servers| && w.servers[k].Keys().sealKey == c.Keys().openKey
    ensures k == j
  {
    AgreeFixesSecret(c, w.servers[j]);
    assert w.servers[k].shared == c.done.value.shared;
    hide Agree, ServerOk, ClientOk, SignerKnown;
  }
}
