/**
 * Client and Server as they run over a connection, each proved to be steps of the protocol
 * in module Handshake. Client is cut in two where it waits for the network, since any
 * other steps of the world may happen there.
 */
module Session {
  import opened Wrappers
  import opened ByteStrings
  import opened Frame
  import opened PeerIdentity
  import opened Hello
  import opened Handshake

  /** The ideal cryptography that all sessions share. */
  class Ideal {
    var w: World

    constructor ()
      ensures w == START
    {
      w := START;
    }

    method Verify(key: PublicKey, context: string, message: bytes, sig: bytes) returns (ok: bool)
      ensures ok <==> Signed(key, context, message, sig) in w.valid
    {
      ok := Signed(key, context, message, sig) in w.valid;
    }
  }

  /** What a certificate store hands out: a key, which may not be ML-DSA, and a chain. */
  datatype Credential = Credential(key: PublicKey, chain: seq<bytes>)

  method SignerFor(credential: Option<Credential>) returns (signer: Option<Credential>)
    ensures signer.Some? <==> credential.Some? && credential.value.chain != [] && credential.value.key.MlDsa?
    ensures signer.Some? ==> signer == credential
  {
    if credential.None? || |credential.value.chain| == 0 || !credential.value.key.MlDsa? {
      return None;
    }
    return credential;
  }

  /** header, chain and key material, as both ends append them. */
  method BuildBody(chain: seq<bytes>, keyMaterial: bytes) returns (body: bytes)
    ensures body == Body(chain, keyMaterial)
  {
    var encoded := EncodeChain(chain);
    body := MAGIC + [VERSION, SUITE];
    body := body + Field(encoded);
    body := body + Field(keyMaterial);
  }

  /** A reply the client takes: it is authentic and signed over this very hello. */
  ghost predicate Acceptable(env: Env, w: World, c: ClientSession, cfg: TrustConfig, now: int, reply: HelloFields) {
    && WellFormed(env.parse, reply) && Authentic(cfg, reply.chain, now, ServerAuth)
    && ServerSignature(c.ClientHello(), reply) in w.valid
  }

  ghost predicate Pending(w: World, i: nat) {
    i < |w.clients| && w.clients[i].done.None? && |w.clients[i].ClientHello()| <= MAX_FRAME
  }

  /**
   * Client up to its hello. ek is the new encapsulation key and sig the randomised
   * signature; success leaves a pending session whose hello is on the wire, whole.
   */
  method ClientSend(env: Env, ideal: Ideal, raw: RawConn, credential: Option<Credential>, ek: bytes, sig: bytes)
    returns (i: Option<nat>)
    requires forall c | c in ideal.w.clients :: c.ek != ek
    modifies ideal, raw`sent
    ensures credential.None? || credential.value.chain == [] || !credential.value.key.MlDsa? ==>
              i.None? && ideal.w == old(ideal.w) && raw.sent == old(raw.sent)
    ensures credential.Some? && credential.value.chain != [] && credential.value.key.MlDsa? ==>
              var start := ClientStart(credential.value.key, credential.value.chain, ek, sig);
              Enabled(env, old(ideal.w), start) && ideal.w == Apply(old(ideal.w), start)
    ensures credential.Some? && credential.value.chain != [] && credential.value.key.MlDsa? ==>
              Signed(credential.value.key, "PQTB1 client hello", Body(credential.value.chain, ek), sig) in ideal.w.valid
    ensures i.Some? ==> Pending(ideal.w, i.value) && i.value == |old(ideal.w).clients|
    ensures i.Some? ==> raw.sent == old(raw.sent) + Field(ideal.w.clients[i.value].ClientHello())
  {
    var signer := SignerFor(credential);
    if signer.None? { return None; }
    var key, chain := signer.value.key, signer.value.chain;
    var body := BuildBody(chain, ek);
    ideal.w := ideal.w.(valid := ideal.w.valid + {Signed(key, CLIENT_CONTEXT, body, sig)},
                        clients := ideal.w.clients + [ClientSession(key, chain, ek, sig, None)]);
    var hello := body + Field(sig);
    var ok := WriteFrame(raw, hello);
    return if ok then Some(|ideal.w.clients| - 1) else None;
  }

  /**
   * Client from the server hello on. It ends with keys exactly when an acceptable reply
   * whose key material decapsulates arrives whole, and never changes the world otherwise.
   */
  method ClientReceive(env: Env, ideal: Ideal, raw: RawConn, i: nat, cfg: TrustConfig, now: int,
                       decapsulate: bytes -> Option<Secret>) returns (keys: Option<ConnKeys>)
    requires KeepsRaw(env.parse) && Pending(ideal.w, i)
    requires forall ct | (ideal.w.clients[i].ek, ct) in ideal.w.decap ::
               decapsulate(ct) == Some(ideal.w.decap[(ideal.w.clients[i].ek, ct)])
    modifies ideal, raw`incoming
    ensures keys.Some? ==> exists reply: HelloFields, shared: Secret ::
              && Enabled(env, old(ideal.w), ClientFinish(i, cfg, now, reply, shared))
              && ideal.w == Apply(old(ideal.w), ClientFinish(i, cfg, now, reply, shared))
              && old(raw.incoming) == Field(Serialize(reply)) + raw.incoming
              && ideal.w.clients[i].done.Some? && keys.value == ideal.w.clients[i].Keys()
    ensures keys.None? ==> ideal.w == old(ideal.w)
    ensures keys.None? && raw.lossless ==>
              forall reply: HelloFields, rest: bytes | |Serialize(reply)| <= MAX_FRAME
                && Acceptable(env, old(ideal.w), old(ideal.w).clients[i], cfg, now, reply) && decapsulate(reply.keyMaterial).Some? ::
                old(raw.incoming) != Field(Serialize(reply)) + rest
  {
    hide Field, Body;
    ghost var input := raw.incoming;
    var c := ideal.w.clients[i];
    var serverHello := ReadFrame(raw);
    if serverHello.None? { return None; }
    forall reply: HelloFields, rest: bytes | |Serialize(reply)| <= MAX_FRAME && input == Field(Serialize(reply)) + rest
      ensures Serialize(reply) == serverHello.value
    {
      FieldUnique(serverHello.value, raw.incoming, Serialize(reply), rest);
    }
    var parsed := ParseHello(env.parse, serverHello.value);
    if parsed.None? { return None; }
    var reply := parsed.value;
    forall r: HelloFields | WellFormed(env.parse, r) && Serialize(r) == serverHello.value ensures r == reply {
      HelloPrefixFree(env.parse, r, [], reply, []);
    }
    SignedRegionIsBody(Raws(reply.chain), reply.keyMaterial, reply.sig);
    var signed := c.ClientHello() + serverHello.value[..|serverHello.value| - |reply.sig| - 4];
    var peer := Authenticate(cfg, reply.chain, now, ServerAuth);
    if peer.None? { return None; }
    var ok := ideal.Verify(peer.value.key, SERVER_CONTEXT, signed, reply.sig);
    if !ok { return None; }
    var shared := decapsulate(reply.keyMaterial);
    if shared.None? { return None; }
    ghost var w := ideal.w;
    ideal.w := ideal.w.(clients := ideal.w.clients[i := c.(done := Some(ClientDone(reply, shared.value)))],
                        decap := ideal.w.decap[(c.ek, reply.keyMaterial) := shared.value]);
    assert Enabled(env, w, ClientFinish(i, cfg, now, reply, shared.value));
    return Some(NewConnKeys(shared.value, Transcript(c.ClientHello(), serverHello.value), true));
  }

  /** A hello the server takes. */
  ghost predicate Welcome(env: Env, w: World, cfg: TrustConfig, now: int, hello: HelloFields) {
    && WellFormed(env.parse, hello) && Authentic(cfg, hello.chain, now, ClientAuth)
    && ClientSignature(hello) in w.valid
  }

  /**
   * Server. encapsulate answers with a fresh pair, or none for key material that is not an
   * encapsulation key. Keys are returned only after the whole server hello was written.
   */
  method Respond(env: Env, ideal: Ideal, raw: RawConn, credential: Option<Credential>, cfg: TrustConfig, now: int,
                 encapsulate: bytes -> Option<(Secret, bytes)>, sig: bytes) returns (keys: Option<ConnKeys>)
    requires KeepsRaw(env.parse)
    requires forall ek | encapsulate(ek).Some? ::
               (ek, encapsulate(ek).value.1) !in ideal.w.decap && encapsulate(ek).value.0 !in ideal.w.decap.Values
    modifies ideal, raw`incoming, raw`sent
    ensures keys.Some? ==> credential.Some? && exists s: ServerSession ::
              && Enabled(env, old(ideal.w), ServerRespond(cfg, now, s)) && ideal.w == Apply(old(ideal.w), ServerRespond(cfg, now, s))
              && s.key == credential.value.key && s.key.MlDsa? && s.chain == credential.value.chain
              && keys.value == s.Keys()
              && Signed(s.key, "PQTB1 server hello", Serialize(s.hello) + Body(s.chain, s.ct), s.sig) in ideal.w.valid
              && old(raw.incoming) == Field(Serialize(s.hello)) + raw.incoming
              && raw.sent == old(raw.sent) + Field(s.ServerHello())
    ensures keys.None? ==> ideal.w == old(ideal.w) || exists s: ServerSession ::
              Enabled(env, old(ideal.w), ServerRespond(cfg, now, s)) && ideal.w == Apply(old(ideal.w), ServerRespond(cfg, now, s))
    ensures ideal.w == old(ideal.w) && raw.lossless && credential.Some? && credential.value.chain != [] && credential.value.key.MlDsa? ==>
              forall hello: HelloFields, rest: bytes | |Serialize(hello)| <= MAX_FRAME
                && Welcome(env, old(ideal.w), cfg, now, hello) && encapsulate(hello.keyMaterial).Some? ::
                old(raw.incoming) != Field(Serialize(hello)) + rest
  {
    hide Field, Body;
    ghost var input, w := raw.incoming, ideal.w;
    var signer := SignerFor(credential);
    if signer.None? { return None; }
    var clientHello := ReadFrame(raw);
    if clientHello.None? { return None; }
    forall h: HelloFields, rest: bytes | |Serialize(h)| <= MAX_FRAME && input == Field(Serialize(h)) + rest
      ensures Serialize(h) == clientHello.value
    {
      FieldUnique(clientHello.value, raw.incoming, Serialize(h), rest);
    }
    var parsed := ParseHello(env.parse, clientHello.value);
    if parsed.None? { return None; }
    var hello := parsed.value;
    forall h: HelloFields | WellFormed(env.parse, h) && Serialize(h) == clientHello.value ensures h == hello {
      HelloPrefixFree(env.parse, h, [], hello, []);
    }
    var peer := Authenticate(cfg, hello.chain, now, ClientAuth);
    if peer.None? { return None; }
    SignedRegionIsBody(Raws(hello.chain), hello.keyMaterial, hello.sig);
    var ok := ideal.Verify(peer.value.key, CLIENT_CONTEXT, clientHello.value[..|clientHello.value| - |hello.sig| - 4], hello.sig);
    if !ok { return None; }
    var sealed := encapsulate(hello.keyMaterial);
    if sealed.None? { return None; }
    var (shared, ct) := sealed.value;
    var body := BuildBody(signer.value.chain, ct);
    var s := ServerSession(signer.value.key, hello, signer.value.chain, ct, shared, sig);
    ideal.w := ideal.w.(valid := ideal.w.valid + {Signed(s.key, SERVER_CONTEXT, clientHello.value + body, sig)},
                        decap := ideal.w.decap[(hello.keyMaterial, ct) := shared], servers := ideal.w.servers + [s]);
    assert Enabled(env, w, ServerRespond(cfg, now, s)) && ideal.w == Apply(w, ServerRespond(cfg, now, s));
    assert |ideal.w.servers| == |w.servers| + 1;
    var serverHello := body + Field(sig);
    ok := WriteFrame(raw, serverHello);
    if !ok { return None; }
    return Some(NewConnKeys(shared, Transcript(clientHello.value, serverHello), false));
  }
}
