/** Certificate chains on the wire and the check that turns one into an authenticated peer. */
module PeerIdentity {
  import opened Wrappers
  import opened ByteStrings
  import opened Frame

  datatype PublicKey = MlDsa(id: nat) | Classical(id: nat)

  datatype Certificate = Certificate(raw: bytes, key: PublicKey, commonName: string, dnsNames: seq<string>)

  /** x509.ParseCertificate, a partial function whose result keeps its input as Raw. */
  type CertParser = bytes -> Option<Certificate>

  ghost predicate KeepsRaw(parse: CertParser) {
    forall der :: parse(der).Some? ==> parse(der).value.raw == der
  }

  const MAX_CHAIN: nat := 8

  function Raws(chain: seq<Certificate>): (r: seq<bytes>)
    ensures |r| == |chain|
  {
    seq(|chain|, i requires 0 <= i < |chain| => chain[i].raw)
  }

  function ChainBytes(chain: seq<bytes>): bytes {
    PutUint32(|chain|) + Fields(chain)
  }

  method EncodeChain(chain: seq<bytes>) returns (out: bytes)
    ensures out == ChainBytes(chain)
  {
    out := PutUint32(|chain|);
    for i := 0 to |chain|
      invariant out == PutUint32(|chain|) + Fields(chain[..i])
    {
      FieldsAppend(chain[..i], chain[i]);
      assert chain[..i + 1] == chain[..i] + [chain[i]];
      out := out + Field(chain[i]);
    }
    assert chain[..|chain|] == chain;
  }

  /** A chain that decodeChain can return: 1 to 8 parsed certificates. */
  ghost predicate Decodable(parse: CertParser, chain: seq<Certificate>) {
    && 1 <= |chain| <= MAX_CHAIN
    && forall i | 0 <= i < |chain| :: Fits(chain[i].raw) && parse(chain[i].raw) == Some(chain[i])
  }

  lemma ChainBytesUnique(us: seq<bytes>, vs: seq<bytes>)
    requires |us| < TWO_TO_THE_32 && |vs| < TWO_TO_THE_32
    requires forall f | f in us + vs :: Fits(f)
    requires ChainBytes(us) == ChainBytes(vs)
    ensures us == vs
  {
    hide PutUint32, Field;
    Uint32OfPut(|us|);
    Uint32OfPut(|vs|);
    assert ChainBytes(us)[..4] == PutUint32(|us|) && ChainBytes(vs)[..4] == PutUint32(|vs|);
    assert ChainBytes(us)[4..] == Fields(us) && ChainBytes(vs)[4..] == Fields(vs);
    assert Fields(us) + [] == Fields(us) && Fields(vs) + [] == Fields(vs);
    FieldsUnique(us, [], vs, []);
  }

  lemma DecodableUnique(parse: CertParser, c: seq<Certificate>, d: seq<Certificate>)
    requires Decodable(parse, c) && Decodable(parse, d)
    requires ChainBytes(Raws(c)) == ChainBytes(Raws(d))
    ensures c == d
  {
    ChainBytesUnique(Raws(c), Raws(d));
    forall i | 0 <= i < |c| ensures c[i] == d[i] {
      assert Raws(c)[i] == Raws(d)[i];
    }
  }

  /** What any decodable chain with these bytes must look like once i fields are read. */
  lemma NextField(parse: CertParser, b: bytes, done: seq<Certificate>, rest: bytes, d: seq<Certificate>)
    requires 4 <= |b| && b == PutUint32(Uint32(b)) + Fields(Raws(done)) + rest
    requires Decodable(parse, d) && ChainBytes(Raws(d)) == b
    requires |done| <= |d|
    requires forall i | 0 <= i < |done| :: Fits(done[i].raw)
    ensures Uint32(b) == |d| && Raws(d)[..|done|] == Raws(done)
    ensures rest == Fields(Raws(d)[|done|..])
  {
    hide PutUint32, Field;
    var all := Raws(d);
    Uint32OfPut(|all|);
    assert b[..4] == PutUint32(|all|);
    var head, tail := all[..|done|], all[|done|..];
    assert all == head + tail;
    FieldsConcat(head, tail);
    assert b[4..] == Fields(head) + Fields(tail);
    assert b[4..] == Fields(Raws(done)) + rest;
    FieldsUnique(head, Fields(tail), Raws(done), rest);
  }

  /** A chain that these bytes encode; there is at most one (DecodableUnique). */
  ghost predicate Encodes(parse: CertParser, b: bytes, d: seq<Certificate>) {
    Decodable(parse, d) && ChainBytes(Raws(d)) == b
  }

  /** The decoding loop's position: the certificates read so far, and the bytes left. */
  ghost predicate ReadSoFar(parse: CertParser, b: bytes, done: seq<Certificate>, rest: bytes) {
    && 4 <= |b| && b == PutUint32(Uint32(b)) + Fields(Raws(done)) + rest
    && |done| <= Uint32(b)
    && forall k | 0 <= k < |done| :: Fits(done[k].raw) && parse(done[k].raw) == Some(done[k])
  }

  lemma EncodesCount(parse: CertParser, b: bytes, d: seq<Certificate>)
    requires Encodes(parse, b, d)
    ensures 4 <= |b| && Uint32(b) == |d|
  {
    Uint32OfPut(|d|);
    assert b[..4] == PutUint32(|d|);
  }

  lemma NextRaw(parse: CertParser, b: bytes, done: seq<Certificate>, rest: bytes, d: seq<Certificate>)
    requires ReadSoFar(parse, b, done, rest) && |done| < Uint32(b) && Encodes(parse, b, d)
    ensures |done| < |d|
    ensures rest == Field(d[|done|].raw) + Fields(Raws(d)[|done| + 1..])
  {
    EncodesCount(parse, b, d);
    NextField(parse, b, done, rest, d);
    assert Raws(d)[|done|..] == [d[|done|].raw] + Raws(d)[|done| + 1..];
  }

  lemma CertificateRead(parse: CertParser, b: bytes, done: seq<Certificate>, rest: bytes, cert: Certificate, rest': bytes)
    requires ReadSoFar(parse, b, done, rest) && |done| < Uint32(b)
    requires rest == Field(cert.raw) + rest' && Fits(cert.raw) && parse(cert.raw) == Some(cert)
    ensures ReadSoFar(parse, b, done + [cert], rest')
  {
    FieldsAppend(Raws(done), cert.raw);
    assert Raws(done + [cert]) == Raws(done) + [cert.raw];
    var head, n := PutUint32(Uint32(b)), Fields(Raws(done));
    assert head + n + (Field(cert.raw) + rest') == head + (n + Field(cert.raw)) + rest';
  }

  lemma Unreadable(parse: CertParser, b: bytes, done: seq<Certificate>, rest: bytes, d: seq<Certificate>)
    requires ReadSoFar(parse, b, done, rest) && |done| < Uint32(b)
    requires forall f, x | Fits(f) && rest == Field(f) + x :: parse(f).None?
    ensures !Encodes(parse, b, d)
  {
    if Encodes(parse, b, d) {
      NextRaw(parse, b, done, rest, d);
    }
  }

  lemma Trailing(parse: CertParser, b: bytes, done: seq<Certificate>, rest: bytes, d: seq<Certificate>)
    requires ReadSoFar(parse, b, done, rest) && |done| == Uint32(b) && rest != []
    ensures !Encodes(parse, b, d)
  {
    if Encodes(parse, b, d) {
      EncodesCount(parse, b, d);
      NextField(parse, b, done, rest, d);
    }
  }

  /** decodeChain accepts exactly the encodings of decodable chains, and inverts them. */
  method DecodeChain(parse: CertParser, b: bytes) returns (r: Option<seq<Certificate>>)
    requires KeepsRaw(parse)
    ensures r.Some? ==> Encodes(parse, b, r.value)
    ensures r.None? ==> forall d :: !Encodes(parse, b, d)
    ensures r.Some? ==> 1 <= |r.value| <= 8
  {
    forall d: seq<Certificate> | Encodes(parse, b, d)
      ensures 4 <= |b| && Uint32(b) == |d|
    {
      EncodesCount(parse, b, d);
    }
    if |b| < 4 {
      return None;
    }
    var n := Uint32(b);
    if n == 0 || n > MAX_CHAIN {
      return None;
    }
    var reader := new Reader(b, 4);
    var chain: seq<Certificate> := [];
    StartOfChain(parse, b);
    for i := 0 to n
      invariant reader.Valid() && reader.buf == b && fresh(reader)
      invariant |chain| == i && ReadSoFar(parse, b, chain, reader.Rest())
    {
      ghost var rest := reader.Rest();
      var der := reader.ReadField();
      if der.None? {
        forall d ensures !Encodes(parse, b, d) { Unreadable(parse, b, chain, rest, d); }
        return None;
      }
      var cert := parse(der.value);
      if cert.None? {
        forall f, x | Fits(f) && rest == Field(f) + x ensures parse(f).None? {
          FieldUnique(der.value, reader.Rest(), f, x);
        }
        forall d ensures !Encodes(parse, b, d) { Unreadable(parse, b, chain, rest, d); }
        return None;
      }
      CertificateRead(parse, b, chain, rest, cert.value, reader.Rest());
      chain := chain + [cert.value];
    }
    var ok := reader.Done();
    if !ok {
      forall d ensures !Encodes(parse, b, d) { Trailing(parse, b, chain, reader.Rest(), d); }
      return None;
    }
    EndOfChain(parse, b, chain);
    return Some(chain);
  }

  lemma StartOfChain(parse: CertParser, b: bytes)
    requires 4 <= |b|
    ensures ReadSoFar(parse, b, [], b[4..])
  {
    PutOfUint32(b[..4]);
  }

  lemma EndOfChain(parse: CertParser, b: bytes, done: seq<Certificate>)
    requires ReadSoFar(parse, b, done, []) && 1 <= |done| == Uint32(b) <= MAX_CHAIN
    ensures Encodes(parse, b, done)
  {
  }

  // ---------------------------------------------------------------- authentication

  /** strings.EqualFold, opaque here. */
  type Folding = (string, string) -> bool

  ghost predicate HasName(equalFold: Folding, leaf: Certificate, want: string) {
    || equalFold(leaf.commonName, want)
    || exists i | 0 <= i < |leaf.dnsNames| :: equalFold(leaf.dnsNames[i], want)
  }

  method MatchesName(equalFold: Folding, leaf: Certificate, want: string) returns (ok: bool)
    ensures ok <==> HasName(equalFold, leaf, want)
  {
    if equalFold(leaf.commonName, want) {
      return true;
    }
    for i := 0 to |leaf.dnsNames|
      invariant forall k | 0 <= k < i :: !equalFold(leaf.dnsNames[k], want)
    {
      if equalFold(leaf.dnsNames[i], want) {
        return true;
      }
    }
    return false;
  }

  datatype Usage = ServerAuth | ClientAuth

  /** The parts of Config that authentication reads; verifyChain is pki.VerifyChain. */
  datatype TrustConfig = TrustConfig(verifyChain: (seq<Certificate>, int, Usage) -> bool,
                                     equalFold: Folding, peerName: string)

  /** A chain the tunnel takes as its peer at time now. */
  ghost predicate Authentic(cfg: TrustConfig, chain: seq<Certificate>, now: int, usage: Usage) {
    && |chain| > 0
    && cfg.verifyChain(chain, now, usage)
    && chain[0].key.MlDsa?
    && (cfg.peerName != "" ==> HasName(cfg.equalFold, chain[0], cfg.peerName))
  }

  method Authenticate(cfg: TrustConfig, chain: seq<Certificate>, now: int, usage: Usage)
    returns (peer: Option<Certificate>)
    ensures peer.Some? <==> Authentic(cfg, chain, now, usage)
    ensures peer.Some? ==> peer.value == chain[0]
    // The checks by themselves: the chain, the key, and the name if one is asked for.
    ensures peer.Some? <==>
              && chain != [] && cfg.verifyChain(chain, now, usage) && chain[0].key.MlDsa?
              && (|| cfg.peerName == ""
                  || cfg.equalFold(chain[0].commonName, cfg.peerName)
                  || exists i | 0 <= i < |chain[0].dnsNames| :: cfg.equalFold(chain[0].dnsNames[i], cfg.peerName))
  {
    if |chain| == 0 || !cfg.verifyChain(chain, now, usage) {
      return None;
    }
    var leaf := chain[0];
    if !leaf.key.MlDsa? {
      return None;
    }
    if cfg.peerName != "" {
      var ok := MatchesName(cfg.equalFold, leaf, cfg.peerName);
      if !ok {
        return None;
      }
    }
    return Some(leaf);
  }
}
