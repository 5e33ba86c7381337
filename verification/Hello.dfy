/** The two handshake messages: what parseHello accepts, and why it is unambiguous. */
module Hello {
  import opened Wrappers
  import opened ByteStrings
  import opened Frame
  import opened PeerIdentity

  // "PQTB1", protocol version 1, suite 1.
  const MAGIC: bytes := [80, 81, 84, 66, 49]
  const VERSION: byte := 1
  const SUITE: byte := 1
  const HEADER: bytes := MAGIC + [VERSION, SUITE]

  datatype HelloFields = HelloFields(chain: seq<Certificate>, keyMaterial: bytes, sig: bytes)

  /** Everything up to the signature field. */
  function Body(chain: seq<bytes>, keyMaterial: bytes): bytes {
    HEADER + Field(ChainBytes(chain)) + Field(keyMaterial)
  }

  function Message(chain: seq<bytes>, keyMaterial: bytes, sig: bytes): bytes {
    Body(chain, keyMaterial) + Field(sig)
  }

  function Serialize(h: HelloFields): bytes {
    Message(Raws(h.chain), h.keyMaterial, h.sig)
  }

  ghost predicate WellFormed(parse: CertParser, h: HelloFields) {
    && Decodable(parse, h.chain)
    && Fits(ChainBytes(Raws(h.chain))) && Fits(h.keyMaterial) && Fits(h.sig)
  }

  /** A message with the three-field shape, whatever its chain field holds. */
  ghost predicate Shaped(msg: bytes, a: bytes, b: bytes, c: bytes) {
    && Fits(a) && Fits(b) && Fits(c)
    && msg == HEADER + Field(a) + Field(b) + Field(c)
  }

  /** The one fact every ambiguity argument rests on: three fields determine where they end. */
  lemma ShapedPrefixFree(m: bytes, a: bytes, b: bytes, c: bytes, x: bytes,
                         n: bytes, d: bytes, e: bytes, f: bytes, y: bytes)
    requires Shaped(m, a, b, c) && Shaped(n, d, e, f)
    requires m + x == n + y
    ensures m == n && x == y && a == d && b == e && c == f
  {
    var s := (m + x)[|HEADER|..];
    assert s == Field(a) + (Field(b) + (Field(c) + x));
    assert s == Field(d) + (Field(e) + (Field(f) + y));
    FieldUnique(a, Field(b) + (Field(c) + x), d, Field(e) + (Field(f) + y));
    FieldUnique(b, Field(c) + x, e, Field(f) + y);
    FieldUnique(c, x, f, y);
  }

  /** No accepted hello is a proper prefix of another, so appending to one is injective. */
  lemma HelloPrefixFree(parse: CertParser, g: HelloFields, x: bytes, h: HelloFields, y: bytes)
    requires WellFormed(parse, g) && WellFormed(parse, h)
    requires Serialize(g) + x == Serialize(h) + y
    ensures g == h && x == y
  {
    ShapedPrefixFree(Serialize(g), ChainBytes(Raws(g.chain)), g.keyMaterial, g.sig, x,
                     Serialize(h), ChainBytes(Raws(h.chain)), h.keyMaterial, h.sig, y);
    DecodableUnique(parse, g.chain, h.chain);
  }

  /** msg[:len(msg)-len(sig)-4], the region a verifier re-derives. */
  function SignedRegion(msg: bytes, sig: bytes): bytes
    requires |sig| + 4 <= |msg|
  {
    msg[..|msg| - |sig| - 4]
  }

  /** The re-derived region is exactly the body the signer signed. */
  lemma SignedRegionIsBody(chain: seq<bytes>, keyMaterial: bytes, sig: bytes)
    ensures |sig| + 4 <= |Message(chain, keyMaterial, sig)|
    ensures SignedRegion(Message(chain, keyMaterial, sig), sig) == Body(chain, keyMaterial)
  {
    assert |Field(sig)| == |sig| + 4;
  }

  /**
   * parseHello accepts a message exactly when it is the serialization of a well-formed
   * hello, and returns that hello; by HelloPrefixFree there is only one.
   */
  method ParseHello(parse: CertParser, msg: bytes) returns (r: Option<HelloFields>)
    requires KeepsRaw(parse)
    ensures r.Some? ==> WellFormed(parse, r.value) && Serialize(r.value) == msg
    ensures r.None? ==> forall h | WellFormed(parse, h) :: Serialize(h) != msg
    // "PQTB1", version 1 and the one algorithm suite; no empty chain, and at most eight certificates.
    ensures r.Some? ==> 7 <= |msg| && msg[..7] == [80, 81, 84, 66, 49, 1, 1] && 1 <= |r.value.chain| <= 8
  {
    var m := |MAGIC|;
    forall h ensures Serialize(h) == msg ==> HEADER <= msg { OpensWithHeader(h); }
    HeaderBytes(msg);
    if |msg| < m + 2 || msg[..m] != MAGIC {
      return None;
    }
    if msg[m] != VERSION || msg[m + 1] != SUITE {
      return None;
    }
    var reader := new Reader(msg, m + 2);
    ghost var rest0 := reader.Rest();
    assert msg == HEADER + rest0;
    forall h ensures Serialize(h) == msg ==> rest0 == AfterHeader(h) { OpensWithHeader(h); }
    var rawChain := reader.ReadField();
    if rawChain.None? {
      return None;
    }
    ghost var rest1 := reader.Rest();
    var keyMaterial := reader.ReadField();
    ghost var rest2 := reader.Rest();
    if keyMaterial.None? {
      forall h | WellFormed(parse, h) ensures Serialize(h) != msg {
        ChainFieldIs(parse, h, rest0, rawChain.value, rest1);
      }
      return None;
    }
    var sig := reader.ReadField();
    ghost var rest3 := reader.Rest();
    if sig.None? {
      forall h | WellFormed(parse, h) ensures Serialize(h) != msg {
        KeyFieldIs(parse, h, rest0, rawChain.value, rest1, keyMaterial.value, rest2);
      }
      return None;
    }
    forall h ensures WellFormed(parse, h) && Serialize(h) == msg ==>
                       ChainBytes(Raws(h.chain)) == rawChain.value && rest3 == [] {
      if WellFormed(parse, h) && Serialize(h) == msg {
        KeyFieldIs(parse, h, rest0, rawChain.value, rest1, keyMaterial.value, rest2);
        FieldUnique(sig.value, rest3, h.sig, []);
      }
    }
    var ok := reader.Done();
    if !ok {
      return None;
    }
    var chain := DecodeChain(parse, rawChain.value);
    if chain.None? {
      assert forall h | WellFormed(parse, h) :: !Encodes(parse, rawChain.value, h.chain);
      return None;
    }
    var h := HelloFields(chain.value, keyMaterial.value, sig.value);
    Reassemble(msg, h, rest0, rest1, rest2);
    return Some(h);
  }

  lemma HeaderBytes(msg: bytes)
    ensures HEADER <= msg <==>
            && |MAGIC| + 2 <= |msg| && msg[..|MAGIC|] == MAGIC
            && msg[|MAGIC|] == VERSION && msg[|MAGIC| + 1] == SUITE
  {
  }

  function AfterHeader(h: HelloFields): bytes {
    Field(ChainBytes(Raws(h.chain))) + (Field(h.keyMaterial) + (Field(h.sig) + []))
  }

  lemma OpensWithHeader(h: HelloFields)
    ensures Serialize(h) == HEADER + AfterHeader(h)
  {
  }

  lemma ChainFieldIs(parse: CertParser, h: HelloFields, rest0: bytes, rawChain: bytes, rest1: bytes)
    requires WellFormed(parse, h) && Fits(rawChain) && rest0 == Field(rawChain) + rest1
    ensures rest0 == AfterHeader(h) ==>
              ChainBytes(Raws(h.chain)) == rawChain && rest1 == Field(h.keyMaterial) + (Field(h.sig) + [])
  {
    if rest0 == AfterHeader(h) {
      FieldUnique(rawChain, rest1, ChainBytes(Raws(h.chain)), Field(h.keyMaterial) + (Field(h.sig) + []));
    }
  }

  lemma KeyFieldIs(parse: CertParser, h: HelloFields, rest0: bytes, rawChain: bytes, rest1: bytes,
                   keyMaterial: bytes, rest2: bytes)
    requires WellFormed(parse, h) && Fits(rawChain) && rest0 == Field(rawChain) + rest1
    requires Fits(keyMaterial) && rest1 == Field(keyMaterial) + rest2
    ensures rest0 == AfterHeader(h) ==>
              ChainBytes(Raws(h.chain)) == rawChain && h.keyMaterial == keyMaterial && rest2 == Field(h.sig) + []
  {
    if rest0 == AfterHeader(h) {
      ChainFieldIs(parse, h, rest0, rawChain, rest1);
      FieldUnique(keyMaterial, rest2, h.keyMaterial, Field(h.sig) + []);
    }
  }

  lemma Reassemble(msg: bytes, h: HelloFields, rest0: bytes, rest1: bytes, rest2: bytes)
    requires msg == HEADER + rest0 && rest0 == Field(ChainBytes(Raws(h.chain))) + rest1
    requires rest1 == Field(h.keyMaterial) + rest2 && rest2 == Field(h.sig)
    ensures Serialize(h) == msg
  {
  }
}
