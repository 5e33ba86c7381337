/**
 * Handshake and record layer together: whose records an end of the tunnel opens. The log
 * holds every record that ends of the run sealed; an AEAD under one key sees the part of
 * it that was sealed under that key.
 */
module Channel {
  import opened Wrappers
  import opened ByteStrings
  import opened Records
  import opened Handshake

  /** AES-256-GCM under a derived key, and the four bytes of a derived IV. */
  datatype Primitives = Primitives(seal: Derived -> SealFunction, iv: Derived -> bytes)

  /** The direction an end writes in, and the one it reads. */
  function Outbound(prim: Primitives, keys: ConnKeys): Direction { Direction(prim.seal(keys.sealKey), prim.iv(keys.sealIV)) }
  function Inbound(prim: Primitives, keys: ConnKeys): Direction { Direction(prim.seal(keys.openKey), prim.iv(keys.openIV)) }

  /** A record by the end that sealed it, its number in that end's stream and its plaintext. */
  datatype Entry = Entry(sealer: End, number: nat, plain: bytes)

  predicate SealedByEnds(w: World, log: seq<Entry>) {
    forall i | 0 <= i < |log| :: IsEnd(w, log[i].sealer) && log[i].number < TWO_TO_THE_64
  }

  function RecordOf(w: World, prim: Primitives, e: Entry): Sealed
    requires IsEnd(w, e.sealer)
  {
    Outbound(prim, KeysOf(w, e.sealer)).Record(e.number, e.plain)
  }

  /** What an AEAD under this key has in its log. */
  function Under(w: World, prim: Primitives, log: seq<Entry>, key: Derived): seq<Sealed>
    requires SealedByEnds(w, log)
  {
    if log == [] then []
    else
      assert forall i | 0 <= i < |log[1..]| :: log[1..][i] == log[i + 1];
      (if KeysOf(w, log[0].sealer).sealKey == key then [RecordOf(w, prim, log[0])] else []) + Under(w, prim, log[1..], key)
  }

  lemma {:induction false} UnderHas(w: World, prim: Primitives, log: seq<Entry>, key: Derived, record: Sealed) returns (i: nat)
    requires SealedByEnds(w, log) && record in Under(w, prim, log, key)
    ensures i < |log| && KeysOf(w, log[i].sealer).sealKey == key && RecordOf(w, prim, log[i]) == record
  {
    hide KeysOf, RecordOf;
    assert forall i | 0 <= i < |log[1..]| :: log[1..][i] == log[i + 1];
    if KeysOf(w, log[0].sealer).sealKey == key && record == RecordOf(w, prim, log[0]) {
      return 0;
    }
    i := UnderHas(w, prim, log[1..], key, record);
    i := i + 1;
  }

  /**
   * What an end opened, as what another end sealed: this plaintext, at this number of that
   * end's stream; and no other end seals what this one opens.
   */
  ghost predicate OpenedFrom(w: World, log: seq<Entry>, opener: End, number: nat, plain: bytes, i: nat)
    requires IsEnd(w, opener) && SealedByEnds(w, log)
  {
    && i < |log| && log[i].number == number && log[i].plain == plain
    && KeysOf(w, log[i].sealer).sealKey == KeysOf(w, opener).openKey
    && (opener.ClientEnd? <==> log[i].sealer.ServerEnd?)
    && forall e: End | IsEnd(w, e) && KeysOf(w, e).sealKey == KeysOf(w, opener).openKey :: e == log[i].sealer
  }

  /** One key, one end that seals under it. */
  lemma SameSealer(env: Env, es: seq<Event>, a: End, b: End)
    requires ValidRun(env, START, es) && IsEnd(Run(START, es), a) && IsEnd(Run(START, es), b)
    requires KeysOf(Run(START, es), a).sealKey == KeysOf(Run(START, es), b).sealKey
    ensures a == b
  {
    OneSealerPerKey(env, es);
  }

  /** An opened record is an entry of the log, at the number the reader is at. */
  lemma OpenedEntry(w: World, prim: Primitives, log: seq<Entry>, opener: End, r: Reader, frame: bytes) returns (i: nat)
    requires SealedByEnds(w, log) && IsEnd(w, opener) && r.next < TWO_TO_THE_64
    requires OpenRecord(Inbound(prim, KeysOf(w, opener)), r, Under(w, prim, log, KeysOf(w, opener).openKey), frame).Some?
    ensures i < |log| && KeysOf(w, log[i].sealer).sealKey == KeysOf(w, opener).openKey
    ensures log[i].number == r.next
    ensures OpenRecord(Inbound(prim, KeysOf(w, opener)), r, Under(w, prim, log, KeysOf(w, opener).openKey), frame).value == log[i].plain
  {
    hide KeysOf, Under, PutUint64;
    var keys := KeysOf(w, opener);
    var d, sealed := Inbound(prim, keys), Under(w, prim, log, keys.openKey);
    var plain := OpenRecord(d, r, sealed, frame).value;
    LookupSound(sealed, d.Nonce(r.next), frame[NONCE_SIZE..]);
    i := UnderHas(w, prim, log, keys.openKey, Sealed(d.Nonce(r.next), plain, frame[NONCE_SIZE..]));
    SameKeySameIV(w, opener, log[i].sealer);
    assert Outbound(prim, KeysOf(w, log[i].sealer)) == d;
    NonceInjective(d, log[i].number, r.next);
  }

  /**
   * In every run, whatever record the network hands to an end, if it opens then an end of
   * the other role sealed exactly that plaintext at exactly that number of its stream, and
   * it is the only one sealing under this key: no end opens a record of its own.
   */
  lemma OpensAnothersRecord(env: Env, es: seq<Event>, prim: Primitives, log: seq<Entry>, opener: End, r: Reader, frame: bytes)
    requires ValidRun(env, START, es) && SealedByEnds(Run(START, es), log) && IsEnd(Run(START, es), opener)
    requires r.next < TWO_TO_THE_64
    requires var w, keys := Run(START, es), KeysOf(Run(START, es), opener);
             OpenRecord(Inbound(prim, keys), r, Under(w, prim, log, keys.openKey), frame).Some?
    ensures var w, keys := Run(START, es), KeysOf(Run(START, es), opener);
            var plain := OpenRecord(Inbound(prim, keys), r, Under(w, prim, log, keys.openKey), frame).value;
            exists i: nat :: OpenedFrom(w, log, opener, r.next, plain, i)
  {
    var w := Run(START, es);
    var i := OpenedEntry(w, prim, log, opener, r, frame);
    SealerHasOtherRole(w, opener, log[i].sealer);
    hide KeysOf, Run, ValidRun, Under, OpenRecord;
    forall e: End | IsEnd(w, e) && KeysOf(w, e).sealKey == KeysOf(w, opener).openKey ensures e == log[i].sealer {
      SameSealer(env, es, e, log[i].sealer);
    }
    assert OpenedFrom(w, log, opener, r.next, log[i].plain, i);
  }

  /** The entry an opened record comes from was sealed by the client's one partner. */
  ghost predicate FromPartner(w: World, log: seq<Entry>, c: nat, i: nat)
    requires IsEnd(w, ClientEnd(c)) && |w.clients[c].done.value.reply.chain| > 0
  {
    i < |log| && log[i].sealer.ServerEnd? && UniquePartner(w, w.clients[c], log[i].sealer.j)
  }

  /** With an honest peer, that end is the client's one partner. */
  lemma OpensPartnersRecord(env: Env, es: seq<Event>, prim: Primitives, log: seq<Entry>, c: nat, r: Reader, frame: bytes)
    requires ValidRun(env, START, es) && SealedByEnds(Run(START, es), log) && IsEnd(Run(START, es), ClientEnd(c))
    requires FinishedWithHonest(env, Run(START, es).clients[c]) && r.next < TWO_TO_THE_64
    requires var w, keys := Run(START, es), KeysOf(Run(START, es), ClientEnd(c));
             OpenRecord(Inbound(prim, keys), r, Under(w, prim, log, keys.openKey), frame).Some?
    ensures var w, keys := Run(START, es), KeysOf(Run(START, es), ClientEnd(c));
            var plain := OpenRecord(Inbound(prim, keys), r, Under(w, prim, log, keys.openKey), frame).value;
            exists i: nat :: OpenedFrom(w, log, ClientEnd(c), r.next, plain, i) && FromPartner(w, log, c, i)
  {
    hide KeysOf, Run, ValidRun, OpenRecord, UniquePartner, Under;
    var w, keys := Run(START, es), KeysOf(Run(START, es), ClientEnd(c));
    OpensAnothersRecord(env, es, prim, log, ClientEnd(c), r, frame);
    var plain := OpenRecord(Inbound(prim, keys), r, Under(w, prim, log, keys.openKey), frame).value;
    var i: nat :| OpenedFrom(w, log, ClientEnd(c), r.next, plain, i);
    OnlyPartnerSeals(env, es, c, log[i].sealer);
  }
}
