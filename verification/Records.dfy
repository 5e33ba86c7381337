/**
 * The record layer's rules: how a stream is split and sealed, and what a reader does with
 * one frame. The AEAD is ideal: a ciphertext opens exactly when the log of that key holds
 * it under that nonce.
 */
module Records {
  import opened Wrappers
  import opened ByteStrings
  import opened Frame

  const RECORD_SIZE: nat := 16 * 1024
  const NONCE_SIZE: nat := 12
  const OVERHEAD: nat := 16

  /** AES-256-GCM under one key as a function of nonce and plaintext. */
  type SealFunction = (bytes, bytes) -> bytes

  datatype Sealed = Sealed(nonce: bytes, plain: bytes, cipher: bytes)

  /**
   * One direction of a tunnel: its key's sealing function and its four-byte IV. Sealing
   * adds a tag, and is injective because decryption inverts it.
   */
  datatype Direction = Direction(seal: SealFunction, iv: bytes)
  {
    ghost predicate Valid() {
      && |iv| == 4
      && (forall n, p :: |seal(n, p)| == |p| + OVERHEAD)
      && (forall n, p, q :: seal(n, p) == seal(n, q) ==> p == q)
    }

    function Nonce(s: nat): bytes { iv + PutUint64(s) }

    function Record(s: nat, plain: bytes): Sealed {
      Sealed(Nonce(s), plain, seal(Nonce(s), plain))
    }
  }

  function Next(s: nat): nat { (s + 1) % TWO_TO_THE_64 }

  function WireRecord(r: Sealed): bytes { r.nonce + r.cipher }

  function WireRecords(rs: seq<Sealed>): (w: seq<bytes>)
    ensures |w| == |rs|
  {
    seq(|rs|, i requires 0 <= i < |rs| => WireRecord(rs[i]))
  }

  lemma NonceInjective(d: Direction, s: nat, t: nat)
    requires s < TWO_TO_THE_64 && t < TWO_TO_THE_64 && d.Nonce(s) == d.Nonce(t)
    ensures s == t
  {
    assert PutUint64(s) == d.Nonce(s)[|d.iv|..] == d.Nonce(t)[|d.iv|..] == PutUint64(t);
    Uint64OfPut(s);
    Uint64OfPut(t);
  }

  // ------------------------------------------------------------------------ splitting

  /** The plaintexts of the records that carry p. */
  function Chunks(p: bytes): seq<bytes> {
    if p == [] then []
    else if |p| <= RECORD_SIZE then [p]
    else [p[..RECORD_SIZE]] + Chunks(p[RECORD_SIZE..])
  }

  /** Splitting loses nothing, and never makes the empty record that means end of stream. */
  lemma {:induction false} ChunksJoin(p: bytes)
    ensures Concat(Chunks(p)) == p
    ensures forall c | c in Chunks(p) :: 0 < |c| <= RECORD_SIZE
    ensures forall i | 0 <= i < |Chunks(p)| - 1 :: |Chunks(p)[i]| == 16 * 1024
  {
    if |p| > RECORD_SIZE {
      ChunksJoin(p[RECORD_SIZE..]);
    } else if p != [] {
      assert Concat([p]) == p + Concat([]);
    }
  }

  /** The records of consecutive plaintexts from sequence number s on, with uint64 wrap. */
  function SealAll(d: Direction, s: nat, plains: seq<bytes>): (rs: seq<Sealed>)
    ensures |rs| == |plains|
  {
    seq(|plains|, i requires 0 <= i < |plains| => d.Record((s + i) % TWO_TO_THE_64, plains[i]))
  }

  /** The writing half of a Conn, with the log of its key. */
  datatype Writer = Writer(next: nat, closed: bool, log: seq<Sealed>)

  /**
   * A Write of p of which `good` records reached the wire. If it stopped at an error, one
   * more record is sealed, and the counter does not cover it.
   */
  function WriteOnce(d: Direction, w: Writer, p: bytes, good: nat, failed: bool): Writer
    requires good + (if failed then 1 else 0) <= |Chunks(p)|
  {
    var sealed := good + if failed then 1 else 0;
    w.(next := (w.next + good) % TWO_TO_THE_64, log := w.log + SealAll(d, w.next, Chunks(p)[..sealed]))
  }

  function CloseOnce(d: Direction, w: Writer): Writer {
    if w.closed then w else Writer(Next(w.next), true, w.log + [d.Record(w.next, [])])
  }

  // -------------------------------------------------------------------------- opening

  /** The ideal Open: the plaintext the log holds for this nonce and ciphertext. */
  function Lookup(log: seq<Sealed>, nonce: bytes, cipher: bytes): Option<bytes> {
    if log == [] then None
    else if log[0].nonce == nonce && log[0].cipher == cipher then Some(log[0].plain)
    else Lookup(log[1..], nonce, cipher)
  }

  lemma {:induction false} LookupSound(log: seq<Sealed>, nonce: bytes, cipher: bytes)
    ensures var r := Lookup(log, nonce, cipher);
            && (r.Some? ==> Sealed(nonce, r.value, cipher) in log)
            && (r.None? ==> forall plain :: Sealed(nonce, plain, cipher) !in log)
  {
    if log != [] {
      LookupSound(log[1..], nonce, cipher);
      assert forall x :: x in log <==> x == log[0] || x in log[1..];
    }
  }

  /** The reading half of a Conn. */
  datatype Reader = Reader(next: nat, eof: bool, buffer: bytes)

  datatype ReadResult = Data(data: bytes) | Eof | Failed

  /** readRecord after its frame arrived: the checks in order, then Open. */
  function OpenRecord(d: Direction, r: Reader, log: seq<Sealed>, record: bytes): Option<bytes> {
    if |record| < NONCE_SIZE + OVERHEAD then None
    else if record[..NONCE_SIZE] != d.Nonce(r.next) then None
    else Lookup(log, d.Nonce(r.next), record[NONCE_SIZE..])
  }

  function Take(r: Reader, n: nat): (Reader, ReadResult) {
    var k := if n < |r.buffer| then n else |r.buffer|;
    (r.(buffer := r.buffer[k..]), Data(r.buffer[..k]))
  }

  /** One call of Read with room for n bytes, when the network offers this frame or none. */
  function ReadOnce(d: Direction, r: Reader, log: seq<Sealed>, frame: Option<bytes>, n: nat): (Reader, ReadResult) {
    if r.buffer != [] then Take(r, n)
    else if r.eof then (r, Eof)
    else if frame.None? then (r, Failed)
    else
      var plain := OpenRecord(d, r, log, frame.value);
      if plain.None? then (r, Failed)
      else if plain.value == [] then (r.(next := Next(r.next), eof := true), Eof)
      else Take(r.(next := Next(r.next), buffer := plain.value), n)
  }

  // --------------------------------------------------------------- reading in order

  function Plains(log: seq<Sealed>): (ps: seq<bytes>)
    ensures |ps| == |log|
  {
    seq(|log|, i requires 0 <= i < |log| => log[i].plain)
  }

  /** The log of a writer none of whose frames failed: only the last record may be empty. */
  ghost predicate CleanLog(d: Direction, log: seq<Sealed>) {
    && |log| < TWO_TO_THE_64
    && forall i | 0 <= i < |log| ::
         log[i] == d.Record(i, log[i].plain) && |log[i].plain| <= RECORD_SIZE && (log[i].plain == [] ==> i == |log| - 1)
  }

  /** What a reader has yet to return of a log. */
  ghost function Pending(r: Reader, log: seq<Sealed>): bytes
    requires r.next <= |log|
  {
    r.buffer + Concat(Plains(log[r.next..]))
  }

  lemma OpensInTurn(d: Direction, r: Reader, log: seq<Sealed>)
    requires d.Valid() && CleanLog(d, log) && r.next < |log|
    ensures OpenRecord(d, r, log, WireRecord(log[r.next])) == Some(log[r.next].plain)
  {
    hide PutUint64, Lookup;
    var k := r.next;
    var record := WireRecord(log[k]);
    assert log[k] == d.Record(k, log[k].plain);
    assert record[..NONCE_SIZE] == d.Nonce(k) && record[NONCE_SIZE..] == log[k].cipher;
    LookupSound(log, d.Nonce(k), log[k].cipher);
    assert Sealed(d.Nonce(k), log[k].plain, log[k].cipher) in log;
    var found := Sealed(d.Nonce(k), Lookup(log, d.Nonce(k), log[k].cipher).value, log[k].cipher);
    var i :| 0 <= i < |log| && log[i] == found;
    NonceInjective(d, i, k);
  }

  /** One Read in order returns the next pending bytes, whatever records they were split into. */
  lemma ReadInTurn(d: Direction, r: Reader, log: seq<Sealed>, frame: Option<bytes>, n: nat)
    requires d.Valid() && CleanLog(d, log) && r.next <= |log| && (r.eof ==> r.next == |log|)
    requires r.buffer == [] && !r.eof ==> frame == if r.next < |log| then Some(WireRecord(log[r.next])) else None
    ensures var (r', got) := ReadOnce(d, r, log, frame, n);
            && r'.next == (if r.buffer == [] && !r.eof && r.next < |log| then r.next + 1 else r.next)
            && (r'.eof ==> r'.next == |log|)
            && Pending(r, log) == (if got.Data? then got.data else []) + Pending(r', log)
            && (n > 0 && Pending(r, log) != [] ==> got.Data? && 0 < |got.data| <= n)
  {
    hide PutUint64, OpenRecord, WireRecord, CleanLog, Concat, Plains;
    if r.buffer != [] {
      var rest := Concat(Plains(log[r.next..]));
      var (r', got) := Take(r, n);
      assert r.buffer + rest == got.data + (r'.buffer + rest);
    } else if !r.eof && r.next < |log| {
      OpensInTurn(d, r, log);
      RecordInTurn(d, r, log, n);
    } else {
      NothingLeft(r, log);
    }
  }

  lemma RecordInTurn(d: Direction, r: Reader, log: seq<Sealed>, n: nat)
    requires CleanLog(d, log) && r.next < |log| && r.buffer == [] && !r.eof
    ensures var plain := log[r.next].plain;
            && Next(r.next) == r.next + 1
            && (plain == [] ==> r.next + 1 == |log| && Pending(r, log) == [] == Pending(r.(next := r.next + 1), log))
            && var (r', got) := Take(r.(next := r.next + 1, buffer := plain), n);
               Pending(r, log) == got.data + Pending(r', log)
  {
    hide PutUint64, Concat, Plains;
    var k, plain := r.next, log[r.next].plain;
    PendingSplits(r, log);
    var rest := Concat(Plains(log[k + 1..]));
    var (r', got) := Take(r.(next := k + 1, buffer := plain), n);
    assert plain + rest == got.data + (r'.buffer + rest);
    if plain == [] {
      assert log[k + 1..] == [];
      EmptyLog(log[k + 1..]);
    }
  }

  lemma PendingSplits(r: Reader, log: seq<Sealed>)
    requires r.next < |log| && r.buffer == []
    ensures Pending(r, log) == log[r.next].plain + Concat(Plains(log[r.next + 1..]))
  {
    var k := r.next;
    assert Plains(log[k..])[0] == log[k].plain && Plains(log[k..])[1..] == Plains(log[k + 1..]);
    assert Pending(r, log) == [] + (log[k].plain + Concat(Plains(log[k + 1..])));
  }

  lemma EmptyLog(log: seq<Sealed>)
    requires log == []
    ensures Concat(Plains(log)) == []
  {
  }

  lemma NothingLeft(r: Reader, log: seq<Sealed>)
    requires r.next <= |log| && r.buffer == [] && (r.eof ==> r.next == |log|)
    ensures r.next == |log| ==> Pending(r, log) == []
    ensures Pending(r, log) == [] + Pending(r, log)
  {
    assert r.next == |log| ==> log[r.next..] == [];
  }
}
