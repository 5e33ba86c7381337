/**
 * One direction of a tunnel over a hostile network: every run of Write, CloseWrite and Read
 * in which the network offers the reader any frames at all, so that it may drop, duplicate,
 * reorder and inject, and in which the caller keeps reading after failed Reads.
 */
module Stream {
  import opened Wrappers
  import opened ByteStrings
  import opened Records
  import Frame
  import Conn

  /**
   * The two ends and the history. `data` lists the plaintext of every data record ever
   * sealed, `marker` the sequence number of the end-of-stream record, `accepted` the bytes
   * Write has counted and `delivered` the bytes Read has returned. `failed` says that some
   * data frame could not be written.
   */
  datatype Stream = Stream(writer: Writer, reader: Reader, failed: bool,
                           data: seq<bytes>, marker: Option<nat>, accepted: bytes, delivered: bytes)

  const NEW_STREAM: Stream := Stream(Writer(0, false, []), Reader(0, false, []), false, [], None, [], [])

  datatype Event =
    | Write(p: bytes, good: nat, failed: bool)  // `good` records sent, then an error or not
    | CloseWrite
    | Read(frame: Option<bytes>, n: nat)        // the network's frame, the caller's buffer size

  /** What the caller must respect: no Write after one that could not send a data frame. */
  ghost predicate Enabled(s: Stream, e: Event) {
    match e
    case Write(p, good, failed) =>
      !s.failed && if failed then good < |Chunks(p)| else good == |Chunks(p)|
    case CloseWrite => true
    case Read(_, _) => true
  }

  function Sealed(good: nat, failed: bool): nat { good + if failed then 1 else 0 }

  function Apply(d: Direction, s: Stream, e: Event): Stream {
    match e
    case Write(p, good, failed) =>
      if s.writer.closed || Sealed(good, failed) > |Chunks(p)| then s
      else s.(writer := WriteOnce(d, s.writer, p, good, failed), failed := s.failed || failed,
              data := s.data + Chunks(p)[..Sealed(good, failed)],
              accepted := s.accepted + Concat(Chunks(p)[..good]))
    case CloseWrite =>
      if s.writer.closed then s
      else s.(writer := CloseOnce(d, s.writer), marker := Some(s.writer.next))
    case Read(frame, n) =>
      var (reader, r) := ReadOnce(d, s.reader, s.writer.log, frame, n);
      s.(reader := reader, delivered := s.delivered + if r.Data? then r.data else [])
  }

  function Run(d: Direction, s: Stream, es: seq<Event>): Stream
    decreases es
  {
    if es == [] then s else Run(d, Apply(d, s, es[0]), es[1..])
  }

  /** Runs of fewer than 2^64 records in which the caller stops writing after a failure. */
  ghost predicate ValidRun(d: Direction, s: Stream, es: seq<Event>)
    decreases es
  {
    && |s.writer.log| < TWO_TO_THE_64
    && (es == [] || (Enabled(s, es[0]) && ValidRun(d, Apply(d, s, es[0]), es[1..])))
  }

  // ------------------------------------------------------------------------ invariant

  function MarkerRecord(d: Direction, marker: Option<nat>): seq<Records.Sealed> {
    if marker.Some? then [d.Record(marker.value, [])] else []
  }

  /** How many of the data records Write counted: all, or all but the one that failed. */
  function Counted(s: Stream): int { |s.data| - if s.failed then 1 else 0 }

  ghost predicate WriterInv(d: Direction, s: Stream) {
    && s.writer.log == SealAll(d, 0, s.data) + MarkerRecord(d, s.marker)
    && |s.writer.log| < TWO_TO_THE_64
    && (forall i | 0 <= i < |s.data| :: 0 < |s.data[i]| <= RECORD_SIZE)
    && 0 <= Counted(s)
    && s.accepted == Concat(s.data[..Counted(s)])
    && s.writer.next == Counted(s) + (if s.writer.closed then 1 else 0)
    && s.marker == if s.writer.closed then Some(Counted(s)) else None
  }

  ghost predicate ReaderInv(s: Stream) {
    if s.reader.eof then
      && s.marker.Some? && s.marker.value <= |s.data| && s.reader.next == s.marker.value + 1
      && s.reader.buffer == [] && s.delivered == Concat(s.data[..s.marker.value])
    else
      && s.reader.next <= |s.data|
      && s.delivered + s.reader.buffer == Concat(s.data[..s.reader.next])
  }

  ghost predicate Inv(d: Direction, s: Stream) {
    d.Valid() && WriterInv(d, s) && ReaderInv(s)
  }

  /** Every sealed record is a data record or the end marker, under its own number. */
  lemma EntryOf(d: Direction, s: Stream, i: nat) returns (t: nat)
    requires WriterInv(d, s) && i < |s.writer.log|
    ensures t < TWO_TO_THE_64 && s.writer.log[i] == d.Record(t, s.writer.log[i].plain)
    ensures || (i < |s.data| && t == i && s.writer.log[i].plain == s.data[i])
            || (i == |s.data| && s.marker == Some(t) && s.writer.log[i].plain == [])
  {
    hide PutUint64;
    t := if i < |s.data| then i else s.marker.value;
  }

  /** Open never returns anything but the next data record or the end marker. */
  lemma OpenedIsNext(d: Direction, s: Stream, record: bytes)
    requires Inv(d, s) && !s.reader.eof
    ensures var plain := OpenRecord(d, s.reader, s.writer.log, record);
            plain.Some? ==>
              || (s.reader.next < |s.data| && plain.value == s.data[s.reader.next])
              || (s.marker == Some(s.reader.next) && plain.value == [])
  {
    hide PutUint64, SealAll, Concat, Lookup;
    var plain := OpenRecord(d, s.reader, s.writer.log, record);
    if plain.Some? {
      var cipher := record[NONCE_SIZE..];
      LookupSound(s.writer.log, d.Nonce(s.reader.next), cipher);
      var i :| 0 <= i < |s.writer.log| && s.writer.log[i] == Records.Sealed(d.Nonce(s.reader.next), plain.value, cipher);
      var t := EntryOf(d, s, i);
      NonceInjective(d, s.reader.next, t);
    }
  }

  lemma ReadKeepsInv(d: Direction, s: Stream, frame: Option<bytes>, n: nat)
    requires Inv(d, s)
    ensures Inv(d, Apply(d, s, Read(frame, n)))
  {
    hide PutUint64, SealAll, Concat, OpenRecord, Take, WriterInv;
    var s' := Apply(d, s, Read(frame, n));
    var r := s.reader;
    assert WriterInv(d, s') by { SameWriter(d, s, s'); }
    if r.buffer != [] {
      TakeSplits(r, n);
      PrefixMoves(s.delivered, r.buffer, Take(r, n).1.data, Take(r, n).0.buffer);
    } else if !r.eof && frame.Some? && OpenRecord(d, r, s.writer.log, frame.value).Some? {
      OpenedIsNext(d, s, frame.value);
      var plain := OpenRecord(d, r, s.writer.log, frame.value).value;
      MarkerInRange(d, s);
      if plain != [] {
        var r' := r.(next := Next(r.next), buffer := plain);
        assert s.data[..r.next + 1] == s.data[..r.next] + [plain];
        ConcatSnoc(s.data[..r.next], plain);
        TakeSplits(r', n);
        PrefixMoves(s.delivered, plain, Take(r', n).1.data, Take(r', n).0.buffer);
        assert s.delivered + r.buffer == s.delivered;
      } else {
        assert s.delivered == s.delivered + r.buffer;
      }
    }
  }

  lemma SameWriter(d: Direction, s: Stream, s': Stream)
    requires s' == s.(reader := s'.reader, delivered := s'.delivered) && WriterInv(d, s)
    ensures WriterInv(d, s')
  {
    hide PutUint64, SealAll, Concat;
  }

  lemma MarkerInRange(d: Direction, s: Stream)
    requires WriterInv(d, s)
    ensures |s.data| < TWO_TO_THE_64 && (s.marker.Some? ==> s.marker.value <= |s.data| && |s.data| + 1 < TWO_TO_THE_64)
    ensures forall i | 0 <= i < |s.data| :: s.data[i] != []
  {
    hide PutUint64, Concat;
  }

  lemma PrefixMoves(done: bytes, buffer: bytes, taken: bytes, left: bytes)
    requires taken + left == buffer
    ensures (done + taken) + left == done + buffer
  {
  }

  lemma TakeSplits(r: Reader, n: nat)
    ensures var (r', t) := Take(r, n);
            r'.next == r.next && r'.eof == r.eof && t.Data? && t.data + r'.buffer == r.buffer
  {
  }

  lemma WriteKeepsInv(d: Direction, s: Stream, p: bytes, good: nat, failed: bool)
    requires Inv(d, s) && Enabled(s, Write(p, good, failed))
    requires |Apply(d, s, Write(p, good, failed)).writer.log| < TWO_TO_THE_64
    ensures Inv(d, Apply(d, s, Write(p, good, failed)))
  {
    hide PutUint64, Concat, Chunks, SealAll;
    if !s.writer.closed {
      var s' := Apply(d, s, Write(p, good, failed));
      assert s'.data[..s.reader.next] == s.data[..s.reader.next];
      assert ReaderInv(s');
      WriteKeepsWriterInv(d, s, p, good, failed);
    }
  }

  lemma WriteKeepsWriterInv(d: Direction, s: Stream, p: bytes, good: nat, failed: bool)
    requires Inv(d, s) && Enabled(s, Write(p, good, failed)) && !s.writer.closed
    requires |Apply(d, s, Write(p, good, failed)).writer.log| < TWO_TO_THE_64
    ensures WriterInv(d, Apply(d, s, Write(p, good, failed)))
  {
    hide PutUint64, Concat, Chunks, SealAll, ReaderInv;
    LogAfterWrite(d, s, p, good, failed);
    AcceptedAfterWrite(d, s, p, good, failed);
    ChunksJoin(p);
    hide MarkerRecord;
    var s' := Apply(d, s, Write(p, good, failed));
    assert s'.writer.next == Counted(s');
    assert |s'.writer.log| < TWO_TO_THE_64;
  }

  lemma AcceptedAfterWrite(d: Direction, s: Stream, p: bytes, good: nat, failed: bool)
    requires WriterInv(d, s) && Enabled(s, Write(p, good, failed)) && !s.writer.closed
    ensures var s' := Apply(d, s, Write(p, good, failed));
            0 <= Counted(s') && s'.accepted == Concat(s'.data[..Counted(s')])
  {
    hide PutUint64, Concat, Chunks, SealAll, MarkerRecord;
    CountedAfterWrite(s, Chunks(p), good, failed);
    ConcatAppend(s.data, Chunks(p)[..good]);
    assert s.data[..|s.data|] == s.data;
  }

  lemma LogAfterWrite(d: Direction, s: Stream, p: bytes, good: nat, failed: bool)
    requires WriterInv(d, s) && !s.failed && !s.writer.closed && Sealed(good, failed) <= |Chunks(p)|
    ensures var s' := Apply(d, s, Write(p, good, failed));
            s'.writer.log == SealAll(d, 0, s'.data) + MarkerRecord(d, s'.marker)
  {
    hide PutUint64, Concat, Chunks, SealAll;
    SealAllSplits(d, s.data, Chunks(p)[..Sealed(good, failed)]);
    assert SealAll(d, 0, s.data) + [] == SealAll(d, 0, s.data);
    var all := s.data + Chunks(p)[..Sealed(good, failed)];
    assert SealAll(d, 0, all) + [] == SealAll(d, 0, all);
  }

  lemma SealAllSplits(d: Direction, data: seq<bytes>, chunks: seq<bytes>)
    requires |data| < TWO_TO_THE_64
    ensures SealAll(d, 0, data + chunks) == SealAll(d, 0, data) + SealAll(d, |data|, chunks)
  {
    hide PutUint64;
  }

  lemma CountedAfterWrite(s: Stream, chunks: seq<bytes>, good: nat, failed: bool)
    requires Sealed(good, failed) <= |chunks|
    ensures (s.data + chunks[..Sealed(good, failed)])[..|s.data| + good] == s.data + chunks[..good]
  {
  }

  lemma StepKeepsInv(d: Direction, s: Stream, e: Event)
    requires Inv(d, s) && Enabled(s, e) && |Apply(d, s, e).writer.log| < TWO_TO_THE_64
    ensures Inv(d, Apply(d, s, e))
  {
    hide Inv, ReadOnce, WriteOnce, CloseOnce;
    match e
    case Write(p, good, failed) => WriteKeepsInv(d, s, p, good, failed);
    case CloseWrite => CloseKeepsInv(d, s);
    case Read(frame, n) => ReadKeepsInv(d, s, frame, n);
  }

  lemma CloseKeepsInv(d: Direction, s: Stream)
    requires Inv(d, s) && |Apply(d, s, CloseWrite).writer.log| < TWO_TO_THE_64
    ensures Inv(d, Apply(d, s, CloseWrite))
  {
    CloseKeepsWriterInv(d, s);
    hide PutUint64, Concat, SealAll, WriterInv, CloseOnce, MarkerRecord;
    assert WriterInv(d, s) ==> (s.marker.Some? <==> s.writer.closed) by { MarkerWhenClosed(d, s); }
  }

  lemma MarkerWhenClosed(d: Direction, s: Stream)
    requires WriterInv(d, s)
    ensures s.marker.Some? <==> s.writer.closed
  {
    hide Concat, SealAll, MarkerRecord;
  }

  lemma CloseKeepsWriterInv(d: Direction, s: Stream)
    requires WriterInv(d, s) && |Apply(d, s, CloseWrite).writer.log| < TWO_TO_THE_64
    ensures WriterInv(d, Apply(d, s, CloseWrite))
  {
    hide PutUint64, Concat, SealAll;
    if !s.writer.closed {
      assert s.writer.log == SealAll(d, 0, s.data);
      assert MarkerRecord(d, Some(s.writer.next)) == [d.Record(s.writer.next, [])];
    }
  }

  lemma {:induction false} RunKeepsInv(d: Direction, s: Stream, es: seq<Event>)
    requires Inv(d, s) && ValidRun(d, s, es)
    ensures Inv(d, Run(d, s, es))
    decreases es
  {
    if es != [] {
      StepKeepsInv(d, s, es[0]);
      RunKeepsInv(d, Apply(d, s, es[0]), es[1..]);
    }
  }

  lemma FreshInv(d: Direction)
    requires d.Valid()
    ensures Inv(d, NEW_STREAM)
  {
  }

  // -------------------------------------------------------------------- safety theorems

  /**
   * Stream safety: whatever the network does, the bytes Read returned are a prefix of the
   * bytes handed to Write, and of the bytes Write counted unless a data frame failed. The
   * reader reaches the end only after CloseWrite, with every counted byte delivered.
   */
  lemma StreamSafety(d: Direction, es: seq<Event>)
    requires d.Valid() && ValidRun(d, NEW_STREAM, es)
    ensures var s := Run(d, NEW_STREAM, es);
            && s.delivered <= Concat(s.data)
            && s.accepted <= Concat(s.data)
            && (!s.failed ==> s.delivered <= s.accepted)
            && (s.reader.eof ==> s.writer.closed && s.delivered == s.accepted)
  {
    RunKeepsInv(d, NEW_STREAM, es);
    var s := Run(d, NEW_STREAM, es);
    var k := if s.reader.eof then s.marker.value else s.reader.next;
    ConcatPrefix(s.data, k);
    ConcatPrefix(s.data, Counted(s));
    assert s.delivered <= Concat(s.data[..k]);
    assert !s.failed ==> s.data[..Counted(s)] == s.data;
  }

  /**
   * The counter is the number of records sealed, less a failed one; the reader is never
   * ahead of what was sealed, and at the end it has counted exactly what the writer has.
   */
  lemma CountersAgree(d: Direction, es: seq<Event>)
    requires d.Valid() && ValidRun(d, NEW_STREAM, es)
    ensures var s := Run(d, NEW_STREAM, es);
            && |s.writer.log| == s.writer.next + (if s.failed then 1 else 0)
            && s.reader.next <= s.writer.next + (if s.failed then 1 else 0)
            && (s.reader.eof ==> s.reader.next == s.writer.next)
  {
    RunKeepsInv(d, NEW_STREAM, es);
  }

  ghost predicate DistinctNonces(log: seq<Records.Sealed>) {
    forall i, j | 0 <= i < j < |log| :: log[i].nonce != log[j].nonce
  }

  /** A call that can happen: it sends all its records, or fails at one of them. */
  predicate Possible(e: Event) {
    e.Write? ==> if e.failed then e.good < |Chunks(e.p)| else e.good == |Chunks(e.p)|
  }

  /** Runs of fewer than 2^64 records, whatever the caller does after a failure. */
  ghost predicate AnyRun(d: Direction, s: Stream, es: seq<Event>)
    decreases es
  {
    && |s.writer.log| < TWO_TO_THE_64
    && (es == [] || (Possible(es[0]) && AnyRun(d, Apply(d, s, es[0]), es[1..])))
  }

  /** A call that seals a record, on a direction that has not been closed. */
  predicate Reseals(s: Stream, e: Event) {
    s.failed && !s.writer.closed && (e.CloseWrite? || (e.Write? && e.p != []))
  }

  /** Some call of the run writes data or closes after a data frame has failed. */
  predicate UsedAfterFailure(d: Direction, s: Stream, es: seq<Event>)
    decreases es
  {
    es != [] && (Reseals(s, es[0]) || UsedAfterFailure(d, Apply(d, s, es[0]), es[1..]))
  }

  /**
   * Nonce discipline: over every run, all nonces are different if and only if the writer
   * never writes data or closes once a data frame has failed.
   */
  lemma NoncesDistinctIff(d: Direction, es: seq<Event>)
    requires d.Valid() && AnyRun(d, NEW_STREAM, es)
    ensures DistinctNonces(Run(d, NEW_STREAM, es).writer.log) <==> !UsedAfterFailure(d, NEW_STREAM, es)
  {
    FreshInv(d);
    NoncesFrom(d, NEW_STREAM, es);
  }

  lemma {:induction false} NoncesFrom(d: Direction, s: Stream, es: seq<Event>)
    requires Inv(d, s) && !(s.failed && s.writer.closed) && AnyRun(d, s, es)
    ensures DistinctNonces(Run(d, s, es).writer.log) <==> !UsedAfterFailure(d, s, es)
    decreases es
  {
    hide WriterInv, ReaderInv, Apply;
    if es == [] {
      NoncesOf(d, s);
    } else if Reseals(s, es[0]) {
      ResealRepeats(d, s, es[0]);
      LogGrows(d, Apply(d, s, es[0]), es[1..]);
      var k, log := |s.data|, Run(d, s, es).writer.log;
      assert log[k - 1].nonce == log[k].nonce;
    } else {
      NoReseal(d, s, es[0]);
      NoncesFrom(d, Apply(d, s, es[0]), es[1..]);
    }
  }

  lemma NoReseal(d: Direction, s: Stream, e: Event)
    requires Inv(d, s) && !(s.failed && s.writer.closed) && !Reseals(s, e) && Possible(e)
    requires |Apply(d, s, e).writer.log| < TWO_TO_THE_64
    ensures var s' := Apply(d, s, e); Inv(d, s') && !(s'.failed && s'.writer.closed)
  {
    if Enabled(s, e) {
      StepKeepsInv(d, s, e);
      hide Inv, ReadOnce;
    } else {
      EmptyWrite(d, s, e);
    }
  }

  lemma EmptyWrite(d: Direction, s: Stream, e: Event)
    requires WriterInv(d, s) && Possible(e) && e.Write? && e.p == []
    ensures Apply(d, s, e) == s
  {
    hide PutUint64, SealAll;
    assert s.data + [] == s.data && s.writer.log + [] == s.writer.log && s.accepted + [] == s.accepted;
  }

  /** The record sealed after a failed one has the failed one's nonce. */
  lemma ResealRepeats(d: Direction, s: Stream, e: Event)
    requires Inv(d, s) && Reseals(s, e) && Possible(e)
    ensures var log := Apply(d, s, e).writer.log;
            0 < |s.data| < |log| && log[|s.data| - 1].nonce == log[|s.data|].nonce
  {
    hide PutUint64, Concat;
    var log := Apply(d, s, e).writer.log;
    assert s.writer.log[|s.data| - 1] == d.Record(|s.data| - 1, s.data[|s.data| - 1]);
    if e.Write? { ChunksJoin(e.p); }
    assert log[|s.data|].nonce == d.Nonce(s.writer.next);
  }

  lemma {:induction false} LogGrows(d: Direction, s: Stream, es: seq<Event>)
    ensures s.writer.log <= Run(d, s, es).writer.log
    decreases es
  {
    hide ReadOnce, SealAll, Concat, Chunks;
    if es != [] {
      LogGrows(d, Apply(d, s, es[0]), es[1..]);
    }
  }

  /** What relay does after a copy that failed on its first frame: the end marker repeats its nonce. */
  lemma CloseAfterFailureRepeats(d: Direction)
    requires d.Valid()
    ensures var es := [Write([1], 0, true), CloseWrite];
            && ValidRun(d, NEW_STREAM, es) && Run(d, NEW_STREAM, es).failed && Run(d, NEW_STREAM, es).writer.closed
            && !DistinctNonces(Run(d, NEW_STREAM, es).writer.log)
  {
    hide PutUint64;
    var es := [Write([1], 0, true), CloseWrite];
    var s1 := Apply(d, NEW_STREAM, es[0]);
    assert es[1..] == [CloseWrite] && es[1..][1..] == [];
    assert |s1.writer.log| == 1 && s1.failed && !s1.writer.closed;
    assert Reseals(s1, es[1]);
    assert Run(d, NEW_STREAM, es) == Apply(d, s1, CloseWrite);
    assert ValidRun(d, NEW_STREAM, es) by { assert ValidRun(d, s1, es[1..]); }
    assert AnyRun(d, NEW_STREAM, es) by { assert AnyRun(d, s1, es[1..]); }
    assert UsedAfterFailure(d, NEW_STREAM, es) by { assert UsedAfterFailure(d, s1, es[1..]); }
    NoncesDistinctIff(d, es);
  }

  lemma NoncesOf(d: Direction, s: Stream)
    requires WriterInv(d, s)
    ensures DistinctNonces(s.writer.log) <==> !(s.failed && s.writer.closed)
  {
    hide PutUint64, SealAll, Concat;
    var log := s.writer.log;
    if s.failed && s.writer.closed {
      var t := EntryOf(d, s, |s.data| - 1);
      var u := EntryOf(d, s, |s.data|);
      assert log[|s.data| - 1].nonce == log[|s.data|].nonce;
    } else {
      forall i, j | 0 <= i < j < |log| ensures log[i].nonce != log[j].nonce {
        DifferentNonces(d, s, i, j);
      }
    }
  }

  lemma DifferentNonces(d: Direction, s: Stream, i: nat, j: nat)
    requires WriterInv(d, s) && i < j < |s.writer.log| && !(s.failed && s.writer.closed)
    ensures s.writer.log[i].nonce != s.writer.log[j].nonce
  {
    var t := EntryOf(d, s, i);
    var u := EntryOf(d, s, j);
    hide PutUint64, SealAll, Concat, MarkerRecord;
    if d.Nonce(t) == d.Nonce(u) {
      NonceInjective(d, t, u);
    }
  }

  // ------------------------------------------------------------------- exact condition

  /** The frame an in-order network offers: the record the reader is waiting for. */
  function InOrder(s: Stream): Option<bytes> {
    if s.reader.next < |s.writer.log| then Some(WireRecord(s.writer.log[s.reader.next])) else None
  }

  /** A data record that reaches the reader in turn opens to its own plaintext. */
  lemma InOrderOpens(d: Direction, s: Stream)
    requires Inv(d, s) && !s.reader.eof && s.reader.next < |s.data|
    ensures OpenRecord(d, s.reader, s.writer.log, InOrder(s).value) == Some(s.data[s.reader.next])
  {
    var log, k := s.writer.log, s.reader.next;
    var record := WireRecord(log[k]);
    assert log[k] == d.Record(k, s.data[k]);
    assert record[..NONCE_SIZE] == d.Nonce(k) && record[NONCE_SIZE..] == log[k].cipher;
    LookupSound(log, d.Nonce(k), log[k].cipher);
    var plain := Lookup(log, d.Nonce(k), log[k].cipher);
    assert Records.Sealed(d.Nonce(k), s.data[k], log[k].cipher) in log;
    OpenedIsNext(d, s, record);
    SealedLength(d, s, Records.Sealed(d.Nonce(k), plain.value, log[k].cipher));
  }

  lemma SealedLength(d: Direction, s: Stream, entry: Records.Sealed)
    requires Inv(d, s) && entry in s.writer.log
    ensures |entry.cipher| == |entry.plain| + OVERHEAD
  {
  }

  lemma MarkerOpens(d: Direction, s: Stream)
    requires Inv(d, s) && !s.reader.eof && !s.failed && s.writer.closed && s.reader.next == |s.data|
    ensures InOrder(s).Some? && OpenRecord(d, s.reader, s.writer.log, InOrder(s).value) == Some([])
  {
    var log, k := s.writer.log, s.reader.next;
    var record := WireRecord(log[k]);
    assert log[k] == d.Record(k, []);
    assert record[..NONCE_SIZE] == d.Nonce(k) && record[NONCE_SIZE..] == log[k].cipher;
    LookupSound(log, d.Nonce(k), log[k].cipher);
    assert Records.Sealed(d.Nonce(k), [], log[k].cipher) in log;
    OpenedIsNext(d, s, record);
  }

  /** Reads in order, one per size asked for. */
  function FeedReads(d: Direction, s: Stream, ns: seq<nat>): Stream
    decreases ns
  {
    if ns == [] then s else FeedReads(d, Apply(d, s, Read(InOrder(s), ns[0])), ns[1..])
  }

  function ReadResultOf(d: Direction, s: Stream, n: nat): ReadResult {
    ReadOnce(d, s.reader, s.writer.log, InOrder(s), n).1
  }

  /** One in-order Read with room makes progress until every sealed byte is delivered. */
  lemma InOrderProgress(d: Direction, s: Stream, n: nat)
    requires Inv(d, s) && n > 0 && !s.reader.eof
    requires s.reader.buffer != [] || s.reader.next < |s.data|
    ensures var s' := Apply(d, s, Read(InOrder(s), n));
            var r := ReadResultOf(d, s, n);
            && Inv(d, s') && s' == s.(reader := s'.reader, delivered := s'.delivered)
            && !s'.reader.eof && r.Data? && 0 < |r.data| <= n && s'.delivered == s.delivered + r.data
  {
    ReadKeepsInv(d, s, InOrder(s), n);
    if s.reader.buffer == [] {
      InOrderOpens(d, s);
    }
  }

  /** A reader that has not seen the end can be brought to deliver everything sealed. */
  lemma {:induction false} DrainedReader(d: Direction, s: Stream) returns (ns: seq<nat>)
    requires Inv(d, s) && !s.reader.eof
    ensures FeedReads(d, s, ns).delivered == Concat(s.data)
    decreases |Concat(s.data)| - |s.delivered|
  {
    ConcatPrefix(s.data, s.reader.next);
    if s.reader.buffer == [] && s.reader.next == |s.data| {
      assert s.data[..s.reader.next] == s.data;
      assert s.delivered + s.reader.buffer == s.delivered;
      return [];
    }
    InOrderProgress(d, s, 1);
    var s' := Apply(d, s, Read(InOrder(s), 1));
    ConcatPrefix(s'.data, s'.reader.next);
    assert |s'.delivered| <= |s'.delivered + s'.reader.buffer| <= |Concat(s.data)|;
    var rest := DrainedReader(d, s');
    ns := [1] + rest;
    assert ns[1..] == rest;
  }

  /** Everything the network can do to a reader from here on. */
  ghost predicate SafeFromHere(d: Direction, s: Stream) {
    forall calls: seq<Event> | OnlyReads(calls) :: Run(d, s, calls).delivered <= s.accepted
  }

  ghost predicate OnlyReads(es: seq<Event>) {
    forall e | e in es :: e.Read?
  }

  lemma {:induction false} FeedIsRun(d: Direction, s: Stream, ns: seq<nat>) returns (calls: seq<Event>)
    ensures OnlyReads(calls) && Run(d, s, calls) == FeedReads(d, s, ns)
    decreases ns
  {
    if ns == [] {
      return [];
    }
    var e := Read(InOrder(s), ns[0]);
    var rest := FeedIsRun(d, Apply(d, s, e), ns[1..]);
    calls := [e] + rest;
    assert calls[1..] == rest;
  }

  lemma {:induction false} ReadsKeepWriter(d: Direction, s: Stream, calls: seq<Event>)
    requires Inv(d, s) && OnlyReads(calls)
    ensures var s' := Run(d, s, calls); Inv(d, s') && s'.accepted == s.accepted && s'.failed == s.failed
    decreases calls
  {
    if calls != [] {
      assert calls[0] in calls;
      assert forall e | e in calls[1..] :: e in calls;
      ReadKeepsInv(d, s, calls[0].frame, calls[0].n);
      ReadsKeepWriter(d, Apply(d, s, calls[0]), calls[1..]);
    }
  }

  /**
   * Exactly when counted bytes bound delivered bytes: for a reader that has not seen the
   * end, every network keeps Read within what Write counted if and only if no data frame
   * failed. A failed frame's record is sealed, so a network that got it can deliver it.
   */
  lemma CountedBoundsDeliveredIff(d: Direction, es: seq<Event>)
    requires d.Valid() && ValidRun(d, NEW_STREAM, es) && !Run(d, NEW_STREAM, es).reader.eof
    ensures SafeFromHere(d, Run(d, NEW_STREAM, es)) <==> !Run(d, NEW_STREAM, es).failed
  {
    RunKeepsInv(d, NEW_STREAM, es);
    var s := Run(d, NEW_STREAM, es);
    if s.failed {
      FailedFrameDelivered(d, s);
    } else {
      forall calls: seq<Event> | OnlyReads(calls) ensures Run(d, s, calls).delivered <= s.accepted {
        hide Run, Inv;
        ReadsKeepWriter(d, s, calls);
        DeliveredIsCounted(d, Run(d, s, calls));
      }
    }
  }

  lemma FailedFrameDelivered(d: Direction, s: Stream)
    requires Inv(d, s) && s.failed && !s.reader.eof
    ensures !SafeFromHere(d, s)
  {
    var ns := DrainedReader(d, s);
    var calls := FeedIsRun(d, s, ns);
    LastIsMore(d, s);
    hide Inv, Run, FeedReads, Concat;
    assert |Run(d, s, calls).delivered| > |s.accepted|;
  }

  lemma LastIsMore(d: Direction, s: Stream)
    requires WriterInv(d, s) && s.failed
    ensures |Concat(s.data)| > |s.accepted|
  {
    hide SealAll, Concat, MarkerRecord;
    var last := s.data[Counted(s)];
    assert s.data == s.data[..Counted(s)] + [last];
    ConcatSnoc(s.data[..Counted(s)], last);
  }

  lemma DeliveredIsCounted(d: Direction, s: Stream)
    requires Inv(d, s) && !s.failed
    ensures s.delivered <= s.accepted
  {
    hide PutUint64, SealAll, Concat, MarkerRecord;
    var k := if s.reader.eof then s.marker.value else s.reader.next;
    ConcatPrefix(s.data, k);
    assert s.data[..Counted(s)] == s.data;
    assert s.delivered <= Concat(s.data[..k]);
  }

  // ------------------------------------------------------------ writing after a failure

  /** The state after a Write of p that sends everything. */
  function Rewritten(d: Direction, s: Stream, p: bytes): Stream { Apply(d, s, Write(p, |Chunks(p)|, false)) }

  /** The plaintexts of the stream if the reader gets the failed record, and if it gets the one that replaces it. */
  function WithFailed(s: Stream, p: bytes): seq<bytes>
    requires p != []
  {
    s.data + Chunks(p)[1..]
  }

  function WithRetry(s: Stream, p: bytes): seq<bytes>
    requires s.data != []
  {
    s.data[..|s.data| - 1] + Chunks(p)
  }

  predicate CanRewrite(d: Direction, s: Stream, p: bytes) {
    && s.failed && !s.writer.closed && s.data != [] && p != []
    && |Rewritten(d, s, p).writer.log| < TWO_TO_THE_64
  }

  /** A record that carries, under its number, what one of two streams has there. */
  ghost predicate OneOf(d: Direction, e: Records.Sealed, a: seq<bytes>, b: seq<bytes>)
    requires |a| == |b|
  {
    exists t | 0 <= t < |a| :: t < TWO_TO_THE_64 && (e == d.Record(t, a[t]) || e == d.Record(t, b[t]))
  }

  ghost predicate OneOfTwo(d: Direction, log: seq<Records.Sealed>, a: seq<bytes>, b: seq<bytes>)
    requires |a| == |b|
  {
    forall i | 0 <= i < |log| :: OneOf(d, log[i], a, b)
  }

  lemma SealAllAt(d: Direction, s: nat, plains: seq<bytes>, i: nat)
    requires i < |plains| && s + i < TWO_TO_THE_64
    ensures SealAll(d, s, plains)[i] == d.Record(s + i, plains[i])
  {
    hide PutUint64;
  }

  lemma RewrittenLog(d: Direction, s: Stream, p: bytes)
    requires Inv(d, s) && CanRewrite(d, s, p)
    ensures Rewritten(d, s, p).writer.log == SealAll(d, 0, s.data) + SealAll(d, |s.data| - 1, Chunks(p))
    ensures Rewritten(d, s, p).accepted == s.accepted + p
    ensures Rewritten(d, s, p).reader == s.reader && Rewritten(d, s, p).delivered == s.delivered
  {
    hide PutUint64, Concat, Chunks, SealAll;
    assert Chunks(p)[..|Chunks(p)|] == Chunks(p);
    ChunksJoin(p);
    assert SealAll(d, 0, s.data) + [] == SealAll(d, 0, s.data);
  }

  lemma RewrittenIsOneOfTwo(d: Direction, s: Stream, p: bytes)
    requires Inv(d, s) && CanRewrite(d, s, p) && Chunks(p) != []
    ensures |WithFailed(s, p)| == |WithRetry(s, p)| < TWO_TO_THE_64
    ensures OneOfTwo(d, Rewritten(d, s, p).writer.log, WithFailed(s, p), WithRetry(s, p))
  {
    hide PutUint64, Concat, Chunks, SealAll;
    RewrittenLog(d, s, p);
    var log, n, a, b := Rewritten(d, s, p).writer.log, |s.data|, WithFailed(s, p), WithRetry(s, p);
    forall i | 0 <= i < |log| ensures OneOf(d, log[i], a, b) {
      if i < n {
        SealAllAt(d, 0, s.data, i);
        assert log[i] == d.Record(i, a[i]);
      } else {
        SealAllAt(d, n - 1, Chunks(p), i - n);
        assert log[i] == d.Record(i - 1, b[i - 1]);
      }
    }
  }

  /** What a reader of such a log can have delivered: part of the one stream or of the other. */
  ghost predicate ReadsEither(r: Reader, delivered: bytes, a: seq<bytes>, b: seq<bytes>) {
    && !r.eof && r.next <= |a| && |a| == |b|
    && (delivered + r.buffer == Concat(a[..r.next]) || delivered + r.buffer == Concat(b[..r.next]))
  }

  /** Two streams that differ at one place only, and have no empty record. */
  predicate DifferAt(a: seq<bytes>, b: seq<bytes>, c: nat) {
    && |a| == |b| && c < |a| < TWO_TO_THE_64
    && forall i | 0 <= i < |a| :: a[i] != [] && b[i] != [] && (i != c ==> a[i] == b[i])
  }

  lemma OpensEither(d: Direction, r: Reader, log: seq<Records.Sealed>, frame: bytes, a: seq<bytes>, b: seq<bytes>)
    requires |a| == |b| && OneOfTwo(d, log, a, b) && r.next <= |a| < TWO_TO_THE_64
    ensures var plain := OpenRecord(d, r, log, frame);
            plain.Some? ==> r.next < |a| && (plain.value == a[r.next] || plain.value == b[r.next])
  {
    hide PutUint64;
    var plain := OpenRecord(d, r, log, frame);
    if plain.Some? {
      LookupSound(log, d.Nonce(r.next), frame[NONCE_SIZE..]);
      var i :| 0 <= i < |log| && log[i] == Records.Sealed(d.Nonce(r.next), plain.value, frame[NONCE_SIZE..]);
      assert OneOf(d, log[i], a, b);
      var t :| 0 <= t < |a| && t < TWO_TO_THE_64 && (log[i] == d.Record(t, a[t]) || log[i] == d.Record(t, b[t]));
      NonceInjective(d, t, r.next);
    }
  }

  lemma NextOfEither(a: seq<bytes>, b: seq<bytes>, c: nat, k: nat, plain: bytes, before: bytes)
    requires DifferAt(a, b, c) && k < |a| && (plain == a[k] || plain == b[k])
    requires before == Concat(a[..k]) || before == Concat(b[..k])
    ensures before + plain == Concat(a[..k + 1]) || before + plain == Concat(b[..k + 1])
  {
    assert a[..k + 1] == a[..k] + [a[k]] && b[..k + 1] == b[..k] + [b[k]];
    ConcatSnoc(a[..k], a[k]);
    ConcatSnoc(b[..k], b[k]);
    if k <= c { assert a[..k] == b[..k]; }
  }

  lemma ReadKeepsEither(d: Direction, r: Reader, delivered: bytes, log: seq<Records.Sealed>, frame: Option<bytes>, n: nat,
                        a: seq<bytes>, b: seq<bytes>, c: nat)
    requires DifferAt(a, b, c) && OneOfTwo(d, log, a, b) && ReadsEither(r, delivered, a, b)
    ensures var (r', got) := ReadOnce(d, r, log, frame, n);
            ReadsEither(r', delivered + (if got.Data? then got.data else []), a, b)
  {
    hide Concat, OneOfTwo, PutUint64, OpenRecord, DifferAt, ReadsEither;
    assert delivered + [] == delivered;
    if r.buffer != [] {
      TakeKeepsEither(r, delivered, n, a, b);
    } else if !r.eof && frame.Some? && OpenRecord(d, r, log, frame.value).Some? {
      var plain := OpenRecord(d, r, log, frame.value).value;
      OpenedKeepsEither(d, r, delivered, log, frame.value, a, b, c);
      TakeKeepsEither(r.(next := Next(r.next), buffer := plain), delivered, n, a, b);
    }
  }

  lemma OpenedKeepsEither(d: Direction, r: Reader, delivered: bytes, log: seq<Records.Sealed>, frame: bytes,
                          a: seq<bytes>, b: seq<bytes>, c: nat)
    requires DifferAt(a, b, c) && OneOfTwo(d, log, a, b) && ReadsEither(r, delivered, a, b) && r.buffer == []
    requires OpenRecord(d, r, log, frame).Some?
    ensures var plain := OpenRecord(d, r, log, frame).value;
            plain != [] && ReadsEither(r.(next := Next(r.next), buffer := plain), delivered, a, b)
  {
    hide Concat, OneOfTwo, PutUint64, OpenRecord;
    OpensEither(d, r, log, frame, a, b);
    assert delivered + [] == delivered;
    NextOfEither(a, b, c, r.next, OpenRecord(d, r, log, frame).value, delivered);
  }

  lemma TakeKeepsEither(r: Reader, delivered: bytes, n: nat, a: seq<bytes>, b: seq<bytes>)
    requires ReadsEither(r, delivered, a, b)
    ensures var (r', got) := Take(r, n); got.Data? && ReadsEither(r', delivered + got.data, a, b)
  {
    hide Concat;
    var (r', got) := Take(r, n);
    assert got.data + r'.buffer == r.buffer;
    assert (delivered + got.data) + r'.buffer == delivered + (got.data + r'.buffer);
  }

  lemma {:induction false} RunReadsEither(d: Direction, s: Stream, calls: seq<Event>, a: seq<bytes>, b: seq<bytes>, c: nat)
    requires OnlyReads(calls) && DifferAt(a, b, c)
    requires OneOfTwo(d, s.writer.log, a, b) && ReadsEither(s.reader, s.delivered, a, b)
    ensures var s' := Run(d, s, calls); s'.accepted == s.accepted && ReadsEither(s'.reader, s'.delivered, a, b)
    decreases calls
  {
    hide OneOfTwo, ReadsEither, ReadOnce, DifferAt;
    if calls != [] {
      assert calls[0] in calls && forall e | e in calls[1..] :: e in calls;
      ReadKeepsEither(d, s.reader, s.delivered, s.writer.log, calls[0].frame, calls[0].n, a, b, c);
      RunReadsEither(d, Apply(d, s, calls[0]), calls[1..], a, b, c);
    }
  }

  /** A record that opens in one log opens to the same in a log that has all of it and was sealed alike. */
  lemma OpensInMore(d: Direction, r: Reader, log: seq<Records.Sealed>, more: seq<Records.Sealed>, frame: bytes)
    requires d.Valid() && (forall e | e in log :: e in more) && (forall e | e in more :: e.cipher == d.seal(e.nonce, e.plain))
    requires OpenRecord(d, r, log, frame).Some?
    ensures OpenRecord(d, r, more, frame) == OpenRecord(d, r, log, frame)
  {
    hide PutUint64;
    LookupSound(log, d.Nonce(r.next), frame[NONCE_SIZE..]);
    LookupSound(more, d.Nonce(r.next), frame[NONCE_SIZE..]);
    var plain := OpenRecord(d, r, log, frame).value;
    assert Records.Sealed(d.Nonce(r.next), plain, frame[NONCE_SIZE..]) in more;
  }

  /** The in-order reads of one stream, against a log that has more. */
  lemma {:induction false} ReplayReads(d: Direction, s: Stream, t: Stream, ns: seq<nat>) returns (calls: seq<Event>)
    requires Inv(d, s) && !s.reader.eof && s.marker.None? && t.reader == s.reader && t.delivered == s.delivered
    requires (forall e | e in s.writer.log :: e in t.writer.log)
    requires (forall e | e in t.writer.log :: e.cipher == d.seal(e.nonce, e.plain))
    ensures OnlyReads(calls) && Run(d, t, calls).delivered == FeedReads(d, s, ns).delivered
    decreases ns
  {
    if ns == [] {
      return [];
    }
    var e := Read(InOrder(s), ns[0]);
    SameRead(d, s, t, ns[0]);
    var s1, t1 := Apply(d, s, e), Apply(d, t, e);
    var rest := ReplayReads(d, s1, t1, ns[1..]);
    calls := [e] + rest;
    assert calls[1..] == rest;
  }

  lemma SameRead(d: Direction, s: Stream, t: Stream, n: nat)
    requires Inv(d, s) && !s.reader.eof && s.marker.None? && t.reader == s.reader && t.delivered == s.delivered
    requires (forall e | e in s.writer.log :: e in t.writer.log)
    requires (forall e | e in t.writer.log :: e.cipher == d.seal(e.nonce, e.plain))
    ensures var s1, t1 := Apply(d, s, Read(InOrder(s), n)), Apply(d, t, Read(InOrder(s), n));
            && Inv(d, s1) && !s1.reader.eof && s1.marker.None? && s1.writer == s.writer && t1.writer == t.writer
            && t1.reader == s1.reader && t1.delivered == s1.delivered
  {
    ReadKeepsInv(d, s, InOrder(s), n);
    hide PutUint64, Concat, OpenRecord;
    assert SealAll(d, 0, s.data) + [] == s.writer.log;
    if s.reader.buffer == [] && s.reader.next < |s.data| {
      InOrderOpens(d, s);
      OpensInMore(d, s.reader, s.writer.log, t.writer.log, InOrder(s).value);
    }
  }

  /** The stream in which the failed record was sent after all, and the rest of p followed it. */
  function Virtual(d: Direction, s: Stream, p: bytes): Stream
    requires p != []
  {
    var data := WithFailed(s, p);
    Stream(Writer(|data|, false, SealAll(d, 0, data)), s.reader, false, data, None, Concat(data), s.delivered)
  }

  lemma VirtualInv(d: Direction, s: Stream, p: bytes)
    requires Inv(d, s) && CanRewrite(d, s, p) && Chunks(p) != [] && !s.reader.eof
    ensures Inv(d, Virtual(d, s, p))
  {
    hide PutUint64, Concat, Chunks, SealAll;
    RewrittenLog(d, s, p);
    ChunksJoin(p);
    var v := Virtual(d, s, p);
    assert v.data[..|v.data|] == v.data && v.data[..s.reader.next] == s.data[..s.reader.next];
    assert SealAll(d, 0, v.data) + [] == SealAll(d, 0, v.data);
  }

  lemma VirtualLog(d: Direction, s: Stream, p: bytes)
    requires Inv(d, s) && CanRewrite(d, s, p) && Chunks(p) != []
    ensures forall e | e in Virtual(d, s, p).writer.log :: e in Rewritten(d, s, p).writer.log
    ensures forall e | e in Rewritten(d, s, p).writer.log :: e.cipher == d.seal(e.nonce, e.plain)
  {
    hide PutUint64, Concat, Chunks, SealAll;
    RewrittenLog(d, s, p);
    RewrittenIsOneOfTwo(d, s, p);
    var n, data, log := |s.data|, WithFailed(s, p), Rewritten(d, s, p).writer.log;
    forall i | 0 <= i < |data| ensures SealAll(d, 0, data)[i] == log[if i < n then i else i + 1] {
      SealAllAt(d, 0, data, i);
      if i < n { SealAllAt(d, 0, s.data, i); } else { SealAllAt(d, n - 1, Chunks(p), i - n + 1); }
    }
    forall e | e in log ensures e.cipher == d.seal(e.nonce, e.plain) {
      var i :| 0 <= i < |log| && log[i] == e;
      assert OneOf(d, log[i], data, WithRetry(s, p));
    }
  }

  /** The bytes of the first record of p. */
  function FirstRecord(p: bytes): bytes { if |p| <= RECORD_SIZE then p else p[..RECORD_SIZE] }

  lemma FirstChunk(p: bytes)
    requires p != []
    ensures Chunks(p) != [] && Chunks(p)[0] == FirstRecord(p)
    ensures Concat(Chunks(p)[1..]) == p[|FirstRecord(p)|..]
  {
    if |p| <= RECORD_SIZE {
      assert Chunks(p)[1..] == [];
    } else {
      assert Chunks(p)[1..] == Chunks(p[RECORD_SIZE..]);
      ChunksJoin(p[RECORD_SIZE..]);
    }
  }

  /**
   * A retry loses nothing if the failed record in place of its own first one would still
   * give a prefix of what it writes.
   */
  predicate RetryFits(failed: bytes, p: bytes) { failed + p[|FirstRecord(p)|..] <= p }

  lemma TwoStreams(d: Direction, s: Stream, p: bytes)
    requires Inv(d, s) && CanRewrite(d, s, p) && Chunks(p) != []
    ensures DifferAt(WithFailed(s, p), WithRetry(s, p), |s.data| - 1)
    ensures Concat(WithFailed(s, p)) == s.accepted + (s.data[|s.data| - 1] + p[|FirstRecord(p)|..])
    ensures Concat(WithRetry(s, p)) == s.accepted + p
  {
    hide Concat, PutUint64, SealAll, Chunks, MarkerRecord;
    RewrittenIsOneOfTwo(d, s, p);
    ChunksJoin(p);
    FirstChunk(p);
    SplitFailed(s.data, Chunks(p));
    hide FirstRecord, Rewritten, OneOfTwo;
    var x, rest := s.data[|s.data| - 1], Chunks(p)[1..];
    assert (s.accepted + x) + Concat(rest) == s.accepted + (x + Concat(rest));
  }

  lemma SplitFailed(data: seq<bytes>, chunks: seq<bytes>)
    requires data != [] && chunks != []
    ensures var c := |data| - 1;
            && Concat(data + chunks[1..]) == (Concat(data[..c]) + data[c]) + Concat(chunks[1..])
            && Concat(data[..c] + chunks) == Concat(data[..c]) + Concat(chunks)
  {
    hide Concat;
    var c := |data| - 1;
    assert data == data[..c] + [data[c]];
    ConcatSnoc(data[..c], data[c]);
    ConcatAppend(data, chunks[1..]);
    ConcatAppend(data[..c], chunks);
  }

  /**
   * Exactly when a Write after a failed one keeps the stream: for every state with a failed
   * data frame, an open writer and a reader that has not seen the end, and every p, all
   * networks keep Read within what Write counted if and only if the failed record, put in
   * the place of the first record of p, would give a prefix of p.
   */
  lemma RetrySafeIff(d: Direction, s: Stream, p: bytes)
    requires Inv(d, s) && CanRewrite(d, s, p) && !s.reader.eof
    ensures Rewritten(d, s, p).accepted == s.accepted + p
    ensures SafeFromHere(d, Rewritten(d, s, p)) <==> RetryFits(s.data[|s.data| - 1], p)
  {
    FirstChunk(p);
    RewrittenLog(d, s, p);
    TwoStreams(d, s, p);
    var x, tail := s.data[|s.data| - 1], p[|FirstRecord(p)|..];
    if RetryFits(x, p) {
      PrefixOfSum(s.accepted, x + tail, p);
      FittingRetryIsSafe(d, s, p);
    } else {
      DeliverVirtual(d, s, p);
      if SafeFromHere(d, Rewritten(d, s, p)) { SumOfPrefix(s.accepted, x + tail, p); }
    }
  }

  lemma PrefixOfSum(a: bytes, x: bytes, y: bytes)
    requires x <= y
    ensures a + x <= a + y
  {
  }

  lemma SumOfPrefix(a: bytes, x: bytes, y: bytes)
    requires a + x <= a + y
    ensures x <= y
  {
    assert (a + y)[..|a + x|] == a + x;
    assert y[..|x|] == (a + y)[|a|..|a + x|] == (a + x)[|a|..] == x;
  }

  lemma FittingRetryIsSafe(d: Direction, s: Stream, p: bytes)
    requires Inv(d, s) && CanRewrite(d, s, p) && !s.reader.eof && Chunks(p) != []
    requires Concat(WithFailed(s, p)) <= Rewritten(d, s, p).accepted && Concat(WithRetry(s, p)) <= Rewritten(d, s, p).accepted
    ensures SafeFromHere(d, Rewritten(d, s, p))
  {
    var t, a, b := Rewritten(d, s, p), WithFailed(s, p), WithRetry(s, p);
    RewrittenLog(d, s, p);
    RewrittenIsOneOfTwo(d, s, p);
    TwoStreams(d, s, p);
    assert a[..s.reader.next] == s.data[..s.reader.next];
    hide Concat, Inv, OneOfTwo, DifferAt, Rewritten, Run;
    forall calls: seq<Event> | OnlyReads(calls) ensures Run(d, t, calls).delivered <= t.accepted {
      RunReadsEither(d, t, calls, a, b, |s.data| - 1);
      var r := Run(d, t, calls).reader;
      ConcatPrefix(a, r.next);
      ConcatPrefix(b, r.next);
    }
  }

  /** The network can make the reader deliver the stream with the failed record in it. */
  lemma DeliverVirtual(d: Direction, s: Stream, p: bytes)
    requires Inv(d, s) && CanRewrite(d, s, p) && !s.reader.eof && Chunks(p) != []
    ensures SafeFromHere(d, Rewritten(d, s, p)) ==> Concat(WithFailed(s, p)) <= Rewritten(d, s, p).accepted
  {
    RewrittenLog(d, s, p);
    VirtualInv(d, s, p);
    VirtualLog(d, s, p);
    var ns := DrainedReader(d, Virtual(d, s, p));
    var calls := ReplayReads(d, Virtual(d, s, p), Rewritten(d, s, p), ns);
    hide Inv, Run, FeedReads, Concat, Rewritten;
    assert SafeFromHere(d, Rewritten(d, s, p)) ==> Run(d, Rewritten(d, s, p), calls).delivered <= Rewritten(d, s, p).accepted;
  }

  /** Writing the failed bytes again is harmless: it seals the same record. */
  lemma SameRetryIsSafe(d: Direction, s: Stream, p: bytes)
    requires Inv(d, s) && CanRewrite(d, s, p) && !s.reader.eof && FirstRecord(p) == s.data[|s.data| - 1]
    ensures SafeFromHere(d, Rewritten(d, s, p))
  {
    RetrySafeIff(d, s, p);
    assert FirstRecord(p) + p[|FirstRecord(p)|..] == p;
  }

  /**
   * Why a Write after a failed one is ruled out: from every such state, data that begins
   * with another byte than the failed record breaks the stream.
   */
  lemma WriteAfterFailureBreaksStream(d: Direction, s: Stream, p: bytes)
    requires Inv(d, s) && CanRewrite(d, s, p) && !s.reader.eof
    requires p[0] != s.data[|s.data| - 1][0]
    ensures !SafeFromHere(d, Rewritten(d, s, p))
  {
    RetrySafeIff(d, s, p);
    var x, tail := s.data[|s.data| - 1], p[|FirstRecord(p)|..];
    assert (x + tail)[0] == x[0];
  }

  /** In the smallest such run the network chooses which of two plaintexts the reader gets. */
  lemma TwoPlaintextsOneNumber(d: Direction)
    requires d.Valid()
    ensures var s := Run(d, NEW_STREAM, [Write([1], 0, true), Write([2], 1, false)]);
            && s.accepted == [2] && Concat(s.data) == [1, 2]
            && (exists frame :: Apply(d, s, Read(Some(frame), 1)).delivered == [1])
            && (exists frame :: Apply(d, s, Read(Some(frame), 1)).delivered == [2])
  {
    var s1 := Apply(d, NEW_STREAM, Write([1], 0, true));
    var es := [Write([1], 0, true), Write([2], 1, false)];
    assert es[1..] == [Write([2], 1, false)] && es[1..][1..] == [];
    var s := Apply(d, s1, es[1]);
    assert Run(d, NEW_STREAM, es) == s;
    var x, y := d.Record(0, [1]), d.Record(0, [2]);
    assert Chunks([1]) == [[1]] && Chunks([1])[..1] == [[1]] && Chunks([2])[..1] == [[2]];
    assert s.writer.log == [x, y] && s.data == [[1], [2]];
    assert Concat([[1], [2]]) == [1] + Concat([[2]]) && Concat([[2]]) == [2] + Concat([]);
    OpenFirst(d, s, x, y);
  }

  lemma OpenFirst(d: Direction, s: Stream, x: Records.Sealed, y: Records.Sealed)
    requires s.writer.log == [x, y] && s.reader == Reader(0, false, []) && s.delivered == [] && d.Valid()
    requires x == d.Record(0, [1]) && y == d.Record(0, [2])
    ensures exists frame :: Apply(d, s, Read(Some(frame), 1)).delivered == [1]
    ensures exists frame :: Apply(d, s, Read(Some(frame), 1)).delivered == [2]
  {
    assert WireRecord(x)[..NONCE_SIZE] == d.Nonce(0) && WireRecord(x)[NONCE_SIZE..] == x.cipher;
    assert WireRecord(y)[..NONCE_SIZE] == d.Nonce(0) && WireRecord(y)[NONCE_SIZE..] == y.cipher;
    assert s.writer.log[1..] == [y];
    assert x.plain[0] != y.plain[0];
    assert d.seal(d.Nonce(0), [1]) != d.seal(d.Nonce(0), [2]);
    assert Lookup(s.writer.log[1..], d.Nonce(0), y.cipher) == Some([2]);
    assert Lookup(s.writer.log, d.Nonce(0), y.cipher) == Some([2]);
    assert OpenRecord(d, s.reader, s.writer.log, WireRecord(y)) == Some([2]);
    assert Apply(d, s, Read(Some(WireRecord(x)), 1)).delivered == [1];
    assert Apply(d, s, Read(Some(WireRecord(y)), 1)).delivered == [2];
  }

  // --------------------------------------------------------------------- exact delivery

  function WriteAll(d: Direction, s: Stream, ps: seq<bytes>): Stream
    decreases ps
  {
    if ps == [] then s else WriteAll(d, Apply(d, s, Write(ps[0], |Chunks(ps[0])|, false)), ps[1..])
  }

  lemma {:induction false} WriteAllAccepts(d: Direction, s: Stream, ps: seq<bytes>)
    requires Inv(d, s) && !s.failed && !s.writer.closed
    requires |WriteAll(d, s, ps).writer.log| < TWO_TO_THE_64
    ensures var s' := WriteAll(d, s, ps);
            && Inv(d, s') && !s'.failed && !s'.writer.closed
            && |s.writer.log| <= |s'.writer.log|
            && s'.reader == s.reader && s'.delivered == s.delivered
            && s'.accepted == s.accepted + Concat(ps)
    decreases ps
  {
    hide PutUint64, Chunks, Apply, Inv;
    if ps != [] {
      var p := ps[0];
      var s1 := Apply(d, s, Write(p, |Chunks(p)|, false));
      WriteAllGrows(d, s1, ps[1..]);
      OneWriteAccepts(d, s, p);
      WriteAllAccepts(d, s1, ps[1..]);
      assert s.accepted + p + Concat(ps[1..]) == s.accepted + (p + Concat(ps[1..]));
    }
  }

  lemma OneWriteAccepts(d: Direction, s: Stream, p: bytes)
    requires Inv(d, s) && !s.failed && !s.writer.closed
    requires |Apply(d, s, Write(p, |Chunks(p)|, false)).writer.log| < TWO_TO_THE_64
    ensures var s' := Apply(d, s, Write(p, |Chunks(p)|, false));
            && Inv(d, s') && !s'.failed && !s'.writer.closed && |s.writer.log| <= |s'.writer.log|
            && s'.reader == s.reader && s'.delivered == s.delivered && s'.accepted == s.accepted + p
  {
    hide PutUint64, Concat, Chunks, SealAll, Inv;
    WriteKeepsInv(d, s, p, |Chunks(p)|, false);
    ChunksJoin(p);
    assert Chunks(p)[..|Chunks(p)|] == Chunks(p);
  }

  lemma {:induction false} WriteAllGrows(d: Direction, s: Stream, ps: seq<bytes>)
    ensures |s.writer.log| <= |WriteAll(d, s, ps).writer.log|
    decreases ps
  {
    if ps != [] {
      WriteAllGrows(d, Apply(d, s, Write(ps[0], |Chunks(ps[0])|, false)), ps[1..]);
    }
  }

  /** After the close, in-order Reads with room for at least a byte never fail and reach the end. */
  lemma {:induction false} FeedDelivers(d: Direction, s: Stream, ns: seq<nat>)
    requires Inv(d, s) && !s.failed && s.writer.closed
    requires forall n | n in ns :: n > 0
    ensures var s' := FeedReads(d, s, ns);
            && Inv(d, s') && s'.accepted == s.accepted && s'.delivered <= s'.accepted
            && (|ns| > |s.accepted| - |s.delivered| ==> s'.reader.eof && s'.delivered == s'.accepted)
    decreases ns
  {
    DeliveredIsCounted(d, s);
    if s.reader.eof { EndIsComplete(d, s); }
    hide Inv, InOrder, ReadOnce, Concat;
    if ns != [] {
      var n := ns[0];
      assert n in ns && forall k | k in ns[1..] :: k in ns;
      OneReadDelivers(d, s, n);
      FeedDelivers(d, Apply(d, s, Read(InOrder(s), n)), ns[1..]);
    }
  }

  /** An in-order read returns something, reaches the end, or is already there. */
  lemma OneReadDelivers(d: Direction, s: Stream, n: nat)
    requires Inv(d, s) && !s.failed && s.writer.closed && n > 0
    ensures var s' := Apply(d, s, Read(InOrder(s), n));
            && Inv(d, s') && s'.accepted == s.accepted && !s'.failed && s'.writer.closed
            && (s.reader.eof ==> s'.reader.eof && s'.delivered == s.delivered)
            && (!s'.reader.eof ==> |s'.delivered| > |s.delivered|)
  {
    var s' := Apply(d, s, Read(InOrder(s), n));
    ReadKeepsInv(d, s, InOrder(s), n);
    if !s.reader.eof {
      if s.reader.buffer != [] || s.reader.next < |s.data| {
        InOrderProgress(d, s, n);
      } else {
        MarkerOpens(d, s);
      }
    }
    hide Concat, InOrder;
  }

  lemma EndIsComplete(d: Direction, s: Stream)
    requires Inv(d, s) && !s.failed && s.reader.eof
    ensures s.delivered == s.accepted
  {
    hide Concat;
    assert s.data[..Counted(s)] == s.data;
  }

  /**
   * Exact delivery: over an in-order lossless network any sequence of Writes and a
   * CloseWrite, read with any positive buffer sizes, yields exactly the concatenation of
   * what was written, and then the end of the stream.
   */
  lemma ExactDelivery(d: Direction, ps: seq<bytes>, ns: seq<nat>)
    requires d.Valid() && |WriteAll(d, NEW_STREAM, ps).writer.log| + 1 < TWO_TO_THE_64
    requires (forall n | n in ns :: n > 0) && |ns| > |Concat(ps)|
    ensures var s := FeedReads(d, Apply(d, WriteAll(d, NEW_STREAM, ps), CloseWrite), ns);
            s.delivered == Concat(ps) && s.reader.eof
  {
    WriteAllAccepts(d, NEW_STREAM, ps);
    var s := Apply(d, WriteAll(d, NEW_STREAM, ps), CloseWrite);
    StepKeepsInv(d, WriteAll(d, NEW_STREAM, ps), CloseWrite);
    assert s.accepted == Concat(ps) && s.delivered == [];
    FeedDelivers(d, s, ns);
  }

  /**
   * With no failed frame the log is one an in-order reader can follow, and what such a
   * reader has yet to return is exactly what is accepted and not yet delivered. This is
   * what Conn's in-order contracts, and so its control messages, rest on.
   */
  lemma PendingIsTheRest(d: Direction, s: Stream)
    requires Inv(d, s) && !s.failed
    ensures CleanLog(d, s.writer.log) && s.reader.next <= |s.writer.log|
    ensures !s.reader.eof ==> s.accepted == s.delivered + Pending(s.reader, s.writer.log)
  {
    UnfailedIsClean(d, s);
    if !s.reader.eof {
      SplitAt(s.data, s.reader.next);
      TailOfLog(d, s, s.reader.next);
      hide CleanLog, WriterInv;
      PendingIs(s.reader, s.writer.log, s.delivered, s.data);
      assert s.accepted == Concat(s.data) by { UnfailedAccepts(d, s); }
    }
  }

  lemma UnfailedAccepts(d: Direction, s: Stream)
    requires WriterInv(d, s) && !s.failed
    ensures s.accepted == Concat(s.data)
  {
    hide Concat, SealAll, MarkerRecord;
    assert s.data[..|s.data|] == s.data;
  }

  lemma SplitAt(parts: seq<bytes>, k: nat)
    requires k <= |parts|
    ensures Concat(parts) == Concat(parts[..k]) + Concat(parts[k..])
  {
    assert parts == parts[..k] + parts[k..];
    ConcatAppend(parts[..k], parts[k..]);
  }

  lemma PendingIs(r: Reader, log: seq<Records.Sealed>, delivered: bytes, data: seq<bytes>)
    requires r.next <= |log| && r.next <= |data|
    requires Concat(Plains(log[r.next..])) == Concat(data[r.next..])
    requires Concat(data) == Concat(data[..r.next]) + Concat(data[r.next..])
    requires delivered + r.buffer == Concat(data[..r.next])
    ensures Concat(data) == delivered + Pending(r, log)
  {
    hide Concat, Plains;
    var rest := Concat(data[r.next..]);
    assert delivered + (r.buffer + rest) == (delivered + r.buffer) + rest;
  }

  lemma UnfailedIsClean(d: Direction, s: Stream)
    requires Inv(d, s) && !s.failed
    ensures CleanLog(d, s.writer.log) && s.reader.next <= |s.writer.log|
  {
    hide PutUint64, Concat;
    assert forall i | 0 <= i < |s.data| :: s.writer.log[i] == d.Record(i, s.data[i]);
  }

  lemma TailOfLog(d: Direction, s: Stream, k: nat)
    requires WriterInv(d, s) && k <= |s.data|
    ensures k <= |s.writer.log| && Concat(Plains(s.writer.log[k..])) == Concat(s.data[k..])
  {
    hide PutUint64, Concat;
    var tail := if s.writer.closed then [[]] else [];
    assert Plains(s.writer.log[k..]) == s.data[k..] + tail;
    ConcatAppend(s.data[k..], tail);
    ConcatOfNothing(tail);
  }

  lemma ConcatOfNothing(tail: seq<bytes>)
    requires tail == [] || tail == [[]]
    ensures Concat(tail) == []
  {
  }

  /**
   * Control framing over records: messages sent as writes and followed by raw bytes leave
   * a pending stream from which the same messages come back, with the raw bytes intact.
   */
  lemma ControlFraming(d: Direction, ms: seq<bytes>, tail: bytes)
    requires d.Valid() && forall m | m in ms :: |m| <= 64 * 1024
    requires |WriteAll(d, NEW_STREAM, FieldsOf(ms) + [tail]).writer.log| < TWO_TO_THE_64
    ensures var s := WriteAll(d, NEW_STREAM, FieldsOf(ms) + [tail]);
            && CleanLog(d, s.writer.log) && s.reader.next <= |s.writer.log|
            && Conn.NextMessages(Pending(s.reader, s.writer.log), |ms|) == Some((ms, tail))
  {
    hide WriteAll, Pending, Conn.NextMessages, CleanLog;
    FramingPending(d, ms, tail);
    Conn.MessagesComeBack(ms, tail);
  }

  lemma FramingPending(d: Direction, ms: seq<bytes>, tail: bytes)
    requires d.Valid() && |WriteAll(d, NEW_STREAM, FieldsOf(ms) + [tail]).writer.log| < TWO_TO_THE_64
    ensures var s := WriteAll(d, NEW_STREAM, FieldsOf(ms) + [tail]);
            && s.reader == Reader(0, false, []) && CleanLog(d, s.writer.log)
            && Pending(s.reader, s.writer.log) == Frame.Fields(ms) + tail
  {
    var s := WriteAll(d, NEW_STREAM, FieldsOf(ms) + [tail]);
    FreshInv(d);
    hide Inv, WriteAll, Concat, Pending, CleanLog;
    WriteAllAccepts(d, NEW_STREAM, FieldsOf(ms) + [tail]);
    PendingIsTheRest(d, s);
    assert s.delivered + Pending(s.reader, s.writer.log) == Pending(s.reader, s.writer.log);
    ConcatSnoc(FieldsOf(ms), tail);
    ConcatOfFields(ms);
    assert [] + Concat(FieldsOf(ms) + [tail]) == Concat(FieldsOf(ms) + [tail]);
  }

  /**
   * The same in calls: a connection that starts to read what was sealed for these messages
   * and bytes gets the messages from ReadMessage and then the bytes from Read.
   */
  method ReadBack(c: Conn.Conn, k: nat, n: nat, ghost sent: seq<bytes>, ghost tail: bytes)
    returns (ms: seq<bytes>, rest: Option<bytes>)
    requires c.Valid() && c.InOrder() && c.ReaderState() == Reader(0, false, [])
    requires k == |sent| && n == |tail| && forall m | m in sent :: |m| <= 64 * 1024
    requires c.opener.log == WriteAll(c.Inbound(), NEW_STREAM, FieldsOf(sent) + [tail]).writer.log
    modifies c`rSeq, c`rEOF, c`buffer, c`received, c.raw`incoming
    ensures ms == sent && rest == Some(tail)
  {
    assert |c.opener.log| < TWO_TO_THE_64;
    hide WriteAll, Concat, CleanLog;
    FramingPending(c.Inbound(), sent, tail);
    ms, rest := c.ReadMessagesThen(k, n, sent, tail);
  }

  function FieldsOf(ms: seq<bytes>): seq<bytes> {
    if ms == [] then [] else [Frame.Field(ms[0])] + FieldsOf(ms[1..])
  }

  lemma {:induction false} ConcatOfFields(ms: seq<bytes>)
    ensures Concat(FieldsOf(ms)) == Frame.Fields(ms)
  {
    if ms != [] {
      ConcatOfFields(ms[1..]);
    }
  }
}
