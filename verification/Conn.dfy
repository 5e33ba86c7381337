/** The tunnel connection itself: its fields, its loops, and its control messages. */
module Conn {
  import opened Wrappers
  import opened ByteStrings
  import opened Frame
  import opened Records

  const MAX_MESSAGE: nat := 64 * 1024

  /** The control message at the front of a stream, and what follows it. */
  function NextMessage(stream: bytes): Option<(bytes, bytes)> {
    if |stream| < 4 then None
    else
      var n := Uint32(stream);
      if n > MAX_MESSAGE || 4 + n > |stream| then None
      else Some((stream[4..4 + n], stream[4 + n..]))
  }

  function NextMessages(stream: bytes, k: nat): Option<(seq<bytes>, bytes)> {
    if k == 0 then Some(([], stream))
    else
      var first := NextMessage(stream);
      if first.None? then None
      else
        var others := NextMessages(first.value.1, k - 1);
        if others.None? then None else Some(([first.value.0] + others.value.0, others.value.1))
  }

  /** Any sequence of control messages followed by raw bytes is taken apart exactly. */
  lemma {:induction false} MessagesComeBack(ms: seq<bytes>, tail: bytes)
    requires forall m | m in ms :: |m| <= 64 * 1024
    ensures NextMessages(Fields(ms) + tail, |ms|) == Some((ms, tail))
  {
    hide Field, Fields, NextMessage, NextMessages;
    if ms == [] {
      NoMessages(tail);
    } else {
      var m, others := ms[0], ms[1..];
      assert ms == [m] + others;
      FieldsThenTail(ms, tail);
      MessageComesBack(m, Fields(others) + tail);
      MessagesComeBack(others, tail);
      OneMessageMore(Fields(ms) + tail, m, Fields(others) + tail, others, tail);
    }
  }

  lemma NoMessages(tail: bytes)
    ensures NextMessages(Fields([]) + tail, 0) == Some(([], tail))
  {
    assert Fields([]) + tail == tail;
  }

  lemma NoFields(tail: bytes)
    ensures Fields([]) + tail == tail
  {
  }

  lemma FieldsThenTail(ms: seq<bytes>, tail: bytes)
    requires ms != []
    ensures Fields(ms) + tail == Field(ms[0]) + (Fields(ms[1..]) + tail)
  {
    hide Field;
    assert Fields(ms) == Field(ms[0]) + Fields(ms[1..]);
  }

  lemma OneMessageMore(stream: bytes, m: bytes, rest: bytes, ms: seq<bytes>, tail: bytes)
    requires NextMessage(stream) == Some((m, rest)) && NextMessages(rest, |ms|) == Some((ms, tail))
    ensures NextMessages(stream, |ms| + 1) == Some(([m] + ms, tail))
  {
    hide NextMessage;
  }

  lemma MessageComesBack(m: bytes, rest: bytes)
    requires |m| <= MAX_MESSAGE
    ensures NextMessage(Field(m) + rest) == Some((m, rest))
  {
    hide PutUint32;
    FieldHeader(m, rest);
  }

  lemma Sliced(stream: bytes, header: bytes, m: bytes, rest: bytes)
    requires |header| == 4 && stream == header + (m + rest)
    ensures stream[..4] == header && stream[4..4 + |m|] == m && stream[4 + |m|..] == rest
  {
  }

  lemma Uint32Local(b: bytes)
    requires 4 <= |b|
    ensures Uint32(b) == Uint32(b[..4])
  {
  }

  /** An AEAD key with the log of everything ever sealed under it. */
  class Aead {
    const seal: SealFunction
    var log: seq<Sealed>

    constructor (seal: SealFunction)
      ensures this.seal == seal && log == []
    {
      this.seal := seal;
      log := [];
    }

    method Seal(nonce: bytes, plain: bytes) returns (cipher: bytes)
      modifies `log
      ensures cipher == seal(nonce, plain)
      ensures log == old(log) + [Sealed(nonce, plain, cipher)]
    {
      cipher := seal(nonce, plain);
      log := log + [Sealed(nonce, plain, cipher)];
    }

    method Open(nonce: bytes, cipher: bytes) returns (plain: Option<bytes>)
      ensures plain == Lookup(log, nonce, cipher)
    {
      plain := Lookup(log, nonce, cipher);
    }
  }

  class Conn {
    const raw: RawConn

    const sealer: Aead
    const wIV: bytes
    var wSeq: nat
    var wClosed: bool

    const opener: Aead
    const rIV: bytes
    var rSeq: nat
    var rEOF: bool
    var buffer: bytes
    ghost var received: bytes  // everything Read has returned

    ghost predicate Valid()
      reads this
    {
      && Outbound().Valid() && Inbound().Valid()
      && wSeq < TWO_TO_THE_64 && rSeq < TWO_TO_THE_64
    }

    ghost function Outbound(): Direction { Direction(sealer.seal, wIV) }
    ghost function Inbound(): Direction { Direction(opener.seal, rIV) }
    ghost function ReaderState(): Records.Reader
      reads this
    {
      Records.Reader(rSeq, rEOF, buffer)
    }

    /** The half of newConn after the keys: both counters start at zero. */
    constructor (raw: RawConn, sealer: Aead, wIV: bytes, opener: Aead, rIV: bytes)
      requires Direction(sealer.seal, wIV).Valid() && Direction(opener.seal, rIV).Valid()
      ensures Valid() && this.raw == raw
      ensures this.sealer == sealer && this.wIV == wIV && this.opener == opener && this.rIV == rIV
      ensures wSeq == 0 && !wClosed && ReaderState() == Records.Reader(0, false, []) && received == []
    {
      this.raw, this.sealer, this.wIV, this.opener, this.rIV := raw, sealer, wIV, opener, rIV;
      wSeq, wClosed, rSeq, rEOF, buffer := 0, false, 0, false, [];
      received := [];
    }

    // ------------------------------------------------------------------------ writing

    ghost function WriterState(): Writer
      reads this, sealer
    {
      Writer(wSeq, wClosed, sealer.log)
    }

    /**
     * Write seals the chunks of p in order. When it stops early it has sealed one record
     * more than it counted, and the next record would reuse that record's nonce.
     */
    method Write(p: bytes) returns (written: nat, ok: bool)
      requires Valid()
      modifies this`wSeq, sealer`log, raw`sent
      ensures Valid()
      ensures old(wClosed) ==>
                written == 0 && !ok && WriterState() == old(WriterState()) && raw.sent == old(raw.sent)
      ensures ok ==>
                && written == |p|
                && WriterState() == WriteOnce(Outbound(), old(WriterState()), p, |Chunks(p)|, false)
                && raw.sent == old(raw.sent) + Fields(WireRecords(SealAll(Outbound(), old(wSeq), Chunks(p))))
      ensures !ok && !old(wClosed) ==>
                exists good: nat ::
                  && good < |Chunks(p)|
                  && WriterState() == WriteOnce(Outbound(), old(WriterState()), p, good, true)
                  && written == |Concat(Chunks(p)[..good])|
      ensures raw.lossless && !old(wClosed) ==> ok
    {
      hide Chunks, SealAll, PutUint32, PutUint64, Field, WireRecord, Progress;
      if wClosed {
        return 0, false;
      }
      written := 0;
      var rest := p;
      ghost var d, w0, sent0 := Outbound(), WriterState(), raw.sent;
      ghost var done: nat := 0;
      ProgressStarts(d, w0, sent0, p);
      while |rest| > 0
        invariant Valid() && !wClosed
        invariant Progress(d, w0, sent0, p, done, written, rest, WriterState(), raw.sent)
      {
        var chunk := rest;
        if |chunk| > RECORD_SIZE {
          chunk := chunk[..RECORD_SIZE];
        }
        ghost var w, sent1 := WriterState(), raw.sent;
        var n := wIV + PutUint64(wSeq);
        var cipher := sealer.Seal(n, chunk);
        var record := n + cipher;
        ProgressContinues(d, w0, sent0, p, done, written, rest, w, sent1, chunk, record);
        var sent := WriteFrame(raw, record);
        if !sent {
          return written, false;
        }
        wSeq := (wSeq + 1) % TWO_TO_THE_64;
        written := written + |chunk|;
        rest := rest[|chunk|..];
        done := done + 1;
      }
      ProgressEnds(d, w0, sent0, p, done, written, rest, WriterState(), raw.sent);
      return written, true;
    }

    /**
     * Ends this direction, once: an empty record under the current number. After a data
     * frame that failed, that is also the number of the failed record.
     */
    method CloseWrite() returns (ok: bool)
      requires Valid()
      modifies this`wSeq, this`wClosed, sealer`log, raw`sent
      ensures Valid()
      ensures WriterState() == CloseOnce(Outbound(), old(WriterState()))
      ensures old(wClosed) ==> ok && raw.sent == old(raw.sent)
      ensures !old(wClosed) && ok ==>
                raw.sent == old(raw.sent) + Field(WireRecord(Outbound().Record(old(wSeq), [])))
      ensures raw.lossless ==> ok
    {
      if wClosed {
        return true;
      }
      wClosed := true;
      var n := wIV + PutUint64(wSeq);
      wSeq := (wSeq + 1) % TWO_TO_THE_64;
      var cipher := sealer.Seal(n, []);
      ok := WriteFrame(raw, n + cipher);
    }

    /** A control message is its length and its bytes, written like any other data. */
    method WriteMessage(b: bytes) returns (ok: bool)
      requires Valid()
      modifies this`wSeq, sealer`log, raw`sent
      ensures Valid()
      ensures |b| > 64 * 1024 || old(wClosed) ==>
                !ok && WriterState() == old(WriterState()) && raw.sent == old(raw.sent)
      ensures ok ==> WriterState() == WriteOnce(Outbound(), old(WriterState()), Field(b), |Chunks(Field(b))|, false)
      ensures !ok && |b| <= 64 * 1024 && !old(wClosed) ==>
                exists good: nat ::
                  && good < |Chunks(Field(b))|
                  && WriterState() == WriteOnce(Outbound(), old(WriterState()), Field(b), good, true)
    {
      hide PutUint32, Chunks;
      if |b| > MAX_MESSAGE {
        return false;
      }
      var message := PutUint32(|b|) + b;
      assert message == Field(b);
      var written;
      written, ok := Write(message);
    }

    // ------------------------------------------------------------------------ reading

    /** The network still holds exactly the records this end has not read, and loses nothing. */
    ghost predicate InOrder()
      reads this, opener, raw
    {
      && raw.lossless && CleanLog(Inbound(), opener.log)
      && rSeq <= |opener.log| && (rEOF ==> rSeq == |opener.log|)
      && raw.incoming == Fields(WireRecords(opener.log[rSeq..]))
    }

    ghost function StillToRead(): bytes
      reads this, opener
    {
      if rSeq <= |opener.log| then Pending(ReaderState(), opener.log) else buffer
    }

    /** What one Read does to the connection, given the frame it took, if it took one. */
    ghost predicate ReadStep(before: Records.Reader, input: bytes, frame: Option<bytes>, n: nat, r: ReadResult)
      reads this, opener, raw
    {
      && (ReaderState(), r) == ReadOnce(Inbound(), before, opener.log, frame, n)
      && (frame.Some? ==> |frame.value| <= MAX_FRAME && input == Field(frame.value) + raw.incoming)
      && (frame.None? && raw.lossless && !before.eof && before.buffer == [] ==>
            forall f, rest | |f| <= MAX_FRAME :: input != Field(f) + rest)
      && (before.eof || before.buffer != [] ==> frame.None? && raw.incoming == input)
      && |raw.incoming| <= |input|
    }

    /**
     * Read does with the next frame what ReadOnce says, and takes a frame from the
     * network only when it has nothing buffered and has not seen the end.
     */
    method Read(n: nat) returns (r: ReadResult)
      requires Valid()
      modifies this`rSeq, this`rEOF, this`buffer, this`received, raw`incoming
      ensures Valid()
      ensures exists frame: Option<bytes> :: ReadStep(old(ReaderState()), old(raw.incoming), frame, n, r)
      ensures received == old(received) + if r.Data? then r.data else []
      ensures n > 0 && r.Data? ==> 0 < |r.data| <= n
      ensures old(InOrder()) ==>
                && InOrder() && old(StillToRead()) == (if r.Data? then r.data else []) + StillToRead()
                && (n > 0 && old(StillToRead()) != [] ==> r.Data?)
    {
      hide PutUint64, Field, Fields, OpenRecord, WireRecords, CleanLog;
      ghost var frame: Option<bytes> := None;
      ghost var before, input := ReaderState(), raw.incoming;
      while |buffer| == 0
        invariant Valid() && received == old(received)
        invariant frame.None? ==> ReaderState() == before && raw.incoming == input
        invariant frame.Some? ==>
                    && before.buffer == [] && !before.eof
                    && |frame.value| <= MAX_FRAME && input == Field(frame.value) + raw.incoming
                    && buffer != [] && OpenRecord(Inbound(), before, opener.log, frame.value) == Some(buffer)
                    && ReaderState() == before.(next := Next(before.next), buffer := buffer)
        decreases if |buffer| == 0 then 1 else 0
      {
        if rEOF {
          r := Eof;
          Delivered(before, input, None, n, r);
          return;
        }
        var plain;
        frame, plain := ReadRecord();
        if plain.None? {
          r := Failed;
          Delivered(before, input, frame, n, r);
          return;
        }
        if |plain.value| == 0 {
          rEOF := true;
          r := Eof;
          Delivered(before, input, frame, n, r);
          return;
        }
        buffer := plain.value;
      }
      var k := if n < |buffer| then n else |buffer|;
      r := Data(buffer[..k]);
      buffer := buffer[k..];
      received := received + r.data;
      Delivered(before, input, frame, n, r);
    }

    /** What a step means when the network is in order: the frame was the next record. */
    lemma Delivered(before: Records.Reader, input: bytes, frame: Option<bytes>, n: nat, r: ReadResult)
      requires Valid() && before.next < TWO_TO_THE_64 && ReadStep(before, input, frame, n, r)
      ensures && raw.lossless && CleanLog(Inbound(), opener.log) && before.next <= |opener.log|
              && (before.eof ==> before.next == |opener.log|)
              && input == Fields(WireRecords(opener.log[before.next..]))
              ==>
              && InOrder()
              && Pending(before, opener.log) == (if r.Data? then r.data else []) + StillToRead()
              && (n > 0 && Pending(before, opener.log) != [] ==> r.Data?)
    {
      hide PutUint64, OpenRecord;
      var d, log, k := Inbound(), opener.log, before.next;
      if raw.lossless && CleanLog(d, log) && k <= |log| && (before.eof ==> k == |log|)
         && input == Fields(WireRecords(log[k..])) {
        if before.buffer == [] && !before.eof {
          if k < |log| {
            FirstFrame(d, log, k);
            var rest := Fields(WireRecords(log[k + 1..]));
            assert frame.Some?;
            FieldUnique(frame.value, raw.incoming, WireRecord(log[k]), rest);
          } else {
            assert log[k..] == [] && input == [] && frame.None? && raw.incoming == [];
          }
        }
        ReadInTurn(d, before, log, frame, n);
      }
    }

    /** io.ReadFull over the connection: k bytes, or a failure. */
    method ReadFull(k: nat) returns (got: Option<bytes>)
      requires Valid()
      modifies this`rSeq, this`rEOF, this`buffer, this`received, raw`incoming
      ensures Valid() && old(received) <= received
      ensures got.Some? ==> |got.value| == k && received == old(received) + got.value
      ensures old(InOrder()) ==>
                && (got.Some? <==> k <= |old(StillToRead())|)
                && (got.Some? ==> InOrder() && old(StillToRead()) == got.value + StillToRead())
    {
      hide Valid, InOrder, StillToRead, ReadStep;
      var out: bytes := [];
      while |out| < k
        invariant Valid() && |out| <= k && received == old(received) + out
        invariant old(InOrder()) ==> InOrder() && old(StillToRead()) == out + StillToRead()
        decreases k - |out|
      {
        var r := Read(k - |out|);
        if !r.Data? {
          return None;
        }
        out := out + r.data;
      }
      return Some(out);
    }

    /**
     * A control message comes back whole however the stream was cut into records, and
     * what follows it is left for the next read.
     */
    method ReadMessage() returns (m: Option<bytes>)
      requires Valid()
      modifies this`rSeq, this`rEOF, this`buffer, this`received, raw`incoming
      ensures Valid() && old(received) <= received
      ensures m.Some? ==> |m.value| <= MAX_MESSAGE && received == old(received) + Field(m.value)
      ensures old(InOrder()) ==>
                && (m.Some? <==> NextMessage(old(StillToRead())).Some?)
                && (m.Some? ==> InOrder() && NextMessage(old(StillToRead())) == Some((m.value, StillToRead())))
    {
      hide InOrder, StillToRead, Uint32;
      ghost var before, stream := received, StillToRead();
      if 4 <= |stream| {
        Uint32Local(stream);
      }
      var header := ReadFull(4);
      if header.None? {
        return None;
      }
      var n := Uint32(header.value);
      PutOfUint32(header.value);
      if n > MAX_MESSAGE {
        return None;
      }
      m := ReadFull(n);
      if m.Some? {
        assert received == before + (header.value + m.value);
        if old(InOrder()) {
          Sliced(stream, header.value, m.value, StillToRead());
        }
      }
    }

    /** Several control messages in a row, then n raw bytes, as the receiver of them reads. */
    method ReadMessagesThen(k: nat, n: nat, ghost sent: seq<bytes>, ghost tail: bytes)
      returns (ms: seq<bytes>, rest: Option<bytes>)
      requires Valid() && InOrder() && StillToRead() == Fields(sent) + tail
      requires k == |sent| && n == |tail| && forall m | m in sent :: |m| <= 64 * 1024
      modifies this`rSeq, this`rEOF, this`buffer, this`received, raw`incoming
      ensures Valid() && ms == sent && rest == Some(tail)
    {
      hide InOrder, StillToRead, NextMessage, Field, Fields, Valid;
      ms := [];
      for i := 0 to k
        invariant Valid() && InOrder() && ms == sent[..i] && StillToRead() == Fields(sent[i..]) + tail
      {
        FieldsThenTail(sent[i..], tail);
        assert sent[i..][1..] == sent[i + 1..];
        MessageComesBack(sent[i], Fields(sent[i + 1..]) + tail);
        var m := ReadMessage();
        ms := ms + [m.value];
      }
      assert sent[k..] == [];
      NoFields(tail);
      rest := ReadFull(n);
      assert tail == tail[..n] == (rest.value + StillToRead())[..n] == rest.value;
    }

    /** One frame from the network, opened under the expected nonce or refused. */
    method ReadRecord() returns (ghost frame: Option<bytes>, plain: Option<bytes>)
      requires Valid()
      modifies this`rSeq, raw`incoming
      ensures Valid()
      ensures frame.Some? ==> |frame.value| <= MAX_FRAME && old(raw.incoming) == Field(frame.value) + raw.incoming
      ensures frame.None? && raw.lossless ==>
                forall f, rest | |f| <= MAX_FRAME :: old(raw.incoming) != Field(f) + rest
      ensures |raw.incoming| <= |old(raw.incoming)|
      ensures plain == if frame.None? then None else OpenRecord(Inbound(), old(ReaderState()), opener.log, frame.value)
      ensures rSeq == if plain.Some? then Next(old(rSeq)) else old(rSeq)
    {
      var record := ReadFrame(raw);
      frame := record;
      if record.None? || |record.value| < NONCE_SIZE + OVERHEAD {
        return frame, None;
      }
      var got, body := record.value[..NONCE_SIZE], record.value[NONCE_SIZE..];
      var want := rIV + PutUint64(rSeq);
      if got != want {
        return frame, None;
      }
      plain := opener.Open(want, body);
      if plain.Some? {
        rSeq := (rSeq + 1) % TWO_TO_THE_64;
      }
    }
  }

  lemma FirstFrame(d: Direction, log: seq<Sealed>, k: nat)
    requires d.Valid() && CleanLog(d, log) && k < |log|
    ensures Fields(WireRecords(log[k..])) == Field(WireRecord(log[k])) + Fields(WireRecords(log[k + 1..]))
    ensures |WireRecord(log[k])| <= MAX_FRAME
  {
    hide PutUint64, Field;
    assert WireRecords(log[k..])[0] == WireRecord(log[k]);
    assert WireRecords(log[k..])[1..] == WireRecords(log[k + 1..]);
    assert log[k] == d.Record(k, log[k].plain);
  }

  // ---------------------------------------------------------------- the writing loop

  /** The loop of Write when `done` chunks of p are on the wire and `rest` is still to go. */
  ghost predicate Progress(d: Direction, w0: Writer, sent0: bytes, p: bytes,
                           done: nat, written: nat, rest: bytes, w: Writer, sent: bytes)
  {
    && done <= |Chunks(p)| && Chunks(rest) == Chunks(p)[done..]
    && w == WriteOnce(d, w0, p, done, false)
    && written == |Concat(Chunks(p)[..done])| && written + |rest| == |p|
    && sent == sent0 + Fields(WireRecords(SealAll(d, w0.next, Chunks(p)[..done])))
  }

  lemma ProgressStarts(d: Direction, w0: Writer, sent0: bytes, p: bytes)
    requires w0.next < TWO_TO_THE_64
    ensures Progress(d, w0, sent0, p, 0, 0, p, w0, sent0)
  {
    assert Chunks(p)[..0] == [] && SealAll(d, w0.next, []) == [] && WireRecords([]) == [];
  }

  lemma ProgressContinues(d: Direction, w0: Writer, sent0: bytes, p: bytes, done: nat, written: nat,
                          rest: bytes, w: Writer, sent: bytes, chunk: bytes, record: bytes)
    requires d.Valid() && Progress(d, w0, sent0, p, done, written, rest, w, sent) && rest != []
    requires chunk == if |rest| > RECORD_SIZE then rest[..RECORD_SIZE] else rest
    requires record == d.iv + PutUint64(w.next) + d.seal(d.iv + PutUint64(w.next), chunk)
    ensures |record| <= MAX_FRAME && done < |Chunks(p)|
    ensures var log := w.log + [Sealed(d.iv + PutUint64(w.next), chunk, d.seal(d.iv + PutUint64(w.next), chunk))];
            && w.(log := log) == WriteOnce(d, w0, p, done, true)
            && Progress(d, w0, sent0, p, done + 1, written + |chunk|, rest[|chunk|..],
                        w.(next := Next(w.next), log := log), sent + Field(record))
    ensures written == |Concat(Chunks(p)[..done])|
  {
    hide PutUint64, Field, WireRecords, SealAll;
    NextChunk(p, done, rest, chunk);
    OneMore(d, w0.next, Chunks(p), done);
    OneMoreWritten(d, w0, p, done, chunk);
    assert record == WireRecord(d.Record(w.next, chunk));
  }

  lemma NextChunk(p: bytes, done: nat, rest: bytes, chunk: bytes)
    requires done <= |Chunks(p)| && Chunks(rest) == Chunks(p)[done..] && rest != []
    requires chunk == if |rest| > RECORD_SIZE then rest[..RECORD_SIZE] else rest
    ensures done < |Chunks(p)| && Chunks(p)[done] == chunk && Chunks(rest[|chunk|..]) == Chunks(p)[done + 1..]
  {
    assert Chunks(rest)[0] == chunk && Chunks(rest[|chunk|..]) == Chunks(rest)[1..];
  }

  lemma OneMoreWritten(d: Direction, w0: Writer, p: bytes, done: nat, chunk: bytes)
    requires done < |Chunks(p)| && Chunks(p)[done] == chunk
    ensures var w := WriteOnce(d, w0, p, done, false);
            var log := w.log + [d.Record(w.next, chunk)];
            && WriteOnce(d, w0, p, done, true) == w.(log := log)
            && WriteOnce(d, w0, p, done + 1, false) == w.(next := Next(w.next), log := log)
  {
    hide Chunks, SealAll, Next;
    OneMore(d, w0.next, Chunks(p), done);
    NextOfSum(w0.next, done);
    var before, last := SealAll(d, w0.next, Chunks(p)[..done]), d.Record((w0.next + done) % TWO_TO_THE_64, chunk);
    assert w0.log + (before + [last]) == (w0.log + before) + [last];
  }

  lemma NextOfSum(s: nat, k: nat)
    ensures Next((s + k) % TWO_TO_THE_64) == (s + (k + 1)) % TWO_TO_THE_64
  {
  }

  lemma ProgressEnds(d: Direction, w0: Writer, sent0: bytes, p: bytes, done: nat, written: nat,
                     rest: bytes, w: Writer, sent: bytes)
    requires Progress(d, w0, sent0, p, done, written, rest, w, sent) && rest == []
    ensures written == |p| && w == WriteOnce(d, w0, p, |Chunks(p)|, false)
    ensures sent == sent0 + Fields(WireRecords(SealAll(d, w0.next, Chunks(p))))
  {
    assert Chunks(p)[..done] == Chunks(p);
  }

  lemma OneMore(d: Direction, s0: nat, chunks: seq<bytes>, done: nat)
    requires done < |chunks|
    ensures SealAll(d, s0, chunks[..done + 1]) ==
            SealAll(d, s0, chunks[..done]) + [d.Record((s0 + done) % TWO_TO_THE_64, chunks[done])]
    ensures Fields(WireRecords(SealAll(d, s0, chunks[..done + 1]))) ==
            Fields(WireRecords(SealAll(d, s0, chunks[..done]))) +
            Field(WireRecord(d.Record((s0 + done) % TWO_TO_THE_64, chunks[done])))
    ensures Concat(chunks[..done + 1]) == Concat(chunks[..done]) + chunks[done]
  {
    hide PutUint32, PutUint64, Field, Fields, WireRecord, Concat;
    var rs, last := SealAll(d, s0, chunks[..done]), d.Record((s0 + done) % TWO_TO_THE_64, chunks[done]);
    assert SealAll(d, s0, chunks[..done + 1]) == rs + [last];
    assert WireRecords(rs + [last]) == WireRecords(rs) + [WireRecord(last)];
    FieldsAppend(WireRecords(rs), WireRecord(last));
    assert chunks[..done + 1] == chunks[..done] + [chunks[done]];
    ConcatSnoc(chunks[..done], chunks[done]);
  }
}
