/**
 * The sidecar protocol over the tunnel: a control message in each direction, then the
 * relayed application bytes. Both ends run over the hostile network of module Stream.
 */
module Tunnel {
  import opened Wrappers
  import opened ByteStrings
  import opened Frame
  import opened Records
  import Stream
  import Conn

  // --------------------------------------------------------------------- one direction

  /**
   * One direction of a sidecar connection. `control` is the message its sender wrote,
   * `payload` the application bytes the sender has read to relay; `got` is what its
   * receiver has read of the control message, `tail` what it has read after it, and
   * `out` what it has passed on to the local application. `sourceDone` says that the
   * sender's application ended its stream, so that `payload` is all of it, and `ended` that
   * the receiver's application was shown an end.
   */
  datatype Half = Half(stream: Stream.Stream, control: Option<bytes>, payload: bytes, sourceDone: bool,
                       got: bytes, tail: bytes, out: bytes, ended: bool)

  const NEW_HALF: Half := Half(Stream.NEW_STREAM, None, [], false, [], [], [], false)

  datatype HalfEvent =
    | SendControl(m: bytes, good: nat, failed: bool)
    | SendPayload(p: bytes, good: nat, failed: bool)
    | Close(orderly: bool)  // relay's CloseWrite on the tunnel: its source ended, or the copy failed
    | EndApplication        // relay's CloseWrite on the application: the copy to it ended, for whatever reason
    | ReadControl(frame: Option<bytes>)
    | ReadPayload(frame: Option<bytes>, n: nat, kept: nat)  // the application took `kept` bytes

  /** The receiver has the whole control message. */
  predicate Complete(h: Half) {
    |h.got| >= 4 && |h.got| == 4 + Uint32(h.got)
  }

  function Message(h: Half): bytes
    requires Complete(h)
  {
    h.got[4..]
  }

  /** How many bytes io.ReadFull asks for next while it reads the control message. */
  function Wanted(got: bytes): nat {
    if |got| < 4 then 4 - |got| else if |got| < 4 + Uint32(got) then 4 + Uint32(got) - |got| else 0
  }

  /** ReadMessage gave up: the length announced is beyond the limit. */
  predicate TooLong(got: bytes) { |got| >= 4 && Uint32(got) > Conn.MAX_MESSAGE }

  function StreamEvent(h: Half, e: HalfEvent): Stream.Event {
    match e
    case SendControl(m, good, failed) => Stream.Write(Field(m), good, failed)
    case SendPayload(p, good, failed) => Stream.Write(p, good, failed)
    case Close(_) => Stream.CloseWrite
    case EndApplication => Stream.Read(None, 0)
    case ReadControl(frame) => Stream.Read(frame, Wanted(h.got))
    case ReadPayload(frame, n, _) => Stream.Read(frame, n)
  }

  /** The order each end keeps by itself: one control message, then relaying. */
  ghost predicate HalfEnabled(d: Direction, h: Half, e: HalfEvent) {
    && Stream.Enabled(h.stream, StreamEvent(h, e))
    && |Stream.Apply(d, h.stream, StreamEvent(h, e)).writer.log| < TWO_TO_THE_64
    && match e
       case SendControl(m, _, _) => h.control.None? && |m| <= Conn.MAX_MESSAGE && !h.stream.writer.closed
       case SendPayload(_, _, _) => h.control.Some? && !h.stream.writer.closed
       // A copy that failed to write has not read its source to the end.
       case Close(orderly) => h.control.Some? && !h.stream.writer.closed && (orderly ==> !h.stream.failed)
       case EndApplication => Complete(h) && !h.ended
       case ReadControl(_) => !Complete(h) && !TooLong(h.got)
       case ReadPayload(_, _, _) => Complete(h) && !h.ended
  }

  function HalfApply(d: Direction, h: Half, e: HalfEvent): Half {
    var h' := h.(stream := Stream.Apply(d, h.stream, StreamEvent(h, e)));
    match e
    case SendControl(m, _, _) => h'.(control := Some(m))
    case SendPayload(p, _, _) => h'.(payload := h.payload + p)
    case Close(orderly) => h'.(sourceDone := orderly)
    case EndApplication => h.(ended := true)
    case ReadControl(_) => h'.(got := h.got + ReadBytes(d, h, e))
    case ReadPayload(_, _, kept) =>
      var bytes' := ReadBytes(d, h, e);
      // A short write to the application ends the copying; what it took is a prefix.
      h'.(tail := h.tail + bytes', out := if h.out == h.tail then h.out + Cut(bytes', kept) else h.out)
  }

  function Cut(b: bytes, k: nat): bytes { if k < |b| then b[..k] else b }

  function ReadBytes(d: Direction, h: Half, e: HalfEvent): bytes
    ensures e.ReadControl? ==> |ReadBytes(d, h, e)| <= Wanted(h.got)
  {
    if e.ReadControl? || e.ReadPayload? then
      var n := if e.ReadControl? then Wanted(h.got) else e.n;
      var r := ReadOnce(d, h.stream.reader, h.stream.writer.log, e.frame, n).1;
      if r.Data? then r.data else []
    else []
  }

  ghost predicate HalfInv(d: Direction, h: Half) {
    && Stream.Inv(d, h.stream)
    && SenderInv(h) && ReceiverInv(h)
  }

  ghost predicate SenderInv(h: Half) {
    if h.control.None? then
      h.stream.data == [] && h.payload == [] && !h.stream.failed && !h.stream.writer.closed && !h.sourceDone
    else
      var written := Concat(h.stream.data);
      && |h.control.value| <= Conn.MAX_MESSAGE
      && written <= Field(h.control.value) + h.payload
      && (!h.stream.failed ==> written == Field(h.control.value) + h.payload)
      && (h.sourceDone ==> h.stream.writer.closed && !h.stream.failed)
  }

  ghost predicate ReceiverInv(h: Half) {
    && h.stream.delivered == h.got + h.tail
    && (!Complete(h) ==> h.tail == [] && (TooLong(h.got) || |h.got| < 4 || |h.got| < 4 + Uint32(h.got)))
    && h.out <= h.tail
  }

  // -------------------------------------------------------------------- one-step proofs

  lemma WriteAdds(d: Direction, s: Stream.Stream, p: bytes, good: nat, failed: bool)
    requires !s.writer.closed && Stream.Sealed(good, failed) <= |Chunks(p)|
    ensures var s' := Stream.Apply(d, s, Stream.Write(p, good, failed));
            && s'.delivered == s.delivered && s'.failed == (s.failed || failed) && !s'.writer.closed
            && Concat(s'.data) <= Concat(s.data) + p
            && (!failed && good == |Chunks(p)| ==> Concat(s'.data) == Concat(s.data) + p)
  {
    hide PutUint64, Concat, Chunks, SealAll;
    var sealed := Stream.Sealed(good, failed);
    ConcatAppend(s.data, Chunks(p)[..sealed]);
    ConcatPrefix(Chunks(p), sealed);
    ChunksJoin(p);
    assert Concat(Chunks(p)[..sealed]) <= p;
    PrefixExtends(Concat(s.data), Concat(Chunks(p)[..sealed]), p);
    if !failed && good == |Chunks(p)| {
      assert Chunks(p)[..sealed] == Chunks(p);
    }
  }

  lemma PrefixExtends(a: bytes, b: bytes, c: bytes)
    requires b <= c
    ensures a + b <= a + c
  {
  }

  lemma SendControlKeepsInv(d: Direction, h: Half, m: bytes, good: nat, failed: bool)
    requires HalfInv(d, h) && HalfEnabled(d, h, SendControl(m, good, failed))
    ensures HalfInv(d, HalfApply(d, h, SendControl(m, good, failed)))
  {
    hide Stream.Inv, Stream.Apply, Concat, Field, Chunks;
    Stream.StepKeepsInv(d, h.stream, Stream.Write(Field(m), good, failed));
    WriteAdds(d, h.stream, Field(m), good, failed);
    NothingWritten(h);
    assert [] + Field(m) == Field(m) == Field(m) + [];
  }

  lemma SendPayloadKeepsInv(d: Direction, h: Half, p: bytes, good: nat, failed: bool)
    requires HalfInv(d, h) && HalfEnabled(d, h, SendPayload(p, good, failed))
    ensures HalfInv(d, HalfApply(d, h, SendPayload(p, good, failed)))
  {
    hide Stream.Inv, Stream.Apply, Concat, Field, Chunks;
    Stream.StepKeepsInv(d, h.stream, Stream.Write(p, good, failed));
    WriteAdds(d, h.stream, p, good, failed);
    var f := Field(h.control.value);
    assert (f + h.payload) + p == f + (h.payload + p);
  }

  lemma CloseKeepsInv(d: Direction, h: Half, orderly: bool)
    requires HalfInv(d, h) && HalfEnabled(d, h, Close(orderly))
    ensures HalfInv(d, HalfApply(d, h, Close(orderly)))
  {
    Stream.StepKeepsInv(d, h.stream, Stream.CloseWrite);
    hide Stream.Inv, Concat, Field;
  }

  lemma EndKeepsInv(d: Direction, h: Half)
    requires HalfInv(d, h)
    ensures HalfInv(d, HalfApply(d, h, EndApplication))
  {
    hide Stream.Inv, Concat, Field;
  }

  lemma NothingWritten(h: Half)
    requires SenderInv(h) && h.control.None?
    ensures Concat(h.stream.data) == []
  {
  }

  lemma ReadKeepsInv(d: Direction, h: Half, e: HalfEvent)
    requires HalfInv(d, h) && HalfEnabled(d, h, e) && (e.ReadControl? || e.ReadPayload?)
    ensures HalfInv(d, HalfApply(d, h, e))
  {
    Stream.StepKeepsInv(d, h.stream, StreamEvent(h, e));
    SenderUntouched(d, h, e);
    DeliveredGrows(d, h, e);
    var more := ReadBytes(d, h, e);
    if e.ReadControl? {
      ControlReceived(h, HalfApply(d, h, e), more);
    } else {
      PayloadReceived(h, HalfApply(d, h, e), more, e.kept);
    }
  }

  lemma SenderUntouched(d: Direction, h: Half, e: HalfEvent)
    requires SenderInv(h) && (e.ReadControl? || e.ReadPayload?)
    ensures SenderInv(HalfApply(d, h, e))
  {
    hide ReadOnce, Concat;
  }

  lemma ControlReceived(h: Half, h': Half, more: bytes)
    requires ReceiverInv(h) && !Complete(h) && !TooLong(h.got) && |more| <= Wanted(h.got)
    requires h'.got == h.got + more && h'.tail == h.tail && h'.out == h.out
    requires h'.stream.delivered == h.stream.delivered + more
    ensures ReceiverInv(h')
  {
    assert h.got + h.tail == h.got && h'.got + h'.tail == h'.got;
    ControlGrows(h.got, more);
  }

  lemma PayloadReceived(h: Half, h': Half, more: bytes, kept: nat)
    requires ReceiverInv(h) && Complete(h)
    requires h'.got == h.got && h'.tail == h.tail + more
    requires h'.out == if h.out == h.tail then h.out + Cut(more, kept) else h.out
    requires h'.stream.delivered == h.stream.delivered + more
    ensures ReceiverInv(h')
  {
    hide Uint32;
    assert (h.got + h.tail) + more == h.got + (h.tail + more);
  }

  lemma DeliveredGrows(d: Direction, h: Half, e: HalfEvent)
    requires e.ReadControl? || e.ReadPayload?
    ensures HalfApply(d, h, e).stream.delivered == h.stream.delivered + ReadBytes(d, h, e)
  {
  }

  lemma ControlGrows(got: bytes, more: bytes)
    requires |more| <= Wanted(got) && !(|got| >= 4 && |got| == 4 + Uint32(got)) && (|got| < 4 || |got| < 4 + Uint32(got))
    ensures var all := got + more; |all| < 4 || |all| <= 4 + Uint32(all)
  {
    if |got| >= 4 {
      assert Uint32(got + more) == Uint32(got);
    }
  }

  lemma HalfStepKeepsInv(d: Direction, h: Half, e: HalfEvent)
    requires HalfInv(d, h) && HalfEnabled(d, h, e)
    ensures HalfInv(d, HalfApply(d, h, e))
  {
    hide HalfInv, HalfEnabled, HalfApply;
    match e
    case SendControl(m, good, failed) => SendControlKeepsInv(d, h, m, good, failed);
    case SendPayload(p, good, failed) => SendPayloadKeepsInv(d, h, p, good, failed);
    case Close(orderly) => CloseKeepsInv(d, h, orderly);
    case EndApplication => EndKeepsInv(d, h);
    case _ => ReadKeepsInv(d, h, e);
  }

  /**
   * What a direction guarantees: a complete control message is the one that was sent, and
   * the application is given a prefix of the payload, never a byte of the control message.
   * At the end of an unfailed stream the receiver has read all of it.
   */
  lemma HalfDelivers(d: Direction, h: Half)
    requires HalfInv(d, h)
    ensures Complete(h) ==> h.control == Some(Message(h))
    ensures h.out <= h.tail <= h.payload
    ensures h.stream.reader.eof && !h.stream.failed && Complete(h) ==> h.tail == h.payload
  {
    var written := Concat(h.stream.data);
    DeliveredIsWritten(d, h.stream);
    hide Stream.Inv, Concat;
    if Complete(h) {
      PutOfUint32(h.got[..4]);
      var m := Message(h);
      assert h.got == Field(m) + [] == Field(m);
      if h.control.None? {
        NothingWritten(h);
      } else {
        SplitDelivered(m, h.tail, h.control.value, h.payload);
      }
    }
  }

  lemma DeliveredIsWritten(d: Direction, s: Stream.Stream)
    requires Stream.Inv(d, s)
    ensures s.delivered <= Concat(s.data)
    ensures s.reader.eof && !s.failed ==> s.delivered == Concat(s.data)
  {
    var k := if s.reader.eof then s.marker.value else s.reader.next;
    ConcatPrefix(s.data, k);
    hide Concat, SealAll;
    assert s.delivered <= Concat(s.data[..k]);
    assert s.data[..|s.data|] == s.data;
  }

  lemma SplitDelivered(m: bytes, tail: bytes, control: bytes, payload: bytes)
    requires Fits(m) && Fits(control) && Field(m) + tail <= Field(control) + payload
    ensures m == control && tail <= payload
    ensures Field(m) + tail == Field(control) + payload ==> tail == payload
  {
    var all := Field(control) + payload;
    var rest := all[|Field(m) + tail|..];
    assert all == Field(m) + (tail + rest);
    FieldUnique(m, tail + rest, control, payload);
  }

  // ------------------------------------------------------------- what an end of stream means

  /**
   * relay shows the application an end after any copy. It means that the application has
   * everything the other one wrote if the copy came to the tunnel's end marker, passed all
   * of it on, and the sender's own source had ended.
   */
  lemma EndMeansComplete(d: Direction, h: Half)
    requires HalfInv(d, h) && Complete(h)
    requires h.stream.reader.eof && h.out == h.tail && h.sourceDone
    ensures h.out == h.payload
  {
    HalfDelivers(d, h);
    hide Stream.Inv, Concat, Field;
  }

  /**
   * Without the end marker it need not: at any point where the sender can still write, the
   * copy to the application may be cut, and the end it is shown comes before the data.
   */
  lemma CutLooksLikeAnEnd(d: Direction, h: Half, p: bytes)
    requires HalfInv(d, h) && HalfEnabled(d, h, EndApplication)
    requires p != [] && HalfEnabled(d, h, SendPayload(p, |Chunks(p)|, false))
    ensures var h' := HalfApply(d, h, EndApplication);
            && HalfEnabled(d, h', SendPayload(p, |Chunks(p)|, false))
            && var h'' := HalfApply(d, h', SendPayload(p, |Chunks(p)|, false));
               h''.ended && h''.out == h.out < h''.payload
  {
    HalfDelivers(d, h);
    hide HalfInv, Stream.Apply, Stream.Enabled, Chunks;
    assert h.out <= h.payload && |h.out| < |h.payload + p|;
  }

  /**
   * Nor if the sender's source failed: its end marker is the one an orderly end sends, and
   * nothing the receiver will ever see tells them apart.
   */
  lemma ResetLooksLikeAnEnd(d: Direction, h: Half)
    requires HalfEnabled(d, h, Close(true))
    ensures HalfEnabled(d, h, Close(false))
    ensures HalfApply(d, h, Close(true)) == HalfApply(d, h, Close(false)).(sourceDone := true)
  {
  }

  // ------------------------------------------------------------------ the two directions

  /** Which frames the ingress gate accepts, and which acknowledgements say so. */
  datatype Gate = Gate(accepts: bytes -> bool, isOk: bytes -> bool)

  datatype System = System(c2s: Half, s2c: Half)

  const UNCONNECTED: System := System(NEW_HALF, NEW_HALF)

  datatype Event = Outbound(e: HalfEvent) | Inbound(e: HalfEvent)

  /** The ingress sidecar has written an acknowledgement that accepts, and relays. */
  predicate IngressRelays(g: Gate, s: System) {
    s.s2c.control.Some? && g.isOk(s.s2c.control.value)
  }

  /** The egress sidecar has read such an acknowledgement, and relays. */
  predicate EgressRelays(g: Gate, s: System) {
    Complete(s.s2c) && g.isOk(Message(s.s2c))
  }

  /** accept and forward: who may do what, and when. */
  ghost predicate Enabled(g: Gate, d1: Direction, d2: Direction, s: System, e: Event) {
    match e
    case Outbound(o) =>
      && HalfEnabled(d1, s.c2s, o)
      && (o.SendPayload? || o.Close? ==> EgressRelays(g, s))
      && (o.ReadPayload? || o.EndApplication? ==> IngressRelays(g, s))
    case Inbound(i) =>
      && HalfEnabled(d2, s.s2c, i)
      && (i.SendControl? ==> Complete(s.c2s) && (g.isOk(i.m) <==> g.accepts(Message(s.c2s))))
      && (i.SendPayload? || i.Close? ==> IngressRelays(g, s))
      && (i.ReadPayload? || i.EndApplication? ==> EgressRelays(g, s))
  }

  function Apply(d1: Direction, d2: Direction, s: System, e: Event): System {
    match e
    case Outbound(o) => s.(c2s := HalfApply(d1, s.c2s, o))
    case Inbound(i) => s.(s2c := HalfApply(d2, s.s2c, i))
  }

  ghost predicate ValidRun(g: Gate, d1: Direction, d2: Direction, s: System, es: seq<Event>)
    decreases es
  {
    es == [] || (Enabled(g, d1, d2, s, es[0]) && ValidRun(g, d1, d2, Apply(d1, d2, s, es[0]), es[1..]))
  }

  function Run(d1: Direction, d2: Direction, s: System, es: seq<Event>): System
    decreases es
  {
    if es == [] then s else Run(d1, d2, Apply(d1, d2, s, es[0]), es[1..])
  }

  ghost predicate Inv(g: Gate, d1: Direction, d2: Direction, s: System) {
    && HalfInv(d1, s.c2s) && HalfInv(d2, s.s2c)
    && (IngressRelays(g, s) ==> Complete(s.c2s) && g.accepts(Message(s.c2s)))
    && (s.c2s.payload != [] || s.s2c.tail != [] ==> EgressRelays(g, s))
    && (s.s2c.payload != [] || s.c2s.tail != [] ==> IngressRelays(g, s))
  }

  lemma CompleteStays(d: Direction, h: Half, e: HalfEvent)
    requires HalfEnabled(d, h, e) && Complete(h)
    ensures Complete(HalfApply(d, h, e)) && Message(HalfApply(d, h, e)) == Message(h)
  {
  }

  lemma StepKeepsInv(g: Gate, d1: Direction, d2: Direction, s: System, e: Event)
    requires Inv(g, d1, d2, s) && Enabled(g, d1, d2, s, e)
    ensures Inv(g, d1, d2, Apply(d1, d2, s, e))
  {
    hide Inv, Enabled, Apply;
    match e
    case Outbound(o) => OutboundKeepsInv(g, d1, d2, s, o);
    case Inbound(i) => InboundKeepsInv(g, d1, d2, s, i);
  }

  lemma OutboundKeepsInv(g: Gate, d1: Direction, d2: Direction, s: System, o: HalfEvent)
    requires Inv(g, d1, d2, s) && Enabled(g, d1, d2, s, Outbound(o))
    ensures Inv(g, d1, d2, Apply(d1, d2, s, Outbound(o)))
  {
    HalfStepKeepsInv(d1, s.c2s, o);
    if Complete(s.c2s) { CompleteStays(d1, s.c2s, o); }
    hide HalfInv, HalfEnabled, ReadBytes, Stream.Apply, Complete;
  }

  lemma InboundKeepsInv(g: Gate, d1: Direction, d2: Direction, s: System, i: HalfEvent)
    requires Inv(g, d1, d2, s) && Enabled(g, d1, d2, s, Inbound(i))
    ensures Inv(g, d1, d2, Apply(d1, d2, s, Inbound(i)))
  {
    HalfStepKeepsInv(d2, s.s2c, i);
    if Complete(s.s2c) { CompleteStays(d2, s.s2c, i); }
    hide HalfInv, ReadBytes, Stream.Enabled, Stream.Apply;
  }

  lemma {:induction false} RunKeepsInv(g: Gate, d1: Direction, d2: Direction, s: System, es: seq<Event>)
    requires Inv(g, d1, d2, s) && ValidRun(g, d1, d2, s, es)
    ensures Inv(g, d1, d2, Run(d1, d2, s, es))
    decreases es
  {
    if es != [] {
      StepKeepsInv(g, d1, d2, s, es[0]);
      RunKeepsInv(g, d1, d2, Apply(d1, d2, s, es[0]), es[1..]);
    }
  }

  /** The frame this egress sent was received whole and passed the gate. */
  predicate Authorized(g: Gate, s: System) {
    s.c2s.control.Some? && Complete(s.c2s) && Message(s.c2s) == s.c2s.control.value && g.accepts(s.c2s.control.value)
  }

  /**
   * The tunnelled application stream: in every run of forward and accept, an application
   * byte moves in either direction only once the gate accepted the very frame the egress
   * sent, outbound bytes move only after the egress has read that acceptance, the frames
   * themselves never reach an application, and each application gets a prefix of what the
   * other one wrote.
   */
  lemma TunnelledStream(g: Gate, d1: Direction, d2: Direction, es: seq<Event>)
    requires d1.Valid() && d2.Valid() && ValidRun(g, d1, d2, UNCONNECTED, es)
    ensures var s := Run(d1, d2, UNCONNECTED, es);
            && s.c2s.out <= s.c2s.payload && s.s2c.out <= s.s2c.payload
            && (s.c2s.payload != [] || s.c2s.out != [] || s.s2c.payload != [] || s.s2c.out != [] ==> Authorized(g, s))
            && (s.c2s.payload != [] || s.s2c.out != [] ==> EgressRelays(g, s) && s.s2c.control == Some(Message(s.s2c)))
            && (s.s2c.payload != [] || s.c2s.out != [] ==> IngressRelays(g, s))
  {
    FreshInv(g, d1, d2);
    RunKeepsInv(g, d1, d2, UNCONNECTED, es);
    var s := Run(d1, d2, UNCONNECTED, es);
    HalfDelivers(d1, s.c2s);
    HalfDelivers(d2, s.s2c);
    hide HalfInv, Run;
    assert EgressRelays(g, s) ==> IngressRelays(g, s);
  }

  lemma FreshInv(g: Gate, d1: Direction, d2: Direction)
    requires d1.Valid() && d2.Valid()
    ensures Inv(g, d1, d2, UNCONNECTED)
  {
    Stream.FreshInv(d1);
    Stream.FreshInv(d2);
  }
}
