/** Both ends of a sidecar connection up to the relay, over the tunnel connection itself. */
module Sidecar {
  import opened Wrappers
  import opened ByteStrings
  import opened Frame
  import opened Records
  import C = Conn
  import opened Ingress

  ghost predicate WroteAll(d: Direction, before: Writer, after: Writer, message: bytes) {
    after == WriteOnce(d, before, Field(message), |Chunks(Field(message))|, false)
  }

  /** How much of one control message a call wrote: all, a part of it, or none. */
  ghost predicate WroteOnly(d: Direction, before: Writer, after: Writer, message: bytes) {
    || after == before
    || WroteAll(d, before, after, message)
    || exists good: nat :: good < |Chunks(Field(message))| && after == WriteOnce(d, before, Field(message), good, true)
  }

  /**
   * forward up to the relay: the frame, then the reply. Before it relays it has sealed the
   * whole frame and nothing else, and has read one reply, which accepts.
   */
  method Forward(tun: C.Conn, frame: bytes, isOk: bytes -> bool) returns (relays: bool)
    requires tun.Valid()
    modifies tun, tun.sealer, tun.raw
    ensures tun.Valid()
    ensures WroteOnly(tun.Outbound(), old(tun.WriterState()), tun.WriterState(), frame)
    ensures relays ==>
              && WroteAll(tun.Outbound(), old(tun.WriterState()), tun.WriterState(), frame)
              && exists ack: bytes :: isOk(ack) && tun.received == old(tun.received) + Field(ack)
  {
    hide Chunks, Field, WriteOnce;
    var ok := tun.WriteMessage(frame);
    if !ok { return false; }
    var ack := tun.ReadMessage();
    return ack.Some? && isOk(ack.value);
  }

  /**
   * accept up to the relay: one frame, the gate's decision, one reply. It relays only after
   * it admitted the caller of that frame and wrote a whole accepting reply, and whatever
   * happens it has sealed nothing but its one reply.
   */
  method Accept(tun: C.Conn, gate: Gate, peer: Peer, now: int, encode: Ack -> bytes) returns (relays: bool)
    requires tun.Valid() && gate.validator.pol == gate.g.pol && gate.validator.algs == gate.g.algs
    modifies tun, tun.sealer, tun.raw, gate.validator.cache
    ensures tun.Valid()
    ensures exists ack: Ack ::
              && WroteOnly(tun.Outbound(), old(tun.WriterState()), tun.WriterState(), encode(ack))
              && (relays ==> ack.ok && WroteAll(tun.Outbound(), old(tun.WriterState()), tun.WriterState(), encode(ack)))
    ensures relays ==> exists message: bytes ::
              && tun.received == old(tun.received) + Field(message)
              && Opens(gate.g, old(gate.validator.cache.State()), peer, now, message)
  {
    hide Chunks, Field, WriteOnce, Admission;
    ghost var before := tun.WriterState();
    var payload := tun.ReadMessage();
    assert tun.WriterState() == before;
    if payload.None? {
      assert WroteOnly(tun.Outbound(), before, tun.WriterState(), encode(Ack(false, "", "")));
      return false;
    }
    var ack := gate.Accept(payload.value, peer, now);
    var ok := tun.WriteMessage(encode(ack));
    assert WroteOnly(tun.Outbound(), before, tun.WriterState(), encode(ack));
    return ok && ack.ok;
  }
}
