/** The wire codec: length-prefixed fields, the cursor that reads them back, and frames. */
module Frame {
  import opened Wrappers
  import opened ByteStrings

  const MAX_FRAME: nat := 0x10_0000

  /** A field as appendField writes it; a wire frame has the same shape. */
  function Field(field: bytes): (b: bytes)
    ensures |b| == 4 + |field|
  {
    PutUint32(|field|) + field
  }

  /** Lengths that the four-byte header can hold. */
  predicate Fits(field: bytes) {
    |field| < TWO_TO_THE_32
  }

  function Fields(fields: seq<bytes>): bytes {
    if fields == [] then [] else Field(fields[0]) + Fields(fields[1..])
  }

  lemma FieldHeader(field: bytes, rest: bytes)
    requires Fits(field)
    ensures Uint32((Field(field) + rest)[..4]) == Uint32(Field(field) + rest) == |field|
    ensures (Field(field) + rest)[4..4 + |field|] == field
    ensures (Field(field) + rest)[4 + |field|..] == rest
  {
    assert (Field(field) + rest)[..4] == PutUint32(|field|);
    Uint32OfPut(|field|);
  }

  /** What follows a field can never be confused with the field. */
  lemma FieldUnique(a: bytes, x: bytes, b: bytes, y: bytes)
    requires Fits(a) && Fits(b)
    requires Field(a) + x == Field(b) + y
    ensures a == b && x == y
  {
    FieldHeader(a, x);
    FieldHeader(b, y);
  }

  lemma {:induction false} FieldsUnique(us: seq<bytes>, x: bytes, vs: seq<bytes>, y: bytes)
    requires |us| == |vs|
    requires forall f | f in us + vs :: Fits(f)
    requires Fields(us) + x == Fields(vs) + y
    ensures us == vs && x == y
  {
    if us == [] {
      assert x == Fields(us) + x && y == Fields(vs) + y;
    } else {
      var restA, restB := Fields(us[1..]) + x, Fields(vs[1..]) + y;
      assert Field(us[0]) + restA == Fields(us) + x;
      assert Field(vs[0]) + restB == Fields(vs) + y;
      assert us[0] in us + vs && vs[0] in us + vs;
      FieldUnique(us[0], restA, vs[0], restB);
      forall f | f in us[1..] + vs[1..] ensures Fits(f) { assert f in us + vs; }
      FieldsUnique(us[1..], x, vs[1..], y);
      assert us == [us[0]] + us[1..] && vs == [vs[0]] + vs[1..];
    }
  }

  lemma {:induction false} FieldsConcat(us: seq<bytes>, vs: seq<bytes>)
    ensures Fields(us + vs) == Fields(us) + Fields(vs)
  {
    if us == [] {
      assert us + vs == vs;
    } else {
      hide Field;
      calc {
        Fields(us + vs);
        { assert (us + vs)[0] == us[0] && (us + vs)[1..] == us[1..] + vs; }
        Field(us[0]) + Fields(us[1..] + vs);
        { FieldsConcat(us[1..], vs); }
        Field(us[0]) + (Fields(us[1..]) + Fields(vs));
        (Field(us[0]) + Fields(us[1..])) + Fields(vs);
      }
    }
  }

  lemma FieldsAppend(fields: seq<bytes>, last: bytes)
    ensures Fields(fields + [last]) == Fields(fields) + Field(last)
  {
    FieldsConcat(fields, [last]);
    assert Fields([last]) == Field(last) + Fields([]);
  }

  lemma SplitField(b: bytes, n: nat)
    requires 4 + n <= |b| && n == Uint32(b)
    ensures b == Field(b[4..4 + n]) + b[4 + n..]
  {
    PutOfUint32(b[..4]);
    assert Field(b[4..4 + n]) == b[..4] + b[4..4 + n];
  }

  /** The cursor that walks a handshake message field by field. */
  class Reader {
    const buf: bytes
    var pos: nat

    ghost predicate Valid()
      reads this
    {
      pos <= |buf|
    }

    ghost function Rest(): bytes
      requires Valid()
      reads this
    {
      buf[pos..]
    }

    constructor (buf: bytes, pos: nat)
      requires pos <= |buf|
      ensures Valid() && this.buf == buf && this.pos == pos
    {
      this.buf := buf;
      this.pos := pos;
    }

    /** Reads one field: it succeeds exactly when some field starts at the cursor. */
    method ReadField() returns (r: Option<bytes>)
      requires Valid()
      modifies this
      ensures Valid()
      ensures r.Some? ==> Fits(r.value) && old(Rest()) == Field(r.value) + Rest()
      ensures r.None? ==> forall f, rest | Fits(f) :: old(Rest()) != Field(f) + rest
      ensures r.None? ==> pos == if old(|Rest()|) < 4 then old(pos) else old(pos) + 4
    {
      ghost var before := Rest();
      forall f, rest | Fits(f) && before == Field(f) + rest
        ensures 4 + |f| <= |before| && Uint32(before[..4]) == |f|
      {
        FieldHeader(f, rest);
      }
      if pos + 4 > |buf| {
        return None;
      }
      var n := Uint32(buf[pos..pos + 4]);
      assert before[..4] == buf[pos..pos + 4] && Uint32(before) == n;
      pos := pos + 4;
      if pos + n > |buf| {
        return None;
      }
      var out := buf[pos..pos + n];
      pos := pos + n;
      SplitField(before, n);
      assert out == before[4..4 + n] && Rest() == before[4 + n..];
      return Some(out);
    }

    method Done() returns (ok: bool)
      requires Valid()
      ensures ok <==> Rest() == []
    {
      ok := pos == |buf|;
    }
  }

  /**
   * A raw network connection. The network decides what arrives (incoming) and whether a
   * write or a read fails half way; a lossless one never fails while bytes are there.
   */
  class RawConn {
    const lossless: bool
    var incoming: bytes
    var sent: bytes

    constructor (lossless: bool, incoming: bytes)
      ensures this.lossless == lossless && this.incoming == incoming && sent == []
    {
      this.lossless := lossless;
      this.incoming := incoming;
      sent := [];
    }

    method Write(b: bytes) returns (ok: bool)
      modifies `sent
      ensures ok ==> sent == old(sent) + b
      ensures !ok ==> !lossless && exists k: nat :: k <= |b| && sent == old(sent) + b[..k]
    {
      var k: nat :| k <= |b|;
      ok := *;
      ok := ok || lossless;
      sent := sent + if ok then b else b[..k];
    }

    /** io.ReadFull: exactly n bytes, or an error after consuming some. */
    method ReadFull(n: nat) returns (r: Option<bytes>)
      modifies `incoming
      ensures r.Some? ==> |r.value| == n && old(incoming) == r.value + incoming
      ensures r.None? ==> exists k: nat :: k <= |old(incoming)| && incoming == old(incoming)[k..]
      ensures r.None? && lossless ==> |old(incoming)| < n
    {
      var ok: bool := *;
      ok := (ok || lossless) && n <= |incoming|;
      if ok {
        r := Some(incoming[..n]);
        incoming := incoming[n..];
      } else {
        var k: nat :| k <= |incoming|;
        r := None;
        incoming := incoming[k..];
      }
    }
  }

  method WriteFrame(w: RawConn, payload: bytes) returns (ok: bool)
    modifies w`sent
    ensures ok ==> |payload| <= MAX_FRAME && w.sent == old(w.sent) + Field(payload)
    ensures !ok ==> exists k: nat :: k <= |Field(payload)| && w.sent == old(w.sent) + Field(payload)[..k]
    ensures !ok ==> |payload| > MAX_FRAME || !w.lossless
    ensures |payload| > MAX_FRAME ==> w.sent == old(w.sent)
    ensures |payload| > 1_048_576 ==> !ok
    ensures |payload| <= 1_048_576 && w.lossless ==> ok
  {
    ghost var before := w.sent;
    if |payload| > MAX_FRAME {
      assert w.sent == before + Field(payload)[..0];
      return false;
    }
    var header := PutUint32(|payload|);
    ok := w.Write(header);
    if !ok {
      ghost var k: nat :| k <= |header| && w.sent == before + header[..k];
      assert header[..k] == Field(payload)[..k];
      return false;
    }
    ok := w.Write(payload);
    if ok {
      assert w.sent == before + Field(payload);
    } else {
      ghost var k: nat :| k <= |payload| && w.sent == before + header + payload[..k];
      assert header + payload[..k] == Field(payload)[..4 + k];
      assert w.sent == before + Field(payload)[..4 + k];
    }
  }

  /** Over a lossless connection a frame is read exactly when one starts the input. */
  method ReadFrame(r: RawConn) returns (frame: Option<bytes>)
    modifies r`incoming
    ensures frame.Some? ==>
              |frame.value| <= MAX_FRAME && old(r.incoming) == Field(frame.value) + r.incoming
    ensures frame.None? && r.lossless ==>
              forall f, rest | |f| <= MAX_FRAME :: old(r.incoming) != Field(f) + rest
    ensures |r.incoming| <= |old(r.incoming)|
    ensures frame.Some? ==> |frame.value| <= 1_048_576
    ensures frame.None? && r.lossless ==> forall f, rest | |f| <= 1_048_576 :: old(r.incoming) != Field(f) + rest
  {
    ghost var before := r.incoming;
    forall f, rest | |f| <= MAX_FRAME && before == Field(f) + rest
      ensures 4 + |f| <= |before| && Uint32(before[..4]) == |f|
    {
      FieldHeader(f, rest);
    }
    var header := r.ReadFull(4);
    if header.None? {
      return None;
    }
    assert before[..4] == header.value;
    var n := Uint32(header.value);
    if n > MAX_FRAME {
      return None;
    }
    frame := r.ReadFull(n);
    if frame.Some? {
      SplitField(before, n);
      assert before[4..] == frame.value + r.incoming;
    }
  }
}
