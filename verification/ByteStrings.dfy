/** Byte strings and the big-endian integers of encoding/binary. */
module ByteStrings {
  newtype byte = x: int | 0 <= x < 256
  type bytes = seq<byte>

  const TWO_TO_THE_32: int := 0x1_0000_0000
  const TWO_TO_THE_64: int := 0x1_0000_0000_0000_0000

  /** The digit of n in base 256 that counts 256^i. */
  function Digit(n: nat, i: nat): byte {
    if i == 0 then (n % 0x100) as byte else Digit(n / 0x100, i - 1)
  }

  /** binary.BigEndian.PutUint32 after the conversion uint32(n), which drops high bits. */
  function PutUint32(n: nat): (b: bytes)
    ensures |b| == 4
  {
    [Digit(n, 3), Digit(n, 2), Digit(n, 1), Digit(n, 0)]
  }

  /** binary.BigEndian.Uint32: the first four bytes of b. */
  function Uint32(b: bytes): (n: nat)
    requires 4 <= |b|
    ensures n < TWO_TO_THE_32
  {
    b[0] as int * 0x100_0000 + b[1] as int * 0x1_0000 + b[2] as int * 0x100 + b[3] as int
  }

  lemma Uint32OfPut(n: nat)
    ensures Uint32(PutUint32(n)) == n % TWO_TO_THE_32
  {
    var q1 := n / 0x100;
    var q2 := q1 / 0x100;
    var q3 := q2 / 0x100;
    assert Digit(n, 1) == Digit(q1, 0) && Digit(n, 2) == Digit(q1, 1) == Digit(q2, 0);
    assert Digit(n, 3) == Digit(q1, 2) == Digit(q2, 1) == Digit(q3, 0);
    assert n == (q3 / 0x100) * TWO_TO_THE_32 + Uint32(PutUint32(n));
  }

  lemma PutOfUint32(b: bytes)
    requires |b| == 4
    ensures PutUint32(Uint32(b)) == b
  {
    var n := Uint32(b);
    var q1 := b[0] as int * 0x1_0000 + b[1] as int * 0x100 + b[2] as int;
    var q2 := b[0] as int * 0x100 + b[1] as int;
    var q3 := b[0] as int;
    assert n / 0x100 == q1 && q1 / 0x100 == q2 && q2 / 0x100 == q3;
    assert Digit(n, 1) == Digit(q1, 0) && Digit(n, 2) == Digit(q1, 1) == Digit(q2, 0);
    assert Digit(n, 3) == Digit(q1, 2) == Digit(q2, 1) == Digit(q3, 0);
  }

  /** binary.BigEndian.PutUint64 of a uint64. */
  function PutUint64(n: nat): (b: bytes)
    ensures |b| == 8
  {
    PutUint32(n / TWO_TO_THE_32) + PutUint32(n)
  }

  /** binary.BigEndian.Uint64. */
  function Uint64(b: bytes): nat
    requires |b| == 8
  {
    Uint32(b[..4]) * TWO_TO_THE_32 + Uint32(b[4..])
  }

  lemma Uint64OfPut(n: nat)
    requires n < TWO_TO_THE_64
    ensures Uint64(PutUint64(n)) == n
  {
    var high, low := PutUint32(n / TWO_TO_THE_32), PutUint32(n);
    assert PutUint64(n)[..4] == high && PutUint64(n)[4..] == low;
    Uint32OfPut(n / TWO_TO_THE_32);
    Uint32OfPut(n);
  }

  /** The pieces of a list, end to end. */
  function Concat(parts: seq<bytes>): bytes {
    if parts == [] then [] else parts[0] + Concat(parts[1..])
  }

  lemma {:induction false} ConcatAppend(xs: seq<bytes>, ys: seq<bytes>)
    ensures Concat(xs + ys) == Concat(xs) + Concat(ys)
  {
    if xs == [] {
      assert xs + ys == ys;
    } else {
      calc {
        Concat(xs + ys);
        { assert (xs + ys)[0] == xs[0] && (xs + ys)[1..] == xs[1..] + ys; }
        xs[0] + Concat(xs[1..] + ys);
        { ConcatAppend(xs[1..], ys); }
        xs[0] + (Concat(xs[1..]) + Concat(ys));
        (xs[0] + Concat(xs[1..])) + Concat(ys);
      }
    }
  }

  lemma ConcatSnoc(xs: seq<bytes>, y: bytes)
    ensures Concat(xs + [y]) == Concat(xs) + y
  {
    ConcatAppend(xs, [y]);
    assert Concat([y]) == y + Concat([]);
  }

  lemma ConcatPrefix(xs: seq<bytes>, k: nat)
    requires k <= |xs|
    ensures Concat(xs[..k]) <= Concat(xs)
  {
    ConcatAppend(xs[..k], xs[k..]);
    assert xs[..k] + xs[k..] == xs;
  }
}
