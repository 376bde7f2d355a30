/** Fixed-width integers and the two byte orders in which they are written (Go's
    encoding/binary). */
module Bytes {

  const TWO_16 := 0x1_0000
  const TWO_32 := 0x1_0000_0000
  const TWO_63 := 0x8000_0000_0000_0000
  const TWO_64 := 0x1_0000_0000_0000_0000

  type Byte = b: int | 0 <= b < 0x100
  type Uint16 = v: int | 0 <= v < TWO_16
  type Uint32 = v: int | 0 <= v < TWO_32
  type Uint64 = v: int | 0 <= v < TWO_64
  type Int64 = v: int | -TWO_63 <= v < TWO_63

  datatype ByteOrder = LittleEndian | BigEndian

  function GetUint16(order: ByteOrder, b: seq<Byte>): Uint16
    requires |b| >= 2
  {
    var first: int, second: int := b[0], b[1];
    if order.LittleEndian? then first + 0x100 * second else second + 0x100 * first
  }

  function PutUint16(order: ByteOrder, v: Uint16): (b: seq<Byte>)
    ensures |b| == 2
    ensures GetUint16(order, b) == v
  {
    if order.LittleEndian? then [v % 0x100, v / 0x100] else [v / 0x100, v % 0x100]
  }

  function GetUint32(order: ByteOrder, b: seq<Byte>): Uint32
    requires |b| >= 4
  {
    if order.LittleEndian? then
      GetUint16(order, b[..2]) + TWO_16 * GetUint16(order, b[2..4])
    else
      GetUint16(order, b[2..4]) + TWO_16 * GetUint16(order, b[..2])
  }

  function PutUint32(order: ByteOrder, v: Uint32): (b: seq<Byte>)
    ensures |b| == 4
    ensures GetUint32(order, b) == v
  {
    var low := PutUint16(order, v % TWO_16);
    var high := PutUint16(order, v / TWO_16);
    Halves(low, high, 2);
    Halves(high, low, 2);
    if order.LittleEndian? then low + high else high + low
  }

  function GetUint64(order: ByteOrder, b: seq<Byte>): Uint64
    requires |b| >= 8
  {
    if order.LittleEndian? then
      GetUint32(order, b[..4]) + TWO_32 * GetUint32(order, b[4..8])
    else
      GetUint32(order, b[4..8]) + TWO_32 * GetUint32(order, b[..4])
  }

  function PutUint64(order: ByteOrder, v: Uint64): (b: seq<Byte>)
    ensures |b| == 8
    ensures GetUint64(order, b) == v
  {
    var low := PutUint32(order, v % TWO_32);
    var high := PutUint32(order, v / TWO_32);
    Halves(low, high, 4);
    Halves(high, low, 4);
    if order.LittleEndian? then low + high else high + low
  }

  /** The conversion int64(x), in two's complement. */
  function ToInt64(u: Uint64): Int64 {
    if u >= TWO_63 then u - TWO_64 else u
  }

  /** The zero bytes that bring a field of n bytes to a multiple of four. */
  function PadLength(n: nat): (p: nat)
    ensures p < 4 && (n + p) % 4 == 0
  {
    (4 - n % 4) % 4
  }

  function Zeros(n: nat): (z: seq<Byte>)
    ensures |z| == n
  {
    seq(n, _ => 0)
  }

  lemma Halves<T>(a: seq<T>, b: seq<T>, n: nat)
    requires |a| == |b| == n
    ensures (a + b)[..n] == a
    ensures (a + b)[n..n + n] == b
  {
    assert (a + b)[n..n + n] == (a + b)[n..];
  }

  lemma Associative<T>(a: seq<T>, b: seq<T>, c: seq<T>)
    ensures a + (b + c) == (a + b) + c
  {
  }

  lemma Slices<T>(a: seq<T>, b: seq<T>)
    ensures (a + b)[..|a|] == a
    ensures (a + b)[|a|..] == b
  {
  }
}
