/** Four-byte integers inside a page of bytes. */
module SpBytes {

  type Byte = x: int | 0 <= x < 256

  const INT_HALF := 0x8000_0000

  predicate IsInt(v: int) { -INT_HALF <= v < INT_HALF }

  /** The integer whose bytes are given, least significant first. */
  function IntOf(b0: Byte, b1: Byte, b2: Byte, b3: Byte): int {
    var u := b0 + 0x100 * b1 + 0x1_0000 * b2 + 0x100_0000 * b3;
    if u < INT_HALF then u else u - 2 * INT_HALF
  }

  function GetInt(p: seq<Byte>, o: nat): int {
    if o + 4 <= |p| then IntOf(p[o], p[o + 1], p[o + 2], p[o + 3]) else 0
  }

  function Unsigned(v: int): int { if v < 0 then v + 2 * INT_HALF else v }

  /** Byte k of v, least significant first. */
  function ByteOf(v: int, k: nat): Byte
    requires k < 4
  {
    var u := Unsigned(v);
    (if k == 0 then u else if k == 1 then u / 0x100 else if k == 2 then u / 0x1_0000 else u / 0x100_0000) % 0x100
  }

  lemma IntRoundTrip(v: int)
    requires IsInt(v)
    ensures IntOf(ByteOf(v, 0), ByteOf(v, 1), ByteOf(v, 2), ByteOf(v, 3)) == v
  {
    var u := Unsigned(v);
    var h, w := u / 0x100, u / 0x1_0000;
    assert u == 0x100 * h + u % 0x100;
    assert w == h / 0x100 && h == 0x100 * w + h % 0x100;
    assert u / 0x100_0000 == w / 0x100 && w == 0x100 * (w / 0x100) + w % 0x100;
  }

  method PutInt(buf: array<Byte>, o: nat, v: int)
    requires o + 4 <= buf.Length && IsInt(v)
    modifies buf
    ensures GetInt(buf[..], o) == v
    ensures forall k | 0 <= k < buf.Length && !(o <= k < o + 4) :: buf[k] == old(buf[k])
    ensures forall i: nat | i + 4 <= o || o + 4 <= i :: GetInt(buf[..], i) == GetInt(old(buf[..]), i)
  {
    hide IntOf, ByteOf;
    IntRoundTrip(v);
    buf[o], buf[o + 1], buf[o + 2], buf[o + 3] := ByteOf(v, 0), ByteOf(v, 1), ByteOf(v, 2), ByteOf(v, 3);
  }
}
