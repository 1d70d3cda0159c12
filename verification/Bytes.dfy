/** Bytes, records and the machine integers stored in them. */
module Bytes {
  newtype byte = x: int | 0 <= x < 256
  type Record = seq<byte>

  const INT_MIN := -0x8000_0000
  const INT_LIM := 0x8000_0000
  const INT_SPAN := 0x1_0000_0000

  /** Two's complement wrap-around of a 32-bit int. */
  function Wrap32(x: int): (r: int)
    ensures INT_MIN <= r < INT_LIM
    ensures (r - x) % INT_SPAN == 0
  {
    var m := x % INT_SPAN;
    if m < INT_LIM then m else m - INT_SPAN
  }

  predicate IsInt32(x: int) { INT_MIN <= x < INT_LIM }

  /** The little-endian 4-byte int that memcpy reads at offset off. */
  function IntAt(rec: Record, off: nat): (r: int)
    requires off + 4 <= |rec|
    ensures IsInt32(r)
  {
    Wrap32(rec[off] as int + 0x100 * rec[off + 1] as int
           + 0x1_0000 * rec[off + 2] as int + 0x100_0000 * rec[off + 3] as int)
  }

  /** The four bytes of an int, least significant first. */
  function IntBytes(v: int): (r: Record)
    ensures |r| == 4
    ensures r[0] as int == v % 0x1_0000_0000 % 0x100
    ensures r[1] as int == v % 0x1_0000_0000 / 0x100 % 0x100
    ensures r[2] as int == v % 0x1_0000_0000 / 0x1_0000 % 0x100
    ensures r[3] as int == v % 0x1_0000_0000 / 0x100_0000 % 0x100
  {
    var m := v % INT_SPAN;
    [(m % 0x100) as byte, (m / 0x100 % 0x100) as byte, (m / 0x1_0000 % 0x100) as byte, (m / 0x100_0000 % 0x100) as byte]
  }

  lemma Digit(m: int, a: int, r: int)
    requires 0 <= m && 0 <= a < 0x100
    ensures m == a + 0x100 * r <==> a == m % 0x100 && r == m / 0x100
  {}

  /** A number below 2^32 and its four digits to the base 256. */
  lemma Digits(m: int, a: int, b: int, c: int, d: int)
    requires 0 <= m < 0x1_0000_0000 && 0 <= a < 0x100 && 0 <= b < 0x100 && 0 <= c < 0x100 && 0 <= d < 0x100
    ensures m == a + 0x100 * b + 0x1_0000 * c + 0x100_0000 * d <==>
            a == m % 0x100 && b == m / 0x100 % 0x100 && c == m / 0x1_0000 % 0x100 && d == m / 0x100_0000 % 0x100
  {
    Digit(m, a, b + 0x100 * c + 0x1_0000 * d);
    Digit(m / 0x100, b, c + 0x100 * d);
    Digit(m / 0x1_0000, c, d);
    assert m / 0x100 / 0x100 == m / 0x1_0000 && m / 0x1_0000 / 0x100 == m / 0x100_0000 < 0x100;
  }

  lemma WrapOf(m: int, v: int)
    requires 0 <= m < 0x1_0000_0000 && IsInt32(v)
    ensures Wrap32(m) == v <==> m == v % 0x1_0000_0000
  {}

  /** The int read at an offset is v exactly when the four bytes there are those of v, whatever comes before and
      after. */
  lemma IntAtIsBytes(rec: Record, off: nat, v: int)
    requires off + 4 <= |rec| && IsInt32(v)
    ensures IntAt(rec, off) == v <==> rec[off..off + 4] == IntBytes(v)
  {
    var a, b, c, d := rec[off] as int, rec[off + 1] as int, rec[off + 2] as int, rec[off + 3] as int;
    Digits(v % 0x1_0000_0000, a, b, c, d);
    WrapOf(a + 0x100 * b + 0x1_0000 * c + 0x100_0000 * d, v);
    var s := rec[off..off + 4];
    assert s[0] as int == a && s[1] as int == b && s[2] as int == c && s[3] as int == d;
  }

  /** The difference two C ints leave in an int, which every comparison in the source tests. */
  function Diff32(a: int, b: int): int { Wrap32(a - b) }

  /** The test for equality is exact; the sign is right exactly when the difference fits in 32 bits. */
  lemma Diff32Exact(a: int, b: int)
    requires IsInt32(a) && IsInt32(b)
    ensures Diff32(a, b) == 0 <==> a == b
    ensures a != b ==> ((Diff32(a, b) < 0 <==> a < b) <==> IsInt32(a - b))
  {
    var d := a - b;
    var r := Wrap32(d);
    assert -INT_SPAN < d < INT_SPAN;
    if d >= INT_LIM {
      assert d % INT_SPAN == d;
    } else if d >= 0 {
      assert d % INT_SPAN == d;
    } else {
      assert d % INT_SPAN == d + INT_SPAN;
    }
  }
}
