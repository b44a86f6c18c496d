/** Byte-level integer reads of the feed decoder.

    The decoder loads 2, 4 or 8 bytes from the mapped file by reinterpreting
    the address as an unsigned integer of that width (main.cpp:96, 106-110)
    and then converts the loaded value from network (big-endian) order with
    `big_to_little_endian` (main.cpp:31-37). On the little-endian host the
    program is built for, the load yields the little-endian value of the bytes
    and `ntohs`/`ntohl` reverse the byte order of a 16- or 32-bit value. The
    8-byte case combines two `ntohl` calls with swapped halves. */
module Endian {

  type Byte = b: int | 0 <= b < 0x100
  type U16 = x: int | 0 <= x < 0x1_0000
  type U32 = x: int | 0 <= x < 0x1_0000_0000
  type U64 = x: int | 0 <= x < 0x1_0000_0000_0000_0000

  function Pow256(n: nat): (p: nat)
    ensures p >= 1
  {
    if n == 0 then 1 else 256 * Pow256(n - 1)
  }

  lemma Pow256Widths()
    ensures Pow256(2) == 0x1_0000
    ensures Pow256(4) == 0x1_0000_0000
    ensures Pow256(8) == 0x1_0000_0000_0000_0000
  {
    assert Pow256(1) == 0x100;
    assert Pow256(2) == 0x1_0000;
    assert Pow256(3) == 0x100_0000;
    assert Pow256(4) == 0x1_0000_0000;
    assert Pow256(5) == 0x100_0000_0000;
    assert Pow256(6) == 0x1_0000_0000_0000;
    assert Pow256(7) == 0x100_0000_0000_0000;
  }

  /** The value of the bytes read most significant first:
      the sum of b[i] * 256^(|b|-1-i). This is the wire order. */
  function BigEndian(b: seq<Byte>): (v: nat)
    ensures v < Pow256(|b|)
  {
    if b == [] then 0 else BigEndian(b[..|b| - 1]) * 256 + b[|b| - 1]
  }

  /** The value of the bytes read least significant first:
      the sum of b[i] * 256^i. This is what an unaligned integer load
      of the bytes produces on a little-endian host. */
  function LittleEndian(b: seq<Byte>): (v: nat)
    ensures v < Pow256(|b|)
  {
    if b == [] then 0 else b[0] + 256 * LittleEndian(b[1..])
  }

  /** An unaligned load of 2, 4 or 8 bytes through `reinterpret_cast`
      (main.cpp:96, 106, 107, 110) on a little-endian host. */
  function Load16(b: seq<Byte>): (v: U16)
    requires |b| == 2
  {
    Pow256Widths();
    LittleEndian(b)
  }

  function Load32(b: seq<Byte>): (v: U32)
    requires |b| == 4
  {
    Pow256Widths();
    LittleEndian(b)
  }

  function Load64(b: seq<Byte>): (v: U64)
    requires |b| == 8
  {
    Pow256Widths();
    LittleEndian(b)
  }

  /** The n-byte big-endian encoding of v. */
  function ToBigEndian(v: nat, n: nat): (b: seq<Byte>)
    requires v < Pow256(n)
    ensures |b| == n
    ensures BigEndian(b) == v
  {
    if n == 0 then []
    else
      var b := ToBigEndian(v / 256, n - 1) + [v % 256];
      assert b[..|b| - 1] == ToBigEndian(v / 256, n - 1);
      b
  }

  function Reverse(b: seq<Byte>): (r: seq<Byte>)
    ensures |r| == |b|
  {
    if b == [] then [] else Reverse(b[1..]) + [b[0]]
  }

  /** ntohs on a little-endian host: swap the two bytes. */
  function Ntohs(x: U16): (r: U16)
  {
    (x % 0x100) * 0x100 + x / 0x100
  }

  /** ntohl on a little-endian host: reverse the four bytes. */
  function Ntohl(x: U32): (r: U32)
  {
    (x % 0x100) * 0x100_0000
    + (x / 0x100 % 0x100) * 0x1_0000
    + (x / 0x1_0000 % 0x100) * 0x100
    + x / 0x100_0000
  }

  /** `big_to_little_endian` for 2-byte values (main.cpp:33). */
  function BigToHost16(x: U16): (r: U16)
  {
    Ntohs(x)
  }

  /** `big_to_little_endian` for 4-byte values (main.cpp:34). */
  function BigToHost32(x: U32): (r: U32)
  {
    Ntohl(x)
  }

  /** `big_to_little_endian` for 8-byte values (main.cpp:35): the low half,
      swapped, becomes the high half and the high half, swapped, the low half.
      The two parts occupy disjoint bits, so the bitwise or is a sum. */
  function BigToHost64(x: U64): (r: U64)
  {
    Ntohl(x % 0x1_0000_0000) * 0x1_0000_0000 + Ntohl(x / 0x1_0000_0000)
  }

  /** The algebra of one step of BigEndianConcat. */
  lemma BigEndianStep(x: int, p: int, y: int, last: int)
    ensures (x * p + y) * 256 + last == x * (p * 256) + (y * 256 + last)
  {
    assert (x * p + y) * 256 == (x * p) * 256 + y * 256;
    assert (x * p) * 256 == x * (p * 256);
  }

  /** The algebra of one step of LittleEndianConcat. */
  lemma LittleEndianStep(h: int, x: int, p: int, y: int)
    ensures h + 256 * (x + p * y) == (h + 256 * x) + (256 * p) * y
  {
    assert 256 * (x + p * y) == 256 * x + 256 * (p * y);
    assert 256 * (p * y) == (256 * p) * y;
  }

  /** Splitting a big-endian sequence: the leading part is the high digits. */
  lemma {:induction false} BigEndianConcat(a: seq<Byte>, c: seq<Byte>)
    ensures BigEndian(a + c) == BigEndian(a) * Pow256(|c|) + BigEndian(c)
    decreases |c|
  {
    if c == [] {
      assert a + c == a;
    } else {
      var c' := c[..|c| - 1];
      var last := c[|c| - 1];
      assert (a + c)[..|a + c| - 1] == a + c';
      assert (a + c)[|a + c| - 1] == last;
      BigEndianConcat(a, c');
      var x, p, y := BigEndian(a), Pow256(|c'|), BigEndian(c');
      assert BigEndian(a + c) == (x * p + y) * 256 + last;
      assert BigEndian(c) == y * 256 + last;
      assert Pow256(|c|) == p * 256;
      BigEndianStep(x, p, y, last);
    }
  }

  /** Splitting a little-endian sequence: the leading part is the low digits. */
  lemma {:induction false} LittleEndianConcat(a: seq<Byte>, c: seq<Byte>)
    ensures LittleEndian(a + c) == LittleEndian(a) + Pow256(|a|) * LittleEndian(c)
    decreases |a|
  {
    if a == [] {
      assert a + c == c;
    } else {
      var t := a[1..];
      assert (a + c)[1..] == t + c;
      assert (a + c)[0] == a[0];
      var x, p, y := LittleEndian(t), Pow256(|t|), LittleEndian(c);
      var w := LittleEndian(t + c);
      assert LittleEndian(a + c) == a[0] + 256 * w;
      LittleEndianConcat(t, c);
      assert w == x + p * y;
      assert LittleEndian(a) == a[0] + 256 * x;
      assert Pow256(|a|) == 256 * p;
      LittleEndianStep(a[0], x, p, y);
    }
  }

  /** Reading the reversed bytes least significant first is reading the
      original bytes most significant first. */
  lemma {:induction false} LittleEndianOfReverse(b: seq<Byte>)
    ensures LittleEndian(Reverse(b)) == BigEndian(b)
    decreases |b|
  {
    if b != [] {
      var t, h := b[1..], b[0];
      var p, y := Pow256(|t|), BigEndian(t);
      assert LittleEndian([h]) == h by {
        assert [h][1..] == [];
      }
      assert BigEndian([h]) == h by {
        assert [h][..0] == [];
      }
      assert LittleEndian(Reverse(b)) == y + p * h by {
        assert Reverse(b) == Reverse(t) + [h];
        LittleEndianOfReverse(t);
        LittleEndianConcat(Reverse(t), [h]);
      }
      assert BigEndian(b) == h * p + y by {
        assert [h] + t == b;
        BigEndianConcat([h], t);
      }
    }
  }

  /** Decoding the big-endian encoding of a byte sequence gives it back. */
  lemma {:induction false} ToBigEndianOfBigEndian(b: seq<Byte>)
    ensures ToBigEndian(BigEndian(b), |b|) == b
    decreases |b|
  {
    if b != [] {
      var p := b[..|b| - 1];
      var v := BigEndian(b);
      assert v / 256 == BigEndian(p) && v % 256 == b[|b| - 1];
      ToBigEndianOfBigEndian(p);
      assert p + [b[|b| - 1]] == b;
    }
  }

  lemma LittleEndian4(b: seq<Byte>)
    requires |b| == 4
    ensures LittleEndian(b) == b[0] as int + 0x100 * b[1] as int + 0x1_0000 * b[2] as int + 0x100_0000 * b[3] as int
  {
    assert b[1..][1..] == b[2..];
    assert b[2..][1..] == b[3..];
    assert b[3..][1..] == [];
    assert LittleEndian(b[3..]) == b[3] as int;
    assert LittleEndian(b[2..]) == b[2] as int + 0x100 * b[3] as int;
    assert LittleEndian(b[1..]) == b[1] as int + 0x100 * b[2] as int + 0x1_0000 * b[3] as int;
  }

  lemma BigEndian4(b: seq<Byte>)
    requires |b| == 4
    ensures BigEndian(b) == 0x100_0000 * b[0] as int + 0x1_0000 * b[1] as int + 0x100 * b[2] as int + b[3] as int
  {
    assert b[..3][..2] == b[..2];
    assert b[..2][..1] == b[..1];
    assert b[..1][..0] == [];
    assert BigEndian(b[..1]) == b[0] as int;
    assert BigEndian(b[..2]) == 0x100 * b[0] as int + b[1] as int;
    assert BigEndian(b[..3]) == 0x1_0000 * b[0] as int + 0x100 * b[1] as int + b[2] as int;
  }

  /** The 2-byte conversion applied to a load yields the wire value. */
  lemma BigToHost16OfLoad(b: seq<Byte>)
    requires |b| == 2
    ensures BigToHost16(Load16(b)) == BigEndian(b)
  {
    assert b[1..][1..] == [];
    assert b[..1][..0] == [];
    assert LittleEndian(b[1..]) == b[1] as int;
    var x := LittleEndian(b);
    assert x == b[0] as int + 0x100 * b[1] as int;
    assert x % 0x100 == b[0] && x / 0x100 == b[1];
  }

  /** ntohl reverses the four base-256 digits of its argument. */
  lemma SwapBytes32(b0: Byte, b1: Byte, b2: Byte, b3: Byte)
    ensures b0 as int + 0x100 * b1 as int + 0x1_0000 * b2 as int + 0x100_0000 * b3 as int < 0x1_0000_0000
    ensures Ntohl(b0 as int + 0x100 * b1 as int + 0x1_0000 * b2 as int + 0x100_0000 * b3 as int)
            == 0x100_0000 * b0 as int + 0x1_0000 * b1 as int + 0x100 * b2 as int + b3 as int
  {
    var z := b2 as int + 0x100 * b3 as int;
    var y := b1 as int + 0x100 * z;
    var x := b0 as int + 0x100 * y;
    assert x % 0x100 == b0 && x / 0x100 == y;
    assert y % 0x100 == b1 && y / 0x100 == z;
    assert z % 0x100 == b2 && z / 0x100 == b3;
    assert x / 0x1_0000 == z by {
      assert x == (b0 as int + 0x100 * b1 as int) + 0x1_0000 * z;
    }
    assert x / 0x100_0000 == b3 by {
      assert x == (b0 as int + 0x100 * b1 as int + 0x1_0000 * b2 as int) + 0x100_0000 * b3 as int;
    }
  }

  /** The 4-byte conversion applied to a load yields the wire value. */
  lemma BigToHost32OfLoad(b: seq<Byte>)
    requires |b| == 4
    ensures BigToHost32(Load32(b)) == BigEndian(b)
  {
    LittleEndian4(b);
    BigEndian4(b);
    SwapBytes32(b[0], b[1], b[2], b[3]);
    assert Load32(b) == LittleEndian(b);
  }

  /** A 64-bit value split into its low and high 32-bit halves. */
  lemma Halves64(lo: int, hi: int)
    requires 0 <= lo < 0x1_0000_0000 && 0 <= hi < 0x1_0000_0000
    ensures (lo + 0x1_0000_0000 * hi) % 0x1_0000_0000 == lo
    ensures (lo + 0x1_0000_0000 * hi) / 0x1_0000_0000 == hi
  {
  }

  /** The 8-byte conversion swaps each half and exchanges the halves. */
  lemma BigToHost64OfHalves(l: U32, h: U32)
    ensures l as int + 0x1_0000_0000 * h as int < 0x1_0000_0000_0000_0000
    ensures BigToHost64(l as int + 0x1_0000_0000 * h as int) == Ntohl(l) * 0x1_0000_0000 + Ntohl(h)
  {
    Halves64(l, h);
  }

  /** The 8-byte conversion built from two swapped 4-byte conversions
      (main.cpp:35) yields the wire value of all eight bytes. */
  lemma BigToHost64OfLoad(b: seq<Byte>)
    requires |b| == 8
    ensures BigToHost64(Load64(b)) == BigEndian(b)
  {
    Pow256Widths();
    var lo, hi := b[..4], b[4..];
    assert lo + hi == b;
    LittleEndianConcat(lo, hi);
    BigEndianConcat(lo, hi);
    BigToHost32OfLoad(lo);
    BigToHost32OfLoad(hi);
    var l, h := Load32(lo), Load32(hi);
    assert Load64(b) == l as int + 0x1_0000_0000 * h as int;
    BigToHost64OfHalves(l, h);
  }

  /** The 8-byte conversion is the full 8-byte reversal, not merely a
      conversion of a narrower width. */
  lemma BigToHost64IsByteReversal(b: seq<Byte>)
    requires |b| == 8
    ensures BigToHost64(Load64(b)) == LittleEndian(Reverse(b))
  {
    BigToHost64OfLoad(b);
    LittleEndianOfReverse(b);
  }
}
