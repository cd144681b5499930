/** Wire bytes and the big-endian integers that every frame field is made of. */
module Bytes {

  newtype byte = x: int | 0 <= x < 256
  type bytes = seq<byte>

  type u8 = x: int | 0 <= x < 0x100
  type u16 = x: int | 0 <= x < 0x1_0000
  type u32 = x: int | 0 <= x < 0x1_0000_0000
  type u64 = x: int | 0 <= x < 0x1_0000_0000_0000_0000

  const SIZE_MAX: u64 := 0xFFFF_FFFF_FFFF_FFFF

  /** 256 to the power n: the number of values an n-byte integer can hold. */
  function Radix(n: nat): (r: nat)
    ensures r > 0
  {
    if n == 0 then 1 else 256 * Radix(n - 1)
  }

  /** The n low-order bytes of v, most significant first. */
  function BigEndian(n: nat, v: nat): (r: bytes)
    ensures |r| == n
  {
    if n == 0 then [] else BigEndian(n - 1, v / 256) + [(v % 256) as byte]
  }

  /** The unsigned integer a byte string spells, most significant byte first. */
  function FromBigEndian(s: bytes): nat
  {
    if s == [] then 0 else 256 * FromBigEndian(s[..|s| - 1]) + s[|s| - 1] as int
  }

  lemma Radixes()
    ensures Radix(1) == 0x100
    ensures Radix(2) == 0x1_0000
    ensures Radix(4) == 0x1_0000_0000
    ensures Radix(8) == 0x1_0000_0000_0000_0000
  {
    assert Radix(2) == 256 * Radix(1);
    assert Radix(3) == 256 * Radix(2);
    assert Radix(4) == 256 * Radix(3);
    assert Radix(5) == 256 * Radix(4);
    assert Radix(6) == 256 * Radix(5);
    assert Radix(7) == 256 * Radix(6);
  }

  /** Reading back what was written gives the value, truncated to the width. */
  lemma {:induction false} ReadAfterWrite(n: nat, v: nat)
    requires v < Radix(n)
    ensures FromBigEndian(BigEndian(n, v)) == v
  {
    if n > 0 {
      assert v / 256 < Radix(n - 1);
      ReadAfterWrite(n - 1, v / 256);
      assert BigEndian(n, v)[..n - 1] == BigEndian(n - 1, v / 256);
    }
  }

  /** Writing what was read gives the bytes back, so the two codings are inverse. */
  lemma {:induction false} WriteAfterRead(s: bytes)
    ensures FromBigEndian(s) < Radix(|s|)
    ensures BigEndian(|s|, FromBigEndian(s)) == s
  {
    if s != [] {
      WriteAfterRead(s[..|s| - 1]);
      assert s == s[..|s| - 1] + [s[|s| - 1]];
    }
  }

  /** An n-byte field keeps a value modulo 256 to the n. */
  lemma {:induction false} WriteWraps(n: nat, v: nat, q: nat)
    ensures BigEndian(n, v + Radix(n) * q) == BigEndian(n, v)
  {
    if n > 0 {
      var t := Radix(n - 1) * q;
      assert Radix(n) * q == 256 * t;
      assert (v + 256 * t) / 256 == v / 256 + t && (v + 256 * t) % 256 == v % 256;
      WriteWraps(n - 1, v / 256, q);
    }
  }

  lemma DivideTwice(v: nat, a: nat)
    requires a > 0
    ensures v / (256 * a) == (v / a) / 256
  {
    var t, s := v / a, v % a;
    Recombine(v, a, t, s, t / 256, t % 256);
    DivisionIsUnique(v, 256 * a, t / 256, a * (t % 256) + s);
  }

  lemma Recombine(v: nat, a: nat, t: nat, s: nat, q: nat, r: nat)
    requires s < a && r < 256 && v == a * t + s && t == 256 * q + r
    ensures 0 <= a * r + s < 256 * a
    ensures v == (256 * a) * q + (a * r + s)
  {
    assert a * t == a * (256 * q + r) == 256 * a * q + a * r;
    Monotone(a, r, 255);
  }

  lemma Monotone(a: nat, x: nat, y: nat)
    requires x <= y
    ensures 0 <= a * x <= a * y
  {
    assert a * y == a * x + a * (y - x);
  }

  lemma DivisionIsUnique(v: nat, d: nat, q: nat, r: nat)
    requires d > 0 && r < d && v == d * q + r
    ensures v / d == q
  {
    var q', r' := v / d, v % d;
    Multiples(d, q - q');
    assert d * (q - q') == r' - r;
  }

  lemma Multiples(d: int, k: int)
    requires d > 0
    ensures k > 0 ==> d * k >= d
    ensures k < 0 ==> d * k <= -d
  {
  }

  /** Appends a value most significant byte first, shifting down eight bits at a time. */
  method AppendInteger(out: bytes, width: nat, value: nat) returns (r: bytes)
    requires value < Radix(width)
    ensures r == out + BigEndian(width, value)
  {
    r := out;
    var ix := width;
    assert value / Radix(width) == 0 by { DivisionIsUnique(value, Radix(width), 0, value); }
    while ix > 0
      invariant 0 <= ix <= width
      invariant r == out + BigEndian(width - ix, value / Radix(ix))
    {
      DivideTwice(value, Radix(ix - 1));
      r := r + [((value / Radix(ix - 1)) % 256) as byte];
      ix := ix - 1;
    }
  }

  /** Reads `width` bytes at `offset`, shifting the accumulator left by eight bits a byte. */
  method ReadInteger(data: bytes, offset: nat, width: nat) returns (wire: nat)
    requires offset + width <= |data|
    ensures wire == FromBigEndian(data[offset..offset + width])
    ensures wire < Radix(width)
  {
    wire := 0;
    for ix := 0 to width
      invariant wire == FromBigEndian(data[offset..offset + ix])
    {
      var grown := data[offset..offset + ix + 1];
      assert grown[..ix] == data[offset..offset + ix];
      wire := wire * 256 + data[offset + ix] as int;
    }
    WriteAfterRead(data[offset..offset + width]);
  }
}
