/**
 * The byte-level building blocks the peer code takes from Python's `struct`
 * module (`'!L'` and `'<n>s'` codes) and from `bitarray` (a big-endian bit
 * array filled with `frombytes`).
 */
module Bytes {
  /** One element of a Python `bytes` value. */
  type byte = x: int | 0 <= x < 256

  function Zeros(n: nat): (r: seq<byte>)
    ensures |r| == n
    ensures forall i :: 0 <= i < n ==> r[i] == 0
  {
    seq(n, _ => 0)
  }

  /**
   * What `struct.pack` writes for an `<n>s` field: exactly n bytes, the
   * argument cut to n bytes or followed by zero bytes up to n.
   */
  function PackFixed(s: seq<byte>, n: nat): (r: seq<byte>)
    ensures |r| == n
    ensures forall i :: 0 <= i < n ==> r[i] == if i < |s| then s[i] else 0
  {
    if |s| >= n then s[..n] else s + Zeros(n - |s|)
  }

  /** A field that already has the declared width is written unchanged. */
  lemma PackFixedExact(s: seq<byte>, n: nat)
    requires |s| == n
    ensures PackFixed(s, n) == s
  {
  }

  const U32Bound: nat := 0x1_0000_0000

  /** `struct.unpack('!L', b)[0]`: network-order (big-endian) unsigned 32-bit integer. */
  function UnpackU32(b: seq<byte>): (r: nat)
    requires |b| == 4
    ensures r < U32Bound
  {
    ((b[0] as int * 0x100 + b[1]) * 0x100 + b[2]) * 0x100 + b[3]
  }

  /** `struct.pack('!L', n)`, the inverse of UnpackU32. */
  function PackU32(n: nat): (r: seq<byte>)
    requires n < U32Bound
    ensures |r| == 4
  {
    var m1 := n / 0x100;
    var m2 := m1 / 0x100;
    [m2 / 0x100, m2 % 0x100, m1 % 0x100, n % 0x100]
  }

  lemma DivMod256(q: int, r: int)
    requires 0 <= q && 0 <= r < 0x100
    ensures (q * 0x100 + r) / 0x100 == q && (q * 0x100 + r) % 0x100 == r
  {
  }

  lemma UnpackPackU32(n: nat)
    requires n < U32Bound
    ensures UnpackU32(PackU32(n)) == n
  {
    var m1 := n / 0x100;
    var m2 := m1 / 0x100;
    assert n == m1 * 0x100 + n % 0x100;
    assert m1 == m2 * 0x100 + m1 % 0x100;
    assert m2 == m2 / 0x100 * 0x100 + m2 % 0x100;
  }

  lemma PackUnpackU32(b: seq<byte>)
    requires |b| == 4
    ensures PackU32(UnpackU32(b)) == b
  {
    var m2 := b[0] as int * 0x100 + b[1];
    var m1 := m2 * 0x100 + b[2];
    var n := m1 * 0x100 + b[3];
    DivMod256(m1, b[3]);
    DivMod256(m2, b[2]);
    DivMod256(b[0], b[1]);
  }

  /** A length prefix is zero exactly when its four bytes are zero. */
  lemma UnpackU32Zero(b: seq<byte>)
    requires |b| == 4
    ensures UnpackU32(b) == 0 <==> b == Zeros(4)
  {
  }

  lemma MulAtLeast(a: int, d: nat)
    requires a >= 1
    ensures a * d >= d
    decreases a
  {
    if a > 1 {
      MulAtLeast(a - 1, d);
      assert a * d == (a - 1) * d + d;
    }
  }

  /** Integer division is determined by quotient and remainder. */
  lemma DivUnique(x: int, d: int, q: int, r: int)
    requires d > 0 && 0 <= r < d && x == q * d + r
    ensures x / d == q && x % d == r
  {
    var q', r' := x / d, x % d;
    assert q' * d + r' == q * d + r;
    if q' > q {
      assert q' * d - q * d == (q' - q) * d;
      MulAtLeast(q' - q, d);
    } else if q' < q {
      assert q * d - q' * d == (q - q') * d;
      MulAtLeast(q - q', d);
    }
  }

  function Pow2(k: nat): (r: nat)
    ensures r > 0
  {
    if k == 0 then 1 else 2 * Pow2(k - 1)
  }

  /** Bit k of b, counting from the least significant bit (k = 0). */
  predicate BitOf(b: byte, k: nat)
  {
    b / Pow2(k) % 2 == 1
  }

  /** The eight bits of one byte in a big-endian bit array: most significant first. */
  function ByteBits(b: byte): (r: seq<bool>)
    ensures |r| == 8
    ensures forall j :: 0 <= j < 8 ==> r[j] == BitOf(b, 7 - j)
  {
    seq(8, j requires 0 <= j < 8 => BitOf(b, 7 - j))
  }

  /** The number a sequence of bits spells, read most significant bit first. */
  function FromBitsMsb(bs: seq<bool>): nat
  {
    if bs == [] then 0 else FromBitsMsb(bs[..|bs| - 1]) * 2 + (if bs[|bs| - 1] then 1 else 0)
  }

  lemma HalfPow2(b: nat, k: nat)
    ensures b / Pow2(k + 1) == b / Pow2(k) / 2
  {
    var p := Pow2(k);
    var q := b / p;
    assert b == q * p + b % p;
    assert q == q / 2 * 2 + q % 2;
    assert b == q / 2 * (2 * p) + (q % 2 * p + b % p);
    DivUnique(b, 2 * p, q / 2, q % 2 * p + b % p);
  }

  /** The first k bits of a byte spell the byte shifted right by 8 - k places. */
  lemma {:induction false} ByteBitsPrefix(b: byte, k: nat)
    requires k <= 8
    ensures FromBitsMsb(ByteBits(b)[..k]) == b / Pow2(8 - k)
  {
    if k == 0 {
      assert Pow2(8) == 256;
    } else {
      var bits := ByteBits(b);
      ByteBitsPrefix(b, k - 1);
      assert bits[..k][..k - 1] == bits[..k - 1];
      HalfPow2(b, 8 - k);
      var y := b / Pow2(8 - k);
      assert y == y / 2 * 2 + y % 2;
    }
  }

  /** The eight bits of a byte, read back most significant first, give the byte. */
  lemma ByteBitsValue(b: byte)
    ensures FromBitsMsb(ByteBits(b)) == b
  {
    ByteBitsPrefix(b, 8);
    assert ByteBits(b)[..8] == ByteBits(b);
  }

  /** `bitarray(endian='big')` after `frombytes(p)`. */
  function Bits(p: seq<byte>): (r: seq<bool>)
    ensures |r| == 8 * |p|
  {
    if p == [] then [] else ByteBits(p[0]) + Bits(p[1..])
  }

  /** Bit k of the array sits in byte k / 8, most significant bit first. */
  lemma {:induction false} BitsAt(p: seq<byte>, k: nat)
    requires k < 8 * |p|
    ensures Bits(p)[k] == BitOf(p[k / 8], 7 - k % 8)
  {
    if k >= 8 {
      BitsAt(p[1..], k - 8);
      assert Bits(p)[k] == Bits(p[1..])[k - 8];
      assert (k - 8) / 8 == k / 8 - 1 && (k - 8) % 8 == k % 8;
      assert p[1..][(k - 8) / 8] == p[k / 8];
    } else {
      assert Bits(p)[k] == ByteBits(p[0])[k];
    }
  }
}
