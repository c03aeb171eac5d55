/** Fixed-width machine integers on top of Dafny's unbounded `int`: the Rust and C
    integer types the model needs, the casts between them (which truncate or
    reinterpret), shifts, the bitwise operators, and the little-endian byte
    encoding used by the emulator's loads and stores. */
module Words {

  const TWO_8: int := 0x100
  const TWO_16: int := 0x1_0000
  const TWO_31: int := 0x8000_0000
  const TWO_32: int := 0x1_0000_0000
  const TWO_63: int := 0x8000_0000_0000_0000
  const TWO_64: int := 0x1_0000_0000_0000_0000

  type u8 = x: int | 0 <= x < 0x100
  type u16 = x: int | 0 <= x < 0x1_0000
  type u32 = x: int | 0 <= x < 0x1_0000_0000
  type u64 = x: int | 0 <= x < 0x1_0000_0000_0000_0000
  type i32 = x: int | -0x8000_0000 <= x < 0x8000_0000
  type i64 = x: int | -0x8000_0000_0000_0000 <= x < 0x8000_0000_0000_0000

  /** `x as u64`, and the result of wrapping u64 arithmetic: the low 64 bits of x. */
  function AsU64(x: int): (r: u64)
    ensures (r - x) % TWO_64 == 0
    ensures 0 <= x < TWO_64 ==> r == x
  {
    x % TWO_64
  }

  /** `x as u32`: the low 32 bits of x. */
  function AsU32(x: int): (r: u32)
    ensures (r - x) % TWO_32 == 0
    ensures 0 <= x < TWO_32 ==> r == x
  {
    x % TWO_32
  }

  /** `x as u8`, `(uint8_t)x`, `(unsigned char)x`: the low 8 bits of x. */
  function AsU8(x: int): (r: u8)
    ensures (r - x) % TWO_8 == 0
    ensures 0 <= x < TWO_8 ==> r == x
  {
    x % TWO_8
  }

  /** `x as i64` of a u64: the same 64 bits read as two's complement. */
  function AsI64(x: u64): (r: i64)
    ensures AsU64(r) == x
    ensures r < 0 <==> x >= TWO_63
  {
    if x < TWO_63 then x else x - TWO_64
  }

  /** `x as i32` of any wider integer: the low 32 bits read as two's complement. */
  function AsI32(x: int): (r: i32)
    ensures (r - x) % TWO_32 == 0
    ensures r < 0 <==> AsU32(x) >= TWO_31
  {
    var t := x % TWO_32;
    if t < TWO_31 then t else t - TWO_32
  }

  function Pow2(k: nat): (r: nat)
    ensures r >= 1
  {
    if k == 0 then 1 else 2 * Pow2(k - 1)
  }

  function Pow256(k: nat): (r: nat)
    ensures r >= 1
  {
    if k == 0 then 1 else 256 * Pow256(k - 1)
  }

  /** u64 `x << k` for k < 64: the bits shifted past bit 63 are lost. */
  function Shl64(x: u64, k: nat): u64
  {
    (x * Pow2(k)) % TWO_64
  }

  /** u32 `x << k` for k < 32. */
  function Shl32(x: u32, k: nat): u32
  {
    (x * Pow2(k)) % TWO_32
  }

  /** Logical `x >> k` on an unsigned value. */
  function Shr(x: nat, k: nat): (r: nat)
    ensures r <= x
  {
    DivBounds(x, Pow2(k));
    x / Pow2(k)
  }

  /** Arithmetic `x >> k` on a signed value: Dafny's division by a positive
      divisor rounds toward negative infinity, as the shift does. */
  function Sar(x: int, k: nat): int
  {
    x / Pow2(k)
  }

  function And64(a: u64, b: u64): u64
  {
    ((a as bv64) & (b as bv64)) as int
  }

  function Or64(a: u64, b: u64): u64
  {
    ((a as bv64) | (b as bv64)) as int
  }

  function Xor64(a: u64, b: u64): u64
  {
    ((a as bv64) ^ (b as bv64)) as int
  }

  // ---------------------------------------------------------------------
  // Division facts used by the byte-level proofs

  lemma DivModUnique(x: int, d: int, q: int, r: int)
    requires d > 0 && 0 <= r < d && x == q * d + r
    ensures x / d == q && x % d == r
  {
    var q0, r0 := x / d, x % d;
    var k := q0 - q;
    assert k * d == r - r0 by {
      assert q0 * d + r0 == q * d + r;
      assert q0 * d - q * d == (q0 - q) * d;
    }
    if k > 0 {
      MulAtLeast(k, d);
      assert false;
    } else if k < 0 {
      MulAtLeast(-k, d);
      assert false;
    }
  }

  /** For x below 2p, the bit of weight p is set exactly when x >= p. */
  lemma TopBit(x: nat, p: nat)
    requires 0 < p && x < 2 * p
    ensures (x / p) % 2 == 1 <==> x >= p
  {
    if x >= p {
      DivModUnique(x, p, 1, x - p);
    } else {
      DivModUnique(x, p, 0, x);
    }
  }

  lemma DivBounds(x: nat, d: nat)
    requires d > 0
    ensures 0 <= x / d <= x
  {
    var q, r := x / d, x % d;
    assert x == q * d + r;
    if q < 0 {
      MulAtLeast(-q, d);
      assert false;
    } else if q > 0 {
      MulAtLeast(d, q);
    }
  }

  lemma MulAtLeast(k: int, d: int)
    requires k >= 1 && d > 0
    ensures k * d >= d
  {
    assert k * d == (k - 1) * d + d;
    assert (k - 1) * d >= 0;
  }

  lemma DivDiv(x: nat, a: nat, b: nat)
    requires a > 0 && b > 0
    ensures x / (a * b) == (x / a) / b
    ensures x % (a * b) == x % a + a * ((x / a) % b)
  {
    var q, r := x / a, x % a;
    var q2, r2 := q / b, q % b;
    assert x == a * q + r;
    assert q == b * q2 + r2;
    assert x == (a * b) * q2 + (a * r2 + r) by {
      assert a * q == a * (b * q2) + a * r2;
      assert a * (b * q2) == (a * b) * q2;
    }
    assert a * r2 <= a * (b - 1);
    assert a * (b - 1) == a * b - a;
    DivModUnique(x, a * b, q2, a * r2 + r);
  }

  // ---------------------------------------------------------------------
  // Little-endian byte encoding (src/emulator.rs:172-174, 183-185)

  /** The value of bytes read least significant first: sum of bytes[i] << 8i. */
  function LittleEndian(bs: seq<u8>): (r: nat)
    ensures r < Pow256(|bs|)
  {
    if bs == [] then 0 else bs[0] + 256 * LittleEndian(bs[1..])
  }

  /** `(v >> (8 * i)) as u8`: byte i of v. */
  function ByteAt(v: nat, i: nat): u8
  {
    (v / Pow256(i)) % 256
  }

  /** The w bytes `store` writes for v, least significant first. */
  function ToBytes(v: nat, w: nat): (r: seq<u8>)
    ensures |r| == w
  {
    seq(w, i requires 0 <= i < w => ByteAt(v, i))
  }

  lemma ByteAtShift(v: nat, i: nat)
    ensures ByteAt(v, i + 1) == ByteAt(v / 256, i)
  {
    DivDiv(v, 256, Pow256(i));
  }

  lemma {:induction false} ToBytesCons(v: nat, w: nat)
    requires w > 0
    ensures ToBytes(v, w) == [v % 256] + ToBytes(v / 256, w - 1)
  {
    var a, b := ToBytes(v, w), [v % 256] + ToBytes(v / 256, w - 1);
    forall i | 0 <= i < w
      ensures a[i] == b[i]
    {
      if i > 0 {
        ByteAtShift(v, i - 1);
      }
    }
  }

  /** Storing w bytes of v and reading them back yields v modulo 2^(8w). */
  lemma {:induction false} LittleEndianToBytes(v: nat, w: nat)
    ensures LittleEndian(ToBytes(v, w)) == v % Pow256(w)
  {
    if w == 0 {
    } else {
      ToBytesCons(v, w);
      LittleEndianToBytes(v / 256, w - 1);
      assert ToBytes(v, w)[1..] == ToBytes(v / 256, w - 1);
      DivDiv(v, 256, Pow256(w - 1));
    }
  }

  /** Reading bytes and storing the value back reproduces the bytes. */
  lemma {:induction false} ToBytesLittleEndian(bs: seq<u8>)
    ensures ToBytes(LittleEndian(bs), |bs|) == bs
  {
    if bs != [] {
      var v := LittleEndian(bs);
      DivModUnique(v, 256, LittleEndian(bs[1..]), bs[0]);
      ToBytesCons(v, |bs|);
      ToBytesLittleEndian(bs[1..]);
    }
  }

  /** The step of the load loop: byte i adds bs[i] << 8i to the prefix before it. */
  lemma LittleEndianPrefix(bs: seq<u8>, i: nat)
    requires i < |bs|
    ensures LittleEndian(bs[..i + 1]) == LittleEndian(bs[..i]) + bs[i] * Pow256(i)
  {
    LittleEndianSnoc(bs[..i], bs[i]);
    assert bs[..i + 1] == bs[..i] + [bs[i]];
  }

  /** One more byte at the top adds byte << 8|s|. */
  lemma {:induction false} LittleEndianSnoc(s: seq<u8>, b: u8)
    ensures LittleEndian(s + [b]) == LittleEndian(s) + b * Pow256(|s|)
  {
    if s == [] {
      assert s + [b] == [b];
      assert [b][1..] == [];
    } else {
      assert (s + [b])[1..] == s[1..] + [b];
      LittleEndianSnoc(s[1..], b);
      assert 256 * (b * Pow256(|s| - 1)) == b * Pow256(|s|);
    }
  }
}
