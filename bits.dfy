/** Bit arithmetic shared by the encoder and the decoder.

    Bytes (Rust's `u8`) are 8-bit bit-vectors; lengths and the decoded payload
    size (Rust's `usize`) are mathematical naturals, with `n >> k` written as
    `Shr(n, k)` and `x << i` as `x * Pow2(i)`. */
module Bits {

  /** An unsigned 8-bit value, Rust's `u8`. */
  type Byte = bv8

  function Pow2(n: nat): (r: nat)
    ensures r >= 1
  {
    if n == 0 then 1 else 2 * Pow2(n - 1)
  }

  lemma Pow2Of32()
    ensures Pow2(32) == 0x1_0000_0000
  {
    assert Pow2(8) == 0x100;
    assert Pow2(16) == 0x1_0000;
    assert Pow2(24) == 0x100_0000;
  }

  /** `n >> k` on an unsigned integer: `n` halved `k` times. */
  function Shr(n: nat, k: nat): (r: nat)
    ensures r <= n
    ensures n < Pow2(k) ==> r == 0
  {
    if k == 0 then n else Shr(n / 2, k - 1)
  }

  /** Bit 0 of a byte, `b & 1`. */
  function Lsb(b: Byte): (r: Byte)
    ensures r == 0 || r == 1
  {
    b & 1
  }

  /** Bit `k` of a byte, `(b >> k) & 1`. */
  function ByteBit(b: Byte, k: nat): (r: Byte)
    requires k < 8
    ensures r == 0 || r == 1
  {
    (b >> k) & 1
  }

  /** Bit 0 of a byte as an unsigned integer, `(b as usize) & 1`. */
  function BitValue(b: Byte): (r: nat)
    ensures r == 0 || r == 1
    ensures r == 1 <==> Lsb(b) == 1
  {
    if Lsb(b) == 0 then 0 else 1
  }

  /** Rust's `u8` addition `a + b`, whose overflow check is the precondition. */
  function AddU8(a: Byte, b: Byte): (r: Byte)
    requires a <= 0xFF - b
    ensures a <= r && b <= r
  {
    a + b
  }

  /** Bit `k` of an unsigned integer as a byte, `((n >> k) & 1) as u8`. */
  function UintBit(n: nat, k: nat): (r: Byte)
    ensures r == 0 || r == 1
  {
    if Shr(n, k) % 2 == 0 then 0 else 1
  }

  /** The low `m` bits of `n`, least significant first. */
  function UintBits(n: nat, m: nat): (r: seq<Byte>)
    ensures |r| == m
    ensures forall k :: 0 <= k < m ==> r[k] == 0 || r[k] == 1
  {
    seq(m, k requires 0 <= k => UintBit(n, k))
  }

  /** The unsigned integer whose bit `i` is bit 0 of `s[i]`, for `i < n`:
      the sum over `i < n` of `(s[i] & 1) << i`. */
  function FromBits(s: seq<Byte>, n: nat): (r: nat)
    requires n <= |s|
    ensures r < Pow2(n)
  {
    if n == 0 then 0
    else FromBits(s, n - 1) + BitValue(s[n - 1]) * Pow2(n - 1)
  }

  /** The byte whose bit `k` is bit 0 of `s[from + k]`, for `k < n`,
      accumulated with u8 additions as the sum over `k < n` of
      `(s[from + k] & 1) << k`; no addition overflows. */
  function PackBits(s: seq<Byte>, from: nat, n: nat): (r: Byte)
    requires from + n <= |s| && n <= 8
    ensures r >> n == 0
  {
    if n == 0 then 0
    else AddU8(PackBits(s, from, n - 1), Lsb(s[from + n - 1]) << (n - 1))
  }

  /** One step of the decoder's accumulation: adding bit 0 of `s[from + k]`
      at position `k` to the packed first `k` bits does not overflow and
      packs the first `k + 1` bits. */
  lemma PackBitsStep(s: seq<Byte>, from: nat, k: nat, acc: Byte)
    requires from + k < |s| && k < 8 && acc == PackBits(s, from, k)
    ensures acc <= 0xFF - (Lsb(s[from + k]) << k)
    ensures AddU8(acc, Lsb(s[from + k]) << k) == PackBits(s, from, k + 1)
  {
    AddHighBit(acc, Lsb(s[from + k]), k, 0);
  }

  // ---------------------------------------------------------------------
  // Facts about single bytes

  /** A byte is determined by its eight bits. */
  lemma ByteFromBits(x: Byte, y: Byte)
    requires forall k :: 0 <= k < 8 ==> ByteBit(x, k) == ByteBit(y, k)
    ensures x == y
  {
    assert ByteBit(x, 0) == ByteBit(y, 0) && ByteBit(x, 1) == ByteBit(y, 1);
    assert ByteBit(x, 2) == ByteBit(y, 2) && ByteBit(x, 3) == ByteBit(y, 3);
    assert ByteBit(x, 4) == ByteBit(y, 4) && ByteBit(x, 5) == ByteBit(y, 5);
    assert ByteBit(x, 6) == ByteBit(y, 6) && ByteBit(x, 7) == ByteBit(y, 7);
  }

  /** OR-ing a bit into a byte whose bit 0 is clear makes bit 0 that bit. */
  lemma OrIntoClearLsb(b: Byte, bit: Byte)
    requires Lsb(b) == 0 && (bit == 0 || bit == 1)
    ensures Lsb(b | bit) == bit
  {
  }

  /** Adding `bit << m` to a byte below `2^m` sets exactly bit `m`. */
  lemma AddHighBit(d: Byte, bit: Byte, m: nat, k: nat)
    requires m < 8 && k < 8 && d >> m == 0 && (bit == 0 || bit == 1)
    ensures d <= 0xFF - (bit << m)
    ensures ByteBit(d + (bit << m), k) == if k == m then bit else ByteBit(d, k)
  {
  }

  // ---------------------------------------------------------------------
  // Facts about UintBits and FromBits (the 32-bit length field)

  lemma {:induction false} ShrZero(k: nat)
    ensures Shr(0, k) == 0
  {
    if k > 0 {
      ShrZero(k - 1);
    }
  }

  /** The bit list of `n` is its lowest bit followed by the bit list of `n / 2`. */
  lemma UintBitsCons(n: nat, m: nat)
    requires m > 0
    ensures UintBits(n, m) == [if n % 2 == 0 then 0 else 1] + UintBits(n / 2, m - 1)
  {
    var r, t := UintBits(n, m), [if n % 2 == 0 then 0 else 1] + UintBits(n / 2, m - 1);
    forall k | 0 <= k < m
      ensures r[k] == t[k]
    {
      if k > 0 {
        assert Shr(n, k) == Shr(n / 2, k - 1);
      }
    }
  }

  /** The value of a bit list is its first bit plus twice the value of the rest. */
  lemma {:induction false} FromBitsCons(s: seq<Byte>, n: nat)
    requires 0 < n <= |s|
    ensures FromBits(s, n) == BitValue(s[0]) + 2 * FromBits(s[1..], n - 1)
  {
    if n > 1 {
      FromBitsCons(s, n - 1);
      assert s[1..][n - 2] == s[n - 1];
      var rest, top, half := FromBits(s[1..], n - 2), BitValue(s[n - 1]), Pow2(n - 2);
      assert FromBits(s[1..], n - 1) == rest + top * half;
      assert FromBits(s, n) == BitValue(s[0]) + 2 * rest + top * (2 * half);
      if top == 0 {
        assert top * (2 * half) == 0 && top * half == 0;
      } else {
        assert top * (2 * half) == 2 * half && top * half == half;
      }
    }
  }

  /** Reading back the low `m` bits of `n < 2^m` gives `n`. */
  lemma {:induction false} FromUintBits(n: nat, m: nat)
    requires n < Pow2(m)
    ensures FromBits(UintBits(n, m), m) == n
  {
    if m > 0 {
      var h := n / 2;
      assert n == 2 * h + n % 2;
      assert h < Pow2(m - 1);
      var bits := UintBits(n, m);
      UintBitsCons(n, m);
      FromBitsCons(bits, m);
      assert bits[1..] == UintBits(h, m - 1);
      FromUintBits(h, m - 1);
    }
  }

  /** FromBits looks only at bit 0 of each element. */
  lemma {:induction false} FromBitsSameLsbs(s: seq<Byte>, t: seq<Byte>, n: nat)
    requires n <= |s| && n <= |t|
    requires forall k :: 0 <= k < n ==> Lsb(s[k]) == Lsb(t[k])
    ensures FromBits(s, n) == FromBits(t, n)
  {
    if n > 0 {
      FromBitsSameLsbs(s, t, n - 1);
    }
  }

  /** Bit `k` of `FromBits(s, n)` is bit 0 of `s[k]`. */
  lemma {:induction false} FromBitsBit(s: seq<Byte>, n: nat, k: nat)
    requires k < n <= |s|
    ensures Shr(FromBits(s, n), k) % 2 == BitValue(s[k])
  {
    FromBitsCons(s, n);
    if k > 0 {
      assert FromBits(s, n) / 2 == FromBits(s[1..], n - 1);
      FromBitsBit(s[1..], n - 1, k - 1);
    }
  }

  // ---------------------------------------------------------------------
  // Facts about PackBits (one payload byte)

  /** Bit `k` of `PackBits(s, from, n)` is bit 0 of `s[from + k]`. */
  lemma {:induction false} PackBitsBit(s: seq<Byte>, from: nat, n: nat, k: nat)
    requires from + n <= |s| && n <= 8 && k < n
    ensures ByteBit(PackBits(s, from, n), k) == Lsb(s[from + k])
  {
    AddHighBit(PackBits(s, from, n - 1), Lsb(s[from + n - 1]), n - 1, k);
    if k < n - 1 {
      PackBitsBit(s, from, n - 1, k);
    }
  }

  /** Packing the eight bits of a byte, LSB first, gives the byte back. */
  lemma PackByteBits(b: Byte, s: seq<Byte>, from: nat)
    requires from + 8 <= |s|
    requires forall k :: 0 <= k < 8 ==> Lsb(s[from + k]) == ByteBit(b, k)
    ensures PackBits(s, from, 8) == b
  {
    forall k | 0 <= k < 8
      ensures ByteBit(PackBits(s, from, 8), k) == ByteBit(b, k)
    {
      PackBitsBit(s, from, 8, k);
    }
    ByteFromBits(PackBits(s, from, 8), b);
  }
}
