/** The fixed-width integers of the program and its narrowing casts. */
module Integers {
  import opened Bits

  const TWO64: int := 0x1_0000_0000_0000_0000
  const TWO63: int := 0x8000_0000_0000_0000

  type uint8 = x: int | 0 <= x < 0x100
  type uint16 = x: int | 0 <= x < 0x1_0000
  type uint32 = x: int | 0 <= x < 0x1_0000_0000
  type uint64 = x: int | 0 <= x < TWO64
  type int8 = x: int | -0x80 <= x < 0x80
  type int32 = x: int | -0x8000_0000 <= x < 0x8000_0000
  type int64 = x: int | -TWO63 <= x < TWO63

  // The narrowing casts: the value modulo 2 to the width of the type, which is the value
  // itself when the type can hold it.

  function U8(v: uint64): (r: uint8)
    ensures v < 0x100 ==> r == v
  {
    v % 0x100
  }

  function U16(v: uint64): (r: uint16)
    ensures v < 0x1_0000 ==> r == v
  {
    v % 0x1_0000
  }

  function U32(v: uint64): (r: uint32)
    ensures v < 0x1_0000_0000 ==> r == v
  {
    v % 0x1_0000_0000
  }

  function I8(v: int64): (r: int8)
    ensures -0x80 <= v < 0x80 ==> r == v
  {
    (v + 0x80) % 0x100 - 0x80
  }

  function I32(v: int64): (r: int32)
    ensures -0x8000_0000 <= v < 0x8000_0000 ==> r == v
  {
    (v + 0x8000_0000) % 0x1_0000_0000 - 0x8000_0000
  }

  /** `static_cast<uint64_t>` of a signed value. */
  function AsUint64(v: int64): uint64 { if v < 0 then v + TWO64 else v }

  /** `static_cast<int64_t>` of an unsigned value. */
  function AsInt64(u: uint64): int64 { if u < TWO63 then u else u - TWO64 }

  /** The powers of two the message layouts and the integer types use. */
  lemma PowersOfTwo()
    ensures Pow2(0) == 1 && Pow2(1) == 2 && Pow2(2) == 4 && Pow2(3) == 8 && Pow2(4) == 16
    ensures Pow2(5) == 32 && Pow2(6) == 64 && Pow2(7) == 128 && Pow2(8) == 256 && Pow2(9) == 512
    ensures Pow2(10) == 1024 && Pow2(12) == 4096 && Pow2(14) == 16384
    ensures Pow2(17) == 131072 && Pow2(18) == 262144 && Pow2(19) == 524288
    ensures Pow2(20) == 1048576 && Pow2(26) == 67108864 && Pow2(27) == 134217728 && Pow2(28) == 268435456
    ensures Pow2(16) == 0x1_0000 && Pow2(32) == 0x1_0000_0000
    ensures Pow2(30) == 1073741824 && Pow2(63) == TWO63 && Pow2(64) == TWO64
  {
    Four(0); Four(4); Four(8); Four(12); Four(16); Four(20); Four(24); Four(28);
    Four(32); Four(36); Four(40); Four(44); Four(48); Four(52); Four(56); Four(60);
  }

  lemma Four(n: nat)
    ensures Pow2(n + 1) == 2 * Pow2(n) && Pow2(n + 2) == 4 * Pow2(n)
    ensures Pow2(n + 3) == 8 * Pow2(n) && Pow2(n + 4) == 16 * Pow2(n)
  {
    assert Pow2(n + 4) == 2 * Pow2(n + 3);
    assert Pow2(n + 2) == 2 * Pow2(n + 1);
  }

  lemma {:induction false} Pow2Mono(a: nat, b: nat)
    requires a <= b
    ensures Pow2(a) <= Pow2(b)
    decreases b - a
  {
    if a == b {
    } else {
      Pow2Mono(a + 1, b);
      assert Pow2(a + 1) == 2 * Pow2(a);
    }
  }

  lemma Pow2Bound(w: nat)
    requires w <= 64
    ensures Pow2(w) <= TWO64
    ensures w <= 63 ==> Pow2(w) <= TWO63
    ensures w <= 32 ==> Pow2(w) <= 0x1_0000_0000
    ensures w <= 16 ==> Pow2(w) <= 0x1_0000
    ensures w <= 8 ==> Pow2(w) <= 0x100
  {
    PowersOfTwo();
    Pow2Mono(w, 64);
    if w <= 63 { Pow2Mono(w, 63); }
    if w <= 32 { Pow2Mono(w, 32); }
    if w <= 16 { Pow2Mono(w, 16); }
    if w <= 8 { Pow2Mono(w, 8); }
  }

  /** What `read_int` makes of a `w`-bit field: fill the upper bits when the top bit is set.
      The filled bits and the field do not overlap, so the OR is a sum. */
  function SignExtend(raw: uint64, w: nat): uint64
    requires 1 <= w <= 64 && raw < Pow2(w)
  {
    Pow2Bound(w);
    if w < 64 && (raw / Pow2(w - 1)) % 2 == 1 then raw + (TWO64 - Pow2(w)) else raw
  }

  /** `v` is representable in `w` bits of two's complement. */
  predicate FitsSigned(v: int, w: nat)
    requires w >= 1
  {
    var h: int := Pow2(w - 1);
    -h <= v < h
  }

  /** Sign extension picks the representative of the field in the signed range. */
  lemma SignExtendValue(raw: uint64, w: nat)
    requires 1 <= w <= 64 && raw < Pow2(w)
    ensures AsInt64(SignExtend(raw, w)) == if raw < Pow2(w - 1) then raw else raw - Pow2(w)
  {
    Pow2Bound(w);
    PowersOfTwo();
    var h := Pow2(w - 1);
    assert Pow2(w) == 2 * h;
    if raw < h {
      DivModUnique(raw, h, 0, raw);
    } else {
      DivModUnique(raw, h, 1, raw - h);
    }
  }

  /** Two numbers congruent modulo `m` with the same remainder window are equal. */
  lemma CongruentInWindow(x: int, y: int, lo: int, m: int)
    requires m > 0 && x % m == y % m
    requires lo <= x < lo + m && lo <= y < lo + m
    ensures x == y
  {
    var p, q := x / m, y / m;
    assert x == m * p + x % m && y == m * q + y % m;
    if p != q {
      ProductGap(m, p, q);
    }
  }
}
