/** Bit strings, their integer values, and their packing into bytes, most significant bit first. */
module Bits {

  type BitString = seq<bool>

  function Pow2(n: nat): (p: nat)
    ensures p >= 1
  {
    if n == 0 then 1 else 2 * Pow2(n - 1)
  }

  lemma {:induction false} Pow2Add(a: nat, b: nat)
    ensures Pow2(a + b) == Pow2(a) * Pow2(b)
  {
    if b == 0 {
    } else {
      Pow2Add(a, b - 1);
      assert Pow2(a + b) == 2 * Pow2(a + (b - 1));
    }
  }

  function Zeros(n: nat): (z: BitString)
    ensures |z| == n && forall i :: 0 <= i < n ==> !z[i]
  {
    seq(n, _ => false)
  }

  lemma ConcatAssoc<T>(a: seq<T>, b: seq<T>, c: seq<T>)
    ensures (a + b) + c == a + (b + c)
  {
  }

  lemma SliceOfSlice<T>(s: seq<T>, o: nat, n: nat, i: nat, j: nat)
    requires i <= j <= n && o + n <= |s|
    ensures s[o..o + n][i..j] == s[o + i..o + j]
  {
    var t := s[o..o + n];
    assert |t[i..j]| == |s[o + i..o + j]|;
    forall k | 0 <= k < j - i
      ensures t[i..j][k] == s[o + i..o + j][k]
    {
      assert t[i..j][k] == t[i + k];
    }
  }

  function Bit(on: bool): nat { if on then 1 else 0 }

  // ------------------------------------------------------------------
  // Integers
  // ------------------------------------------------------------------

  /** The `w` low-order bits of `v`, most significant first. */
  function UintBits(v: nat, w: nat): (b: BitString)
    ensures |b| == w
  {
    if w == 0 then [] else UintBits(v / 2, w - 1) + [v % 2 == 1]
  }

  /** The value of a bit string read as an unsigned number. */
  function Value(b: BitString): (v: nat)
    ensures v < Pow2(|b|)
  {
    if |b| == 0 then 0 else 2 * Value(b[..|b| - 1]) + Bit(b[|b| - 1])
  }

  lemma ValueEmpty()
    ensures Value([]) == 0
  {
  }

  /** Reading one more bit doubles the value and adds the bit. */
  lemma ValueStep(b: BitString, o: nat, i: nat)
    requires o + i < |b|
    ensures Value(b[o..o + i + 1]) == 2 * Value(b[o..o + i]) + Bit(b[o + i])
  {
    var c := b[o..o + i + 1];
    assert c[..i] == b[o..o + i];
  }

  lemma {:induction false} ModHalf(v: nat, w: nat)
    requires w > 0
    ensures v % Pow2(w) == 2 * ((v / 2) % Pow2(w - 1)) + v % 2
  {
    var p := Pow2(w - 1);
    var q, r := (v / 2) / p, (v / 2) % p;
    assert v == (2 * p) * q + (2 * r + v % 2);
    DivModUnique(v, 2 * p, q, 2 * r + v % 2);
  }

  lemma DivModUnique(v: int, d: int, q: int, r: int)
    requires d > 0 && v == d * q + r && 0 <= r < d
    ensures v / d == q && v % d == r
  {
    var q', r' := v / d, v % d;
    assert d * q' + r' == d * q + r;
    if q != q' {
      ProductGap(d, q, q');
    }
  }

  lemma ProductGap(d: int, x: int, y: int)
    requires d > 0 && x != y
    ensures d * x - d * y >= d || d * y - d * x >= d
  {
    var k := if x > y then x - y else y - x;
    MulAtLeast(d, k);
    if x > y {
      assert d * x == d * y + d * k;
    } else {
      assert d * y == d * x + d * k;
    }
  }

  lemma {:induction false} MulAtLeast(d: int, k: int)
    requires d > 0 && k >= 1
    ensures d * k >= d
    decreases k
  {
    if k == 1 {
    } else {
      MulAtLeast(d, k - 1);
      assert d * k == d * (k - 1) + d;
    }
  }

  /** Writing a number in `w` bits and reading it back gives the number modulo 2^w. */
  lemma {:induction false} ValueOfUintBits(v: nat, w: nat)
    ensures Value(UintBits(v, w)) == v % Pow2(w)
  {
    if w == 0 {
    } else {
      ValueOfUintBits(v / 2, w - 1);
      var front := UintBits(v / 2, w - 1);
      assert (front + [v % 2 == 1])[..w - 1] == front;
      assert Value(UintBits(v, w)) == 2 * Value(front) + v % 2;
      ModHalf(v, w);
    }
  }

  /** Every bit string is the expansion of its value. */
  lemma {:induction false} UintBitsOfValue(b: BitString)
    ensures UintBits(Value(b), |b|) == b
  {
    if |b| == 0 {
    } else {
      UintBitsOfValue(b[..|b| - 1]);
      assert Value(b) / 2 == Value(b[..|b| - 1]);
    }
  }

  /** Only the low-order `w` bits of a number are written. */
  lemma UintBitsMod(v: nat, w: nat)
    ensures UintBits(v % Pow2(w), w) == UintBits(v, w)
  {
    ValueOfUintBits(v, w);
    UintBitsOfValue(UintBits(v, w));
  }

  /** Bit `i` from the left is the bit that a right shift by `w - 1 - i` brings to the end. */
  lemma {:induction false} UintBitAt(v: nat, w: nat, i: nat)
    requires i < w
    ensures UintBits(v, w)[i] == ((v / Pow2(w - 1 - i)) % 2 == 1)
  {
    if i == w - 1 {
      assert Pow2(0) == 1;
    } else {
      UintBitAt(v / 2, w - 1, i);
      var p := Pow2(w - 2 - i);
      assert Pow2(w - 1 - i) == 2 * p;
      DivTwice(v, p);
    }
  }

  lemma DivTwice(v: nat, p: nat)
    requires p >= 1
    ensures (v / 2) / p == v / (2 * p)
  {
    var q, r := (v / 2) / p, (v / 2) % p;
    assert v == (2 * p) * q + (2 * r + v % 2);
    DivModUnique(v, 2 * p, q, 2 * r + v % 2);
  }

  // ------------------------------------------------------------------
  // Bytes
  // ------------------------------------------------------------------

  /** The byte `1 << pos`. */
  function Mask(pos: nat): (m: bv8)
    requires pos < 8
  {
    if pos == 0 then 0x01 else if pos == 1 then 0x02 else if pos == 2 then 0x04
    else if pos == 3 then 0x08 else if pos == 4 then 0x10 else if pos == 5 then 0x20
    else if pos == 6 then 0x40 else 0x80
  }

  /** `(b >> pos) & 1` */
  predicate ByteBit(b: bv8, pos: nat)
    requires pos < 8
  {
    b & Mask(pos) != 0
  }

  /** `b | (bit << pos)` */
  function OrBit(b: bv8, pos: nat, bit: bool): bv8
    requires pos < 8
  {
    if bit then b | Mask(pos) else b
  }

  /** Bit `i` of a byte buffer, counted from the most significant bit of byte 0. */
  predicate BufferBit(buf: seq<bv8>, i: nat)
    requires i < 8 * |buf|
  {
    ByteBit(buf[i / 8], 7 - i % 8)
  }

  /** All the bits of a byte buffer. */
  function Unpack(buf: seq<bv8>): (b: BitString)
    ensures |b| == 8 * |buf|
  {
    seq(8 * |buf|, i requires 0 <= i < 8 * |buf| => BufferBit(buf, i))
  }

  /** Number of bytes that hold `n` bits. */
  function ByteCount(n: nat): nat { (n + 7) / 8 }

  predicate BitOr0(b: BitString, i: nat) { i < |b| && b[i] }

  /** The byte at bit offset `o`; bits beyond the end of the string are zero. */
  function ByteAt(b: BitString, o: nat): bv8 {
    (if BitOr0(b, o) then 0x80 else 0) | (if BitOr0(b, o + 1) then 0x40 else 0) |
    (if BitOr0(b, o + 2) then 0x20 else 0) | (if BitOr0(b, o + 3) then 0x10 else 0) |
    (if BitOr0(b, o + 4) then 0x08 else 0) | (if BitOr0(b, o + 5) then 0x04 else 0) |
    (if BitOr0(b, o + 6) then 0x02 else 0) | (if BitOr0(b, o + 7) then 0x01 else 0)
  }

  /** A bit string in a zero-initialised buffer of `n` bytes. */
  function PackIn(b: BitString, n: nat): (buf: seq<bv8>)
    ensures |buf| == n
  {
    seq(n, j requires 0 <= j < n => ByteAt(b, 8 * j))
  }

  /** A bit string in as few bytes as hold it. */
  function Pack(b: BitString): (buf: seq<bv8>)
    ensures |buf| == ByteCount(|b|)
  {
    PackIn(b, ByteCount(|b|))
  }

  lemma ByteAtBits(b: BitString, o: nat, i: nat)
    requires i < 8
    ensures ByteBit(ByteAt(b, o), 7 - i) == BitOr0(b, o + i)
  {
    if i == 0 {} else if i == 1 {} else if i == 2 {} else if i == 3 {}
    else if i == 4 {} else if i == 5 {} else if i == 6 {} else {}
  }

  /** Packing keeps the bits and pads them with zeros. */
  lemma UnpackPackIn(b: BitString, n: nat)
    requires |b| <= 8 * n
    ensures Unpack(PackIn(b, n)) == b + Zeros(8 * n - |b|)
  {
    forall i | 0 <= i < 8 * n
      ensures Unpack(PackIn(b, n))[i] == (b + Zeros(8 * n - |b|))[i]
    {
      ByteAtBits(b, 8 * (i / 8), i % 8);
    }
  }

  lemma UnpackPack(b: BitString)
    ensures Unpack(Pack(b)) == b + Zeros(8 * ByteCount(|b|) - |b|)
  {
    UnpackPackIn(b, ByteCount(|b|));
  }

  /** A byte is the sum of the powers of two of its bits. */
  lemma ByteSum(x: bv8)
    ensures x as int == 128 * Bit(ByteBit(x, 7)) + 64 * Bit(ByteBit(x, 6)) + 32 * Bit(ByteBit(x, 5))
                        + 16 * Bit(ByteBit(x, 4)) + 8 * Bit(ByteBit(x, 3)) + 4 * Bit(ByteBit(x, 2))
                        + 2 * Bit(ByteBit(x, 1)) + Bit(ByteBit(x, 0))
  {
  }

  lemma HalfByte(x: bv8)
    ensures (x >> 1) as int == x as int / 2
    ensures x & 0x01 != 0 <==> x as int % 2 == 1
  {
  }

  /** Bit `pos` of a byte is its binary digit of value 2^pos. */
  lemma {:induction false} ByteBitValue(x: bv8, pos: nat)
    requires pos < 8
    ensures ByteBit(x, pos) <==> (x as int / Pow2(pos)) % 2 == 1
  {
    HalfByte(x);
    if pos == 0 {
      assert Pow2(0) == 1;
    } else {
      ByteBitValue(x >> 1, pos - 1);
      ShiftedBit(x, pos);
      assert Pow2(pos) == 2 * Pow2(pos - 1);
      DivTwice(x as int, Pow2(pos - 1));
    }
  }

  lemma ShiftedBit(x: bv8, pos: nat)
    requires 1 <= pos < 8
    ensures ByteBit(x >> 1, pos - 1) == ByteBit(x, pos)
  {
    if pos == 1 {} else if pos == 2 {} else if pos == 3 {} else if pos == 4 {}
    else if pos == 5 {} else if pos == 6 {} else {}
  }

  /** The bits of a buffer are the binary digits of its bytes in order, the most significant
      digit of each byte first. */
  lemma UnpackBytes(buf: seq<bv8>, x: bv8)
    ensures Unpack([]) == []
    ensures Unpack(buf + [x]) == Unpack(buf) + UintBits(x as int, 8)
  {
    hide ByteBit, UintBits, Pow2;
    var b, n, low := Unpack(buf + [x]), 8 * |buf|, UintBits(x as int, 8);
    forall i | n <= i < n + 8
      ensures b[i] == low[i - n]
    {
      UintBitAt(x as int, 8, i - n);
      ByteBitValue(x, 7 - (i - n));
      assert b[i] == ByteBit(x, 7 - (i - n));
    }
    assert b[..n] == Unpack(buf);
  }

  /** A byte keeps the numbers below 256. */
  lemma ByteOfNumber(v: nat)
    requires v < 256
    ensures (v as bv8) as int == v
  {
    var bits := UintBits(v, 8);
    var y := ByteAt(bits, 0);
    UnpackPackIn(bits, 1);
    UnpackBytes([], y);
    assert PackIn(bits, 1) == [] + [y];
    hide Unpack, UintBits, ByteAt;
    assert bits + Zeros(0) == bits;
    SameDigits(v, y as int);
    assert (y as int) as bv8 == y;
  }

  lemma SameDigits(v: nat, n: nat)
    requires v < 256 && n < 256 && UintBits(v, 8) == UintBits(n, 8)
    ensures v == n
  {
    var p := Pow2(8);
    assert p == 256 by { assert Pow2(4) == 16; }
    hide UintBits, Value, Pow2;
    ValueOfUintBits(v, 8);
    ValueOfUintBits(n, 8);
    DivModUnique(v, p, 0, v);
    DivModUnique(n, p, 0, n);
  }

  lemma BytesEqual(x: bv8, y: bv8)
    requires forall i :: 0 <= i < 8 ==> ByteBit(x, i) == ByteBit(y, i)
    ensures x == y
  {
    assert ByteBit(x, 0) == ByteBit(y, 0) && ByteBit(x, 1) == ByteBit(y, 1);
    assert ByteBit(x, 2) == ByteBit(y, 2) && ByteBit(x, 3) == ByteBit(y, 3);
    assert ByteBit(x, 4) == ByteBit(y, 4) && ByteBit(x, 5) == ByteBit(y, 5);
    assert ByteBit(x, 6) == ByteBit(y, 6) && ByteBit(x, 7) == ByteBit(y, 7);
  }

  /** Buffers with the same bits are the same buffer. */
  lemma UnpackInjective(x: seq<bv8>, y: seq<bv8>)
    requires Unpack(x) == Unpack(y)
    ensures x == y
  {
    forall j | 0 <= j < |x|
      ensures x[j] == y[j]
    {
      forall i | 0 <= i < 8
        ensures ByteBit(x[j], i) == ByteBit(y[j], i)
      {
        assert Unpack(x)[8 * j + (7 - i)] == Unpack(y)[8 * j + (7 - i)];
      }
      BytesEqual(x[j], y[j]);
    }
  }

  lemma ByteAtPush(b: BitString, bit: bool, o: nat, pos: nat)
    requires pos < 8 && o + (7 - pos) == |b|
    ensures ByteAt(b + [bit], o) == OrBit(ByteAt(b, o), pos, bit)
  {
    var c := b + [bit];
    assert forall i | 0 <= i && i != |b| :: BitOr0(c, i) == BitOr0(b, i);
    if pos == 0 {} else if pos == 1 {} else if pos == 2 {} else if pos == 3 {}
    else if pos == 4 {} else if pos == 5 {} else if pos == 6 {} else {}
  }

  /** Appending a bit to a packed string is one OR into a zero-padded buffer. */
  lemma PackInPush(b: BitString, bit: bool, n: nat)
    requires |b| < 8 * n
    ensures var j := |b| / 8;
            PackIn(b + [bit], n) == PackIn(b, n)[j := OrBit(PackIn(b, n)[j], 7 - |b| % 8, bit)]
  {
    var j := |b| / 8;
    var c := b + [bit];
    ByteAtPush(b, bit, 8 * j, 7 - |b| % 8);
    forall k | 0 <= k < n && k != j
      ensures ByteAt(c, 8 * k) == ByteAt(b, 8 * k)
    {
      assert forall i | 8 * k <= i < 8 * k + 8 :: BitOr0(c, i) == BitOr0(b, i);
    }
  }

  /** A zero byte appended to a packed string holds no bit of it. */
  lemma PackInGrow(b: BitString, n: nat)
    requires |b| <= 8 * n
    ensures PackIn(b, n + 1) == PackIn(b, n) + [0]
  {
    assert ByteAt(b, 8 * n) == 0;
  }

  lemma PackInEmpty(n: nat)
    ensures PackIn([], n) == seq(n, _ => 0)
  {
  }

  /** `out[i / 8] |= bit << (7 - i % 8)`, on a buffer that holds the first `i` bits and zeros. */
  method OrBitAt(out: array<bv8>, i: nat, bit: bool, ghost b: BitString)
    requires i == |b| < 8 * out.Length
    requires out[..] == PackIn(b, out.Length)
    modifies out
    ensures out[..] == PackIn(b + [bit], out.Length)
  {
    PackInPush(b, bit, out.Length);
    ghost var before := out[..];
    out[i / 8] := OrBit(out[i / 8], 7 - i % 8, bit);
    assert out[..] == before[i / 8 := OrBit(before[i / 8], 7 - i % 8, bit)];
  }
}
