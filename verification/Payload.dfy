/** The 6-bit ASCII armour of AIS payloads. */
module Payloads {
  import opened Results
  import opened Bits
  import opened SixBitText

  // ------------------------------------------------------------------
  // The character map
  // ------------------------------------------------------------------

  predicate IsPayloadChar(ch: char) {
    48 <= ch as int <= 87 || 96 <= ch as int <= 119
  }

  /** The 6-bit value of a payload character. */
  function ArmourDecode(ch: char): (six: nat)
    requires IsPayloadChar(ch)
    ensures six < 64
  {
    var val := ch as int - 48;
    (if val > 40 then val - 8 else val) % 64
  }

  function ArmourEncode(six: nat): (ch: char)
    ensures IsPayloadChar(ch)
  {
    var result := six % 64 + 48;
    (if result >= 88 then result + 8 else result) as char
  }

  /** The character map is the order-preserving bijection between 0..63 and the payload
      characters '0'..'W' and '`'..'w'; there is only one. */
  lemma ArmourBijection()
    ensures forall ch: char {:trigger IsPayloadChar(ch)} :: IsPayloadChar(ch) <==> '0' <= ch <= 'W' || '`' <= ch <= 'w'
    ensures forall a, b {:trigger ArmourEncode(a), ArmourEncode(b)} | 0 <= a < b < 64 :: ArmourEncode(a) < ArmourEncode(b)
    ensures forall ch: char {:trigger ArmourDecode(ch)} | IsPayloadChar(ch) :: ArmourEncode(ArmourDecode(ch)) == ch
    ensures forall six: nat {:trigger ArmourEncode(six)} | six < 64 :: ArmourDecode(ArmourEncode(six)) == six
  {
  }

  predicate IsPayload(p: string) {
    forall i :: 0 <= i < |p| ==> IsPayloadChar(p[i])
  }

  // ------------------------------------------------------------------
  // Payloads as bit strings
  // ------------------------------------------------------------------

  /** Six bits for each character. */
  function PayloadBits(p: string): (b: BitString)
    requires IsPayload(p)
    ensures |b| == 6 * |p|
  {
    if p == [] then []
    else PayloadBits(p[..|p| - 1]) + UintBits(ArmourDecode(p[|p| - 1]), 6)
  }

  /** One character for each six bits. */
  function Armour(b: BitString): (p: string)
    requires |b| % 6 == 0
    ensures IsPayload(p) && |p| == |b| / 6
  {
    if b == [] then []
    else Armour(b[..|b| - 6]) + [ArmourEncode(Value(b[|b| - 6..]))]
  }

  lemma ArmourSnoc(b: BitString, six: BitString)
    requires |b| % 6 == 0 && |six| == 6
    ensures Armour(b + six) == Armour(b) + [ArmourEncode(Value(six))]
  {
    var c := b + six;
    assert c[..|c| - 6] == b && c[|c| - 6..] == six;
  }

  lemma PayloadBitsSnoc(p: string, ch: char)
    requires IsPayload(p) && IsPayloadChar(ch)
    ensures PayloadBits(p + [ch]) == PayloadBits(p) + UintBits(ArmourDecode(ch), 6)
  {
    var q := p + [ch];
    assert q[..|q| - 1] == p;
  }

  lemma SixBitsOfChar(six: BitString)
    requires |six| == 6
    ensures UintBits(ArmourDecode(ArmourEncode(Value(six))), 6) == six
  {
    Pow2Six();
    ArmourBijection();
    UintBitsOfValue(six);
  }

  lemma {:induction false} PayloadBitsOfArmour(b: BitString)
    requires |b| % 6 == 0
    ensures PayloadBits(Armour(b)) == b
  {
    if b == [] {
    } else {
      var front, six := b[..|b| - 6], b[|b| - 6..];
      assert b == front + six;
      PayloadBitsOfArmour(front);
      ArmourSnoc(front, six);
      PayloadBitsSnoc(Armour(front), ArmourEncode(Value(six)));
      SixBitsOfChar(six);
    }
  }

  lemma {:induction false} ArmourOfPayloadBits(p: string)
    requires IsPayload(p)
    ensures Armour(PayloadBits(p)) == p
  {
    if p == [] {
    } else {
      var front, ch := p[..|p| - 1], p[|p| - 1];
      assert p == front + [ch];
      ArmourOfPayloadBits(front);
      PayloadBitsSnoc(front, ch);
      ArmourSnoc(PayloadBits(front), UintBits(ArmourDecode(ch), 6));
      ValueOfSix(ArmourDecode(ch));
      ArmourBijection();
    }
  }

  /** Where the bits of character `i` of a payload are. */
  lemma {:induction false} PayloadBitAt(p: string, i: nat, k: nat)
    requires IsPayload(p) && i < |p| && k < 6
    ensures PayloadBits(p)[6 * i + k] == UintBits(ArmourDecode(p[i]), 6)[k]
  {
    if i == |p| - 1 {
    } else {
      PayloadBitAt(p[..|p| - 1], i, k);
    }
  }

  /** Number of zero bits that round `n` up to a multiple of six. */
  function FillFor(n: nat): (f: nat)
    ensures f <= 5 && (n + f) % 6 == 0
  {
    (6 - n % 6) % 6
  }

  // ------------------------------------------------------------------
  // decode_payload
  // ------------------------------------------------------------------

  /** The bytes a payload stands for: its bits without the fill bits, packed. */
  function Decoded(p: string, fill: nat): (r: Result<seq<bv8>>)
    ensures r.Success? <==> p != "" && fill <= 5 && IsPayload(p)
    ensures r.Failure? ==> r.error == if p == "" then PayloadEmpty
                                      else if fill > 5 then PayloadFillBitsInvalid else PayloadCharInvalid
  {
    if p == "" then Failure(PayloadEmpty)
    else if fill > 5 then Failure(PayloadFillBitsInvalid)
    else if !IsPayload(p) then Failure(PayloadCharInvalid)
    else Success(Pack(PayloadBits(p)[..6 * |p| - fill]))
  }

  /** ORs the first `significantBits` bits of a payload into a zeroed buffer. */
  method UnpackBits(payload: string, significantBits: nat, out: array<bv8>)
    requires IsPayload(payload)
    requires significantBits <= 6 * |payload| && out.Length == ByteCount(significantBits)
    requires out[..] == PackIn([], out.Length)
    modifies out
    ensures out[..] == PackIn(PayloadBits(payload)[..significantBits], out.Length)
  {
    hide PackIn, UintBits, ArmourDecode;
    ghost var bits := PayloadBits(payload)[..significantBits];
    assert bits[..0] == [];
    for ci := 0 to |payload|
      invariant 6 * ci <= significantBits
      invariant out[..] == PackIn(bits[..6 * ci], out.Length)
    {
      forall k | 0 <= k < 6
        ensures PayloadBits(payload)[6 * ci + k] == UintBits(ArmourDecode(payload[ci]), 6)[k]
      {
        PayloadBitAt(payload, ci, k);
      }
      var stop := UnpackChar(ArmourDecode(payload[ci]), 6 * ci, significantBits, out, bits);
      if stop {
        return;
      }
    }
    assert bits[..6 * |payload|] == bits;
  }

  /** The inner loop of `unpack_bits`: stops once all significant bits are written. */
  method UnpackChar(sixbit: nat, o: nat, significantBits: nat, out: array<bv8>, ghost bits: BitString)
    returns (stop: bool)
    requires sixbit < 64 && o <= |bits| == significantBits && out.Length == ByteCount(significantBits)
    requires forall k :: 0 <= k < 6 && o + k < |bits| ==> bits[o + k] == UintBits(sixbit, 6)[k]
    requires out[..] == PackIn(bits[..o], out.Length)
    modifies out
    ensures stop <==> significantBits < o + 6
    ensures out[..] == PackIn(if stop then bits else bits[..o + 6], out.Length)
  {
    hide PackIn, UintBits;
    for b := 0 to 6
      invariant o + b <= significantBits
      invariant out[..] == PackIn(bits[..o + b], out.Length)
    {
      var bitIdx := o + b;
      if bitIdx >= significantBits {
        assert bits[..bitIdx] == bits;
        return true;
      }
      UintBitAt(sixbit, 6, b);
      var bit := (sixbit / Pow2(5 - b)) % 2 == 1;
      assert bits[o + b] == bit;
      assert bits[..bitIdx] + [bit] == bits[..bitIdx + 1];
      OrBitAt(out, bitIdx, bit, bits[..bitIdx]);
    }
    return false;
  }

  method DecodePayload(payload: string, fillBits: nat) returns (r: Result<seq<bv8>>)
    ensures r == Decoded(payload, fillBits)
  {
    if payload == "" {
      return Failure(PayloadEmpty);
    }
    if fillBits > 5 {
      return Failure(PayloadFillBitsInvalid);
    }
    for i := 0 to |payload|
      invariant IsPayload(payload[..i])
    {
      if !IsPayloadChar(payload[i]) {
        return Failure(PayloadCharInvalid);
      }
    }
    assert payload[..|payload|] == payload;
    var totalBits := |payload| * 6;
    assert totalBits >= fillBits; // so the source's degenerate case never arises
    var significantBits := totalBits - fillBits;
    var byteCount := ByteCount(significantBits);
    var out := new bv8[byteCount](_ => 0);
    PackInEmpty(byteCount);
    UnpackBits(payload, significantBits, out);
    return Success(out[..]);
  }

  // ------------------------------------------------------------------
  // encode_payload
  // ------------------------------------------------------------------

  /** The payload and fill bits of the first `n` bits of a buffer. */
  function Encoded(data: seq<bv8>, n: nat): (r: Result<(string, nat)>)
    ensures r.Success? <==> 0 < n <= 8 * |data|
    ensures r.Failure? ==> r.error == if n == 0 then PayloadEmpty else PayloadTooShort
  {
    if n == 0 then Failure(PayloadEmpty)
    else if |data| < ByteCount(n) then Failure(PayloadTooShort)
    else Success((Armour(Unpack(data)[..n] + Zeros(FillFor(n))), FillFor(n)))
  }

  method EncodePayload(data: seq<bv8>, bitLength: nat) returns (r: Result<(string, nat)>)
    ensures r == Encoded(data, bitLength)
  {
    if bitLength == 0 {
      return Failure(PayloadEmpty);
    }
    if |data| < ByteCount(bitLength) {
      return Failure(PayloadTooShort);
    }
    var fillBits := (6 - bitLength % 6) % 6;
    FillIsFill(bitLength, fillBits);
    var charCount := (bitLength + fillBits) / 6;
    var result := EncodeChars(data, bitLength, charCount, Unpack(data)[..bitLength] + Zeros(fillBits));
    return Success((result, fillBits));
  }

  lemma FillIsFill(n: nat, fill: nat)
    requires fill == (6 - n % 6) % 6
    ensures fill == FillFor(n) && 6 * ((n + fill) / 6) == n + fill
  {
  }

  /** The outer loop of `encode_payload`. */
  method EncodeChars(data: seq<bv8>, bitLength: nat, charCount: nat, ghost bits: BitString)
    returns (result: string)
    requires bitLength <= 8 * |data| && bitLength <= |bits| == 6 * charCount
    requires bits == Unpack(data)[..bitLength] + Zeros(|bits| - bitLength)
    ensures result == Armour(bits)
  {
    hide Unpack, Value, ArmourEncode, ArmourPrefix;
    result := "";
    ArmourEnds(bits, charCount);
    for ci := 0 to charCount
      invariant result == ArmourPrefix(bits, ci)
    {
      var sixbit := EncodeChar(data, bitLength, 6 * ci, bits);
      result := result + [ArmourEncode(sixbit)];
      ArmourStep(bits, ci);
    }
  }

  /** The first `i` characters of an armoured bit string. */
  function ArmourPrefix(b: BitString, i: nat): string
    requires 6 * i <= |b|
  {
    Armour(b[..6 * i])
  }

  lemma ArmourEnds(b: BitString, n: nat)
    requires |b| == 6 * n
    ensures ArmourPrefix(b, 0) == "" && ArmourPrefix(b, n) == Armour(b)
  {
    assert b[..0] == [] && b[..6 * n] == b;
  }

  lemma ArmourStep(b: BitString, i: nat)
    requires 6 * i + 6 <= |b|
    ensures ArmourPrefix(b, i + 1) == ArmourPrefix(b, i) + [ArmourEncode(Value(b[6 * i..6 * i + 6]))]
  {
    var o := 6 * i;
    ArmourSnoc(b[..o], b[o..o + 6]);
    assert b[..o + 6] == b[..o] + b[o..o + 6];
  }

  /** The inner loop of `encode_payload`: six bits at offset `o`, zero beyond the end. */
  method EncodeChar(data: seq<bv8>, bitLength: nat, o: nat, ghost bits: BitString)
    returns (sixbit: nat)
    requires bitLength <= 8 * |data| && bitLength <= |bits| && o + 6 <= |bits|
    requires bits == Unpack(data)[..bitLength] + Zeros(|bits| - bitLength)
    ensures sixbit == Value(bits[o..o + 6])
  {
    hide Value, ByteBit;
    ValueEmpty();
    sixbit := 0;
    assert bits[o..o] == [];
    for b := 0 to 6
      invariant sixbit == Value(bits[o..o + b])
    {
      var bitIdx := o + b;
      var bit := false;
      if bitIdx < bitLength {
        bit := ByteBit(data[bitIdx / 8], 7 - bitIdx % 8);
        assert bit == Unpack(data)[bitIdx];
      }
      assert bit == bits[bitIdx];
      ValueStep(bits, o, b);
      sixbit := sixbit * 2 + Bit(bit);
    }
  }

  // ------------------------------------------------------------------
  // Round trips
  // ------------------------------------------------------------------

  /** A bit string armoured with fill bits decodes to the bit string. */
  lemma ArmouredBitsDecode(bits: BitString, fill: nat)
    requires bits != [] && fill <= 5 && (|bits| + fill) % 6 == 0
    ensures Decoded(Armour(bits + Zeros(fill)), fill) == Success(Pack(bits))
  {
    var padded := bits + Zeros(fill);
    var p := Armour(padded);
    PayloadBitsOfArmour(padded);
    assert 6 * |p| - fill == |bits|;
    assert padded[..|bits|] == bits;
  }

  /** Encoding the first `n` bits of a buffer and decoding the payload gives those bits back,
      zero-padded to whole bytes. */
  lemma DecodeOfEncode(data: seq<bv8>, n: nat)
    requires 0 < n <= 8 * |data|
    ensures var (p, fill) := Encoded(data, n).value;
            Decoded(p, fill) == Success(Pack(Unpack(data)[..n]))
  {
    ArmouredBitsDecode(Unpack(data)[..n], FillFor(n));
  }

  /** The bits of a payload with the last `fill` of them cleared. */
  function ClearedBits(p: string, fill: nat): (b: BitString)
    requires IsPayload(p) && fill <= 6 * |p|
    ensures |b| == 6 * |p|
  {
    PayloadBits(p)[..6 * |p| - fill] + Zeros(fill)
  }

  /** A payload with its last `fill` bits cleared. */
  function ClearFill(p: string, fill: nat): string
    requires IsPayload(p) && fill <= 6 * |p|
  {
    Armour(ClearedBits(p, fill))
  }

  /** Decoding a payload and encoding the bytes gives the fill count back, and the payload with
      only its fill bits cleared. */
  lemma EncodeOfDecode(p: string, fill: nat)
    requires p != "" && fill <= 5 && IsPayload(p)
    ensures Encoded(Decoded(p, fill).value, 6 * |p| - fill) == Success((ClearFill(p, fill), fill))
  {
    hide Armour, PayloadBits, FillFor, Pack, Unpack;
    var n := 6 * |p| - fill;
    var bits := PayloadBits(p)[..n];
    PackKeepsBits(bits);
    FillOfLength(|p|, fill);
  }

  lemma PackKeepsBits(bits: BitString)
    ensures |bits| <= 8 * |Pack(bits)| && Unpack(Pack(bits))[..|bits|] == bits
  {
    UnpackPack(bits);
  }

  lemma FillOfLength(k: nat, fill: nat)
    requires k > 0 && fill <= 5
    ensures FillFor(6 * k - fill) == fill
  {
    if fill == 0 {
      assert (6 * k) % 6 == 0;
    } else {
      assert 6 * k - fill == 6 * (k - 1) + (6 - fill);
      assert (6 * k - fill) % 6 == 6 - fill;
    }
  }

  /** Clearing the fill bits changes at most the last character, and nothing when they are
      already zero. */
  lemma ClearFillChanges(p: string, fill: nat)
    requires p != "" && fill <= 5 && IsPayload(p)
    ensures |ClearFill(p, fill)| == |p|
    ensures ClearFill(p, fill)[..|p| - 1] == p[..|p| - 1]
    ensures ClearFill(p, fill) == p <==> PayloadBits(p)[6 * |p| - fill..] == Zeros(fill)
  {
    ClearFillFront(p, fill);
    ClearFillFixed(p, fill);
  }

  lemma ClearFillFront(p: string, fill: nat)
    requires p != "" && fill <= 5 && IsPayload(p)
    ensures |ClearFill(p, fill)| == |p|
    ensures ClearFill(p, fill)[..|p| - 1] == p[..|p| - 1]
  {
    var front := p[..|p| - 1];
    var c := ClearedBits(p, fill);
    assert c[..|c| - 6] == PayloadBits(front);
    ArmourOfPayloadBits(front);
  }

  lemma ClearFillFixed(p: string, fill: nat)
    requires p != "" && fill <= 5 && IsPayload(p)
    ensures ClearFill(p, fill) == p <==> PayloadBits(p)[6 * |p| - fill..] == Zeros(fill)
  {
    var n := 6 * |p| - fill;
    var bits, c := PayloadBits(p), ClearedBits(p, fill);
    ArmourOfPayloadBits(p);
    PayloadBitsOfArmour(c);
    SplitAt(bits, n);
    SplitAt(c, n);
    assert c[..n] == bits[..n] && c[n..] == Zeros(fill);
  }

  lemma SplitAt<T>(s: seq<T>, n: nat)
    requires n <= |s|
    ensures s == s[..n] + s[n..]
  {
  }
}
