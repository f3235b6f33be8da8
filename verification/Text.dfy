/** The string operations of the sentence parser: fields, decimal numbers and checksums. */
module Text {
  import opened Results
  import opened Bits
  import opened Integers

  // ------------------------------------------------------------------
  // Splitting and joining
  // ------------------------------------------------------------------

  /** The substrings between delimiters; always at least one. */
  function Split(s: string, d: char): (fields: seq<string>)
    ensures |fields| >= 1
  {
    if s == "" then [""]
    else
      var front, ch := Split(s[..|s| - 1], d), s[|s| - 1];
      if ch == d then front + [""]
      else front[..|front| - 1] + [front[|front| - 1] + [ch]]
  }

  function Join(fields: seq<string>, d: char): string
    requires |fields| >= 1
  {
    if |fields| == 1 then fields[0]
    else Join(fields[..|fields| - 1], d) + [d] + fields[|fields| - 1]
  }

  predicate Undelimited(fields: seq<string>, d: char) {
    forall i :: 0 <= i < |fields| ==> d !in fields[i]
  }

  method SplitFields(str: string, delim: char) returns (fields: seq<string>)
    ensures fields == Split(str, delim)
  {
    fields := [];
    var start := 0;
    for i := 0 to |str|
      invariant start <= i
      invariant Split(str[..i], delim) == fields + [str[start..i]]
    {
      assert str[..i + 1][..i] == str[..i];
      assert str[start..i + 1] == str[start..i] + [str[i]];
      if str[i] == delim {
        fields := fields + [str[start..i]];
        start := i + 1;
        assert str[start..i + 1] == "";
      }
    }
    assert str[..|str|] == str;
    fields := fields + [str[start..]];
  }

  /** Joining what was split gives the string back, and no field holds the delimiter. */
  lemma {:induction false} JoinOfSplit(s: string, d: char)
    ensures Join(Split(s, d), d) == s
    ensures Undelimited(Split(s, d), d)
  {
    if s == "" {
    } else {
      hide Split, Join, Undelimited;
      JoinOfSplit(s[..|s| - 1], d);
      JoinOfSplitStep(s[..|s| - 1], s[|s| - 1], d);
      assert s == s[..|s| - 1] + [s[|s| - 1]];
    }
  }

  lemma JoinOfSplitStep(s: string, ch: char, d: char)
    requires Join(Split(s, d), d) == s && Undelimited(Split(s, d), d)
    ensures Join(Split(s + [ch], d), d) == s + [ch]
    ensures Undelimited(Split(s + [ch], d), d)
  {
    hide Join, Undelimited;
    var front := Split(s, d);
    var init, last := front[..|front| - 1], front[|front| - 1];
    assert (s + [ch])[..|s|] == s;
    assert front == init + [last];
    if ch == d {
      JoinEmpty(front, d);
    } else {
      JoinLast(init, last, ch, d);
    }
  }

  lemma JoinEmpty(fields: seq<string>, d: char)
    requires |fields| >= 1
    ensures Join(fields + [""], d) == Join(fields, d) + [d]
    ensures Undelimited(fields, d) ==> Undelimited(fields + [""], d)
  {
    JoinSnoc(fields, "", d);
  }

  lemma JoinLast(init: seq<string>, last: string, ch: char, d: char)
    ensures Join(init + [last + [ch]], d) == Join(init + [last], d) + [ch]
    ensures ch != d && Undelimited(init + [last], d) ==> Undelimited(init + [last + [ch]], d)
  {
    hide Undelimited;
    UndelimitedLast(init, last, ch, d);
    if init != [] {
      JoinSnoc(init, last, d);
      JoinSnoc(init, last + [ch], d);
      ConcatAssoc(Join(init, d) + [d], last, [ch]);
    }
  }

  lemma JoinSnoc(fields: seq<string>, f: string, d: char)
    requires |fields| >= 1
    ensures Join(fields + [f], d) == Join(fields, d) + [d] + f
  {
    assert (fields + [f])[..|fields|] == fields;
  }

  lemma UndelimitedLast(init: seq<string>, last: string, ch: char, d: char)
    ensures ch != d && Undelimited(init + [last], d) ==> Undelimited(init + [last + [ch]], d)
  {
    assert (init + [last])[|init|] == last;
    assert forall i :: 0 <= i < |init| ==> (init + [last])[i] == init[i];
  }

  lemma {:induction false} SplitAppend(s: string, f: string, d: char)
    requires d !in f
    ensures Split(s + [d] + f, d) == Split(s, d) + [f]
  {
    var t := s + [d] + f;
    assert t[..|t| - 1] == s + ([d] + f)[..|f|];
    if f == "" {
      assert t[..|t| - 1] == s;
    } else {
      var g := f[..|f| - 1];
      assert t[..|t| - 1] == s + [d] + g;
      SplitAppend(s, g, d);
      assert f == g + [f[|f| - 1]];
    }
  }

  lemma {:induction false} SplitSingle(f: string, d: char)
    requires d !in f
    ensures Split(f, d) == [f]
  {
    if f == "" {
    } else {
      SplitSingle(f[..|f| - 1], d);
      assert f == f[..|f| - 1] + [f[|f| - 1]];
    }
  }

  /** Splitting what was joined gives the fields back. */
  lemma {:induction false} SplitOfJoin(fields: seq<string>, d: char)
    requires |fields| >= 1 && Undelimited(fields, d)
    ensures Split(Join(fields, d), d) == fields
  {
    var n := |fields| - 1;
    if n == 0 {
      SplitSingle(fields[0], d);
    } else {
      SplitOfJoin(fields[..n], d);
      SplitAppend(Join(fields[..n], d), fields[n], d);
      assert fields == fields[..n] + [fields[n]];
    }
  }

  // ------------------------------------------------------------------
  // Decimal numbers
  // ------------------------------------------------------------------

  predicate IsDigits(s: string) { forall i :: 0 <= i < |s| ==> '0' <= s[i] <= '9' }

  function Decimal(s: string): nat
    requires IsDigits(s)
  {
    if s == "" then 0 else Decimal(s[..|s| - 1]) * 10 + (s[|s| - 1] as int - '0' as int)
  }

  /** The number a field holds: a non-empty string of digits worth at most 255, with any
      number of leading zeros. */
  function Uint8Of(s: string): Option<uint8> {
    if s != "" && IsDigits(s) && Decimal(s) <= 255 then Some(Decimal(s)) else None
  }

  method ParseUint8(s: string) returns (r: Option<uint8>)
    ensures r == Uint8Of(s)
  {
    if s == "" {
      return None;
    }
    var v := 0;
    for i := 0 to |s|
      invariant IsDigits(s[..i]) && v == Decimal(s[..i]) && v <= 255
    {
      if !('0' <= s[i] <= '9') {
        return None;
      }
      assert s[..i + 1][..i] == s[..i];
      v := v * 10 + (s[i] as int - '0' as int);
      if v > 255 {
        if IsDigits(s) { DecimalGrows(s, i + 1); }
        return None;
      }
    }
    assert s[..|s|] == s;
    return Some(v);
  }

  /** Each digit times the power of ten of its place. */
  function Places(s: string): int {
    if s == "" then 0 else (s[0] as int - '0' as int) * Pow10(|s| - 1) + Places(s[1..])
  }

  function Pow10(n: nat): (p: nat)
    ensures p >= 1
  {
    if n == 0 then 1 else 10 * Pow10(n - 1)
  }

  lemma {:induction false} PlacesSnoc(s: string, c: char)
    ensures Places(s + [c]) == 10 * Places(s) + (c as int - '0' as int)
  {
    if s == "" {
      assert s + [c] == [c] && [c][1..] == "";
      assert Pow10(0) == 1;
    } else {
      PlacesSnoc(s[1..], c);
      assert (s + [c])[1..] == s[1..] + [c];
      var d := s[0] as int - '0' as int;
      assert Pow10(|s|) == 10 * Pow10(|s| - 1);
      assert d * Pow10(|s|) == 10 * (d * Pow10(|s| - 1));
    }
  }

  lemma {:induction false} DecimalIsPlaces(s: string)
    requires IsDigits(s)
    ensures Decimal(s) == Places(s)
  {
    if s != "" {
      DecimalIsPlaces(s[..|s| - 1]);
      PlacesSnoc(s[..|s| - 1], s[|s| - 1]);
      assert s == s[..|s| - 1] + [s[|s| - 1]];
    }
  }

  /** The text is a decimal number in a range. */
  predicate IsNumber(s: string, lo: nat, hi: nat) {
    s != "" && (forall i :: 0 <= i < |s| ==> s[i] in "0123456789") && lo <= Places(s) <= hi
  }

  /** A field holds exactly the numbers up to 255, with the value of their digits. */
  lemma Uint8IsNumber(s: string)
    ensures Uint8Of(s) == if IsNumber(s, 0, 255) then Some(Places(s)) else None
  {
    assert forall c: char :: c in "0123456789" <==> '0' <= c <= '9';
    if IsDigits(s) {
      DecimalIsPlaces(s);
    }
  }

  lemma NumberInRange(s: string, lo: nat, hi: nat)
    requires hi <= 255
    ensures IsNumber(s, lo, hi) <==> Uint8Of(s).Some? && lo <= Uint8Of(s).value <= hi
    ensures Uint8Of(s).Some? ==> Uint8Of(s).value == Places(s)
  {
    hide Uint8Of;
    Uint8IsNumber(s);
  }

  lemma {:induction false} DecimalGrows(s: string, n: nat)
    requires IsDigits(s) && n <= |s|
    ensures Decimal(s[..n]) <= Decimal(s)
    decreases |s| - n
  {
    if n == |s| {
      assert s[..n] == s;
    } else {
      DecimalGrows(s, n + 1);
      assert s[..n + 1][..n] == s[..n];
    }
  }

  /** The decimal digit of a number below ten. */
  function Digit(n: nat): (s: string)
    requires n < 10
    ensures Uint8Of(s) == Some(n) && ',' !in s && |s| == 1
  {
    var s := [(n + '0' as int) as char];
    assert s[..0] == "";
    assert Decimal(s) == Decimal(s[..0]) * 10 + n;
    s
  }

  // ------------------------------------------------------------------
  // Checksums
  // ------------------------------------------------------------------

  /** `static_cast<uint8_t>(c)` */
  function Byte(c: char): bv8 { (c as int % 256) as bv8 }

  /** The exclusive or of all the bytes. */
  function Xor(s: string): bv8 {
    if s == "" then 0 else Xor(s[..|s| - 1]) ^ Byte(s[|s| - 1])
  }

  function HexDigit(n: bv8): char
    requires n < 16
  {
    "0123456789ABCDEF"[n as int]
  }

  function HexValue(c: char): Option<bv8> {
    if '0' <= c <= '9' then Some((c as int - '0' as int) as bv8)
    else if 'A' <= c <= 'F' then Some((c as int - 'A' as int + 10) as bv8)
    else if 'a' <= c <= 'f' then Some((c as int - 'a' as int + 10) as bv8)
    else None
  }

  /** Two hexadecimal digits, the upper four bits first. */
  function Hex8(x: bv8): string {
    [HexDigit((x >> 4) & 0x0F), HexDigit(x & 0x0F)]
  }

  function Hex8Value(s: string): Option<bv8> {
    if |s| != 2 then None
    else match (HexValue(s[0]), HexValue(s[1]))
      case (Some(hi), Some(lo)) => Some((hi << 4) | lo)
      case _ => None
  }

  method ParseHex8(s: string) returns (r: Option<bv8>)
    ensures r == Hex8Value(s)
  {
    if |s| != 2 {
      return None;
    }
    var result: bv8 := 0;
    for i := 0 to 2
      invariant i == 0 ==> result == 0
      invariant i == 1 ==> HexValue(s[0]) == Some(result)
      invariant i == 2 ==> Hex8Value(s) == Some(result)
    {
      result := result << 4;
      var digit := HexValue(s[i]);
      if digit == None {
        return None;
      }
      result := result | digit.value;
    }
    return Some(result);
  }

  method ComputeChecksum(data: string) returns (r: string)
    ensures r == Hex8(Xor(data))
    ensures r == [UpperHex(Parities(data, 4)), UpperHex(Parities(data, 0))]
  {
    ChecksumDigits(data);
    var xorVal: bv8 := 0;
    for i := 0 to |data|
      invariant xorVal == Xor(data[..i])
    {
      assert data[..i + 1][..i] == data[..i];
      xorVal := xorVal ^ Byte(data[i]);
    }
    assert data[..|data|] == data;
    return [HexDigit((xorVal >> 4) & 0x0F), HexDigit(xorVal & 0x0F)];
  }

  /** The hexadecimal digit of a number, in upper case. */
  function UpperHex(n: nat): char
    requires n < 16
  {
    if n < 10 then ('0' as int + n) as char else ('A' as int + (n - 10)) as char
  }

  /** The character is the hexadecimal digit of `n`, in either case. */
  predicate IsHexDigit(c: char, n: nat)
    requires n < 16
  {
    c == UpperHex(n) || (n >= 10 && c as int == 'a' as int + (n - 10))
  }

  lemma HexDigitIs(n: bv8)
    requires n < 16
    ensures HexDigit(n) == UpperHex(n as int)
  {
    if n == 0 {} else if n == 1 {} else if n == 2 {} else if n == 3 {} else if n == 4 {}
    else if n == 5 {} else if n == 6 {} else if n == 7 {} else if n == 8 {} else if n == 9 {}
    else if n == 10 {} else if n == 11 {} else if n == 12 {} else if n == 13 {}
    else if n == 14 {} else {}
  }

  /** A character has a value exactly when it is a hexadecimal digit of either case, and the
      value is the digit's. */
  lemma HexValueIs(c: char, n: bv8)
    ensures HexValue(c) == Some(n) <==> n < 16 && IsHexDigit(c, n as int)
  {
    var o := if c <= '9' then 48 else if c <= 'F' then 55 else 87;
    if '0' <= c <= '9' || 'A' <= c <= 'F' || 'a' <= c <= 'f' {
      SmallByte(c as int - o, n);
    }
  }

  lemma SmallByte(v: nat, n: bv8)
    requires v < 16
    ensures v as bv8 == n <==> n as int == v
  {
    ByteOfNumber(v);
    assert (n as int) as bv8 == n;
  }

  /** Number of characters whose code has the binary digit 2^i. */
  function Ones(s: string, i: nat): nat {
    if s == "" then 0 else Ones(s[..|s| - 1], i) + (s[|s| - 1] as int / Pow2(i)) % 2
  }

  /** Four parity bits of the characters' codes, from that of 2^(i + 3) down to that of 2^i. */
  function Parities(s: string, i: nat): (n: nat)
    ensures n < 16
  {
    8 * (Ones(s, i + 3) % 2) + 4 * (Ones(s, i + 2) % 2) + 2 * (Ones(s, i + 1) % 2) + Ones(s, i) % 2
  }

  lemma XorBit(x: bv8, y: bv8, i: nat)
    requires i < 8
    ensures ByteBit(x ^ y, i) <==> ByteBit(x, i) != ByteBit(y, i)
  {
    XorMasked(x, y, Mask(i));
  }

  lemma XorMasked(x: bv8, y: bv8, m: bv8)
    requires m != 0 && m & (m - 1) == 0
    ensures (x ^ y) & m != 0 <==> (x & m != 0) != (y & m != 0)
  {
  }

  lemma ByteOfChar(c: char, i: nat)
    requires i < 8
    ensures ByteBit(Byte(c), i) <==> (c as int / Pow2(i)) % 2 == 1
  {
    var v, p, k := c as int, Pow2(i), Pow2(7 - i);
    hide Pow2, ByteBit;
    ByteBitValue(Byte(c), i);
    ByteValue(c);
    Pow2Add(i, 7 - i);
    assert Pow2(7) == 128;
    LowDigits(v / 256, v % 256, p, k);
  }

  lemma ByteValue(c: char)
    ensures Byte(c) as int == c as int % 256
  {
    ByteOfNumber(c as int % 256);
  }

  /** A multiple of 256 does not touch the lower eight binary digits. */
  lemma LowDigits(q: nat, r: nat, p: nat, k: nat)
    requires p >= 1 && p * k == 128
    ensures ((256 * q + r) / p) % 2 == (r / p) % 2
  {
    assert 256 * q == p * (2 * (k * q)) by { assert p * (2 * (k * q)) == 2 * ((p * k) * q); }
    assert p * (2 * (k * q) + r / p) == p * (2 * (k * q)) + p * (r / p);
    DivModUnique(256 * q + r, p, 2 * (k * q) + r / p, r % p);
  }

  lemma NoBit(i: nat)
    requires i < 8
    ensures !ByteBit(0, i)
  {
  }

  /** Bit `i` of the checksum is the parity of bit `i` over all the characters. */
  lemma {:induction false} XorParity(s: string, i: nat)
    requires i < 8
    ensures ByteBit(Xor(s), i) <==> Ones(s, i) % 2 == 1
  {
    hide ByteBit, Pow2, Byte;
    if s == "" {
      NoBit(i);
    } else {
      var front, c := s[..|s| - 1], s[|s| - 1];
      XorParity(front, i);
      XorBit(Xor(front), Byte(c), i);
      ByteOfChar(c, i);
      OddSum(Ones(front, i), c as int / Pow2(i));
    }
  }

  lemma OddSum(a: nat, b: nat)
    ensures (a + b % 2) % 2 == 1 <==> (a % 2 == 1) != (b % 2 == 1)
  {
  }

  lemma Nibbles(x: bv8)
    ensures ((x >> 4) & 0x0F) as int == x as int / 16 && (x & 0x0F) as int == x as int % 16
  {
  }

  /** The checksum is the number whose binary digits are the parities of the characters. */
  lemma XorValue(s: string)
    ensures Xor(s) as int == 16 * Parities(s, 4) + Parities(s, 0)
  {
    hide ByteBit, Ones, Xor;
    var x := Xor(s);
    ParityBit(s, 0); ParityBit(s, 1); ParityBit(s, 2); ParityBit(s, 3);
    ParityBit(s, 4); ParityBit(s, 5); ParityBit(s, 6); ParityBit(s, 7);
    ByteSum(x);
  }

  lemma ParityBit(s: string, i: nat)
    requires i < 8
    ensures Bit(ByteBit(Xor(s), i)) == Ones(s, i) % 2
  {
    hide ByteBit, Ones, Xor;
    XorParity(s, i);
  }

  /** The upper-case digits of the checksum are the parities of the upper and the lower four
      bits of the characters. */
  lemma ChecksumDigits(s: string)
    ensures Xor(s) as int / 16 == Parities(s, 4) && Xor(s) as int % 16 == Parities(s, 0)
    ensures Hex8(Xor(s)) == [UpperHex(Parities(s, 4)), UpperHex(Parities(s, 0))]
  {
    hide Xor, Parities;
    var x := Xor(s);
    XorValue(s);
    Nibbles(x);
    HexDigitIs((x >> 4) & 0x0F);
    HexDigitIs(x & 0x0F);
  }

  /** The checksum of a single byte is the byte. */
  lemma OneByteChecksum(c: char)
    requires c as int < 256
    ensures Xor([c]) as int == c as int
    ensures Hex8(Xor([c])) == [UpperHex(c as int / 16), UpperHex(c as int % 16)]
  {
    assert [c][..0] == "";
    ByteValue(c);
    Nibbles(Byte(c));
    HexDigitIs((Byte(c) >> 4) & 0x0F);
    HexDigitIs(Byte(c) & 0x0F);
  }

  /** The digits, in either case, are the checksum of the body. */
  predicate IsChecksum(digits: string, body: string) {
    && |digits| == 2
    && IsHexDigit(digits[0], Parities(body, 4))
    && IsHexDigit(digits[1], Parities(body, 0))
  }

  /** The parser's comparison accepts exactly the two digits of the checksum. */
  lemma ChecksumHolds(digits: string, body: string)
    ensures Hex8Value(digits) == Some(Xor(body)) <==> IsChecksum(digits, body)
  {
    hide HexValue, IsHexDigit, Parities, Xor;
    if |digits| == 2 {
      var x := Xor(body);
      ChecksumDigits(body);
      Nibbles(x);
      HexValueIs(digits[0], (x >> 4) & 0x0F);
      HexValueIs(digits[1], x & 0x0F);
      if HexValue(digits[0]).Some? && HexValue(digits[1]).Some? {
        HexValueIs(digits[0], HexValue(digits[0]).value);
        HexValueIs(digits[1], HexValue(digits[1]).value);
        SplitByte(HexValue(digits[0]).value, HexValue(digits[1]).value, x);
      }
    }
  }

  lemma SplitByte(hi: bv8, lo: bv8, x: bv8)
    requires hi < 16 && lo < 16
    ensures (hi << 4) | lo == x <==> hi == (x >> 4) & 0x0F && lo == x & 0x0F
  {
  }

  lemma HexDigitValue(n: bv8)
    requires n < 16
    ensures HexValue(HexDigit(n)) == Some(n)
    ensures '0' <= HexDigit(n) <= '9' || 'A' <= HexDigit(n) <= 'F'
  {
    hide HexDigit, HexValue;
    HexDigitIs(n);
    HexValueIs(HexDigit(n), n);
  }

  /** A checksum is two digits or upper-case letters and reads back as the exclusive or it was
      computed from. */
  lemma Hex8RoundTrip(x: bv8)
    ensures Hex8Value(Hex8(x)) == Some(x)
    ensures forall c | c in Hex8(x) :: '0' <= c <= '9' || 'A' <= c <= 'F'
  {
    HexDigitValue((x >> 4) & 0x0F);
    HexDigitValue(x & 0x0F);
  }

  lemma {:induction false} XorAppend(s: string, t: string)
    ensures Xor(s + t) == Xor(s) ^ Xor(t)
  {
    if t == "" {
      assert s + t == s;
    } else {
      var u := t[..|t| - 1];
      XorAppend(s, u);
      assert (s + t)[..|s + t| - 1] == s + u;
    }
  }

  /** Changing one character changes the checksum by the difference of the two bytes. */
  lemma XorUpdate(s: string, i: nat, c: char)
    requires i < |s|
    ensures Xor(s[i := c]) == Xor(s) ^ Byte(s[i]) ^ Byte(c)
  {
    XorMiddle(s[..i], s[i], s[i + 1..]);
    XorMiddle(s[..i], c, s[i + 1..]);
    assert s == s[..i] + [s[i]] + s[i + 1..];
    assert s[i := c] == s[..i] + [c] + s[i + 1..];
  }

  lemma XorMiddle(s: string, c: char, t: string)
    ensures Xor(s + [c] + t) == Xor(s) ^ Xor(t) ^ Byte(c)
  {
    XorAppend(s + [c], t);
    XorAppend(s, [c]);
    assert [c][..0] == "";
  }

  /** The checksum does not depend on the order of the bytes. */
  lemma {:induction false} XorPermutation(s: string, t: string)
    requires multiset(s) == multiset(t)
    ensures Xor(s) == Xor(t)
  {
    if s == "" {
      assert |t| == |multiset(t)| == |multiset(s)|;
    } else {
      var c, front := s[|s| - 1], s[..|s| - 1];
      assert s == front + [c];
      assert c in multiset(t);
      var i :| 0 <= i < |t| && t[i] == c;
      var before, after := t[..i], t[i + 1..];
      assert t == before + [c] + after;
      RemoveOne(front, before, after, c);
      XorPermutation(front, before + after);
      XorAppend(before, after);
      XorMiddle(before, c, after);
    }
  }

  lemma RemoveOne(front: string, before: string, after: string, c: char)
    requires multiset(front + [c]) == multiset(before + [c] + after)
    ensures multiset(front) == multiset(before + after)
  {
    assert multiset(front) == multiset(front + [c]) - multiset{c};
    assert multiset(before + [c] + after) == multiset(before) + multiset{c} + multiset(after);
  }
}
