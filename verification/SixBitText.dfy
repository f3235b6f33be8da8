/** The 6-bit character set of AIS text fields. */
module SixBitText {
  import opened Bits

  /** `ais6bit_to_ascii`: 0..31 become '@'..'_', 32..63 become ' '..'?'. */
  function SixToAscii(v: nat): char {
    var six := v % 64;
    if six < 32 then (six + 64) as char else six as char
  }

  /** `ascii_to_ais6bit`: characters outside ' '..'_' become 63, which reads back as '?'. */
  function AsciiToSix(ch: char): (six: nat)
    ensures six < 64
  {
    if 64 <= ch as int <= 95 then ch as int - 64
    else if 32 <= ch as int <= 63 then ch as int
    else 63
  }

  predicate IsPrintable(ch: char) { 32 <= ch as int <= 95 }

  /** The character a text field holds for `ch`. */
  function Printable(ch: char): char { if IsPrintable(ch) then ch else '?' }

  /** Every 6-bit value stands for the printable character congruent to it modulo 64, which
      reads back as the value; other characters become '?'. */
  lemma SixAsciiBijection()
    ensures forall ch: char {:trigger AsciiToSix(ch)} :: SixToAscii(AsciiToSix(ch)) == Printable(ch)
    ensures forall ch: char {:trigger Printable(ch)} :: Printable(ch) == if ' ' <= ch <= '_' then ch else '?'
    ensures forall v: nat {:trigger SixToAscii(v)} | v < 64 ::
              AsciiToSix(SixToAscii(v)) == v && IsPrintable(SixToAscii(v)) && SixToAscii(v) as int % 64 == v
  {
  }

  predicate IsPad(ch: char) { ch == '@' || ch == ' ' }

  /** The text without its trailing run of '@' and space. */
  function StripPad(s: string): (t: string)
    ensures t <= s
    ensures t == [] || !IsPad(t[|t| - 1])
    ensures forall i :: |t| <= i < |s| ==> IsPad(s[i])
  {
    if s == [] then [] else if IsPad(s[|s| - 1]) then StripPad(s[..|s| - 1]) else s
  }

  /** The character written at position `i`: text shorter than the field is padded with '@'. */
  function CharOrPad(s: string, i: nat): char { if i < |s| then s[i] else '@' }

  /** The bits of a text field of `n` characters. */
  function TextBits(s: string, n: nat): (b: BitString)
    ensures |b| == 6 * n
  {
    if n == 0 then [] else TextBits(s, n - 1) + UintBits(AsciiToSix(CharOrPad(s, n - 1)), 6)
  }

  /** The 6-bit value of character `i` of a text field at bit offset `o`. */
  function SixAt(b: BitString, o: nat, i: nat): (six: nat)
    requires o + 6 * i + 6 <= |b|
    ensures six < 64
  {
    Pow2Six();
    Value(b[o + 6 * i..o + 6 * i + 6])
  }

  /** The `n` characters of a text field, padding included. */
  function RawText(b: BitString, o: nat, n: nat): (s: string)
    requires o + 6 * n <= |b|
    ensures |s| == n
  {
    if n == 0 then [] else RawText(b, o, n - 1) + [SixToAscii(SixAt(b, o, n - 1))]
  }

  /** What a text field of `n` characters keeps of `s`. */
  function FieldText(s: string, n: nat): string { StripPad(CutText(s, n)) }

  /** `s` cut to `n` characters with unprintable characters replaced. */
  function CutText(s: string, n: nat): string {
    var k := if |s| <= n then |s| else n;
    seq(k, i requires 0 <= i < k => Printable(s[i]))
  }

  /** `s` is a value a text field of `n` characters can hold. */
  predicate IsFieldText(s: string, n: nat) {
    && |s| <= n
    && (forall i :: 0 <= i < |s| ==> IsPrintable(s[i]))
    && (s == [] || !IsPad(s[|s| - 1]))
  }

  // ------------------------------------------------------------------

  lemma StripUnique(s: string, t: string)
    requires t <= s
    requires t == [] || !IsPad(t[|t| - 1])
    requires forall i :: |t| <= i < |s| ==> IsPad(s[i])
    ensures StripPad(s) == t
  {
    var u := StripPad(s);
    assert t != [] ==> t[|t| - 1] == s[|t| - 1];
    assert u != [] ==> u[|u| - 1] == s[|u| - 1];
    assert |u| == |t|;
  }

  lemma {:induction false} TextBitsAt(s: string, n: nat, i: nat)
    requires i < n
    ensures TextBits(s, n)[6 * i..6 * i + 6] == UintBits(AsciiToSix(CharOrPad(s, i)), 6)
  {
    if i == n - 1 {
    } else {
      TextBitsAt(s, n - 1, i);
      assert TextBits(s, n)[6 * i..6 * i + 6] == TextBits(s, n - 1)[6 * i..6 * i + 6];
    }
  }

  lemma {:induction false} RawTextAt(b: BitString, o: nat, n: nat)
    requires o + 6 * n <= |b|
    ensures forall i :: 0 <= i < n ==> RawText(b, o, n)[i] == SixToAscii(SixAt(b, o, i))
  {
    if n == 0 {
    } else {
      RawTextAt(b, o, n - 1);
    }
  }

  lemma SixOfWritten(b: BitString, o: nat, s: string, n: nat, i: nat)
    requires o + 6 * n <= |b| && b[o..o + 6 * n] == TextBits(s, n)
    requires i < n
    ensures SixAt(b, o, i) == AsciiToSix(CharOrPad(s, i))
  {
    var six := AsciiToSix(CharOrPad(s, i));
    assert b[o + 6 * i..o + 6 * i + 6] == UintBits(six, 6) by {
      TextBitsAt(s, n, i);
      SliceOfSlice(b, o, 6 * n, 6 * i, 6 * i + 6);
      assert o + 6 * i + 6 == o + (6 * i + 6);
    }
    ValueOfSix(six);
  }

  lemma ValueOfSix(six: nat)
    requires six < 64
    ensures Value(UintBits(six, 6)) == six
  {
    ValueOfUintBits(six, 6);
    Pow2Six();
    var p := Pow2(6);
    assert six % p == six;
  }

  lemma Pow2Six()
    ensures Pow2(6) == 64
  {
    assert Pow2(3) == 8;
    assert Pow2(6) == 8 * Pow2(3);
  }

  /** The raw characters of a written field. */
  lemma RawTextOfWritten(b: BitString, o: nat, s: string, n: nat)
    requires o + 6 * n <= |b| && b[o..o + 6 * n] == TextBits(s, n)
    ensures forall i :: 0 <= i < n ==> RawText(b, o, n)[i] == Printable(CharOrPad(s, i))
  {
    RawTextAt(b, o, n);
    forall i | 0 <= i < n
      ensures RawText(b, o, n)[i] == Printable(CharOrPad(s, i))
    {
      SixOfWritten(b, o, s, n, i);
      SixAsciiBijection();
    }
  }

  /** Reading back a written text field gives the text cut to the field, with unprintable
      characters replaced and trailing padding removed. */
  lemma ReadWrittenText(b: BitString, o: nat, s: string, n: nat)
    requires o + 6 * n <= |b| && b[o..o + 6 * n] == TextBits(s, n)
    ensures StripPad(RawText(b, o, n)) == FieldText(s, n)
  {
    RawTextOfWritten(b, o, s, n);
    var cut := CutText(s, n);
    var raw := RawText(b, o, n);
    var t := StripPad(cut);
    assert forall i :: 0 <= i < |cut| ==> raw[i] == cut[i];
    assert cut <= raw;
    forall i | |t| <= i < |raw|
      ensures IsPad(raw[i])
    {
      if i < |cut| { assert raw[i] == cut[i]; }
    }
    StripUnique(raw, t);
  }

  lemma FieldTextIsFieldText(s: string, n: nat)
    ensures IsFieldText(FieldText(s, n), n)
  {
    var cut := CutText(s, n);
    assert forall i :: 0 <= i < |cut| ==> IsPrintable(cut[i]);
    assert forall i :: 0 <= i < |FieldText(s, n)| ==> FieldText(s, n)[i] == cut[i];
  }

  /** A field keeps exactly the texts it can hold. */
  lemma FieldTextFixed(s: string, n: nat)
    ensures FieldText(s, n) == s <==> IsFieldText(s, n)
  {
    if IsFieldText(s, n) {
      assert CutText(s, n) == s;
      StripUnique(s, s);
    } else {
      FieldTextIsFieldText(s, n);
    }
  }

  /** Keeping text in a field twice is the same as keeping it once. */
  lemma FieldTextIdempotent(s: string, n: nat)
    ensures FieldText(FieldText(s, n), n) == FieldText(s, n)
  {
    FieldTextIsFieldText(s, n);
    FieldTextFixed(FieldText(s, n), n);
  }

  // ------------------------------------------------------------------
  // Canonical text fields
  // ------------------------------------------------------------------

  /** Number of characters up to the last one that is neither '@' (0) nor space (32). */
  function KeptChars(b: BitString, o: nat, n: nat): (k: nat)
    requires o + 6 * n <= |b|
    ensures k <= n
  {
    if n == 0 then 0
    else if SixAt(b, o, n - 1) == 0 || SixAt(b, o, n - 1) == 32 then KeptChars(b, o, n - 1)
    else n
  }

  /** The bits of a text field with its trailing padding turned into zeros. */
  function CanonicalTextBits(b: BitString, o: nat, n: nat): (c: BitString)
    requires o + 6 * n <= |b|
    ensures |c| == 6 * n
  {
    var k := KeptChars(b, o, n);
    b[o..o + 6 * k] + Zeros(6 * (n - k))
  }

  lemma StripSnoc(s: string, ch: char)
    ensures StripPad(s + [ch]) == if IsPad(ch) then StripPad(s) else s + [ch]
  {
    assert (s + [ch])[..|s|] == s;
  }

  lemma PadSix(six: nat)
    requires six < 64
    ensures IsPad(SixToAscii(six)) <==> six == 0 || six == 32
  {
  }

  lemma {:induction false} KeptIsStripped(b: BitString, o: nat, n: nat)
    requires o + 6 * n <= |b|
    ensures StripPad(RawText(b, o, n)) == RawText(b, o, KeptChars(b, o, n))
  {
    if n == 0 {
    } else {
      KeptIsStripped(b, o, n - 1);
      StripSnoc(RawText(b, o, n - 1), SixToAscii(SixAt(b, o, n - 1)));
      PadSix(SixAt(b, o, n - 1));
    }
  }

  lemma {:induction false} RewriteRaw(b: BitString, o: nat, n: nat, s: string)
    requires o + 6 * n <= |b| && RawText(b, o, n) <= s
    ensures TextBits(s, n) == b[o..o + 6 * n]
  {
    if n == 0 {
    } else {
      var k := n - 1;
      assert RawText(b, o, n)[..k] == RawText(b, o, k);
      RewriteRaw(b, o, k, s);
      assert s[k] == RawText(b, o, n)[k];
      SixAsciiBijection();
      UintBitsOfValue(b[o + 6 * k..o + 6 * n]);
      assert b[o..o + 6 * n] == b[o..o + 6 * k] + b[o + 6 * k..o + 6 * n];
    }
  }

  lemma {:induction false} PadBits(s: string, n: nat)
    requires |s| <= n
    ensures TextBits(s, n) == TextBits(s, |s|) + Zeros(6 * (n - |s|))
  {
    if n == |s| {
    } else {
      PadBits(s, n - 1);
      ZeroBits(6);
      assert AsciiToSix(CharOrPad(s, n - 1)) == 0;
    }
  }

  lemma {:induction false} ZeroBits(w: nat)
    ensures UintBits(0, w) == Zeros(w)
  {
    if w == 0 {
    } else {
      ZeroBits(w - 1);
    }
  }

  /** Rewriting a field that was read keeps its characters and zeroes its trailing padding. */
  lemma RewriteText(b: BitString, o: nat, n: nat)
    requires o + 6 * n <= |b|
    ensures TextBits(StripPad(RawText(b, o, n)), n) == CanonicalTextBits(b, o, n)
  {
    var k := KeptChars(b, o, n);
    var s := RawText(b, o, k);
    assert StripPad(RawText(b, o, n)) == s by { KeptIsStripped(b, o, n); }
    assert TextBits(s, k) == b[o..o + 6 * k] by { RewriteRaw(b, o, k, s); }
    PadBits(s, n);
  }

  lemma ReadTextIsFieldText(b: BitString, o: nat, n: nat)
    requires o + 6 * n <= |b|
    ensures IsFieldText(StripPad(RawText(b, o, n)), n)
  {
    RawTextAt(b, o, n);
    SixAsciiBijection();
    var raw := RawText(b, o, n);
    assert forall i :: 0 <= i < |StripPad(raw)| ==> StripPad(raw)[i] == raw[i];
  }
}
