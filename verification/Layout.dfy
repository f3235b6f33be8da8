/** Message layouts: fields written one after another and read back at fixed offsets. */
module Layouts {
  import opened Results
  import opened Bits
  import opened Integers
  import opened SixBitText
  import opened BitReaders

  datatype Field =
    | Uint(value: uint64, width: nat)
    | Int(number: int64, width: nat)
    | Flag(on: bool)
    | Text(text: string, chars: nat)
    | Spare(width: nat)
    | Raw(bits: BitString)
  {
    function Width(): nat {
      match this
      case Uint(_, w) => w
      case Int(_, w) => w
      case Flag(_) => 1
      case Text(_, n) => 6 * n
      case Spare(w) => w
      case Raw(bits) => |bits|
    }

    /** The bits the writer appends for this field; spare bits are written as zero. */
    function Image(): (b: BitString)
      ensures |b| == Width()
    {
      match this
      case Uint(v, w) => UintBits(v, w)
      case Int(v, w) => UintBits(AsUint64(v), w)
      case Flag(on) => [on]
      case Text(s, n) => TextBits(s, n)
      case Spare(w) => UintBits(0, w)
      case Raw(bits) => bits
    }

    /** The width is one the reader and the writer accept. */
    predicate Writable() {
      ((Uint? || Int? || Spare?) ==> 1 <= width <= 64) && (Raw? ==> |bits| <= 64)
    }

    /** Reading this field's kind at bit offset `o` succeeds and gives this field's value. */
    predicate ReadsAt(b: BitString, o: nat) {
      && o + Width() <= |b|
      && match this
         case Uint(v, w) => UintField(b, o, w) == Success(v)
         case Int(v, w) => IntField(b, o, w) == Success(v)
         case Flag(on) => BoolField(b, o) == Success(on)
         case Text(s, n) => TextField(b, o, n) == Success(s)
         case Spare(w) => 1 <= w <= 64
         case Raw(bits) => BytesField(b, o, |bits|) == Success(Pack(bits))
    }

    /** The value is one the field can hold. */
    predicate Fits() {
      match this
      case Uint(v, w) => 1 <= w <= 64 && v < Pow2(w)
      case Int(v, w) => 1 <= w <= 64 && FitsSigned(v, w)
      case Flag(_) => true
      case Text(s, n) => IsFieldText(s, n)
      case Spare(w) => 1 <= w <= 64
      case Raw(bits) => |bits| <= 64
    }

    /** This field as it reads back after being written. */
    function Kept(): Field
      requires Writable()
    {
      match this
      case Uint(v, w) => Pow2Bound(w); Uint(v % Pow2(w), w)
      case Int(v, w) => Int(Wrap(v, w), w)
      case Flag(on) => Flag(on)
      case Text(s, n) => Text(FieldText(s, n), n)
      case Spare(w) => Spare(w)
      case Raw(bits) => Raw(bits)
    }

    /** The bits this field's kind has in canonical form, given the bits that were read. */
    function CanonicalBits(b: BitString, o: nat): (c: BitString)
      requires o + Width() <= |b|
      ensures |c| == Width()
    {
      match this
      case Spare(w) => Zeros(w)
      case Text(_, n) => CanonicalTextBits(b, o, n)
      case _ => b[o..o + Width()]
    }
  }

  /** The value in the signed `w`-bit range that is congruent to `v` modulo 2^w. */
  function Wrap(v: int64, w: nat): (r: int64)
    requires 1 <= w <= 64
    ensures FitsSigned(r, w)
  {
    var m := AsUint64(v) % Pow2(w);
    Pow2Bound(w);
    SignExtendValue(m, w);
    AsInt64(SignExtend(m, w))
  }

  /** `Wrap` is the congruent value in the signed range, and there is only one. */
  lemma WrapIsTwosComplement(v: int64, w: nat, x: int)
    requires 1 <= w <= 64
    ensures Wrap(v, w) % Pow2(w) == v % Pow2(w)
    ensures FitsSigned(x, w) && x % Pow2(w) == v % Pow2(w) <==> x == Wrap(v, w)
  {
    WrapCases(v, w);
    AsUint64Mod(v, w);
    SubtractModulus(AsUint64(v) % Pow2(w), Pow2(w));
    if FitsSigned(x, w) && x % Pow2(w) == v % Pow2(w) {
      SignedUnique(x, Wrap(v, w), w);
    }
  }

  lemma SignedUnique(x: int, y: int, w: nat)
    requires w >= 1 && FitsSigned(x, w) && FitsSigned(y, w)
    requires x % Pow2(w) == y % Pow2(w)
    ensures x == y
  {
    var h: int := Pow2(w - 1);
    assert Pow2(w) == 2 * h;
    CongruentInWindow(x, y, -h, Pow2(w));
  }

  lemma WrapCases(v: int64, w: nat)
    requires 1 <= w <= 64
    ensures var m := AsUint64(v) % Pow2(w);
            Wrap(v, w) == m || Wrap(v, w) == m - Pow2(w)
  {
    Pow2Bound(w);
    SignExtendValue(AsUint64(v) % Pow2(w), w);
  }

  lemma SubtractModulus(m: nat, p: nat)
    requires m < p
    ensures m % p == m && (m - p) % p == m
  {
    DivModUnique(m, p, 0, m);
    DivModUnique(m - p, p, -1, m);
  }

  lemma AsUint64Mod(v: int64, w: nat)
    requires w <= 64
    ensures AsUint64(v) % Pow2(w) == v % Pow2(w)
  {
    if v < 0 {
      PowersOfTwo();
      Pow2Add(w, 64 - w);
      AddMultiple(v, Pow2(w), Pow2(64 - w));
    }
  }

  lemma AddMultiple(v: int, p: nat, k: nat)
    requires p > 0
    ensures (v + p * k) % p == v % p
  {
    var q, r := v / p, v % p;
    assert p * q + p * k == p * (q + k);
    DivModUnique(v + p * k, p, q + k, r);
  }

  /** Exactly the values that fit the width survive. */
  lemma WrapFixed(v: int64, w: nat)
    requires 1 <= w <= 64
    ensures Wrap(v, w) == v <==> FitsSigned(v, w)
  {
    WrapIsTwosComplement(v, w, v);
  }

  // ------------------------------------------------------------------
  // One field
  // ------------------------------------------------------------------

  lemma ReadBackUint(v: uint64, w: nat, b: BitString, o: nat)
    requires 1 <= w <= 64 && o + w <= |b| && b[o..o + w] == UintBits(v, w)
    ensures UintField(b, o, w) == Success(v % Pow2(w))
  {
    ValueOfUintBits(v, w);
  }

  lemma ReadBackInt(v: int64, w: nat, b: BitString, o: nat)
    requires 1 <= w <= 64 && o + w <= |b| && b[o..o + w] == UintBits(AsUint64(v), w)
    ensures IntField(b, o, w) == Success(Wrap(v, w))
  {
    ValueOfUintBits(AsUint64(v), w);
  }

  /** A field written at offset `o` reads back as its kept value. */
  lemma ReadBackField(f: Field, b: BitString, o: nat)
    requires f.Writable()
    requires o + f.Width() <= |b| && b[o..o + f.Width()] == f.Image()
    ensures f.Kept().ReadsAt(b, o)
  {
    hide UintField, IntField, TextBits, Pack, RawText, StripPad, UintBits, Wrap;
    match f
    case Uint(v, w) =>
      ReadBackUint(v, w, b, o);
    case Int(v, w) =>
      ReadBackInt(v, w, b, o);
    case Flag(on) =>
      assert b[o..o + 1][0] == b[o];
    case Text(s, n) =>
      ReadWrittenText(b, o, s, n);
    case Spare(w) =>
    case Raw(bits) =>
  }

  /** A field keeps its value exactly when the value fits. */
  lemma KeptFixed(f: Field)
    requires f.Writable()
    ensures f.Kept() == f <==> f.Fits()
  {
    match f
    case Uint(v, w) =>
      if v < Pow2(w) { DivModUnique(v, Pow2(w), 0, v); }
    case Int(v, w) => WrapFixed(v, w);
    case Flag(on) =>
    case Text(s, n) => FieldTextFixed(s, n);
    case Spare(w) =>
    case Raw(bits) =>
  }

  /** At most one field of a kind reads at an offset, so a written field reads as itself
      exactly when it fits. */
  lemma ReadsWhenFits(f: Field, b: BitString, o: nat)
    requires o + f.Width() <= |b| && b[o..o + f.Width()] == f.Image()
    ensures f.ReadsAt(b, o) <==> f.Fits()
  {
    if f.Writable() {
      ReadBackField(f, b, o);
      KeptFixed(f);
    }
  }

  /** A field that was read fits, and writing it again gives its canonical bits. */
  lemma RewriteField(f: Field, b: BitString, o: nat)
    requires f.ReadsAt(b, o)
    ensures f.Fits()
    ensures f.Image() == f.CanonicalBits(b, o)
  {
    hide TextBits, Pack, RawText, StripPad, UintBits, IntField, AsUint64;
    match f
    case Uint(v, w) =>
      UintBitsOfValue(b[o..o + w]);
    case Int(v, w) =>
      RewriteInt(b, o, w);
    case Flag(on) =>
    case Text(s, n) =>
      RewriteText(b, o, n);
      ReadTextIsFieldText(b, o, n);
    case Spare(w) => ZeroBits(w);
    case Raw(bits) =>
      RewriteRawBits(bits, b, o);
  }

  lemma PackInjective(x: BitString, y: BitString)
    requires |x| == |y| && Pack(x) == Pack(y)
    ensures x == y
  {
    UnpackPack(x);
    UnpackPack(y);
    assert x == Unpack(Pack(x))[..|x|] == Unpack(Pack(y))[..|y|] == y;
  }

  lemma RewriteRawBits(bits: BitString, b: BitString, o: nat)
    requires o + |bits| <= |b| && BytesField(b, o, |bits|) == Success(Pack(bits))
    ensures |bits| <= 64 && bits == b[o..o + |bits|]
  {
    if bits != [] { PackInjective(bits, b[o..o + |bits|]); }
  }

  lemma RewriteInt(b: BitString, o: nat, w: nat)
    requires 1 <= w <= 64 && o + w <= |b|
    ensures UintBits(AsUint64(IntField(b, o, w).value), w) == b[o..o + w]
  {
    var raw := Value(b[o..o + w]);
    var p := Pow2(w);
    Pow2Bound(w);
    SignExtendValue(raw, w);
    var v := IntField(b, o, w).value;
    DivModUnique(v, p, if v == raw then 0 else -1, raw);
    AsUint64Mod(v, w);
    UintBitsMod(AsUint64(v), w);
    UintBitsOfValue(b[o..o + w]);
  }

  // ------------------------------------------------------------------
  // Layouts
  // ------------------------------------------------------------------

  /** Fields in the order they are written. The builders restate the recursive definitions
      one field at a time. */
  datatype Layout = Empty | Snoc(front: Layout, last: Field) {

    /** Total width, which is the offset of the next field. */
    function End(): nat {
      match this
      case Empty => 0
      case Snoc(l, f) => l.End() + f.Width()
    }

    /** The bits written for the whole layout. */
    function Image(): (b: BitString)
      ensures |b| == End()
    {
      match this
      case Empty => []
      case Snoc(l, f) => l.Image() + f.Image()
    }

    /** Every field reads at the sum of the widths before it. */
    predicate Reads(b: BitString) {
      match this
      case Empty => true
      case Snoc(l, f) => l.Reads(b) && f.ReadsAt(b, l.End())
    }

    predicate Fits() {
      match this
      case Empty => true
      case Snoc(l, f) => l.Fits() && f.Fits()
    }

    /** This layout's fields in canonical form, given bits that were read. */
    function Canonical(b: BitString): (c: BitString)
      requires End() <= |b|
      ensures |c| == End()
    {
      match this
      case Empty => []
      case Snoc(l, f) => l.Canonical(b) + f.CanonicalBits(b, l.End())
    }

    function Add(f: Field): (l: Layout)
      ensures l.End() == End() + f.Width()
      ensures forall b {:trigger l.Reads(b)} :: l.Reads(b) == (Reads(b) && f.ReadsAt(b, End()))
    {
      Snoc(this, f)
    }

    /** An unsigned number. */
    function U(value: uint64, width: nat): (l: Layout)
      ensures l.End() == End() + width
      ensures forall b {:trigger l.Reads(b)} ::
                l.Reads(b) == (Reads(b) && UintField(b, End(), width) == Success(value))
    {
      Snoc(this, Uint(value, width))
    }

    /** A signed number. */
    function I(number: int64, width: nat): (l: Layout)
      ensures l.End() == End() + width
      ensures forall b {:trigger l.Reads(b)} ::
                l.Reads(b) == (Reads(b) && IntField(b, End(), width) == Success(number))
    {
      Snoc(this, Int(number, width))
    }

    /** A flag. */
    function B(on: bool): (l: Layout)
      ensures l.End() == End() + 1
      ensures forall b {:trigger l.Reads(b)} ::
                l.Reads(b) == (Reads(b) && BoolField(b, End()) == Success(on))
    {
      Snoc(this, Flag(on))
    }

    /** A text of `chars` 6-bit characters. */
    function T(text: string, chars: nat): (l: Layout)
      ensures l.End() == End() + 6 * chars
      ensures forall b {:trigger l.Reads(b)} ::
                l.Reads(b) == (Reads(b) && End() + 6 * chars <= |b| &&
                               TextField(b, End(), chars) == Success(text))
    {
      Snoc(this, Text(text, chars))
    }

    /** Spare or reserved bits. */
    function Gap(width: nat): (l: Layout)
      ensures l.End() == End() + width
      ensures forall b {:trigger l.Reads(b)} ::
                l.Reads(b) == (Reads(b) && 1 <= width <= 64 && End() + width <= |b|)
    {
      Snoc(this, Spare(width))
    }
  }

  /** The field written after a layout reads back, at the sum of the earlier widths, as its
      kept value, whatever is appended later. */
  lemma ReadBackInLayout(l: Layout, f: Field, later: BitString)
    requires f.Writable()
    ensures f.Kept().ReadsAt(l.Image() + f.Image() + later, l.End())
  {
    var b := l.Image() + f.Image() + later;
    assert b[l.End()..l.End() + f.Width()] == f.Image();
    ReadBackField(f, b, l.End());
  }

  /** A written layout reads back as itself exactly when every value fits its field. */
  lemma {:induction false} LayoutReadsBack(l: Layout, b: BitString)
    requires l.Image() <= b
    ensures l.Reads(b) <==> l.Fits()
  {
    match l
    case Empty =>
    case Snoc(front, f) =>
      assert front.Image() <= b;
      LayoutReadsBack(front, b);
      assert b[front.End()..l.End()] == f.Image();
      ReadsWhenFits(f, b, front.End());
  }

  /** A layout that was read fits, and writing it again gives the canonical bits. */
  lemma {:induction false} RewriteLayout(l: Layout, b: BitString)
    requires l.Reads(b)
    ensures l.Fits() && l.End() <= |b|
    ensures l.Image() == l.Canonical(b)
  {
    match l
    case Empty =>
    case Snoc(front, f) =>
      RewriteLayout(front, b);
      RewriteField(f, b, front.End());
  }
}
