/** Reading fields out of a packed byte buffer. */
module BitReaders {
  import opened Results
  import opened Bits
  import opened Integers
  import opened SixBitText

  // ------------------------------------------------------------------
  // What each read returns, as a function of the buffer's bits
  // ------------------------------------------------------------------

  function CheckBounds(b: BitString, o: nat, w: nat): Outcome {
    if w == 0 || w > 64 then Failed(BitfieldWidthInvalid)
    else if o + w > |b| then Failed(BitfieldOutOfRange)
    else Done
  }

  function UintField(b: BitString, o: nat, w: nat): (r: Result<uint64>)
    ensures r.Success? <==> 1 <= w <= 64 && o + w <= |b|
    ensures r.Failure? ==> r.error == if 1 <= w <= 64 then BitfieldOutOfRange else BitfieldWidthInvalid
    ensures r.Success? ==> r.value < Pow2(w)
  {
    match CheckBounds(b, o, w)
    case Failed(e) => Failure(e)
    case Done => Pow2Bound(w); Success(Value(b[o..o + w]))
  }

  function IntField(b: BitString, o: nat, w: nat): (r: Result<int64>)
    ensures r.Success? <==> 1 <= w <= 64 && o + w <= |b|
    ensures r.Failure? ==> r.error == if 1 <= w <= 64 then BitfieldOutOfRange else BitfieldWidthInvalid
    ensures r.Success? ==> FitsSigned(r.value, w)
  {
    match CheckBounds(b, o, w)
    case Failed(e) => Failure(e)
    case Done =>
      Pow2Bound(w);
      SignExtendValue(Value(b[o..o + w]), w);
      Success(AsInt64(SignExtend(Value(b[o..o + w]), w)))
  }

  function BoolField(b: BitString, o: nat): (r: Result<bool>)
    ensures r == if o < |b| then Success(b[o]) else Failure(BitfieldOutOfRange)
  {
    match CheckBounds(b, o, 1)
    case Failed(e) => Failure(e)
    case Done => Success(b[o])
  }

  function TextField(b: BitString, o: nat, n: nat): (r: Result<string>)
    ensures r.Success? <==> n == 0 || o + 6 * n <= |b|
    ensures r.Failure? ==> r.error == BitfieldOutOfRange
  {
    if n == 0 then Success("")
    else if o + n * 6 > |b| then Failure(BitfieldOutOfRange)
    else Success(StripPad(RawText(b, o, n)))
  }

  function BytesField(b: BitString, o: nat, w: nat): (r: Result<seq<bv8>>)
    ensures r.Success? <==> w == 0 || (w <= 64 && o + w <= |b|)
    ensures r.Failure? ==> r.error == if w <= 64 then BitfieldOutOfRange else BitfieldWidthInvalid
    ensures r.Success? ==> |r.value| == ByteCount(w)
  {
    if w == 0 then Success([])
    else
      match CheckBounds(b, o, w)
      case Failed(e) => Failure(e)
      case Done => Success(Pack(b[o..o + w]))
  }

  /** A flag read as a one-bit unsigned field is the bit that `BoolField` reads. */
  lemma OneBitFields(b: BitString)
    ensures forall o: nat {:trigger UintField(b, o, 1)} | o < |b| ::
              UintField(b, o, 1) == Success(Bit(BoolField(b, o).value))
  {
    forall o: nat | o < |b|
      ensures UintField(b, o, 1) == Success(Bit(b[o]))
    {
      ValueStep(b, o, 0);
      assert b[o..o] == [];
    }
  }

  /** The loop of `read_text` that drops trailing padding. */
  method StripTrailing(s: string) returns (result: string)
    ensures result == StripPad(s)
  {
    result := s;
    while result != "" && IsPad(result[|result| - 1])
      invariant StripPad(result) == StripPad(s)
      decreases |result|
    {
      result := result[..|result| - 1];
    }
  }

  // ------------------------------------------------------------------
  // The reader
  // ------------------------------------------------------------------

  /** A read-only view of a byte buffer. */
  datatype BitReader = BitReader(buf: seq<bv8>) {

    function Bits(): BitString { Unpack(buf) }

    function BitLength(): nat { |buf| * 8 }

    function Uint(o: nat, w: nat): Result<uint64> { UintField(Bits(), o, w) }

    function Int(o: nat, w: nat): Result<int64> { IntField(Bits(), o, w) }

    function Bool(o: nat): Result<bool> { BoolField(Bits(), o) }

    function Text(o: nat, n: nat): Result<string> { TextField(Bits(), o, n) }

    method ReadUint(offset: nat, width: nat) returns (r: Result<uint64>)
      ensures r == Uint(offset, width)
    {
      var ec := CheckBounds(Bits(), offset, width);
      if ec.Failed? {
        return Failure(ec.error);
      }
      Pow2Bound(width);
      var value := ReadValue(offset, width);
      return Success(value);
    }

    method ReadInt(offset: nat, width: nat) returns (r: Result<int64>)
      ensures r == Int(offset, width)
    {
      var ec := CheckBounds(Bits(), offset, width);
      if ec.Failed? {
        return Failure(ec.error);
      }
      Pow2Bound(width);
      var raw := ReadValue(offset, width);
      return Success(AsInt64(SignExtend(raw, width)));
    }

    method ReadBool(offset: nat) returns (r: Result<bool>)
      ensures r == Bool(offset)
    {
      var ec := CheckBounds(Bits(), offset, 1);
      if ec.Failed? {
        return Failure(ec.error);
      }
      return Success(BufferBit(buf, offset));
    }

    /** The loop shared by the multi-bit reads: shift in one bit at a time. */
    method ReadValue(offset: nat, width: nat) returns (value: nat)
      requires offset + width <= BitLength()
      ensures value == Value(Bits()[offset..offset + width])
    {
      hide BufferBit, Value;
      ghost var b := Bits();
      ValueEmpty();
      value := 0;
      assert b[offset..offset] == [];
      for i := 0 to width
        invariant value == Value(b[offset..offset + i])
      {
        ValueStep(b, offset, i);
        value := value * 2 + Bit(BufferBit(buf, offset + i));
      }
    }

    method ReadText(offset: nat, charCount: nat) returns (r: Result<string>)
      ensures r == Text(offset, charCount)
    {
      if charCount == 0 {
        return Success("");
      }
      var totalBits := charCount * 6;
      if offset + totalBits > BitLength() {
        return Failure(BitfieldOutOfRange);
      }
      var raw := ReadChars(offset, charCount);
      var result := StripTrailing(raw);
      return Success(result);
    }

    /** The loop of `read_text` before its padding is stripped. */
    method ReadChars(offset: nat, charCount: nat) returns (result: string)
      requires offset + 6 * charCount <= BitLength()
      ensures result == RawText(Bits(), offset, charCount)
    {
      hide Unpack, Value;
      result := "";
      for i := 0 to charCount
        invariant result == RawText(Bits(), offset, i)
      {
        var raw := ReadValue(offset + i * 6, 6);
        assert raw == SixAt(Bits(), offset, i);
        result := result + [SixToAscii(raw)];
      }
    }

    method ReadBits(offset: nat, width: nat) returns (r: Result<seq<bv8>>)
      ensures r == BytesField(Bits(), offset, width)
    {
      if width == 0 {
        return Success([]);
      }
      var ec := CheckBounds(Bits(), offset, width);
      if ec.Failed? {
        return Failure(ec.error);
      }
      var result := new bv8[ByteCount(width)](_ => 0);
      PackInEmpty(result.Length);
      CopyBits(offset, width, result);
      return Success(result[..]);
    }

    /** The loop of `read_bits`, on a zeroed buffer. */
    method CopyBits(offset: nat, width: nat, result: array<bv8>)
      requires offset + width <= BitLength() && width <= 8 * result.Length
      requires result[..] == PackIn([], result.Length)
      modifies result
      ensures result[..] == PackIn(Bits()[offset..offset + width], result.Length)
    {
      hide PackIn, BufferBit;
      ghost var b := Bits()[offset..offset + width];
      assert b[..0] == [];
      for i := 0 to width
        invariant result[..] == PackIn(b[..i], result.Length)
      {
        OrBitAt(result, i, BufferBit(buf, offset + i), b[..i]);
        assert b[..i] + [b[i]] == b[..i + 1];
      }
      assert b[..width] == b;
    }
  }
}
