/** Appending fields to a packed byte buffer. */
module BitWriters {
  import opened Results
  import opened Bits
  import opened Integers
  import opened SixBitText
  import opened Layouts

  /** A growing byte buffer that holds a bit string, most significant bit first.
      `push_bit` only ORs into the last byte, so the bits after the string must be zero. */
  class BitWriter {
    var buf: seq<bv8>
    var bitLength: nat
    ghost var written: Layout

    /** The bits of the fields written so far. */
    ghost function Contents(): BitString
      reads this
    {
      written.Image()
    }

    /** The buffer is the contents packed into as few bytes as hold them, zero-padded. */
    ghost predicate Valid()
      reads this
    {
      bitLength == |Contents()| && buf == Pack(Contents())
    }

    constructor ()
      ensures Valid() && written == Empty
    {
      buf, bitLength, written := [], 0, Empty;
    }

    method PushBit(bit: bool)
      requires Valid()
      modifies this
      ensures Valid()
      ensures written == old(written).Add(Raw([bit]))
      ensures Contents() == old(Contents()) + [bit]
    {
      hide PackIn, OrBit;
      var byteIdx, bitPos := bitLength / 8, 7 - bitLength % 8;
      if byteIdx >= |buf| {
        PackInGrow(Contents(), |buf|);
        buf := buf + [0];
      }
      PackInPush(Contents(), bit, |buf|);
      buf := buf[byteIdx := OrBit(buf[byteIdx], bitPos, bit)];
      bitLength := bitLength + 1;
      written := written.Add(Raw([bit]));
    }

    method WriteUint(value: uint64, width: nat) returns (r: Outcome)
      requires Valid()
      modifies this
      ensures Valid()
      ensures r == if 1 <= width <= 64 then Done else Failed(BitfieldWidthInvalid)
      ensures written == if r.Done? then old(written).U(value, width) else old(written)
    {
      if width == 0 || width > 64 {
        return Failed(BitfieldWidthInvalid);
      }
      PushUint(value, width);
      written := old(written).U(value, width);
      return Done;
    }

    /** The loop of `write_uint`: push the bits from the most significant one down. */
    method PushUint(value: uint64, width: nat)
      requires Valid()
      modifies this
      ensures Valid()
      ensures Contents() == old(Contents()) + UintBits(value, width)
    {
      hide UintBits, Pack, Pow2;
      ghost var bits := UintBits(value, width);
      for i := width downto 0
        invariant Valid()
        invariant Contents() == old(Contents()) + bits[..width - i]
      {
        UintBitAt(value, width, width - 1 - i);
        PushBit((value / Pow2(i)) % 2 == 1);
        ConcatAssoc(old(Contents()), bits[..width - 1 - i], [bits[width - 1 - i]]);
        assert bits[..width - i] == bits[..width - 1 - i] + [bits[width - 1 - i]];
      }
      assert bits[..width] == bits;
    }

    /** Spare and reserved bits: an unsigned zero that the decoder ignores. */
    method WriteSpare(width: nat) returns (r: Outcome)
      requires Valid()
      modifies this
      ensures Valid()
      ensures r == if 1 <= width <= 64 then Done else Failed(BitfieldWidthInvalid)
      ensures written == if r.Done? then old(written).Gap(width) else old(written)
    {
      r := WriteUint(0, width);
      if r.Done? {
        written := old(written).Gap(width);
      }
    }

    method WriteInt(value: int64, width: nat) returns (r: Outcome)
      requires Valid()
      modifies this
      ensures Valid()
      ensures r == if 1 <= width <= 64 then Done else Failed(BitfieldWidthInvalid)
      ensures written == if r.Done? then old(written).I(value, width) else old(written)
    {
      if width == 0 || width > 64 {
        return Failed(BitfieldWidthInvalid);
      }
      r := WriteUint(AsUint64(value), width);
      written := old(written).I(value, width);
    }

    method WriteBool(value: bool) returns (r: Outcome)
      requires Valid()
      modifies this
      ensures Valid() && r == Done
      ensures written == old(written).B(value)
    {
      PushBit(value);
      written := old(written).B(value);
      return Done;
    }

    method WriteText(text: string, charCount: nat) returns (r: Outcome)
      requires Valid()
      modifies this
      ensures Valid() && r == Done
      ensures written == old(written).T(text, charCount)
    {
      for i := 0 to charCount
        invariant Valid()
        invariant Contents() == old(Contents()) + TextBits(text, i)
      {
        var ch := if i < |text| then text[i] else '@';
        var six := WriteUint(AsciiToSix(ch), 6); assert six.Done?;
        ConcatAssoc(old(Contents()), TextBits(text, i), UintBits(AsciiToSix(ch), 6));
      }
      written := old(written).T(text, charCount);
      return Done;
    }

    method WriteBits(src: seq<bv8>, width: nat) returns (r: Outcome)
      requires Valid()
      modifies this
      ensures Valid()
      ensures r == if width <= 8 * |src| then Done else Failed(BitfieldOutOfRange)
      ensures r.Done? && width > 0 ==> written == old(written).Add(Raw(Unpack(src)[..width]))
      ensures r.Failed? || width == 0 ==> written == old(written)
    {
      if width == 0 {
        return Done;
      }
      if |src| < ByteCount(width) {
        return Failed(BitfieldOutOfRange);
      }
      assert width <= 8 * |src|;
      hide Pack, ByteCount, BufferBit;
      ghost var bits := Unpack(src)[..width];
      assert forall i {:trigger bits[i]} :: 0 <= i < width ==> bits[i] == BufferBit(src, i);
      hide Unpack;
      for i := 0 to width
        invariant Valid()
        invariant Contents() == old(Contents()) + bits[..i]
      {
        PushBit(BufferBit(src, i));
        ConcatAssoc(old(Contents()), bits[..i], [bits[i]]);
        assert bits[..i + 1] == bits[..i] + [bits[i]];
      }
      assert bits[..width] == bits;
      written := old(written).Add(Raw(bits));
      return Done;
    }
  }

  /** What the writer's representation says about its bytes: there are as many as the bits
      need, the first bits are the contents and the bits that pad the last byte are zero. */
  lemma PackedBytes(contents: BitString, i: nat)
    requires i < 8 * |Pack(contents)|
    ensures |Pack(contents)| == ByteCount(|contents|)
    ensures BufferBit(Pack(contents), i) == (i < |contents| && contents[i])
  {
    UnpackPack(contents);
    assert BufferBit(Pack(contents), i) == Unpack(Pack(contents))[i];
  }
}
