/** Message type 10: UTC/date inquiry. */
module Msg10 {
  import opened Results
  import opened Bits
  import opened Integers
  import opened BitReaders
  import opened BitWriters
  import opened Layouts
  import opened Payloads
  import opened MessageTypes

  const LENGTH: nat := 72

  datatype UtcDateInquiry = UtcDateInquiry(
    mmsi: uint32, repeatIndicator: uint8, destinationMmsi: uint32)
  {
    function Fields(): (l: Layout)
      ensures l.End() == 72
    {
      Header(UTC_DATE_INQUIRY, repeatIndicator, mmsi).Gap(2).U(destinationMmsi, 30).Gap(2)
    }

    function Type(): MessageType { UTC_DATE_INQUIRY }

    method Encode() returns (r: Result<(string, nat)>)
      ensures r == EncodedFields(Fields(), LENGTH)
    {
      var w := new BitWriter();
      var s := w.WriteUint(UTC_DATE_INQUIRY, 6); assert s.Done?;
      s := w.WriteUint(repeatIndicator, 2); assert s.Done?;
      s := w.WriteUint(mmsi, 30); assert s.Done?;
      s := w.WriteSpare(2); assert s.Done?;
      s := w.WriteUint(destinationMmsi, 30); assert s.Done?;
      s := w.WriteSpare(2); assert s.Done?;
      r := EncodePayload(w.buf, LENGTH);
    }
  }

  function Decode(reader: BitReader): Result<UtcDateInquiry> {
    if reader.BitLength() < LENGTH then Failure(PayloadTooShort)
    else
      var typeId :- reader.Uint(0, 6);
      if TypeFromId(U8(typeId)) != UTC_DATE_INQUIRY then Failure(MessageDecodeFailure)
      else
        var repeatIndicator :- reader.Uint(6, 2);
        var mmsi :- reader.Uint(8, 30);
        var destinationMmsi :- reader.Uint(40, 30);
        Success(UtcDateInquiry(
          U32(mmsi), U8(repeatIndicator), U32(destinationMmsi)))
  }

  /** Decoding gives `m` exactly when the payload is long enough and every field of `m`,
      in the order `Encode` writes them, reads at the sum of the widths before it. */
  lemma DecodeReadsFields(reader: BitReader, m: UtcDateInquiry)
    ensures Decode(reader) == Success(m) <==>
            && reader.BitLength() >= LENGTH
            && m.Fields().Reads(reader.Bits())
  {
    hide UintField, Unpack, Pow2, U8, U16, U32;
    hide Layout.Reads, Layout.End, Field.ReadsAt, Header, Layout.U, Layout.I, Layout.B, Layout.T, Layout.Gap;
    PowersOfTwo();
    if Decode(reader) == Success(m) {
      assert m.Fields().Reads(reader.Bits());
    }
  }

  /** A payload that is long enough decodes unless it is of another type. */
  lemma DecodeOutcome(reader: BitReader)
    ensures reader.BitLength() < LENGTH ==> Decode(reader) == Failure(PayloadTooShort)
    ensures reader.BitLength() >= LENGTH ==>
              && reader.Uint(0, 6).Success?
              && var id := reader.Uint(0, 6).value;
                 if id == UTC_DATE_INQUIRY then
                   Decode(reader).Success? && Decode(reader).value.Type() == id
                 else Decode(reader) == Failure(MessageDecodeFailure)
  {
    hide UintField, Unpack, Pow2, U16, U32;
    PowersOfTwo();
  }
}
