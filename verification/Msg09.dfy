/** Message type 9: standard SAR aircraft position report. */
module Msg09 {
  import opened Results
  import opened Bits
  import opened Integers
  import opened BitReaders
  import opened BitWriters
  import opened Layouts
  import opened Payloads
  import opened MessageTypes

  const LENGTH: nat := 168

  datatype SarPositionReport = SarPositionReport(
    mmsi: uint32, repeatIndicator: uint8, altitude: uint16, sog: uint16, positionAccuracy: bool,
    longitude: int32, latitude: int32, cog: uint16, timeStamp: uint8, regionalReserved: uint8,
    dte: bool, assignedMode: bool, raim: bool, radioStatus: uint32)
  {
    function Fields(): (l: Layout)
      ensures l.End() == 168
    {
      Header(STANDARD_SAR_POSITION_REPORT, repeatIndicator, mmsi).U(altitude, 12).U(sog, 10)
      .B(positionAccuracy).I(longitude, 28).I(latitude, 27).U(cog, 12).U(timeStamp, 6)
      .U(regionalReserved, 6).B(dte).Gap(5).B(assignedMode).B(raim).U(radioStatus, 20)
    }

    function Type(): MessageType { STANDARD_SAR_POSITION_REPORT }

    method Encode() returns (r: Result<(string, nat)>)
      ensures r == EncodedFields(Fields(), LENGTH)
    {
      var w := new BitWriter();
      var s := w.WriteUint(STANDARD_SAR_POSITION_REPORT, 6); assert s.Done?;
      s := w.WriteUint(repeatIndicator, 2); assert s.Done?;
      s := w.WriteUint(mmsi, 30); assert s.Done?;
      s := w.WriteUint(altitude, 12); assert s.Done?;
      s := w.WriteUint(sog, 10); assert s.Done?;
      s := w.WriteBool(positionAccuracy); assert s.Done?;
      s := w.WriteInt(longitude, 28); assert s.Done?;
      s := w.WriteInt(latitude, 27); assert s.Done?;
      s := w.WriteUint(cog, 12); assert s.Done?;
      s := w.WriteUint(timeStamp, 6); assert s.Done?;
      s := w.WriteUint(regionalReserved, 6); assert s.Done?;
      s := w.WriteBool(dte); assert s.Done?;
      s := w.WriteSpare(5); assert s.Done?;
      s := w.WriteBool(assignedMode); assert s.Done?;
      s := w.WriteBool(raim); assert s.Done?;
      s := w.WriteUint(radioStatus, 20); assert s.Done?;
      r := EncodePayload(w.buf, LENGTH);
    }
  }

  function Decode(reader: BitReader): Result<SarPositionReport> {
    if reader.BitLength() < LENGTH then Failure(PayloadTooShort)
    else
      var typeId :- reader.Uint(0, 6);
      if TypeFromId(U8(typeId)) != STANDARD_SAR_POSITION_REPORT then Failure(MessageDecodeFailure)
      else
        var repeatIndicator :- reader.Uint(6, 2);
        var mmsi :- reader.Uint(8, 30);
        var altitude :- reader.Uint(38, 12);
        var sog :- reader.Uint(50, 10);
        var positionAccuracy :- reader.Uint(60, 1);
        var longitude :- reader.Int(61, 28);
        var latitude :- reader.Int(89, 27);
        var cog :- reader.Uint(116, 12);
        var timeStamp :- reader.Uint(128, 6);
        var regionalReserved :- reader.Uint(134, 6);
        var dte :- reader.Uint(140, 1);
        var assignedMode :- reader.Uint(146, 1);
        var raim :- reader.Uint(147, 1);
        var radioStatus :- reader.Uint(148, 20);
        Success(SarPositionReport(
          U32(mmsi), U8(repeatIndicator), U16(altitude), U16(sog), positionAccuracy != 0,
          I32(longitude), I32(latitude), U16(cog), U8(timeStamp), U8(regionalReserved),
          dte != 0, assignedMode != 0, raim != 0, U32(radioStatus)))
  }

  /** Decoding gives `m` exactly when the payload is long enough and every field of `m`,
      in the order `Encode` writes them, reads at the sum of the widths before it. */
  lemma DecodeReadsFields(reader: BitReader, m: SarPositionReport)
    ensures Decode(reader) == Success(m) <==>
            && reader.BitLength() >= LENGTH
            && m.Fields().Reads(reader.Bits())
  {
    hide UintField, IntField, BoolField, Unpack, Pow2, U8, U16, U32, I8, I32;
    hide Layout.Reads, Layout.End, Field.ReadsAt, Header, Layout.U, Layout.I, Layout.B, Layout.T, Layout.Gap;
    PowersOfTwo();
    OneBitFields(reader.Bits());
    if Decode(reader) == Success(m) {
      assert m.Fields().Reads(reader.Bits());
    }
  }

  /** A payload that is long enough decodes unless it is of another type. */
  lemma DecodeOutcome(reader: BitReader)
    ensures reader.BitLength() < LENGTH ==> Decode(reader) == Failure(PayloadTooShort)
    ensures reader.BitLength() >= LENGTH ==>
              && reader.Uint(0, 6).Success?
              && var id := reader.Uint(0, 6).value;
                 if id == STANDARD_SAR_POSITION_REPORT then
                   Decode(reader).Success? && Decode(reader).value.Type() == id
                 else Decode(reader) == Failure(MessageDecodeFailure)
  {
    hide UintField, IntField, BoolField, Unpack, Pow2, U16, U32, I8, I32;
    PowersOfTwo();
  }
}
