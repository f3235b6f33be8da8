/** Message type 19: extended class B position report. */
module Msg19 {
  import opened Results
  import opened Bits
  import opened Integers
  import opened BitReaders
  import opened BitWriters
  import opened Layouts
  import opened Payloads
  import opened MessageTypes

  const LENGTH: nat := 312

  datatype ExtendedClassBPositionReport = ExtendedClassBPositionReport(
    mmsi: uint32, repeatIndicator: uint8, sog: uint16, positionAccuracy: bool, longitude: int32,
    latitude: int32, cog: uint16, trueHeading: uint16, timeStamp: uint8,
    regionalReserved: uint8, name: string, shipType: uint8, dimBow: uint16, dimStern: uint16,
    dimPort: uint8, dimStarboard: uint8, epfdType: uint8, raim: bool, dte: bool,
    assignedMode: bool)
  {
    function Fields(): (l: Layout)
      ensures l.End() == 312
    {
      Header(EXTENDED_CLASS_B_POSITION_REPORT, repeatIndicator, mmsi).Gap(10).U(sog, 10)
      .B(positionAccuracy).I(longitude, 28).I(latitude, 27).U(cog, 12).U(trueHeading, 9)
      .U(timeStamp, 6).U(regionalReserved, 4).T(name, 20).U(shipType, 8).U(dimBow, 9)
      .U(dimStern, 9).U(dimPort, 6).U(dimStarboard, 6).U(epfdType, 4).B(raim).B(dte)
      .B(assignedMode).Gap(2)
    }

    function Type(): MessageType { EXTENDED_CLASS_B_POSITION_REPORT }

    method Encode() returns (r: Result<(string, nat)>)
      ensures r == EncodedFields(Fields(), LENGTH)
    {
      var w := new BitWriter();
      var s := w.WriteUint(EXTENDED_CLASS_B_POSITION_REPORT, 6); assert s.Done?;
      s := w.WriteUint(repeatIndicator, 2); assert s.Done?;
      s := w.WriteUint(mmsi, 30); assert s.Done?;
      s := w.WriteSpare(10); assert s.Done?;
      s := w.WriteUint(sog, 10); assert s.Done?;
      s := w.WriteBool(positionAccuracy); assert s.Done?;
      s := w.WriteInt(longitude, 28); assert s.Done?;
      s := w.WriteInt(latitude, 27); assert s.Done?;
      s := w.WriteUint(cog, 12); assert s.Done?;
      s := w.WriteUint(trueHeading, 9); assert s.Done?;
      s := w.WriteUint(timeStamp, 6); assert s.Done?;
      s := w.WriteUint(regionalReserved, 4); assert s.Done?;
      s := w.WriteText(name, 20); assert s.Done?;
      s := w.WriteUint(shipType, 8); assert s.Done?;
      s := w.WriteUint(dimBow, 9); assert s.Done?;
      s := w.WriteUint(dimStern, 9); assert s.Done?;
      s := w.WriteUint(dimPort, 6); assert s.Done?;
      s := w.WriteUint(dimStarboard, 6); assert s.Done?;
      s := w.WriteUint(epfdType, 4); assert s.Done?;
      s := w.WriteBool(raim); assert s.Done?;
      s := w.WriteBool(dte); assert s.Done?;
      s := w.WriteBool(assignedMode); assert s.Done?;
      s := w.WriteSpare(2); assert s.Done?;
      r := EncodePayload(w.buf, LENGTH);
    }
  }

  function Decode(reader: BitReader): Result<ExtendedClassBPositionReport> {
    if reader.BitLength() < LENGTH then Failure(PayloadTooShort)
    else
      var typeId :- reader.Uint(0, 6);
      if TypeFromId(U8(typeId)) != EXTENDED_CLASS_B_POSITION_REPORT then Failure(MessageDecodeFailure)
      else
        var repeatIndicator :- reader.Uint(6, 2);
        var mmsi :- reader.Uint(8, 30);
        var sog :- reader.Uint(48, 10);
        var positionAccuracy :- reader.Uint(58, 1);
        var longitude :- reader.Int(59, 28);
        var latitude :- reader.Int(87, 27);
        var cog :- reader.Uint(114, 12);
        var trueHeading :- reader.Uint(126, 9);
        var timeStamp :- reader.Uint(135, 6);
        var regionalReserved :- reader.Uint(141, 4);
        var name :- reader.Text(145, 20);
        var shipType :- reader.Uint(265, 8);
        var dimBow :- reader.Uint(273, 9);
        var dimStern :- reader.Uint(282, 9);
        var dimPort :- reader.Uint(291, 6);
        var dimStarboard :- reader.Uint(297, 6);
        var epfdType :- reader.Uint(303, 4);
        var raim :- reader.Uint(307, 1);
        var dte :- reader.Uint(308, 1);
        var assignedMode :- reader.Uint(309, 1);
        Success(ExtendedClassBPositionReport(
          U32(mmsi), U8(repeatIndicator), U16(sog), positionAccuracy != 0, I32(longitude),
          I32(latitude), U16(cog), U16(trueHeading), U8(timeStamp), U8(regionalReserved), name,
          U8(shipType), U16(dimBow), U16(dimStern), U8(dimPort), U8(dimStarboard), U8(epfdType),
          raim != 0, dte != 0, assignedMode != 0))
  }

  /** Decoding gives `m` exactly when the payload is long enough and every field of `m`,
      in the order `Encode` writes them, reads at the sum of the widths before it. */
  lemma DecodeReadsFields(reader: BitReader, m: ExtendedClassBPositionReport)
    ensures Decode(reader) == Success(m) <==>
            && reader.BitLength() >= LENGTH
            && m.Fields().Reads(reader.Bits())
  {
    hide UintField, IntField, TextField, BoolField, Unpack, Pow2, U8, U16, U32, I8, I32;
    hide Layout.Reads, Layout.End, Field.ReadsAt, Header, Layout.U, Layout.I, Layout.B, Layout.T, Layout.Gap;
    PowersOfTwo();
    OneBitFields(reader.Bits());
    if Decode(reader) == Success(m) {
      assert m.Fields().Reads(reader.Bits());
    }
  }

  /** A payload that is long enough decodes unless it is of another type. */
  lemma DecodeOutcome(reader: BitReader)
    ensures reader.BitLength() < LENGTH ==> Decode(reader) == Failure(PayloadTooShort)
    ensures reader.BitLength() >= LENGTH ==>
              && reader.Uint(0, 6).Success?
              && var id := reader.Uint(0, 6).value;
                 if id == EXTENDED_CLASS_B_POSITION_REPORT then
                   Decode(reader).Success? && Decode(reader).value.Type() == id
                 else Decode(reader) == Failure(MessageDecodeFailure)
  {
    hide UintField, IntField, TextField, BoolField, Unpack, Pow2, U16, U32, I8, I32;
    PowersOfTwo();
  }
}
