/** Message type 18: standard class B position report. */
module Msg18 {
  import opened Results
  import opened Bits
  import opened Integers
  import opened BitReaders
  import opened BitWriters
  import opened Layouts
  import opened Payloads
  import opened MessageTypes

  const LENGTH: nat := 168

  datatype ClassBPositionReport = ClassBPositionReport(
    mmsi: uint32, repeatIndicator: uint8, sog: uint16, positionAccuracy: bool, longitude: int32,
    latitude: int32, cog: uint16, trueHeading: uint16, timeStamp: uint8,
    regionalReserved: uint8, csFlag: bool, displayFlag: bool, dscFlag: bool, bandFlag: bool,
    msg22Flag: bool, assignedMode: bool, raim: bool, radioStatus: uint32)
  {
    function Fields(): (l: Layout)
      ensures l.End() == 168
    {
      Header(STANDARD_CLASS_B_POSITION_REPORT, repeatIndicator, mmsi).Gap(8).U(sog, 10)
      .B(positionAccuracy).I(longitude, 28).I(latitude, 27).U(cog, 12).U(trueHeading, 9)
      .U(timeStamp, 6).U(regionalReserved, 2).B(csFlag).B(displayFlag).B(dscFlag).B(bandFlag)
      .B(msg22Flag).B(assignedMode).B(raim).U(radioStatus, 20)
    }

    function Type(): MessageType { STANDARD_CLASS_B_POSITION_REPORT }

    method Encode() returns (r: Result<(string, nat)>)
      ensures r == EncodedFields(Fields(), LENGTH)
    {
      var w := new BitWriter();
      var s := w.WriteUint(STANDARD_CLASS_B_POSITION_REPORT, 6); assert s.Done?;
      s := w.WriteUint(repeatIndicator, 2); assert s.Done?;
      s := w.WriteUint(mmsi, 30); assert s.Done?;
      s := w.WriteSpare(8); assert s.Done?;
      s := w.WriteUint(sog, 10); assert s.Done?;
      s := w.WriteBool(positionAccuracy); assert s.Done?;
      s := w.WriteInt(longitude, 28); assert s.Done?;
      s := w.WriteInt(latitude, 27); assert s.Done?;
      s := w.WriteUint(cog, 12); assert s.Done?;
      s := w.WriteUint(trueHeading, 9); assert s.Done?;
      s := w.WriteUint(timeStamp, 6); assert s.Done?;
      s := w.WriteUint(regionalReserved, 2); assert s.Done?;
      s := w.WriteBool(csFlag); assert s.Done?;
      s := w.WriteBool(displayFlag); assert s.Done?;
      s := w.WriteBool(dscFlag); assert s.Done?;
      s := w.WriteBool(bandFlag); assert s.Done?;
      s := w.WriteBool(msg22Flag); assert s.Done?;
      s := w.WriteBool(assignedMode); assert s.Done?;
      s := w.WriteBool(raim); assert s.Done?;
      s := w.WriteUint(radioStatus, 20); assert s.Done?;
      r := EncodePayload(w.buf, LENGTH);
    }
  }

  function Decode(reader: BitReader): Result<ClassBPositionReport> {
    if reader.BitLength() < LENGTH then Failure(PayloadTooShort)
    else
      var typeId :- reader.Uint(0, 6);
      if TypeFromId(U8(typeId)) != STANDARD_CLASS_B_POSITION_REPORT then Failure(MessageDecodeFailure)
      else
        var repeatIndicator :- reader.Uint(6, 2);
        var mmsi :- reader.Uint(8, 30);
        var sog :- reader.Uint(46, 10);
        var positionAccuracy :- reader.Uint(56, 1);
        var longitude :- reader.Int(57, 28);
        var latitude :- reader.Int(85, 27);
        var cog :- reader.Uint(112, 12);
        var trueHeading :- reader.Uint(124, 9);
        var timeStamp :- reader.Uint(133, 6);
        var regionalReserved :- reader.Uint(139, 2);
        var csFlag :- reader.Uint(141, 1);
        var displayFlag :- reader.Uint(142, 1);
        var dscFlag :- reader.Uint(143, 1);
        var bandFlag :- reader.Uint(144, 1);
        var msg22Flag :- reader.Uint(145, 1);
        var assignedMode :- reader.Uint(146, 1);
        var raim :- reader.Uint(147, 1);
        var radioStatus :- reader.Uint(148, 20);
        Success(ClassBPositionReport(
          U32(mmsi), U8(repeatIndicator), U16(sog), positionAccuracy != 0, I32(longitude),
          I32(latitude), U16(cog), U16(trueHeading), U8(timeStamp), U8(regionalReserved),
          csFlag != 0, displayFlag != 0, dscFlag != 0, bandFlag != 0, msg22Flag != 0,
          assignedMode != 0, raim != 0, U32(radioStatus)))
  }

  /** Decoding gives `m` exactly when the payload is long enough and every field of `m`,
      in the order `Encode` writes them, reads at the sum of the widths before it. */
  lemma DecodeReadsFields(reader: BitReader, m: ClassBPositionReport)
    ensures Decode(reader) == Success(m) <==>
            && reader.BitLength() >= LENGTH
            && m.Fields().Reads(reader.Bits())
  {
    hide UintField, IntField, BoolField, Unpack, Pow2, U8, U16, U32, I8, I32;
    hide Layout.Reads, Layout.End, Field.ReadsAt, Header, Layout.U, Layout.I, Layout.B, Layout.T, Layout.Gap;
    PowersOfTwo();
    OneBitFields(reader.Bits());
    if Decode(reader) == Success(m) {
      assert m.Fields().Reads(reader.Bits());
    }
  }

  /** A payload that is long enough decodes unless it is of another type. */
  lemma DecodeOutcome(reader: BitReader)
    ensures reader.BitLength() < LENGTH ==> Decode(reader) == Failure(PayloadTooShort)
    ensures reader.BitLength() >= LENGTH ==>
              && reader.Uint(0, 6).Success?
              && var id := reader.Uint(0, 6).value;
                 if id == STANDARD_CLASS_B_POSITION_REPORT then
                   Decode(reader).Success? && Decode(reader).value.Type() == id
                 else Decode(reader) == Failure(MessageDecodeFailure)
  {
    hide UintField, IntField, BoolField, Unpack, Pow2, U16, U32, I8, I32;
    PowersOfTwo();
  }
}
