/** Message types 1, 2 and 3: class A position report. */
module Msg1_3 {
  import opened Results
  import opened Bits
  import opened Integers
  import opened BitReaders
  import opened BitWriters
  import opened Layouts
  import opened Payloads
  import opened MessageTypes

  const LENGTH: nat := 168

  predicate IsHandledType(t: MessageType) {
    t == POSITION_REPORT_CLASS_A || t == POSITION_REPORT_CLASS_A_ASSIGNED || t == POSITION_REPORT_CLASS_A_RESPONSE
  }

  datatype PositionReportClassA = PositionReportClassA(
    messageType: MessageType, mmsi: uint32, repeatIndicator: uint8, navStatus: uint8,
    rateOfTurn: int8, sog: uint16, positionAccuracy: bool, longitude: int32, latitude: int32,
    cog: uint16, trueHeading: uint16, timeStamp: uint8, manoeuvreIndicator: uint8, raim: bool,
    radioStatus: uint32)
  {
    function Fields(): (l: Layout)
      ensures l.End() == 168
    {
      Header(messageType, repeatIndicator, mmsi).U(navStatus, 4).I(rateOfTurn, 8).U(sog, 10)
      .B(positionAccuracy).I(longitude, 28).I(latitude, 27).U(cog, 12).U(trueHeading, 9)
      .U(timeStamp, 6).U(manoeuvreIndicator, 2).Gap(3).B(raim).U(radioStatus, 19)
    }

    function Type(): MessageType { messageType }

    method Encode() returns (r: Result<(string, nat)>)
      ensures r == EncodedFields(Fields(), LENGTH)
    {
      var w := new BitWriter();
      var s := w.WriteUint(messageType, 6); assert s.Done?;
      s := w.WriteUint(repeatIndicator, 2); assert s.Done?;
      s := w.WriteUint(mmsi, 30); assert s.Done?;
      s := w.WriteUint(navStatus, 4); assert s.Done?;
      s := w.WriteInt(rateOfTurn, 8); assert s.Done?;
      s := w.WriteUint(sog, 10); assert s.Done?;
      s := w.WriteBool(positionAccuracy); assert s.Done?;
      s := w.WriteInt(longitude, 28); assert s.Done?;
      s := w.WriteInt(latitude, 27); assert s.Done?;
      s := w.WriteUint(cog, 12); assert s.Done?;
      s := w.WriteUint(trueHeading, 9); assert s.Done?;
      s := w.WriteUint(timeStamp, 6); assert s.Done?;
      s := w.WriteUint(manoeuvreIndicator, 2); assert s.Done?;
      s := w.WriteSpare(3); assert s.Done?;
      s := w.WriteBool(raim); assert s.Done?;
      s := w.WriteUint(radioStatus, 19); assert s.Done?;
      r := EncodePayload(w.buf, LENGTH);
    }
  }

  function Decode(reader: BitReader): Result<PositionReportClassA> {
    if reader.BitLength() < LENGTH then Failure(PayloadTooShort)
    else
      var typeId :- reader.Uint(0, 6);
      var messageType := TypeFromId(U8(typeId));
      if !IsHandledType(messageType) then Failure(MessageDecodeFailure)
      else
        var repeatIndicator :- reader.Uint(6, 2);
        var mmsi :- reader.Uint(8, 30);
        var navStatus :- reader.Uint(38, 4);
        var rateOfTurn :- reader.Int(42, 8);
        var sog :- reader.Uint(50, 10);
        var positionAccuracy :- reader.Uint(60, 1);
        var longitude :- reader.Int(61, 28);
        var latitude :- reader.Int(89, 27);
        var cog :- reader.Uint(116, 12);
        var trueHeading :- reader.Uint(128, 9);
        var timeStamp :- reader.Uint(137, 6);
        var manoeuvreIndicator :- reader.Uint(143, 2);
        var raim :- reader.Uint(148, 1);
        var radioStatus :- reader.Uint(149, 19);
        Success(PositionReportClassA(
          messageType, U32(mmsi), U8(repeatIndicator), U8(navStatus), I8(rateOfTurn), U16(sog),
          positionAccuracy != 0, I32(longitude), I32(latitude), U16(cog), U16(trueHeading),
          U8(timeStamp), U8(manoeuvreIndicator), raim != 0, U32(radioStatus)))
  }

  /** Decoding gives `m` exactly when the payload is long enough and every field of `m`,
      in the order `Encode` writes them, reads at the sum of the widths before it. */
  lemma DecodeReadsFields(reader: BitReader, m: PositionReportClassA)
    ensures Decode(reader) == Success(m) <==>
            && reader.BitLength() >= LENGTH
            && IsHandledType(m.messageType)
            && m.Fields().Reads(reader.Bits())
  {
    hide UintField, IntField, BoolField, Unpack, Pow2, U8, U16, U32, I8, I32;
    hide Layout.Reads, Layout.End, Field.ReadsAt, Header, Layout.U, Layout.I, Layout.B, Layout.T, Layout.Gap;
    PowersOfTwo();
    OneBitFields(reader.Bits());
    if Decode(reader) == Success(m) {
      assert m.Fields().Reads(reader.Bits());
    }
  }

  /** A payload that is long enough decodes unless it is of another type. */
  lemma DecodeOutcome(reader: BitReader)
    ensures reader.BitLength() < LENGTH ==> Decode(reader) == Failure(PayloadTooShort)
    ensures reader.BitLength() >= LENGTH ==>
              && reader.Uint(0, 6).Success?
              && var id := reader.Uint(0, 6).value;
                 if 1 <= id <= 3 then
                   Decode(reader).Success? && Decode(reader).value.Type() == id
                 else Decode(reader) == Failure(MessageDecodeFailure)
  {
    hide UintField, IntField, BoolField, Unpack, Pow2, U16, U32, I8, I32;
    PowersOfTwo();
  }
}
