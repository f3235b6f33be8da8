/** Message types 4 and 11: base station report and UTC/date response. */
module Msg4_11 {
  import opened Results
  import opened Bits
  import opened Integers
  import opened BitReaders
  import opened BitWriters
  import opened Layouts
  import opened Payloads
  import opened MessageTypes

  const LENGTH: nat := 168

  predicate IsHandledType(t: MessageType) {
    t == BASE_STATION_REPORT || t == UTC_DATE_RESPONSE
  }

  datatype BaseStationReport = BaseStationReport(
    messageType: MessageType, mmsi: uint32, repeatIndicator: uint8, utcYear: uint16,
    utcMonth: uint8, utcDay: uint8, utcHour: uint8, utcMinute: uint8, utcSecond: uint8,
    positionAccuracy: bool, longitude: int32, latitude: int32, epfd: uint8, raim: bool,
    radioStatus: uint32)
  {
    function Fields(): (l: Layout)
      ensures l.End() == 168
    {
      Header(messageType, repeatIndicator, mmsi).U(utcYear, 14).U(utcMonth, 4).U(utcDay, 5)
      .U(utcHour, 5).U(utcMinute, 6).U(utcSecond, 6).B(positionAccuracy).I(longitude, 28)
      .I(latitude, 27).U(epfd, 4).Gap(10).B(raim).U(radioStatus, 19)
    }

    function Type(): MessageType { messageType }

    method Encode() returns (r: Result<(string, nat)>)
      ensures r == EncodedFields(Fields(), LENGTH)
    {
      var w := new BitWriter();
      var s := w.WriteUint(messageType, 6); assert s.Done?;
      s := w.WriteUint(repeatIndicator, 2); assert s.Done?;
      s := w.WriteUint(mmsi, 30); assert s.Done?;
      s := w.WriteUint(utcYear, 14); assert s.Done?;
      s := w.WriteUint(utcMonth, 4); assert s.Done?;
      s := w.WriteUint(utcDay, 5); assert s.Done?;
      s := w.WriteUint(utcHour, 5); assert s.Done?;
      s := w.WriteUint(utcMinute, 6); assert s.Done?;
      s := w.WriteUint(utcSecond, 6); assert s.Done?;
      s := w.WriteBool(positionAccuracy); assert s.Done?;
      s := w.WriteInt(longitude, 28); assert s.Done?;
      s := w.WriteInt(latitude, 27); assert s.Done?;
      s := w.WriteUint(epfd, 4); assert s.Done?;
      s := w.WriteSpare(10); assert s.Done?;
      s := w.WriteBool(raim); assert s.Done?;
      s := w.WriteUint(radioStatus, 19); assert s.Done?;
      r := EncodePayload(w.buf, LENGTH);
    }
  }

  function Decode(reader: BitReader): Result<BaseStationReport> {
    if reader.BitLength() < LENGTH then Failure(PayloadTooShort)
    else
      var typeId :- reader.Uint(0, 6);
      var messageType := TypeFromId(U8(typeId));
      if !IsHandledType(messageType) then Failure(MessageDecodeFailure)
      else
        var repeatIndicator :- reader.Uint(6, 2);
        var mmsi :- reader.Uint(8, 30);
        var utcYear :- reader.Uint(38, 14);
        var utcMonth :- reader.Uint(52, 4);
        var utcDay :- reader.Uint(56, 5);
        var utcHour :- reader.Uint(61, 5);
        var utcMinute :- reader.Uint(66, 6);
        var utcSecond :- reader.Uint(72, 6);
        var positionAccuracy :- reader.Uint(78, 1);
        var longitude :- reader.Int(79, 28);
        var latitude :- reader.Int(107, 27);
        var epfd :- reader.Uint(134, 4);
        var raim :- reader.Uint(148, 1);
        var radioStatus :- reader.Uint(149, 19);
        Success(BaseStationReport(
          messageType, U32(mmsi), U8(repeatIndicator), U16(utcYear), U8(utcMonth), U8(utcDay),
          U8(utcHour), U8(utcMinute), U8(utcSecond), positionAccuracy != 0, I32(longitude),
          I32(latitude), U8(epfd), raim != 0, U32(radioStatus)))
  }

  /** Decoding gives `m` exactly when the payload is long enough and every field of `m`,
      in the order `Encode` writes them, reads at the sum of the widths before it. */
  lemma DecodeReadsFields(reader: BitReader, m: BaseStationReport)
    ensures Decode(reader) == Success(m) <==>
            && reader.BitLength() >= LENGTH
            && IsHandledType(m.messageType)
            && m.Fields().Reads(reader.Bits())
  {
    hide UintField, IntField, BoolField, Unpack, Pow2, U8, U16, U32, I8, I32;
    hide Layout.Reads, Layout.End, Field.ReadsAt, Header, Layout.U, Layout.I, Layout.B, Layout.T, Layout.Gap;
    PowersOfTwo();
    OneBitFields(reader.Bits());
    if Decode(reader) == Success(m) {
      assert m.Fields().Reads(reader.Bits());
    }
  }

  /** A payload that is long enough decodes unless it is of another type. */
  lemma DecodeOutcome(reader: BitReader)
    ensures reader.BitLength() < LENGTH ==> Decode(reader) == Failure(PayloadTooShort)
    ensures reader.BitLength() >= LENGTH ==>
              && reader.Uint(0, 6).Success?
              && var id := reader.Uint(0, 6).value;
                 if id == 4 || id == 11 then
                   Decode(reader).Success? && Decode(reader).value.Type() == id
                 else Decode(reader) == Failure(MessageDecodeFailure)
  {
    hide UintField, IntField, BoolField, Unpack, Pow2, U16, U32, I8, I32;
    PowersOfTwo();
  }
}
