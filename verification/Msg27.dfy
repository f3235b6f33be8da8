/** Message type 27: long-range broadcast. */
module Msg27 {
  import opened Results
  import opened Bits
  import opened Integers
  import opened BitReaders
  import opened BitWriters
  import opened Layouts
  import opened Payloads
  import opened MessageTypes

  const LENGTH: nat := 96

  datatype LongRangeBroadcast = LongRangeBroadcast(
    mmsi: uint32, repeatIndicator: uint8, positionAccuracy: bool, raim: bool, navStatus: uint8,
    longitude: int32, latitude: int32, sog: uint8, cog: uint16, gnssPositionStatus: bool)
  {
    function Fields(): (l: Layout)
      ensures l.End() == 96
    {
      Header(LONG_RANGE_POSITION_REPORT, repeatIndicator, mmsi).B(positionAccuracy).B(raim)
      .U(navStatus, 4).I(longitude, 18).I(latitude, 17).U(sog, 6).U(cog, 9)
      .B(gnssPositionStatus).Gap(1)
    }

    function Type(): MessageType { LONG_RANGE_POSITION_REPORT }

    method Encode() returns (r: Result<(string, nat)>)
      ensures r == EncodedFields(Fields(), LENGTH)
    {
      var w := new BitWriter();
      var s := w.WriteUint(LONG_RANGE_POSITION_REPORT, 6); assert s.Done?;
      s := w.WriteUint(repeatIndicator, 2); assert s.Done?;
      s := w.WriteUint(mmsi, 30); assert s.Done?;
      s := w.WriteBool(positionAccuracy); assert s.Done?;
      s := w.WriteBool(raim); assert s.Done?;
      s := w.WriteUint(navStatus, 4); assert s.Done?;
      s := w.WriteInt(longitude, 18); assert s.Done?;
      s := w.WriteInt(latitude, 17); assert s.Done?;
      s := w.WriteUint(sog, 6); assert s.Done?;
      s := w.WriteUint(cog, 9); assert s.Done?;
      s := w.WriteBool(gnssPositionStatus); assert s.Done?;
      s := w.WriteSpare(1); assert s.Done?;
      r := EncodePayload(w.buf, LENGTH);
    }
  }

  function Decode(reader: BitReader): Result<LongRangeBroadcast> {
    if reader.BitLength() < LENGTH then Failure(PayloadTooShort)
    else
      var typeId :- reader.Uint(0, 6);
      if TypeFromId(U8(typeId)) != LONG_RANGE_POSITION_REPORT then Failure(MessageDecodeFailure)
      else
        var repeatIndicator :- reader.Uint(6, 2);
        var mmsi :- reader.Uint(8, 30);
        var positionAccuracy :- reader.Uint(38, 1);
        var raim :- reader.Uint(39, 1);
        var navStatus :- reader.Uint(40, 4);
        var longitude :- reader.Int(44, 18);
        var latitude :- reader.Int(62, 17);
        var sog :- reader.Uint(79, 6);
        var cog :- reader.Uint(85, 9);
        var gnssPositionStatus :- reader.Uint(94, 1);
        Success(LongRangeBroadcast(
          U32(mmsi), U8(repeatIndicator), positionAccuracy != 0, raim != 0, U8(navStatus),
          I32(longitude), I32(latitude), U8(sog), U16(cog), gnssPositionStatus != 0))
  }

  /** Decoding gives `m` exactly when the payload is long enough and every field of `m`,
      in the order `Encode` writes them, reads at the sum of the widths before it. */
  lemma DecodeReadsFields(reader: BitReader, m: LongRangeBroadcast)
    ensures Decode(reader) == Success(m) <==>
            && reader.BitLength() >= LENGTH
            && m.Fields().Reads(reader.Bits())
  {
    hide UintField, IntField, BoolField, Unpack, Pow2, U8, U16, U32, I8, I32;
    hide Layout.Reads, Layout.End, Field.ReadsAt, Header, Layout.U, Layout.I, Layout.B, Layout.T, Layout.Gap;
    PowersOfTwo();
    OneBitFields(reader.Bits());
    if Decode(reader) == Success(m) {
      assert m.Fields().Reads(reader.Bits());
    }
  }

  /** A payload that is long enough decodes unless it is of another type. */
  lemma DecodeOutcome(reader: BitReader)
    ensures reader.BitLength() < LENGTH ==> Decode(reader) == Failure(PayloadTooShort)
    ensures reader.BitLength() >= LENGTH ==>
              && reader.Uint(0, 6).Success?
              && var id := reader.Uint(0, 6).value;
                 if id == LONG_RANGE_POSITION_REPORT then
                   Decode(reader).Success? && Decode(reader).value.Type() == id
                 else Decode(reader) == Failure(MessageDecodeFailure)
  {
    hide UintField, IntField, BoolField, Unpack, Pow2, U16, U32, I8, I32;
    PowersOfTwo();
  }
}
