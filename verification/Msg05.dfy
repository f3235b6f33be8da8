/** Message type 5: static and voyage related data. The fields take 425 bits; the payload is one bit longer. */
module Msg05 {
  import opened Results
  import opened Bits
  import opened Integers
  import opened BitReaders
  import opened BitWriters
  import opened Layouts
  import opened Payloads
  import opened MessageTypes

  const LENGTH: nat := 426

  datatype StaticAndVoyageData = StaticAndVoyageData(
    mmsi: uint32, repeatIndicator: uint8, aisVersion: uint8, imoNumber: uint32,
    callSign: string, vesselName: string, shipType: uint8, dimToBow: uint16, dimToStern: uint16,
    dimToPort: uint8, dimToStarboard: uint8, epfd: uint8, etaMonth: uint8, etaDay: uint8,
    etaHour: uint8, etaMinute: uint8, draught: uint8, destination: string, dte: bool)
  {
    function Fields(): (l: Layout)
      ensures l.End() == 425
    {
      Header(STATIC_AND_VOYAGE_DATA, repeatIndicator, mmsi).U(aisVersion, 2).U(imoNumber, 30)
      .T(callSign, 7).T(vesselName, 20).U(shipType, 8).U(dimToBow, 9).U(dimToStern, 9)
      .U(dimToPort, 6).U(dimToStarboard, 6).U(epfd, 4).U(etaMonth, 4).U(etaDay, 5).U(etaHour, 5)
      .U(etaMinute, 6).U(draught, 8).T(destination, 20).B(dte).Gap(2)
    }

    function Type(): MessageType { STATIC_AND_VOYAGE_DATA }

    method Encode() returns (r: Result<(string, nat)>)
      ensures r == EncodedFields(Fields(), LENGTH)
    {
      var w := new BitWriter();
      var s := w.WriteUint(STATIC_AND_VOYAGE_DATA, 6); assert s.Done?;
      s := w.WriteUint(repeatIndicator, 2); assert s.Done?;
      s := w.WriteUint(mmsi, 30); assert s.Done?;
      s := w.WriteUint(aisVersion, 2); assert s.Done?;
      s := w.WriteUint(imoNumber, 30); assert s.Done?;
      s := w.WriteText(callSign, 7); assert s.Done?;
      s := w.WriteText(vesselName, 20); assert s.Done?;
      s := w.WriteUint(shipType, 8); assert s.Done?;
      s := w.WriteUint(dimToBow, 9); assert s.Done?;
      s := w.WriteUint(dimToStern, 9); assert s.Done?;
      s := w.WriteUint(dimToPort, 6); assert s.Done?;
      s := w.WriteUint(dimToStarboard, 6); assert s.Done?;
      s := w.WriteUint(epfd, 4); assert s.Done?;
      s := w.WriteUint(etaMonth, 4); assert s.Done?;
      s := w.WriteUint(etaDay, 5); assert s.Done?;
      s := w.WriteUint(etaHour, 5); assert s.Done?;
      s := w.WriteUint(etaMinute, 6); assert s.Done?;
      s := w.WriteUint(draught, 8); assert s.Done?;
      s := w.WriteText(destination, 20); assert s.Done?;
      s := w.WriteBool(dte); assert s.Done?;
      s := w.WriteSpare(2); assert s.Done?;
      r := EncodePayload(w.buf, LENGTH);
    }
  }

  function Decode(reader: BitReader): Result<StaticAndVoyageData> {
    if reader.BitLength() < LENGTH then Failure(PayloadTooShort)
    else
      var typeId :- reader.Uint(0, 6);
      if TypeFromId(U8(typeId)) != STATIC_AND_VOYAGE_DATA then Failure(MessageDecodeFailure)
      else
        var repeatIndicator :- reader.Uint(6, 2);
        var mmsi :- reader.Uint(8, 30);
        var aisVersion :- reader.Uint(38, 2);
        var imoNumber :- reader.Uint(40, 30);
        var callSign :- reader.Text(70, 7);
        var vesselName :- reader.Text(112, 20);
        var shipType :- reader.Uint(232, 8);
        var dimToBow :- reader.Uint(240, 9);
        var dimToStern :- reader.Uint(249, 9);
        var dimToPort :- reader.Uint(258, 6);
        var dimToStarboard :- reader.Uint(264, 6);
        var epfd :- reader.Uint(270, 4);
        var etaMonth :- reader.Uint(274, 4);
        var etaDay :- reader.Uint(278, 5);
        var etaHour :- reader.Uint(283, 5);
        var etaMinute :- reader.Uint(288, 6);
        var draught :- reader.Uint(294, 8);
        var destination :- reader.Text(302, 20);
        var dte :- reader.Bool(422);
        Success(StaticAndVoyageData(
          U32(mmsi), U8(repeatIndicator), U8(aisVersion), U32(imoNumber), callSign, vesselName,
          U8(shipType), U16(dimToBow), U16(dimToStern), U8(dimToPort), U8(dimToStarboard),
          U8(epfd), U8(etaMonth), U8(etaDay), U8(etaHour), U8(etaMinute), U8(draught),
          destination, dte))
  }

  /** Decoding gives `m` exactly when the payload is long enough and every field of `m`,
      in the order `Encode` writes them, reads at the sum of the widths before it. */
  lemma DecodeReadsFields(reader: BitReader, m: StaticAndVoyageData)
    ensures Decode(reader) == Success(m) <==>
            && reader.BitLength() >= LENGTH
            && m.Fields().Reads(reader.Bits())
  {
    hide UintField, TextField, BoolField, Unpack, Pow2, U8, U16, U32;
    hide Layout.Reads, Layout.End, Field.ReadsAt, Header, Layout.U, Layout.I, Layout.B, Layout.T, Layout.Gap;
    PowersOfTwo();
    if Decode(reader) == Success(m) {
      assert m.Fields().Reads(reader.Bits());
    }
  }

  /** A payload that is long enough decodes unless it is of another type. */
  lemma DecodeOutcome(reader: BitReader)
    ensures reader.BitLength() < LENGTH ==> Decode(reader) == Failure(PayloadTooShort)
    ensures reader.BitLength() >= LENGTH ==>
              && reader.Uint(0, 6).Success?
              && var id := reader.Uint(0, 6).value;
                 if id == STATIC_AND_VOYAGE_DATA then
                   Decode(reader).Success? && Decode(reader).value.Type() == id
                 else Decode(reader) == Failure(MessageDecodeFailure)
  {
    hide UintField, TextField, BoolField, Unpack, Pow2, U16, U32;
    PowersOfTwo();
  }
}
