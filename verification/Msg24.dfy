/** Message type 24: class B static data report, in two parts with different fields. */
module Msg24 {
  import opened Results
  import opened Bits
  import opened Integers
  import opened BitReaders
  import opened BitWriters
  import opened Layouts
  import opened Payloads
  import opened MessageTypes

  const LENGTH: nat := 168

  datatype StaticDataReport = StaticDataReport(
    mmsi: uint32, repeatIndicator: uint8, partNumber: uint8, vesselName: string,
    shipType: uint8, vendorId: string, callSign: string, dimToBow: uint16, dimToStern: uint16,
    dimToPort: uint8, dimToStarboard: uint8, epfd: uint8, mothershipMmsi: uint32)
  {
    /** Any part number other than 0 is written like part B. */
    function Fields(): (l: Layout)
      ensures l.End() == 168
    {
      var head := Header(CLASS_B_STATIC_DATA_REPORT, repeatIndicator, mmsi).U(partNumber, 2);
      if partNumber == 0 then head.T(vesselName, 20).Gap(8)
      else
        head.U(shipType, 8).T(vendorId, 7).T(callSign, 7).U(dimToBow, 9).U(dimToStern, 9)
        .U(dimToPort, 6).U(dimToStarboard, 6).U(epfd, 4).Gap(2)
    }

    function Type(): MessageType { CLASS_B_STATIC_DATA_REPORT }

    /** The report is one that `Decode` makes: a part A or a part B with no field of the other
        part set, and without a mothership. */
    predicate IsOnePart() {
      && mothershipMmsi == 0
      && if partNumber == 0 then
           && shipType == 0 && vendorId == "" && callSign == "" && epfd == 0
           && dimToBow == 0 && dimToStern == 0 && dimToPort == 0 && dimToStarboard == 0
         else partNumber == 1 && vesselName == ""
    }

    method Encode() returns (r: Result<(string, nat)>)
      ensures r == EncodedFields(Fields(), LENGTH)
    {
      var w := new BitWriter();
      var s := w.WriteUint(CLASS_B_STATIC_DATA_REPORT, 6); assert s.Done?;
      s := w.WriteUint(repeatIndicator, 2); assert s.Done?;
      s := w.WriteUint(mmsi, 30); assert s.Done?;
      s := w.WriteUint(partNumber, 2); assert s.Done?;
      if partNumber == 0 {
        s := w.WriteText(vesselName, 20); assert s.Done?;
        s := w.WriteSpare(8); assert s.Done?;
      } else {
        s := w.WriteUint(shipType, 8); assert s.Done?;
        s := w.WriteText(vendorId, 7); assert s.Done?;
        s := w.WriteText(callSign, 7); assert s.Done?;
        s := w.WriteUint(dimToBow, 9); assert s.Done?;
        s := w.WriteUint(dimToStern, 9); assert s.Done?;
        s := w.WriteUint(dimToPort, 6); assert s.Done?;
        s := w.WriteUint(dimToStarboard, 6); assert s.Done?;
        s := w.WriteUint(epfd, 4); assert s.Done?;
        s := w.WriteSpare(2); assert s.Done?;
      }
      r := EncodePayload(w.buf, LENGTH);
    }
  }

  function MakePartA(mmsi: uint32, repeatIndicator: uint8, vesselName: string): StaticDataReport {
    StaticDataReport(mmsi, repeatIndicator, 0, vesselName, 0, "", "", 0, 0, 0, 0, 0, 0)
  }

  function MakePartB(mmsi: uint32, repeatIndicator: uint8, shipType: uint8, vendorId: string,
                     callSign: string, dimToBow: uint16, dimToStern: uint16, dimToPort: uint8,
                     dimToStarboard: uint8, epfd: uint8, mothershipMmsi: uint32): StaticDataReport
  {
    StaticDataReport(mmsi, repeatIndicator, 1, "", shipType, vendorId, callSign,
                     dimToBow, dimToStern, dimToPort, dimToStarboard, epfd, mothershipMmsi)
  }

  function Decode(reader: BitReader): Result<StaticDataReport> {
    if reader.BitLength() < LENGTH then Failure(PayloadTooShort)
    else
      var typeId :- reader.Uint(0, 6);
      if TypeFromId(U8(typeId)) != CLASS_B_STATIC_DATA_REPORT then Failure(MessageDecodeFailure)
      else
        var repeatIndicator :- reader.Uint(6, 2);
        var mmsi :- reader.Uint(8, 30);
        var part :- reader.Uint(38, 2);
        var partNumber := U8(part);
        if partNumber == 0 then
          var vesselName :- reader.Text(40, 20);
          Success(MakePartA(U32(mmsi), U8(repeatIndicator), vesselName))
        else if partNumber == 1 then
          var shipType :- reader.Uint(40, 8);
          var vendorId :- reader.Text(48, 7);
          var callSign :- reader.Text(90, 7);
          var dimToBow :- reader.Uint(132, 9);
          var dimToStern :- reader.Uint(141, 9);
          var dimToPort :- reader.Uint(150, 6);
          var dimToStarboard :- reader.Uint(156, 6);
          var epfd :- reader.Uint(162, 4);
          Success(MakePartB(
            U32(mmsi), U8(repeatIndicator), U8(shipType), vendorId, callSign, U16(dimToBow),
            U16(dimToStern), U8(dimToPort), U8(dimToStarboard), U8(epfd), 0))
        else Failure(MessageDecodeFailure)
  }

  /** Decoding gives `m` exactly when the payload is long enough, `m` is a report the decoder
      builds, and every field of `m` reads at the sum of the widths before it. */
  lemma DecodeReadsFields(reader: BitReader, m: StaticDataReport)
    ensures Decode(reader) == Success(m) <==>
            && reader.BitLength() >= LENGTH
            && m.IsOnePart()
            && m.Fields().Reads(reader.Bits())
  {
    hide UintField, TextField, Unpack, Pow2, U8, U16, U32;
    hide Layout.Reads, Layout.End, Field.ReadsAt, Header, Layout.U, Layout.I, Layout.B, Layout.T, Layout.Gap;
    PowersOfTwo();
    if Decode(reader) == Success(m) {
      assert m.Fields().Reads(reader.Bits());
    }
  }

  /** A payload that is long enough decodes unless it is of another type or has a part number
      other than 0 and 1. */
  lemma DecodeOutcome(reader: BitReader)
    ensures reader.BitLength() < LENGTH ==> Decode(reader) == Failure(PayloadTooShort)
    ensures reader.BitLength() >= LENGTH ==>
              && reader.Uint(0, 6).Success?
              && reader.Uint(38, 2).Success?
              && var id := reader.Uint(0, 6).value;
                 if id == CLASS_B_STATIC_DATA_REPORT && reader.Uint(38, 2).value <= 1 then
                   Decode(reader).Success?
                 else Decode(reader) == Failure(MessageDecodeFailure)
  {
    hide UintField, TextField, Unpack, Pow2, U16, U32;
    PowersOfTwo();
  }

  /** A decoded report is a part A without the fields of a part B, or the other way round. */
  lemma OtherPartIsEmpty(reader: BitReader)
    ensures Decode(reader).Success? ==>
              var m := Decode(reader).value;
              && (m.partNumber == 0 || m.partNumber == 1)
              && (m.partNumber == 0 ==>
                    && m.shipType == 0 && m.vendorId == "" && m.callSign == "" && m.epfd == 0
                    && m.dimToBow == 0 && m.dimToStern == 0 && m.dimToPort == 0 && m.dimToStarboard == 0)
              && (m.partNumber == 1 ==> m.vesselName == "")
  {
    hide Decode;
    if Decode(reader).Success? {
      DecodeReadsFields(reader, Decode(reader).value);
    }
  }

  /** No decoded report names a mothership, whatever the payload says: a part B is always read
      in the layout of a vessel that is not an auxiliary craft. */
  lemma MothershipIsZero(reader: BitReader)
    ensures Decode(reader).Success? ==> Decode(reader).value.mothershipMmsi == 0
  {
    hide Decode;
    if Decode(reader).Success? {
      DecodeReadsFields(reader, Decode(reader).value);
    }
  }
}
