/** Messages of every implemented type, and the registry that decodes them. */
module Registry {
  import opened Results
  import opened Integers
  import opened BitReaders
  import opened Layouts
  import opened Payloads
  import opened MessageTypes
  import Msg1_3
  import Msg4_11
  import Msg05
  import Msg09
  import Msg10
  import Msg18
  import Msg19
  import Msg24
  import Msg27

  // ------------------------------------------------------------------
  // Messages
  // ------------------------------------------------------------------

  datatype Message =
    | ClassA(classA: Msg1_3.PositionReportClassA)
    | BaseStation(baseStation: Msg4_11.BaseStationReport)
    | Voyage(voyage: Msg05.StaticAndVoyageData)
    | Sar(sar: Msg09.SarPositionReport)
    | Inquiry(inquiry: Msg10.UtcDateInquiry)
    | ClassB(classB: Msg18.ClassBPositionReport)
    | ExtendedClassB(extended: Msg19.ExtendedClassBPositionReport)
    | StaticData(staticData: Msg24.StaticDataReport)
    | LongRange(longRange: Msg27.LongRangeBroadcast)
  {
    function Type(): MessageType {
      match this
      case ClassA(m) => m.Type()
      case BaseStation(m) => m.Type()
      case Voyage(m) => m.Type()
      case Sar(m) => m.Type()
      case Inquiry(m) => m.Type()
      case ClassB(m) => m.Type()
      case ExtendedClassB(m) => m.Type()
      case StaticData(m) => m.Type()
      case LongRange(m) => m.Type()
    }

    function Fields(): Layout {
      match this
      case ClassA(m) => m.Fields()
      case BaseStation(m) => m.Fields()
      case Voyage(m) => m.Fields()
      case Sar(m) => m.Fields()
      case Inquiry(m) => m.Fields()
      case ClassB(m) => m.Fields()
      case ExtendedClassB(m) => m.Fields()
      case StaticData(m) => m.Fields()
      case LongRange(m) => m.Fields()
    }

    /** The number of bits `Encode` puts in the payload. */
    function Length(): nat {
      match this
      case ClassA(_) => Msg1_3.LENGTH
      case BaseStation(_) => Msg4_11.LENGTH
      case Voyage(_) => Msg05.LENGTH
      case Sar(_) => Msg09.LENGTH
      case Inquiry(_) => Msg10.LENGTH
      case ClassB(_) => Msg18.LENGTH
      case ExtendedClassB(_) => Msg19.LENGTH
      case StaticData(_) => Msg24.LENGTH
      case LongRange(_) => Msg27.LENGTH
    }

    /** The message is of the type its class stands for, and sets no field its layout lacks. */
    predicate IsDecodable() {
      match this
      case ClassA(m) => Msg1_3.IsHandledType(m.messageType)
      case BaseStation(m) => Msg4_11.IsHandledType(m.messageType)
      case StaticData(m) => m.IsOnePart()
      case _ => true
    }

    /** Every number fits the width of its field and every text fits its field. */
    predicate IsWellFormed() { IsDecodable() && Fields().Fits() }

    /** The result of `Encode`. */
    function Encoding(): Result<(string, nat)> { EncodedFields(Fields(), Length()) }

    method Encode() returns (r: Result<(string, nat)>)
      ensures r == Encoding()
    {
      hide EncodedFields, Layout.U, Layout.I, Layout.B, Layout.T, Layout.Gap, Header;
      match this {
        case ClassA(m) => r := m.Encode();
        case BaseStation(m) => r := m.Encode();
        case Voyage(m) => r := m.Encode();
        case Sar(m) => r := m.Encode();
        case Inquiry(m) => r := m.Encode();
        case ClassB(m) => r := m.Encode();
        case ExtendedClassB(m) => r := m.Encode();
        case StaticData(m) => r := m.Encode();
        case LongRange(m) => r := m.Encode();
      }
    }
  }

  // ------------------------------------------------------------------
  // Decoder functions
  // ------------------------------------------------------------------

  type Decoder = BitReader -> Result<Message>

  function DecodeMsg1_3(r: BitReader): Result<Message> { var m :- Msg1_3.Decode(r); Success(ClassA(m)) }

  function DecodeMsg4_11(r: BitReader): Result<Message> { var m :- Msg4_11.Decode(r); Success(BaseStation(m)) }

  function DecodeMsg5(r: BitReader): Result<Message> { var m :- Msg05.Decode(r); Success(Voyage(m)) }

  function DecodeMsg9(r: BitReader): Result<Message> { var m :- Msg09.Decode(r); Success(Sar(m)) }

  function DecodeMsg10(r: BitReader): Result<Message> { var m :- Msg10.Decode(r); Success(Inquiry(m)) }

  function DecodeMsg18(r: BitReader): Result<Message> { var m :- Msg18.Decode(r); Success(ClassB(m)) }

  function DecodeMsg19(r: BitReader): Result<Message> { var m :- Msg19.Decode(r); Success(ExtendedClassB(m)) }

  function DecodeMsg24(r: BitReader): Result<Message> { var m :- Msg24.Decode(r); Success(StaticData(m)) }

  function DecodeMsg27(r: BitReader): Result<Message> { var m :- Msg27.Decode(r); Success(LongRange(m)) }

  // ------------------------------------------------------------------
  // The registry
  // ------------------------------------------------------------------

  const SLOTS: nat := 28

  /** What a registry with the given decoder table makes of decoded payload bytes. */
  function Dispatch(table: seq<Option<Decoder>>, reader: BitReader): Result<Message>
    requires |table| == SLOTS
  {
    if reader.buf == [] || |reader.buf| * 8 < 6 then Failure(PayloadTooShort)
    else
      var id :- reader.Uint(0, 6);
      var typeId := U8(id);
      if typeId == 0 || typeId > 27 then Failure(MessageTypeUnknown)
      else match table[typeId]
        case None => Failure(MessageTypeUnsupported)
        case Some(decoder) => decoder(reader)
  }

  /** What `MessageRegistry::decode` returns. */
  function DecodedMessage(table: seq<Option<Decoder>>, payload: string, fill: nat): Result<Message>
    requires |table| == SLOTS
  {
    var bits :- Decoded(payload, fill);
    Dispatch(table, BitReader(bits))
  }

  class MessageRegistry {
    const decoders: array<Option<Decoder>>

    ghost predicate Valid() { decoders.Length == SLOTS }

    ghost function Table(): (t: seq<Option<Decoder>>)
      requires Valid()
      reads decoders
      ensures |t| == SLOTS
    {
      decoders[..]
    }

    constructor ()
      ensures Valid() && fresh(decoders) && Table() == NoDecoders()
    {
      decoders := new Option<Decoder>[SLOTS](_ => None);
    }

    /** An id outside 1..27 is ignored; `None` is the null function pointer. */
    method RegisterDecoder(typeId: uint8, fn: Option<Decoder>)
      requires Valid()
      modifies decoders
      ensures Table() == if 1 <= typeId <= 27 then old(Table())[typeId := fn] else old(Table())
    {
      if typeId == 0 || typeId > 27 {
        return;
      }
      decoders[typeId] := fn;
    }

    method HasDecoder(typeId: uint8) returns (has: bool)
      requires Valid()
      ensures has <==> 1 <= typeId <= 27 && Table()[typeId].Some?
    {
      if typeId == 0 || typeId > 27 {
        return false;
      }
      return decoders[typeId].Some?;
    }

    method Clear()
      requires Valid()
      modifies decoders
      ensures Table() == NoDecoders()
    {
      for i := 0 to decoders.Length
        invariant forall j :: 0 <= j < i ==> decoders[j] == None
      {
        decoders[i] := None;
      }
    }

    method Decode(payload: string, fillBits: nat) returns (r: Result<Message>)
      requires Valid()
      ensures r == DecodedMessage(Table(), payload, fillBits)
    {
      var decoded := DecodePayload(payload, fillBits);
      if decoded.Failure? {
        return Failure(decoded.error);
      }
      var bits := decoded.value;
      if bits == [] || |bits| * 8 < 6 {
        return Failure(PayloadTooShort);
      }
      var reader := BitReader(bits);
      var typeResult := reader.ReadUint(0, 6);
      assert typeResult.Success?;
      var typeId := U8(typeResult.value);
      if typeId == 0 || typeId > 27 {
        return Failure(MessageTypeUnknown);
      }
      if decoders[typeId].None? {
        return Failure(MessageTypeUnsupported);
      }
      r := decoders[typeId].value(reader);
    }
  }

  /** The decoder registered for each type. */
  function DecoderFor(t: nat): Option<Decoder> {
    if t == 1 || t == 2 || t == 3 then Some(DecodeMsg1_3)
    else if t == 4 || t == 11 then Some(DecodeMsg4_11)
    else if t == 5 then Some(DecodeMsg5)
    else if t == 9 then Some(DecodeMsg9)
    else if t == 10 then Some(DecodeMsg10)
    else if t == 18 then Some(DecodeMsg18)
    else if t == 19 then Some(DecodeMsg19)
    else if t == 24 then Some(DecodeMsg24)
    else if t == 27 then Some(DecodeMsg27)
    else None
  }

  /** The table with every implemented decoder. */
  function AllDecoders(): (t: seq<Option<Decoder>>)
    ensures |t| == SLOTS
  {
    seq(SLOTS, t requires 0 <= t < SLOTS => DecoderFor(t))
  }

  /** The table of a new or cleared registry. */
  function NoDecoders(): (t: seq<Option<Decoder>>)
    ensures |t| == SLOTS && forall i :: 0 <= i < SLOTS ==> t[i] == None
  {
    seq(SLOTS, _ => None)
  }

  /** Registers every implemented decoder over whatever the registry holds. */
  method RegisterAllDecoders(reg: MessageRegistry)
    requires reg.Valid()
    modifies reg.decoders
    ensures forall t :: 0 <= t < SLOTS ==>
              reg.Table()[t] == if DecoderFor(t).Some? then DecoderFor(t) else old(reg.Table())[t]
    ensures old(reg.Table()) == NoDecoders() ==> reg.Table() == AllDecoders()
  {
    reg.RegisterDecoder(1, Some(DecodeMsg1_3));
    reg.RegisterDecoder(2, Some(DecodeMsg1_3));
    reg.RegisterDecoder(3, Some(DecodeMsg1_3));
    reg.RegisterDecoder(4, Some(DecodeMsg4_11));
    reg.RegisterDecoder(11, Some(DecodeMsg4_11));
    reg.RegisterDecoder(5, Some(DecodeMsg5));
    reg.RegisterDecoder(9, Some(DecodeMsg9));
    reg.RegisterDecoder(10, Some(DecodeMsg10));
    reg.RegisterDecoder(18, Some(DecodeMsg18));
    reg.RegisterDecoder(19, Some(DecodeMsg19));
    reg.RegisterDecoder(24, Some(DecodeMsg24));
    reg.RegisterDecoder(27, Some(DecodeMsg27));
  }
}
