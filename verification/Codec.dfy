/** Round trips through the codec of every message type. */
module Codec {
  import opened Results
  import opened Bits
  import opened Integers
  import opened BitReaders
  import opened SixBitText
  import opened Layouts
  import opened Payloads
  import opened MessageTypes
  import opened Registry
  import Msg1_3
  import Msg4_11
  import Msg05
  import Msg09
  import Msg10
  import Msg18
  import Msg19
  import Msg24
  import Msg27

  // ------------------------------------------------------------------
  // Decoding, by the fields of the result
  // ------------------------------------------------------------------

  /** What a message's decoder accepts: a buffer that is long enough, a message the decoder
      builds, and fields that read in order. */
  predicate Matches(r: BitReader, m: Message) {
    r.BitLength() >= m.Length() && m.IsDecodable() && m.Fields().Reads(r.Bits())
  }

  /** The decoder of a message's own type gives the message exactly when its fields match. */
  lemma OwnDecoder(r: BitReader, m: Message)
    ensures DecoderFor(m.Type()).Some? && DecoderFor(m.Type()).value(r) == Success(m) <==> Matches(r, m)
  {
    hide Msg1_3.Decode, Msg4_11.Decode, Msg05.Decode, Msg09.Decode, Msg10.Decode;
    hide Msg18.Decode, Msg19.Decode, Msg24.Decode, Msg27.Decode, Layout.Reads, Unpack;
    hide Msg1_3.PositionReportClassA.Fields, Msg4_11.BaseStationReport.Fields, Msg05.StaticAndVoyageData.Fields;
    hide Msg09.SarPositionReport.Fields, Msg10.UtcDateInquiry.Fields, Msg18.ClassBPositionReport.Fields;
    hide Msg19.ExtendedClassBPositionReport.Fields, Msg24.StaticDataReport.Fields, Msg27.LongRangeBroadcast.Fields;
    match m
    case ClassA(x) => Msg1_3.DecodeReadsFields(r, x);
    case BaseStation(x) => Msg4_11.DecodeReadsFields(r, x);
    case Voyage(x) => Msg05.DecodeReadsFields(r, x);
    case Sar(x) => Msg09.DecodeReadsFields(r, x);
    case Inquiry(x) => Msg10.DecodeReadsFields(r, x);
    case ClassB(x) => Msg18.DecodeReadsFields(r, x);
    case ExtendedClassB(x) => Msg19.DecodeReadsFields(r, x);
    case StaticData(x) => Msg24.DecodeReadsFields(r, x);
    case LongRange(x) => Msg27.DecodeReadsFields(r, x);
  }

  /** The number of bits each registered decoder asks for. */
  function LengthFor(t: nat): nat {
    if t == 5 then Msg05.LENGTH
    else if t == 10 then Msg10.LENGTH
    else if t == 19 then Msg19.LENGTH
    else if t == 27 then Msg27.LENGTH
    else 168
  }

  /** A decoder called for a payload of its type fails only because the payload is short, or a
      type 24 part number is not 0 or 1. */
  lemma DecoderOutcome(t: nat, r: BitReader)
    requires DecoderFor(t).Some?
    ensures var result := DecoderFor(t).value(r);
            if r.BitLength() < LengthFor(t) then result == Failure(PayloadTooShort)
            else r.Uint(0, 6) == Success(t) ==>
              && r.Uint(38, 2).Success?
              && if t == 24 && r.Uint(38, 2).value > 1 then result == Failure(MessageDecodeFailure)
                 else result.Success? && result.value.Type() == t
  {
    hide Msg1_3.Decode, Msg4_11.Decode, Msg05.Decode, Msg09.Decode, Msg10.Decode;
    hide Msg18.Decode, Msg19.Decode, Msg24.Decode, Msg27.Decode, Unpack, Value;
    if t <= 3 { Msg1_3.DecodeOutcome(r); }
    else if t == 4 || t == 11 { Msg4_11.DecodeOutcome(r); }
    else if t == 5 { Msg05.DecodeOutcome(r); }
    else if t == 9 { Msg09.DecodeOutcome(r); }
    else if t == 10 { Msg10.DecodeOutcome(r); }
    else if t == 18 { Msg18.DecodeOutcome(r); }
    else if t == 19 { Msg19.DecodeOutcome(r); }
    else if t == 24 { Msg24.DecodeOutcome(r); }
    else { Msg27.DecodeOutcome(r); }
  }

  /** A decoder succeeds only on a payload of the type it is registered for. */
  lemma DecoderType(r: BitReader, m: Message)
    requires DecoderFor(m.Type()).Some? && DecoderFor(m.Type()).value(r) == Success(m)
    ensures r.BitLength() >= 6 && r.Uint(0, 6) == Success(m.Type())
  {
    hide Msg1_3.Decode, Msg4_11.Decode, Msg05.Decode, Msg09.Decode, Msg10.Decode;
    hide Msg18.Decode, Msg19.Decode, Msg24.Decode, Msg27.Decode, Unpack, Value;
    Msg1_3.DecodeOutcome(r);
    Msg4_11.DecodeOutcome(r);
    Msg05.DecodeOutcome(r);
    Msg09.DecodeOutcome(r);
    Msg10.DecodeOutcome(r);
    Msg18.DecodeOutcome(r);
    Msg19.DecodeOutcome(r);
    Msg24.DecodeOutcome(r);
    Msg27.DecodeOutcome(r);
  }

  /** With every decoder registered, dispatch gives a message exactly when its fields match. */
  lemma DispatchMatches(r: BitReader, m: Message)
    ensures Dispatch(AllDecoders(), r) == Success(m) <==> Matches(r, m)
  {
    hide Unpack, Value, Layout.Reads, Message.Fields, Message.Length, Message.IsDecodable, Message.Type, UintField;
    OwnDecoder(r, m);
    if Matches(r, m) {
      DecoderType(r, m);
    }
    if Dispatch(AllDecoders(), r) == Success(m) {
      DecoderOutcome(r.Uint(0, 6).value, r);
    }
  }

  // ------------------------------------------------------------------
  // Encoding
  // ------------------------------------------------------------------

  /** The bits `Encode` sends: the fields, and zeros up to the message's length. */
  function SentBits(m: Message): (b: BitString)
    requires m.Fields().End() <= m.Length()
    ensures |b| == m.Length()
  {
    m.Fields().Image() + Zeros(m.Length() - m.Fields().End())
  }

  /** The fields fill the length of the message, except that type 5 is one bit longer. */
  lemma FieldsEnd(m: Message)
    ensures m.Fields().End() == if m.Voyage? then m.Length() - 1 else m.Length()
    ensures m.Length() % 6 == 0 && m.Length() > 0
    ensures m.Length() <= 8 * ByteCount(m.Fields().End())
  {
    hide Layout.End, Layout.U, Layout.I, Layout.B, Layout.T, Layout.Gap, Header;
  }

  /** Encoding always succeeds with no fill bits. Type 5 relies on the padding of its last
      byte for the bit its fields do not write. */
  lemma EncodingIs(m: Message)
    ensures m.Fields().End() <= m.Length() && m.Length() % 6 == 0
    ensures m.Encoding() == Success((Armour(SentBits(m)), 0))
  {
    hide Message.Fields, Message.Length, Encoded, Armour;
    FieldsEnd(m);
    EncodedLayout(m.Fields(), m.Length());
  }

  lemma EncodedLayout(l: Layout, n: nat)
    requires l.End() <= n <= 8 * ByteCount(l.End()) && n % 6 == 0 && n > 0
    ensures EncodedFields(l, n) == Success((Armour(l.Image() + Zeros(n - l.End())), 0))
  {
    hide Armour, Unpack, Pack, Layout.Image;
    var image, sent := l.Image(), l.Image() + Zeros(n - l.End());
    UnpackPack(image);
    assert Unpack(Pack(image))[..n] == sent;
    assert sent + Zeros(0) == sent;
    assert FillFor(n) == 0;
  }

  /** The reader that the decoder sees for the encoding of a message. */
  lemma ReceivedBits(m: Message)
    requires m.Fields().End() <= m.Length() && m.Length() % 6 == 0 && m.Length() > 0
    ensures Decoded(Armour(SentBits(m)), 0) == Success(Pack(SentBits(m)))
    ensures var r := BitReader(Pack(SentBits(m)));
            m.Fields().Image() <= r.Bits() && r.BitLength() >= m.Length()
  {
    hide Message.Fields, Message.Length, Armour, Unpack, Pack, Decoded, Layout.Image;
    ArmouredBitsDecode(SentBits(m), 0);
    assert SentBits(m) + Zeros(0) == SentBits(m);
    UnpackPack(SentBits(m));
  }

  /** Every message encodes with no fill bits, and decoding its payload gives the message back
      exactly when it is well formed. */
  lemma RoundTrip(m: Message)
    ensures m.Encoding().Success? && m.Encoding().value.1 == 0
    ensures DecodedMessage(AllDecoders(), m.Encoding().value.0, 0) == Success(m) <==> m.IsWellFormed()
  {
    hide Dispatch;
    FieldsEnd(m);
    EncodingIs(m);
    ReceivedBits(m);
    var r := BitReader(Pack(SentBits(m)));
    LayoutReadsBack(m.Fields(), r.Bits());
    DispatchMatches(r, m);
  }

  /** The canonical bits of a decoded payload: every field bit as received, spare bits zero,
      the trailing spaces and '@' of each text zero, and exactly the message's length. */
  function CanonicalBits(m: Message, received: BitString): BitString
    requires m.Fields().End() <= |received| && m.Fields().End() <= m.Length()
  {
    m.Fields().Canonical(received) + Zeros(m.Length() - m.Fields().End())
  }

  /** Encoding a decoded message gives the canonical form of the payload: its bits are the
      canonical bits of what was received, and it decodes to the same message. */
  lemma CanonicalForm(p: string, fill: nat)
    ensures var result := DecodedMessage(AllDecoders(), p, fill);
            result.Success? ==>
              var m, received := result.value, Unpack(Decoded(p, fill).value);
              && m.IsWellFormed() && m.Encoding().Success?
              && m.Fields().End() <= |received| && m.Fields().End() <= m.Length()
              && var canonical := m.Encoding().value.0;
                 && PayloadBits(canonical) == CanonicalBits(m, received)
                 && DecodedMessage(AllDecoders(), canonical, 0) == Success(m)
  {
    hide Dispatch;
    if DecodedMessage(AllDecoders(), p, fill).Success? {
      var m := DecodedMessage(AllDecoders(), p, fill).value;
      var r := BitReader(Decoded(p, fill).value);
      DispatchMatches(r, m);
      RewriteLayout(m.Fields(), r.Bits());
      RoundTrip(m);
      EncodingIs(m);
      PayloadBitsOfArmour(SentBits(m));
    }
  }

  /** The canonical form of a payload, if it decodes. */
  function Canonicalised(p: string, fill: nat): Result<(string, nat)> {
    var m :- DecodedMessage(AllDecoders(), p, fill);
    m.Encoding()
  }

  /** Taking the canonical form again changes nothing. */
  lemma CanonicalIdempotent(p: string, fill: nat)
    ensures var c := Canonicalised(p, fill);
            c.Success? ==> Canonicalised(c.value.0, c.value.1) == c
  {
    hide DecodedMessage, Message.Encoding, Message.IsWellFormed, CanonicalBits;
    CanonicalForm(p, fill);
    if DecodedMessage(AllDecoders(), p, fill).Success? {
      RoundTrip(DecodedMessage(AllDecoders(), p, fill).value);
    }
  }

  // ------------------------------------------------------------------
  // The messages a program can hold
  // ------------------------------------------------------------------

  /** A message that any registered decoder builds from any buffer matches that buffer. */
  lemma DecodedMatches(t: nat, r: BitReader, m: Message)
    requires DecoderFor(t).Some? && DecoderFor(t).value(r) == Success(m)
    ensures Matches(r, m)
  {
    hide Msg1_3.Decode, Msg4_11.Decode, Msg05.Decode, Msg09.Decode, Msg10.Decode;
    hide Msg18.Decode, Msg19.Decode, Msg24.Decode, Msg27.Decode, Layout.Reads, Unpack;
    hide Msg1_3.PositionReportClassA.Fields, Msg4_11.BaseStationReport.Fields, Msg05.StaticAndVoyageData.Fields;
    hide Msg09.SarPositionReport.Fields, Msg10.UtcDateInquiry.Fields, Msg18.ClassBPositionReport.Fields;
    hide Msg19.ExtendedClassBPositionReport.Fields, Msg24.StaticDataReport.Fields, Msg27.LongRangeBroadcast.Fields;
    match m
    case ClassA(x) => Msg1_3.DecodeReadsFields(r, x);
    case BaseStation(x) => Msg4_11.DecodeReadsFields(r, x);
    case Voyage(x) => Msg05.DecodeReadsFields(r, x);
    case Sar(x) => Msg09.DecodeReadsFields(r, x);
    case Inquiry(x) => Msg10.DecodeReadsFields(r, x);
    case ClassB(x) => Msg18.DecodeReadsFields(r, x);
    case ExtendedClassB(x) => Msg19.DecodeReadsFields(r, x);
    case StaticData(x) => Msg24.DecodeReadsFields(r, x);
    case LongRange(x) => Msg27.DecodeReadsFields(r, x);
  }

  /** Messages are built by their decoders only. So every message a program can hold is well
      formed, and decoding its encoding gives it back. */
  lemma HeldMessagesRoundTrip(t: nat, r: BitReader)
    requires DecoderFor(t).Some?
    ensures DecoderFor(t).value(r).Success? ==>
              var m := DecoderFor(t).value(r).value;
              && m.IsWellFormed() && m.Encoding().Success?
              && DecodedMessage(AllDecoders(), m.Encoding().value.0, m.Encoding().value.1) == Success(m)
  {
    hide DecoderFor, DecodedMessage, Message.Encoding, Message.Fields, Message.IsDecodable, AllDecoders;
    if DecoderFor(t).value(r).Success? {
      var m := DecoderFor(t).value(r).value;
      DecodedMatches(t, r, m);
      RewriteLayout(m.Fields(), r.Bits());
      RoundTrip(m);
    }
  }

  // ------------------------------------------------------------------
  // Exactly when decoding fails
  // ------------------------------------------------------------------

  /** The error that a payload deserves, judged by its characters, its length and two of its
      fields. Bits beyond the payload count as zeros up to a whole number of bytes. */
  function Verdict(p: string, fill: nat): Option<ErrorCode> {
    if p == "" then Some(PayloadEmpty)
    else if fill > 5 then Some(PayloadFillBitsInvalid)
    else if !IsPayload(p) then Some(PayloadCharInvalid)
    else
      var bits := Padded(p, fill);
      var t := Value(bits[..6]);
      if t == 0 || t > 27 then Some(MessageTypeUnknown)
      else if DecoderFor(t).None? then Some(MessageTypeUnsupported)
      else if 8 * ByteCount(6 * |p| - fill) < LengthFor(t) then Some(PayloadTooShort)
      else if t == 24 && Value(bits[38..40]) > 1 then Some(MessageDecodeFailure)
      else None
  }

  /** The bits of a payload, padded with zeros to whole bytes. */
  function Padded(p: string, fill: nat): (b: BitString)
    requires p != "" && fill <= 5 && IsPayload(p)
    ensures |b| == 8 * ByteCount(6 * |p| - fill) >= 8
  {
    var bits := PayloadBits(p)[..6 * |p| - fill];
    bits + Zeros(8 * ByteCount(|bits|) - |bits|)
  }

  /** What a registry makes of a payload, whatever decoders it holds: a payload that is none gets
      its own error; of the others the first six bits pick a slot, an empty slot gives
      MessageTypeUnsupported, and the decoder in it decides everything else. */
  lemma TableOutcome(table: seq<Option<Decoder>>, p: string, fill: nat)
    requires |table| == SLOTS
    ensures var result := DecodedMessage(table, p, fill);
            if p == "" then result == Failure(PayloadEmpty)
            else if fill > 5 then result == Failure(PayloadFillBitsInvalid)
            else if !IsPayload(p) then result == Failure(PayloadCharInvalid)
            else
              var t := Value(Padded(p, fill)[..6]);
              if t == 0 || t > 27 then result == Failure(MessageTypeUnknown)
              else if table[t] == None then result == Failure(MessageTypeUnsupported)
              else result == table[t].value(BitReader(Pack(PayloadBits(p)[..6 * |p| - fill])))
  {
    hide Padded, PayloadBits, Value, Unpack, Pack, IsPayload;
    if p != "" && fill <= 5 && IsPayload(p) {
      PackedReader(p, fill);
    }
  }

  /** The reader that a decoder is handed holds the padded bits of the payload. */
  lemma PackedReader(p: string, fill: nat)
    requires p != "" && fill <= 5 && IsPayload(p)
    ensures var r := BitReader(Pack(PayloadBits(p)[..6 * |p| - fill]));
            && r.Bits() == Padded(p, fill) && r.BitLength() >= 8
            && r.Uint(0, 6) == Success(Value(Padded(p, fill)[..6])) && r.Uint(0, 6).value < 64
  {
    hide Unpack, Pack, Value, PayloadBits, ByteCount;
    var padded := Padded(p, fill);
    UnpackPack(PayloadBits(p)[..6 * |p| - fill]);
    assert padded[0..6] == padded[..6];
    SixBitsBelow64(padded);
  }

  /** Registering a decoder changes nothing for payloads of other types. */
  lemma OtherSlotsDoNotMatter(table: seq<Option<Decoder>>, u: nat, fn: Option<Decoder>, p: string, fill: nat)
    requires |table| == SLOTS && u < SLOTS
    requires p != "" && fill <= 5 && IsPayload(p) ==> Value(Padded(p, fill)[..6]) != u
    ensures DecodedMessage(table[u := fn], p, fill) == DecodedMessage(table, p, fill)
  {
    hide DecodedMessage;
    TableOutcome(table, p, fill);
    TableOutcome(table[u := fn], p, fill);
  }

  /** A new or cleared registry decodes nothing. */
  lemma EmptyRegistryDecodesNothing(p: string, fill: nat)
    ensures DecodedMessage(NoDecoders(), p, fill).Failure?
  {
    hide DecodedMessage;
    TableOutcome(NoDecoders(), p, fill);
  }

  /** With every decoder registered, decoding fails with exactly the error the payload deserves,
      and otherwise gives a message of the type in its first six bits. In particular no read
      ever runs past the end of a payload that passed the length check. */
  lemma DecodingOutcome(p: string, fill: nat)
    ensures var result := DecodedMessage(AllDecoders(), p, fill);
            match Verdict(p, fill)
            case Some(e) => result == Failure(e)
            case None => result.Success? && result.value.Type() == Value(Padded(p, fill)[..6])
  {
    if p != "" && fill <= 5 && IsPayload(p) {
      PackedReader(p, fill);
      DispatchOutcome(BitReader(Pack(PayloadBits(p)[..6 * |p| - fill])));
    }
  }

  lemma SixBitsBelow64(b: BitString)
    requires |b| >= 6
    ensures Value(b[..6]) < 64
  {
    PowersOfTwo();
  }

  lemma DispatchOutcome(r: BitReader)
    requires r.BitLength() >= 8 && r.Uint(0, 6).Success? && r.Uint(0, 6).value < 64
    ensures var t, result := r.Uint(0, 6).value, Dispatch(AllDecoders(), r);
            if t == 0 || t > 27 then result == Failure(MessageTypeUnknown)
            else if DecoderFor(t).None? then result == Failure(MessageTypeUnsupported)
            else if r.BitLength() < LengthFor(t) then result == Failure(PayloadTooShort)
            else if t == 24 && Value(r.Bits()[38..40]) > 1 then result == Failure(MessageDecodeFailure)
            else result.Success? && result.value.Type() == t
  {
    hide Unpack, Value;
    var t := r.Uint(0, 6).value;
    if DecoderFor(t).Some? {
      DecoderOutcome(t, r);
    }
  }

  /** Decoding sees a payload only as zero-padded bytes: payloads with the same padded bits
      decode alike, whatever their lengths and whatever decoders are registered. */
  lemma OnlyPaddedBitsMatter(table: seq<Option<Decoder>>, p: string, fill: nat, q: string, qFill: nat)
    requires |table| == SLOTS
    requires p != "" && fill <= 5 && IsPayload(p) && q != "" && qFill <= 5 && IsPayload(q)
    requires Padded(p, fill) == Padded(q, qFill)
    ensures DecodedMessage(table, p, fill) == DecodedMessage(table, q, qFill)
  {
    hide Dispatch, Pack, Unpack, PayloadBits;
    var x, y := PayloadBits(p)[..6 * |p| - fill], PayloadBits(q)[..6 * |q| - qFill];
    UnpackPack(x);
    UnpackPack(y);
    UnpackInjective(Pack(x), Pack(y));
  }

  /** The length check counts whole bytes: a payload of `n` bits passes a check for `k` bits
      exactly when it reaches the byte that holds the last of the `k` bits. */
  lemma LengthCheckIsByteGranular(n: nat, k: nat)
    requires k > 0
    ensures 8 * ByteCount(n) >= k <==> n > 8 * (ByteCount(k) - 1)
    ensures n >= k ==> 8 * ByteCount(n) >= k
  {
  }

  /** So a type 10 inquiry, 72 bits long, decodes from 11 characters, which carry 66 bits. */
  lemma ShortPayloadDecodes()
    ensures var p := ":0000000000";
            && 6 * |p| == 66 < LengthFor(10)
            && DecodedMessage(AllDecoders(), p, 0).Success?
  {
    hide DecodedMessage, AllDecoders;
    var p := ":0000000000";
    assert IsPayload(p);
    FirstChar(p);
    DecodingOutcome(p, 0);
  }

  lemma FirstChar(p: string)
    requires |p| >= 2 && IsPayload(p)
    ensures Value(Padded(p, 0)[..6]) == ArmourDecode(p[0])
  {
    var six := ArmourDecode(p[0]);
    forall k | 0 <= k < 6
      ensures Padded(p, 0)[k] == UintBits(six, 6)[k]
    {
      PayloadBitAt(p, 0, k);
    }
    assert Padded(p, 0)[..6] == UintBits(six, 6);
    ValueOfSix(six);
  }
}
