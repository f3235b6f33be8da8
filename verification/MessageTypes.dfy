/** Message type identifiers, and the encoding every message shares. */
module MessageTypes {
  import opened Results
  import opened Bits
  import opened Integers
  import opened BitReaders
  import opened Layouts
  import opened Payloads

  /** The enumerators of `MessageType`, by number. */
  type MessageType = t: uint8 | t <= 27 witness 0

  const UNKNOWN: MessageType := 0
  const POSITION_REPORT_CLASS_A: MessageType := 1
  const POSITION_REPORT_CLASS_A_ASSIGNED: MessageType := 2
  const POSITION_REPORT_CLASS_A_RESPONSE: MessageType := 3
  const BASE_STATION_REPORT: MessageType := 4
  const STATIC_AND_VOYAGE_DATA: MessageType := 5
  const STANDARD_SAR_POSITION_REPORT: MessageType := 9
  const UTC_DATE_INQUIRY: MessageType := 10
  const UTC_DATE_RESPONSE: MessageType := 11
  const STANDARD_CLASS_B_POSITION_REPORT: MessageType := 18
  const EXTENDED_CLASS_B_POSITION_REPORT: MessageType := 19
  const CLASS_B_STATIC_DATA_REPORT: MessageType := 24
  const LONG_RANGE_POSITION_REPORT: MessageType := 27

  /** `message_type_from_id` */
  function TypeFromId(id: uint8): MessageType {
    if 1 <= id <= 27 then id else UNKNOWN
  }

  /** The fields every message starts with. */
  function Header(messageType: MessageType, repeatIndicator: uint8, mmsi: uint32): (l: Layout)
    ensures l.End() == 38
    ensures forall b {:trigger l.Reads(b)} :: l.Reads(b) ==
              (&& UintField(b, 0, 6) == Success(messageType)
               && UintField(b, 6, 2) == Success(repeatIndicator)
               && UintField(b, 8, 30) == Success(mmsi))
  {
    Empty.U(messageType, 6).U(repeatIndicator, 2).U(mmsi, 30)
  }

  /** The payload of a message: the first `length` bits of the buffer its fields are written to. */
  function EncodedFields(l: Layout, length: nat): Result<(string, nat)> {
    Encoded(Pack(l.Image()), length)
  }
}
