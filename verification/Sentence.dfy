/** Parsing NMEA sentences. */
module Sentences {
  import opened Results
  import opened Integers
  import opened Text

  const MAX_SENTENCE_PARTS: nat := 5
  const MAX_SEQ_ID: nat := 9
  const TALKERS: seq<string> := ["AB", "AI", "AN", "AR", "AS", "AT", "AX", "BS", "SA"]

  datatype Sentence = Sentence(
    talker: string, sentenceType: string, partCount: uint8, partIndex: uint8,
    seqId: Option<uint8>, channel: char, payload: string, fillBits: uint8)
  {
    predicate IsSinglePart() { partCount == 1 }
  }

  // ------------------------------------------------------------------
  // The parser
  // ------------------------------------------------------------------

  predicate IsEol(c: char) { c == '\r' || c == '\n' }

  /** The string without its trailing carriage returns and line feeds. */
  function StripEol(s: string): (t: string)
    ensures t <= s
    ensures t != "" ==> t[|t| - 1] != '\r' && t[|t| - 1] != '\n'
    ensures forall i :: |t| <= i < |s| ==> s[i] == '\r' || s[i] == '\n'
  {
    if s != "" && IsEol(s[|s| - 1]) then StripEol(s[..|s| - 1]) else s
  }

  /** Index of the last `c`, or -1. */
  function LastIndex(s: string, c: char): (i: int)
    ensures -1 <= i < |s|
    ensures i >= 0 ==> s[i] == c
    ensures forall j :: i < j < |s| ==> s[j] != c
  {
    if s == "" then -1
    else if s[|s| - 1] == c then |s| - 1
    else LastIndex(s[..|s| - 1], c)
  }

  function SeqIdOf(field: string, partCount: uint8): Result<Option<uint8>> {
    if field != "" then
      match Uint8Of(field)
      case None => Failure(MultipartSeqInvalid)
      case Some(id) => if id > MAX_SEQ_ID then Failure(MultipartSeqInvalid) else Success(Some(id))
    else if partCount > 1 then Failure(MultipartSeqInvalid)
    else Success(None)
  }

  /** The sentence that a body's fields stand for, checked in the order of the source. */
  function FieldsSentence(fields: seq<string>): Result<Sentence> {
    if |fields| < 7 then Failure(SentenceFieldMissing)
    else if |fields[0]| != 5 then Failure(SentenceFieldInvalid)
    else
      var talker, sentenceType := fields[0][..2], fields[0][2..5];
      if talker !in TALKERS then Failure(SentenceTalkerInvalid)
      else if sentenceType != "VDM" && sentenceType != "VDO" then Failure(SentenceTypeInvalid)
      else
        match Uint8Of(fields[1])
        case None => Failure(MultipartCountInvalid)
        case Some(partCount) =>
          if partCount == 0 || partCount > MAX_SENTENCE_PARTS then Failure(MultipartCountInvalid)
          else match Uint8Of(fields[2])
            case None => Failure(SentenceFieldInvalid)
            case Some(partIndex) =>
              if partIndex == 0 || partIndex > partCount then Failure(SentenceFieldInvalid)
              else
                var seqId :- SeqIdOf(fields[3], partCount);
                var channel := if fields[4] != "" then fields[4][0] else 'A';
                if fields[5] == "" && partCount == 1 then Failure(PayloadEmpty)
                else match Uint8Of(fields[6])
                  case None => Failure(PayloadFillBitsInvalid)
                  case Some(fillBits) =>
                    if fillBits > 5 then Failure(PayloadFillBitsInvalid)
                    else Success(Sentence(talker, sentenceType, partCount, partIndex, seqId,
                                          channel, fields[5], fillBits))
  }

  /** What `Sentence::parse` returns. */
  function Parsed(raw: string): Result<Sentence> {
    if raw == "" then Failure(SentenceEmpty)
    else
      var s := StripEol(raw);
      if |s| < 14 then Failure(SentenceTooShort)
      else if s[0] != '!' && s[0] != '$' then Failure(SentenceInvalidStart)
      else
        var star := LastIndex(s, '*');
        if star < 0 || star + 3 > |s| then Failure(SentenceMissingChecksum)
        else
          var body := s[1..star];
          if Hex8Value(s[star + 1..star + 3]) != Some(Xor(body)) then Failure(SentenceChecksumBad)
          else FieldsSentence(Split(body, ','))
  }

  method Parse(raw: string) returns (r: Result<Sentence>)
    ensures r == Parsed(raw)
  {
    hide FieldsSentence, StripEol, Xor, Parities, UpperHex;
    if raw == "" {
      return Failure(SentenceEmpty);
    }
    var s := StripTrailingEol(raw);
    if |s| < 14 {
      return Failure(SentenceTooShort);
    }
    if s[0] != '!' && s[0] != '$' {
      return Failure(SentenceInvalidStart);
    }
    var star := LastIndex(s, '*');
    if star < 0 {
      return Failure(SentenceMissingChecksum);
    }
    if star + 3 > |s| {
      return Failure(SentenceMissingChecksum);
    }
    var transmitted := ParseHex8(s[star + 1..star + 3]);
    if transmitted == None {
      return Failure(SentenceChecksumBad);
    }
    var body := s[1..star];
    var computedText := ComputeChecksum(body);
    var computed := ParseHex8(computedText);
    Hex8RoundTrip(Xor(body));
    if computed != transmitted {
      return Failure(SentenceChecksumBad);
    }
    var fields := SplitFields(body, ',');
    r := ParseFields(fields);
  }

  /** The loop of `parse` that strips the line ending. */
  method StripTrailingEol(raw: string) returns (s: string)
    ensures s == StripEol(raw)
  {
    var end := |raw|;
    assert raw[..end] == raw;
    while end > 0 && IsEol(raw[end - 1])
      invariant 0 <= end <= |raw|
      invariant StripEol(raw[..end]) == StripEol(raw)
    {
      assert raw[..end][..end - 1] == raw[..end - 1];
      end := end - 1;
    }
    return raw[..end];
  }

  /** The part of `parse` that follows the checksum. */
  method ParseFields(fields: seq<string>) returns (r: Result<Sentence>)
    ensures r == FieldsSentence(fields)
  {
    if |fields| < 7 {
      return Failure(SentenceFieldMissing);
    }
    if |fields[0]| != 5 {
      return Failure(SentenceFieldInvalid);
    }
    var talker, sentenceType := fields[0][..2], fields[0][2..5];
    if talker !in TALKERS {
      return Failure(SentenceTalkerInvalid);
    }
    if sentenceType != "VDM" && sentenceType != "VDO" {
      return Failure(SentenceTypeInvalid);
    }
    var partCount := ParseUint8(fields[1]);
    if partCount == None || partCount.value == 0 || partCount.value > MAX_SENTENCE_PARTS {
      return Failure(MultipartCountInvalid);
    }
    var partIndex := ParseUint8(fields[2]);
    if partIndex == None || partIndex.value == 0 || partIndex.value > partCount.value {
      return Failure(SentenceFieldInvalid);
    }
    var seqId := None;
    if fields[3] != "" {
      seqId := ParseUint8(fields[3]);
      if seqId == None || seqId.value > MAX_SEQ_ID {
        return Failure(MultipartSeqInvalid);
      }
    } else if partCount.value > 1 {
      return Failure(MultipartSeqInvalid);
    }
    var channel := 'A';
    if fields[4] != "" {
      channel := fields[4][0];
    }
    var payload := fields[5];
    if payload == "" && partCount.value == 1 {
      return Failure(PayloadEmpty);
    }
    var fillBits := ParseUint8(fields[6]);
    if fillBits == None || fillBits.value > 5 {
      return Failure(PayloadFillBitsInvalid);
    }
    return Success(Sentence(talker, sentenceType, partCount.value, partIndex.value, seqId,
                            channel, payload, fillBits.value));
  }

  // ------------------------------------------------------------------
  // The sentences the parser produces
  // ------------------------------------------------------------------

  /** The values a parsed sentence can have. */
  predicate IsValid(s: Sentence) {
    && s.talker in TALKERS
    && (s.sentenceType == "VDM" || s.sentenceType == "VDO")
    && 1 <= s.partIndex <= s.partCount <= MAX_SENTENCE_PARTS
    && (s.seqId.Some? ==> s.seqId.value <= MAX_SEQ_ID)
    && (s.seqId.None? ==> s.partCount == 1)
    && s.channel != ','
    && ',' !in s.payload
    && (s.payload == "" ==> s.partCount > 1)
    && s.fillBits <= 5
  }

  /** The fields of a sentence, in canonical form. */
  function RenderFields(s: Sentence): (fields: seq<string>)
    requires IsValid(s)
    ensures |fields| == 7
  {
    [s.talker + s.sentenceType, Digit(s.partCount), Digit(s.partIndex),
     if s.seqId.Some? then Digit(s.seqId.value) else "",
     [s.channel], s.payload, Digit(s.fillBits)]
  }

  /** A sentence as a line of text. */
  function Render(s: Sentence): string
    requires IsValid(s)
  {
    var body := Join(RenderFields(s), ',');
    "!" + body + "*" + Hex8(Xor(body))
  }

  // ------------------------------------------------------------------
  // The grammar of accepted lines
  // ------------------------------------------------------------------

  /** The pieces of a line: start character, comma-separated fields, checksum digits, text
      ignored after the checksum, and line ending. */
  datatype Line = Line(start: char, fields: seq<string>, checksum: string, ignored: string, eol: string) {

    function Body(): string
      requires |fields| >= 1
    {
      Join(fields, ',')
    }

    function Text(): string
      requires |fields| >= 1
    {
      [start] + Body() + "*" + checksum + ignored + eol
    }

    /** The pieces are cut where the parser cuts them, and the checksum is right. */
    predicate IsWellFormed() {
      && (start == '!' || start == '$')
      && |fields| >= 1 && Undelimited(fields, ',')
      && |checksum| == 2 && Hex8Value(checksum) == Some(Xor(Body()))
      && '*' !in ignored
      && (ignored != "" ==> !IsEol(ignored[|ignored| - 1]))
      && (forall i :: 0 <= i < |eol| ==> IsEol(eol[i]))
    }
  }

  /** The fields say the sentence: numbers may have leading zeros, an empty channel means 'A',
      and fields after the seventh are ignored. */
  predicate Denotes(fields: seq<string>, s: Sentence) {
    && IsValid(s)
    && |fields| >= 7
    && fields[0] == s.talker + s.sentenceType
    && Uint8Of(fields[1]) == Some(s.partCount)
    && Uint8Of(fields[2]) == Some(s.partIndex)
    && (if s.seqId.None? then fields[3] == "" else Uint8Of(fields[3]) == s.seqId)
    && s.channel == (if fields[4] == "" then 'A' else fields[4][0])
    && s.payload == fields[5]
    && Uint8Of(fields[6]) == Some(s.fillBits)
  }

  /** The field checks of the source accept exactly the fields that say a valid sentence. */
  lemma FieldsIffDenotes(fields: seq<string>, s: Sentence)
    requires Undelimited(fields, ',')
    ensures FieldsSentence(fields) == Success(s) <==> Denotes(fields, s)
  {
    hide Uint8Of;
    EmptyNumber();
    if FieldsSentence(fields) == Success(s) {
      assert ',' !in fields[4] && ',' !in fields[5];
      assert fields[0] == fields[0][..2] + fields[0][2..5];
    }
    if Denotes(fields, s) {
      assert |s.talker| == 2 && |s.sentenceType| == 3;
      assert fields[0][..2] == s.talker && fields[0][2..5] == s.sentenceType;
    }
  }

  lemma EmptyNumber()
    ensures Uint8Of("") == None
  {
  }

  // ------------------------------------------------------------------

  lemma {:induction false} StripEolAppend(s: string, eol: string)
    requires s != "" && !IsEol(s[|s| - 1])
    requires forall i :: 0 <= i < |eol| ==> IsEol(eol[i])
    ensures StripEol(s + eol) == s
  {
    if eol == "" {
      assert s + eol == s;
    } else {
      StripEolAppend(s, eol[..|eol| - 1]);
      assert (s + eol)[..|s + eol| - 1] == s + eol[..|eol| - 1];
    }
  }

  lemma LastIndexIs(s: string, c: char, i: nat)
    requires i < |s| && s[i] == c
    requires forall j :: i < j < |s| ==> s[j] != c
    ensures LastIndex(s, c) == i
  {
    var k := LastIndex(s, c);
    assert !(k < i < |s|);
  }

  lemma HexDigitsPlain(c: char)
    requires HexValue(c).Some?
    ensures c != '*' && !IsEol(c)
  {
  }

  /** How the parser cuts a well-formed line. */
  lemma LineCuts(line: Line)
    requires line.IsWellFormed()
    ensures var s := StripEol(line.Text());
            && s == [line.start] + line.Body() + "*" + line.checksum + line.ignored
            && LastIndex(s, '*') == 1 + |line.Body()|
  {
    var s := [line.start] + line.Body() + "*" + line.checksum + line.ignored;
    HexDigitsPlain(line.checksum[0]);
    HexDigitsPlain(line.checksum[1]);
    assert s[|s| - 1] == if line.ignored == "" then line.checksum[1] else line.ignored[|line.ignored| - 1];
    StripEolAppend(s, line.eol);
    LastIndexIs(s, '*', 1 + |line.Body()|);
  }

  lemma {:induction false} JoinLength(fields: seq<string>, d: char)
    requires |fields| >= 1
    ensures |fields| >= 2 ==> |Join(fields, d)| >= |fields| - 1 + |fields[0]|
    ensures |Join(fields, d)| >= |fields[0]|
  {
    if |fields| == 1 {
    } else {
      JoinLength(fields[..|fields| - 1], d);
    }
  }

  /** The parser reads a well-formed line as its fields, unless the line is shorter than the
      minimum length. */
  lemma ParseLine(line: Line)
    requires line.IsWellFormed()
    ensures |StripEol(line.Text())| >= 14 ==> Parsed(line.Text()) == FieldsSentence(line.fields)
    ensures FieldsSentence(line.fields).Success? ==> |StripEol(line.Text())| >= 14
  {
    var s := StripEol(line.Text());
    var star := 1 + |line.Body()|;
    LineCuts(line);
    assert s[1..star] == line.Body();
    assert s[star + 1..star + 3] == line.checksum;
    SplitOfJoin(line.fields, ',');
    JoinLength(line.fields, ',');
  }

  /** The line that an accepted string was cut into. */
  lemma LineOf(raw: string) returns (line: Line)
    requires Parsed(raw).Success?
    ensures line.IsWellFormed() && line.Text() == raw
    ensures FieldsSentence(line.fields) == Parsed(raw)
  {
    hide FieldsSentence, Split, Join, Xor, Hex8Value;
    var s := StripEol(raw);
    var star := LastIndex(s, '*');
    var body := s[1..star];
    line := Line(s[0], Split(body, ','), s[star + 1..star + 3], s[star + 3..], raw[|s|..]);
    JoinOfSplit(body, ',');
    assert raw == s + raw[|s|..];
    assert s == [s[0]] + body + "*" + s[star + 1..star + 3] + s[star + 3..];
  }

  /** The parser accepts exactly the lines of the grammar: a string parses as `s` if and only
      if it is a well-formed line whose fields say `s`. */
  lemma ParseIffGrammar(raw: string, s: Sentence)
    ensures Parsed(raw) == Success(s) <==>
            exists line: Line ::
              line.IsWellFormed() && line.Text() == raw && Denotes(line.fields, s)
  {
    if Parsed(raw) == Success(s) {
      var line := LineOf(raw);
      FieldsIffDenotes(line.fields, s);
    }
    forall line: Line | line.IsWellFormed() && line.Text() == raw && Denotes(line.fields, s)
      ensures Parsed(raw) == Success(s)
    {
      FieldsIffDenotes(line.fields, s);
      ParseLine(line);
    }
  }

  /** Every parsed sentence is valid. */
  lemma ParseIsValid(raw: string)
    requires Parsed(raw).Success?
    ensures IsValid(Parsed(raw).value)
  {
    var line := LineOf(raw);
    FieldsIffDenotes(line.fields, Parsed(raw).value);
  }

  lemma RenderedFieldsRead(s: Sentence)
    requires IsValid(s)
    ensures FieldsSentence(RenderFields(s)) == Success(s)
    ensures Undelimited(RenderFields(s), ',')
  {
    assert ',' !in s.talker && ',' !in s.sentenceType;
    FieldsIffDenotes(RenderFields(s), s);
  }

  /** Parsing a rendered sentence gives the sentence back. */
  lemma ParseOfRender(s: Sentence)
    requires IsValid(s)
    ensures Parsed(Render(s)) == Success(s)
  {
    RenderedFieldsRead(s);
    var body := Join(RenderFields(s), ',');
    var line := Line('!', RenderFields(s), Hex8(Xor(body)), "", "");
    Hex8RoundTrip(Xor(body));
    assert line.Text() == Render(s);
    ParseLine(line);
  }

  /** Rendering an accepted string in canonical form and parsing it again changes nothing. */
  lemma ParseRenderParse(raw: string)
    requires Parsed(raw).Success?
    ensures IsValid(Parsed(raw).value)
    ensures Parsed(Render(Parsed(raw).value)) == Parsed(raw)
  {
    ParseIsValid(raw);
    ParseOfRender(Parsed(raw).value);
  }

  // ------------------------------------------------------------------
  // Exactly which error
  // ------------------------------------------------------------------

  /** The error that the fields deserve: the first of these rules that they break. Numbers have
      the value of their decimal digits. */
  function FieldComplaint(f: seq<string>): Option<ErrorCode> {
    if |f| < 7 then Some(SentenceFieldMissing)
    else if |f[0]| != 5 then Some(SentenceFieldInvalid)
    else if f[0][..2] !in {"AB", "AI", "AN", "AR", "AS", "AT", "AX", "BS", "SA"} then Some(SentenceTalkerInvalid)
    else if f[0][2..] !in {"VDM", "VDO"} then Some(SentenceTypeInvalid)
    else if !IsNumber(f[1], 1, 5) then Some(MultipartCountInvalid)
    else if !IsNumber(f[2], 1, Places(f[1])) then Some(SentenceFieldInvalid)
    else if !IsNumber(f[3], 0, 9) && !(f[3] == "" && Places(f[1]) == 1) then Some(MultipartSeqInvalid)
    else if f[5] == "" && Places(f[1]) == 1 then Some(PayloadEmpty)
    else if !IsNumber(f[6], 0, 5) then Some(PayloadFillBitsInvalid)
    else None
  }

  /** The error that a string deserves: the first of these rules that it breaks. `StripEol` and
      `LastIndex` are determined by their contracts. */
  function Complaint(raw: string): Option<ErrorCode> {
    if raw == "" then Some(SentenceEmpty)
    else
      var s := StripEol(raw);
      if |s| < 14 then Some(SentenceTooShort)
      else if s[0] != '!' && s[0] != '$' then Some(SentenceInvalidStart)
      else if '*' !in s || '*' in s[|s| - 2..] then Some(SentenceMissingChecksum)
      else
        var star := LastIndex(s, '*');
        if !IsChecksum(s[star + 1..star + 3], s[1..star]) then Some(SentenceChecksumBad)
        else FieldComplaint(Split(s[1..star], ','))
  }

  /** The field checks fail with exactly the error that the fields deserve. */
  lemma FieldsOutcome(fields: seq<string>)
    ensures match FieldComplaint(fields)
            case Some(e) => FieldsSentence(fields) == Failure(e)
            case None => FieldsSentence(fields).Success?
  {
    hide Uint8Of, Places, IsNumber;
    if |fields| >= 7 && |fields[0]| == 5 {
      NumberInRange(fields[1], 1, 5);
      if IsNumber(fields[1], 1, 5) {
        NumberInRange(fields[2], 1, Places(fields[1]));
      }
      NumberInRange(fields[3], 0, 9);
      NumberInRange(fields[6], 0, 5);
      EmptyNumber();
      assert fields[0][2..5] == fields[0][2..];
    }
  }

  lemma LastTwo(s: string, c: char)
    requires |s| >= 2
    ensures LastIndex(s, c) < 0 <==> c !in s
    ensures LastIndex(s, c) + 3 > |s| <==> c in s[|s| - 2..]
  {
    var tail := s[|s| - 2..];
    assert tail[0] == s[|s| - 2] && tail[1] == s[|s| - 1];
  }

  /** The parser fails with exactly the error that the string deserves, and accepts the
      strings that deserve none. */
  lemma ParseOutcome(raw: string)
    ensures match Complaint(raw)
            case Some(e) => Parsed(raw) == Failure(e)
            case None => Parsed(raw).Success?
  {
    hide FieldsSentence, FieldComplaint, Hex8Value, IsChecksum, Split, StripEol, Xor;
    var s := StripEol(raw);
    var star := LastIndex(s, '*');
    if raw != "" && |s| >= 14 && (s[0] == '!' || s[0] == '$') {
      LastTwo(s, '*');
      if star >= 0 && star + 3 <= |s| {
        assert star != 0;
        ChecksumHolds(s[star + 1..star + 3], s[1..star]);
        FieldsOutcome(Split(s[1..star], ','));
      }
    }
  }

  // ------------------------------------------------------------------
  // Error detection
  // ------------------------------------------------------------------

  /** Changing any single byte between the start character and the last '*' of an accepted
      string makes the parser report a bad checksum and nothing else. */
  lemma CorruptByteDetected(raw: string, i: nat, c: char)
    requires Parsed(raw).Success?
    requires 1 <= i < LastIndex(StripEol(raw), '*')
    requires Byte(c) != Byte(raw[i])
    ensures Parsed(raw[i := c]) == Failure(SentenceChecksumBad)
  {
    hide Xor, Hex8Value, FieldsSentence, StripEol, LastIndex, Split;
    var s := StripEol(raw);
    var star := LastIndex(s, '*');
    var body := s[1..star];
    ChangedCuts(raw, i, c);
    assert s[i := c][1..star] == body[i - 1 := c];
    assert s[i := c][star + 1..star + 3] == s[star + 1..star + 3];
    XorUpdate(body, i - 1, c);
    XorDiffers(Xor(body), Byte(raw[i]), Byte(c));
  }

  /** A change in the body does not move the line ending or the last '*'. */
  lemma ChangedCuts(raw: string, i: nat, c: char)
    requires 1 <= i < LastIndex(StripEol(raw), '*')
    ensures StripEol(raw[i := c]) == StripEol(raw)[i := c]
    ensures LastIndex(StripEol(raw)[i := c], '*') == LastIndex(StripEol(raw), '*')
  {
    var s := StripEol(raw);
    assert raw[i := c] == s[i := c] + raw[|s|..];
    StripEolAppend(s[i := c], raw[|s|..]);
    LastIndexIs(s[i := c], '*', LastIndex(s, '*'));
  }

  lemma XorDiffers(x: bv8, a: bv8, b: bv8)
    requires a != b
    ensures x ^ a ^ b != x
  {
  }

  /** Reordering the bytes of an accepted string's body is never reported as a bad checksum. */
  lemma ReorderedBytesUndetected(line: Line, fields: seq<string>)
    requires line.IsWellFormed() && |fields| >= 1 && Undelimited(fields, ',')
    requires multiset(Join(fields, ',')) == multiset(line.Body())
    ensures line.(fields := fields).IsWellFormed()
    ensures FieldsSentence(fields).Success? ==>
            Parsed(line.(fields := fields).Text()) == FieldsSentence(fields)
  {
    XorPermutation(Join(fields, ','), line.Body());
    ParseLine(line.(fields := fields));
  }
}
