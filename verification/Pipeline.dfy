/** From lines of text to messages: parse, assemble, decode. */
module Pipeline {
  import opened Results
  import opened Integers
  import opened Payloads
  import opened Sentences
  import opened Assembler
  import opened AssemblerRuns
  import opened Registry
  import opened Codec

  /** What receiving one line leads to. */
  datatype Received =
    | Unparsed(parseError: ErrorCode)
    | Refused(feedError: ErrorCode)
    | Waiting
    | Complete(message: Result<Message>)

  /** The event a line causes in the assembler, if it parses. */
  function EventOf(line: string): Option<Event> {
    match Parsed(line)
    case Failure(_) => None
    case Success(s) => Some(Feed(s))
  }

  function EventsOf(lines: seq<string>): seq<Event> {
    if lines == [] then []
    else
      var front := EventsOf(lines[..|lines| - 1]);
      match EventOf(lines[|lines| - 1])
      case None => front
      case Some(e) => front + [e]
  }

  /** What the next line leads to when the assembler is in state `st` and the registry holds
      the decoders of `table`. */
  function Receive(table: seq<Option<Decoder>>, st: State, line: string): (State, Received)
    requires |table| == SLOTS && IsState(st)
  {
    match Parsed(line)
    case Failure(e) => (st, Unparsed(e))
    case Success(s) =>
      var (next, response) := Step(st, s);
      match response
      case Failure(e) => (next, Refused(e))
      case Success(None) => (next, Waiting)
      case Success(Some(msg)) =>
        (next, Complete(DecodedMessage(table, msg.payload, msg.fillBits)))
  }

  /** The assembler's state after a number of lines. */
  function Listen(table: seq<Option<Decoder>>, st: State, lines: seq<string>): (r: State)
    requires |table| == SLOTS && IsState(st)
    ensures IsState(r)
  {
    if lines == [] then st
    else Receive(table, Listen(table, st, lines[..|lines| - 1]), lines[|lines| - 1]).0
  }

  /** One turn of the receiving loop, on an assembler and a registry. */
  method ReceiveLine(assembler: SentenceAssembler, registry: MessageRegistry, line: string)
    returns (r: Received)
    requires assembler.Valid() && registry.Valid()
    modifies assembler
    ensures assembler.Valid() && registry.Table() == old(registry.Table())
    ensures (assembler.sequences, r) == Receive(registry.Table(), old(assembler.sequences), line)
  {
    var sentence := Parse(line);
    if sentence.Failure? {
      return Unparsed(sentence.error);
    }
    var response := assembler.Feed(sentence.value);
    if response.Failure? {
      return Refused(response.error);
    }
    match response.value {
      case None => return Waiting;
      case Some(msg) =>
        var message := registry.Decode(msg.payload, msg.fillBits);
        return Complete(message);
    }
  }

  /** What the receiver says about a line: the parser's error or the assembler's error if there
      is one, that it waits if the message is not complete, and otherwise what the registry
      makes of the assembled payload. */
  lemma ReceiveOutcome(table: seq<Option<Decoder>>, st: State, line: string)
    requires |table| == SLOTS && IsState(st)
    ensures var (next, received) := Receive(table, st, line);
            if Complaint(line).Some? then next == st && received == Unparsed(Complaint(line).value)
            else
              && Parsed(line).Success?
              && next == Step(st, Parsed(line).value).0
              && var reply := Step(st, Parsed(line).value).1;
                 if reply.Failure? then next == st && received == Refused(reply.error)
                 else if reply.value.None? then received == Waiting
                 else received == Complete(DecodedMessage(table, reply.value.value.payload, reply.value.value.fillBits))
  {
    hide Parsed, Complaint, DecodedMessage;
    ParseOutcome(line);
    if Complaint(line).None? && Step(st, Parsed(line).value).1.Failure? {
      RejectionIsAtomic(st, Feed(Parsed(line).value));
    }
  }

  /** The next state depends on the line and the assembler only. */
  lemma ReceiveIsApply(table: seq<Option<Decoder>>, st: State, line: string)
    requires |table| == SLOTS && IsState(st)
    ensures Receive(table, st, line).0 ==
            match EventOf(line) { case None => st case Some(e) => Apply(st, e).0 }
  {
    hide Parsed, Step, DecodedMessage;
  }

  /** Lines that do not parse leave no trace; the others are a run of the assembler, whatever
      decoders are registered. */
  lemma {:induction false} ListenIsRun(table: seq<Option<Decoder>>, st: State, lines: seq<string>)
    requires |table| == SLOTS && IsState(st)
    ensures Listen(table, st, lines) == Run(st, EventsOf(lines))
  {
    if lines == [] {
    } else {
      hide Parsed, Step, DecodedMessage;
      var front, line := lines[..|lines| - 1], lines[|lines| - 1];
      hide Receive, Apply;
      ListenIsRun(table, st, front);
      ReceiveIsApply(table, Listen(table, st, front), line);
      if EventOf(line).Some? {
        RunSnoc(st, EventsOf(front), EventOf(line).value);
      }
    }
  }

  // ------------------------------------------------------------------
  // Sending a message
  // ------------------------------------------------------------------

  /** The sentence parameters that do not depend on the message. */
  datatype Tag = Tag(talker: string, sentenceType: string, channel: char, seqId: uint8) {
    predicate IsValid() {
      && talker in TALKERS
      && (sentenceType == "VDM" || sentenceType == "VDO")
      && channel != ','
      && seqId <= MAX_SEQ_ID
    }
  }

  /** One sentence for each piece of a payload; a single sentence carries no sequence id. */
  function Sentenced(pieces: seq<string>, tag: Tag): (parts: seq<Sentence>)
    requires 1 <= |pieces| <= MAX_SENTENCE_PARTS
    ensures |parts| == |pieces|
  {
    seq(|pieces|, i requires 0 <= i < |pieces| =>
      Sentence(tag.talker, tag.sentenceType, |pieces|, i + 1,
               if |pieces| == 1 then None else Some(tag.seqId), tag.channel, pieces[i], 0))
  }

  /** The sentences as lines of text. */
  function Rendered(parts: seq<Sentence>): (lines: seq<string>)
    requires forall i :: 0 <= i < |parts| ==> Sentences.IsValid(parts[i])
    ensures |lines| == |parts|
  {
    seq(|parts|, i requires 0 <= i < |parts| => Render(parts[i]))
  }

  lemma {:induction false} PieceOfPayload(pieces: seq<string>, i: nat)
    requires i < |pieces| && IsPayload(Concat(pieces))
    ensures IsPayload(pieces[i])
  {
    var n := |pieces| - 1;
    var front := Concat(pieces[..n]);
    assert Concat(pieces)[..|front|] == front;
    if i == n {
      assert Concat(pieces)[|front|..] == pieces[i];
    } else {
      PieceOfPayload(pieces[..n], i);
    }
  }

  lemma OnePiece(pieces: seq<string>)
    requires |pieces| == 1
    ensures Concat(pieces) == pieces[0]
  {
    assert pieces[..0] == [];
  }

  lemma SentencesValid(pieces: seq<string>, tag: Tag)
    requires 1 <= |pieces| <= MAX_SENTENCE_PARTS && tag.IsValid()
    requires IsPayload(Concat(pieces)) && Concat(pieces) != ""
    ensures forall i :: 0 <= i < |pieces| ==> Sentences.IsValid(Sentenced(pieces, tag)[i])
  {
    hide Concat, IsPayload, Sentences.IsValid;
    forall i | 0 <= i < |pieces|
      ensures Sentences.IsValid(Sentenced(pieces, tag)[i])
    {
      PieceOfPayload(pieces, i);
      if |pieces| == 1 { OnePiece(pieces); }
      SentenceValid(pieces, tag, i);
    }
  }

  lemma SentenceValid(pieces: seq<string>, tag: Tag, i: nat)
    requires i < |pieces| <= MAX_SENTENCE_PARTS && tag.IsValid() && IsPayload(pieces[i])
    requires |pieces| == 1 ==> pieces[0] != ""
    ensures Sentences.IsValid(Sentenced(pieces, tag)[i])
  {
    NoComma(pieces[i]);
  }

  lemma NoComma(p: string)
    requires IsPayload(p)
    ensures ',' !in p
  {
  }

  /** The payload of an encoded message is not empty. */
  lemma PayloadExists(m: Message)
    ensures m.Encoding().Success? && IsPayload(m.Encoding().value.0) && m.Encoding().value.0 != ""
  {
    FieldsEnd(m);
    EncodingIs(m);
  }

  // ------------------------------------------------------------------
  // End to end
  // ------------------------------------------------------------------

  /** The last part of a well-formed message completes it, whatever lines came before: parts
      1..n-1 of the message in order, other traffic, resends, and lines that do not parse. */
  lemma DeliveredThroughNoise(st: State, before: seq<string>, parts: seq<Sentence>, k: uint8, m: Message)
    requires IsState(st) && k !in st && m.IsWellFormed()
    requires IsMessage(parts, k) && Sentences.IsValid(parts[|parts| - 1])
    requires m.Encoding() == Success((Concat(PartPayloads(parts)), parts[|parts| - 1].fillBits as nat))
    requires Carried(EventsOf(before), parts, k, |parts| - 1)
    ensures var table := AllDecoders();
            var (next, received) := Receive(table, Listen(table, st, before), Render(parts[|parts| - 1]));
            received == Complete(Success(m)) && k !in next
  {
    hide Parsed, Render, Step, DecodedMessage, Message.Encoding, Message.IsWellFormed;
    var last := parts[|parts| - 1];
    ParseOfRender(last);
    ListenIsRun(AllDecoders(), st, before);
    Delivery(st, EventsOf(before), parts, k);
    RunSnoc(st, EventsOf(before), Feed(last));
    RoundTrip(m);
  }

  lemma SameEntries(a: State, b: State)
    requires forall k: uint8 :: Entry(a, k) == Entry(b, k)
    ensures a == b
  {
    forall k: uint8
      ensures k in a <==> k in b
      ensures k in a ==> a[k] == b[k]
    {
      assert Entry(a, k) == Entry(b, k);
    }
  }

  /** After the first `j` lines of a message only its own entry differs. */
  lemma {:induction false} PartialLines(table: seq<Option<Decoder>>, st: State, parts: seq<Sentence>, k: uint8, j: nat)
    requires |table| == SLOTS && IsState(st) && k !in st && IsMessage(parts, k) && j < |parts|
    requires forall i :: 0 <= i < |parts| ==> Sentences.IsValid(parts[i])
    ensures var after := Listen(table, st, Rendered(parts)[..j]);
            && Entry(after, k) == InFlight(parts, j)
            && forall l: uint8 | l != k :: Entry(after, l) == Entry(st, l)
  {
    hide Parsed, Render, Step, DecodedMessage, Receive, Sentences.IsValid;
    var lines := Rendered(parts);
    if j == 0 {
      assert lines[..0] == [];
    } else {
      PartialLines(table, st, parts, k, j - 1);
      assert lines[..j][..j - 1] == lines[..j - 1];
      LineTaken(table, Listen(table, st, lines[..j - 1]), parts, k, j - 1);
    }
  }

  /** What the line of the next part leads to. */
  lemma LineTaken(table: seq<Option<Decoder>>, st: State, parts: seq<Sentence>, k: uint8, j: nat)
    requires |table| == SLOTS && IsState(st) && IsMessage(parts, k) && j < |parts| && Sentences.IsValid(parts[j])
    requires Entry(st, k) == InFlight(parts, j)
    ensures var (next, received) := Receive(table, st, Render(parts[j]));
            && (forall l: uint8 | l != k :: Entry(next, l) == Entry(st, l))
            && if j + 1 < |parts| then Entry(next, k) == InFlight(parts, j + 1) && received == Waiting
               else
                 && Entry(next, k) == None
                 && received == Complete(DecodedMessage(table, Whole(parts).payload, Whole(parts).fillBits))
  {
    hide Parsed, Render, Step, DecodedMessage;
    ParseOfRender(parts[j]);
    PartIsTaken(st, parts, k, j);
    var e := Feed(parts[j]);
    forall l: uint8 | l != k
      ensures Entry(Apply(st, e).0, l) == Entry(st, l)
    {
      StepIsLocal(st, st, e, l);
    }
  }

  /** End to end: cut the payload of a well-formed message into one to five pieces in any way,
      render each as a sentence, and receive the lines in order under an id not in progress.
      Every line but the last leaves the receiver waiting, the last one yields exactly the
      original message, and the assembler is then as it was before. */
  lemma EndToEnd(st: State, m: Message, pieces: seq<string>, tag: Tag)
    requires IsState(st) && m.IsWellFormed() && tag.IsValid()
    requires tag.seqId !in st
    requires 1 <= |pieces| <= MAX_SENTENCE_PARTS
    requires m.Encoding().Success? && Concat(pieces) == m.Encoding().value.0
    ensures forall i :: 0 <= i < |pieces| ==> Sentences.IsValid(Sentenced(pieces, tag)[i])
    ensures var table, lines := AllDecoders(), Rendered(Sentenced(pieces, tag));
            && (forall j :: 0 <= j < |lines| - 1 ==> Receive(table, Listen(table, st, lines[..j]), lines[j]).1 == Waiting)
            && Receive(table, Listen(table, st, lines[..|lines| - 1]), lines[|lines| - 1]) == (st, Complete(Success(m)))
  {
    hide Parsed, Render, Step, DecodedMessage, Message.Encoding, Message.IsWellFormed, Receive, Listen;
    PayloadExists(m);
    SentencesValid(pieces, tag);
    RoundTrip(m);
    if |pieces| == 1 {
      OneLine(AllDecoders(), st, pieces, tag);
    } else {
      ManyLines(AllDecoders(), st, pieces, tag);
    }
  }

  lemma OneLine(table: seq<Option<Decoder>>, st: State, pieces: seq<string>, tag: Tag)
    requires |table| == SLOTS && IsState(st) && |pieces| == 1
    requires forall i :: 0 <= i < |pieces| ==> Sentences.IsValid(Sentenced(pieces, tag)[i])
    ensures var lines := Rendered(Sentenced(pieces, tag));
            Receive(table, Listen(table, st, lines[..0]), lines[0]) == (st, Complete(DecodedMessage(table, Concat(pieces), 0)))
  {
    hide Parsed, Render, DecodedMessage;
    var s := Sentenced(pieces, tag)[0];
    ParseOfRender(s);
    assert pieces[..0] == [];
    assert Concat(pieces) == pieces[0];
  }

  lemma ManyLines(table: seq<Option<Decoder>>, st: State, pieces: seq<string>, tag: Tag)
    requires |table| == SLOTS && IsState(st) && tag.IsValid() && tag.seqId !in st
    requires 2 <= |pieces| <= MAX_SENTENCE_PARTS
    requires IsPayload(Concat(pieces)) && Concat(pieces) != ""
    requires forall i :: 0 <= i < |pieces| ==> Sentences.IsValid(Sentenced(pieces, tag)[i])
    ensures var lines := Rendered(Sentenced(pieces, tag));
            && (forall j :: 0 <= j < |lines| - 1 ==> Receive(table, Listen(table, st, lines[..j]), lines[j]).1 == Waiting)
            && Receive(table, Listen(table, st, lines[..|lines| - 1]), lines[|lines| - 1]) == (st, Complete(DecodedMessage(table, Concat(pieces), 0)))
  {
    hide Parsed, Render, Step, DecodedMessage, Receive, Listen;
    var parts, n := Sentenced(pieces, tag), |pieces| - 1;
    var lines := Rendered(parts);
    forall j | 0 <= j < n
      ensures Receive(table, Listen(table, st, lines[..j]), lines[j]).1 == Waiting
    {
      PartialLines(table, st, parts, tag.seqId, j);
      LineTaken(table, Listen(table, st, lines[..j]), parts, tag.seqId, j);
    }
    PartialLines(table, st, parts, tag.seqId, n);
    LineTaken(table, Listen(table, st, lines[..n]), parts, tag.seqId, n);
    assert PartPayloads(parts) == pieces;
    SameEntries(Receive(table, Listen(table, st, lines[..n]), lines[n]).0, st);
  }
}
