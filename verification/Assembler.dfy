/** Reassembly of multi-part messages. */
module Assembler {
  import opened Results
  import opened Integers
  import opened Sentences

  datatype AssembledMessage = AssembledMessage(
    payload: string, fillBits: uint8, isOwnVessel: bool, talker: string)

  /** A message whose first `received` parts have arrived. */
  datatype Sequence = Sequence(
    parts: seq<string>, partCount: uint8, received: uint8,
    talker: string, sentenceType: string, isOwnVessel: bool)

  /** The messages in progress, by sequential message identifier. */
  type State = map<uint8, Sequence>

  type Response = Result<Option<AssembledMessage>>

  function Concat(parts: seq<string>): string {
    if parts == [] then "" else Concat(parts[..|parts| - 1]) + parts[|parts| - 1]
  }

  /** Every sequence in progress waits for at least one more part, and holds the parts that
      arrived in front of empty slots. */
  predicate IsPartial(q: Sequence) {
    && 2 <= q.partCount <= MAX_SENTENCE_PARTS
    && 1 <= q.received < q.partCount
    && |q.parts| == q.partCount
    && (forall i :: q.received <= i < |q.parts| ==> q.parts[i] == "")
    && q.isOwnVessel == (q.sentenceType == "VDO")
  }

  predicate IsState(st: State) {
    forall k :: k in st ==> IsPartial(st[k])
  }

  function EmptyParts(n: nat): (parts: seq<string>)
    ensures |parts| == n && forall i :: 0 <= i < n ==> parts[i] == ""
  {
    seq(n, _ => "")
  }

  function SinglePart(s: Sentence): AssembledMessage {
    AssembledMessage(s.payload, s.fillBits, s.sentenceType == "VDO", s.talker)
  }

  /** The sequence that the first part of a message opens. */
  function Opened(s: Sentence): Sequence {
    Sequence(EmptyParts(s.partCount), s.partCount, 0, s.talker, s.sentenceType, s.sentenceType == "VDO")
  }

  /** Why a part is refused, when its sequence is `q` or there is none. */
  function Refusal(q: Option<Sequence>, s: Sentence): Option<ErrorCode> {
    match q
    case None => if s.partIndex != 1 then Some(MultipartOutOfOrder) else None
    case Some(q) =>
      if q.partCount != s.partCount then Some(MultipartCountInvalid)
      else if s.sentenceType != q.sentenceType then Some(MultipartTalkerConflict)
      else if s.partIndex == q.received + 1 then None
      else if s.partIndex <= q.received then Some(MultipartDuplicate)
      else Some(MultipartOutOfOrder)
  }

  function Entry(st: State, k: uint8): Option<Sequence> {
    if k in st then Some(st[k]) else None
  }

  /** The state and the response of one `feed`. */
  function Step(st: State, s: Sentence): (r: (State, Response))
    requires IsState(st)
    ensures IsState(r.0)
  {
    if s.IsSinglePart() then (st, Success(Some(SinglePart(s))))
    else if s.partCount == 0 || s.partCount > MAX_SENTENCE_PARTS then (st, Failure(MultipartCountInvalid))
    else if s.seqId.None? then (st, Failure(MultipartSeqInvalid))
    else
      var k := s.seqId.value;
      match Refusal(Entry(st, k), s)
      case Some(e) => (st, Failure(e))
      case None =>
        var q := if k in st then st[k] else Opened(s);
        var parts := q.parts[s.partIndex - 1 := s.payload];
        if q.received + 1 < q.partCount then
          (st[k := q.(parts := parts, received := q.received + 1)], Success(None))
        else
          (st - {k}, Success(Some(AssembledMessage(Concat(parts), s.fillBits, q.isOwnVessel, q.talker))))
  }

  // ------------------------------------------------------------------
  // Runs
  // ------------------------------------------------------------------

  datatype Event = Feed(sentence: Sentence) | Reset

  datatype Reply = Fed(response: Response) | Cleared

  function Apply(st: State, e: Event): (r: (State, Reply))
    requires IsState(st)
    ensures IsState(r.0)
  {
    match e
    case Feed(s) => var (next, response) := Step(st, s); (next, Fed(response))
    case Reset => (map[], Cleared)
  }

  /** The state after a run of events. */
  function Run(st: State, es: seq<Event>): (r: State)
    requires IsState(st)
    ensures IsState(r)
  {
    if es == [] then st else Apply(Run(st, es[..|es| - 1]), es[|es| - 1]).0
  }

  /** The reply to the last event of a run. */
  function LastReply(st: State, es: seq<Event>): Reply
    requires IsState(st) && es != []
  {
    Apply(Run(st, es[..|es| - 1]), es[|es| - 1]).1
  }

  /** The replies to all the events of a run. */
  function Replies(st: State, es: seq<Event>): (r: seq<Reply>)
    requires IsState(st)
    ensures |r| == |es|
  {
    seq(|es|, i requires 0 <= i < |es| => LastReply(st, es[..i + 1]))
  }

  /** A run is built one event at a time. */
  lemma RunStep(st: State, es: seq<Event>, e: Event)
    requires IsState(st)
    ensures Run(st, es + [e]) == Apply(Run(st, es), e).0
    ensures LastReply(st, es + [e]) == Apply(Run(st, es), e).1
  {
    hide Apply;
    assert (es + [e])[..|es|] == es;
  }

  // ------------------------------------------------------------------
  // The assembler
  // ------------------------------------------------------------------

  class SentenceAssembler {
    var sequences: State
    ghost var history: seq<Event>

    /** The buffered sequences are those of the run of everything that was fed so far. */
    ghost predicate Valid()
      reads this
    {
      sequences == Run(map[], history)
    }

    constructor ()
      ensures Valid() && history == []
    {
      sequences, history := map[], [];
    }

    /** Feeds one sentence: the response is the reply of the run extended by it. */
    method Feed(sentence: Sentence) returns (r: Response)
      requires Valid()
      modifies this
      ensures Valid() && history == old(history) + [Event.Feed(sentence)]
      ensures (sequences, r) == Step(old(sequences), sentence)
      ensures Fed(r) == LastReply(map[], history)
    {
      hide Run, LastReply;
      RunStep(map[], history, Event.Feed(sentence));
      history := history + [Event.Feed(sentence)];
      if sentence.IsSinglePart() {
        return Success(Some(AssembledMessage(sentence.payload, sentence.fillBits,
                                             sentence.sentenceType == "VDO", sentence.talker)));
      }
      var partCount, partIndex := sentence.partCount, sentence.partIndex;
      if partCount == 0 || partCount > MAX_SENTENCE_PARTS {
        return Failure(MultipartCountInvalid);
      }
      if sentence.seqId.None? {
        return Failure(MultipartSeqInvalid);
      }
      var seqId := sentence.seqId.value;
      if seqId !in sequences {
        if partIndex != 1 {
          return Failure(MultipartOutOfOrder);
        }
        sequences := sequences[seqId := Opened(sentence)];
      } else {
        var existing := sequences[seqId];
        if existing.partCount != partCount {
          return Failure(MultipartCountInvalid);
        }
        if sentence.sentenceType != existing.sentenceType {
          return Failure(MultipartTalkerConflict);
        }
        var expectedNext := existing.received + 1;
        if partIndex != expectedNext {
          if partIndex <= existing.received {
            return Failure(MultipartDuplicate);
          }
          return Failure(MultipartOutOfOrder);
        }
      }
      var q := sequences[seqId];
      q := q.(parts := q.parts[partIndex - 1 := sentence.payload], received := q.received + 1);
      sequences := sequences[seqId := q];
      if q.received < q.partCount {
        assert sequences == Step(old(sequences), sentence).0;
        return Success(None);
      }
      var payload := ConcatParts(q.parts);
      sequences := sequences - {seqId};
      assert sequences == Step(old(sequences), sentence).0;
      return Success(Some(AssembledMessage(payload, sentence.fillBits, q.isOwnVessel, q.talker)));
    }

    method Reset()
      requires Valid()
      modifies this
      ensures Valid() && history == old(history) + [Event.Reset]
      ensures sequences == map[]
    {
      RunStep(map[], history, Event.Reset);
      history := history + [Event.Reset];
      sequences := map[];
    }

    method PendingCount() returns (n: nat)
      requires Valid()
      ensures n == |Run(map[], history)|
    {
      n := |sequences|;
    }
  }

  /** The loop of `feed` that joins the parts. */
  method ConcatParts(parts: seq<string>) returns (payload: string)
    ensures payload == Concat(parts)
  {
    payload := "";
    for i := 0 to |parts|
      invariant payload == Concat(parts[..i])
    {
      payload := payload + parts[i];
      assert parts[..i + 1][..i] == parts[..i];
    }
    assert parts[..|parts|] == parts;
  }
}
