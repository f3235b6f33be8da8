/** What the assembler guarantees over whole runs. */
module AssemblerRuns {
  import opened Results
  import opened Integers
  import opened Sentences
  import opened Assembler

  predicate IsMulti(e: Event) { e.Feed? && !e.sentence.IsSinglePart() }

  /** The event is a multi-part sentence that carries id `k`. */
  predicate Carries(e: Event, k: uint8) {
    IsMulti(e) && e.sentence.seqId == Some(k)
  }

  /** The event can change the entry of id `k`: it carries `k`, or it is a reset. */
  predicate Concerns(e: Event, k: uint8) { e.Reset? || Carries(e, k) }

  predicate IsError(r: Reply) { r.Fed? && r.response.Failure? }

  predicate IsEmission(r: Reply) { r.Fed? && r.response.Success? && r.response.value.Some? }

  /** A run and its replies are built one event at a time. */
  lemma RunSnoc(st: State, es: seq<Event>, e: Event)
    requires IsState(st)
    ensures Run(st, es + [e]) == Apply(Run(st, es), e).0
    ensures LastReply(st, es + [e]) == Apply(Run(st, es), e).1
    ensures Replies(st, es + [e]) == Replies(st, es) + [Apply(Run(st, es), e).1]
  {
    hide Apply;
    var all := es + [e];
    RunStep(st, es, e);
    RepliesPrefix(st, es, e);
    assert all[..|all|] == all;
    assert Replies(st, all)[|es|] == LastReply(st, all);
  }

  lemma RepliesPrefix(st: State, es: seq<Event>, e: Event)
    requires IsState(st)
    ensures Replies(st, es + [e])[..|es|] == Replies(st, es)
  {
    hide LastReply;
    forall i | 0 <= i < |es|
      ensures Replies(st, es + [e])[i] == Replies(st, es)[i]
    {
      assert (es + [e])[..i + 1] == es[..i + 1];
    }
  }

  lemma SplitLast(es: seq<Event>)
    requires es != []
    ensures es == es[..|es| - 1] + [es[|es| - 1]]
  {
  }

  // ------------------------------------------------------------------
  // The state invariant
  // ------------------------------------------------------------------

  predicate AllValid(es: seq<Event>) {
    forall i :: 0 <= i < |es| && es[i].Feed? ==> IsValid(es[i].sentence)
  }

  /** When only parsed sentences are fed, every id in progress is 0..9. */
  lemma {:induction false} IdsInRange(es: seq<Event>)
    requires AllValid(es)
    ensures forall k :: k in Run(map[], es) ==> k <= MAX_SEQ_ID
  {
    if es == [] {
    } else {
      IdsInRange(es[..|es| - 1]);
    }
  }

  /** At most ten messages are ever in progress. */
  lemma PendingBounded(es: seq<Event>)
    requires AllValid(es)
    ensures |Run(map[], es)| <= 10
  {
    hide Run;
    IdsInRange(es);
    var ids: set<uint8> := {0, 1, 2, 3, 4, 5, 6, 7, 8, 9};
    var st := Run(map[], es);
    assert st.Keys <= ids;
    SubsetSize(st.Keys, ids);
  }

  lemma {:induction false} SubsetSize(a: set<uint8>, b: set<uint8>)
    requires a <= b
    ensures |a| <= |b|
    decreases a
  {
    if a == {} {
    } else {
      var x :| x in a;
      SubsetSize(a - {x}, b - {x});
    }
  }

  // ------------------------------------------------------------------
  // Interleaving
  // ------------------------------------------------------------------

  /** The events that concern id `k`. */
  function Restrict(es: seq<Event>, k: uint8): seq<Event> {
    if es == [] then []
    else
      var front, e := Restrict(es[..|es| - 1], k), es[|es| - 1];
      if Concerns(e, k) then front + [e] else front
  }

  /** The replies to the events that concern id `k`. */
  function RepliesTo(es: seq<Event>, replies: seq<Reply>, k: uint8): seq<Reply>
    requires |es| == |replies|
  {
    if es == [] then []
    else
      var n := |es| - 1;
      var front := RepliesTo(es[..n], replies[..n], k);
      if Concerns(es[n], k) then front + [replies[n]] else front
  }

  /** One event changes the entry of `k` and is answered by looking at that entry only. */
  lemma StepIsLocal(a: State, b: State, e: Event, k: uint8)
    requires IsState(a) && IsState(b) && Entry(a, k) == Entry(b, k)
    ensures Concerns(e, k) ==> Entry(Apply(a, e).0, k) == Entry(Apply(b, e).0, k)
    ensures Concerns(e, k) ==> Apply(a, e).1 == Apply(b, e).1
    ensures !Concerns(e, k) ==> Entry(Apply(a, e).0, k) == Entry(a, k)
  {
  }

  /** The entry of `k` and the replies to `k`'s sentences are those of the run in which only
      `k`'s multi-part sentences and the resets happen. */
  lemma {:induction false} Interleaving(a: State, b: State, es: seq<Event>, k: uint8)
    requires IsState(a) && IsState(b) && Entry(a, k) == Entry(b, k)
    ensures Entry(Run(a, es), k) == Entry(Run(b, Restrict(es, k)), k)
    ensures RepliesTo(es, Replies(a, es), k) == Replies(b, Restrict(es, k))
  {
    if es == [] {
    } else {
      var front, e := es[..|es| - 1], es[|es| - 1];
      Interleaving(a, b, front, k);
      SplitLast(es);
      RunSnoc(a, front, e);
      RunSnoc(b, Restrict(front, k), e);
      StepIsLocal(Run(a, front), Run(b, Restrict(front, k)), e, k);
      var r := Replies(a, es);
      assert r[..|front|] == Replies(a, front);
    }
  }

  /** A single-part sentence is delivered at once as it stands, in every state, and changes none. */
  lemma SinglePartIndependent(st: State, s: Sentence)
    requires IsState(st) && s.partCount == 1
    ensures var (next, reply) := Apply(st, Feed(s));
            && next == st && IsEmission(reply)
            && var m := reply.response.value.value;
               && m.payload == s.payload && m.fillBits == s.fillBits && m.talker == s.talker
               && (m.isOwnVessel <==> s.sentenceType == "VDO")
  {
  }

  // ------------------------------------------------------------------
  // Rejection
  // ------------------------------------------------------------------

  /** A refused sentence changes nothing. */
  lemma RejectionIsAtomic(st: State, e: Event)
    requires IsState(st) && IsError(Apply(st, e).1)
    ensures Apply(st, e).0 == st
  {
  }

  /** The events that were not refused. */
  function Accepted(st: State, es: seq<Event>): seq<Event>
    requires IsState(st)
  {
    if es == [] then []
    else
      var front := Accepted(st, es[..|es| - 1]);
      if IsError(LastReply(st, es)) then front else front + [es[|es| - 1]]
  }

  function NonErrors(replies: seq<Reply>): seq<Reply> {
    if replies == [] then []
    else
      var front, r := NonErrors(replies[..|replies| - 1]), replies[|replies| - 1];
      if IsError(r) then front else front + [r]
  }

  /** Deleting every refused sentence keeps the final state and all the other replies. */
  lemma {:induction false} RejectionIsErasable(st: State, es: seq<Event>)
    requires IsState(st)
    ensures Run(st, Accepted(st, es)) == Run(st, es)
    ensures Replies(st, Accepted(st, es)) == NonErrors(Replies(st, es))
  {
    if es == [] {
    } else {
      var front, e := es[..|es| - 1], es[|es| - 1];
      hide Apply;
      RejectionIsErasable(st, front);
      SplitLast(es);
      if IsError(LastReply(st, es)) { RejectionIsAtomic(Run(st, front), e); }
      RunSnoc(st, front, e);
      RunSnoc(st, Accepted(st, front), e);
      var r := Replies(st, es);
      assert r[..|r| - 1] == Replies(st, front);
    }
  }

  // ------------------------------------------------------------------
  // Provenance
  // ------------------------------------------------------------------

  /** The positions of the accepted parts of the message that id `k` has in progress after a
      run from the empty state. */
  function Contributors(es: seq<Event>, k: uint8): (at: seq<nat>)
  {
    if es == [] then []
    else
      var n := |es| - 1;
      var front, reply := Contributors(es[..n], k), LastReply(map[], es);
      if es[n].Reset? then []
      else if !Carries(es[n], k) || IsError(reply) then front
      else if IsEmission(reply) then []
      else front + [n]
  }

  /** The event at position `p` is an accepted sentence with id `k`. */
  predicate IsAccepted(es: seq<Event>, p: nat, k: uint8) {
    p < |es| && Carries(es[p], k) && !IsError(LastReply(map[], es[..p + 1]))
  }

  /** `at` are the positions of parts 1, 2, ... of one message with id `k`, part count `n` and
      type `t` in a run: in order, each accepted, and no reset after the first. */
  predicate AreParts(es: seq<Event>, at: seq<nat>, k: uint8, n: uint8, t: string) {
    && (forall j :: 0 <= j < |at| ==>
          && IsAccepted(es, at[j], k)
          && es[at[j]].sentence.partIndex == j + 1
          && es[at[j]].sentence.partCount == n
          && es[at[j]].sentence.sentenceType == t)
    && (forall i, j :: 0 <= i < j < |at| ==> at[i] < at[j])
    && (at != [] ==> forall i :: at[0] <= i < |es| ==> !es[i].Reset?)
  }

  /** The payloads at the given positions, in order. */
  function PayloadsAt(es: seq<Event>, at: seq<nat>): (p: seq<string>)
    requires forall j :: 0 <= j < |at| ==> at[j] < |es| && es[at[j]].Feed?
    ensures |p| == |at|
  {
    seq(|at|, j requires 0 <= j < |at| => es[at[j]].sentence.payload)
  }

  /** A sequence in progress holds exactly the parts at the given positions. */
  predicate Backs(es: seq<Event>, at: seq<nat>, k: uint8, q: Sequence) {
    && AreParts(es, at, k, q.partCount, q.sentenceType)
    && 1 <= |at| == q.received <= |q.parts|
    && q.parts[..q.received] == PayloadsAt(es, at)
    && q.talker == es[at[0]].sentence.talker
  }

  lemma LaterEvent(es: seq<Event>, e: Event, at: seq<nat>, k: uint8, n: uint8, t: string)
    requires AreParts(es, at, k, n, t) && !e.Reset?
    ensures AreParts(es + [e], at, k, n, t)
    ensures PayloadsAt(es + [e], at) == PayloadsAt(es, at)
  {
    hide LastReply;
    var all := es + [e];
    forall j | 0 <= j < |at|
      ensures IsAccepted(all, at[j], k) && all[at[j]] == es[at[j]]
    {
      assert all[..at[j] + 1] == es[..at[j] + 1];
    }
  }

  lemma NextPart(es: seq<Event>, e: Event, at: seq<nat>, k: uint8, n: uint8, t: string)
    requires AreParts(es, at, k, n, t)
    requires Carries(e, k) && !IsError(LastReply(map[], es + [e]))
    requires e.sentence.partIndex == |at| + 1 && e.sentence.partCount == n && e.sentence.sentenceType == t
    ensures AreParts(es + [e], at + [|es|], k, n, t)
    ensures PayloadsAt(es + [e], at + [|es|]) == PayloadsAt(es, at) + [e.sentence.payload]
  {
    hide LastReply;
    LaterEvent(es, e, at, k, n, t);
    assert (es + [e])[..|es| + 1] == es + [e];
    assert IsAccepted(es + [e], |es|, k);
  }

  /** The sequence that an accepted part joins. */
  function Joined(st: State, s: Sentence): Sequence
    requires s.seqId.Some?
  {
    var k := s.seqId.value;
    if k in st then st[k] else Opened(s)
  }

  /** What accepting a part means for the sequence it joins. */
  lemma AcceptedStep(st: State, e: Event, k: uint8)
    requires IsState(st) && Carries(e, k) && !IsError(Apply(st, e).1)
    ensures var s, q, reply := e.sentence, Joined(st, e.sentence), Apply(st, e).1;
            && 2 <= q.partCount == s.partCount == |q.parts| && s.sentenceType == q.sentenceType
            && s.partIndex == q.received + 1 <= q.partCount
            && q.isOwnVessel == (q.sentenceType == "VDO")
            && (IsEmission(reply) <==> s.partIndex == s.partCount)
            && (IsEmission(reply) ==>
                  && Entry(Apply(st, e).0, k) == None
                  && reply.response.value.value == AssembledMessage(
                       Concat(q.parts[q.received := s.payload]), s.fillBits, q.isOwnVessel, q.talker))
            && (!IsEmission(reply) ==>
                  Entry(Apply(st, e).0, k) ==
                  Some(q.(parts := q.parts[q.received := s.payload], received := q.received + 1)))
  {
  }

  /** What an id has in progress after a run from the empty state is backed by its contributors. */
  predicate IsBacked(es: seq<Event>, k: uint8) {
    match Entry(Run(map[], es), k)
    case None => Contributors(es, k) == []
    case Some(q) => Backs(es, Contributors(es, k), k, q)
  }

  /** The sequence in progress for an id holds the contributing parts, in every reachable state. */
  lemma {:induction false} InProgress(es: seq<Event>, k: uint8)
    ensures IsBacked(es, k)
  {
    if es == [] {
    } else {
      hide IsBacked, LastReply;
      var front, e := es[..|es| - 1], es[|es| - 1];
      SplitLast(es);
      InProgress(front, k);
      if Carries(e, k) && !IsError(LastReply(map[], es)) {
        PartAccepted(front, e, k);
      } else {
        NotAccepted(front, e, k);
      }
    }
  }

  lemma ContributorsSnoc(front: seq<Event>, e: Event, k: uint8)
    ensures var reply := LastReply(map[], front + [e]);
            Contributors(front + [e], k) ==
            if e.Reset? then []
            else if !Carries(e, k) || IsError(reply) then Contributors(front, k)
            else if IsEmission(reply) then []
            else Contributors(front, k) + [|front|]
  {
    hide LastReply;
    assert (front + [e])[..|front|] == front;
  }

  /** Anything but an accepted part of `k` leaves what `k` has in progress, or drops it. */
  lemma NotAccepted(front: seq<Event>, e: Event, k: uint8)
    requires IsBacked(front, k)
    requires !Carries(e, k) || IsError(LastReply(map[], front + [e]))
    ensures IsBacked(front + [e], k)
  {
    hide Step, Run, LastReply, Contributors, AreParts;
    var st := Run(map[], front);
    RunSnoc(map[], front, e);
    ContributorsSnoc(front, e, k);
    if !e.Reset? {
      if Carries(e, k) { RejectionIsAtomic(st, e); } else { StepIsLocal(st, st, e, k); }
      if k in st {
        LaterEvent(front, e, Contributors(front, k), k, st[k].partCount, st[k].sentenceType);
        KeepsFirst(front, e, Contributors(front, k), k, st[k].partCount, st[k].sentenceType);
      }
    }
  }

  lemma KeepsFirst(es: seq<Event>, e: Event, at: seq<nat>, k: uint8, n: uint8, t: string)
    requires AreParts(es, at, k, n, t) && at != []
    ensures at[0] < |es| && (es + [e])[at[0]] == es[at[0]] && es[at[0]].Feed?
  {
    assert IsAccepted(es, at[0], k);
  }

  /** An accepted part is the next part of the message in progress. */
  lemma PartFits(front: seq<Event>, e: Event, k: uint8)
    requires IsBacked(front, k)
    requires Carries(e, k) && !IsError(LastReply(map[], front + [e]))
    ensures var s, q, at := e.sentence, Joined(Run(map[], front), e.sentence), Contributors(front, k) + [|front|];
            && AreParts(front + [e], at, k, s.partCount, s.sentenceType)
            && |at| == s.partIndex <= |q.parts|
            && q.parts[..|at| - 1] + [s.payload] == PayloadsAt(front + [e], at)
            && q.talker == (front + [e])[at[0]].sentence.talker
  {
    hide Step, Run, LastReply, Contributors, AreParts;
    var st, s, at := Run(map[], front), e.sentence, Contributors(front, k);
    RunSnoc(map[], front, e);
    AcceptedStep(st, e, k);
    if at == [] {
      NoParts(front, k, s.partCount, s.sentenceType);
    } else {
      KeepsFirst(front, e, at, k, s.partCount, s.sentenceType);
    }
    NextPart(front, e, at, k, s.partCount, s.sentenceType);
    KeepsFirst(front + [e], e, at + [|front|], k, s.partCount, s.sentenceType);
  }

  lemma NoParts(es: seq<Event>, k: uint8, n: uint8, t: string)
    ensures AreParts(es, [], k, n, t) && PayloadsAt(es, []) == []
  {
  }

  /** An accepted part continues the message in progress. */
  lemma PartAccepted(front: seq<Event>, e: Event, k: uint8)
    requires IsBacked(front, k)
    requires Carries(e, k) && !IsError(LastReply(map[], front + [e]))
    ensures IsBacked(front + [e], k)
  {
    hide Step, Run, LastReply, Contributors, AreParts, Apply, IsBacked, Joined, PayloadsAt;
    var s, at, q := e.sentence, Contributors(front, k) + [|front|], Joined(Run(map[], front), e.sentence);
    RunSnoc(map[], front, e);
    ContributorsSnoc(front, e, k);
    AcceptedStep(Run(map[], front), e, k);
    PartFits(front, e, k);
    if IsEmission(LastReply(map[], front + [e])) {
      BackedByNothing(front + [e], k);
    } else {
      var next := q.(parts := q.parts[q.received := s.payload], received := q.received + 1);
      assert next.parts[..next.received] == q.parts[..q.received] + [s.payload];
      assert Backs(front + [e], at, k, next);
      BackedBy(front + [e], k, next);
    }
  }

  lemma BackedByNothing(es: seq<Event>, k: uint8)
    requires Entry(Run(map[], es), k) == None && Contributors(es, k) == []
    ensures IsBacked(es, k)
  {
  }

  lemma BackedBy(es: seq<Event>, k: uint8, q: Sequence)
    requires Entry(Run(map[], es), k) == Some(q) && Backs(es, Contributors(es, k), k, q)
    ensures IsBacked(es, k)
  {
  }

  /** Every multi-part message that a run emits is the in-order concatenation of exactly its
      parts 1..n: accepted sentences with its id, its part count and its type, with no reset in
      between. Talker and own-vessel flag are the first part's, fill bits the last part's. */
  lemma Provenance(es: seq<Event>, k: uint8)
    requires es != [] && Carries(es[|es| - 1], k) && IsEmission(LastReply(map[], es))
    ensures var n := |es| - 1;
            var at, last := Sources(es, n, k), es[n].sentence;
            && AreParts(es, at, k, last.partCount, last.sentenceType)
            && |at| == last.partCount
            && LastReply(map[], es).response.value.value == AssembledMessage(
                 Concat(PayloadsAt(es, at)), last.fillBits, last.sentenceType == "VDO",
                 es[at[0]].sentence.talker)
  {
    hide Step;
    var front, e := es[..|es| - 1], es[|es| - 1];
    SplitLast(es);
    InProgress(front, k);
    RunSnoc(map[], front, e);
    AcceptedStep(Run(map[], front), e, k);
    PartFits(front, e, k);
    var q := Joined(Run(map[], front), e.sentence);
    assert q.parts[q.received := e.sentence.payload] == q.parts[..q.received] + [e.sentence.payload];
  }

  /** Why a sentence with another part count than 1 is refused, by what was accepted before it:
      when its part count is impossible, when it has no id, with nothing in progress for its id
      exactly when it is not a first part, and otherwise when its part count or its type differs
      from the parts in progress, when one of them has its index already, or when its index skips
      ahead. The parser produces no index 0; it would be answered as a duplicate. */
  lemma RefusalReasons(es: seq<Event>, s: Sentence, k: uint8)
    requires s.partCount != 1 && (s.seqId.Some? ==> s.seqId.value == k)
    ensures var at, reply := Contributors(es, k), LastReply(map[], es + [Feed(s)]);
            if !(2 <= s.partCount <= 5) then reply == Fed(Failure(MultipartCountInvalid))
            else if s.seqId.None? then reply == Fed(Failure(MultipartSeqInvalid))
            else if at == [] then
              if s.partIndex == 1 then !IsError(reply) else reply == Fed(Failure(MultipartOutOfOrder))
            else
              at[0] < |es| && es[at[0]].Feed? &&
              var first := es[at[0]].sentence;
              if s.partCount != first.partCount then reply == Fed(Failure(MultipartCountInvalid))
              else if s.sentenceType != first.sentenceType then reply == Fed(Failure(MultipartTalkerConflict))
              else if HasIndex(es, at, s.partIndex) || s.partIndex == 0 then reply == Fed(Failure(MultipartDuplicate))
              else if s.partIndex == |at| + 1 then !IsError(reply)
              else reply == Fed(Failure(MultipartOutOfOrder))
  {
    hide LastReply, Run;
    InProgress(es, k);
    RunStep(map[], es, Feed(s));
    var at := Contributors(es, k);
    if at != [] {
      assert IsAccepted(es, at[0], k);
      if s.partIndex > 0 { IndicesInProgress(es, at, k, s.partIndex); }
    }
  }

  /** One of the parts at the given positions has the index. */
  predicate HasIndex(es: seq<Event>, at: seq<nat>, index: uint8) {
    exists j :: 0 <= j < |at| && at[j] < |es| && es[at[j]].Feed? && es[at[j]].sentence.partIndex == index
  }

  lemma IndicesInProgress(es: seq<Event>, at: seq<nat>, k: uint8, index: uint8)
    requires index >= 1 && at != [] && IsAccepted(es, at[0], k)
    requires AreParts(es, at, k, es[at[0]].sentence.partCount, es[at[0]].sentence.sentenceType)
    ensures HasIndex(es, at, index) <==> index <= |at|
  {
    hide LastReply;
    if index <= |at| {
      assert IsAccepted(es, at[index - 1], k);
    }
  }

  /** The positions whose sentences make up the message emitted at position `n`. */
  function Sources(es: seq<Event>, n: nat, k: uint8): seq<nat>
    requires n < |es|
  {
    Contributors(es[..n], k) + [n]
  }

  /** After a message with id `k` is emitted, later contributors to `k` come later. */
  lemma {:induction false} ContributorsAfter(es: seq<Event>, n: nat, m: nat, k: uint8)
    requires n < m <= |es|
    requires Carries(es[n], k) && IsEmission(LastReply(map[], es[..n + 1]))
    ensures forall j :: 0 <= j < |Contributors(es[..m], k)| ==> n < Contributors(es[..m], k)[j]
    decreases m
  {
    assert es[..m][..m - 1] == es[..m - 1];
    if m == n + 1 {
    } else {
      ContributorsAfter(es, n, m - 1, k);
    }
  }

  /** No sentence serves two messages. */
  lemma SourcesDisjoint(es: seq<Event>, n: nat, k: uint8, m: nat, l: uint8, i: nat, j: nat)
    requires n < m < |es|
    requires Carries(es[n], k) && IsEmission(LastReply(map[], es[..n + 1]))
    requires Carries(es[m], l) && IsEmission(LastReply(map[], es[..m + 1]))
    requires i < |Sources(es, n, k)| && j < |Sources(es, m, l)|
    ensures Sources(es, n, k)[i] != Sources(es, m, l)[j]
  {
    SourcesAre(es, n, k, i);
    SourcesAre(es, m, l, j);
    if k == l {
      ContributorsAfter(es, n, m, k);
    }
  }

  lemma SourcesAre(es: seq<Event>, n: nat, k: uint8, i: nat)
    requires n < |es| && Carries(es[n], k) && i < |Sources(es, n, k)|
    ensures Sources(es, n, k)[i] <= n && Carries(es[Sources(es, n, k)[i]], k)
  {
    InProgress(es[..n], k);
  }

  // ------------------------------------------------------------------
  // Delivery
  // ------------------------------------------------------------------

  /** The parts 1..n of one message with id `k`. */
  predicate IsMessage(parts: seq<Sentence>, k: uint8) {
    && 2 <= |parts| <= MAX_SENTENCE_PARTS
    && forall i :: 0 <= i < |parts| ==>
         && parts[i].partCount == |parts|
         && parts[i].partIndex == i + 1
         && parts[i].seqId == Some(k)
         && parts[i].sentenceType == parts[0].sentenceType
  }

  /** The event is not the part that comes next after the first `j`: it is a single-part
      sentence, carries another id, has another part count or type, or another index. Resends
      of the first `j` parts are among these. Resets are not. */
  predicate IsNoise(e: Event, parts: seq<Sentence>, k: uint8, j: nat)
    requires parts != []
  {
    && e.Feed?
    && (Carries(e, k) ==>
          || e.sentence.partIndex != j + 1
          || (j > 0 && e.sentence.partCount != |parts|)
          || (j > 0 && e.sentence.sentenceType != parts[0].sentenceType))
  }

  /** The run feeds the first `j` parts in order, with noise in between. */
  predicate Carried(es: seq<Event>, parts: seq<Sentence>, k: uint8, j: nat)
    requires parts != [] && j <= |parts|
  {
    if es == [] then j == 0
    else
      var front, e := es[..|es| - 1], es[|es| - 1];
      || (IsNoise(e, parts, k, j) && Carried(front, parts, k, j))
      || (j > 0 && e == Feed(parts[j - 1]) && Carried(front, parts, k, j - 1))
  }

  function PartPayloads(parts: seq<Sentence>): (p: seq<string>)
    ensures |p| == |parts|
  {
    seq(|parts|, i requires 0 <= i < |parts| => parts[i].payload)
  }

  /** The message that the parts make up. */
  function Whole(parts: seq<Sentence>): AssembledMessage
    requires parts != []
  {
    AssembledMessage(Concat(PartPayloads(parts)), parts[|parts| - 1].fillBits,
                     parts[0].sentenceType == "VDO", parts[0].talker)
  }

  /** What id `k` has in progress after the first `j` parts. */
  function InFlight(parts: seq<Sentence>, j: nat): Option<Sequence>
    requires 0 < |parts| <= MAX_SENTENCE_PARTS && j < |parts|
  {
    if j == 0 then None
    else Some(Sequence(PartPayloads(parts[..j]) + EmptyParts(|parts| - j), |parts|, j,
                       parts[0].talker, parts[0].sentenceType, parts[0].sentenceType == "VDO"))
  }

  lemma NoiseIsIgnored(st: State, e: Event, parts: seq<Sentence>, k: uint8, j: nat)
    requires IsState(st) && IsMessage(parts, k) && j < |parts|
    requires Entry(st, k) == InFlight(parts, j) && IsNoise(e, parts, k, j)
    ensures Entry(Apply(st, e).0, k) == InFlight(parts, j)
  {
  }

  lemma PartIsTaken(st: State, parts: seq<Sentence>, k: uint8, j: nat)
    requires IsState(st) && IsMessage(parts, k) && j < |parts|
    requires Entry(st, k) == InFlight(parts, j)
    ensures var (next, reply) := Apply(st, Feed(parts[j]));
            if j + 1 < |parts| then
              Entry(next, k) == InFlight(parts, j + 1) && reply == Fed(Success(None))
            else
              Entry(next, k) == None && reply == Fed(Success(Some(Whole(parts))))
  {
    var before := if j == 0 then EmptyParts(|parts|) else InFlight(parts, j).value.parts;
    var after := before[j := parts[j].payload];
    assert after == PartPayloads(parts[..j + 1]) + EmptyParts(|parts| - (j + 1));
    assert parts[..|parts|] == parts;
    if j + 1 == |parts| { assert after == PartPayloads(parts); }
  }

  lemma {:induction false} CarriedInFlight(st: State, es: seq<Event>, parts: seq<Sentence>, k: uint8, j: nat)
    requires IsState(st) && k !in st && IsMessage(parts, k) && j < |parts|
    requires Carried(es, parts, k, j)
    ensures Entry(Run(st, es), k) == InFlight(parts, j)
  {
    if es == [] {
    } else {
      var front, e := es[..|es| - 1], es[|es| - 1];
      SplitLast(es);
      RunSnoc(st, front, e);
      if IsNoise(e, parts, k, j) && Carried(front, parts, k, j) {
        CarriedInFlight(st, front, parts, k, j);
        NoiseIsIgnored(Run(st, front), e, parts, k, j);
      } else {
        CarriedInFlight(st, front, parts, k, j - 1);
        PartIsTaken(Run(st, front), parts, k, j - 1);
      }
    }
  }

  /** A message whose parts are fed in order under an id not in progress is delivered whole by
      its last part, and its id is free again, whatever noise comes in between. */
  lemma Delivery(st: State, es: seq<Event>, parts: seq<Sentence>, k: uint8)
    requires IsState(st) && k !in st && IsMessage(parts, k)
    requires Carried(es, parts, k, |parts| - 1)
    ensures var all := es + [Feed(parts[|parts| - 1])];
            && LastReply(st, all) == Fed(Success(Some(Whole(parts))))
            && k !in Run(st, all)
  {
    var j := |parts| - 1;
    CarriedInFlight(st, es, parts, k, j);
    RunSnoc(st, es, Feed(parts[j]));
    PartIsTaken(Run(st, es), parts, k, j);
  }

  /** Resends of accepted parts are noise, and are answered as duplicates. */
  lemma ResendIsDuplicate(st: State, parts: seq<Sentence>, k: uint8, j: nat, i: nat)
    requires IsState(st) && IsMessage(parts, k) && i < j < |parts|
    requires Entry(st, k) == InFlight(parts, j)
    ensures IsNoise(Feed(parts[i]), parts, k, j)
    ensures Apply(st, Feed(parts[i])) == (st, Fed(Failure(MultipartDuplicate)))
  {
  }

  // ------------------------------------------------------------------
  // Delivery from any state
  // ------------------------------------------------------------------

  function Feeds(parts: seq<Sentence>): (es: seq<Event>)
    ensures |es| == |parts|
  {
    seq(|parts|, i requires 0 <= i < |parts| => Feed(parts[i]))
  }

  /** The sequence in progress takes the parts of this message from its next one on. */
  predicate Accepts(q: Sequence, parts: seq<Sentence>)
    requires parts != []
  {
    q.partCount == |parts| && q.sentenceType == parts[0].sentenceType
  }

  /** The slots of a sequence that held `q` after parts `q.received`..`j - 1` were added. */
  function Spliced(q: Sequence, parts: seq<Sentence>, j: nat): seq<string>
    requires IsPartial(q) && q.received <= j <= |parts|
  {
    q.parts[..q.received] + PartPayloads(parts[q.received..j]) + EmptyParts(|parts| - j)
  }

  /** What an id has in progress after the first `j` parts, when it had `q` before. */
  function EntryAfter(q: Option<Sequence>, parts: seq<Sentence>, j: nat): Option<Sequence>
    requires 0 < |parts| <= MAX_SENTENCE_PARTS && j < |parts|
    requires q.Some? ==> IsPartial(q.value)
  {
    match q
    case None => InFlight(parts, j)
    case Some(q) =>
      if Accepts(q, parts) && q.received < j then
        Some(q.(parts := Spliced(q, parts, j), received := j))
      else Some(q)
  }

  /** The reply to the last of the parts, when the id had `q` in progress before the first. A
      sequence that is already open refuses a message of another count or type, and otherwise
      refuses the parts it has and completes itself with the others. */
  function FinalReply(q: Option<Sequence>, parts: seq<Sentence>): Response
    requires parts != []
    requires q.Some? ==> IsPartial(q.value)
  {
    match q
    case None => Success(Some(Whole(parts)))
    case Some(q) =>
      if q.partCount != |parts| then Failure(MultipartCountInvalid)
      else if q.sentenceType != parts[0].sentenceType then Failure(MultipartTalkerConflict)
      else Success(Some(AssembledMessage(Concat(Spliced(q, parts, |parts|)), parts[|parts| - 1].fillBits,
                                         q.isOwnVessel, q.talker)))
  }

  /** The last part of a message leaves its id free, unless the whole message was refused. */
  function FinalEntry(q: Option<Sequence>, parts: seq<Sentence>): Option<Sequence>
    requires parts != []
  {
    if q.Some? && !Accepts(q.value, parts) then q else None
  }

  /** One more part, from any state. */
  lemma NextFromAnyState(st: State, q: Option<Sequence>, parts: seq<Sentence>, k: uint8, j: nat)
    requires IsState(st) && IsMessage(parts, k) && j < |parts|
    requires q.Some? ==> IsPartial(q.value)
    requires Entry(st, k) == EntryAfter(q, parts, j)
    ensures var (next, reply) := Apply(st, Feed(parts[j]));
            if j + 1 < |parts| then Entry(next, k) == EntryAfter(q, parts, j + 1)
            else Entry(next, k) == FinalEntry(q, parts) && reply == Fed(FinalReply(q, parts))
  {
    match q
    case None => PartIsTaken(st, parts, k, j);
    case Some(before) =>
      if Accepts(before, parts) && before.received <= j {
        SplicedStep(before, parts, j);
        assert Entry(st, k).value.received == j;
      }
  }

  lemma SplicedStep(q: Sequence, parts: seq<Sentence>, j: nat)
    requires IsPartial(q) && |q.parts| == |parts| && q.received <= j < |parts|
    ensures Spliced(q, parts, q.received) == q.parts
    ensures |Spliced(q, parts, j)| == |parts|
    ensures Spliced(q, parts, j)[j := parts[j].payload] == Spliced(q, parts, j + 1)
  {
    assert parts[q.received..j + 1] == parts[q.received..j] + [parts[j]];
  }

  lemma {:induction false} FeedsFromAnyState(st: State, parts: seq<Sentence>, k: uint8, j: nat)
    requires IsState(st) && IsMessage(parts, k) && j < |parts|
    ensures Entry(Run(st, Feeds(parts)[..j]), k) == EntryAfter(Entry(st, k), parts, j)
  {
    var es := Feeds(parts);
    if j == 0 {
      assert es[..0] == [];
    } else {
      hide Apply, EntryAfter;
      FeedsFromAnyState(st, parts, k, j - 1);
      assert es[..j] == es[..j - 1] + [Feed(parts[j - 1])];
      RunStep(st, es[..j - 1], Feed(parts[j - 1]));
      NextFromAnyState(Run(st, es[..j - 1]), Entry(st, k), parts, k, j - 1);
    }
  }

  /** What the parts 1..n of a message lead to, fed in order among traffic that does not concern
      their id, from any state whatever. */
  lemma DeliveryFromAnyState(st: State, es: seq<Event>, parts: seq<Sentence>, k: uint8)
    requires IsState(st) && IsMessage(parts, k)
    requires es != [] && Concerns(es[|es| - 1], k) && Restrict(es, k) == Feeds(parts)
    ensures LastReply(st, es) == Fed(FinalReply(Entry(st, k), parts))
    ensures Entry(Run(st, es), k) == FinalEntry(Entry(st, k), parts)
  {
    hide Step, FinalReply, EntryAfter, IsMessage;
    var n := |parts| - 1;
    var front, e, feeds := es[..|es| - 1], es[|es| - 1], Feeds(parts);
    assert Restrict(es, k) == Restrict(front, k) + [e];
    assert feeds == feeds[..n] + [Feed(parts[n])];
    assert Restrict(front, k) == feeds[..n] && e == Feed(parts[n]);
    FeedsFromAnyState(st, parts, k, n);
    Interleaving(st, st, front, k);
    SplitLast(es);
    RunStep(st, front, e);
    NextFromAnyState(Run(st, front), Entry(st, k), parts, k, n);
  }

  /** The id is free, or what it has in progress could be a beginning of this very message: it
      has the message's count, type and talker, and holds the text of the first parts. */
  predicate IsClear(q: Option<Sequence>, parts: seq<Sentence>)
    requires parts != []
    requires q.Some? ==> IsPartial(q.value)
  {
    q.Some? ==>
      && Accepts(q.value, parts)
      && q.value.talker == parts[0].talker
      && Concat(q.value.parts) == Concat(PartPayloads(parts[..q.value.received]))
  }

  /** What a beginning of the message itself left behind is clear. */
  lemma BeginningIsClear(parts: seq<Sentence>, k: uint8, j: nat)
    requires IsMessage(parts, k) && j < |parts|
    ensures IsClear(InFlight(parts, j), parts)
  {
    if j > 0 {
      ConcatAppend(PartPayloads(parts[..j]), EmptyParts(|parts| - j));
      EmptyConcat(|parts| - j);
    }
  }

  /** A message fed in order is delivered whole if and only if its id was clear. */
  lemma DeliveredIffClear(st: State, es: seq<Event>, parts: seq<Sentence>, k: uint8)
    requires IsState(st) && IsMessage(parts, k)
    requires es != [] && Concerns(es[|es| - 1], k) && Restrict(es, k) == Feeds(parts)
    ensures LastReply(st, es) == Fed(Success(Some(Whole(parts)))) <==> IsClear(Entry(st, k), parts)
  {
    hide LastReply, Restrict, Feeds;
    DeliveryFromAnyState(st, es, parts, k);
    if k in st && Accepts(st[k], parts) {
      SpliceIsWhole(st[k], parts);
    }
  }

  /** The splice has the text of the message exactly when the parts it kept have the text of the
      parts they stand for. */
  lemma SpliceIsWhole(q: Sequence, parts: seq<Sentence>)
    requires IsPartial(q) && parts != [] && Accepts(q, parts)
    ensures Concat(Spliced(q, parts, |parts|)) == Concat(PartPayloads(parts)) <==>
            Concat(q.parts) == Concat(PartPayloads(parts[..q.received]))
  {
    var r := q.received;
    var kept, rest := q.parts[..r], PartPayloads(parts[r..]);
    assert Spliced(q, parts, |parts|) == kept + rest;
    assert PartPayloads(parts) == PartPayloads(parts[..r]) + rest;
    assert q.parts == kept + EmptyParts(|parts| - r);
    ConcatAppend(kept, rest);
    ConcatAppend(PartPayloads(parts[..r]), rest);
    ConcatAppend(kept, EmptyParts(|parts| - r));
    EmptyConcat(|parts| - r);
    SameSuffix(Concat(kept), Concat(PartPayloads(parts[..r])), Concat(rest));
  }

  lemma {:induction false} ConcatAppend(a: seq<string>, b: seq<string>)
    ensures Concat(a + b) == Concat(a) + Concat(b)
  {
    if b == [] {
      assert a + b == a;
    } else {
      ConcatAppend(a, b[..|b| - 1]);
      assert (a + b)[..|a + b| - 1] == a + b[..|b| - 1];
    }
  }

  lemma {:induction false} EmptyConcat(n: nat)
    ensures Concat(EmptyParts(n)) == ""
  {
    if n == 0 {
    } else {
      EmptyConcat(n - 1);
      assert EmptyParts(n)[..n - 1] == EmptyParts(n - 1);
    }
  }

  lemma SameSuffix(a: string, b: string, c: string)
    ensures a + c == b + c <==> a == b
  {
    if a + c == b + c {
      assert a == (a + c)[..|a|] && b == (b + c)[..|b|];
    }
  }

  /** So the first part of a message that was never completed spoils the next message of two
      parts with its id: the receiver gets the old first part with the new second part. */
  lemma StalePartIsSpliced(stale: Sentence, parts: seq<Sentence>, k: uint8)
    requires IsMessage(parts, k) && |parts| == 2
    requires stale == parts[0].(payload := stale.payload, talker := stale.talker, channel := stale.channel)
    ensures var es := [Feed(stale), Feed(parts[0]), Feed(parts[1])];
            && LastReply(map[], es[..2]) == Fed(Failure(MultipartDuplicate))
            && LastReply(map[], es) == Fed(Success(Some(AssembledMessage(
                 stale.payload + parts[1].payload, parts[1].fillBits, stale.sentenceType == "VDO", stale.talker))))
  {
    var a, b, c := Feed(stale), Feed(parts[0]), Feed(parts[1]);
    var es := [a, b, c];
    assert es == [] + [a] + [b] + [c] && es[..2] == [] + [a] + [b];
    RunStep(map[], [], a);
    RunStep(map[], [] + [a], b);
    RunStep(map[], [] + [a] + [b], c);
    var st := Run(map[], [] + [a]);
    assert st[k].parts == [stale.payload, ""];
    assert Run(map[], [] + [a] + [b]) == st;
    TwoParts(stale.payload, parts[1].payload);
    assert st[k].parts[1 := parts[1].payload] == [stale.payload, parts[1].payload];
  }

  lemma TwoParts(a: string, b: string)
    ensures Concat([a, b]) == a + b
  {
    assert [a, b][..1] == [a] && [a][..0] == [];
    assert Concat([a]) == a;
  }
}
