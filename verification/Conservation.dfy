/** Nothing the assembler accepts is lost or made up. */
module Conservation {
  import opened Results
  import opened Integers
  import opened Sentences
  import opened Assembler
  import opened AssemblerRuns

  /** What is counted: parts, or payload characters. */
  datatype Unit = Parts | Characters {
    function Of(parts: nat, payload: string): nat {
      if this.Parts? then parts else |payload|
    }
  }

  /** What a sequence in progress holds. */
  function EntryTally(u: Unit, q: Option<Sequence>): nat {
    match q
    case None => 0
    case Some(q) => u.Of(q.received, Concat(q.parts))
  }

  /** What the sequences with ids below `n` hold. */
  function Held(u: Unit, st: State, n: nat): nat
    requires n <= 10
  {
    if n == 0 then 0 else Held(u, st, n - 1) + EntryTally(u, Entry(st, n - 1))
  }

  /** What one event adds to the accepted multi-part sentences. */
  function AcceptedBy(u: Unit, e: Event, reply: Reply): nat {
    if IsMulti(e) && !IsError(reply) then u.Of(1, e.sentence.payload) else 0
  }

  /** What one event adds to the emitted multi-part messages. */
  function EmittedBy(u: Unit, e: Event, reply: Reply): nat {
    if IsMulti(e) && IsEmission(reply) then
      u.Of(e.sentence.partCount, reply.response.value.value.payload)
    else 0
  }

  /** The multi-part sentences a run accepts. */
  function AcceptedTally(u: Unit, es: seq<Event>): nat {
    if es == [] then 0
    else AcceptedTally(u, es[..|es| - 1]) + AcceptedBy(u, es[|es| - 1], LastReply(map[], es))
  }

  /** The multi-part messages a run emits. */
  function EmittedTally(u: Unit, es: seq<Event>): nat {
    if es == [] then 0
    else EmittedTally(u, es[..|es| - 1]) + EmittedBy(u, es[|es| - 1], LastReply(map[], es))
  }

  /** What the resets of a run discard. */
  function DroppedTally(u: Unit, es: seq<Event>): nat {
    if es == [] then 0
    else
      var front := es[..|es| - 1];
      if es[|es| - 1].Reset? then DroppedTally(u, front) + Held(u, Run(map[], front), 10)
      else DroppedTally(u, front)
  }

  lemma {:induction false} HeldChange(u: Unit, a: State, b: State, k: uint8, n: nat)
    requires n <= 10
    requires forall l: uint8 | l != k :: Entry(a, l) == Entry(b, l)
    ensures Held(u, b, n) ==
            Held(u, a, n) + if k < n then EntryTally(u, Entry(b, k)) - EntryTally(u, Entry(a, k)) else 0
  {
    if n == 0 {
    } else {
      HeldChange(u, a, b, k, n - 1);
    }
  }

  lemma {:induction false} HeldNothing(u: Unit, st: State, n: nat)
    requires n <= 10 && st == map[]
    ensures Held(u, st, n) == 0
  {
    if n == 0 {
    } else {
      HeldNothing(u, st, n - 1);
    }
  }

  lemma {:induction false} FillSlot(parts: seq<string>, i: nat, p: string)
    requires i < |parts| && parts[i] == ""
    ensures |Concat(parts[i := p])| == |Concat(parts)| + |p|
  {
    var n := |parts| - 1;
    if i == n {
      assert parts[i := p][..n] == parts[..n];
    } else {
      assert parts[i := p][..n] == parts[..n][i := p];
      FillSlot(parts[..n], i, p);
    }
  }

  lemma OthersUntouched(st: State, e: Event, k: uint8)
    requires IsState(st) && Carries(e, k)
    ensures forall l: uint8 | l != k :: Entry(Apply(st, e).0, l) == Entry(st, l)
  {
  }

  /** An accepted part moves into the sequence it joins, or into the emitted message together
      with everything that sequence held. */
  lemma AcceptedBalance(u: Unit, st: State, e: Event, k: uint8)
    requires IsState(st) && Carries(e, k) && !IsError(Apply(st, e).1)
    ensures var (next, reply) := Apply(st, e);
            EntryTally(u, Entry(st, k)) + u.Of(1, e.sentence.payload) ==
            EntryTally(u, Entry(next, k)) + EmittedBy(u, e, reply)
  {
    hide Step;
    AcceptedStep(st, e, k);
    var q := Joined(st, e.sentence);
    EmptyConcat(e.sentence.partCount);
    assert q.parts[q.received] == "";
    FillSlot(q.parts, q.received, e.sentence.payload);
  }

  /** One event keeps the balance. */
  lemma EventBalance(u: Unit, st: State, e: Event)
    requires IsState(st) && (e.Feed? ==> IsValid(e.sentence))
    ensures var (next, reply) := Apply(st, e);
            if e.Reset? then Held(u, next, 10) == 0
            else Held(u, st, 10) + AcceptedBy(u, e, reply) == Held(u, next, 10) + EmittedBy(u, e, reply)
  {
    hide Step, Held;
    if e.Reset? {
      HeldNothing(u, Apply(st, e).0, 10);
    } else if IsMulti(e) {
      var k := e.sentence.seqId.value;
      if IsError(Apply(st, e).1) {
        RejectionIsAtomic(st, e);
      } else {
        AcceptedBalance(u, st, e, k);
        OthersUntouched(st, e, k);
        HeldChange(u, st, Apply(st, e).0, k, 10);
      }
    } else {
      SinglePartIndependent(st, e.sentence);
    }
  }

  /** What one more event adds to the three tallies. */
  lemma TalliesStep(u: Unit, front: seq<Event>, e: Event)
    ensures var es, reply := front + [e], LastReply(map[], front + [e]);
            && AcceptedTally(u, es) == AcceptedTally(u, front) + AcceptedBy(u, e, reply)
            && EmittedTally(u, es) == EmittedTally(u, front) + EmittedBy(u, e, reply)
            && DroppedTally(u, es) ==
               DroppedTally(u, front) + if e.Reset? then Held(u, Run(map[], front), 10) else 0
  {
    hide Held, Run, LastReply;
    assert (front + [e])[..|front + [e]| - 1] == front;
  }

  /** In every run of parsed sentences, the parts accepted are the parts emitted, still held
      or discarded by a reset, and so are their payload characters. */
  lemma {:induction false} Conserved(u: Unit, es: seq<Event>)
    requires AllValid(es)
    ensures AcceptedTally(u, es) ==
            EmittedTally(u, es) + Held(u, Run(map[], es), 10) + DroppedTally(u, es)
  {
    if es == [] {
      HeldNothing(u, Run(map[], es), 10);
    } else {
      hide Held, Apply, Run, LastReply, AcceptedTally, EmittedTally, DroppedTally;
      var front, e := es[..|es| - 1], es[|es| - 1];
      Conserved(u, front);
      SplitLast(es);
      RunSnoc(map[], front, e);
      EventBalance(u, Run(map[], front), e);
      TalliesStep(u, front, e);
    }
  }

  /** Without resets, everything accepted is emitted or still held. */
  lemma ConservedWithoutResets(u: Unit, es: seq<Event>)
    requires AllValid(es) && forall i :: 0 <= i < |es| ==> es[i].Feed?
    ensures AcceptedTally(u, es) == EmittedTally(u, es) + Held(u, Run(map[], es), 10)
  {
    Conserved(u, es);
    NothingDropped(u, es);
  }

  lemma {:induction false} NothingDropped(u: Unit, es: seq<Event>)
    requires forall i :: 0 <= i < |es| ==> es[i].Feed?
    ensures DroppedTally(u, es) == 0
  {
    if es == [] {
    } else {
      NothingDropped(u, es[..|es| - 1]);
    }
  }
}
