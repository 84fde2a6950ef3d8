/** Pairing of messages that arrive with callers that ask for them, in whatever order the two come. */
module MessageBuffers {
  import opened Wrappers
  import opened Metadata

  /** Contents are abstract; a waiter is the answer channel of a caller. */
  type Value(==, !new)
  type Waiter = nat

  datatype Command =
    | Receive(message: Message, waiter: Waiter)
    | Received(message: Message, value: Value)

  datatype Answer = Answer(message: Message, waiter: Waiter, value: Value)

  /** What is known about one message. */
  datatype Slot = Idle | Buffered(value: Value) | Waiting(waiter: Waiter)

  function NextSlot(s: Slot, c: Command): Slot {
    match c
    case Receive(_, waiter) => if s.Buffered? then Idle else Waiting(waiter)
    case Received(_, value) => if s.Waiting? then Idle else Buffered(value)
  }

  function Answers(s: Slot, c: Command): seq<Answer> {
    match c
    case Receive(m, waiter) => if s.Buffered? then [Answer(m, waiter, s.value)] else []
    case Received(m, value) => if s.Waiting? then [Answer(m, s.waiter, value)] else []
  }

  function SlotAfter(m: Message, run: seq<Command>): Slot {
    if run == [] then Idle
    else
      var s, c := SlotAfter(m, run[..|run| - 1]), run[|run| - 1];
      if c.message == m then NextSlot(s, c) else s
  }

  /** Every answer of a run, in order. */
  function AnswersOf(run: seq<Command>): seq<Answer> {
    if run == [] then []
    else
      var before, c := run[..|run| - 1], run[|run| - 1];
      AnswersOf(before) + Answers(SlotAfter(c.message, before), c)
  }

  class MessageBuffer {
    var messageBuffer: map<Message, Value>
    var openRequests: map<Message, Waiter>
    var answers: seq<Answer>
    ghost var run: seq<Command>

    /** No message is both stored and waited for, and the two maps are what the run so far makes of every
        message. */
    ghost predicate Valid()
      reads this
    {
      && (forall m :: m in messageBuffer ==> SlotAfter(m, run) == Buffered(messageBuffer[m]))
      && (forall m :: m in openRequests ==> SlotAfter(m, run) == Waiting(openRequests[m]))
      && (forall m :: m !in messageBuffer && m !in openRequests ==> SlotAfter(m, run) == Idle)
      && answers == AnswersOf(run)
    }

    constructor ()
      ensures Valid() && run == []
    {
      messageBuffer := map[];
      openRequests := map[];
      answers := [];
      run := [];
    }

    method Handle(c: Command)
      requires Valid()
      modifies this
      ensures Valid() && run == old(run) + [c]
      ensures answers == AnswersOf(run)
      ensures forall m :: m in messageBuffer ==> SlotAfter(m, run) == Buffered(messageBuffer[m])
      ensures forall m :: m in openRequests ==> SlotAfter(m, run) == Waiting(openRequests[m])
      ensures forall m :: m !in messageBuffer && m !in openRequests ==> SlotAfter(m, run) == Idle
    {
      match c {
        case Receive(m, waiter) =>
          if m in messageBuffer {
            answers := answers + [Answer(m, waiter, messageBuffer[m])];
            messageBuffer := messageBuffer - {m};
          } else {
            openRequests := openRequests[m := waiter];
          }
        case Received(m, value) =>
          if m in openRequests {
            answers := answers + [Answer(m, openRequests[m], value)];
            openRequests := openRequests - {m};
          } else {
            messageBuffer := messageBuffer[m := value];
          }
      }
      run := run + [c];
      assert run[..|run| - 1] == old(run);
    }
  }

  // Every message asked for once and arriving once

  ghost predicate OnceEach(run: seq<Command>) {
    forall i, j :: 0 <= i < j < |run| && run[i].message == run[j].message ==> run[i].Receive? != run[j].Receive?
  }

  ghost predicate Asked(run: seq<Command>, m: Message, w: Waiter) {
    Receive(m, w) in run
  }

  ghost predicate Came(run: seq<Command>, m: Message, value: Value) {
    Received(m, value) in run
  }

  ghost predicate SlotMatches(run: seq<Command>, m: Message, s: Slot) {
    match s
    case Idle => (exists w :: Asked(run, m, w)) == (exists value :: Came(run, m, value))
    case Buffered(value) => Came(run, m, value) && forall w :: !Asked(run, m, w)
    case Waiting(waiter) => Asked(run, m, waiter) && forall value :: !Came(run, m, value)
  }

  lemma OnceEachPrefix(run: seq<Command>, c: Command)
    requires OnceEach(run + [c])
    ensures OnceEach(run)
    ensures forall d :: d in run && d.message == c.message ==> d.Receive? != c.Receive?
  {
    var all := run + [c];
    forall i, j | 0 <= i < j < |run| && run[i].message == run[j].message ensures run[i].Receive? != run[j].Receive? {
      assert all[i] == run[i] && all[j] == run[j];
    }
    forall d | d in run && d.message == c.message ensures d.Receive? != c.Receive? {
      var i :| 0 <= i < |run| && run[i] == d;
      assert all[i] == d && all[|run|] == c;
    }
  }

  lemma {:induction false} SlotTracks(run: seq<Command>, m: Message)
    requires OnceEach(run)
    ensures SlotMatches(run, m, SlotAfter(m, run))
  {
    if run != [] {
      var before, c := run[..|run| - 1], run[|run| - 1];
      assert run == before + [c];
      OnceEachPrefix(before, c);
      SlotTracks(before, m);
      SlotStep(before, c, m, SlotAfter(m, before));
    }
  }

  lemma SlotStep(run: seq<Command>, c: Command, m: Message, s: Slot)
    requires OnceEach(run + [c]) && SlotMatches(run, m, s)
    ensures SlotMatches(run + [c], m, if c.message == m then NextSlot(s, c) else s)
  {
    OnceEachPrefix(run, c);
    var all := run + [c];
    forall w ensures Asked(all, m, w) <==> Asked(run, m, w) || c == Receive(m, w) {
    }
    forall value ensures Came(all, m, value) <==> Came(run, m, value) || c == Received(m, value) {
    }
    if c.message == m {
      if c.Receive? {
        assert Asked(all, m, c.waiter);
        assert forall w :: !Asked(run, m, w);
      } else {
        assert Came(all, m, c.value);
        assert forall value :: !Came(run, m, value);
      }
    }
  }

  /** Whatever the order, a caller is answered with a value exactly when it asked for the message and the message
      came with this value. */
  lemma {:induction false} AnswersPair(run: seq<Command>, m: Message, w: Waiter, value: Value)
    requires OnceEach(run)
    ensures Answer(m, w, value) in AnswersOf(run) <==> Asked(run, m, w) && Came(run, m, value)
  {
    if run != [] {
      var before, c := run[..|run| - 1], run[|run| - 1];
      assert run == before + [c];
      OnceEachPrefix(before, c);
      AnswersPair(before, m, w, value);
      SlotTracks(before, c.message);
      var s := SlotAfter(c.message, before);
      assert Asked(run, m, w) <==> Asked(before, m, w) || c == Receive(m, w);
      assert Came(run, m, value) <==> Came(before, m, value) || c == Received(m, value);
      if Answer(m, w, value) in Answers(s, c) {
        assert c.message == m;
      } else if c == Receive(m, w) && Came(before, m, value) {
        SlotUnique(before, m, w, value);
      } else if c == Received(m, value) && Asked(before, m, w) {
        SlotUnique(before, m, w, value);
      }
    }
  }

  // With one arrival and one request at most, the slot holds the very value or waiter.
  lemma {:induction false} SlotUnique(run: seq<Command>, m: Message, w: Waiter, value: Value)
    requires OnceEach(run)
    ensures var s := SlotAfter(m, run);
            && (s.Buffered? && Came(run, m, value) ==> s.value == value)
            && (s.Waiting? && Asked(run, m, w) ==> s.waiter == w)
  {
    SlotTracks(run, m);
    var s := SlotAfter(m, run);
    if s.Buffered? && Came(run, m, value) {
      var i, j :| 0 <= i < |run| && 0 <= j < |run| && run[i] == Received(m, value) && run[j] == Received(m, s.value);
    }
    if s.Waiting? && Asked(run, m, w) {
      var i, j :| 0 <= i < |run| && 0 <= j < |run| && run[i] == Receive(m, w) && run[j] == Receive(m, s.waiter);
    }
  }

  /** Nobody is answered twice. */
  lemma {:induction false} AnsweredOnce(run: seq<Command>)
    requires OnceEach(run)
    ensures forall i, j :: 0 <= i < j < |AnswersOf(run)| ==> AnswersOf(run)[i].message != AnswersOf(run)[j].message
  {
    if run != [] {
      var before, c := run[..|run| - 1], run[|run| - 1];
      assert run == before + [c];
      OnceEachPrefix(before, c);
      AnsweredOnce(before);
      SlotTracks(before, c.message);
      forall a | a in AnswersOf(before) && Answers(SlotAfter(c.message, before), c) != [] ensures a.message != c.message {
        AnswersPair(before, a.message, a.waiter, a.value);
      }
    }
  }

  lemma {:induction false} SlotCame(run: seq<Command>, m: Message)
    ensures var s := SlotAfter(m, run);
            && (s.Buffered? ==> Came(run, m, s.value))
            && (s.Waiting? ==> Asked(run, m, s.waiter))
  {
    if run != [] {
      var before, c := run[..|run| - 1], run[|run| - 1];
      assert run == before + [c];
      SlotCame(before, m);
    }
  }

  /** However often messages come and are asked for, an answer is a value that came for the message. */
  lemma {:induction false} AnswerCame(run: seq<Command>, a: Answer)
    requires a in AnswersOf(run)
    ensures Came(run, a.message, a.value) && Asked(run, a.message, a.waiter)
  {
    var before, c := run[..|run| - 1], run[|run| - 1];
    assert run == before + [c];
    if a in AnswersOf(before) {
      AnswerCame(before, a);
    } else {
      SlotCame(before, c.message);
    }
  }

  /** Of several messages with one name, before it is asked for, only the last is handed out. */
  lemma {:induction false} LastValueAnswered(run: seq<Command>, m: Message, value: Value, w: Waiter)
    requires forall c :: c in run ==> c.Received?
    ensures AnswersOf(run + [Received(m, value), Receive(m, w)]) == [Answer(m, w, value)]
  {
    NobodyWaits(run, m);
    var last, all := run + [Received(m, value)], run + [Received(m, value), Receive(m, w)];
    assert last[..|run|] == run && all[..|last|] == last;
    assert SlotAfter(m, last) == Buffered(value);
  }

  /** Of several requests for a message, before it comes, only the last is answered. */
  lemma {:induction false} LastWaiterAnswered(run: seq<Command>, m: Message, value: Value, w: Waiter)
    requires forall c :: c in run ==> c.Receive?
    ensures AnswersOf(run + [Receive(m, w), Received(m, value)]) == [Answer(m, w, value)]
  {
    NothingBuffered(run, m);
    var last, all := run + [Receive(m, w)], run + [Receive(m, w), Received(m, value)];
    assert last[..|run|] == run && all[..|last|] == last;
    assert SlotAfter(m, last) == Waiting(w);
  }

  lemma {:induction false} NothingBuffered(run: seq<Command>, m: Message)
    requires forall c :: c in run ==> c.Receive?
    ensures AnswersOf(run) == [] && !SlotAfter(m, run).Buffered?
  {
    if run != [] {
      var before, c := run[..|run| - 1], run[|run| - 1];
      assert c in run;
      NothingBuffered(before, m);
      NothingBuffered(before, c.message);
    }
  }

  lemma {:induction false} NobodyWaits(run: seq<Command>, m: Message)
    requires forall c :: c in run ==> c.Received?
    ensures AnswersOf(run) == [] && !SlotAfter(m, run).Waiting?
  {
    if run != [] {
      var before, c := run[..|run| - 1], run[|run| - 1];
      assert c in run;
      NobodyWaits(before, m);
      NobodyWaits(before, c.message);
    }
  }

  // What the callers' places hold

  /** The contents of a place after the answers: each answer overwrites what its waiter's place held. */
  function MemoryAfter(memory: Waiter -> Value, answers: seq<Answer>, place: Waiter): Value {
    if answers == [] then memory(place)
    else
      var last := answers[|answers| - 1];
      if last.waiter == place then last.value else MemoryAfter(memory, answers[..|answers| - 1], place)
  }

  lemma {:induction false} NoAnswerKeeps(memory: Waiter -> Value, answers: seq<Answer>, place: Waiter)
    requires forall a :: a in answers ==> a.waiter != place
    ensures MemoryAfter(memory, answers, place) == memory(place)
  {
    if answers != [] {
      assert answers[|answers| - 1] in answers;
      NoAnswerKeeps(memory, answers[..|answers| - 1], place);
    }
  }

  lemma {:induction false} SameAnswersHold(memory: Waiter -> Value, answers: seq<Answer>, place: Waiter, value: Value)
    requires exists a :: a in answers && a.waiter == place
    requires forall a :: a in answers && a.waiter == place ==> a.value == value
    ensures MemoryAfter(memory, answers, place) == value
  {
    var last := answers[|answers| - 1];
    assert last in answers;
    if last.waiter != place {
      var a :| a in answers && a.waiter == place;
      assert answers == answers[..|answers| - 1] + [last];
      assert a in answers[..|answers| - 1];
      SameAnswersHold(memory, answers[..|answers| - 1], place, value);
    }
  }

  lemma CameOnce(run: seq<Command>, m: Message, value: Value, other: Value)
    requires OnceEach(run) && Came(run, m, value) && Came(run, m, other)
    ensures value == other
  {
    var i, j :| 0 <= i < |run| && 0 <= j < |run| && run[i] == Received(m, value) && run[j] == Received(m, other);
  }
}
