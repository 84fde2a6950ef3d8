/** The command loop of one party over all its consistency checks. */
module ConsistencyRun {
  import opened Wrappers
  import opened ConsistencyChecks

  /** An answer channel of a caller that waits. */
  type Waiter = nat

  datatype Command =
    | Request(key: Key, asked: set<Party>)
    | ReceivedCheck(key: Key, from: Party, check: Data)
    | ReceivedData(key: Key, data: Data)
    | Wait(waiter: Waiter)

  datatype State = State(entries: map<Key, Entry>, waiting: seq<Waiter>)

  /** No check is registered. */
  predicate IsConsistent(entries: map<Key, Entry>) {
    forall k :: k in entries ==> !entries[k].registered
  }

  /** What a command makes of the entry it is about, before the check is looked at. */
  function Updated(e: Entry, command: Command): Entry
    requires !command.Wait?
  {
    match command
    case Request(_, asked) => e.Registered(asked)
    case ReceivedCheck(_, from, check) => e.WithCheck(from, check)
    case ReceivedData(_, data) => e.WithData(data)
  }

  function Created(command: Command): Entry
    requires !command.Wait?
  {
    match command
    case Request(_, asked) => EntryOfRequest(asked)
    case ReceivedCheck(_, from, check) => EntryOfCheck(from, check)
    case ReceivedData(_, data) => EntryOfData(data)
  }

  /** The entry of the command's key afterwards: a new entry is only stored; an existing one is updated, checked,
      and dropped when it is done. */
  function NextEntry(v: Verification, before: Option<Entry>, command: Command): Option<Entry>
    requires !command.Wait?
  {
    match before
    case None => Some(Created(command))
    case Some(e) =>
      var after := Updated(e, command).Checked(v, command.key);
      if after.Done() then None else Some(after)
  }

  function Lookup(entries: map<Key, Entry>, k: Key): Option<Entry> {
    if k in entries then Some(entries[k]) else None
  }

  function Store(entries: map<Key, Entry>, k: Key, e: Option<Entry>): map<Key, Entry> {
    match e
    case None => entries - {k}
    case Some(value) => entries[k := value]
  }

  function Step(v: Verification, s: State, command: Command): State {
    match command
    case Wait(waiter) =>
      if IsConsistent(s.entries) then s else s.(waiting := s.waiting + [waiter])
    case _ =>
      var entries := Store(s.entries, command.key, NextEntry(v, Lookup(s.entries, command.key), command));
      State(entries, if command.key in s.entries && IsConsistent(entries) then [] else s.waiting)
  }

  /** The waiting callers that a command answers. */
  function Answered(v: Verification, s: State, command: Command): seq<Waiter> {
    match command
    case Wait(waiter) => if IsConsistent(s.entries) then [waiter] else []
    case _ => if command.key in s.entries && Step(v, s, command).waiting == [] then s.waiting else []
  }

  /** The check that a command makes the party send, and the parties it goes to: on the request when data is here
      already, on the data when the check was requested already. */
  datatype Notification = Quiet | Notify(to: set<Party>, data: Data)

  function Notified(before: Option<Entry>, command: Command): Notification
    requires !command.Wait?
  {
    match before
    case None => Quiet
    case Some(e) =>
      match command
      case Request(_, asked) =>
        if e.Accepts(asked) && e.received.Some? then Notify(asked, e.received.value) else Quiet
      case ReceivedCheck(_, _, _) => Quiet
      case ReceivedData(_, data) =>
        if e.received.None? && e.registered then Notify(e.receivers.Keys, data) else Quiet
  }

  function NotifiedBy(s: State, command: Command): Notification {
    if command.Wait? then Quiet else Notified(Lookup(s.entries, command.key), command)
  }

  /** The state after a run from the start. */
  function StateAfter(v: Verification, run: seq<Command>): State {
    if run == [] then State(map[], []) else Step(v, StateAfter(v, run[..|run| - 1]), run[|run| - 1])
  }

  /** A check message on its way. */
  datatype Message = Message(key: Key, forwarder: Party, to: Party, data: Data)

  /** The messages are the notification, each at most once, and all of it when every receiver can be reached. */
  ghost predicate Sends(id: Party, command: Command, n: Notification, messages: seq<Message>, reachable: set<Party>) {
    match n
    case Quiet => messages == []
    case Notify(to, data) =>
      && !command.Wait?
      && (forall m :: m in messages ==> m.to in to && m == Message(command.key, id, m.to, data))
      && (forall i, j :: 0 <= i < j < |messages| ==> messages[i] != messages[j])
      && (to <= reachable ==> forall q :: q in to ==> Message(command.key, id, q, data) in messages)
  }

  class Checker {
    const id: Party
    const verification: Verification
    var consistency: map<Key, CheckValue>
    var open: seq<Waiter>
    /** What was sent and answered so far, in order. */
    var sent: seq<Message>
    var answered: seq<Waiter>

    constructor (id: Party, verification: Verification)
      ensures this.id == id && this.verification == verification
      ensures Valid() && consistency == map[] && Value() == State(map[], []) && sent == [] && answered == []
    {
      this.id := id;
      this.verification := verification;
      consistency := map[];
      open := [];
      sent := [];
      answered := [];
    }

    /** Different keys have different entries. */
    ghost predicate Valid()
      reads this
    {
      forall k, l :: k in consistency && l in consistency && k != l ==> consistency[k] != consistency[l]
    }

    ghost function Repr(): set<object>
      reads this
    {
      set k | k in consistency :: consistency[k]
    }

    ghost function Value(): State
      reads this, Repr()
    {
      State(map k | k in consistency :: consistency[k].Value(), open)
    }

    /** Sends the check to the receivers one by one, in any order, and gives up at the first that cannot be
        reached. */
    method NotifyParties(command: Command, receivers: set<Party>, data: Data, reachable: set<Party>)
      requires !command.Wait?
      modifies this`sent
      ensures |old(sent)| <= |sent| && sent[..|old(sent)|] == old(sent)
      ensures Sends(id, command, Notify(receivers, data), sent[|old(sent)|..], reachable)
    {
      var rest := receivers;
      ghost var messages: seq<Message> := [];
      while rest != {}
        invariant rest <= receivers
        invariant sent == old(sent) + messages
        invariant forall m :: m in messages ==> m.to in receivers - rest && m == Message(command.key, id, m.to, data)
        invariant forall i, j :: 0 <= i < j < |messages| ==> messages[i] != messages[j]
        invariant forall q :: q in receivers - rest ==> Message(command.key, id, q, data) in messages
      {
        var to :| to in rest;
        if to !in reachable {
          assert sent[|old(sent)|..] == messages;
          return;
        }
        var m := Message(command.key, id, to, data);
        assert m !in messages;
        sent := sent + [m];
        messages := messages + [m];
        rest := rest - {to};
      }
      assert sent[|old(sent)|..] == messages;
    }

    method NotifyRequests()
      modifies this`open, this`answered
      ensures open == [] && answered == old(answered + open)
    {
      answered := answered + open;
      open := [];
    }

    /** The command's own part for an entry that exists, with the notification when the check just got ready. */
    method UpdateValue(value: CheckValue, command: Command, reachable: set<Party>)
      requires !command.Wait?
      modifies value, this`sent
      ensures value.Value() == Updated(old(value.Value()), command)
      ensures |old(sent)| <= |sent| && sent[..|old(sent)|] == old(sent)
      ensures Sends(id, command, Notified(Some(old(value.Value())), command), sent[|old(sent)|..], reachable)
    {
      assert sent[|sent|..] == [];
      match command {
        case Request(_, asked) =>
          var r := value.Register(asked);
          if r == Ok(true) {
            NotifyParties(command, asked, value.received.value, reachable);
          }
        case ReceivedCheck(_, from, check) =>
          var r := value.Receive(from, check);
        case ReceivedData(_, data) =>
          var r := value.ReceiveData(data);
          if r == Ok(true) {
            NotifyParties(command, value.receivers.Keys, value.received.value, reachable);
          }
      }
    }

    /** Updates and checks; says whether the entry is to be dropped. */
    method UpdateAndCheck(value: CheckValue, command: Command, reachable: set<Party>) returns (done: bool)
      requires !command.Wait?
      modifies value, this`sent
      ensures value.Value() == Updated(old(value.Value()), command).Checked(verification, command.key)
      ensures done <==> value.Value().Done()
      ensures |old(sent)| <= |sent| && sent[..|old(sent)|] == old(sent)
      ensures Sends(id, command, Notified(Some(old(value.Value())), command), sent[|old(sent)|..], reachable)
    {
      hide Sends, Notified, Updated, Entry.Checked;
      UpdateValue(value, command, reachable);
      ghost var updated := value.Value();
      var checked := value.Check(verification, command.key);
      done := checked == Ok(true) && value.IsDone();
      if checked != Ok(true) {
        NotDone(verification, command.key, updated);
      }
    }

    /** The branch for a key that is known, up to dropping the entry when it is done. */
    method UpdateKnown(command: Command, reachable: set<Party>)
      requires Valid() && !command.Wait? && command.key in consistency
      modifies this`consistency, this`sent, consistency[command.key]
      ensures Valid() && Repr() <= old(Repr()) && (command.key !in consistency || consistency == old(consistency))
      ensures Value().entries
        == Store(old(Value().entries), command.key, NextEntry(verification, Some(old(Value().entries)[command.key]), command))
      ensures |old(sent)| <= |sent| && sent[..|old(sent)|] == old(sent)
      ensures Sends(id, command, Notified(Some(old(Value().entries)[command.key]), command), sent[|old(sent)|..], reachable)
    {
      hide Sends, Notified, Updated, Entry.Checked, Entry.Done;
      var key := command.key;
      var value := consistency[key];
      ghost var entries := Value().entries;
      var done := UpdateAndCheck(value, command, reachable);
      assert Value().entries == entries[key := value.Value()];
      if done {
        consistency := consistency - {key};
        assert Value().entries == entries - {key};
      }
    }

    /** Answers those who wait when no check is registered. */
    method AnswerWhenConsistent()
      modifies this`open, this`answered
      ensures Value().entries == old(Value().entries)
      ensures open == if IsConsistent(Value().entries) then [] else old(open)
      ensures answered == if IsConsistent(Value().entries) then old(answered + open) else old(answered)
    {
      ghost var entries := Value().entries;
      if forall k :: k in consistency ==> !consistency[k].registered {
        assert IsConsistent(entries);
        NotifyRequests();
      } else {
        ghost var k :| k in consistency && consistency[k].registered;
        assert entries[k].registered;
      }
    }

    /** The branches of the loop for a key that is known, */
    method HandleKnown(command: Command, reachable: set<Party>)
      requires Valid() && !command.Wait? && command.key in consistency
      modifies this, consistency[command.key]
      ensures Valid() && Repr() <= old(Repr())
      ensures Value() == Step(verification, old(Value()), command)
      ensures answered == old(answered) + Answered(verification, old(Value()), command)
      ensures |old(sent)| <= |sent| && sent[..|old(sent)|] == old(sent)
      ensures Sends(id, command, NotifiedBy(old(Value()), command), sent[|old(sent)|..], reachable)
    {
      hide Sends, NextEntry, IsConsistent, Notified, Store;
      ghost var before := Value();
      assert Lookup(before.entries, command.key) == Some(before.entries[command.key]);
      UpdateKnown(command, reachable);
      AnswerWhenConsistent();
      ghost var entries := Store(before.entries, command.key, NextEntry(verification, Lookup(before.entries, command.key), command));
      assert Value() == State(entries, if IsConsistent(entries) then [] else before.waiting);
    }

    /** for a key that is new, */
    method HandleNew(command: Command)
      requires Valid() && !command.Wait? && command.key !in consistency
      modifies this`consistency
      ensures Valid() && fresh(Repr() - old(Repr()))
      ensures Value() == Step(verification, old(Value()), command)
    {
      hide Created, IsConsistent;
      ghost var before := Value().entries;
      var value := Create(command);
      consistency := consistency[command.key := value];
      assert Value().entries == before[command.key := Created(command)];
    }

    static method Create(command: Command) returns (value: CheckValue)
      requires !command.Wait?
      ensures fresh(value) && value.Value() == Created(command)
    {
      if command.Request? {
        value := new CheckValue.NewRequest(command.asked);
      } else if command.ReceivedCheck? {
        value := new CheckValue.NewReceived(command.from, command.check);
      } else {
        value := new CheckValue.NewReceivedData(command.data);
      }
    }

    /** and for a caller that wants to wait. */
    method HandleWait(command: Command)
      requires command.Wait?
      modifies this`open, this`answered
      ensures Value() == Step(verification, old(Value()), command)
      ensures answered == old(answered) + Answered(verification, old(Value()), command)
    {
      if forall k :: k in consistency ==> !consistency[k].registered {
        assert IsConsistent(Value().entries);
        answered := answered + [command.waiter];
      } else {
        assert !IsConsistent(Value().entries) by {
          ghost var k :| k in consistency && consistency[k].registered;
          assert Value().entries[k].registered;
        }
        open := open + [command.waiter];
      }
    }

    /** One round of the loop. */
    method Handle(command: Command, reachable: set<Party>)
      requires Valid()
      modifies this, Repr()
      ensures Valid() && fresh(Repr() - old(Repr()))
      ensures Value() == Step(verification, old(Value()), command)
      ensures answered == old(answered) + Answered(verification, old(Value()), command)
      ensures |old(sent)| <= |sent| && sent[..|old(sent)|] == old(sent)
      ensures Sends(id, command, NotifiedBy(old(Value()), command), sent[|old(sent)|..], reachable)
    {
      hide Sends, Step;
      assert sent[|sent|..] == [];
      ghost var before := Value();
      if command.Wait? {
        QuietSends(id, command, reachable);
        HandleWait(command);
      } else if command.key in consistency {
        HandleKnown(command, reachable);
      } else {
        QuietSends(id, command, reachable);
        assert Answered(verification, before, command) == [];
        HandleNew(command);
      }
    }
  }

  /** The callers that a run answers, in order. */
  function AnswersGiven(v: Verification, run: seq<Command>): seq<Waiter> {
    if run == [] then []
    else
      var before, c := run[..|run| - 1], run[|run| - 1];
      AnswersGiven(v, before) + Answered(v, StateAfter(v, before), c)
  }

  /** The callers that asked to wait, in order. */
  function WaitersIn(run: seq<Command>): seq<Waiter> {
    if run == [] then []
    else
      var before, c := run[..|run| - 1], run[|run| - 1];
      if c.Wait? then WaitersIn(before) + [c.waiter] else WaitersIn(before)
  }

  /** In every reachable state, whoever waits waits for a check that is registered. */
  lemma {:induction false} WaitersHaveReason(v: Verification, run: seq<Command>)
    ensures var s := StateAfter(v, run); s.waiting != [] ==> exists k :: k in s.entries && s.entries[k].registered
  {
    if run != [] {
      WaitersHaveReason(v, run[..|run| - 1]);
      var s, c := StateAfter(v, run[..|run| - 1]), run[|run| - 1];
      if !c.Wait? && c.key !in s.entries && s.waiting != [] {
        var k :| k in s.entries && s.entries[k].registered;
        assert k in StateAfter(v, run).entries && StateAfter(v, run).entries[k].registered;
      }
    }
  }

  /** Nobody who waits is lost or answered twice, or before somebody who came first: those who asked to wait are those
      who were answered followed by those who still wait. */
  lemma {:induction false} NobodyIsLost(v: Verification, run: seq<Command>)
    ensures WaitersIn(run) == AnswersGiven(v, run) + StateAfter(v, run).waiting
  {
    hide IsConsistent, NextEntry;
    if run != [] {
      var before, c := run[..|run| - 1], run[|run| - 1];
      NobodyIsLost(v, before);
      WaitersHaveReason(v, before);
      var s := StateAfter(v, before);
      if c.Wait? && IsConsistent(s.entries) {
        assert s.waiting == [] by { NoReason(s); }
      }
    }
  }

  lemma NoReason(s: State)
    requires s.waiting != [] ==> exists k :: k in s.entries && s.entries[k].registered
    ensures IsConsistent(s.entries) ==> s.waiting == []
  {
  }

  /** After a command that leaves no check registered, everybody who asked to wait is answered. */
  lemma {:induction false} AllAnswered(v: Verification, run: seq<Command>)
    requires var entries := StateAfter(v, run).entries; forall k :: k in entries ==> !entries[k].registered
    ensures AnswersGiven(v, run) == WaitersIn(run)
    ensures run != [] ==>
      var before, c := run[..|run| - 1], run[|run| - 1];
      Answered(v, StateAfter(v, before), c) == StateAfter(v, before).waiting + if c.Wait? then [c.waiter] else []
  {
    hide Answered, Step;
    NobodyIsLost(v, run);
    WaitersHaveReason(v, run);
    if run != [] {
      var before, c := run[..|run| - 1], run[|run| - 1];
      NobodyIsLost(v, before);
      var given := AnswersGiven(v, before);
      assert AnswersGiven(v, run)[|given|..] == Answered(v, StateAfter(v, before), c);
      assert WaitersIn(run)[|given|..] == StateAfter(v, before).waiting + if c.Wait? then [c.waiter] else [];
    }
  }

  function Flatten(rounds: seq<seq<Message>>): seq<Message> {
    if rounds == [] then [] else Flatten(rounds[..|rounds| - 1]) + rounds[|rounds| - 1]
  }

  /** What each round of a run sends: the notification that its command asks for, each message at most once, and all
      of it when every receiver can be reached in that round. */
  ghost predicate SendsRounds(v: Verification, id: Party, run: seq<Command>, reachable: seq<set<Party>>, rounds: seq<seq<Message>>)
    requires |reachable| == |run|
  {
    |rounds| == |run| && forall i :: 0 <= i < |run| ==>
      Sends(id, run[i], NotifiedBy(StateAfter(v, run[..i]), run[i]), rounds[i], reachable[i])
  }

  /** The whole loop, until the channel closes.  What is sent is what the rounds send, in the order of the
      commands; who is still waiting and who was answered are together those who asked to wait, in order. */
  method Run(id: Party, v: Verification, commands: seq<Command>, reachable: seq<set<Party>>)
      returns (checker: Checker, ghost rounds: seq<seq<Message>>)
    requires |reachable| == |commands|
    ensures fresh(checker) && checker.Valid() && checker.id == id && checker.verification == v
    ensures checker.Value() == StateAfter(v, commands)
    ensures SendsRounds(v, id, commands, reachable, rounds) && checker.sent == Flatten(rounds)
    ensures checker.answered == AnswersGiven(v, commands) && WaitersIn(commands) == checker.answered + checker.open
  {
    hide Step, NotifiedBy, Sends, SendsRounds, Flatten, StateAfter, Answered, AnswersGiven, WaitersIn;
    checker := new Checker(id, v);
    rounds := [];
    NoRounds(v, id);
    for i := 0 to |commands|
      invariant checker.Valid() && fresh(checker.Repr()) && checker.id == id && checker.verification == v
      invariant checker.Value() == StateAfter(v, commands[..i])
      invariant SendsRounds(v, id, commands[..i], reachable[..i], rounds) && checker.sent == Flatten(rounds)
      invariant checker.answered == AnswersGiven(v, commands[..i])
    {
      ghost var before := checker.sent;
      checker.Handle(commands[i], reachable[i]);
      ghost var messages := checker.sent[|before|..];
      assert checker.sent == before + messages;
      AddRound(v, id, commands[..i], reachable[..i], rounds, commands[i], reachable[i], messages);
      assert commands[..i + 1] == commands[..i] + [commands[i]] && reachable[..i + 1] == reachable[..i] + [reachable[i]];
      rounds := rounds + [messages];
    }
    assert commands[..|commands|] == commands && reachable[..|commands|] == reachable;
    NobodyIsLost(v, commands);
  }

  lemma NoRounds(v: Verification, id: Party)
    ensures SendsRounds(v, id, [], [], []) && Flatten([]) == []
    ensures StateAfter(v, []) == State(map[], []) && AnswersGiven(v, []) == []
  {
  }

  lemma {:induction false} AddRound(v: Verification, id: Party, run: seq<Command>, reachable: seq<set<Party>>, rounds: seq<seq<Message>>,
                                    c: Command, r: set<Party>, messages: seq<Message>)
    requires |reachable| == |run| && SendsRounds(v, id, run, reachable, rounds)
    requires Sends(id, c, NotifiedBy(StateAfter(v, run), c), messages, r)
    ensures SendsRounds(v, id, run + [c], reachable + [r], rounds + [messages])
    ensures Flatten(rounds + [messages]) == Flatten(rounds) + messages
    ensures StateAfter(v, run + [c]) == Step(v, StateAfter(v, run), c)
    ensures AnswersGiven(v, run + [c]) == AnswersGiven(v, run) + Answered(v, StateAfter(v, run), c)
  {
    hide Step, NotifiedBy, Sends, Answered;
    var all, sets, next := run + [c], reachable + [r], rounds + [messages];
    assert all[..|run|] == run && next[..|rounds|] == rounds;
    forall i | 0 <= i < |all| ensures Sends(id, all[i], NotifiedBy(StateAfter(v, all[..i]), all[i]), next[i], sets[i]) {
      if i < |run| {
        assert all[..i] == run[..i];
      }
    }
  }

  /** What a round sends: each message at most once, only what its notification asks for, and when every receiver can be
      reached exactly the notification, one message to each receiver. */
  lemma {:induction false} RoundSends(v: Verification, id: Party, run: seq<Command>, reachable: seq<set<Party>>,
                                      rounds: seq<seq<Message>>, i: nat)
    requires |reachable| == |run| && SendsRounds(v, id, run, reachable, rounds) && i < |run|
    ensures forall j, l :: 0 <= j < l < |rounds[i]| ==> rounds[i][j] != rounds[i][l]
    ensures match NotifiedBy(StateAfter(v, run[..i]), run[i])
            case Quiet => rounds[i] == []
            case Notify(to, data) =>
              && !run[i].Wait?
              && (forall m :: m in rounds[i] ==> m.to in to && m == Message(run[i].key, id, m.to, data))
              && (to <= reachable[i] ==> |rounds[i]| == |to| && forall q :: q in to ==> Message(run[i].key, id, q, data) in rounds[i])
  {
    hide NotifiedBy, StateAfter;
    var n := NotifiedBy(StateAfter(v, run[..i]), run[i]);
    assert Sends(id, run[i], n, rounds[i], reachable[i]);
    if n.Notify? && n.to <= reachable[i] {
      OneToEach(rounds[i], n.to, run[i].key, id, n.data);
    }
  }

  lemma {:induction false} OneToEach(messages: seq<Message>, to: set<Party>, key: Key, id: Party, data: Data)
    requires forall i, j :: 0 <= i < j < |messages| ==> messages[i] != messages[j]
    requires forall m :: m in messages <==> m.to in to && m == Message(key, id, m.to, data)
    ensures |messages| == |to|
  {
    if to != {} {
      var q :| q in to;
      assert Message(key, id, q, data) in messages;
    }
    if messages != [] {
      var before, last := messages[..|messages| - 1], messages[|messages| - 1];
      assert messages == before + [last];
      assert last in messages;
      forall m ensures m in before <==> m.to in to - {last.to} && m == Message(key, id, m.to, data) {
        assert m in messages <==> m in before || m == last;
      }
      OneToEach(before, to - {last.to}, key, id, data);
    }
  }

  lemma NotDone(v: Verification, key: Key, e: Entry)
    requires !(e.Ready() && e.AllAgree(v, key))
    ensures !e.Checked(v, key).Done()
  {
  }

  lemma QuietSends(id: Party, command: Command, reachable: set<Party>)
    ensures Sends(id, command, Quiet, [], reachable)
  {
  }
}
