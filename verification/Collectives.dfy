/** Collective communication at one party: the message ids, and the sends and receives of every collective. */
module Collectives {
  import opened Wrappers
  import opened MessageKinds
  import opened Metadata

  /** Where a caller keeps the contents of a message. */
  type Place = nat

  type Hash(==, !new)

  /** What the hash behind a message id depends on: everything that the members of a communicator agree on before
      they communicate, but not the size. */
  datatype Fingerprint = Fingerprint(kind: MessageKind, datatypeCode: nat, root: Option<Party>,
                                     senders: seq<Party>, receivers: seq<Party>)

  /** The hash and the first eight bytes of it as a number. */
  datatype Digest = Digest(hash: Fingerprint -> Hash, prefix: Hash -> nat)

  const ID_RANGE: nat := 0x1_0000_0000_0000_0000

  /** Parties in increasing order. */
  predicate Ordered(parties: seq<Party>) {
    forall i, j :: 0 <= i < j < |parties| ==> parties[i] < parties[j]
  }

  /** Position of a party. */
  function Rank(parties: seq<Party>, p: Party): (r: nat)
    requires p in parties
    ensures r < |parties| && parties[r] == p
  {
    if parties[0] == p then 0 else 1 + Rank(parties[1..], p)
  }

  /** The part of a collective that all members name, with and without a root. */
  datatype Rooted = Rooted(datatypeCode: nat, root: Party, size: nat) {
    function Broadcast(communicator: seq<Party>, place: Place): Call {
      Call.Broadcast(datatypeCode, root, size, communicator, place)
    }

    function Gather(communicator: seq<Party>, places: seq<Place>): Call {
      Call.Gather(datatypeCode, root, size, communicator, places)
    }
  }

  datatype Plain = Plain(datatypeCode: nat, size: nat) {
    function AllGather(senders: seq<Party>, receivers: seq<Party>, places: seq<Place>): Call {
      Call.AllGather(datatypeCode, size, senders, receivers, places)
    }

    function AllToAll(communicator: seq<Party>, sendPlaces: seq<Place>, receivePlaces: seq<Place>): Call {
      Call.AllToAll(datatypeCode, size, communicator, sendPlaces, receivePlaces)
    }
  }

  datatype Call =
    | Broadcast(datatypeCode: nat, root: Party, size: nat, communicator: seq<Party>, place: Place)
    | Gather(datatypeCode: nat, root: Party, size: nat, communicator: seq<Party>, places: seq<Place>)
    | AllGather(datatypeCode: nat, size: nat, senders: seq<Party>, receivers: seq<Party>, places: seq<Place>)
    | AllToAll(datatypeCode: nat, size: nat, communicator: seq<Party>, sendPlaces: seq<Place>, receivePlaces: seq<Place>)
  {
    function Kind(): MessageKind {
      match this
      case Broadcast(_, _, _, _, _) => MessageKind.Broadcast
      case Gather(_, _, _, _, _) => MessageKind.Gather
      case AllGather(_, _, _, _, _) => MessageKind.AllGather
      case AllToAll(_, _, _, _, _) => MessageKind.AllToAll
    }

    function Senders(): seq<Party> {
      if AllGather? then senders else communicator
    }

    function Receivers(): seq<Party> {
      if AllGather? then receivers else communicator
    }

    function Root(): Option<Party> {
      if Broadcast? || Gather? then Some(root) else None
    }

    function Print(): Fingerprint {
      Fingerprint(Kind(), datatypeCode, Root(), Senders(), Receivers())
    }

    /** What the code demands of a member of the communicator, besides that everybody has to name a root in it. */
    predicate Valid(p: Party) {
      && Ordered(Senders()) && Ordered(Receivers()) && p in Receivers()
      && match this
         case Broadcast(_, root, _, communicator, _) => root in communicator
         case Gather(_, root, _, communicator, places) =>
           root in communicator && |places| == if p == root then |communicator| else 1
         case AllGather(_, _, senders, receivers, places) =>
           |places| == |senders| && forall q :: q in senders ==> q in receivers
         case AllToAll(_, _, communicator, sendPlaces, receivePlaces) =>
           |sendPlaces| == |communicator| == |receivePlaces|
    }

    /** The place that party p sends to party q. */
    function SendPlace(p: Party, q: Party): Option<Place>
      requires Valid(p) && q in Receivers()
    {
      if p == q then None else
      match this
      case Broadcast(_, root, _, _, place) => if p == root then Some(place) else None
      case Gather(_, root, _, _, places) => if q == root then Some(places[0]) else None
      case AllGather(_, _, senders, _, places) => if p in senders then Some(places[Rank(senders, p)]) else None
      case AllToAll(_, _, communicator, sendPlaces, _) => Some(sendPlaces[Rank(communicator, q)])
    }

    /** The place that party p keeps for what party q sends. */
    function ReceivePlace(p: Party, q: Party): Option<Place>
      requires Valid(p) && q in Senders()
    {
      if p == q then None else
      match this
      case Broadcast(_, root, _, _, place) => if q == root then Some(place) else None
      case Gather(_, root, _, communicator, places) => if p == root then Some(places[Rank(communicator, q)]) else None
      case AllGather(_, _, senders, _, places) => Some(places[Rank(senders, q)])
      case AllToAll(_, _, communicator, _, receivePlaces) => Some(receivePlaces[Rank(communicator, q)])
    }

    function ToMessage(sender: Party, receiver: Party, id: nat): Message {
      Message(Kind(), datatypeCode, sender, receiver, id, size)
    }
  }

  datatype Task = Task(message: Message, place: Place)

  /** A request to check, with the other receivers, what came from a sender. */
  datatype CheckRequest = CheckRequest(kind: MessageKind, datatypeCode: nat, sender: Party, id: nat, receivers: set<Party>)

  function SendTask(c: Call, p: Party, id: nat, q: Party): seq<Task>
    requires c.Valid(p) && q in c.Receivers()
  {
    match c.SendPlace(p, q)
    case None => []
    case Some(place) => [Task(c.ToMessage(p, q, id), place)]
  }

  function ReceiveTask(c: Call, p: Party, id: nat, q: Party): seq<Task>
    requires c.Valid(p) && q in c.Senders()
  {
    match c.ReceivePlace(p, q)
    case None => []
    case Some(place) => [Task(c.ToMessage(q, p, id), place)]
  }

  /** What is sent to all receivers alike is checked by each receiver with the others. */
  function CheckTask(c: Call, p: Party, id: nat, q: Party): seq<CheckRequest>
    requires c.Valid(p) && q in c.Senders()
  {
    if (c.Broadcast? || c.AllGather?) && c.ReceivePlace(p, q).Some? then
      [CheckRequest(c.Kind(), c.datatypeCode, q, id, Others(c.Receivers(), p, q))]
    else
      []
  }

  function Others(parties: seq<Party>, p: Party, q: Party): set<Party> {
    set r | r in parties && r != p && r != q
  }

  function CheckTasks(c: Call, p: Party, id: nat, n: nat): seq<CheckRequest>
    requires c.Valid(p) && n <= |c.Senders()|
  {
    if n == 0 then [] else CheckTasks(c, p, id, n - 1) + CheckTask(c, p, id, c.Senders()[n - 1])
  }

  /** The sends of a call to the first n receivers. */
  function SendTasks(c: Call, p: Party, id: nat, n: nat): seq<Task>
    requires c.Valid(p) && n <= |c.Receivers()|
  {
    if n == 0 then [] else SendTasks(c, p, id, n - 1) + SendTask(c, p, id, c.Receivers()[n - 1])
  }

  function ReceiveTasks(c: Call, p: Party, id: nat, n: nat): seq<Task>
    requires c.Valid(p) && n <= |c.Senders()|
  {
    if n == 0 then [] else ReceiveTasks(c, p, id, n - 1) + ReceiveTask(c, p, id, c.Senders()[n - 1])
  }

  // Counting

  type CounterKey = (MessageKind, nat, Hash)

  function KeyOf(d: Digest, f: Fingerprint): CounterKey {
    (f.kind, f.datatypeCode, d.hash(f))
  }

  /** How many of the calls count under a key. */
  function Count(d: Digest, calls: seq<Call>, key: CounterKey): nat {
    if calls == [] then 0
    else Count(d, calls[..|calls| - 1], key) + if KeyOf(d, calls[|calls| - 1].Print()) == key then 1 else 0
  }

  /** The id of the n-th call under a fingerprint, counting from one. */
  function NumberedId(d: Digest, f: Fingerprint, n: nat): nat {
    (d.prefix(d.hash(f)) + n) % ID_RANGE
  }

  /** The id of call n of a party. */
  function IdOf(d: Digest, calls: seq<Call>, n: nat): nat
    requires n < |calls|
  {
    NumberedId(d, calls[n].Print(), Count(d, calls[..n + 1], KeyOf(d, calls[n].Print())))
  }

  function AllSends(d: Digest, p: Party, calls: seq<Call>): seq<Task>
    requires forall c :: c in calls ==> c.Valid(p)
  {
    if calls == [] then []
    else
      var before, c := calls[..|calls| - 1], calls[|calls| - 1];
      AllSends(d, p, before) + SendTasks(c, p, IdOf(d, calls, |calls| - 1), |c.Receivers()|)
  }

  function AllReceives(d: Digest, p: Party, calls: seq<Call>): seq<Task>
    requires forall c :: c in calls ==> c.Valid(p)
  {
    if calls == [] then []
    else
      var before, c := calls[..|calls| - 1], calls[|calls| - 1];
      AllReceives(d, p, before) + ReceiveTasks(c, p, IdOf(d, calls, |calls| - 1), |c.Senders()|)
  }

  lemma CountStep(d: Digest, calls: seq<Call>, c: Call)
    ensures forall key :: Count(d, calls + [c], key) == Count(d, calls, key) + if KeyOf(d, c.Print()) == key then 1 else 0
  {
    assert (calls + [c])[..|calls|] == calls;
  }

  function AllChecks(d: Digest, p: Party, calls: seq<Call>): seq<CheckRequest>
    requires forall c :: c in calls ==> c.Valid(p)
  {
    if calls == [] then []
    else
      var before, c := calls[..|calls| - 1], calls[|calls| - 1];
      AllChecks(d, p, before) + CheckTasks(c, p, IdOf(d, calls, |calls| - 1), |c.Senders()|)
  }

  lemma {:induction false} CallDone(d: Digest, p: Party, calls: seq<Call>, c: Call)
    requires (forall b :: b in calls ==> b.Valid(p)) && c.Valid(p)
    ensures forall b :: b in calls + [c] ==> b.Valid(p)
    ensures var id := IdOf(d, calls + [c], |calls|);
            && AllSends(d, p, calls + [c]) == AllSends(d, p, calls) + SendTasks(c, p, id, |c.Receivers()|)
            && AllReceives(d, p, calls + [c]) == AllReceives(d, p, calls) + ReceiveTasks(c, p, id, |c.Senders()|)
            && AllChecks(d, p, calls + [c]) == AllChecks(d, p, calls) + CheckTasks(c, p, id, |c.Senders()|)
  {
    assert (calls + [c])[..|calls|] == calls;
  }

  lemma {:induction false} RankOf(parties: seq<Party>, i: nat)
    requires Ordered(parties) && i < |parties|
    ensures Rank(parties, parties[i]) == i
  {
    if i > 0 {
      assert parties[0] < parties[i];
      RankOf(parties[1..], i - 1);
    }
  }

  // Tasks, one peer at a time

  lemma NoTasks(c: Call, p: Party, id: nat)
    requires c.Valid(p)
    ensures SendTasks(c, p, id, 0) == [] == ReceiveTasks(c, p, id, 0)
    ensures CheckTasks(c, p, id, 0) == []
    ensures c.Gather? || c.AllToAll? ==> CheckTasks(c, p, id, |c.Senders()|) == []
  {
    if c.Gather? || c.AllToAll? {
      NoChecks(c, p, id, |c.Senders()|);
    }
  }

  lemma {:induction false} NoChecks(c: Call, p: Party, id: nat, n: nat)
    requires c.Valid(p) && n <= |c.Senders()|
    requires forall i :: 0 <= i < |c.Senders()| ==> CheckTask(c, p, id, c.Senders()[i]) == []
    ensures CheckTasks(c, p, id, n) == []
  {
    hide CheckTask, Call.Valid, Call.Senders;
    if n > 0 {
      NoChecks(c, p, id, n - 1);
    }
  }

  lemma NextSendTask(c: Call, p: Party, id: nat, i: nat)
    requires c.Valid(p) && i < |c.Receivers()|
    ensures SendTasks(c, p, id, i + 1) == SendTasks(c, p, id, i) + SendTask(c, p, id, c.Receivers()[i])
  {
  }

  lemma NextReceiveTask(c: Call, p: Party, id: nat, i: nat)
    requires c.Valid(p) && i < |c.Senders()|
    ensures ReceiveTasks(c, p, id, i + 1) == ReceiveTasks(c, p, id, i) + ReceiveTask(c, p, id, c.Senders()[i])
    ensures CheckTasks(c, p, id, i + 1) == CheckTasks(c, p, id, i) + CheckTask(c, p, id, c.Senders()[i])
  {
  }

  lemma NextTask(c: Call, p: Party, id: nat, i: nat)
    requires c.Valid(p) && i < |c.Senders()| == |c.Receivers()|
    ensures SendTasks(c, p, id, i + 1) == SendTasks(c, p, id, i) + SendTask(c, p, id, c.Receivers()[i])
    ensures ReceiveTasks(c, p, id, i + 1) == ReceiveTasks(c, p, id, i) + ReceiveTask(c, p, id, c.Senders()[i])
  {
  }

  // Tasks with one peer only, or none
  lemma {:induction false} SendsOnlyAt(c: Call, p: Party, id: nat, r: nat, n: nat)
    requires c.Valid(p) && n <= |c.Receivers()|
    requires forall i :: 0 <= i < |c.Receivers()| && i != r ==> SendTask(c, p, id, c.Receivers()[i]) == []
    ensures SendTasks(c, p, id, n) == if r < n then SendTask(c, p, id, c.Receivers()[r]) else []
  {
    hide SendTask, ReceiveTask, SendTasks, ReceiveTasks, Call.Valid, Call.Receivers;
    NoTasks(c, p, id);
    if n > 0 {
      SendsOnlyAt(c, p, id, r, n - 1);
      NextSendTask(c, p, id, n - 1);
    }
  }

  lemma {:induction false} ReceivesOnlyAt(c: Call, p: Party, id: nat, r: nat, n: nat)
    requires c.Valid(p) && n <= |c.Senders()|
    requires forall i :: 0 <= i < |c.Senders()| && i != r ==> ReceiveTask(c, p, id, c.Senders()[i]) == []
    ensures ReceiveTasks(c, p, id, n) == if r < n then ReceiveTask(c, p, id, c.Senders()[r]) else []
  {
    hide SendTask, ReceiveTask, SendTasks, ReceiveTasks, Call.Valid, Call.Senders;
    NoTasks(c, p, id);
    if n > 0 {
      ReceivesOnlyAt(c, p, id, r, n - 1);
      NextReceiveTask(c, p, id, n - 1);
    }
  }

  lemma {:induction false} ChecksOnlyAt(c: Call, p: Party, id: nat, r: nat, n: nat)
    requires c.Valid(p) && n <= |c.Senders()|
    requires forall i :: 0 <= i < |c.Senders()| && i != r ==> CheckTask(c, p, id, c.Senders()[i]) == []
    ensures CheckTasks(c, p, id, n) == if r < n then CheckTask(c, p, id, c.Senders()[r]) else []
  {
    hide SendTask, ReceiveTask, CheckTask, SendTasks, ReceiveTasks, CheckTasks, Call.Valid, Call.Senders;
    NoTasks(c, p, id);
    if n > 0 {
      ChecksOnlyAt(c, p, id, r, n - 1);
      NextReceiveTask(c, p, id, n - 1);
    }
  }

  /** The checks of a broadcast. */
  lemma {:induction false} BroadcastChecks(m: Rooted, communicator: seq<Party>, place: Place, p: Party, id: nat)
    requires m.Broadcast(communicator, place).Valid(p)
    ensures CheckTasks(m.Broadcast(communicator, place), p, id, |communicator|)
         == if p == m.root then []
            else [CheckRequest(MessageKind.Broadcast, m.datatypeCode, m.root, id, Others(communicator, p, m.root))]
  {
    var c, n := m.Broadcast(communicator, place), |communicator|;
    if p == m.root {
      NoChecks(c, p, id, n);
    } else {
      var r := Rank(communicator, m.root);
      forall i | 0 <= i < n && i != r ensures communicator[i] != m.root {
        RankOf(communicator, i);
      }
      ChecksOnlyAt(c, p, id, r, n);
    }
  }

  lemma {:induction false} BroadcastTasks(m: Rooted, communicator: seq<Party>, place: Place, p: Party, id: nat)
    requires m.Broadcast(communicator, place).Valid(p)
    ensures var c, n := m.Broadcast(communicator, place), |communicator|;
            && (p == m.root ==>
                  && ReceiveTasks(c, p, id, n) == []
                  && forall q :: q in communicator ==>
                       SendTask(c, p, id, q) == if q == p then [] else [Task(Message(MessageKind.Broadcast, m.datatypeCode, p, q, id, m.size), place)])
            && (p != m.root ==>
                  && SendTasks(c, p, id, n) == []
                  && ReceiveTasks(c, p, id, n) == [Task(Message(MessageKind.Broadcast, m.datatypeCode, m.root, p, id, m.size), place)])
  {
    hide SendTasks, ReceiveTasks, Rank;
    var c, n := m.Broadcast(communicator, place), |communicator|;
    if p == m.root {
      ReceivesOnlyAt(c, p, id, n, n);
    } else {
      SendsOnlyAt(c, p, id, n, n);
      BroadcastReceive(m, communicator, place, p, id);
    }
  }

  lemma {:induction false} BroadcastReceive(m: Rooted, communicator: seq<Party>, place: Place, p: Party, id: nat)
    requires m.Broadcast(communicator, place).Valid(p) && p != m.root
    ensures ReceiveTasks(m.Broadcast(communicator, place), p, id, |communicator|)
         == [Task(Message(MessageKind.Broadcast, m.datatypeCode, m.root, p, id, m.size), place)]
  {
    hide ReceiveTasks, Rank;
    var c, n, r := m.Broadcast(communicator, place), |communicator|, Rank(communicator, m.root);
    forall i | 0 <= i < n && i != r ensures communicator[i] != m.root {
      RankOf(communicator, i);
    }
    ReceivesOnlyAt(c, p, id, r, n);
  }

  lemma {:induction false} GatherTasks(m: Rooted, communicator: seq<Party>, places: seq<Place>, p: Party, id: nat)
    requires m.Gather(communicator, places).Valid(p)
    ensures var c, n := m.Gather(communicator, places), |communicator|;
            && (p == m.root ==>
                  && SendTasks(c, p, id, n) == []
                  && forall i :: 0 <= i < n ==> var q := communicator[i];
                       ReceiveTask(c, p, id, q) == if q == p then [] else [Task(Message(MessageKind.Gather, m.datatypeCode, q, p, id, m.size), places[i])])
            && (p != m.root ==>
                  && ReceiveTasks(c, p, id, n) == []
                  && SendTasks(c, p, id, n) == [Task(Message(MessageKind.Gather, m.datatypeCode, p, m.root, id, m.size), places[0])])
  {
    hide SendTasks, ReceiveTasks;
    var c, n := m.Gather(communicator, places), |communicator|;
    if p == m.root {
      SendsOnlyAt(c, p, id, n, n);
      forall i | 0 <= i < n ensures Rank(communicator, communicator[i]) == i {
        RankOf(communicator, i);
      }
    } else {
      ReceivesOnlyAt(c, p, id, n, n);
      GatherSends(m, communicator, places, p, id);
    }
  }

  lemma {:induction false} GatherSends(m: Rooted, communicator: seq<Party>, places: seq<Place>, p: Party, id: nat)
    requires m.Gather(communicator, places).Valid(p) && p != m.root
    ensures SendTasks(m.Gather(communicator, places), p, id, |communicator|)
         == [Task(Message(MessageKind.Gather, m.datatypeCode, p, m.root, id, m.size), places[0])]
  {
    hide SendTasks, Rank;
    var c, n, r := m.Gather(communicator, places), |communicator|, Rank(communicator, m.root);
    forall i | 0 <= i < n && i != r ensures communicator[i] != m.root {
      RankOf(communicator, i);
    }
    SendsOnlyAt(c, p, id, r, n);
  }

  lemma {:induction false} AllGatherTask(m: Plain, senders: seq<Party>, receivers: seq<Party>, places: seq<Place>, p: Party, id: nat, i: nat)
    requires m.AllGather(senders, receivers, places).Valid(p) && i < |senders|
    ensures var c, q := m.AllGather(senders, receivers, places), senders[i];
            && ReceiveTask(c, p, id, q) == (if q == p then [] else [Task(Message(MessageKind.AllGather, m.datatypeCode, q, p, id, m.size), places[i])])
            && CheckTask(c, p, id, q) == (if q == p then [] else [CheckRequest(MessageKind.AllGather, m.datatypeCode, q, id, Others(receivers, p, q))])
            && (q == p ==> forall r :: r in receivers ==>
                  SendTask(c, p, id, r) == if r == p then [] else [Task(Message(MessageKind.AllGather, m.datatypeCode, p, r, id, m.size), places[i])])
  {
    hide Rank, Others;
    RankOf(senders, i);
  }

  lemma {:induction false} AllGatherTasks(m: Plain, senders: seq<Party>, receivers: seq<Party>, places: seq<Place>, p: Party, id: nat)
    requires m.AllGather(senders, receivers, places).Valid(p)
    ensures p !in senders ==> SendTasks(m.AllGather(senders, receivers, places), p, id, |receivers|) == []
  {
    if p !in senders {
      SendsOnlyAt(m.AllGather(senders, receivers, places), p, id, |receivers|, |receivers|);
    }
  }

  lemma {:induction false} AllToAllTasks(m: Plain, communicator: seq<Party>, sendPlaces: seq<Place>, receivePlaces: seq<Place>,
                                         p: Party, id: nat)
    requires m.AllToAll(communicator, sendPlaces, receivePlaces).Valid(p)
    ensures var c := m.AllToAll(communicator, sendPlaces, receivePlaces);
            forall i :: 0 <= i < |communicator| ==> var q := communicator[i];
              && SendTask(c, p, id, q)
                 == (if q == p then [] else [Task(Message(MessageKind.AllToAll, m.datatypeCode, p, q, id, m.size), sendPlaces[i])])
              && ReceiveTask(c, p, id, q)
                 == (if q == p then [] else [Task(Message(MessageKind.AllToAll, m.datatypeCode, q, p, id, m.size), receivePlaces[i])])
  {
    forall i | 0 <= i < |communicator| ensures Rank(communicator, communicator[i]) == i {
      RankOf(communicator, i);
    }
  }

  class QueueState {
    const id: Party
    const digest: Digest
    var counters: map<CounterKey, nat>
    /** The tasks spawned so far. */
    var sends: seq<Task>
    var receives: seq<Task>
    /** The checks requested so far. */
    var checks: seq<CheckRequest>
    /** When the party waited until its checks were finished: the number of sends before each wait. */
    var waits: seq<nat>
    ghost var calls: seq<Call>

    ghost predicate Counted()
      reads this
    {
      forall key :: (if key in counters then counters[key] else 0) == Count(digest, calls, key)
    }

    /** The counters count, and the tasks are those of the calls. */
    ghost predicate Valid()
      reads this
    {
      && Counted()
      && (forall c :: c in calls ==> c.Valid(id))
      && sends == AllSends(digest, id, calls)
      && receives == AllReceives(digest, id, calls)
      && checks == AllChecks(digest, id, calls)
    }

    lemma SpawnedByCalls()
      requires Valid()
      ensures (forall c :: c in calls ==> c.Valid(id)) && sends == AllSends(digest, id, calls)
      ensures (forall c :: c in calls ==> c.Valid(id)) && receives == AllReceives(digest, id, calls) && checks == AllChecks(digest, id, calls)
    {
    }

    constructor (id: Party, digest: Digest)
      ensures this.id == id && this.digest == digest && Valid() && calls == []
    {
      this.id := id;
      this.digest := digest;
      counters := map[];
      sends := [];
      receives := [];
      checks := [];
      waits := [];
      calls := [];
    }

    /** Counts one more call and gives its id. */
    method NextMessageId(ghost call: Call, kind: MessageKind, datatypeCode: nat, root: Option<Party>,
                         senders: seq<Party>, receivers: seq<Party>) returns (messageId: nat)
      requires Counted()
      requires call.Print() == Fingerprint(kind, datatypeCode, root, senders, receivers)
      modifies this`counters, this`calls
      ensures Counted() && calls == old(calls) + [call]
      ensures messageId == IdOf(digest, calls, |calls| - 1)
      ensures var f := Fingerprint(kind, datatypeCode, root, senders, receivers);
              messageId == (digest.prefix(digest.hash(f)) + Count(digest, calls, KeyOf(digest, f))) % ID_RANGE
    {
      hide Count, Call.Print;
      var f := Fingerprint(kind, datatypeCode, root, senders, receivers);
      var key := KeyOf(digest, f);
      CountStep(digest, calls, call);
      var counter := if key in counters then counters[key] + 1 else 1;
      counters := counters[key := counter];
      calls := calls + [call];
      assert calls[..|calls|] == calls;
      messageId := NumberedId(digest, f, counter);
    }

    method SendOn(message: Message, place: Place)
      modifies this`sends
      ensures sends == old(sends) + [Task(message, place)]
    {
      sends := sends + [Task(message, place)];
    }

    method ReceiveOn(message: Message, place: Place)
      modifies this`receives
      ensures receives == old(receives) + [Task(message, place)]
    {
      receives := receives + [Task(message, place)];
    }

    method CheckConsistency(check: CheckRequest)
      modifies this`checks
      ensures checks == old(checks) + [check]
    {
      checks := checks + [check];
    }

    method EnsureConsistency()
      requires Valid()
      modifies this`waits
      ensures Valid()
      ensures waits == old(waits) + [|sends|]
    {
      waits := waits + [|sends|];
    }

    // One message of each collective

    method BroadcastOne(message: Rooted, communicator: seq<Party>, place: Place)
      requires Valid() && message.Broadcast(communicator, place).Valid(id)
      modifies this
      ensures Valid() && calls == old(calls) + [message.Broadcast(communicator, place)]
      ensures (forall c :: c in calls ==> c.Valid(id)) && sends == AllSends(digest, id, calls)
      ensures (forall c :: c in calls ==> c.Valid(id)) && receives == AllReceives(digest, id, calls) && checks == AllChecks(digest, id, calls)
      ensures waits == old(waits)
    {
      hide Count, KeyOf, NumberedId, IdOf, AllSends, AllReceives, AllChecks, SendTasks, ReceiveTasks, CheckTasks, SendTask, ReceiveTask, CheckTask, Others, Call.Valid;
      ghost var call := message.Broadcast(communicator, place);
      ghost var spawned := sends;
      CallDone(digest, id, calls, call);
      var messageId := NextMessageId(call, MessageKind.Broadcast, message.datatypeCode, Some(message.root), communicator, communicator);
      BroadcastTasks(message, communicator, place, id, messageId);
      BroadcastChecks(message, communicator, place, id, messageId);
      NoTasks(call, id, messageId);
      if message.root == id {
        for i := 0 to |communicator|
          modifies this`sends
          invariant sends == spawned + SendTasks(call, id, messageId, i)
        {
          var receiver := communicator[i];
          if receiver != id {
            SendOn(Message(MessageKind.Broadcast, message.datatypeCode, id, receiver, messageId, message.size), place);
          }
          NextTask(call, id, messageId, i);
        }
      } else {
        var receivers := Others(communicator, id, message.root);
        CheckConsistency(CheckRequest(MessageKind.Broadcast, message.datatypeCode, message.root, messageId, receivers));
        ReceiveOn(Message(MessageKind.Broadcast, message.datatypeCode, message.root, id, messageId, message.size), place);
      }
    }

    method GatherOne(message: Rooted, communicator: seq<Party>, places: seq<Place>)
      requires Valid() && message.Gather(communicator, places).Valid(id)
      modifies this
      ensures Valid() && calls == old(calls) + [message.Gather(communicator, places)]
      ensures (forall c :: c in calls ==> c.Valid(id)) && sends == AllSends(digest, id, calls)
      ensures (forall c :: c in calls ==> c.Valid(id)) && receives == AllReceives(digest, id, calls) && checks == AllChecks(digest, id, calls)
      ensures waits == old(waits)
    {
      hide Count, KeyOf, NumberedId, IdOf, AllSends, AllReceives, AllChecks, SendTasks, ReceiveTasks, CheckTasks, SendTask, ReceiveTask, CheckTask, Others;
      ghost var call := message.Gather(communicator, places);
      ghost var awaited := receives;
      CallDone(digest, id, calls, call);
      var messageId := NextMessageId(call, MessageKind.Gather, message.datatypeCode, Some(message.root), communicator, communicator);
      GatherTasks(message, communicator, places, id, messageId);
      NoTasks(call, id, messageId);
      if message.root == id {
        for i := 0 to |communicator|
          modifies this`receives
          invariant receives == awaited + ReceiveTasks(call, id, messageId, i)
        {
          var party := communicator[i];
          if party != id {
            ReceiveOn(Message(MessageKind.Gather, message.datatypeCode, party, id, messageId, message.size), places[i]);
          }
          NextTask(call, id, messageId, i);
        }
      } else {
        SendOn(Message(MessageKind.Gather, message.datatypeCode, id, message.root, messageId, message.size), places[0]);
      }
    }

    method AllGatherOne(message: Plain, senders: seq<Party>, receivers: seq<Party>, places: seq<Place>)
      requires Valid() && message.AllGather(senders, receivers, places).Valid(id)
      modifies this
      ensures Valid() && calls == old(calls) + [message.AllGather(senders, receivers, places)]
      ensures (forall c :: c in calls ==> c.Valid(id)) && sends == AllSends(digest, id, calls)
      ensures (forall c :: c in calls ==> c.Valid(id)) && receives == AllReceives(digest, id, calls) && checks == AllChecks(digest, id, calls)
      ensures waits == old(waits)
    {
      hide Count, KeyOf, NumberedId, IdOf, AllSends, AllReceives, AllChecks, SendTasks, ReceiveTasks, CheckTasks, SendTask, ReceiveTask, CheckTask, Others;
      ghost var call := message.AllGather(senders, receivers, places);
      ghost var spawned, awaited, requested := sends, receives, checks;
      CallDone(digest, id, calls, call);
      var messageId := NextMessageId(call, MessageKind.AllGather, message.datatypeCode, None, senders, receivers);
      AllGatherTasks(message, senders, receivers, places, id, messageId);
      NoTasks(call, id, messageId);
      for i := 0 to |senders|
        modifies this`sends, this`receives, this`checks
        invariant receives == awaited + ReceiveTasks(call, id, messageId, i)
        invariant checks == requested + CheckTasks(call, id, messageId, i)
        invariant sends == spawned + if id in senders[..i] then SendTasks(call, id, messageId, |receivers|) else []
      {
        var sender := senders[i];
        AllGatherTask(message, senders, receivers, places, id, messageId, i);
        assert senders[..i + 1] == senders[..i] + [sender];
        if sender == id {
          for j := 0 to |receivers|
            modifies this`sends
            invariant sends == spawned + SendTasks(call, id, messageId, j)
          {
            var receiver := receivers[j];
            if receiver != id {
              SendOn(Message(MessageKind.AllGather, message.datatypeCode, sender, receiver, messageId, message.size), places[i]);
            }
            NextSendTask(call, id, messageId, j);
          }
        } else {
          var others := Others(receivers, id, sender);
          CheckConsistency(CheckRequest(MessageKind.AllGather, message.datatypeCode, sender, messageId, others));
          ReceiveOn(Message(MessageKind.AllGather, message.datatypeCode, sender, id, messageId, message.size), places[i]);
        }
        NextReceiveTask(call, id, messageId, i);
      }
      assert senders[..|senders|] == senders;
    }

    method AllToAllOne(message: Plain, communicator: seq<Party>, sendPlaces: seq<Place>, receivePlaces: seq<Place>)
      requires Valid() && message.AllToAll(communicator, sendPlaces, receivePlaces).Valid(id)
      modifies this
      ensures Valid() && calls == old(calls) + [message.AllToAll(communicator, sendPlaces, receivePlaces)]
      ensures (forall c :: c in calls ==> c.Valid(id)) && sends == AllSends(digest, id, calls)
      ensures (forall c :: c in calls ==> c.Valid(id)) && receives == AllReceives(digest, id, calls) && checks == AllChecks(digest, id, calls)
      ensures waits == old(waits)
    {
      hide Count, KeyOf, NumberedId, IdOf, AllSends, AllReceives, AllChecks, SendTasks, ReceiveTasks, CheckTasks, SendTask, ReceiveTask, CheckTask, Others;
      ghost var call := message.AllToAll(communicator, sendPlaces, receivePlaces);
      ghost var spawned, awaited := sends, receives;
      CallDone(digest, id, calls, call);
      var messageId := NextMessageId(call, MessageKind.AllToAll, message.datatypeCode, None, communicator, communicator);
      AllToAllTasks(message, communicator, sendPlaces, receivePlaces, id, messageId);
      NoTasks(call, id, messageId);
      for i := 0 to |communicator|
        modifies this`sends, this`receives
        invariant sends == spawned + SendTasks(call, id, messageId, i)
        invariant receives == awaited + ReceiveTasks(call, id, messageId, i)
      {
        var party := communicator[i];
        if party != id {
          SendOn(Message(MessageKind.AllToAll, message.datatypeCode, id, party, messageId, message.size), sendPlaces[i]);
          ReceiveOn(Message(MessageKind.AllToAll, message.datatypeCode, party, id, messageId, message.size), receivePlaces[i]);
        }
        NextTask(call, id, messageId, i);
      }
    }

    // Several messages at once.  A party that is going to send waits first until its checks are finished.

    method MultiBroadcast(messages: seq<Rooted>, communicator: seq<Party>, places: seq<Place>)
      requires Valid() && |messages| == |places|
      requires forall i :: 0 <= i < |messages| ==> messages[i].Broadcast(communicator, places[i]).Valid(id)
      modifies this
      ensures Valid()
      ensures (forall c :: c in calls ==> c.Valid(id)) && sends == AllSends(digest, id, calls)
      ensures (forall c :: c in calls ==> c.Valid(id)) && receives == AllReceives(digest, id, calls) && checks == AllChecks(digest, id, calls)
      ensures waits == old(waits) + if exists i :: 0 <= i < |messages| && messages[i].root == id then [|old(sends)|] else []
      ensures calls == old(calls) + seq(|messages|, i requires 0 <= i < |messages| => messages[i].Broadcast(communicator, places[i]))
    {
      hide QueueState.Valid, Call.Valid, AllSends, AllReceives, AllChecks;
      ghost var all := seq(|messages|, i requires 0 <= i < |messages| => messages[i].Broadcast(communicator, places[i]));
      if exists i :: 0 <= i < |messages| && messages[i].root == id {
        EnsureConsistency();
      }
      ghost var waited := waits;
      for i := 0 to |messages|
        invariant Valid() && calls == old(calls) + all[..i] && waits == waited
      {
        assert all[..i + 1] == all[..i] + [all[i]];
        BroadcastOne(messages[i], communicator, places[i]);
      }
      assert all[..|messages|] == all;
      SpawnedByCalls();
    }

    method MultiGather(messages: seq<Rooted>, communicator: seq<Party>, places: seq<seq<Place>>)
      requires Valid() && |messages| == |places|
      requires forall i :: 0 <= i < |messages| ==> messages[i].Gather(communicator, places[i]).Valid(id)
      modifies this
      ensures Valid()
      ensures (forall c :: c in calls ==> c.Valid(id)) && sends == AllSends(digest, id, calls)
      ensures (forall c :: c in calls ==> c.Valid(id)) && receives == AllReceives(digest, id, calls) && checks == AllChecks(digest, id, calls)
      ensures waits == old(waits) + if exists i :: 0 <= i < |messages| && messages[i].root != id then [|old(sends)|] else []
      ensures calls == old(calls) + seq(|messages|, i requires 0 <= i < |messages| => messages[i].Gather(communicator, places[i]))
    {
      hide QueueState.Valid, Call.Valid, AllSends, AllReceives, AllChecks;
      ghost var all := seq(|messages|, i requires 0 <= i < |messages| => messages[i].Gather(communicator, places[i]));
      if exists i :: 0 <= i < |messages| && messages[i].root != id {
        EnsureConsistency();
      }
      ghost var waited := waits;
      for i := 0 to |messages|
        invariant Valid() && calls == old(calls) + all[..i] && waits == waited
      {
        assert all[..i + 1] == all[..i] + [all[i]];
        GatherOne(messages[i], communicator, places[i]);
      }
      assert all[..|messages|] == all;
      SpawnedByCalls();
    }

    method ExtendedMultiAllGather(messages: seq<Plain>, senders: seq<Party>, receivers: seq<Party>, places: seq<seq<Place>>)
      requires Valid() && |messages| == |places|
      requires forall i :: 0 <= i < |messages| ==> messages[i].AllGather(senders, receivers, places[i]).Valid(id)
      modifies this
      ensures Valid()
      ensures (forall c :: c in calls ==> c.Valid(id)) && sends == AllSends(digest, id, calls)
      ensures (forall c :: c in calls ==> c.Valid(id)) && receives == AllReceives(digest, id, calls) && checks == AllChecks(digest, id, calls)
      ensures waits == old(waits) + if id in senders then [|old(sends)|] else []
      ensures calls == old(calls) + seq(|messages|, i requires 0 <= i < |messages| => messages[i].AllGather(senders, receivers, places[i]))
    {
      hide QueueState.Valid, Call.Valid, AllSends, AllReceives, AllChecks;
      ghost var all := seq(|messages|, i requires 0 <= i < |messages| => messages[i].AllGather(senders, receivers, places[i]));
      if id in senders {
        EnsureConsistency();
      }
      ghost var waited := waits;
      for i := 0 to |messages|
        invariant Valid() && calls == old(calls) + all[..i] && waits == waited
      {
        assert all[..i + 1] == all[..i] + [all[i]];
        AllGatherOne(messages[i], senders, receivers, places[i]);
      }
      assert all[..|messages|] == all;
      SpawnedByCalls();
    }

    method MultiAllToAll(messages: seq<Plain>, communicator: seq<Party>, sendPlaces: seq<seq<Place>>, receivePlaces: seq<seq<Place>>)
      requires Valid() && |messages| == |sendPlaces| == |receivePlaces|
      requires forall i :: 0 <= i < |messages| ==> messages[i].AllToAll(communicator, sendPlaces[i], receivePlaces[i]).Valid(id)
      modifies this
      ensures Valid()
      ensures (forall c :: c in calls ==> c.Valid(id)) && sends == AllSends(digest, id, calls)
      ensures (forall c :: c in calls ==> c.Valid(id)) && receives == AllReceives(digest, id, calls) && checks == AllChecks(digest, id, calls)
      ensures waits == old(waits) + [|old(sends)|]
      ensures calls == old(calls)
        + seq(|messages|, i requires 0 <= i < |messages| => messages[i].AllToAll(communicator, sendPlaces[i], receivePlaces[i]))
    {
      hide QueueState.Valid, Call.Valid, AllSends, AllReceives, AllChecks;
      ghost var all := seq(|messages|, i requires 0 <= i < |messages| => messages[i].AllToAll(communicator, sendPlaces[i], receivePlaces[i]));
      EnsureConsistency();
      ghost var waited := waits;
      for i := 0 to |messages|
        invariant Valid() && calls == old(calls) + all[..i] && waits == waited
      {
        assert all[..i + 1] == all[..i] + [all[i]];
        AllToAllOne(messages[i], communicator, sendPlaces[i], receivePlaces[i]);
      }
      assert all[..|messages|] == all;
      SpawnedByCalls();
    }
  }
}
