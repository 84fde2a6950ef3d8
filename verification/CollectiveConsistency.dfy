/** The collectives and the consistency checks together: parties that ask for checks as the collectives do meet
    the conditions under which the checks guarantee agreement. */
module CollectiveConsistency {
  import opened Wrappers
  import opened MessageKinds
  import Metadata
  import opened Collectives
  import opened CollectivePairing
  import opened ConsistencyChecks
  import opened ConsistencyRun
  import opened ConsistencyHistories
  import opened ConsistencyAgreement
  import Buffers = MessageBuffers
  import opened CheckedDelivery

  /** The requests that a collective sends to the checker. */
  function ToRequest(r: CheckRequest): Command {
    Request(KeyOfCheck(r), r.receivers)
  }

  function RequestsIn(u: seq<Command>): seq<Command> {
    if u == [] then []
    else
      var before := RequestsIn(u[..|u| - 1]);
      if u[|u| - 1].Request? then before + [u[|u| - 1]] else before
  }

  /** The requests that a party handles are those of its collectives so far, in order. */
  ghost predicate FromCollectives(checks: seq<CheckRequest>, u: seq<Command>) {
    && |RequestsIn(u)| <= |checks|
    && forall i :: 0 <= i < |RequestsIn(u)| ==> RequestsIn(u)[i] == ToRequest(checks[i])
  }

  lemma {:induction false} RequestAt(u: seq<Command>, c: Command) returns (i: nat)
    requires c in u && c.Request?
    ensures i < |RequestsIn(u)| && RequestsIn(u)[i] == c
  {
    if u[|u| - 1] == c {
      i := |RequestsIn(u)| - 1;
    } else {
      i := RequestAt(u[..|u| - 1], c);
    }
  }

  lemma {:induction false} FromCollectivesBefore(checks: seq<CheckRequest>, u: seq<Command>, c: Command)
    requires FromCollectives(checks, u + [c])
    ensures FromCollectives(checks, u)
    ensures c.Request? ==> |RequestsIn(u)| < |checks| && c == ToRequest(checks[|RequestsIn(u)|])
  {
    assert (u + [c])[..|u|] == u;
    assert RequestsIn(u) == RequestsIn(u + [c])[..|RequestsIn(u)|];
  }

  /** Since the keys of a party's checks differ, no key is requested twice. */
  lemma {:induction false} OneRequestPerKey(checks: seq<CheckRequest>, u: seq<Command>, k: Key)
    requires DistinctChecks(checks) && FromCollectives(checks, u)
    ensures Requests(About(k, u)) <= 1
    ensures Requests(About(k, u)) == 1 ==> exists i :: 0 <= i < |RequestsIn(u)| && KeyOfCheck(checks[i]) == k
  {
    if u != [] {
      var before, c := u[..|u| - 1], u[|u| - 1];
      assert u == before + [c];
      FromCollectivesBefore(checks, before, c);
      OneRequestPerKey(checks, before, k);
      if !c.Wait? && c.key == k {
        assert About(k, u) == About(k, before) + [c];
        assert (About(k, before) + [c])[..|About(k, before)|] == About(k, before);
        if c.Request? {
          assert KeyOfCheck(checks[|RequestsIn(before)|]) == k;
        }
      }
    }
  }

  /** What a party asked for is a check of its collectives. */
  lemma {:induction false} RequestIsCheck(checks: seq<CheckRequest>, u: seq<Command>, k: Key, asked: set<Party>) returns (r: CheckRequest)
    requires FromCollectives(checks, u) && Request(k, asked) in About(k, u)
    ensures r in checks && KeyOfCheck(r) == k && r.receivers == asked
  {
    InView(k, u, Request(k, asked));
    var i := RequestAt(u, Request(k, asked));
    r := checks[i];
  }

  function ChecksOf(s: System, p: Party): seq<CheckRequest>
    requires s.Lockstep() && p in s.programs
  {
    AllChecks(s.digest, p, s.programs[p])
  }

  /** Two parties that check the same key asked each other. */
  lemma {:induction false} SameKeyAsksEachOther(s: System, p: Party, r: CheckRequest, q: Party, t: CheckRequest)
    requires s.Valid() && p in s.programs && q in s.programs && p != q
    requires r in ChecksOf(s, p) && t in ChecksOf(s, q) && KeyOfCheck(r) == KeyOfCheck(t)
    ensures q in r.receivers
  {
    hide AllChecks, IdOf, Sizes, Ordinal, Call.Valid, Call.ReceivePlace, Others, System.NoCollisions, System.Lockstep, Call.Print;
    assert forall c :: c in s.programs[p] ==> c.Valid(p) by { AllValid(s, p); }
    assert forall c :: c in s.programs[q] ==> c.Valid(q) by { AllValid(s, q); }
    var m, o := CheckComesFrom(s.digest, p, s.programs[p], r);
    var n, o2 := CheckComesFrom(s.digest, q, s.programs[q], t);
    assert s.programs[p][m] in s.programs[p] && s.programs[q][n] in s.programs[q];
    SameLabelSameCall(s, p, m, q, n);
    AskedTogether(s.programs[p][m], p, s.programs[q][n], q, o);
  }

  lemma AllValid(s: System, p: Party)
    requires s.Lockstep() && p in s.programs
    ensures forall c :: c in s.programs[p] ==> c.Valid(p)
  {
    hide Call.Valid;
  }

  lemma SameLabelSameCall(s: System, p: Party, m: nat, q: Party, n: nat)
    requires s.NoCollisions() && p in s.programs && q in s.programs && m < |s.programs[p]| && n < |s.programs[q]|
    requires s.SameLabel(s.programs[p][m], IdOf(s.digest, s.programs[p], m), s.programs[q][n], IdOf(s.digest, s.programs[q], n))
    ensures s.programs[p][m].Print() == s.programs[q][n].Print()
  {
    hide Call.Print, IdOf, Ordinal;
    SameIdSamePrint(s, p, m, q, n);
  }

  lemma AskedTogether(c: Call, p: Party, e: Call, q: Party, o: Party)
    requires c.Valid(p) && e.Valid(q) && c.Print() == e.Print() && p != q
    requires o in e.Senders() && (e.Broadcast? || e.AllGather?) && e.ReceivePlace(q, o).Some?
    ensures q in Others(c.Receivers(), p, o)
  {
  }

  /** Receivers of a broadcast or an all-gather agree.  Two honest parties issue collectives in lockstep with
      everybody, ask for checks as the collectives do, and both finish the check of what came from some sender:
      then they recorded the same hash, whatever the sender, the network and all other parties do. */
  lemma {:induction false} ReceiversAgree(s: System, v: Verification, honest: set<Party>, run: seq<Event>, p: Party, q: Party, k: Key)
    requires s.Valid() && p in s.programs && q in s.programs && p != q
    requires p in honest && q in honest && Genuine(v, honest, run)
    requires FromCollectives(ChecksOf(s, p), View(run, p)) && FromCollectives(ChecksOf(s, q), View(run, q))
    requires KeyHistory(v, run, p, k).finished != [] && KeyHistory(v, run, q, k).finished != []
    ensures KeyHistory(v, run, p, k).finished[0].hash == KeyHistory(v, run, q, k).finished[0].hash
  {
    hide AllChecks, DistinctChecks, FromCollectives, About, View, HistoryOf, Requests, System.Lockstep, System.NoCollisions, Genuine;
    assert s.programs[p][..|s.programs[p]|] == s.programs[p] && s.programs[q][..|s.programs[q]|] == s.programs[q];
    ChecksDistinct(s, p, |s.programs[p]|);
    ChecksDistinct(s, q, |s.programs[q]|);
    OneRequestPerKey(ChecksOf(s, p), View(run, p), k);
    OneRequestPerKey(ChecksOf(s, q), View(run, q), k);
    HistoryTracks(v, k, About(k, View(run, p)));
    HistoryTracks(v, k, About(k, View(run, q)));
    var r := RequestIsCheck(ChecksOf(s, p), View(run, p), k, KeyHistory(v, run, p, k).accepted[0]);
    var t := RequestIsCheck(ChecksOf(s, q), View(run, q), k, KeyHistory(v, run, q, k).accepted[0]);
    SameKeyAsksEachOther(s, p, r, q, t);
    Agreement(v, honest, run, p, q, k);
  }

  // The conditions can be met

  /** The commands of a member that receives a broadcast with one other member, when nobody misbehaves. */
  function Smooth(k: Key, other: Party, data: Data): seq<Command> {
    [Request(k, {other}), ReceivedData(k, data), ReceivedCheck(k, other, data)]
  }

  function SmoothRun(k: Key, p: Party, q: Party, data: Data): seq<Event> {
    [Event(p, Request(k, {q})), Event(p, ReceivedData(k, data)), Event(q, Request(k, {p})), Event(q, ReceivedData(k, data)),
     Event(p, ReceivedCheck(k, q, data)), Event(q, ReceivedCheck(k, p, data))]
  }

  lemma ViewStep(run: seq<Event>, i: nat, p: Party)
    requires i < |run|
    ensures View(run[..i + 1], p) == if run[i].party == p then View(run[..i], p) + [run[i].command] else View(run[..i], p)
  {
    assert run[..i + 1][..i] == run[..i];
  }

  lemma SmoothViews(k: Key, p: Party, q: Party, data: Data)
    requires p != q
    ensures var run := SmoothRun(k, p, q, data);
            && View(run[..4], q) == Smooth(k, p, data)[..2] && View(run[..5], p) == Smooth(k, q, data)
            && View(run, p) == Smooth(k, q, data) && View(run, q) == Smooth(k, p, data)
  {
    hide View;
    var run := SmoothRun(k, p, q, data);
    assert run[..0] == [] && run[..6] == run;
    assert View([], p) == [] && View([], q) == [] by { EmptyView(p); EmptyView(q); }
    for i := 0 to 6
      invariant i <= 1 ==> View(run[..i], q) == []
      invariant View(run[..i], p) == Smooth(k, q, data)[..if i <= 2 then i else if i <= 4 then 2 else 3]
      invariant View(run[..i], q) == Smooth(k, p, data)[..if i <= 2 then 0 else if i <= 4 then i - 2 else if i == 5 then 2 else 3]
      invariant i >= 4 ==> View(run[..4], q) == Smooth(k, p, data)[..2]
      invariant i >= 5 ==> View(run[..5], p) == Smooth(k, q, data)
    {
      ViewStep(run, i, p);
      ViewStep(run, i, q);
    }
  }

  lemma EmptyView(p: Party)
    ensures View([], p) == []
  {
  }

  lemma SmoothHistory(v: Verification, k: Key, other: Party, data: Data)
    requires k.sender in v.known && v.verifies(k, other, data)
    ensures About(k, Smooth(k, other, data)[..2]) == Smooth(k, other, data)[..2] && About(k, Smooth(k, other, data)) == Smooth(k, other, data)
    ensures RequestsIn(Smooth(k, other, data)) == [Request(k, {other})]
    ensures HistoryOf(v, Smooth(k, other, data)[..2]).notified == [Notify({other}, data)]
    ensures HistoryOf(v, Smooth(k, other, data)).notified == [Notify({other}, data)]
    ensures HistoryOf(v, Smooth(k, other, data)).finished == [data]
  {
    hide HistoryOf, About, RequestsIn, ChecksFrom, OnTrack;
    var u := Smooth(k, other, data);
    var w := u[..2];
    SmoothParts(k, other, data);
    OneCheck(k, other, data);
    assert multiset(u) == multiset{Request(k, {other}), ReceivedData(k, data)} + multiset({ReceivedCheck(k, other, data)});
    AnyOrderFinishes(v, k, {other}, data, map[other := data], u, 3);
    assert u[..3] == u;
    assert Cooperative(v, k, {other}, data, w);
    CooperativeOnTrack(v, k, {other}, data, w);
    BothHere(v, k, other, data);
  }

  lemma BothHere(v: Verification, k: Key, other: Party, data: Data)
    ensures forall h :: OnTrack(v, k, {other}, data, Smooth(k, other, data)[..2], h) ==> h.notified == [Notify({other}, data)]
  {
    var w := Smooth(k, other, data)[..2];
    assert w[0] == Request(k, {other}) && w[1] == ReceivedData(k, data);
    assert w[0] in w && w[1] in w;
  }

  lemma OneCheck(k: Key, other: Party, data: Data)
    ensures ChecksFrom(k, map[other := data]) == {ReceivedCheck(k, other, data)}
  {
    var checks := map[other := data];
    assert other in checks && checks[other] == data;
    forall c ensures c in ChecksFrom(k, checks) <==> c == ReceivedCheck(k, other, data) {
    }
  }

  lemma SmoothParts(k: Key, other: Party, data: Data)
    ensures About(k, Smooth(k, other, data)[..2]) == Smooth(k, other, data)[..2] && About(k, Smooth(k, other, data)) == Smooth(k, other, data)
    ensures RequestsIn(Smooth(k, other, data)) == [Request(k, {other})]
  {
    var u := Smooth(k, other, data);
    assert u[..3] == u && u[..2][..1] == u[..1] && u[..1][..0] == [];
    assert About(k, []) == [] && RequestsIn([]) == [];
    assert About(k, u[..1]) == u[..1] && RequestsIn(u[..1]) == u[..1];
    assert About(k, u[..2]) == u[..2] && RequestsIn(u[..2]) == u[..1];
  }

  /** The one check that a member of a single broadcast asks for. */
  lemma SmoothChecks(d: Digest, call: Rooted, communicator: seq<Party>, place: Place, p: Party, q: Party)
    requires forall i, j :: 0 <= i < j < |communicator| ==> communicator[i] < communicator[j]
    requires forall r :: r in communicator <==> r in {call.root, p, q}
    requires p != q && p != call.root && q != call.root
    ensures var c := call.Broadcast(communicator, place);
            && (forall e :: e in [c] ==> e.Valid(p))
            && AllChecks(d, p, [c]) == [CheckRequest(MessageKind.Broadcast, call.datatypeCode, call.root, IdOf(d, [c], 0), {q})]
  {
    hide CheckTasks, IdOf;
    var c := call.Broadcast(communicator, place);
    assert c.Valid(p);
    BroadcastChecks(call, communicator, place, p, IdOf(d, [c], 0));
    assert Others(communicator, p, call.root) == {q};
    CallDone(d, p, [], c);
    assert [] + [c] == [c];
    assert AllChecks(d, p, []) == [];
  }

  /** When nobody misbehaves, both receivers of a broadcast finish, and all that the agreement asks for holds. */
  lemma {:induction false} ReceiversFinish(d: Digest, call: Rooted, communicator: seq<Party>, place: Place, p: Party, q: Party,
                                           v: Verification, data: Data) returns (s: System, k: Key, run: seq<Event>)
    requires forall i, j :: 0 <= i < j < |communicator| ==> communicator[i] < communicator[j]
    requires forall r :: r in communicator <==> r in {call.root, p, q}
    requires p != q && p != call.root && q != call.root
    requires call.root in v.known && forall l: Key, r: Party :: l.sender == call.root ==> v.verifies(l, r, data)
    ensures s.Valid() && p in s.programs && q in s.programs && Genuine(v, {p, q}, run)
    ensures FromCollectives(ChecksOf(s, p), View(run, p)) && FromCollectives(ChecksOf(s, q), View(run, q))
    ensures KeyHistory(v, run, p, k).finished == [data] && KeyHistory(v, run, q, k).finished == [data]
  {
    hide AllChecks, View, About, HistoryOf, IdOf, System.Valid, RequestsIn, Call.Valid;
    var c := call.Broadcast(communicator, place);
    s := OneBroadcast(d, call, communicator, place, {});
    OneBroadcastIsValid(d, call, communicator, place, {});
    k := Key(MessageKind.Broadcast, call.datatypeCode, call.root, IdOf(d, [c], 0));
    run := SmoothRun(k, p, q, data);
    SmoothViews(k, p, q, data);
    SmoothHistory(v, k, p, data);
    SmoothHistory(v, k, q, data);
    SmoothChecks(d, call, communicator, place, p, q);
    SmoothChecks(d, call, communicator, place, q, p);
    assert Sent(v, run[..4], q, k, data) && Sent(v, run[..5], p, k, data);
    assert s.Lockstep() by { ValidIsLockstep(s); }
  }

  lemma ValidIsLockstep(s: System)
    requires s.Valid()
    ensures s.Lockstep()
  {
  }

  /** Messages that a member receives reach its checker under the key that it asks to check. */
  lemma ReceiveHasCheckedKey(c: Call, p: Party, id: nat, q: Party, t: Task, r: CheckRequest)
    requires c.Valid(p) && q in c.Senders() && t in ReceiveTask(c, p, id, q) && r in CheckTask(c, p, id, q)
    ensures KeyOfMessage(t.message) == KeyOfCheck(r)
  {
    ReceiveIsChecked(c, p, id, q, t);
  }

  /** What the callers of a broadcast or an all-gather get.  Two honest members whose corresponding calls receive t and u
      from a sender o, and that both finish the check of it, hand out contents with one hash for t and u, if at each of
      the two all messages of that kind, datatype, sender and id that reached it have contents with one hash. */
  lemma {:induction false} CallersAgree(s: System, v: Verification, hash: Hashing, honest: set<Party>, run: seq<Event>, k: Key, o: Party,
                                        p: Party, m: nat, t: Task, toP: seq<Arrival>, bufferP: seq<Buffers.Command>, x: Buffers.Answer,
                                        q: Party, n: nat, u: Task, toQ: seq<Arrival>, bufferQ: seq<Buffers.Command>, y: Buffers.Answer)
    requires s.Valid() && Corresponds(s, p, m, q, n) && p != q
    requires ReceiveOf(s.digest, p, s.programs[p], t, m, o) && ReceiveOf(s.digest, q, s.programs[q], u, n, o)
    requires s.programs[p][m].Broadcast? || s.programs[p][m].AllGather?
    requires k == Key(t.message.kind, t.message.datatypeCode, o, t.message.id)
    requires p in honest && q in honest && Genuine(v, honest, run)
    requires FromCollectives(ChecksOf(s, p), View(run, p)) && FromCollectives(ChecksOf(s, q), View(run, q))
    requires KeyHistory(v, run, p, k).finished != [] && KeyHistory(v, run, q, k).finished != []
    requires Fed(hash, toP, View(run, p), bufferP) && SameHashes(hash, toP, k)
    requires Fed(hash, toQ, View(run, q), bufferQ) && SameHashes(hash, toQ, k)
    requires x in Buffers.AnswersOf(bufferP) && x.message == t.message
    requires y in Buffers.AnswersOf(bufferQ) && y.message == u.message
    ensures hash(x.value) == hash(y.value)
  {
    hide AllChecks, FromCollectives, About, View, HistoryOf, System.Valid, Genuine, Fed, SameHashes, Buffers.AnswersOf, IdOf, Call.Valid, Call.ReceivePlace;
    ReceiversAgree(s, v, honest, run, p, q, k);
    AnswerHasRecordedHash(v, hash, toP, View(run, p), bufferP, k, x, KeyHistory(v, run, p, k).finished[0]);
    AnswerHasRecordedHash(v, hash, toQ, View(run, q), bufferQ, k, y, KeyHistory(v, run, q, k).finished[0]);
  }
}
