/** What the checks guarantee across parties, and that they finish when everybody cooperates. */
module ConsistencyAgreement {
  import opened Wrappers
  import opened ConsistencyChecks
  import opened ConsistencyRun
  import opened ConsistencyHistories

  // Any run of many parties

  datatype Event = Event(party: Party, command: Command)

  /** The commands that one party handles. */
  function View(run: seq<Event>, p: Party): seq<Command> {
    if run == [] then []
    else
      var u := View(run[..|run| - 1], p);
      if run[|run| - 1].party == p then u + [run[|run| - 1].command] else u
  }

  function KeyHistory(v: Verification, run: seq<Event>, p: Party, k: Key): History {
    HistoryOf(v, About(k, View(run, p)))
  }

  /** Messages may be delayed, lost, repeated and sent on to others, and everybody outside `honest` may send what
      they like.  A check that names an honest party as its forwarder carries that party's signature, so that
      party did send this check for this key before. */
  ghost predicate Genuine(v: Verification, honest: set<Party>, run: seq<Event>) {
    forall i :: 0 <= i < |run| && run[i].party in honest && run[i].command.ReceivedCheck? && run[i].command.from in honest
      ==> var c := run[i].command; Sent(v, run[..i], c.from, c.key, c.check)
  }

  ghost predicate Sent(v: Verification, run: seq<Event>, q: Party, k: Key, data: Data) {
    exists to :: Notify(to, data) in KeyHistory(v, run, q, k).notified
  }

  /** Everything else may happen at any time: requests, data, waits, whatever parties outside `honest` handle, and checks
      in the name of parties outside `honest`. */
  lemma AnythingElseIsGenuine(v: Verification, honest: set<Party>, run: seq<Event>, e: Event)
    requires Genuine(v, honest, run)
    requires e.party !in honest || !e.command.ReceivedCheck? || e.command.from !in honest
    ensures Genuine(v, honest, run + [e])
  {
    var all := run + [e];
    forall i | 0 <= i < |run| ensures all[i] == run[i] && all[..i] == run[..i] {
    }
  }

  // Notifications are never taken back.
  lemma {:induction false} SentStays(v: Verification, run: seq<Event>, i: nat, q: Party, k: Key, data: Data)
    requires i <= |run| && Sent(v, run[..i], q, k, data)
    ensures Sent(v, run, q, k, data)
    decreases |run| - i
  {
    if i == |run| {
      assert run[..i] == run;
    } else {
      var to :| Notify(to, data) in KeyHistory(v, run[..i], q, k).notified;
      HistoryGrows(v, run, i, q, k);
      SentStays(v, run, i + 1, q, k, data);
    }
  }

  lemma {:induction false} HistoryGrows(v: Verification, run: seq<Event>, i: nat, q: Party, k: Key)
    requires i < |run|
    ensures forall n :: n in KeyHistory(v, run[..i], q, k).notified ==> n in KeyHistory(v, run[..i + 1], q, k).notified
  {
    hide NextEntry, Notified, Updated;
    var before, after := run[..i], run[..i + 1];
    assert after[..i] == before;
    var c := run[i].command;
    if run[i].party == q {
      var u := View(before, q);
      assert View(after, q)[..|u|] == u;
      if !c.Wait? && c.key == k {
        var w := About(k, u);
        assert About(k, View(after, q)) == w + [c];
        assert (w + [c])[..|w|] == w;
      }
    }
  }

  // A command about a key in a party's view is an event of the run.
  lemma {:induction false} EventOf(run: seq<Event>, p: Party, k: Key, c: Command) returns (i: nat)
    requires c in About(k, View(run, p))
    ensures i < |run| && run[i] == Event(p, c)
  {
    InView(k, View(run, p), c);
    i := EventOfView(run, p, c);
  }

  lemma {:induction false} InView(k: Key, u: seq<Command>, c: Command)
    requires c in About(k, u)
    ensures c in u
  {
    if u != [] && c in About(k, u[..|u| - 1]) {
      InView(k, u[..|u| - 1], c);
    }
  }

  lemma {:induction false} EventOfView(run: seq<Event>, p: Party, c: Command) returns (i: nat)
    requires c in View(run, p)
    ensures i < |run| && run[i] == Event(p, c)
  {
    var last := |run| - 1;
    if run[last] == Event(p, c) {
      i := last;
    } else {
      i := EventOfView(run[..last], p, c);
      assert run[i] == run[..last][i];
    }
  }

  /** A party that asks for a key once sends one check for it at most, with the data it finishes with. */
  lemma {:induction false} OneNotification(v: Verification, run: seq<Event>, q: Party, k: Key, data: Data)
    requires Requests(About(k, View(run, q))) <= 1
    requires Sent(v, run, q, k, data)
    ensures var h := KeyHistory(v, run, q, k);
            && |h.notified| == 1 && h.notified[0].data == data
            && (h.finished != [] ==> h.finished == [data])
  {
    var u := About(k, View(run, q));
    HistoryTracks(v, k, u);
    var to :| Notify(to, data) in KeyHistory(v, run, q, k).notified;
  }

  /** When an honest party has finished the check of a key, every honest party that it asked sent it, or somebody,
      the hash that the party recorded, and has recorded no other. */
  lemma {:induction false} FinishedMeansConfirmed(v: Verification, honest: set<Party>, run: seq<Event>, p: Party, q: Party, k: Key)
    requires Genuine(v, honest, run) && p in honest && q in honest
    requires Requests(About(k, View(run, p))) <= 1 && Requests(About(k, View(run, q))) <= 1
    requires var h := KeyHistory(v, run, p, k); h.finished != [] && h.accepted != [] && q in h.accepted[0]
    ensures var h, g := KeyHistory(v, run, p, k), KeyHistory(v, run, q, k);
            && |h.finished| == 1 && |g.notified| == 1 && g.notified[0].Notify?
            && g.notified[0].data.hash == h.finished[0].hash
            && (g.finished != [] ==> g.finished == [g.notified[0].data])
  {
    hide Extend, HistoryOf, Requests, CheckSignature;
    var u := About(k, View(run, p));
    HistoryTracks(v, k, u);
    var d := KeyHistory(v, run, p, k).finished[0];
    var check :| ReceivedCheck(k, q, check) in u && Agrees(v, k, d, q, check);
    var i := EventOf(run, p, k, ReceivedCheck(k, q, check));
    assert Sent(v, run[..i], q, k, check);
    SentStays(v, run, i, q, k, check);
    OneNotification(v, run, q, k, check);
  }

  /** Agreement, whatever the sender and everybody else does: two honest parties that both finish the check of a
      key, each of which asked once and asked the other, recorded the same hash. */
  lemma {:induction false} Agreement(v: Verification, honest: set<Party>, run: seq<Event>, p: Party, q: Party, k: Key)
    requires Genuine(v, honest, run) && p in honest && q in honest
    requires Requests(About(k, View(run, p))) <= 1 && Requests(About(k, View(run, q))) <= 1
    requires var h, g := KeyHistory(v, run, p, k), KeyHistory(v, run, q, k);
             h.finished != [] && g.finished != [] && h.accepted != [] && q in h.accepted[0]
    ensures KeyHistory(v, run, p, k).finished[0].hash == KeyHistory(v, run, q, k).finished[0].hash
  {
    FinishedMeansConfirmed(v, honest, run, p, q, k);
  }

  /** When a command answers somebody who waits, every check that was accepted has finished. */
  lemma {:induction false} AnsweredMeansFinished(v: Verification, run: seq<Command>, c: Command, k: Key)
    requires Requests(About(k, run + [c])) <= 1
    requires Answered(v, StateAfter(v, run), c) != []
    ensures var h := HistoryOf(v, About(k, run + [c])); h.accepted != [] ==> |h.finished| == 1
  {
    hide NextEntry, HistoryOf, About;
    assert (run + [c])[..|run|] == run;
    assert IsConsistent(StateAfter(v, run + [c]).entries);
    EntryFollowsKey(v, run + [c], k);
    HistoryTracks(v, k, About(k, run + [c]));
  }

  // Everybody cooperates

  predicate Alike(c: Command, d: Command) {
    || (c.Request? && d.Request?)
    || (c.ReceivedData? && d.ReceivedData?)
    || (c.ReceivedCheck? && d.ReceivedCheck? && c.from == d.from)
  }

  /** Some of: the request, the data, and one agreeing check of every receiver asked for; each once. */
  ghost predicate Cooperative(v: Verification, k: Key, asked: set<Party>, data: Data, u: seq<Command>) {
    && (forall c :: c in u ==> Expected(v, k, asked, data, c))
    && (forall i, j :: 0 <= i < j < |u| ==> !Alike(u[i], u[j]))
  }

  predicate Expected(v: Verification, k: Key, asked: set<Party>, data: Data, c: Command) {
    || c == Request(k, asked)
    || c == ReceivedData(k, data)
    || (c.ReceivedCheck? && c.key == k && c.from in asked && Agrees(v, k, data, c.from, c.check))
  }

  ghost predicate Requested(k: Key, asked: set<Party>, u: seq<Command>) {
    Request(k, asked) in u
  }

  ghost predicate HasData(k: Key, data: Data, u: seq<Command>) {
    ReceivedData(k, data) in u
  }

  function Arrived(u: seq<Command>): set<Party> {
    if u == [] then {}
    else Arrived(u[..|u| - 1]) + if u[|u| - 1].ReceivedCheck? then {u[|u| - 1].from} else {}
  }

  /** Everything is there. */
  ghost predicate Complete(k: Key, asked: set<Party>, data: Data, u: seq<Command>) {
    Requested(k, asked, u) && HasData(k, data, u) && Arrived(u) == asked
  }

  /** The history that the commands so far determine, whatever their order. */
  ghost predicate OnTrack(v: Verification, k: Key, asked: set<Party>, data: Data, u: seq<Command>, h: History) {
    var ready := Requested(k, asked, u) && HasData(k, data, u);
    && (if Complete(k, asked, data, u) then
          h.entry == None && h.finished == [data]
        else
          h.finished == [] && if u == [] then h.entry == None else h.entry.Some? && Waits(v, k, asked, data, u, h.entry.value))
    && h.notified == (if ready then [Notify(asked, data)] else [])
    && h.accepted == (if Requested(k, asked, u) then [asked] else [])
  }

  ghost predicate Waits(v: Verification, k: Key, asked: set<Party>, data: Data, u: seq<Command>, e: Entry) {
    && e.registered == Requested(k, asked, u)
    && e.received == (if HasData(k, data, u) then Some(data) else None)
    && (if e.Ready() then
          e.receivers.Keys == asked - Arrived(u) && forall q :: q in e.receivers ==> e.receivers[q].None?
        else
          && e.receivers.Keys == (if e.registered then asked else Arrived(u))
          && forall q :: q in e.receivers ==>
               if q in Arrived(u) then e.receivers[q].Some? && Agrees(v, k, data, q, e.receivers[q].value)
               else e.receivers[q].None?)
  }

  lemma {:induction false} CooperativePrefix(v: Verification, k: Key, asked: set<Party>, data: Data, u: seq<Command>, c: Command)
    requires Cooperative(v, k, asked, data, u + [c])
    ensures Cooperative(v, k, asked, data, u) && Expected(v, k, asked, data, c)
    ensures Requested(k, asked, u + [c]) <==> Requested(k, asked, u) || c.Request?
    ensures HasData(k, data, u + [c]) <==> HasData(k, data, u) || c.ReceivedData?
    ensures Arrived(u + [c]) == Arrived(u) + if c.ReceivedCheck? then {c.from} else {}
    ensures c.Request? ==> !Requested(k, asked, u)
    ensures c.ReceivedData? ==> !HasData(k, data, u)
    ensures c.ReceivedCheck? ==> c.from !in Arrived(u)
    ensures Arrived(u) <= asked
  {
    var w := u + [c];
    assert w[..|w| - 1] == u && w[|w| - 1] == c;
    assert forall d :: d in u ==> d in w;
    assert c in w;
    forall i | 0 <= i < |u| ensures !Alike(u[i], c) {
      assert !Alike(w[i], w[|u|]);
    }
    forall i, j | 0 <= i < j < |u| ensures !Alike(u[i], u[j]) {
      assert !Alike(w[i], w[j]);
    }
    forall q | q in Arrived(u) ensures q in asked && (c.ReceivedCheck? ==> q != c.from) {
      var i := ArrivedAt(u, q);
      assert Expected(v, k, asked, data, u[i]);
    }
  }

  lemma {:induction false} ArrivedAt(u: seq<Command>, q: Party) returns (i: nat)
    requires q in Arrived(u)
    ensures i < |u| && u[i].ReceivedCheck? && u[i].from == q
  {
    var last := |u| - 1;
    if u[last].ReceivedCheck? && u[last].from == q {
      i := last;
    } else {
      i := ArrivedAt(u[..last], q);
    }
  }

  lemma {:induction false} OnTrackStart(v: Verification, k: Key, asked: set<Party>, data: Data, c: Command)
    requires Cooperative(v, k, asked, data, [c])
    ensures !c.Wait? && OnTrack(v, k, asked, data, [c], Extend(v, HistoryOf(v, []), c))
  {
    assert [] + [c] == [c];
    CooperativePrefix(v, k, asked, data, [], c);
  }

  // The entry of a run that is under way, after one more command, before the check
  lemma {:induction false} WaitsStep(v: Verification, k: Key, asked: set<Party>, data: Data, u: seq<Command>, e: Entry, c: Command)
    requires Cooperative(v, k, asked, data, u + [c])
    requires Waits(v, k, asked, data, u, e)
    ensures !c.Wait?
    ensures var w, f := u + [c], Updated(e, c).Checked(v, k);
            && Updated(e, c).registered == Requested(k, asked, w)
            && Updated(e, c).received == (if HasData(k, data, w) then Some(data) else None)
            && Waits(v, k, asked, data, w, f)
  {
    hide Agrees;
    CooperativePrefix(v, k, asked, data, u, c);
    var f := Updated(e, c);
    if c.Request? {
      assert f.registered && f.receivers.Keys == asked;
    } else if c.ReceivedCheck? {
      assert f.receivers == e.receivers[c.from := Some(c.check)];
    } else {
      assert f.receivers == e.receivers;
    }
    assert f.Ready() ==> f.AllAgree(v, k);
  }

  lemma {:induction false} NotifiedWhenReady(v: Verification, k: Key, asked: set<Party>, data: Data, u: seq<Command>, e: Entry, c: Command)
    requires Cooperative(v, k, asked, data, u + [c])
    requires Waits(v, k, asked, data, u, e)
    ensures !c.Wait?
    ensures AcceptedBy(Some(e), c) == c.Request?
    ensures Notified(Some(e), c)
         == if (c.Request? && HasData(k, data, u)) || (c.ReceivedData? && Requested(k, asked, u)) then Notify(asked, data) else Quiet
  {
    hide Agrees;
    CooperativePrefix(v, k, asked, data, u, c);
  }

  lemma {:induction false} OnTrackStep(v: Verification, k: Key, asked: set<Party>, data: Data, u: seq<Command>, h: History, c: Command)
    requires Cooperative(v, k, asked, data, u + [c]) && u != []
    requires OnTrack(v, k, asked, data, u, h)
    ensures !c.Wait? && OnTrack(v, k, asked, data, u + [c], Extend(v, h, c))
  {
    hide Agrees, Waits, Entry.Checked, Entry.Done, Arrived, Notified, AcceptedBy, Requested, HasData;
    CooperativePrefix(v, k, asked, data, u, c);
    assert Arrived(u + [c]) <= asked;
    assert !Complete(k, asked, data, u);
    WaitsStep(v, k, asked, data, u, h.entry.value, c);
    NotifiedWhenReady(v, k, asked, data, u, h.entry.value, c);
    DoneIffComplete(v, k, asked, data, u + [c], Updated(h.entry.value, c).Checked(v, k));
  }

  lemma DoneIffComplete(v: Verification, k: Key, asked: set<Party>, data: Data, u: seq<Command>, e: Entry)
    requires Waits(v, k, asked, data, u, e) && Arrived(u) <= asked
    ensures e.Done() <==> Complete(k, asked, data, u)
  {
    if e.Ready() {
      assert e.receivers == map[] <==> e.receivers.Keys == {};
      assert asked - Arrived(u) == {} <==> Arrived(u) == asked;
    }
  }

  lemma {:induction false} CooperativeOnTrack(v: Verification, k: Key, asked: set<Party>, data: Data, u: seq<Command>)
    requires Cooperative(v, k, asked, data, u)
    ensures forall c :: c in u ==> !c.Wait? && c.key == k
    ensures OnTrack(v, k, asked, data, u, HistoryOf(v, u))
  {
    if |u| == 1 {
      assert u == [u[0]] && u[..0] == [];
      OnTrackStart(v, k, asked, data, u[0]);
    } else if u != [] {
      var before, c := u[..|u| - 1], u[|u| - 1];
      assert u == before + [c];
      CooperativePrefix(v, k, asked, data, before, c);
      CooperativeOnTrack(v, k, asked, data, before);
      OnTrackStep(v, k, asked, data, before, HistoryOf(v, before), c);
    }
  }

  lemma {:induction false} CooperativeCount(v: Verification, k: Key, asked: set<Party>, data: Data, u: seq<Command>)
    requires Cooperative(v, k, asked, data, u)
    ensures Arrived(u) <= asked
    ensures |u| == |Arrived(u)| + (if Requested(k, asked, u) then 1 else 0) + (if HasData(k, data, u) then 1 else 0)
    ensures |u| <= |asked| + 2
    ensures |u| == |asked| + 2 <==> Complete(k, asked, data, u)
  {
    if u != [] {
      var before, c := u[..|u| - 1], u[|u| - 1];
      assert u == before + [c];
      CooperativePrefix(v, k, asked, data, before, c);
      CooperativeCount(v, k, asked, data, before);
    }
    SubsetCount(Arrived(u), asked);
  }

  lemma SubsetCount(a: set<Party>, b: set<Party>)
    requires a <= b
    ensures |a| <= |b| && (|a| == |b| ==> a == b)
  {
    assert b == a + (b - a);
  }

  lemma TwiceCounts(u: seq<Command>, i: nat, j: nat)
    requires i < j < |u| && u[i] == u[j]
    ensures multiset(u)[u[i]] >= 2
  {
    assert u == u[..j] + [u[j]] + u[j + 1..];
    assert u[i] == u[..j][i];
    assert u[i] in multiset(u[..j]);
  }

  /** The checks of all receivers asked for. */
  function ChecksFrom(k: Key, checks: map<Party, Data>): set<Command> {
    set q | q in checks :: ReceivedCheck(k, q, checks[q])
  }

  lemma {:induction false} InAnyOrder(v: Verification, k: Key, asked: set<Party>, data: Data, checks: map<Party, Data>, u: seq<Command>)
    requires checks.Keys == asked
    requires forall q :: q in asked ==> k.sender in v.known && v.verifies(k, q, checks[q]) && checks[q].hash == data.hash
    requires multiset(u) == multiset{Request(k, asked), ReceivedData(k, data)} + multiset(ChecksFrom(k, checks))
    ensures Cooperative(v, k, asked, data, u) && |u| == |asked| + 2
  {
    forall c | c in u ensures Expected(v, k, asked, data, c) && multiset(u)[c] == 1 {
      assert c in multiset(u);
      assert c == Request(k, asked) || c == ReceivedData(k, data) || c in ChecksFrom(k, checks);
    }
    forall i, j | 0 <= i < j < |u| ensures !Alike(u[i], u[j]) {
      assert u[i] in u && u[j] in u;
      assert u[i] in multiset(u) && u[j] in multiset(u);
      if u[i] == u[j] {
        TwiceCounts(u, i, j);
      }
    }
    assert Request(k, asked) in multiset(u) && ReceivedData(k, data) in multiset(u);
    forall q | q in asked ensures q in Arrived(u) {
      assert ReceivedCheck(k, q, checks[q]) in ChecksFrom(k, checks);
      assert ReceivedCheck(k, q, checks[q]) in multiset(u);
      HasArrived(u, k, q, checks[q]);
    }
    CooperativeCount(v, k, asked, data, u);
  }

  lemma {:induction false} HasArrived(u: seq<Command>, k: Key, q: Party, check: Data)
    requires ReceivedCheck(k, q, check) in u
    ensures q in Arrived(u)
  {
    if u[|u| - 1] != ReceivedCheck(k, q, check) {
      HasArrived(u[..|u| - 1], k, q, check);
    }
  }

  /** Every order of one request, the data, and one check of every receiver with a signature that verifies and the hash of
      the data: the entry is there until the last of them arrives, then it is gone; the check was sent once, to all
      receivers, and recorded once. */
  lemma {:induction false} AnyOrderFinishes(v: Verification, k: Key, asked: set<Party>, data: Data, checks: map<Party, Data>,
                                            u: seq<Command>, i: nat)
    requires checks.Keys == asked && i <= |u|
    requires forall q :: q in asked ==> k.sender in v.known && v.verifies(k, q, checks[q]) && checks[q].hash == data.hash
    requires multiset(u) == multiset{Request(k, asked), ReceivedData(k, data)} + multiset(ChecksFrom(k, checks))
    ensures |u| == |asked| + 2 && forall c :: c in u[..i] ==> !c.Wait?
    ensures var h := HistoryOf(v, u[..i]);
            && (h.entry.Some? <==> 0 < i < |u|)
            && (i == |u| ==> h.finished == [data] && h.notified == [Notify(asked, data)])
            && (i < |u| ==> h.finished == [])
  {
    hide Agrees;
    InAnyOrder(v, k, asked, data, checks, u);
    var w := u[..i];
    assert Cooperative(v, k, asked, data, w) by {
      forall c | c in w ensures Expected(v, k, asked, data, c) {
        assert c in u;
      }
      forall j, l | 0 <= j < l < |w| ensures !Alike(w[j], w[l]) {
        assert !Alike(u[j], u[l]);
      }
    }
    CooperativeOnTrack(v, k, asked, data, w);
    CooperativeCount(v, k, asked, data, w);
  }
}
