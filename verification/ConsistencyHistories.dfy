/** What happens to the check of one key over a whole run. */
module ConsistencyHistories {
  import opened Wrappers
  import opened ConsistencyChecks
  import opened ConsistencyRun

  /** The commands of a run about one key. */
  function About(k: Key, run: seq<Command>): (u: seq<Command>)
    ensures forall c :: c in u ==> !c.Wait? && c.key == k
  {
    if run == [] then []
    else
      var u := About(k, run[..|run| - 1]);
      var c := run[|run| - 1];
      if !c.Wait? && c.key == k then u + [c] else u
  }

  /** The entry, and everything that was accepted, sent and finished, in order. */
  datatype History = History(entry: Option<Entry>, accepted: seq<set<Party>>, notified: seq<Notification>, finished: seq<Data>)

  function AcceptedBy(before: Option<Entry>, c: Command): bool {
    c.Request? && (before.None? || before.value.Accepts(c.asked))
  }

  function Extend(v: Verification, h: History, c: Command): History
    requires !c.Wait?
  {
    var next := NextEntry(v, h.entry, c);
    History(
      next,
      if AcceptedBy(h.entry, c) then h.accepted + [c.asked] else h.accepted,
      if Notified(h.entry, c).Notify? then h.notified + [Notified(h.entry, c)] else h.notified,
      if next.None? && h.entry.Some? && Updated(h.entry.value, c).received.Some? then
        h.finished + [Updated(h.entry.value, c).received.value]
      else
        h.finished)
  }

  function HistoryOf(v: Verification, u: seq<Command>): History
    requires forall c :: c in u ==> !c.Wait?
  {
    if u == [] then History(None, [], [], [])
    else Extend(v, HistoryOf(v, u[..|u| - 1]), u[|u| - 1])
  }

  /** Checks of different keys do not see each other. */
  lemma {:induction false} EntryFollowsKey(v: Verification, run: seq<Command>, k: Key)
    ensures Lookup(StateAfter(v, run).entries, k) == HistoryOf(v, About(k, run)).entry
  {
    hide NextEntry;
    if run != [] {
      var before := run[..|run| - 1];
      EntryFollowsKey(v, before, k);
      var c := run[|run| - 1];
      if !c.Wait? && c.key == k {
        assert About(k, run)[..|About(k, run)| - 1] == About(k, before);
      }
    }
  }

  function Requests(u: seq<Command>): nat {
    if u == [] then 0 else Requests(u[..|u| - 1]) + if u[|u| - 1].Request? then 1 else 0
  }

  /** A check of the party is here and agrees with the data. */
  ghost predicate Agreed(v: Verification, k: Key, u: seq<Command>, q: Party, data: Data) {
    exists check :: ReceivedCheck(k, q, check) in u && Agrees(v, k, data, q, check)
  }

  // What the entry holds came in.
  ghost predicate Grounded(k: Key, u: seq<Command>, e: Entry) {
    && (forall q :: q in e.receivers && e.receivers[q].Some? ==> ReceivedCheck(k, q, e.receivers[q].value) in u)
    && (e.received.Some? ==> ReceivedData(k, e.received.value) in u)
  }

  lemma {:induction false} EntryGrounded(v: Verification, k: Key, u: seq<Command>)
    requires forall c :: c in u ==> !c.Wait? && c.key == k
    ensures var h := HistoryOf(v, u); h.entry.Some? ==> Grounded(k, u, h.entry.value)
  {
    if u != [] {
      EntryGrounded(v, k, u[..|u| - 1]);
      var c := u[|u| - 1];
      assert u == u[..|u| - 1] + [c];
      var before := HistoryOf(v, u[..|u| - 1]).entry;
      if before.Some? {
        UpdateGrounded(v, k, u[..|u| - 1], before.value, c);
      }
    }
  }

  lemma UpdateGrounded(v: Verification, k: Key, u: seq<Command>, e: Entry, c: Command)
    requires !c.Wait? && c.key == k && Grounded(k, u, e)
    ensures Grounded(k, u + [c], Updated(e, c))
    ensures Grounded(k, u + [c], Updated(e, c).Checked(v, k))
  {
  }

  /** While there is one request at most: an accepted request stays registered until it is finished; the party
      sends one notification, to all receivers, with the data that it keeps; and who left the receivers sent a
      check that agrees with it. */
  ghost predicate Tracks(v: Verification, k: Key, u: seq<Command>, h: History) {
    && (h.accepted == [] ==> h.notified == [] && h.finished == [] && (h.entry.Some? ==> !h.entry.value.registered))
    && (h.accepted != [] ==>
          && Requests(u) >= 1 && |h.accepted| == 1
          && Request(k, h.accepted[0]) in u
          && (h.finished == [] ==>
                && h.entry.Some? && h.entry.value.registered
                && Pending(v, k, u, h, h.entry.value))
          && (h.finished != [] ==>
                && |h.finished| == 1 && h.notified == [Notify(h.accepted[0], h.finished[0])]
                && (h.entry.Some? ==> !h.entry.value.registered)
                && forall q :: q in h.accepted[0] ==> Agreed(v, k, u, q, h.finished[0])))
  }

  ghost predicate Pending(v: Verification, k: Key, u: seq<Command>, h: History, e: Entry)
    requires |h.accepted| == 1
  {
    && e.receivers.Keys <= h.accepted[0]
    && (e.received.None? ==> h.notified == [] && e.receivers.Keys == h.accepted[0])
    && (e.received.Some? ==>
          && h.notified == [Notify(h.accepted[0], e.received.value)]
          && forall q :: q in h.accepted[0] && q !in e.receivers ==> Agreed(v, k, u, q, e.received.value))
  }

  lemma {:induction false} HistoryTracks(v: Verification, k: Key, u: seq<Command>)
    requires forall c :: c in u ==> !c.Wait? && c.key == k
    requires Requests(u) <= 1
    ensures Tracks(v, k, u, HistoryOf(v, u))
  {
    if u != [] {
      var before, c := u[..|u| - 1], u[|u| - 1];
      HistoryTracks(v, k, before);
      EntryGrounded(v, k, before);
      assert u == before + [c];
      TracksStep(v, k, before, HistoryOf(v, before), c);
    }
  }

  lemma {:induction false} TracksStep(v: Verification, k: Key, u: seq<Command>, h: History, c: Command)
    requires !c.Wait? && c.key == k && Tracks(v, k, u, h)
    requires h.entry.Some? ==> Grounded(k, u, h.entry.value)
    requires c.Request? ==> Requests(u) == 0
    ensures Tracks(v, k, u + [c], Extend(v, h, c))
  {
    assert Requests(u + [c]) == Requests(u) + if c.Request? then 1 else 0 by { assert (u + [c])[..|u|] == u; }
    if h.accepted == [] {
      if AcceptedBy(h.entry, c) {
        AcceptStep(v, k, u, h, c);
      } else {
        QuietStep(v, k, u, h, c);
      }
    } else if h.finished == [] {
      PendingStep(v, k, u, h, c);
    } else {
      QuietStep(v, k, u, h, c);
      AgreedGrows(v, k, u, c);
    }
  }

  // An unregistered entry stays what it is unless a request is accepted.
  lemma {:induction false} QuietStep(v: Verification, k: Key, u: seq<Command>, h: History, c: Command)
    requires !c.Wait? && c.key == k && !AcceptedBy(h.entry, c)
    requires h.entry.Some? ==> !h.entry.value.registered
    ensures var g := Extend(v, h, c);
            && g.entry.Some? && !g.entry.value.registered
            && g.accepted == h.accepted && g.notified == h.notified && g.finished == h.finished
  {
  }

  lemma {:induction false} AcceptStep(v: Verification, k: Key, u: seq<Command>, h: History, c: Command)
    requires !c.Wait? && c.key == k && Tracks(v, k, u, h) && h.accepted == [] && AcceptedBy(h.entry, c)
    requires h.entry.Some? ==> Grounded(k, u, h.entry.value)
    requires Requests(u + [c]) >= 1
    ensures Tracks(v, k, u + [c], Extend(v, h, c))
  {
    if h.entry.Some? {
      var e := Updated(h.entry.value, c);
      assert e.registered && e.receivers.Keys == c.asked;
      UpdateGrounded(v, k, u, h.entry.value, c);
      if e.received.Some? {
        CheckedAgrees(v, k, u + [c], c.asked, e);
      }
    }
  }

  lemma {:induction false} PendingStep(v: Verification, k: Key, u: seq<Command>, h: History, c: Command)
    requires !c.Wait? && !c.Request? && c.key == k && Tracks(v, k, u, h) && h.accepted != [] && h.finished == []
    requires Grounded(k, u, h.entry.value)
    requires Requests(u + [c]) >= 1
    ensures Tracks(v, k, u + [c], Extend(v, h, c))
  {
    hide Agrees;
    var e := Updated(h.entry.value, c);
    UpdateGrounded(v, k, u, h.entry.value, c);
    AgreedGrows(v, k, u, c);
    assert e.registered && e.receivers.Keys == h.entry.value.receivers.Keys;
    if e.received.Some? {
      CheckedAgrees(v, k, u + [c], h.accepted[0], e);
    }
  }

  /** Checking takes only parties off whose check agrees. */
  lemma {:induction false} CheckedAgrees(v: Verification, k: Key, u: seq<Command>, asked: set<Party>, e: Entry)
    requires Grounded(k, u, e) && e.Ready() && e.receivers.Keys <= asked
    requires forall q :: q in asked && q !in e.receivers ==> Agreed(v, k, u, q, e.received.value)
    ensures var f := e.Checked(v, k);
            && f.received == e.received && f.registered && f.receivers.Keys <= e.receivers.Keys
            && (forall q :: q in asked && q !in f.receivers ==> Agreed(v, k, u, q, e.received.value))
            && (f.Done() ==> forall q :: q in asked ==> Agreed(v, k, u, q, e.received.value))
  {
    hide Agrees;
  }

  lemma AgreedGrows(v: Verification, k: Key, u: seq<Command>, c: Command)
    ensures forall q, data :: Agreed(v, k, u, q, data) ==> Agreed(v, k, u + [c], q, data)
  {
  }

  /** What a finished check was worth: the one accepted request asked a set of parties, and of each of them a check
      came with a signature of the sender that verifies, and with the hash that the party recorded. */
  lemma {:induction false} FinishedMeansVerified(v: Verification, k: Key, u: seq<Command>, d: Data)
    requires forall c :: c in u ==> !c.Wait? && c.key == k
    requires Requests(u) <= 1 && d in HistoryOf(v, u).finished
    ensures exists asked :: Request(k, asked) in u && HistoryOf(v, u).accepted == [asked] && forall q :: q in asked ==>
      exists check :: ReceivedCheck(k, q, check) in u && k.sender in v.known && v.verifies(k, q, check) && check.hash == d.hash
  {
    HistoryTracks(v, k, u);
    var asked := HistoryOf(v, u).accepted[0];
    assert Request(k, asked) in u;
    forall q | q in asked
      ensures exists check :: ReceivedCheck(k, q, check) in u && k.sender in v.known && v.verifies(k, q, check) && check.hash == d.hash
    {
      assert Agreed(v, k, u, q, d);
    }
  }

  // When a request is accepted

  /** A check of the party came in. */
  ghost predicate CheckedIn(k: Key, u: seq<Command>, q: Party) {
    exists d :: ReceivedCheck(k, q, d) in u
  }

  lemma CheckedInStep(k: Key, u: seq<Command>, c: Command, q: Party)
    requires !c.Wait? && c.key == k
    ensures CheckedIn(k, u + [c], q) <==> CheckedIn(k, u, q) || (c.ReceivedCheck? && c.from == q)
  {
    if CheckedIn(k, u, q) {
      var d :| ReceivedCheck(k, q, d) in u;
      assert ReceivedCheck(k, q, d) in u + [c];
    }
    if c.ReceivedCheck? && c.from == q {
      assert ReceivedCheck(k, q, c.check) == c && c in u + [c];
    }
  }

  lemma {:induction false} KnownBeforeRequest(v: Verification, k: Key, u: seq<Command>)
    requires forall c :: c in u ==> !c.Wait? && c.key == k
    requires Requests(u) == 0
    ensures var h := HistoryOf(v, u);
            && h.accepted == []
            && (h.entry.Some? ==> !h.entry.value.registered)
            && forall q :: CheckedIn(k, u, q) <==> h.entry.Some? && q in h.entry.value.receivers
  {
    if u != [] {
      var before, c := u[..|u| - 1], u[|u| - 1];
      KnownBeforeRequest(v, k, before);
      assert u == before + [c];
      QuietStep(v, k, before, HistoryOf(v, before), c) by { assert !c.Request?; }
      forall q ensures CheckedIn(k, u, q) <==> q in HistoryOf(v, u).entry.value.receivers {
        CheckedInStep(k, before, c, q);
      }
    }
  }

  /** The first request is accepted if and only if no check came before from outside the receivers asked for. */
  lemma {:induction false} AcceptedIff(v: Verification, k: Key, u: seq<Command>, asked: set<Party>)
    requires forall c :: c in u ==> !c.Wait? && c.key == k
    requires Requests(u) == 0
    ensures AcceptedBy(HistoryOf(v, u).entry, Request(k, asked)) <==> forall q :: CheckedIn(k, u, q) ==> q in asked
  {
    KnownBeforeRequest(v, k, u);
    var e := HistoryOf(v, u).entry;
    if e.Some? && !(e.value.receivers.Keys <= asked) {
      var q :| q in e.value.receivers && q !in asked;
      assert CheckedIn(k, u, q);
    }
  }

  lemma {:induction false} NoRequestKeepsAccepted(v: Verification, u: seq<Command>, w: seq<Command>)
    requires forall c :: c in u + w ==> !c.Wait?
    requires Requests(w) == 0
    ensures HistoryOf(v, u + w).accepted == HistoryOf(v, u).accepted
  {
    if w == [] {
      assert u + w == u;
    } else {
      assert (u + w)[..|u + w| - 1] == u + w[..|w| - 1];
      assert w[|w| - 1] in w;
      NoRequestKeepsAccepted(v, u, w[..|w| - 1]);
    }
  }

  lemma {:induction false} RequestsOfConcat(u: seq<Command>, w: seq<Command>)
    ensures Requests(u + w) == Requests(u) + Requests(w)
  {
    if w == [] {
      assert u + w == u;
    } else {
      assert (u + w)[..|u + w| - 1] == u + w[..|w| - 1];
      RequestsOfConcat(u, w[..|w| - 1]);
    }
  }

  /** A request that came after a check from an outsider stays without effect for ever: the check is never
      registered, nothing is sent, nothing finishes. */
  lemma {:induction false} RejectedForGood(v: Verification, k: Key, u: seq<Command>, asked: set<Party>, w: seq<Command>)
    requires forall c :: c in u + [Request(k, asked)] + w ==> !c.Wait? && c.key == k
    requires Requests(u) == 0 && Requests(w) == 0
    ensures var h := HistoryOf(v, u + [Request(k, asked)] + w);
            if forall q :: CheckedIn(k, u, q) ==> q in asked then
              h.accepted == [asked]
            else
              h.accepted == [] && h.notified == [] && h.finished == [] && (h.entry.Some? ==> !h.entry.value.registered)
  {
    var r := u + [Request(k, asked)];
    forall c | c in u ensures !c.Wait? && c.key == k {
      assert c in u + [Request(k, asked)] + w;
    }
    AcceptedIff(v, k, u, asked);
    KnownBeforeRequest(v, k, u);
    assert r[..|r| - 1] == u;
    assert HistoryOf(v, r) == Extend(v, HistoryOf(v, u), Request(k, asked));
    NoRequestKeepsAccepted(v, r, w);
    RequestsOfConcat(r, w);
    assert Requests(r) == 1;
    HistoryTracks(v, k, r + w);
  }

  /** A rejected request drops what came from outsiders: a second request is accepted if and only if it asks for
      everybody that the first one asked for, so in particular when it is repeated. */
  lemma {:induction false} SecondRequestAcceptedIff(v: Verification, k: Key, u: seq<Command>, asked: set<Party>, q: Party, again: set<Party>)
    requires forall c :: c in u ==> !c.Wait? && c.key == k
    requires Requests(u) == 0 && CheckedIn(k, u, q) && q !in asked
    ensures forall c :: c in u + [Request(k, asked), Request(k, again)] ==> !c.Wait?
    ensures HistoryOf(v, u + [Request(k, asked), Request(k, again)]).accepted == if asked <= again then [again] else []
  {
    var one, two := u + [Request(k, asked)], u + [Request(k, asked), Request(k, again)];
    assert one[..|u|] == u && two[..|one|] == one;
    KnownBeforeRequest(v, k, u);
    var e := HistoryOf(v, u).entry.value;
    assert q in e.receivers;
    var f := e.Registered(asked);
    assert !f.registered && f.receivers.Keys == asked;
    assert HistoryOf(v, one) == Extend(v, HistoryOf(v, u), Request(k, asked));
    assert HistoryOf(v, one).entry == Some(f) && HistoryOf(v, one).accepted == [];
    assert HistoryOf(v, two) == Extend(v, HistoryOf(v, one), Request(k, again));
  }

  /** Waiting does not see a rejected request: whoever waits after it is answered if and only if no check of another
      key is registered, although the check it asked for never finished. */
  lemma {:induction false} WaitIgnoresRejected(v: Verification, run: seq<Command>, k: Key, u: seq<Command>, asked: set<Party>,
                                               w: seq<Command>, q: Party, waiter: Waiter)
    requires About(k, run) == u + [Request(k, asked)] + w && Requests(u) == 0 && Requests(w) == 0
    requires CheckedIn(k, u, q) && q !in asked
    ensures HistoryOf(v, About(k, run)).finished == []
    ensures var s := StateAfter(v, run);
            Answered(v, s, Wait(waiter)) == [waiter] <==> forall l :: l in s.entries && l != k ==> !s.entries[l].registered
  {
    hide HistoryOf, StateAfter;
    RejectedForGood(v, k, u, asked, w);
    EntryFollowsKey(v, run, k);
    var s := StateAfter(v, run);
    assert k in s.entries ==> !s.entries[k].registered;
  }

  /** The shortest such run: a check from an outsider, the request, and the wait, which is answered at once. */
  lemma {:induction false} RejectedThenAnswered(v: Verification, k: Key, q: Party, check: Data, asked: set<Party>, waiter: Waiter)
    requires q !in asked
    ensures var run := [ReceivedCheck(k, q, check), Request(k, asked)];
            && Answered(v, StateAfter(v, run), Wait(waiter)) == [waiter]
            && HistoryOf(v, About(k, run)).finished == []
  {
    var u, run := [ReceivedCheck(k, q, check)], [ReceivedCheck(k, q, check), Request(k, asked)];
    assert run[..1] == u && u[..0] == [];
    assert About(k, []) == [] && About(k, u) == u;
    assert About(k, run) == u + [Request(k, asked)] + [];
    assert Requests([]) == 0 && Requests(u) == 0;
    assert ReceivedCheck(k, q, check) in u;
    assert StateAfter(v, []).entries == map[];
    assert StateAfter(v, u).entries.Keys == {k};
    assert StateAfter(v, run).entries.Keys <= {k};
    WaitIgnoresRejected(v, run, k, u, asked, [], q, waiter);
  }

  // A check that does not agree

  predicate Stuck(v: Verification, k: Key, e: Entry) {
    e.Ready() && !e.AllAgree(v, k)
  }

  /** Once a registered check holds data and a check that does not agree with it, no command ever takes the
      entry away. */
  lemma StuckStays(v: Verification, k: Key, e: Entry, c: Command)
    requires Stuck(v, k, e) && !c.Wait? && c.key == k
    ensures NextEntry(v, Some(e), c).Some? && Stuck(v, k, NextEntry(v, Some(e), c).value)
  {
    var q :| q in e.receivers && e.receivers[q].Some? && !Agrees(v, k, e.received.value, q, e.receivers[q].value);
    var f := Updated(e, c);
    assert q in f.receivers && f.receivers[q] == e.receivers[q] && f.received == e.received;
  }

  ghost predicate SomeStuck(v: Verification, s: State) {
    exists k :: k in s.entries && Stuck(v, k, s.entries[k])
  }

  lemma {:induction false} StuckStep(v: Verification, s: State, c: Command)
    requires SomeStuck(v, s)
    ensures SomeStuck(v, Step(v, s, c)) && Answered(v, s, c) == []
    ensures c.Wait? ==> Step(v, s, c).waiting == s.waiting + [c.waiter]
    ensures s.waiting != [] ==> Step(v, s, c).waiting != []
  {
    hide Stuck;
    var k :| k in s.entries && Stuck(v, k, s.entries[k]);
    StuckRegistered(v, k, s.entries[k]);
    if !c.Wait? {
      var t := Step(v, s, c);
      if c.key == k {
        StuckStays(v, k, s.entries[k], c);
      }
      assert k in t.entries && Stuck(v, k, t.entries[k]);
      StuckRegistered(v, k, t.entries[k]);
    }
  }

  lemma StuckRegistered(v: Verification, k: Key, e: Entry)
    ensures Stuck(v, k, e) ==> e.registered
  {
  }

  lemma {:induction false} StuckAfter(v: Verification, run: seq<Command>, more: seq<Command>)
    requires SomeStuck(v, StateAfter(v, run))
    ensures SomeStuck(v, StateAfter(v, run + more))
  {
    if more == [] {
      assert run + more == run;
    } else {
      assert (run + more)[..|run + more| - 1] == run + more[..|more| - 1];
      StuckAfter(v, run, more[..|more| - 1]);
      StuckStep(v, StateAfter(v, run + more[..|more| - 1]), more[|more| - 1]);
    }
  }

  /** Once a registered check with data holds a check of an unknown sender, with a signature that does not verify or with
      another hash, nobody who waits is answered any more, whatever comes. */
  lemma {:induction false} StuckForGood(v: Verification, run: seq<Command>, k: Key, q: Party, check: Data, more: seq<Command>, c: Command)
    requires var entries := StateAfter(v, run).entries;
             && k in entries && entries[k].registered && entries[k].received.Some?
             && q in entries[k].receivers && entries[k].receivers[q] == Some(check)
             && (k.sender !in v.known || !v.verifies(k, q, check) || check.hash != entries[k].received.value.hash)
    ensures Answered(v, StateAfter(v, run + more), c) == []
  {
    hide StateAfter;
    assert Stuck(v, k, StateAfter(v, run).entries[k]);
    StuckAfter(v, run, more);
    StuckStep(v, StateAfter(v, run + more), c);
  }
}
