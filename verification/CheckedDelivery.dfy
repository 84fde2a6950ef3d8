/** Data messages reach a party twice: the checker, which records a hash, and the message buffer, which hands the
    contents to the caller.  When the two speak of the same contents. */
module CheckedDelivery {
  import opened Wrappers
  import Metadata
  import Buffers = MessageBuffers
  import opened ConsistencyChecks
  import opened ConsistencyRun
  import opened ConsistencyHistories
  import opened ConsistencyAgreement

  /** A data message off the network. */
  datatype Arrival = Arrival(message: Metadata.Message, value: Buffers.Value, signature: Signature)

  type Hashing = Buffers.Value -> Hash

  /** The key leaves out receiver and size. */
  function KeyOfMessage(m: Metadata.Message): Key {
    Key(m.kind, m.datatypeCode, m.sender, m.id)
  }

  function ToChecker(hash: Hashing, a: Arrival): Command {
    ReceivedData(KeyOfMessage(a.message), Data(hash(a.value), a.signature))
  }

  function ToBuffer(a: Arrival): Buffers.Command {
    Buffers.Received(a.message, a.value)
  }

  /** What the server passes on: every message to the buffer, those of checked kinds also to the checker. */
  function CheckerFeed(hash: Hashing, arrivals: seq<Arrival>): seq<Command> {
    if arrivals == [] then []
    else
      var a := arrivals[|arrivals| - 1];
      CheckerFeed(hash, arrivals[..|arrivals| - 1]) + if a.message.kind.NeedsCheck() then [ToChecker(hash, a)] else []
  }

  function BufferFeed(arrivals: seq<Arrival>): seq<Buffers.Command> {
    if arrivals == [] then [] else BufferFeed(arrivals[..|arrivals| - 1]) + [ToBuffer(arrivals[|arrivals| - 1])]
  }

  function DataIn(u: seq<Command>): seq<Command> {
    if u == [] then []
    else DataIn(u[..|u| - 1]) + if u[|u| - 1].ReceivedData? then [u[|u| - 1]] else []
  }

  function ReceivedIn(w: seq<Buffers.Command>): seq<Buffers.Command> {
    if w == [] then []
    else ReceivedIn(w[..|w| - 1]) + if w[|w| - 1].Received? then [w[|w| - 1]] else []
  }

  /** The two loops handle the data messages that arrived, each in an order of its own, with requests and checks
      anywhere in between. */
  ghost predicate Fed(hash: Hashing, arrivals: seq<Arrival>, u: seq<Command>, w: seq<Buffers.Command>) {
    && multiset(DataIn(u)) == multiset(CheckerFeed(hash, arrivals))
    && multiset(ReceivedIn(w)) == multiset(BufferFeed(arrivals))
  }

  /** All messages of a kind, datatype, sender and id have contents with one hash; with one such message this holds. */
  ghost predicate SameHashes(hash: Hashing, arrivals: seq<Arrival>, k: Key) {
    forall a, b :: a in arrivals && b in arrivals && Names(k, a.message) && Names(k, b.message) ==> hash(a.value) == hash(b.value)
  }

  predicate Names(k: Key, m: Metadata.Message) {
    m.kind == k.kind && m.datatypeCode == k.datatypeCode && m.sender == k.sender && m.id == k.id
  }

  /** The checker gets exactly the messages of the kinds that are checked, under the key that leaves out receiver and
      size. */
  lemma {:induction false} CheckerGets(hash: Hashing, arrivals: seq<Arrival>, c: Command)
    ensures c in CheckerFeed(hash, arrivals) <==> exists a :: (
      && a in arrivals && (a.message.kind.Broadcast? || a.message.kind.AllGather?)
      && c == ReceivedData(Key(a.message.kind, a.message.datatypeCode, a.message.sender, a.message.id), Data(hash(a.value), a.signature)))
  {
    if arrivals != [] {
      var before, last := arrivals[..|arrivals| - 1], arrivals[|arrivals| - 1];
      assert arrivals == before + [last];
      CheckerGets(hash, before, c);
    }
  }

  // From the commands back to the messages

  lemma {:induction false} InDataIn(u: seq<Command>, c: Command)
    requires c in u && c.ReceivedData?
    ensures c in DataIn(u)
  {
    if u[|u| - 1] != c {
      InDataIn(u[..|u| - 1], c);
    }
  }

  lemma {:induction false} InReceivedIn(w: seq<Buffers.Command>, c: Buffers.Command)
    requires c in w && c.Received?
    ensures c in ReceivedIn(w)
  {
    if w[|w| - 1] != c {
      InReceivedIn(w[..|w| - 1], c);
    }
  }

  lemma {:induction false} CheckerFedBy(hash: Hashing, arrivals: seq<Arrival>, c: Command) returns (a: Arrival)
    requires c in CheckerFeed(hash, arrivals)
    ensures a in arrivals && c == ToChecker(hash, a)
  {
    var last := |arrivals| - 1;
    if arrivals[last].message.kind.NeedsCheck() && c == ToChecker(hash, arrivals[last]) {
      a := arrivals[last];
    } else {
      a := CheckerFedBy(hash, arrivals[..last], c);
    }
  }

  lemma {:induction false} BufferFedBy(arrivals: seq<Arrival>, c: Buffers.Command) returns (a: Arrival)
    requires c in BufferFeed(arrivals)
    ensures a in arrivals && c == ToBuffer(a)
  {
    var last := |arrivals| - 1;
    if c == ToBuffer(arrivals[last]) {
      a := arrivals[last];
    } else {
      a := BufferFedBy(arrivals[..last], c);
    }
  }

  /** A check finishes with data that came in. */
  lemma {:induction false} FinishedCame(v: Verification, k: Key, u: seq<Command>, d: Data)
    requires forall c :: c in u ==> !c.Wait? && c.key == k
    requires d in HistoryOf(v, u).finished
    ensures ReceivedData(k, d) in u
  {
    var before, c := u[..|u| - 1], u[|u| - 1];
    assert u == before + [c];
    if d in HistoryOf(v, before).finished {
      FinishedCame(v, k, before, d);
    } else {
      EntryGrounded(v, k, before);
      UpdateGrounded(v, k, before, HistoryOf(v, before).entry.value, c);
    }
  }

  /** When all messages of a key have one hash, the contents that a caller gets for it have the hash that the party
      recorded, in every order of everything. */
  lemma {:induction false} AnswerHasRecordedHash(v: Verification, hash: Hashing, arrivals: seq<Arrival>, u: seq<Command>,
                                                 w: seq<Buffers.Command>, k: Key, a: Buffers.Answer, d: Data)
    requires Fed(hash, arrivals, u, w) && SameHashes(hash, arrivals, k)
    requires d in HistoryOf(v, About(k, u)).finished
    requires a in Buffers.AnswersOf(w) && k == Key(a.message.kind, a.message.datatypeCode, a.message.sender, a.message.id)
    ensures hash(a.value) == d.hash
  {
    hide HistoryOf, Buffers.AnswersOf;
    FinishedCame(v, k, About(k, u), d);
    InView(k, u, ReceivedData(k, d));
    InDataIn(u, ReceivedData(k, d));
    assert ReceivedData(k, d) in multiset(DataIn(u));
    var x := CheckerFedBy(hash, arrivals, ReceivedData(k, d));
    Buffers.AnswerCame(w, a);
    InReceivedIn(w, Buffers.Received(a.message, a.value));
    assert Buffers.Received(a.message, a.value) in multiset(ReceivedIn(w));
    var y := BufferFedBy(arrivals, Buffers.Received(a.message, a.value));
  }

  // When they differ

  lemma {:induction false} CheckerFeedConcat(hash: Hashing, a: seq<Arrival>, b: seq<Arrival>)
    ensures CheckerFeed(hash, a + b) == CheckerFeed(hash, a) + CheckerFeed(hash, b)
  {
    if b == [] {
      assert a + b == a;
    } else {
      assert (a + b)[..|a + b| - 1] == a + b[..|b| - 1];
      CheckerFeedConcat(hash, a, b[..|b| - 1]);
    }
  }

  lemma {:induction false} BufferFeedConcat(a: seq<Arrival>, b: seq<Arrival>)
    ensures BufferFeed(a + b) == BufferFeed(a) + BufferFeed(b)
  {
    if b == [] {
      assert a + b == a;
    } else {
      assert (a + b)[..|a + b| - 1] == a + b[..|b| - 1];
      BufferFeedConcat(a, b[..|b| - 1]);
    }
  }

  lemma {:induction false} DataInConcat(a: seq<Command>, b: seq<Command>)
    ensures DataIn(a + b) == DataIn(a) + DataIn(b)
  {
    if b == [] {
      assert a + b == a;
    } else {
      assert (a + b)[..|a + b| - 1] == a + b[..|b| - 1];
      DataInConcat(a, b[..|b| - 1]);
    }
  }

  lemma {:induction false} FeedIsData(hash: Hashing, arrivals: seq<Arrival>)
    ensures DataIn(CheckerFeed(hash, arrivals)) == CheckerFeed(hash, arrivals)
    ensures ReceivedIn(BufferFeed(arrivals)) == BufferFeed(arrivals)
    ensures forall c :: c in BufferFeed(arrivals) ==> c.Received?
  {
    if arrivals != [] {
      var before, a := arrivals[..|arrivals| - 1], arrivals[|arrivals| - 1];
      FeedIsData(hash, before);
      if a.message.kind.NeedsCheck() {
        assert (CheckerFeed(hash, before) + [ToChecker(hash, a)])[..|CheckerFeed(hash, before)|] == CheckerFeed(hash, before);
      } else {
        assert CheckerFeed(hash, arrivals) == CheckerFeed(hash, before);
      }
      assert (BufferFeed(before) + [ToBuffer(a)])[..|BufferFeed(before)|] == BufferFeed(before);
    }
  }

  lemma {:induction false} AboutConcat(k: Key, a: seq<Command>, b: seq<Command>)
    ensures About(k, a + b) == About(k, a) + About(k, b)
  {
    if b == [] {
      assert a + b == a;
    } else {
      assert (a + b)[..|a + b| - 1] == a + b[..|b| - 1];
      AboutConcat(k, a, b[..|b| - 1]);
    }
  }

  lemma {:induction false} FinishedGrows(v: Verification, u: seq<Command>, w: seq<Command>)
    requires forall c :: c in u + w ==> !c.Wait?
    ensures HistoryOf(v, u).finished <= HistoryOf(v, u + w).finished
  {
    hide NextEntry, Notified, Updated;
    if w == [] {
      assert u + w == u;
    } else {
      assert (u + w)[..|u + w| - 1] == u + w[..|w| - 1];
      assert w[|w| - 1] in u + w;
      FinishedGrows(v, u, w[..|w| - 1]);
    }
  }

  // A check without other receivers finishes with the first data.
  lemma {:induction false} LoneCheckFinishes(v: Verification, k: Key, d: Data)
    ensures HistoryOf(v, [Request(k, {}), ReceivedData(k, d)]).finished == [d]
  {
    var u := [Request(k, {})];
    var both := [Request(k, {}), ReceivedData(k, d)];
    assert both[..1] == u && u[..0] == [];
    assert HistoryOf(v, []) == History(None, [], [], []);
    assert HistoryOf(v, u).entry == Some(EntryOfRequest({}));
    assert EntryOfRequest({}).receivers == map[];
    var e := Updated(EntryOfRequest({}), ReceivedData(k, d));
    assert e == Entry(Some(d), map[], true);
    assert e.Checked(v, k).Done();
  }

  /** A way to handle the messages in which the checker records x and the caller gets y. */
  lemma {:induction false} CanDiffer(v: Verification, hash: Hashing, arrivals: seq<Arrival>, k: Key, x: Arrival, y: Arrival, waiter: Buffers.Waiter)
      returns (u: seq<Command>, w: seq<Buffers.Command>)
    requires k.kind.NeedsCheck() && x in arrivals && y in arrivals
    requires Names(k, x.message) && Names(k, y.message)
    ensures Fed(hash, arrivals, u, w)
    ensures Data(hash(x.value), x.signature) in HistoryOf(v, About(k, u)).finished
    ensures Buffers.Answer(y.message, waiter, y.value) in Buffers.AnswersOf(w)
  {
    hide HistoryOf, Buffers.AnswersOf;
    var d := Data(hash(x.value), x.signature);
    u := CheckerRecords(v, hash, arrivals, k, x);
    w := BufferHandsOut(hash, arrivals, y, waiter);
  }

  lemma {:induction false} FeedAround(hash: Hashing, before: seq<Arrival>, x: Arrival, after: seq<Arrival>)
    ensures BufferFeed(before + [x] + after) == BufferFeed(before) + [ToBuffer(x)] + BufferFeed(after)
    ensures x.message.kind.NeedsCheck() ==>
      CheckerFeed(hash, before + [x] + after) == CheckerFeed(hash, before) + [ToChecker(hash, x)] + CheckerFeed(hash, after)
  {
    CheckerFeedConcat(hash, before + [x], after);
    CheckerFeedConcat(hash, before, [x]);
    BufferFeedConcat(before + [x], after);
    BufferFeedConcat(before, [x]);
    assert [x][..0] == [] && CheckerFeed(hash, []) == [] && BufferFeed([]) == [];
  }

  lemma {:induction false} LoneCheckCommands(k: Key, d: Data)
    ensures var start := [Request(k, {}), ReceivedData(k, d)];
            DataIn(start) == [ReceivedData(k, d)] && About(k, start) == start
  {
    var start := [Request(k, {}), ReceivedData(k, d)];
    assert start[..1] == [Request(k, {})] && [Request(k, {})][..0] == [];
    assert DataIn([]) == [] && About(k, []) == [];
    assert DataIn([Request(k, {})]) == [] && About(k, [Request(k, {})]) == [Request(k, {})];
  }

  lemma {:induction false} CheckerRecords(v: Verification, hash: Hashing, arrivals: seq<Arrival>, k: Key, x: Arrival) returns (u: seq<Command>)
    requires k.kind.NeedsCheck() && x in arrivals && KeyOfMessage(x.message) == k
    ensures multiset(DataIn(u)) == multiset(CheckerFeed(hash, arrivals))
    ensures Data(hash(x.value), x.signature) in HistoryOf(v, About(k, u)).finished
  {
    hide HistoryOf, About, DataIn, CheckerFeed, BufferFeed;
    var i :| 0 <= i < |arrivals| && arrivals[i] == x;
    var d := Data(hash(x.value), x.signature);
    assert arrivals == arrivals[..i] + [x] + arrivals[i + 1..];
    FeedAround(hash, arrivals[..i], x, arrivals[i + 1..]);
    FeedIsData(hash, arrivals[..i]);
    FeedIsData(hash, arrivals[i + 1..]);
    var a, b := CheckerFeed(hash, arrivals[..i]), CheckerFeed(hash, arrivals[i + 1..]);
    var start := [Request(k, {}), ReceivedData(k, d)];
    u := start + (a + b);
    DataInConcat(start, a + b);
    DataInConcat(a, b);
    LoneCheckCommands(k, d);
    AboutConcat(k, start, a + b);
    LoneCheckFinishes(v, k, d);
    FinishedGrows(v, start, About(k, a + b));
    assert About(k, u) == start + About(k, a + b);
    var finished := HistoryOf(v, start + About(k, a + b)).finished;
    assert finished[0] == d;
  }

  lemma {:induction false} EndsWithRequest(rest: seq<Buffers.Command>, y: Arrival, waiter: Buffers.Waiter)
    requires ReceivedIn(rest) == rest
    ensures ReceivedIn(rest + [ToBuffer(y), Buffers.Receive(y.message, waiter)]) == rest + [ToBuffer(y)]
  {
    var most, all := rest + [ToBuffer(y)], rest + [ToBuffer(y), Buffers.Receive(y.message, waiter)];
    assert all[..|most|] == most && most[..|rest|] == rest;
  }

  lemma {:induction false} BufferHandsOut(hash: Hashing, arrivals: seq<Arrival>, y: Arrival, waiter: Buffers.Waiter) returns (w: seq<Buffers.Command>)
    requires y in arrivals
    ensures multiset(ReceivedIn(w)) == multiset(BufferFeed(arrivals))
    ensures Buffers.Answer(y.message, waiter, y.value) in Buffers.AnswersOf(w)
  {
    hide Buffers.AnswersOf, BufferFeed, ReceivedIn, CheckerFeed;
    var i :| 0 <= i < |arrivals| && arrivals[i] == y;
    var before, after := arrivals[..i], arrivals[i + 1..];
    assert arrivals == before + [y] + after;
    FeedAround(hash, before, y, after);
    BufferFeedConcat(before, after);
    FeedIsData(hash, before + after);
    var rest := BufferFeed(before + after);
    EndsWithRequest(rest, y, waiter);
    w := rest + [ToBuffer(y), Buffers.Receive(y.message, waiter)];
    Buffers.LastValueAnswered(rest, y.message, y.value, waiter);
  }

  ghost predicate Finishes(v: Verification, k: Key, u: seq<Command>, d: Data) {
    d in HistoryOf(v, About(k, u)).finished
  }

  ghost predicate Answers(w: seq<Buffers.Command>, k: Key, a: Buffers.Answer) {
    a in Buffers.AnswersOf(w) && Names(k, a.message)
  }

  /** In every order of everything, callers get contents with the recorded hash. */
  ghost predicate AlwaysRecorded(v: Verification, hash: Hashing, arrivals: seq<Arrival>, k: Key) {
    forall u: seq<Command>, w: seq<Buffers.Command>, a: Buffers.Answer, d: Data ::
      Fed(hash, arrivals, u, w) && Finishes(v, k, u, d) && Answers(w, k, a) ==> hash(a.value) == d.hash
  }

  /** What a finished check says about the contents in the caller's hands: it is right about them in every order if
      and only if the messages of the key that reached the party have one hash. */
  lemma {:induction false} RecordedIff(v: Verification, hash: Hashing, arrivals: seq<Arrival>, k: Key)
    requires k.kind.NeedsCheck()
    ensures AlwaysRecorded(v, hash, arrivals, k) <==> SameHashes(hash, arrivals, k)
  {
    hide HistoryOf, Buffers.AnswersOf, Fed;
    if SameHashes(hash, arrivals, k) {
      forall u: seq<Command>, w: seq<Buffers.Command>, a: Buffers.Answer, d: Data |
        Fed(hash, arrivals, u, w) && Finishes(v, k, u, d) && Answers(w, k, a)
        ensures hash(a.value) == d.hash
      {
        AnswerHasRecordedHash(v, hash, arrivals, u, w, k, a, d);
      }
    } else {
      var x, y :| x in arrivals && y in arrivals && Names(k, x.message) && Names(k, y.message) && hash(x.value) != hash(y.value);
      var u, w := CanDiffer(v, hash, arrivals, k, x, y, 0);
      assert Finishes(v, k, u, Data(hash(x.value), x.signature)) && Answers(w, k, Buffers.Answer(y.message, 0, y.value));
    }
  }

  lemma {:induction false} SameHistoryContinues(v: Verification, a: seq<Command>, b: seq<Command>, w: seq<Command>)
    requires (forall c :: c in a + w ==> !c.Wait?) && forall c :: c in b + w ==> !c.Wait?
    requires HistoryOf(v, a) == HistoryOf(v, b)
    ensures HistoryOf(v, a + w) == HistoryOf(v, b + w)
  {
    hide Extend;
    if w == [] {
      assert a + w == a && b + w == b;
    } else {
      assert (a + w)[..|a + w| - 1] == a + w[..|w| - 1] && (b + w)[..|b + w| - 1] == b + w[..|w| - 1];
      assert w[|w| - 1] in a + w;
      SameHistoryContinues(v, a, b, w[..|w| - 1]);
    }
  }

  /** Two different messages of a key, x and then y, that both loops handle in this order before anything is asked
      for: the check goes on as if y had not come, with the request and checks of all other receivers that have the
      hash of x, and finishes with x; the caller gets y. */
  lemma {:induction false} SecondMessageHandedOut(v: Verification, hash: Hashing, k: Key, asked: set<Party>, checks: map<Party, Data>,
                                                  x: Arrival, y: Arrival, rest: seq<Command>, waiter: Buffers.Waiter)
    requires Names(k, x.message) && Names(k, y.message) && checks.Keys == asked
    requires forall q :: q in asked ==> k.sender in v.known && v.verifies(k, q, checks[q]) && checks[q].hash == hash(x.value)
    requires multiset(rest) == multiset{Request(k, asked)} + multiset(ChecksFrom(k, checks))
    ensures forall c :: c in [ToChecker(hash, x), ToChecker(hash, y)] + rest ==> !c.Wait?
    ensures HistoryOf(v, [ToChecker(hash, x), ToChecker(hash, y)] + rest).finished == [Data(hash(x.value), x.signature)]
    ensures Buffers.Answer(y.message, waiter, y.value)
         in Buffers.AnswersOf([ToBuffer(x), ToBuffer(y), Buffers.Receive(y.message, waiter)])
  {
    hide HistoryOf, ChecksFrom, Buffers.AnswersOf;
    var d := Data(hash(x.value), x.signature);
    var one, two := [ReceivedData(k, d)], [ReceivedData(k, d), ReceivedData(k, Data(hash(y.value), y.signature))];
    assert one == [ToChecker(hash, x)] && two == [ToChecker(hash, x), ToChecker(hash, y)];
    var u := one + rest;
    assert multiset(u) == multiset(one) + multiset(rest);
    AnyOrderFinishes(v, k, asked, d, checks, u, |u|);
    assert u[..|u|] == u;
    SecondDataIgnored(v, k, d, Data(hash(y.value), y.signature));
    SameHistoryContinues(v, two, one, rest);
    Buffers.LastValueAnswered([ToBuffer(x)], y.message, y.value, waiter);
    assert [ToBuffer(x)] + [ToBuffer(y), Buffers.Receive(y.message, waiter)] == [ToBuffer(x), ToBuffer(y), Buffers.Receive(y.message, waiter)];
  }

  lemma SecondDataIgnored(v: Verification, k: Key, d: Data, other: Data)
    ensures HistoryOf(v, [ReceivedData(k, d), ReceivedData(k, other)]) == HistoryOf(v, [ReceivedData(k, d)])
  {
    var one, two := [ReceivedData(k, d)], [ReceivedData(k, d), ReceivedData(k, other)];
    assert two[..1] == one && one[..0] == [];
    assert HistoryOf(v, []) == History(None, [], [], []);
    assert HistoryOf(v, one) == History(Some(EntryOfData(d)), [], [], []);
  }
}
