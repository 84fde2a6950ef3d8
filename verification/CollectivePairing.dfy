/** Members of a communicator that issue the same collectives compute matching ids without talking to each other:
    every message that is sent is asked for by its receiver, and the other way round, and each contents arrives at
    the place that the collective promises. */
module CollectivePairing {
  import opened Arithmetic
  import opened Wrappers
  import opened Metadata
  import opened Collectives
  import Buffers = MessageBuffers
  import Consistency = ConsistencyChecks

  // Calls under one fingerprint

  /** The sizes of the calls under a fingerprint, in order. */
  function Sizes(calls: seq<Call>, f: Fingerprint): seq<nat> {
    if calls == [] then []
    else
      var c := calls[|calls| - 1];
      Sizes(calls[..|calls| - 1], f) + if c.Print() == f then [c.size] else []
  }

  /** The number of call n among the calls under its fingerprint, from one. */
  function Ordinal(calls: seq<Call>, n: nat): (k: nat)
    requires n < |calls|
  {
    |Sizes(calls[..n + 1], calls[n].Print())|
  }

  lemma {:induction false} SizesPrefix(calls: seq<Call>, n: nat, f: Fingerprint)
    requires n <= |calls|
    ensures Sizes(calls[..n], f) <= Sizes(calls, f)
    decreases |calls| - n
  {
    if n == |calls| {
      assert calls[..n] == calls;
    } else {
      SizesPrefix(calls, n + 1, f);
      assert calls[..n + 1][..n] == calls[..n];
    }
  }

  lemma {:induction false} OrdinalHasSize(calls: seq<Call>, n: nat)
    requires n < |calls|
    ensures 1 <= Ordinal(calls, n) <= |Sizes(calls, calls[n].Print())|
    ensures Sizes(calls, calls[n].Print())[Ordinal(calls, n) - 1] == calls[n].size
  {
    var f := calls[n].Print();
    SizesPrefix(calls, n + 1, f);
    assert calls[..n + 1][..n] == calls[..n];
  }

  /** The k-th call under a fingerprint. */
  lemma {:induction false} CallWithOrdinal(calls: seq<Call>, f: Fingerprint, k: nat) returns (n: nat)
    requires 1 <= k <= |Sizes(calls, f)|
    ensures n < |calls| && calls[n].Print() == f && Ordinal(calls, n) == k
  {
    var last := |calls| - 1;
    if k <= |Sizes(calls[..last], f)| {
      n := CallWithOrdinal(calls[..last], f, k);
      assert calls[..last][..n + 1] == calls[..n + 1];
    } else {
      n := last;
      assert calls[..n + 1] == calls;
    }
  }

  lemma {:induction false} SameOrdinalSameCall(calls: seq<Call>, m: nat, n: nat)
    requires m < |calls| && n < |calls| && calls[m].Print() == calls[n].Print() && Ordinal(calls, m) == Ordinal(calls, n)
    ensures m == n
  {
    var f := calls[m].Print();
    if m < n {
      OrdinalGrows(calls, m, n);
    } else if n < m {
      OrdinalGrows(calls, n, m);
    }
  }

  lemma {:induction false} OrdinalGrows(calls: seq<Call>, m: nat, n: nat)
    requires m < n < |calls| && calls[m].Print() == calls[n].Print()
    ensures Ordinal(calls, m) < Ordinal(calls, n)
  {
    assert calls[..n][..m + 1] == calls[..m + 1];
    SizesPrefix(calls[..n], m + 1, calls[m].Print());
    assert calls[..n + 1][..n] == calls[..n];
  }

  // Many parties

  datatype System = System(digest: Digest, programs: map<Party, seq<Call>>) {

    /** Everybody calls as the interface demands, communicators consist of parties of the system, and for every
        fingerprint its members issue the same calls in the same order, with anything else in between. */
    ghost predicate Lockstep() {
      && (forall p, c :: p in programs && c in programs[p] ==> c.Valid(p) && forall q :: q in c.Receivers() ==> q in programs)
      && (forall p, q, f: Fingerprint :: p in programs && q in programs && p in f.receivers && q in f.receivers
            ==> Sizes(programs[p], f) == Sizes(programs[q], f))
    }

    /** Of different fingerprints of one kind and datatype, the prefixes of the hashes are further apart than the parties
        make calls, in the circle of the ids. */
    ghost predicate NoCollisions() {
      forall p, q :: p in programs && q in programs ==> HashesApart(programs[p], programs[q])
    }

    ghost predicate HashesApart(a: seq<Call>, b: seq<Call>) {
      forall c, e :: c in a && e in b ==> PrintsApart(c.Print(), |a|, e.Print(), |b|)
    }

    predicate PrintsApart(f: Fingerprint, countF: nat, g: Fingerprint, countG: nat) {
      f != g && f.kind == g.kind && f.datatypeCode == g.datatypeCode ==>
        countG <= (digest.prefix(digest.hash(f)) - digest.prefix(digest.hash(g))) % ID_RANGE <= ID_RANGE - countF
    }

    /** Nobody issues so many calls that a counter comes round. */
    ghost predicate Bounded() {
      forall p :: p in programs ==> |programs[p]| < ID_RANGE
    }

    predicate SameLabel(c: Call, i: nat, e: Call, j: nat) {
      c.Kind() == e.Kind() && c.datatypeCode == e.datatypeCode && i == j
    }

    ghost predicate Valid() {
      Lockstep() && NoCollisions() && Bounded()
    }

    function Sends(p: Party): seq<Task>
      requires p in programs && Lockstep()
    {
      AllSends(digest, p, programs[p])
    }

    function Receives(p: Party): seq<Task>
      requires p in programs && Lockstep()
    {
      AllReceives(digest, p, programs[p])
    }
  }

  /** Without hash collisions the counter of a call is its ordinal. */
  lemma {:induction false} CounterIsOrdinal(s: System, p: Party, f: Fingerprint, n: nat)
    requires s.NoCollisions() && p in s.programs && n <= |s.programs[p]|
    requires exists q, e :: q in s.programs && e in s.programs[q] && e.Print() == f
    ensures Count(s.digest, s.programs[p][..n], KeyOf(s.digest, f)) == |Sizes(s.programs[p][..n], f)|
  {
    hide Call.Print, KeyOf, System.NoCollisions;
    var calls := s.programs[p];
    if n > 0 {
      CounterIsOrdinal(s, p, f, n - 1);
      assert calls[..n][..n - 1] == calls[..n - 1];
      SameKeySamePrint(s, p, calls[n - 1], f);
    }
  }

  lemma SameKeySamePrint(s: System, p: Party, c: Call, f: Fingerprint)
    requires s.NoCollisions() && p in s.programs && c in s.programs[p]
    requires exists q, e :: q in s.programs && e in s.programs[q] && e.Print() == f
    ensures KeyOf(s.digest, c.Print()) == KeyOf(s.digest, f) <==> c.Print() == f
  {
    hide Call.Print;
    var q, e :| q in s.programs && e in s.programs[q] && e.Print() == f;
    assert s.HashesApart(s.programs[p], s.programs[q]);
    assert s.PrintsApart(c.Print(), |s.programs[p]|, e.Print(), |s.programs[q]|);
  }

  /** An id is the prefix of the hash of what the members agree on, plus the number of the call among those under the
      same fingerprint, in the circle of the ids. */
  lemma {:induction false} IdIsPrefixPlusOrdinal(s: System, p: Party, n: nat)
    requires s.NoCollisions() && p in s.programs && n < |s.programs[p]|
    ensures var f := s.programs[p][n].Print();
            IdOf(s.digest, s.programs[p], n) == (s.digest.prefix(s.digest.hash(f)) + Ordinal(s.programs[p], n)) % ID_RANGE
    ensures 1 <= Ordinal(s.programs[p], n) <= |s.programs[p]|
  {
    hide Call.Print, KeyOf, System.NoCollisions;
    var f := s.programs[p][n].Print();
    assert s.programs[p][n] in s.programs[p];
    CounterIsOrdinal(s, p, f, n + 1);
    OrdinalHasSize(s.programs[p], n);
    SizesAtMost(s.programs[p], f);
  }

  lemma ApartStaysApart(a: nat, b: nat, i: nat, j: nat, m: nat, n: nat, range: Positive)
    requires n <= (a - b) % range <= range - m && 1 <= i <= m && 1 <= j <= n
    ensures (a + i) % range != (b + j) % range
  {
    var r := (a - b) % range;
    ModEqualIff(a + i, b + j, range);
    var q := (a - b) / range;
    assert a - b == q * range + r;
    ModAddMultiple(r + i - j, q, range);
    DivModUnique(r + i - j, range, 0, r + i - j);
  }

  /** Prefixes are far enough apart exactly when no two ids that are counted from them meet. */
  lemma {:induction false} PrintsApartIff(s: System, f: Fingerprint, m: nat, g: Fingerprint, n: nat)
    requires 1 <= m < ID_RANGE && 1 <= n < ID_RANGE
    ensures s.PrintsApart(f, m, g, n) <==> (f != g && f.kind == g.kind && f.datatypeCode == g.datatypeCode ==>
      forall i, j :: 1 <= i <= m && 1 <= j <= n ==> NumberedId(s.digest, f, i) != NumberedId(s.digest, g, j))
  {
    var a, b := s.digest.prefix(s.digest.hash(f)), s.digest.prefix(s.digest.hash(g));
    if n <= (a - b) % ID_RANGE <= ID_RANGE - m {
      forall i, j | 1 <= i <= m && 1 <= j <= n ensures NumberedId(s.digest, f, i) != NumberedId(s.digest, g, j) {
        ApartStaysApart(a, b, i, j, m, n, ID_RANGE);
      }
    } else {
      var i, j := CloseMeet(a, b, m, n, ID_RANGE);
      assert NumberedId(s.digest, f, i) == NumberedId(s.digest, g, j);
    }
  }

  lemma CloseMeet(a: nat, b: nat, m: nat, n: nat, range: Positive) returns (i: nat, j: nat)
    requires m >= 1 && n >= 1 && !(n <= (a - b) % range <= range - m)
    ensures 1 <= i <= m && 1 <= j <= n && (a + i) % range == (b + j) % range
  {
    var q, r := (a - b) / range, (a - b) % range;
    assert a - b == q * range + r;
    if r < n {
      i, j := 1, 1 + r;
      ModAddMultiple(b + j, q, range);
    } else {
      i, j := 1 + range - r, 1;
      assert a + i == b + j + (q + 1) * range;
      ModAddMultiple(b + j, q + 1, range);
    }
  }

  /** Ids under different fingerprints of one kind and datatype differ. */
  lemma {:induction false} SameIdSamePrint(s: System, p: Party, m: nat, q: Party, n: nat)
    requires s.NoCollisions() && p in s.programs && q in s.programs && m < |s.programs[p]| && n < |s.programs[q]|
    requires s.programs[p][m].Kind() == s.programs[q][n].Kind() && s.programs[p][m].datatypeCode == s.programs[q][n].datatypeCode
    requires IdOf(s.digest, s.programs[p], m) == IdOf(s.digest, s.programs[q], n)
    ensures s.programs[p][m].Print() == s.programs[q][n].Print()
  {
    hide IdOf, Ordinal;
    var c, e := s.programs[p][m], s.programs[q][n];
    var f, g := c.Print(), e.Print();
    assert c in s.programs[p] && e in s.programs[q];
    assert s.HashesApart(s.programs[p], s.programs[q]);
    assert s.PrintsApart(f, |s.programs[p]|, g, |s.programs[q]|);
    IdIsPrefixPlusOrdinal(s, p, m);
    IdIsPrefixPlusOrdinal(s, q, n);
    if f != g {
      ApartStaysApart(s.digest.prefix(s.digest.hash(f)), s.digest.prefix(s.digest.hash(g)),
                      Ordinal(s.programs[p], m), Ordinal(s.programs[q], n), |s.programs[p]|, |s.programs[q]|, ID_RANGE);
    }
  }

  /** The ids of two parties for the same call are equal, whatever else either of them does. */
  lemma {:induction false} SameId(s: System, p: Party, m: nat, q: Party, n: nat)
    requires s.NoCollisions() && p in s.programs && q in s.programs && m < |s.programs[p]| && n < |s.programs[q]|
    requires s.programs[p][m].Print() == s.programs[q][n].Print()
    requires Ordinal(s.programs[p], m) == Ordinal(s.programs[q], n)
    ensures IdOf(s.digest, s.programs[p], m) == IdOf(s.digest, s.programs[q], n)
  {
    hide Call.Print, IdOf, Ordinal, System.NoCollisions;
    IdIsPrefixPlusOrdinal(s, p, m);
    IdIsPrefixPlusOrdinal(s, q, n);
  }

  /** For every call of a party, every other member has the corresponding call. */
  lemma {:induction false} Counterpart(s: System, p: Party, m: nat, q: Party) returns (n: nat)
    requires s.Valid() && p in s.programs && m < |s.programs[p]| && q in s.programs[p][m].Receivers()
    ensures q in s.programs && n < |s.programs[q]|
    ensures Corresponds(s, p, m, q, n)
  {
    hide Call.Valid, Call.Print, Ordinal, Sizes, IdOf, System.NoCollisions;
    var c := s.programs[p][m];
    var f := c.Print();
    assert c in s.programs[p];
    PrintReceivers(c, p);
    OrdinalHasSize(s.programs[p], m);
    assert Sizes(s.programs[p], f) == Sizes(s.programs[q], f);
    n := CallWithOrdinal(s.programs[q], f, Ordinal(s.programs[p], m));
    OrdinalHasSize(s.programs[q], n);
    SameId(s, p, m, q, n);
  }

  lemma PrintReceivers(c: Call, p: Party)
    requires c.Valid(p)
    ensures c.Print().receivers == c.Receivers() && p in c.Receivers()
  {
  }

  /** The two calls are the same collective. */
  ghost predicate Corresponds(s: System, p: Party, m: nat, q: Party, n: nat) {
    && p in s.programs && q in s.programs && m < |s.programs[p]| && n < |s.programs[q]|
    && s.programs[p][m].Print() == s.programs[q][n].Print()
    && s.programs[p][m].size == s.programs[q][n].size
    && IdOf(s.digest, s.programs[p], m) == IdOf(s.digest, s.programs[q], n)
  }

  /** What p sends to q in a call is what q waits for from p in its call. */
  lemma SendMeetsReceive(c: Call, p: Party, e: Call, q: Party)
    requires c.Valid(p) && e.Valid(q) && c.Print() == e.Print()
    ensures q in c.Receivers() && (c.SendPlace(p, q).Some? <==> p in e.Senders() && e.ReceivePlace(q, p).Some?)
  {
  }

  // Tasks and the calls they come from

  /** A task that sends to q in call m. */
  ghost predicate SendOf(d: Digest, p: Party, calls: seq<Call>, t: Task, m: nat, q: Party)
    requires forall c :: c in calls ==> c.Valid(p)
  {
    && m < |calls|
    && var c := calls[m];
       assert c in calls;
       q in c.Receivers() && c.SendPlace(p, q) == Some(t.place) && t.message == c.ToMessage(p, q, IdOf(d, calls, m))
  }

  ghost predicate ReceiveOf(d: Digest, p: Party, calls: seq<Call>, t: Task, m: nat, q: Party)
    requires forall c :: c in calls ==> c.Valid(p)
  {
    && m < |calls|
    && var c := calls[m];
       assert c in calls;
       q in c.Senders() && c.ReceivePlace(p, q) == Some(t.place) && t.message == c.ToMessage(q, p, IdOf(d, calls, m))
  }

  lemma {:induction false} SendTaskIn(c: Call, p: Party, id: nat, n: nat, t: Task) returns (i: nat)
    requires c.Valid(p) && n <= |c.Receivers()| && t in SendTasks(c, p, id, n)
    ensures i < n && t in SendTask(c, p, id, c.Receivers()[i])
  {
    hide SendTask, Call.Valid;
    if t in SendTask(c, p, id, c.Receivers()[n - 1]) {
      i := n - 1;
    } else {
      i := SendTaskIn(c, p, id, n - 1, t);
    }
  }

  lemma {:induction false} ReceiveTaskIn(c: Call, p: Party, id: nat, n: nat, t: Task) returns (i: nat)
    requires c.Valid(p) && n <= |c.Senders()| && t in ReceiveTasks(c, p, id, n)
    ensures i < n && t in ReceiveTask(c, p, id, c.Senders()[i])
  {
    hide ReceiveTask, Call.Valid;
    if t in ReceiveTask(c, p, id, c.Senders()[n - 1]) {
      i := n - 1;
    } else {
      i := ReceiveTaskIn(c, p, id, n - 1, t);
    }
  }

  lemma {:induction false} SendTaskThere(c: Call, p: Party, id: nat, n: nat, i: nat)
    requires c.Valid(p) && i < n <= |c.Receivers()|
    ensures forall t :: t in SendTask(c, p, id, c.Receivers()[i]) ==> t in SendTasks(c, p, id, n)
  {
    hide SendTask, Call.Valid;
    if i < n - 1 {
      SendTaskThere(c, p, id, n - 1, i);
    }
  }

  lemma {:induction false} ReceiveTaskThere(c: Call, p: Party, id: nat, n: nat, i: nat)
    requires c.Valid(p) && i < n <= |c.Senders()|
    ensures forall t :: t in ReceiveTask(c, p, id, c.Senders()[i]) ==> t in ReceiveTasks(c, p, id, n)
  {
    hide ReceiveTask, Call.Valid;
    if i < n - 1 {
      ReceiveTaskThere(c, p, id, n - 1, i);
    }
  }

  lemma IdOfPrefix(d: Digest, calls: seq<Call>, k: nat, m: nat)
    requires m < k <= |calls|
    ensures IdOf(d, calls[..k], m) == IdOf(d, calls, m)
  {
    assert calls[..k][..m + 1] == calls[..m + 1];
  }

  /** The sends of a party are those of its calls. */
  lemma {:induction false} SendComesFrom(d: Digest, p: Party, calls: seq<Call>, t: Task) returns (m: nat, q: Party)
    requires (forall c :: c in calls ==> c.Valid(p)) && t in AllSends(d, p, calls)
    ensures SendOf(d, p, calls, t, m, q)
  {
    hide SendTasks, IdOf, Call.Valid, Call.SendPlace;
    var last := |calls| - 1;
    var c, id := calls[last], IdOf(d, calls, last);
    if t in SendTasks(c, p, id, |c.Receivers()|) {
      var i := SendTaskIn(c, p, id, |c.Receivers()|, t);
      m, q := last, c.Receivers()[i];
    } else {
      m, q := SendComesFrom(d, p, calls[..last], t);
      IdOfPrefix(d, calls, last, m);
    }
  }

  lemma {:induction false} ReceiveComesFrom(d: Digest, p: Party, calls: seq<Call>, t: Task) returns (m: nat, q: Party)
    requires (forall c :: c in calls ==> c.Valid(p)) && t in AllReceives(d, p, calls)
    ensures ReceiveOf(d, p, calls, t, m, q)
  {
    hide ReceiveTasks, IdOf, Call.Valid, Call.ReceivePlace;
    var last := |calls| - 1;
    var c, id := calls[last], IdOf(d, calls, last);
    if t in ReceiveTasks(c, p, id, |c.Senders()|) {
      var i := ReceiveTaskIn(c, p, id, |c.Senders()|, t);
      m, q := last, c.Senders()[i];
    } else {
      m, q := ReceiveComesFrom(d, p, calls[..last], t);
      IdOfPrefix(d, calls, last, m);
    }
  }

  lemma {:induction false} SendIsThere(d: Digest, p: Party, calls: seq<Call>, t: Task, m: nat, q: Party)
    requires (forall c :: c in calls ==> c.Valid(p)) && SendOf(d, p, calls, t, m, q)
    ensures t in AllSends(d, p, calls)
  {
    hide SendTasks, IdOf, Call.Valid, Call.SendPlace;
    var last := |calls| - 1;
    if m == last {
      var c, id := calls[m], IdOf(d, calls, m);
      var i :| 0 <= i < |c.Receivers()| && c.Receivers()[i] == q;
      SendTaskThere(c, p, id, |c.Receivers()|, i);
      assert t in SendTask(c, p, id, q);
    } else {
      IdOfPrefix(d, calls, last, m);
      SendIsThere(d, p, calls[..last], t, m, q);
    }
  }

  lemma {:induction false} ReceiveIsThere(d: Digest, p: Party, calls: seq<Call>, t: Task, m: nat, q: Party)
    requires (forall c :: c in calls ==> c.Valid(p)) && ReceiveOf(d, p, calls, t, m, q)
    ensures t in AllReceives(d, p, calls)
  {
    hide ReceiveTasks, IdOf, Call.Valid, Call.ReceivePlace;
    var last := |calls| - 1;
    if m == last {
      var c, id := calls[m], IdOf(d, calls, m);
      var i :| 0 <= i < |c.Senders()| && c.Senders()[i] == q;
      ReceiveTaskThere(c, p, id, |c.Senders()|, i);
      assert t in ReceiveTask(c, p, id, q);
    } else {
      IdOfPrefix(d, calls, last, m);
      ReceiveIsThere(d, p, calls[..last], t, m, q);
    }
  }

  // One to one

  /** Every message that p sends to q is asked for by q. */
  lemma {:induction false} EverySendIsAwaited(s: System, p: Party, t: Task) returns (q: Party, r: Task)
    requires s.Valid() && p in s.programs && t in s.Sends(p)
    ensures t.message.sender == p && t.message.receiver == q && p != q
    ensures q in s.programs && r in s.Receives(q) && r.message == t.message
  {
    hide AllSends, AllReceives, IdOf, Call.Valid, Sizes;
    var m: nat;
    m, q := SendComesFrom(s.digest, p, s.programs[p], t);
    var n := Counterpart(s, p, m, q);
    var c, e := s.programs[p][m], s.programs[q][n];
    assert c in s.programs[p] && e in s.programs[q];
    SendMeetsReceive(c, p, e, q);
    r := Task(t.message, e.ReceivePlace(q, p).value);
    SameMessage(c, e, p, q, IdOf(s.digest, s.programs[p], m));
    ReceiveIsThere(s.digest, q, s.programs[q], r, n, p);
  }

  lemma SameMessage(c: Call, e: Call, p: Party, q: Party, id: nat)
    requires c.Print() == e.Print() && c.size == e.size
    ensures c.ToMessage(p, q, id) == e.ToMessage(p, q, id)
  {
  }

  /** Every message that q waits for is sent. */
  lemma {:induction false} EveryReceiveIsServed(s: System, q: Party, r: Task) returns (p: Party, t: Task)
    requires s.Valid() && q in s.programs && r in s.Receives(q)
    ensures r.message.receiver == q && r.message.sender == p && p != q
    ensures p in s.programs && t in s.Sends(p) && t.message == r.message
  {
    hide AllSends, AllReceives, IdOf, Call.Valid, Sizes;
    var n: nat;
    n, p := ReceiveComesFrom(s.digest, q, s.programs[q], r);
    var e := s.programs[q][n];
    assert e in s.programs[q];
    SendersReceive(e, q, p);
    var m := Counterpart(s, q, n, p);
    var c := s.programs[p][m];
    assert c in s.programs[p];
    SendMeetsReceive(c, p, e, q);
    t := Task(r.message, c.SendPlace(p, q).value);
    SameMessage(c, e, p, q, IdOf(s.digest, s.programs[p], m));
    SendIsThere(s.digest, p, s.programs[p], t, m, q);
  }

  lemma SendersReceive(e: Call, q: Party, p: Party)
    requires e.Valid(q) && p in e.Senders()
    ensures p in e.Receivers()
  {
  }

  /** No message is sent twice, and none is waited for twice. */
  ghost predicate Distinct(ts: seq<Task>) {
    forall i, j :: 0 <= i < j < |ts| ==> ts[i].message != ts[j].message
  }

  lemma DistinctConcat(a: seq<Task>, b: seq<Task>)
    requires Distinct(a) && Distinct(b)
    requires forall t, u :: t in a && u in b ==> t.message != u.message
    ensures Distinct(a + b)
  {
    var ts := a + b;
    forall i, j | 0 <= i < j < |ts| ensures ts[i].message != ts[j].message {
      if i < |a| <= j {
        assert ts[i] in a && ts[j] in b;
      }
    }
  }

  lemma SendTaskPeer(c: Call, p: Party, id: nat, q: Party)
    requires c.Valid(p) && q in c.Receivers()
    ensures |SendTask(c, p, id, q)| <= 1 && forall t :: t in SendTask(c, p, id, q) ==> t.message.receiver == q
  {
  }

  lemma ReceiveTaskPeer(c: Call, p: Party, id: nat, q: Party)
    requires c.Valid(p) && q in c.Senders()
    ensures |ReceiveTask(c, p, id, q)| <= 1 && forall t :: t in ReceiveTask(c, p, id, q) ==> t.message.sender == q
  {
  }

  lemma OrderedParties(c: Call, p: Party)
    requires c.Valid(p)
    ensures Ordered(c.Senders()) && Ordered(c.Receivers())
  {
  }

  lemma {:induction false} SendTasksDistinct(c: Call, p: Party, id: nat, n: nat)
    requires c.Valid(p) && n <= |c.Receivers()|
    ensures Distinct(SendTasks(c, p, id, n))
  {
    hide SendTask, Call.Valid, Call.Receivers;
    OrderedParties(c, p);
    if n > 0 {
      SendTasksDistinct(c, p, id, n - 1);
      var q := c.Receivers()[n - 1];
      SendTaskPeer(c, p, id, q);
      forall t, u | t in SendTasks(c, p, id, n - 1) && u in SendTask(c, p, id, q) ensures t.message != u.message {
        var i := SendTaskIn(c, p, id, n - 1, t);
        SendTaskPeer(c, p, id, c.Receivers()[i]);
      }
      DistinctConcat(SendTasks(c, p, id, n - 1), SendTask(c, p, id, q));
    }
  }

  lemma {:induction false} ReceiveTasksDistinct(c: Call, p: Party, id: nat, n: nat)
    requires c.Valid(p) && n <= |c.Senders()|
    ensures Distinct(ReceiveTasks(c, p, id, n))
  {
    hide ReceiveTask, Call.Valid, Call.Senders;
    OrderedParties(c, p);
    if n > 0 {
      ReceiveTasksDistinct(c, p, id, n - 1);
      var q := c.Senders()[n - 1];
      ReceiveTaskPeer(c, p, id, q);
      forall t, u | t in ReceiveTasks(c, p, id, n - 1) && u in ReceiveTask(c, p, id, q) ensures t.message != u.message {
        var i := ReceiveTaskIn(c, p, id, n - 1, t);
        ReceiveTaskPeer(c, p, id, c.Senders()[i]);
      }
      DistinctConcat(ReceiveTasks(c, p, id, n - 1), ReceiveTask(c, p, id, q));
    }
  }

  lemma CancelPrefix(a: nat, k: nat, l: nat, m: Positive)
    requires k < m && l < m && (a + k) % m == (a + l) % m
    ensures k == l
  {
    ModEqualIff(a + l, a + k, m);
    if k <= l {
      DivModUnique(l - k, m, 0, l - k);
    } else {
      DivModUnique(l - k, m, -1, m + l - k);
    }
  }

  lemma {:induction false} SizesAtMost(calls: seq<Call>, f: Fingerprint)
    ensures |Sizes(calls, f)| <= |calls|
  {
    if calls != [] {
      SizesAtMost(calls[..|calls| - 1], f);
    }
  }

  /** The ids under one counter differ: calls under one fingerprint with the same id have the same number. */
  lemma {:induction false} SameIdSameOrdinal(s: System, p: Party, m: nat, q: Party, n: nat)
    requires s.NoCollisions() && s.Bounded()
    requires p in s.programs && q in s.programs && m < |s.programs[p]| && n < |s.programs[q]|
    requires s.programs[p][m].Print() == s.programs[q][n].Print()
    requires IdOf(s.digest, s.programs[p], m) == IdOf(s.digest, s.programs[q], n)
    ensures Ordinal(s.programs[p], m) == Ordinal(s.programs[q], n)
  {
    hide Call.Print, IdOf, Ordinal, System.NoCollisions;
    var f := s.programs[p][m].Print();
    IdIsPrefixPlusOrdinal(s, p, m);
    IdIsPrefixPlusOrdinal(s, q, n);
    CancelPrefix(s.digest.prefix(s.digest.hash(f)), Ordinal(s.programs[p], m), Ordinal(s.programs[q], n), ID_RANGE);
  }

  // Messages with one label and id belong to one call.
  lemma {:induction false} OneCall(s: System, p: Party, m: nat, n: nat)
    requires s.NoCollisions() && s.Bounded() && p in s.programs && m < |s.programs[p]| && n < |s.programs[p]|
    requires s.SameLabel(s.programs[p][m], IdOf(s.digest, s.programs[p], m), s.programs[p][n], IdOf(s.digest, s.programs[p], n))
    ensures m == n
  {
    hide Call.Print, IdOf, Ordinal;
    SameIdSamePrint(s, p, m, p, n);
    SameIdSameOrdinal(s, p, m, p, n);
    SameOrdinalSameCall(s.programs[p], m, n);
  }

  lemma {:induction false} SendsDistinct(s: System, p: Party, k: nat)
    requires s.Valid() && p in s.programs && k <= |s.programs[p]|
    ensures forall c :: c in s.programs[p][..k] ==> c.Valid(p)
    ensures Distinct(AllSends(s.digest, p, s.programs[p][..k]))
  {
    hide SendTasks, IdOf, Call.Valid, Call.SendPlace, Distinct, System.NoCollisions, Sizes, Call.Print;
    var calls := s.programs[p];
    if k > 0 {
      SendsDistinct(s, p, k - 1);
      var c, id := calls[k - 1], IdOf(s.digest, calls, k - 1);
      assert c in calls;
      IdOfPrefix(s.digest, calls, k, k - 1);
      assert calls[..k][..k - 1] == calls[..k - 1];
      forall t, u | t in AllSends(s.digest, p, calls[..k - 1]) && u in SendTasks(c, p, id, |c.Receivers()|)
        ensures t.message != u.message
      {
        var m, q := SendComesFrom(s.digest, p, calls[..k - 1], t);
        IdOfPrefix(s.digest, calls, k - 1, m);
        var i := SendTaskIn(c, p, id, |c.Receivers()|, u);
        if t.message == u.message {
          OneCall(s, p, m, k - 1);
        }
      }
      SendTasksDistinct(c, p, id, |c.Receivers()|);
      DistinctConcat(AllSends(s.digest, p, calls[..k - 1]), SendTasks(c, p, id, |c.Receivers()|));
    } else {
      assert Distinct([]) by { NothingDistinct(); }
    }
  }

  lemma NothingDistinct()
    ensures Distinct([])
  {
  }

  lemma {:induction false} ReceivesDistinct(s: System, p: Party, k: nat)
    requires s.Valid() && p in s.programs && k <= |s.programs[p]|
    ensures forall c :: c in s.programs[p][..k] ==> c.Valid(p)
    ensures Distinct(AllReceives(s.digest, p, s.programs[p][..k]))
  {
    hide ReceiveTasks, IdOf, Call.Valid, Call.ReceivePlace, Distinct, System.NoCollisions, Sizes, Call.Print;
    var calls := s.programs[p];
    if k > 0 {
      ReceivesDistinct(s, p, k - 1);
      var c, id := calls[k - 1], IdOf(s.digest, calls, k - 1);
      assert c in calls;
      IdOfPrefix(s.digest, calls, k, k - 1);
      assert calls[..k][..k - 1] == calls[..k - 1];
      forall t, u | t in AllReceives(s.digest, p, calls[..k - 1]) && u in ReceiveTasks(c, p, id, |c.Senders()|)
        ensures t.message != u.message
      {
        var m, q := ReceiveComesFrom(s.digest, p, calls[..k - 1], t);
        IdOfPrefix(s.digest, calls, k - 1, m);
        var i := ReceiveTaskIn(c, p, id, |c.Senders()|, u);
        if t.message == u.message {
          OneCall(s, p, m, k - 1);
        }
      }
      ReceiveTasksDistinct(c, p, id, |c.Senders()|);
      DistinctConcat(AllReceives(s.digest, p, calls[..k - 1]), ReceiveTasks(c, p, id, |c.Senders()|));
    } else {
      assert Distinct([]) by { NothingDistinct(); }
    }
  }

  // What arrives where

  type Contents = (Party, Place) -> Buffers.Value

  /** Everything that q waits for was asked for, and everything that was sent to q came, each once, in any order. */
  ghost predicate Delivered(s: System, contents: Contents, q: Party, run: seq<Buffers.Command>)
    requires s.Lockstep() && q in s.programs
  {
    && Buffers.OnceEach(run)
    && (forall m, place :: Buffers.Asked(run, m, place) <==> Task(m, place) in s.Receives(q))
    && (forall p, m, place :: p in s.programs && Task(m, place) in s.Sends(p) && m.receiver == q
          ==> Buffers.Came(run, m, contents(p, place)))
  }

  /** The messages that serve the first k receives of q. */
  ghost predicate Served(s: System, contents: Contents, q: Party, k: nat, w: seq<Buffers.Command>)
    requires s.Lockstep() && q in s.programs && k <= |s.Receives(q)|
  {
    |w| == k && forall i :: 0 <= i < k ==> w[i].Received? && ServedBy(s, contents, s.Receives(q)[i].message, w[i])
  }

  ghost predicate ServedBy(s: System, contents: Contents, m: Message, c: Buffers.Command)
    requires s.Lockstep() && c.Received?
  {
    c.message == m && exists p, place :: p in s.programs && Task(m, place) in s.Sends(p) && c.value == contents(p, place)
  }

  lemma {:induction false} ServingMessages(s: System, contents: Contents, q: Party, k: nat) returns (w: seq<Buffers.Command>)
    requires s.Valid() && q in s.programs && k <= |s.Receives(q)|
    ensures Served(s, contents, q, k, w)
  {
    hide AllSends, AllReceives, System.NoCollisions;
    if k == 0 {
      w := [];
    } else {
      var before := ServingMessages(s, contents, q, k - 1);
      var r := s.Receives(q)[k - 1];
      assert r in s.Receives(q);
      var p, t := EveryReceiveIsServed(s, q, r);
      assert Task(r.message, t.place) == t;
      w := before + [Buffers.Received(r.message, contents(p, t.place))];
    }
  }

  /** The receives of a party can always be served: there is a run that delivers. */
  lemma {:induction false} DeliveryExists(s: System, contents: Contents, q: Party) returns (run: seq<Buffers.Command>)
    requires s.Valid() && q in s.programs
    ensures Delivered(s, contents, q, run)
  {
    hide AllSends, AllReceives, System.NoCollisions, System.Lockstep;
    var ts := s.Receives(q);
    assert s.programs[q][..|s.programs[q]|] == s.programs[q];
    ReceivesDistinct(s, q, |s.programs[q]|);
    var w := ServingMessages(s, contents, q, |ts|);
    var asked := seq(|ts|, i requires 0 <= i < |ts| => Buffers.Receive(ts[i].message, ts[i].place));
    run := asked + w;
    forall m, place ensures Buffers.Asked(run, m, place) <==> Task(m, place) in ts {
      if Task(m, place) in ts {
        var i :| 0 <= i < |ts| && ts[i] == Task(m, place);
        assert run[i] == Buffers.Receive(m, place);
      }
    }
    forall p, m, place | p in s.programs && Task(m, place) in s.Sends(p) && m.receiver == q
      ensures Buffers.Came(run, m, contents(p, place))
    {
      SentArrives(s, contents, q, w, p, Task(m, place));
    }
  }

  lemma {:induction false} SentArrives(s: System, contents: Contents, q: Party, w: seq<Buffers.Command>, p: Party, t: Task)
    requires s.Valid() && q in s.programs && p in s.programs && t in s.Sends(p) && t.message.receiver == q
    requires Served(s, contents, q, |s.Receives(q)|, w)
    ensures Buffers.Received(t.message, contents(p, t.place)) in w
  {
    hide AllSends, AllReceives, System.NoCollisions, System.Lockstep;
    var _, r := EverySendIsAwaited(s, p, t);
    var i :| 0 <= i < |w| && s.Receives(q)[i] == r;
    var o, place :| o in s.programs && Task(r.message, place) in s.Sends(o) && w[i].value == contents(o, place);
    var _, _ := EverySendIsAwaited(s, o, Task(r.message, place));
    assert s.programs[p][..|s.programs[p]|] == s.programs[p];
    SendsDistinct(s, p, |s.programs[p]|);
    assert w[i] in w;
  }

  /** The system in which the members of a communicator broadcast once and others do nothing. */
  function OneBroadcast(d: Digest, call: Rooted, communicator: seq<Party>, place: Place, others: set<Party>): System {
    System(d, map p | p in (set q | q in communicator) + others :: if p in communicator then [call.Broadcast(communicator, place)] else [])
  }

  /** The conditions on a system can be met, whatever the hashes and whoever else is there. */
  lemma OneBroadcastIsValid(d: Digest, call: Rooted, communicator: seq<Party>, place: Place, others: set<Party>)
    requires (forall i, j :: 0 <= i < j < |communicator| ==> communicator[i] < communicator[j]) && call.root in communicator
    ensures OneBroadcast(d, call, communicator, place, others).Valid()
  {
    var c := call.Broadcast(communicator, place);
    var s := OneBroadcast(d, call, communicator, place, others);
    forall p, e | p in s.programs && e in s.programs[p] ensures e == c && p in communicator {
    }
    forall f: Fingerprint, p | p in s.programs && p in f.receivers
      ensures Sizes(s.programs[p], f) == if f == c.Print() then [c.size] else []
    {
      assert [c][..0] == [];
      assert f == c.Print() ==> f.receivers == communicator;
    }
  }

  /** No two receives of a party write to one place. */
  ghost predicate DistinctPlaces(ts: seq<Task>) {
    forall i, j :: 0 <= i < j < |ts| ==> ts[i].place != ts[j].place
  }

  lemma PlacesDiffer(ts: seq<Task>)
    requires forall i, j :: 0 <= i < j < |ts| ==> ts[i].place != ts[j].place
    ensures DistinctPlaces(ts)
  {
  }

  lemma OnePlaceOneTask(ts: seq<Task>, t: Task, u: Task)
    requires DistinctPlaces(ts) && t in ts && u in ts && t.place == u.place
    ensures t == u
  {
  }

  /** What a place of q holds after the run. */
  function Holds(memory: Place -> Buffers.Value, run: seq<Buffers.Command>, place: Place): Buffers.Value {
    Buffers.MemoryAfter(memory, Buffers.AnswersOf(run), place)
  }

  /** Places that no receive writes to keep what they held. */
  lemma {:induction false} OthersKept(s: System, contents: Contents, q: Party, memory: Place -> Buffers.Value,
                                      run: seq<Buffers.Command>, place: Place)
    requires s.Valid() && q in s.programs && Delivered(s, contents, q, run)
    requires forall t :: t in s.Receives(q) ==> t.place != place
    ensures Holds(memory, run, place) == memory(place)
  {
    hide AllReceives, AllSends, Buffers.AnswersOf, System.Lockstep, System.NoCollisions;
    forall a | a in Buffers.AnswersOf(run) ensures a.waiter != place {
      Buffers.AnswersPair(run, a.message, a.waiter, a.value);
      assert Task(a.message, a.waiter) in s.Receives(q);
    }
    Buffers.NoAnswerKeeps(memory, Buffers.AnswersOf(run), place);
  }

  /** A place whose task is served holds what was sent. */
  lemma {:induction false} ServedPlaceHolds(s: System, contents: Contents, q: Party, memory: Place -> Buffers.Value,
                                            run: seq<Buffers.Command>, r: Task, value: Buffers.Value)
    requires s.Valid() && q in s.programs && Delivered(s, contents, q, run) && DistinctPlaces(s.Receives(q))
    requires r in s.Receives(q) && Buffers.Came(run, r.message, value)
    ensures Holds(memory, run, r.place) == value
  {
    hide AllReceives, AllSends, Buffers.AnswersOf, System.Lockstep, System.NoCollisions;
    Buffers.AnswersPair(run, r.message, r.place, value);
    forall a | a in Buffers.AnswersOf(run) && a.waiter == r.place ensures a.value == value {
      Buffers.AnswersPair(run, a.message, a.waiter, a.value);
      OnePlaceOneTask(s.Receives(q), Task(a.message, a.waiter), r);
      Buffers.CameOnce(run, r.message, a.value, value);
    }
    Buffers.SameAnswersHold(memory, Buffers.AnswersOf(run), r.place, value);
  }

  /** In corresponding calls, q's place for p ends up with the contents of p's place for q. */
  lemma {:induction false} ContentsArrive(s: System, contents: Contents, p: Party, m: nat, q: Party, n: nat,
                                          memory: Place -> Buffers.Value, run: seq<Buffers.Command>)
    requires s.Valid() && Corresponds(s, p, m, q, n)
    requires Delivered(s, contents, q, run) && DistinctPlaces(s.Receives(q))
    requires s.programs[p][m].Valid(p) && s.programs[q][n].Valid(q)
    requires var e := s.programs[q][n]; p in e.Senders() && e.ReceivePlace(q, p).Some?
    ensures q in s.programs[p][m].Receivers() && s.programs[p][m].SendPlace(p, q).Some?
    ensures Holds(memory, run, s.programs[q][n].ReceivePlace(q, p).value) == contents(p, s.programs[p][m].SendPlace(p, q).value)
  {
    hide AllSends, AllReceives, IdOf, Call.Valid, Sizes, Call.SendPlace, Call.ReceivePlace, Holds, System.NoCollisions, DistinctPlaces;
    var c, e := s.programs[p][m], s.programs[q][n];
    SendMeetsReceive(c, p, e, q);
    var id := IdOf(s.digest, s.programs[p], m);
    SameMessage(c, e, p, q, id);
    var t, r := Task(c.ToMessage(p, q, id), c.SendPlace(p, q).value), Task(e.ToMessage(p, q, id), e.ReceivePlace(q, p).value);
    SendIsThere(s.digest, p, s.programs[p], t, m, q);
    ReceiveIsThere(s.digest, q, s.programs[q], r, n, p);
    ServedPlaceHolds(s, contents, q, memory, run, r, contents(p, t.place));
  }

  /** What the collectives promise: what the places of a member q hold afterwards, about what comes from a member p. */
  lemma {:induction false} CollectiveOutcome(s: System, contents: Contents, p: Party, m: nat, q: Party, n: nat,
                                             memory: Place -> Buffers.Value, run: seq<Buffers.Command>)
    requires s.Valid() && Corresponds(s, p, m, q, n) && p != q
    requires Delivered(s, contents, q, run)
    requires forall i, j :: 0 <= i < j < |s.Receives(q)| ==> s.Receives(q)[i].place != s.Receives(q)[j].place
    ensures var c, e := s.programs[p][m], s.programs[q][n];
            match e
            case Broadcast(_, root, _, _, place) =>
              c.Broadcast? && (p == root ==> Holds(memory, run, place) == contents(p, c.place))
            case Gather(_, root, _, communicator, places) =>
              c.Gather? && (q == root ==>
                p in communicator && |places| == |communicator| && |c.places| == 1
                && Holds(memory, run, places[Rank(communicator, p)]) == contents(p, c.places[0]))
            case AllGather(_, _, senders, _, places) =>
              c.AllGather? && (p in senders ==>
                |places| == |senders| == |c.places|
                && Holds(memory, run, places[Rank(senders, p)]) == contents(p, c.places[Rank(senders, p)]))
            case AllToAll(_, _, communicator, _, receivePlaces) =>
              c.AllToAll? && p in communicator && q in communicator
              && |receivePlaces| == |communicator| == |c.sendPlaces|
              && Holds(memory, run, receivePlaces[Rank(communicator, p)]) == contents(p, c.sendPlaces[Rank(communicator, q)])
  {
    hide AllSends, AllReceives, IdOf, Sizes, Holds, Delivered, DistinctPlaces, System.NoCollisions, Rank;
    var c, e := s.programs[p][m], s.programs[q][n];
    assert c in s.programs[p] && e in s.programs[q];
    assert DistinctPlaces(s.Receives(q)) by { PlacesDiffer(s.Receives(q)); }
    if p in e.Senders() && e.ReceivePlace(q, p).Some? {
      ContentsArrive(s, contents, p, m, q, n, memory, run);
    }
  }

  // Requests to check

  /** The key of a check. */
  function KeyOfCheck(r: CheckRequest): Consistency.Key {
    Consistency.Key(r.kind, r.datatypeCode, r.sender, r.id)
  }

  /** A request of call m to check what came from q. */
  ghost predicate CheckOf(d: Digest, p: Party, calls: seq<Call>, r: CheckRequest, m: nat, q: Party)
    requires forall c :: c in calls ==> c.Valid(p)
  {
    && m < |calls|
    && var c := calls[m];
       assert c in calls;
       q in c.Senders() && (c.Broadcast? || c.AllGather?) && c.ReceivePlace(p, q).Some?
       && r == CheckRequest(c.Kind(), c.datatypeCode, q, IdOf(d, calls, m), Others(c.Receivers(), p, q))
  }

  lemma {:induction false} CheckTaskIn(c: Call, p: Party, id: nat, n: nat, r: CheckRequest) returns (i: nat)
    requires c.Valid(p) && n <= |c.Senders()| && r in CheckTasks(c, p, id, n)
    ensures i < n && r in CheckTask(c, p, id, c.Senders()[i])
  {
    hide CheckTask, Call.Valid;
    if r in CheckTask(c, p, id, c.Senders()[n - 1]) {
      i := n - 1;
    } else {
      i := CheckTaskIn(c, p, id, n - 1, r);
    }
  }

  lemma {:induction false} CheckTaskThere(c: Call, p: Party, id: nat, n: nat, i: nat)
    requires c.Valid(p) && i < n <= |c.Senders()|
    ensures forall r :: r in CheckTask(c, p, id, c.Senders()[i]) ==> r in CheckTasks(c, p, id, n)
  {
    hide CheckTask, Call.Valid;
    if i < n - 1 {
      CheckTaskThere(c, p, id, n - 1, i);
    }
  }

  lemma {:induction false} CheckComesFrom(d: Digest, p: Party, calls: seq<Call>, r: CheckRequest) returns (m: nat, q: Party)
    requires (forall c :: c in calls ==> c.Valid(p)) && r in AllChecks(d, p, calls)
    ensures CheckOf(d, p, calls, r, m, q)
  {
    hide CheckTasks, IdOf, Call.Valid, Call.ReceivePlace, Others;
    var last := |calls| - 1;
    var c, id := calls[last], IdOf(d, calls, last);
    if r in CheckTasks(c, p, id, |c.Senders()|) {
      var i := CheckTaskIn(c, p, id, |c.Senders()|, r);
      m, q := last, c.Senders()[i];
    } else {
      m, q := CheckComesFrom(d, p, calls[..last], r);
      IdOfPrefix(d, calls, last, m);
    }
  }

  lemma {:induction false} CheckIsThere(d: Digest, p: Party, calls: seq<Call>, r: CheckRequest, m: nat, q: Party)
    requires (forall c :: c in calls ==> c.Valid(p)) && CheckOf(d, p, calls, r, m, q)
    ensures r in AllChecks(d, p, calls)
  {
    hide CheckTasks, IdOf, Call.Valid, Call.ReceivePlace, Others;
    var last := |calls| - 1;
    if m == last {
      var c, id := calls[m], IdOf(d, calls, m);
      var i :| 0 <= i < |c.Senders()| && c.Senders()[i] == q;
      CheckTaskThere(c, p, id, |c.Senders()|, i);
      assert r in CheckTask(c, p, id, q);
    } else {
      IdOfPrefix(d, calls, last, m);
      CheckIsThere(d, p, calls[..last], r, m, q);
    }
  }

  ghost predicate DistinctChecks(rs: seq<CheckRequest>) {
    forall i, j :: 0 <= i < j < |rs| ==> KeyOfCheck(rs[i]) != KeyOfCheck(rs[j])
  }

  lemma DistinctChecksConcat(a: seq<CheckRequest>, b: seq<CheckRequest>)
    requires DistinctChecks(a) && DistinctChecks(b)
    requires forall r, t :: r in a && t in b ==> KeyOfCheck(r) != KeyOfCheck(t)
    ensures DistinctChecks(a + b)
  {
    var rs := a + b;
    forall i, j | 0 <= i < j < |rs| ensures KeyOfCheck(rs[i]) != KeyOfCheck(rs[j]) {
      if i < |a| <= j {
        assert rs[i] in a && rs[j] in b;
      }
    }
  }

  lemma CheckTaskPeer(c: Call, p: Party, id: nat, q: Party)
    requires c.Valid(p) && q in c.Senders()
    ensures |CheckTask(c, p, id, q)| <= 1 && forall r :: r in CheckTask(c, p, id, q) ==> r.sender == q
  {
  }

  lemma {:induction false} CheckTasksDistinct(c: Call, p: Party, id: nat, n: nat)
    requires c.Valid(p) && n <= |c.Senders()|
    ensures DistinctChecks(CheckTasks(c, p, id, n))
  {
    hide CheckTask, Call.Valid, Call.Senders;
    OrderedParties(c, p);
    if n > 0 {
      CheckTasksDistinct(c, p, id, n - 1);
      var q := c.Senders()[n - 1];
      CheckTaskPeer(c, p, id, q);
      forall r, t | r in CheckTasks(c, p, id, n - 1) && t in CheckTask(c, p, id, q) ensures KeyOfCheck(r) != KeyOfCheck(t) {
        var i := CheckTaskIn(c, p, id, n - 1, r);
        CheckTaskPeer(c, p, id, c.Senders()[i]);
      }
      DistinctChecksConcat(CheckTasks(c, p, id, n - 1), CheckTask(c, p, id, q));
    }
  }

  /** A party asks for the check of a key once. */
  lemma {:induction false} ChecksDistinct(s: System, p: Party, k: nat)
    requires s.Valid() && p in s.programs && k <= |s.programs[p]|
    ensures forall c :: c in s.programs[p][..k] ==> c.Valid(p)
    ensures DistinctChecks(AllChecks(s.digest, p, s.programs[p][..k]))
  {
    hide CheckTasks, IdOf, Call.Valid, Call.ReceivePlace, DistinctChecks, System.NoCollisions, Sizes, Call.Print, Others;
    var calls := s.programs[p];
    if k > 0 {
      ChecksDistinct(s, p, k - 1);
      var c, id := calls[k - 1], IdOf(s.digest, calls, k - 1);
      assert c in calls;
      IdOfPrefix(s.digest, calls, k, k - 1);
      assert calls[..k][..k - 1] == calls[..k - 1];
      forall r, t | r in AllChecks(s.digest, p, calls[..k - 1]) && t in CheckTasks(c, p, id, |c.Senders()|)
        ensures KeyOfCheck(r) != KeyOfCheck(t)
      {
        var m, q := CheckComesFrom(s.digest, p, calls[..k - 1], r);
        IdOfPrefix(s.digest, calls, k - 1, m);
        var i := CheckTaskIn(c, p, id, |c.Senders()|, t);
        if KeyOfCheck(r) == KeyOfCheck(t) {
          OneCall(s, p, m, k - 1);
        }
      }
      CheckTasksDistinct(c, p, id, |c.Senders()|);
      DistinctChecksConcat(AllChecks(s.digest, p, calls[..k - 1]), CheckTasks(c, p, id, |c.Senders()|));
    } else {
      assert DistinctChecks([]) by { NothingToCheck(); }
    }
  }

  lemma NothingToCheck()
    ensures DistinctChecks([])
  {
  }

  /** Whoever p asks to check something with asks p to check the same: the requests are mutual, for one key, and
      the sender takes no part. */
  lemma {:induction false} ChecksMutual(s: System, p: Party, r: CheckRequest, q: Party) returns (t: CheckRequest)
    requires s.Valid() && p in s.programs && r in AllChecks(s.digest, p, s.programs[p]) && q in r.receivers
    ensures q in s.programs && p != q && q != r.sender
    ensures t in AllChecks(s.digest, q, s.programs[q]) && KeyOfCheck(t) == KeyOfCheck(r) && p in t.receivers
  {
    hide AllChecks, IdOf, Call.Valid, Sizes, Call.ReceivePlace, System.NoCollisions;
    var m, o := CheckComesFrom(s.digest, p, s.programs[p], r);
    var n := Counterpart(s, p, m, q);
    var c, e := s.programs[p][m], s.programs[q][n];
    assert c in s.programs[p] && e in s.programs[q];
    CheckedByAll(c, p, e, q, o);
    t := CheckRequest(e.Kind(), e.datatypeCode, o, IdOf(s.digest, s.programs[q], n), Others(e.Receivers(), q, o));
    CheckIsThere(s.digest, q, s.programs[q], t, n, o);
  }

  lemma CheckedByAll(c: Call, p: Party, e: Call, q: Party, o: Party)
    requires c.Valid(p) && e.Valid(q) && c.Print() == e.Print()
    requires o in c.Senders() && (c.Broadcast? || c.AllGather?) && c.ReceivePlace(p, o).Some?
    requires q in Others(c.Receivers(), p, o)
    ensures o in e.Senders() && (e.Broadcast? || e.AllGather?) && e.ReceivePlace(q, o).Some?
    ensures e.Kind() == c.Kind() && e.datatypeCode == c.datatypeCode && p in Others(e.Receivers(), q, o)
  {
  }

  /** What a member receives is checked under the key that it asks to check, and it asks exactly for what it receives in
      the kinds that are checked. */
  lemma ReceiveIsChecked(c: Call, p: Party, id: nat, q: Party, t: Task)
    requires c.Valid(p) && q in c.Senders() && t in ReceiveTask(c, p, id, q)
    ensures CheckTask(c, p, id, q) != [] <==> t.message.kind.Broadcast? || t.message.kind.AllGather?
    ensures forall r :: r in CheckTask(c, p, id, q) ==>
      KeyOfCheck(r) == Consistency.Key(t.message.kind, t.message.datatypeCode, t.message.sender, t.message.id)
    ensures forall r, o :: r in CheckTask(c, p, id, q) ==> (o in r.receivers <==> o in c.Receivers() && o != p && o != q)
    ensures t.message == Message(c.Kind(), c.datatypeCode, q, p, id, c.size)
  {
  }
}
