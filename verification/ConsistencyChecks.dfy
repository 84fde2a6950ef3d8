/** One consistency check of a party: the data it received itself, the checks it has from the other receivers,
    and whether the party has asked for the check yet. */
module ConsistencyChecks {
  import opened Wrappers
  import opened MessageKinds

  type Party = nat

  /** Hashes and signatures are abstract. */
  type Hash(==, !new)
  type Signature(==, !new)

  datatype Data = Data(hash: Hash, signature: Signature)

  datatype Key = Key(kind: MessageKind, datatypeCode: nat, sender: Party, id: nat)

  datatype Error =
    | MultipleRequests
    | MultipleChecks
    | MultipleMessages
    | UnknownCheck
    | UnknownSender
    | InconsistentSignatureVerification
    | InconsistentCollectiveCommunication

  /** Which parties have a verification key, and whether a signature by the sender of a message verifies for
      the message as sent to a receiver. */
  datatype Verification = Verification(known: set<Party>, verifies: (Key, Party, Data) -> bool)

  function CheckSignature(v: Verification, key: Key, receiver: Party, check: Data): Option<Error> {
    if key.sender !in v.known then Some(UnknownSender)
    else if !v.verifies(key, receiver, check) then Some(InconsistentSignatureVerification)
    else None
  }

  /** A check that agrees with the received data. */
  predicate Agrees(v: Verification, key: Key, received: Data, receiver: Party, check: Data) {
    CheckSignature(v, key, receiver, check).None? && received.hash == check.hash
  }

  /** The state of a check. */
  datatype Entry = Entry(received: Option<Data>, receivers: map<Party, Option<Data>>, registered: bool) {

    predicate Ready() {
      registered && received.Some?
    }

    predicate Done() {
      Ready() && receivers == map[]
    }

    /** Every check that is here agrees. */
    predicate AllAgree(v: Verification, key: Key)
      requires received.Some?
    {
      forall q :: q in receivers && receivers[q].Some? ==> Agrees(v, key, received.value, q, receivers[q].value)
    }

    /** The entry after checking: agreeing checks are taken off, and if one does not agree all of them stay. */
    function Checked(v: Verification, key: Key): Entry {
      if Ready() && AllAgree(v, key) then
        this.(receivers := map q | q in receivers && receivers[q].None? :: None)
      else
        this
    }

    /** No check came from outside the receivers that the party asks for. */
    predicate Accepts(asked: set<Party>) {
      !registered && receivers.Keys <= asked
    }

    function Registered(asked: set<Party>): Entry {
      if registered then
        this
      else
        var restricted := map q | q in asked :: if q in receivers then receivers[q] else None;
        Entry(received, restricted, receivers.Keys <= asked)
    }

    predicate Receives(q: Party) {
      if q in receivers then receivers[q].None? else !registered
    }

    function WithCheck(q: Party, check: Data): Entry {
      if Receives(q) then this.(receivers := receivers[q := Some(check)]) else this
    }

    function WithData(data: Data): Entry {
      if received.None? then this.(received := Some(data)) else this
    }
  }

  function EntryOfRequest(asked: set<Party>): Entry {
    Entry(None, map q | q in asked :: None, true)
  }

  function EntryOfCheck(q: Party, check: Data): Entry {
    Entry(None, map[q := Some(check)], false)
  }

  function EntryOfData(data: Data): Entry {
    Entry(Some(data), map[], false)
  }

  class CheckValue {
    var received: Option<Data>
    var receivers: map<Party, Option<Data>>
    var registered: bool

    ghost function Value(): Entry
      reads this
    {
      Entry(received, receivers, registered)
    }

    constructor NewRequest(asked: set<Party>)
      ensures Value() == EntryOfRequest(asked)
    {
      received := None;
      receivers := map q | q in asked :: None;
      registered := true;
    }

    constructor NewReceived(receiver: Party, check: Data)
      ensures Value() == EntryOfCheck(receiver, check)
    {
      received := None;
      receivers := map[receiver := Some(check)];
      registered := false;
    }

    constructor NewReceivedData(data: Data)
      ensures Value() == EntryOfData(data)
    {
      received := Some(data);
      receivers := map[];
      registered := false;
    }

    /** Ok says whether data is here already.  A check from a party that is not asked for rejects the request,
        which leaves the entry unregistered. */
    method Register(asked: set<Party>) returns (r: Result<bool, Error>)
      modifies this
      ensures Value() == old(Value()).Registered(asked)
      ensures received == old(received) && registered == (old(registered) || r.Ok?)
      ensures if old(registered) then
                receivers == old(receivers)
              else
                && receivers.Keys == asked
                && forall q :: q in asked ==> receivers[q] == if q in old(receivers) then old(receivers)[q] else None
      ensures r.Ok? <==> !old(registered) && forall q :: q in old(receivers) ==> q in asked
      ensures r.Ok? ==> r.value == received.Some?
      ensures r.Err? ==> r.error == if old(registered) then MultipleRequests else UnknownCheck
    {
      if registered {
        return Err(MultipleRequests);
      }
      if !(asked >= receivers.Keys) {
        receivers := map q | q in asked :: if q in receivers then receivers[q] else None;
        return Err(UnknownCheck);
      }
      var rest := asked;
      while rest != {}
        invariant rest <= asked
        invariant received == old(received) && registered == old(registered)
        invariant receivers.Keys == old(receivers).Keys + (asked - rest)
        invariant forall q :: q in receivers ==> receivers[q] == if q in old(receivers) then old(receivers)[q] else None
      {
        var receiver :| receiver in rest;
        if receiver !in receivers {
          receivers := receivers[receiver := None];
        }
        rest := rest - {receiver};
      }
      registered := true;
      return Ok(received.Some?);
    }

    method Receive(receiver: Party, check: Data) returns (r: Result<(), Error>)
      modifies this
      ensures Value() == old(Value()).WithCheck(receiver, check)
      ensures received == old(received) && registered == old(registered)
      ensures r.Ok? <==> if receiver in old(receivers) then old(receivers)[receiver].None? else !registered
      ensures receivers == if r.Ok? then old(receivers)[receiver := Some(check)] else old(receivers)
      ensures r.Err? ==> r.error == if receiver in old(receivers) then MultipleChecks else UnknownCheck
    {
      if receiver in receivers {
        if receivers[receiver].Some? {
          return Err(MultipleChecks);
        }
        receivers := receivers[receiver := Some(check)];
      } else {
        if registered {
          return Err(UnknownCheck);
        }
        receivers := receivers[receiver := Some(check)];
      }
      return Ok(());
    }

    method ReceiveData(data: Data) returns (r: Result<bool, Error>)
      modifies this
      ensures Value() == old(Value()).WithData(data)
      ensures receivers == old(receivers) && registered == old(registered)
      ensures received == if old(received).None? then Some(data) else old(received)
      ensures r.Ok? <==> old(received).None?
      ensures r.Ok? ==> r.value == registered
      ensures r.Err? ==> r.error == MultipleMessages
    {
      if received.Some? {
        return Err(MultipleMessages);
      }
      received := Some(data);
      return Ok(registered);
    }

    /** Visits the checks in any order and stops at the first that does not agree: that of an unknown sender, one whose
        signature does not verify, or one with another hash. */
    method Check(v: Verification, key: Key) returns (r: Result<bool, Error>)
      modifies this
      ensures Value() == old(Value()).Checked(v, key)
      ensures received == old(received) && registered == old(registered)
      ensures r == Ok(false) <==> !registered || received.None?
      ensures r == Ok(true) <==> registered && received.Some? && forall q :: q in old(receivers) && old(receivers)[q].Some? ==>
        && key.sender in v.known && v.verifies(key, q, old(receivers)[q].value)
        && old(receivers)[q].value.hash == received.value.hash
      ensures receivers == if r == Ok(true) then map q | q in old(receivers) && old(receivers)[q].None? :: None else old(receivers)
      ensures r.Err? ==> exists q :: (
        && q in receivers && receivers[q].Some?
        && if key.sender !in v.known then r.error == UnknownSender
           else if !v.verifies(key, q, receivers[q].value) then r.error == InconsistentSignatureVerification
           else r.error == InconsistentCollectiveCommunication && receivers[q].value.hash != received.value.hash)
    {
      if !registered {
        return Ok(false);
      }
      if received.None? {
        return Ok(false);
      }
      var rest, valid := receivers.Keys, {};
      while rest != {}
        invariant rest <= receivers.Keys && Value() == old(Value())
        invariant valid == set q | q in receivers && q !in rest && receivers[q].Some?
        invariant forall q :: q in valid ==> Agrees(v, key, received.value, q, receivers[q].value)
      {
        var receiver :| receiver in rest;
        if receivers[receiver].Some? {
          var check := receivers[receiver].value;
          var e := CheckSignature(v, key, receiver, check);
          if e.Some? {
            return Err(e.value);
          }
          if received.value.hash != check.hash {
            return Err(InconsistentCollectiveCommunication);
          }
          valid := valid + {receiver};
        }
        rest := rest - {receiver};
      }
      receivers := receivers - valid;
      return Ok(true);
    }

    predicate IsDone()
      reads this
      ensures IsDone() <==> Value().Done()
    {
      registered && received.Some? && |receivers| == 0
    }
  }
}
