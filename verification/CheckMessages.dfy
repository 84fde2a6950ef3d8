/** Check messages on the wire.  The metadata names the original sender, and the party that sends the check on in
    the place of the receiver. */
module CheckMessages {
  import opened Wrappers
  import opened MessageKinds
  import opened ConsistencyChecks
  import opened ConsistencyRun
  import Metadata

  /** What a notification writes; nothing for a kind that is not checked. */
  function ToWire(m: Message, size: nat): Option<Metadata.Message> {
    match m.key.kind.TryToCheck()
    case None => None
    case Some(kind) => Some(Metadata.Message(kind, m.key.datatypeCode, m.key.sender, m.forwarder, m.key.id, size))
  }

  /** What a party makes of it; nothing for a message that is not a check. */
  function FromWire(wire: Metadata.Message, data: Data): Option<Command> {
    match wire.kind.TryFromCheck()
    case None => None
    case Some(kind) => Some(ReceivedCheck(Key(kind, wire.datatypeCode, wire.sender, wire.id), wire.receiver, data))
  }

  /** A check arrives as the check of the same key by the party that sent it, exactly for the kinds that need a
      check; and only messages of check kinds are taken for checks. */
  lemma CheckRoundTrip(m: Message, size: nat, wire: Metadata.Message, data: Data)
    ensures ToWire(m, size).Some? <==> m.key.kind.NeedsCheck()
    ensures m.key.kind.NeedsCheck() ==>
      ToWire(m, size).value.kind.IsConsistencyCheck()
      && ToWire(m, size).value.sender == m.key.sender && ToWire(m, size).value.receiver == m.forwarder
      && FromWire(ToWire(m, size).value, m.data) == Some(ReceivedCheck(m.key, m.forwarder, m.data))
    ensures FromWire(wire, data).Some? <==> wire.kind.IsConsistencyCheck()
    ensures wire.kind.IsConsistencyCheck() ==>
      var c := FromWire(wire, data).value;
      c.key.kind.NeedsCheck() && forall to ::
        ToWire(Message(c.key, c.from, to, data), wire.size) == Some(wire)
  {
  }

  /** The byte of a kind identifies it. */
  lemma KindRoundTrip(k: MessageKind, b: nat)
    ensures FromByte(k.ToByte()) == Some(k)
    ensures FromByte(b).Some? ==> FromByte(b).value.ToByte() == b
  {
  }
}
