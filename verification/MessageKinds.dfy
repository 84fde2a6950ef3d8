/** The kinds of messages and the two conversions between a collective and the check of it. */
module MessageKinds {
  import opened Wrappers

  datatype MessageKind =
    | Send
    | Broadcast
    | Scatter
    | Gather
    | AllGather
    | AllToAll
    | ConsistencyCheckBroadcast
    | ConsistencyCheckAllGather
  {
    /** The byte on the wire. */
    function ToByte(): nat {
      match this
      case Send => 1
      case Broadcast => 2
      case Scatter => 3
      case Gather => 4
      case AllGather => 5
      case AllToAll => 6
      case ConsistencyCheckBroadcast => 18
      case ConsistencyCheckAllGather => 21
    }

    predicate NeedsCheck() {
      Broadcast? || AllGather?
    }

    predicate IsConsistencyCheck() {
      ConsistencyCheckBroadcast? || ConsistencyCheckAllGather?
    }

    function TryToCheck(): Option<MessageKind> {
      match this
      case Broadcast => Some(ConsistencyCheckBroadcast)
      case AllGather => Some(ConsistencyCheckAllGather)
      case _ => None
    }

    function TryFromCheck(): Option<MessageKind> {
      match this
      case ConsistencyCheckBroadcast => Some(Broadcast)
      case ConsistencyCheckAllGather => Some(AllGather)
      case _ => None
    }
  }

  function FromByte(b: nat): Option<MessageKind> {
    if b == 1 then Some(Send)
    else if b == 2 then Some(Broadcast)
    else if b == 3 then Some(Scatter)
    else if b == 4 then Some(Gather)
    else if b == 5 then Some(AllGather)
    else if b == 6 then Some(AllToAll)
    else if b == 18 then Some(ConsistencyCheckBroadcast)
    else if b == 21 then Some(ConsistencyCheckAllGather)
    else None
  }
}
