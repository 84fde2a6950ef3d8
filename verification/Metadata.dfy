/** What identifies a message on the network. */
module Metadata {
  import opened MessageKinds

  type Party = nat

  datatype Message = Message(kind: MessageKind, datatypeCode: nat, sender: Party, receiver: Party, id: nat, size: nat)
}
