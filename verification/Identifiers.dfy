/** Identifiers and the option type shared by the modules. Users, rooms, conversations and connections are
    named by UUIDs in the server; here they are natural numbers, of which only equality and order matter. */
module Identifiers {
  type UserId = nat
  type RoomId = nat
  type ConversationId = nat
  /** One signaling connection. It names the participant it adds to a room. */
  type ParticipantId = nat

  datatype Option<+T> = None | Some(value: T)
}
