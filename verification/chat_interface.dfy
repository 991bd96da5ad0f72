/**
 * The records exchanged by the chat core (src/modules/chat/interfaces/chat.interface.ts).
 * The `timestamp: Date` fields are wall-clock values and are left out.
 */
module ChatInterface {
  /** The transport's connection id (`client.id`). */
  type ClientId = string

  /** One registry entry: the username given at first join and the rooms joined since. */
  datatype ActiveUser = ActiveUser(username: string, rooms: set<string>)

  /** A join or leave notification. */
  datatype UserEvent = UserEvent(username: string, room: string)

  /** A chat message relayed to a room. */
  datatype MessageEvent = MessageEvent(username: string, room: string, message: string)

  /** A typing indicator relayed to a room. */
  datatype TypingEvent = TypingEvent(username: string, isTyping: bool, room: string)

  /** The list of usernames present in a room. */
  datatype RoomUsersResponse = RoomUsersResponse(room: string, users: seq<string>)
}
