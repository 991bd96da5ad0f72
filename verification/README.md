# Chat-room membership registry

A Dafny model of the room-membership core of a NestJS/Socket.io chat server.
The server keeps an in-memory registry that maps each connection id to
`{username, rooms}`. Connections join and leave named rooms and disconnect.
A room query lists the usernames of the connections in a room, in the order
their registry entries were created. An entry is created by a connection's
first join of any room, and an id reused after a disconnect goes last. So a
connection that joined another room earlier is listed before one that joined
this room first.

The registry exists twice in the source:

- `ChatRoomService` (src/modules/chat/services/chat-room.service.ts) is the standalone form.
- `ChatGateway` (src/modules/chat/chat.gateway.ts) holds its own copy and repeats the same mutations in its socket event handlers.

The model has these modules:

- `Registry` (registry.dfy) gives the registry as a value. A `Roster` pairs the
  JavaScript `Map`'s key insertion order (`order`) with its entries (`users`).
  It defines one function per mutation and the room scan. Both classes are
  proved against these functions.
- `RegistryFacts` (registry_facts.dfy) holds the lemmas. They cover idempotent
  joins, leave/rejoin and disconnect/rejoin, the exact result of a room query,
  how each operation changes room listings, and a worked two-user scenario.
- `ChatRoom` (chat_room_service.dfy) is `ChatRoomService` as a class. Its
  fields are `order` and `activeUsers`. Each method's `ensures` ties the new
  state to the `Registry` function, and the loops carry invariants.
- `Gateway` (chat_gateway.dfy) is `ChatGateway` as a class. Besides the
  registry fields it has an `emitted` log. Each `emit` a handler hands to the
  transport is appended to it as an `Emission(target, payload)` record. The
  payload's constructor (`UserJoined`, `UserLeft`, `RoomUsers`, `Message`,
  `UserTyping`) stands for the event name.
- `ChatInterface`, `Seqs` and `Wrappers` hold the record types, sequence facts
  and `Option`.

Three behaviours of the code are worth knowing when reading the model:

- The `getRoomUsers` reply is `{room, users}`, with no `success` field
  (chat.gateway.ts:150-154).
- `leaveRoom` accepts any client. An unknown client gets `{success: true, room}`
  and nothing happens (chat.gateway.ts:96-112).
- `joinRoom` broadcasts `userJoined` with the username in the request. The
  registry keeps the username of the connection's first join. So a rejoin under
  a new name announces the new name, while `roomUsers` lists the stored one
  (`RegistryFacts.JoinListsJoiner`).

## Model

| member | source | states |
|---|---|---|
| `Registry.Empty` | src/modules/chat/services/chat-room.service.ts:8 | a new Map is a well-formed registry with no entries |
| `Registry.AddUser` | src/modules/chat/services/chat-room.service.ts:10-20 | new id: exactly one entry `{username, {room}}` is added, at the end of the key order; known id: `room` is added and the stored username is kept whatever name is passed; the key set becomes the old one plus the id; all other entries are unchanged; the key order stays duplicate-free and matches the keys |
| `Registry.RemoveUserFromRoom` | src/modules/chat/services/chat-room.service.ts:22-34 | unknown id: registry unchanged, no event; known id: `room` is removed from its rooms, the entry stays even with no rooms left, the key set and count are unchanged, and the event carries the stored username and the given room (also for a room never joined); other entries are unchanged |
| `Registry.RemoveUser` | src/modules/chat/services/chat-room.service.ts:36-51 | the id's entry and key are deleted, the remaining keys keep their insertion order (`Seqs.Without`, `Seqs.WithoutOrdered`), the count drops by 1 exactly when the id was present, an unknown id changes nothing, other entries are unchanged |
| `Registry.Members` | src/modules/chat/services/chat-room.service.ts:57-65 | the room scan keeps exactly the ids whose entry contains the room, without duplicates |
| `Registry.Names` | src/modules/chat/services/chat-room.service.ts:59-63 | the k-th collected name is the username of the k-th kept entry |
| `Seqs.Without` | src/modules/chat/services/chat-room.service.ts:49 | deleting a key removes exactly that key from the iteration order, keeps the order duplicate-free and shortens it by one when the key was present |
| `Seqs.WithoutOrdered` | src/modules/chat/services/chat-room.service.ts:49 | after deleting a key, any two remaining keys appear in the same relative order as before |
| `RegistryFacts.JoinIdempotent` | src/modules/chat/services/chat-room.service.ts:10-18 | repeating a join of the same room is a no-op, even with a different username |
| `RegistryFacts.JoinJoinedRoom` | src/modules/chat/services/chat-room.service.ts:16-17 | joining a room the connection is already in changes nothing, whatever username is passed |
| `RegistryFacts.LeaveThenRejoin` | src/modules/chat/services/chat-room.service.ts:10-34 | leaving a joined room and joining it again restores the registry, up to the iteration order of the entry's room Set |
| `RegistryFacts.RejoinAfterDisconnectIsFresh` | src/modules/chat/services/chat-room.service.ts:10-51 | after a disconnect, a reused id starts a fresh entry `{username, {room}}` at the end of the key order |
| `RegistryFacts.JoinCount` | src/modules/chat/services/chat-room.service.ts:10-20 | a join raises the entry count by 1 for a new id and leaves it unchanged for a known one |
| `RegistryFacts.CountIsKeyOrderLength` | src/modules/chat/services/chat-room.service.ts:67-69 | the entry count equals the number of keys the Map iterates over |
| `RegistryFacts.DisconnectEventsCoverRooms` | src/modules/chat/services/chat-room.service.ts:40-47 | disconnect events (one per room, distinct rooms, stored username) cover exactly the entry's room set |
| `RegistryFacts.MembersOrdered` | src/modules/chat/services/chat-room.service.ts:59 | the room scan lists ids in the Map's key insertion order |
| `RegistryFacts.MembersAgree` | src/modules/chat/services/chat-room.service.ts:57-65 | the room scan depends only on which entries contain the room |
| `RegistryFacts.MembersWithout` | src/modules/chat/services/chat-room.service.ts:49-65 | scanning after deleting a key gives the old scan without that key |
| `RegistryFacts.UsersInRoomIsRoomScan` | src/modules/chat/services/chat-room.service.ts:57-65 | a room query returns one username per entry whose rooms contain the room, in key order, with length equal to the number of such entries (duplicate usernames possible) |
| `RegistryFacts.JoinListsJoiner` | src/modules/chat/chat.gateway.ts:65-84 | after a join, the joiner's id is listed in the room and its stored username is in the room's username list |
| `RegistryFacts.JoinAppendsNewcomer` | src/modules/chat/services/chat-room.service.ts:10-65 | a new connection's join appends its id to that room's listing and leaves every other room's listing unchanged |
| `RegistryFacts.JoinAppendsNewcomerName` | src/modules/chat/services/chat-room.service.ts:10-65 | a new connection's join appends its username to that room's username list, and no other room's list changes |
| `RegistryFacts.JoinKeepsOtherRooms` | src/modules/chat/services/chat-room.service.ts:10-65 | a join changes no other room's listing |
| `RegistryFacts.LeaveUpdatesOnlyThatRoom` | src/modules/chat/services/chat-room.service.ts:22-65 | after a leave, the id is dropped from that room's listing and every other room's listing is unchanged |
| `RegistryFacts.DisconnectLeavesEveryRoom` | src/modules/chat/services/chat-room.service.ts:36-65 | after a disconnect, the id is dropped from every room's listing, nothing else changes, and a room it was in lists one username fewer |
| `RegistryFacts.JoinEmptyRoom` | src/modules/chat/services/chat-room.service.ts:10-65 | a new connection joining a room nobody is in makes the room list exactly its id and its username |
| `RegistryFacts.JoinSecond` | src/modules/chat/services/chat-room.service.ts:10-65 | a second new connection joining a room that lists only the first makes it list both, first joiner first, even when the two usernames are equal |
| `RegistryFacts.DisconnectFirstOfTwo` | src/modules/chat/services/chat-room.service.ts:36-65 | when a room lists two connections, the first one's disconnect leaves exactly the second one's username |
| `ChatRoom.ChatRoomService.constructor` | src/modules/chat/services/chat-room.service.ts:8 | the service starts with an empty, well-formed registry |
| `ChatRoom.ChatRoomService.AddUser` | src/modules/chat/services/chat-room.service.ts:10-20 | updates the Map in place exactly as `Registry.AddUser` and keeps the registry well formed |
| `ChatRoom.ChatRoomService.RemoveUserFromRoom` | src/modules/chat/services/chat-room.service.ts:22-34 | new state and returned event (or `None`) are exactly those of `Registry.RemoveUserFromRoom` |
| `ChatRoom.ChatRoomService.RemoveUser` | src/modules/chat/services/chat-room.service.ts:36-51 | unknown id: returns [] and changes nothing; known id: one event per room of the entry, distinct rooms, stored username, then the entry is deleted as `Registry.RemoveUser` says |
| `ChatRoom.ChatRoomService.GetUser` | src/modules/chat/services/chat-room.service.ts:53-55 | read-only: returns the entry exactly when the id is present |
| `ChatRoom.ChatRoomService.GetUsersInRoom` | src/modules/chat/services/chat-room.service.ts:57-65 | read-only: the loop over the key order returns exactly `Registry.UsersInRoom` |
| `ChatRoom.ChatRoomService.GetAllActiveUsers` | src/modules/chat/services/chat-room.service.ts:67-69 | returns the number of entries, which equals the number of keys in iteration order |
| `Gateway.UserLeftAll` | src/modules/chat/chat.gateway.ts:44-50 | one `userLeft` room broadcast per event, in the same order |
| `Gateway.ChatGateway.BroadcastLeft` | src/modules/chat/chat.gateway.ts:43-49 | one `userLeft` broadcast per room of the entry, no room twice, each with the stored username; the registry fields are not touched |
| `Gateway.ChatGateway.constructor` | src/modules/chat/chat.gateway.ts:34-35 | the gateway starts with an empty, well-formed registry and nothing emitted |
| `Gateway.ChatGateway.HandleDisconnect` | src/modules/chat/chat.gateway.ts:41-54 | unknown client: nothing emitted, nothing changed; known client: one `userLeft` broadcast with the stored username to each joined room, then the entry is deleted as `Registry.RemoveUser` says |
| `Gateway.ChatGateway.HandleJoinRoom` | src/modules/chat/chat.gateway.ts:56-89 | the registry changes exactly as `Registry.AddUser` (same as `addUser`); `userJoined` is broadcast to the room with the given username; the joiner then gets `roomUsers` computed on the post-state, which lists its stored username; the ack is `{success: true, room, username}` |
| `Gateway.ChatGateway.HandleLeaveRoom` | src/modules/chat/chat.gateway.ts:91-113 | the registry changes exactly as `Registry.RemoveUserFromRoom`; `userLeft` is broadcast only for a known client; the ack is always `{success: true, room}` |
| `Gateway.ChatGateway.HandleMessage` | src/modules/chat/chat.gateway.ts:115-132 | registry untouched; one `message` broadcast to the whole room; the ack is `{success: true}` |
| `Gateway.ChatGateway.HandleTyping` | src/modules/chat/chat.gateway.ts:134-148 | registry untouched; one `userTyping` to the room excluding the sender; the ack is `{success: true}` |
| `Gateway.ChatGateway.HandleGetRoomUsers` | src/modules/chat/chat.gateway.ts:150-154 | read-only: replies `{room, users}` with the post-state room query; nothing emitted |
| `Gateway.ChatGateway.GetUsersInRoom` | src/modules/chat/chat.gateway.ts:156-164 | read-only: the loop over the key order returns exactly `Registry.UsersInRoom` |

## Left out

- Socket.io transport: `client.join`/`client.leave` (chat.gateway.ts:63, 100) and delivery itself are foreign calls. Each `emit` is recorded in the `emitted` log with its target: a room, a room minus the sender, or the sender.
- `Logger` calls (chat-room.service.ts:19, 27; chat.gateway.ts:38, 53, 86, 109, 129) are logging only.
- `new Date()` timestamps (chat-room.service.ts:32, 45; chat.gateway.ts:48, 77, 106, 126) are wall-clock values. `UserEvent` has no timestamp field.
- `handleConnection` (chat.gateway.ts:37-39) only logs, so it is not modelled.
- ChatRoom.ChatRoomService.RemoveUser: the events are one per room in some order of the room set. JavaScript's `Set` iterates in insertion order, but the model keeps rooms as a `set`, so the event order is not pinned down.
- Gateway.ChatGateway.HandleDisconnect: same as above for the order of the `userLeft` broadcasts.
- Gateway.ChatGateway.BroadcastLeft: picks each next room from the set, so the order of the `userLeft` broadcasts is left open, not the Set's insertion order.
- RegistryFacts.LeaveThenRejoin: in the source, `rooms.delete(room)` then `rooms.add(room)` moves the room to the end of the entry's Set. That changes the order of later disconnect events and broadcasts. With rooms as a `set`, the model's round trip is exact only up to that order.
- ChatRoom.ChatRoomService.GetUser: the source returns the live entry object, and a caller that mutates it changes the registry. The model returns the entry as a value, so this aliasing is not captured.
- NestJS decorators and dependency injection (`@WebSocketGateway`, `@SubscribeMessage`, src/modules/chat/chat.module.ts) are framework wiring.
- src/modules/auth/auth.service.ts, src/modules/posts/posts.service.ts, src/config/typeorm.config.ts and the DTO files are not part of this model. They are database, hashing, JWT and validation plumbing.
- Concurrency: handlers run one at a time on Node's event loop, so every operation is modelled as a sequential method call.
