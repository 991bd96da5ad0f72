/**
 * `ChatGateway` (src/modules/chat/chat.gateway.ts): the socket event handlers,
 * each a transition of its own copy of the registry plus the records it emits.
 * The transport is not modelled; what a handler hands to it is appended to `emitted`.
 */
module Gateway {
  import opened Seqs
  import opened ChatInterface
  import opened Registry
  import opened RegistryFacts

  /** Who an emit is addressed to: `server.to(room)`, `client.to(room)` (the room minus the sender), `client`. */
  datatype Target = ToRoom(room: string) | ToRoomExceptSender(room: string, sender: ClientId) | ToClient(client: ClientId)

  /** An emitted event: the constructor is the event name on the wire, the argument its payload. */
  datatype Payload =
    | UserJoined(user: UserEvent)
    | UserLeft(user: UserEvent)
    | RoomUsers(list: RoomUsersResponse)
    | Message(message: MessageEvent)
    | UserTyping(typing: TypingEvent)

  /** One `emit(eventName, payload)` handed to the transport. */
  datatype Emission = Emission(target: Target, payload: Payload)

  /** The acknowledgements the handlers return to the sender. */
  datatype Ack =
    | JoinAck(success: bool, room: string, username: string)
    | LeaveAck(success: bool, room: string)
    | Success(success: bool)

  /** The `userLeft` broadcast for one event. */
  function LeftBroadcast(event: UserEvent): Emission
  {
    Emission(ToRoom(event.room), UserLeft(event))
  }

  /** The `userLeft` broadcasts for `events`, in order. */
  function UserLeftAll(events: seq<UserEvent>): (emits: seq<Emission>)
    ensures |emits| == |events|
    ensures forall k :: 0 <= k < |events| ==> emits[k] == LeftBroadcast(events[k])
  {
    if events == [] then []
    else UserLeftAll(events[..|events| - 1]) + [LeftBroadcast(events[|events| - 1])]
  }

  /** Broadcasting one more event appends its emission. */
  lemma UserLeftAllSnoc(events: seq<UserEvent>, event: UserEvent)
    ensures UserLeftAll(events + [event]) == UserLeftAll(events) + [LeftBroadcast(event)]
  {
    assert (events + [event])[..|events|] == events;
  }

  class ChatGateway {
    /** The gateway's own `activeUsers` Map: key insertion order and entries. */
    var order: seq<ClientId>
    var activeUsers: map<ClientId, ActiveUser>
    /** Everything emitted so far, oldest first. */
    var emitted: seq<Emission>

    ghost function Model(): Roster
      reads this
    {
      Roster(order, activeUsers)
    }

    ghost predicate Valid()
      reads this
    {
      Registry.Valid(Model())
    }

    constructor ()
      ensures Valid() && Model() == Empty() && emitted == []
    {
      order := [];
      activeUsers := map[];
      emitted := [];
    }

    /** One `userLeft` to each joined room, with the stored username, then the entry is deleted. */
    method HandleDisconnect(clientId: ClientId)
      requires Valid()
      modifies this
      ensures Valid()
      ensures Model() == RemoveUser(old(Model()), clientId)
      ensures clientId !in old(activeUsers) ==> emitted == old(emitted)
      ensures clientId in old(activeUsers) ==>
        exists events :: DisconnectEvents(old(activeUsers)[clientId], events) && emitted == old(emitted) + UserLeftAll(events)
    {
      if clientId in activeUsers {
        ghost var events := BroadcastLeft(activeUsers[clientId]);
        activeUsers := activeUsers - {clientId};
        order := Without(order, clientId);
      }
    }

    /** The `forEach` over the user's room set in `handleDisconnect`: one `userLeft` per room, in the set's iteration order. */
    method BroadcastLeft(user: ActiveUser) returns (ghost events: seq<UserEvent>)
      modifies this`emitted
      ensures DisconnectEvents(user, events)
      ensures emitted == old(emitted) + UserLeftAll(events)
    {
      events := [];
      var remaining := user.rooms;
      while remaining != {}
        invariant remaining <= user.rooms
        invariant |events| + |remaining| == |user.rooms|
        invariant forall i :: 0 <= i < |events| ==>
          events[i].username == user.username && events[i].room in user.rooms && events[i].room !in remaining
        invariant forall i, j :: 0 <= i < j < |events| ==> events[i].room != events[j].room
        invariant emitted == old(emitted) + UserLeftAll(events)
        decreases |remaining|
      {
        var room :| room in remaining;
        UserLeftAllSnoc(events, UserEvent(user.username, room));
        emitted := emitted + [LeftBroadcast(UserEvent(user.username, room))];
        events := events + [UserEvent(user.username, room)];
        remaining := remaining - {room};
      }
    }

    /**
     * Joins `room` as `addUser` does, broadcasts `userJoined` with the given
     * username, then sends the joiner the room's usernames read after the join.
     */
    method HandleJoinRoom(clientId: ClientId, room: string, username: string) returns (ack: Ack)
      requires Valid()
      modifies this
      ensures Valid()
      ensures Model() == Registry.AddUser(old(Model()), clientId, username, room)
      ensures emitted == old(emitted)
        + [Emission(ToRoom(room), UserJoined(UserEvent(username, room)))]
        + [Emission(ToClient(clientId), RoomUsers(RoomUsersResponse(room, UsersInRoom(Model(), room))))]
      ensures activeUsers[clientId].username in UsersInRoom(Model(), room)
      ensures ack == JoinAck(true, room, username)
    {
      ghost var before := Model();
      if clientId !in activeUsers {
        activeUsers := activeUsers[clientId := ActiveUser(username, {room})];
        order := order + [clientId];
      } else {
        var user := activeUsers[clientId];
        activeUsers := activeUsers[clientId := user.(rooms := user.rooms + {room})];
      }
      assert Model() == Registry.AddUser(before, clientId, username, room);
      JoinListsJoiner(before, clientId, username, room);
      var joined := Emission(ToRoom(room), UserJoined(UserEvent(username, room)));
      emitted := emitted + [joined];
      var usersInRoom := GetUsersInRoom(room);
      var reply := Emission(ToClient(clientId), RoomUsers(RoomUsersResponse(room, usersInRoom)));
      emitted := emitted + [reply];
      ack := JoinAck(true, room, username);
    }

    /** A known client leaves `room` and `userLeft` is broadcast; an unknown client changes nothing. Always acknowledged. */
    method HandleLeaveRoom(clientId: ClientId, room: string) returns (ack: Ack)
      requires Valid()
      modifies this
      ensures Valid()
      ensures Model() == Registry.RemoveUserFromRoom(old(Model()), clientId, room).0
      ensures emitted == old(emitted) +
        match Registry.RemoveUserFromRoom(old(Model()), clientId, room).1
        case Some(event) => [LeftBroadcast(event)]
        case None => []
      ensures ack == LeaveAck(true, room)
    {
      if clientId in activeUsers {
        var user := activeUsers[clientId];
        activeUsers := activeUsers[clientId := user.(rooms := user.rooms - {room})];
        emitted := emitted + [LeftBroadcast(UserEvent(user.username, room))];
      }
      ack := LeaveAck(true, room);
    }

    /** Relays a message to the whole room, sender included; the registry is not consulted. */
    method HandleMessage(clientId: ClientId, room: string, message: string, username: string) returns (ack: Ack)
      modifies this`emitted
      ensures Model() == old(Model())
      ensures emitted == old(emitted) + [Emission(ToRoom(room), Message(MessageEvent(username, room, message)))]
      ensures ack == Success(true)
    {
      emitted := emitted + [Emission(ToRoom(room), Message(MessageEvent(username, room, message)))];
      ack := Success(true);
    }

    /** Relays a typing indicator to the room minus the sender. */
    method HandleTyping(clientId: ClientId, room: string, username: string, isTyping: bool) returns (ack: Ack)
      modifies this`emitted
      ensures Model() == old(Model())
      ensures emitted == old(emitted) + [Emission(ToRoomExceptSender(room, clientId), UserTyping(TypingEvent(username, isTyping, room)))]
      ensures ack == Success(true)
    {
      emitted := emitted + [Emission(ToRoomExceptSender(room, clientId), UserTyping(TypingEvent(username, isTyping, room)))];
      ack := Success(true);
    }

    /** Replies with the room's usernames; nothing is emitted and nothing changes. */
    method HandleGetRoomUsers(room: string) returns (reply: RoomUsersResponse)
      requires Valid()
      ensures reply.room == room
      ensures reply.users == UsersInRoom(Model(), room)
    {
      var users := GetUsersInRoom(room);
      reply := RoomUsersResponse(room, users);
    }

    /** The gateway's private room scan: `forEach` over its Map in key order. */
    method GetUsersInRoom(room: string) returns (users: seq<string>)
      requires Valid()
      ensures users == UsersInRoom(Model(), room)
    {
      users := [];
      var i := 0;
      while i < |order|
        invariant 0 <= i <= |order|
        invariant users == Names(activeUsers, Members(order[..i], activeUsers, room))
      {
        var id := order[i];
        ScanStep(order, i, activeUsers, room);
        if room in activeUsers[id].rooms {
          users := users + [activeUsers[id].username];
        }
        i := i + 1;
      }
      assert order[..i] == order;
    }
  }
}
