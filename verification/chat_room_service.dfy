/** `ChatRoomService` (src/modules/chat/services/chat-room.service.ts). */
module ChatRoom {
  import opened Wrappers
  import opened Seqs
  import opened ChatInterface
  import opened Registry
  import opened RegistryFacts

  class ChatRoomService {
    /** The `activeUsers` Map: its key insertion order and its entries. */
    var order: seq<ClientId>
    var activeUsers: map<ClientId, ActiveUser>

    ghost function Model(): Roster
      reads this
    {
      Roster(order, activeUsers)
    }

    ghost predicate Valid()
      reads this
    {
      Registry.Valid(Model())
    }

    constructor ()
      ensures Valid() && Model() == Empty()
    {
      order := [];
      activeUsers := map[];
    }

    method AddUser(clientId: ClientId, username: string, room: string)
      requires Valid()
      modifies this
      ensures Valid()
      ensures Model() == Registry.AddUser(old(Model()), clientId, username, room)
    {
      if clientId !in activeUsers {
        activeUsers := activeUsers[clientId := ActiveUser(username, {room})];
        order := order + [clientId];
      } else {
        var user := activeUsers[clientId];
        activeUsers := activeUsers[clientId := user.(rooms := user.rooms + {room})];
      }
    }

    method RemoveUserFromRoom(clientId: ClientId, room: string) returns (event: Option<UserEvent>)
      requires Valid()
      modifies this
      ensures Valid()
      ensures (Model(), event) == Registry.RemoveUserFromRoom(old(Model()), clientId, room)
    {
      if clientId !in activeUsers {
        return None;
      }
      var user := activeUsers[clientId];
      activeUsers := activeUsers[clientId := user.(rooms := user.rooms - {room})];
      event := Some(UserEvent(user.username, room));
    }

    /** Visits the entry's rooms in some order (the Set's own), one event each, then deletes the entry. */
    method RemoveUser(clientId: ClientId) returns (events: seq<UserEvent>)
      requires Valid()
      modifies this
      ensures Valid()
      ensures Model() == Registry.RemoveUser(old(Model()), clientId)
      ensures clientId !in old(activeUsers) ==> events == []
      ensures clientId in old(activeUsers) ==> DisconnectEvents(old(activeUsers)[clientId], events)
    {
      if clientId !in activeUsers {
        return [];
      }
      var user := activeUsers[clientId];
      events := [];
      var remaining := user.rooms;
      while remaining != {}
        invariant remaining <= user.rooms
        invariant |events| + |remaining| == |user.rooms|
        invariant forall i :: 0 <= i < |events| ==>
          events[i].username == user.username && events[i].room in user.rooms && events[i].room !in remaining
        invariant forall i, j :: 0 <= i < j < |events| ==> events[i].room != events[j].room
        decreases |remaining|
      {
        var room :| room in remaining;
        events := events + [UserEvent(user.username, room)];
        remaining := remaining - {room};
      }
      activeUsers := activeUsers - {clientId};
      order := Without(order, clientId);
    }

    /** Read-only lookup of one entry. */
    method GetUser(clientId: ClientId) returns (user: Option<ActiveUser>)
      ensures user.Some? <==> clientId in activeUsers
      ensures user.Some? ==> user.value == activeUsers[clientId]
    {
      if clientId in activeUsers {
        user := Some(activeUsers[clientId]);
      } else {
        user := None;
      }
    }

    /** The `forEach` scan over the Map, in key order, keeping the usernames of the entries in `room`. */
    method GetUsersInRoom(room: string) returns (users: seq<string>)
      requires Valid()
      ensures users == UsersInRoom(Model(), room)
    {
      users := [];
      var i := 0;
      while i < |order|
        invariant 0 <= i <= |order|
        invariant users == Names(activeUsers, Members(order[..i], activeUsers, room))
      {
        var id := order[i];
        ScanStep(order, i, activeUsers, room);
        if room in activeUsers[id].rooms {
          users := users + [activeUsers[id].username];
        }
        i := i + 1;
      }
      assert order[..i] == order;
    }

    /** `activeUsers.size` */
    method GetAllActiveUsers() returns (count: nat)
      requires Valid()
      ensures count == |activeUsers| == |order|
    {
      CountIsKeyOrderLength(Model());
      count := |activeUsers|;
    }
  }
}
