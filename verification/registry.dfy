/**
 * The in-memory membership registry shared by `ChatRoomService` and `ChatGateway`:
 * a JavaScript `Map` from connection id to `{username, rooms}`, as a value.
 * `order` is the Map's key insertion order, which its `forEach` follows;
 * `users` is its contents.
 */
module Registry {
  import opened Wrappers
  import opened Seqs
  import opened ChatInterface

  datatype Roster = Roster(order: seq<ClientId>, users: map<ClientId, ActiveUser>)

  /** The key order lists every key of the map exactly once. */
  ghost predicate Valid(s: Roster)
  {
    && Distinct(s.order)
    && (forall id :: id in s.order <==> id in s.users)
  }

  /** `new Map()` */
  function Empty(): (s: Roster)
    ensures Valid(s) && |s.users| == 0
  {
    Roster([], map[])
  }

  /** Entry `id` exists and has joined `room`. */
  predicate InRoom(users: map<ClientId, ActiveUser>, id: ClientId, room: string)
  {
    id in users && room in users[id].rooms
  }

  /**
   * `addUser` / the join branch of `handleJoinRoom`: a new id gets the entry
   * `{username, {room}}` at the end of the key order; a known id gets `room`
   * added and keeps its first username.
   */
  function AddUser(s: Roster, id: ClientId, username: string, room: string): (t: Roster)
    requires Valid(s)
    ensures Valid(t)
    ensures t.users.Keys == s.users.Keys + {id}
    ensures id !in s.users ==> t.users[id] == ActiveUser(username, {room}) && t.order == s.order + [id]
    ensures id in s.users ==> t.users[id] == ActiveUser(s.users[id].username, s.users[id].rooms + {room}) && t.order == s.order
    ensures forall other :: other in s.users && other != id ==> t.users[other] == s.users[other]
  {
    if id !in s.users then
      ValidAppend(s, id, ActiveUser(username, {room}));
      Roster(s.order + [id], s.users[id := ActiveUser(username, {room})])
    else
      var user := s.users[id];
      ValidReplace(s, id, user.(rooms := user.rooms + {room}));
      Roster(s.order, s.users[id := user.(rooms := user.rooms + {room})])
  }

  /** A new key goes at the end of the key order. */
  lemma ValidAppend(s: Roster, id: ClientId, user: ActiveUser)
    requires Valid(s) && id !in s.users
    ensures Valid(Roster(s.order + [id], s.users[id := user]))
  {
    DistinctSnoc(s.order, id);
  }

  /** Overwriting an existing key leaves the key order as it is. */
  lemma ValidReplace(s: Roster, id: ClientId, user: ActiveUser)
    requires Valid(s) && id in s.users
    ensures Valid(Roster(s.order, s.users[id := user]))
  {
  }

  /**
   * `removeUserFromRoom` / the leave branch of `handleLeaveRoom`: an unknown id
   * is a no-op with no event; a known id loses `room` (joined or not), keeps its
   * entry even when no room is left, and yields an event with its stored username.
   */
  function RemoveUserFromRoom(s: Roster, id: ClientId, room: string): (res: (Roster, Option<UserEvent>))
    requires Valid(s)
    ensures Valid(res.0)
    ensures id !in s.users ==> res == (s, None)
    ensures id in s.users ==>
      && res.1 == Some(UserEvent(s.users[id].username, room))
      && res.0.order == s.order
      && res.0.users.Keys == s.users.Keys
      && res.0.users[id] == ActiveUser(s.users[id].username, s.users[id].rooms - {room})
    ensures forall other :: other in s.users && other != id ==> res.0.users[other] == s.users[other]
  {
    if id !in s.users then (s, None)
    else
      var user := s.users[id];
      (Roster(s.order, s.users[id := user.(rooms := user.rooms - {room})]), Some(UserEvent(user.username, room)))
  }

  /** The registry after `removeUser` / `handleDisconnect`: the entry and its key are gone, nothing else changes. */
  function RemoveUser(s: Roster, id: ClientId): (t: Roster)
    requires Valid(s)
    ensures Valid(t)
    ensures t.users.Keys == s.users.Keys - {id}
    ensures |t.users| == |s.users| - (if id in s.users then 1 else 0)
    ensures id !in s.users ==> t == s
    ensures t.order == Without(s.order, id)
    ensures forall other :: other in t.users ==> t.users[other] == s.users[other]
  {
    var users := s.users - {id};
    assert id !in s.users ==> users == s.users;
    Roster(Without(s.order, id), users)
  }

  /**
   * The events `removeUser` returns for `user`, in some iteration order of its
   * room set: one per room, no room twice, each with the stored username.
   */
  ghost predicate DisconnectEvents(user: ActiveUser, events: seq<UserEvent>)
  {
    && |events| == |user.rooms|
    && (forall i :: 0 <= i < |events| ==> events[i].username == user.username && events[i].room in user.rooms)
    && (forall i, j :: 0 <= i < j < |events| ==> events[i].room != events[j].room)
  }

  /** `getAllActiveUsers`: the number of map entries. */
  function Count(s: Roster): nat
  {
    |s.users|
  }

  /** The ids, in key order, whose entry has joined `room`: what the `forEach` scan visits and keeps. */
  function Members(keys: seq<ClientId>, users: map<ClientId, ActiveUser>, room: string): (ids: seq<ClientId>)
    ensures forall id :: id in ids <==> id in keys && InRoom(users, id, room)
    ensures Distinct(keys) ==> Distinct(ids)
    ensures |ids| <= |keys|
  {
    if keys == [] then []
    else
      var init, last := keys[..|keys| - 1], keys[|keys| - 1];
      assert keys == init + [last];
      var ids := Members(init, users, room);
      if InRoom(users, last, room) then
        assert Distinct(keys) ==> Distinct(ids + [last]) by {
          if Distinct(keys) { DistinctSnoc(ids, last); }
        }
        ids + [last]
      else ids
  }

  /** The usernames of `ids`, position by position. */
  function Names(users: map<ClientId, ActiveUser>, ids: seq<ClientId>): (names: seq<string>)
    requires forall id :: id in ids ==> id in users
    ensures |names| == |ids|
    ensures forall k :: 0 <= k < |ids| ==> names[k] == users[ids[k]].username
  {
    if ids == [] then []
    else Names(users, ids[..|ids| - 1]) + [users[ids[|ids| - 1]].username]
  }

  function RoomMembers(s: Roster, room: string): seq<ClientId>
  {
    Members(s.order, s.users, room)
  }

  /** `getUsersInRoom(room)`: the username of every entry in `room`, in key order. */
  function UsersInRoom(s: Roster, room: string): seq<string>
  {
    Names(s.users, RoomMembers(s, room))
  }

  /** One step of the room scan: visiting one more key. */
  lemma MembersSnoc(keys: seq<ClientId>, id: ClientId, users: map<ClientId, ActiveUser>, room: string)
    ensures Members(keys + [id], users, room) == if InRoom(users, id, room) then Members(keys, users, room) + [id] else Members(keys, users, room)
  {
    assert (keys + [id])[..|keys|] == keys;
  }

  /** One step of collecting usernames. */
  lemma NamesSnoc(users: map<ClientId, ActiveUser>, ids: seq<ClientId>, id: ClientId)
    requires forall x :: x in ids ==> x in users
    requires id in users
    ensures Names(users, ids + [id]) == Names(users, ids) + [users[id].username]
  {
    assert (ids + [id])[..|ids|] == ids;
  }

  /** One step of the room scan over the key order: the usernames collected after visiting `keys[i]`. */
  lemma ScanStep(keys: seq<ClientId>, i: nat, users: map<ClientId, ActiveUser>, room: string)
    requires i < |keys|
    requires forall id :: id in keys ==> id in users
    ensures Names(users, Members(keys[..i + 1], users, room)) ==
      if room in users[keys[i]].rooms then Names(users, Members(keys[..i], users, room)) + [users[keys[i]].username]
      else Names(users, Members(keys[..i], users, room))
  {
    var id := keys[i];
    assert keys[..i + 1] == keys[..i] + [id];
    MembersSnoc(keys[..i], id, users, room);
    if room in users[id].rooms {
      NamesSnoc(users, Members(keys[..i], users, room), id);
    }
  }
}
