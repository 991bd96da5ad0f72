/** What the registry operations promise when composed, and what the room scan returns. */
module RegistryFacts {
  import opened Seqs
  import opened ChatInterface
  import opened Registry

  /** Repeating a join is a no-op, whatever username the repeat carries. */
  lemma {:induction false} JoinIdempotent(s: Roster, id: ClientId, username: string, again: string, room: string)
    requires Valid(s)
    ensures AddUser(AddUser(s, id, username, room), id, again, room) == AddUser(s, id, username, room)
  {
    var t := AddUser(s, id, username, room);
    assert InRoom(t.users, id, room);
    JoinJoinedRoom(t, id, again, room);
  }

  /** Joining a room the connection is already in changes nothing, whatever username is passed. */
  lemma {:induction false} JoinJoinedRoom(s: Roster, id: ClientId, username: string, room: string)
    requires Valid(s) && InRoom(s.users, id, room)
    ensures AddUser(s, id, username, room) == s
  {
    var user := s.users[id];
    assert user.rooms + {room} == user.rooms;
    assert user.(rooms := user.rooms + {room}) == user;
    assert s.users[id := user] == s.users;
  }

  /** Leaving a joined room and joining it again restores the registry. */
  lemma {:induction false} LeaveThenRejoin(s: Roster, id: ClientId, username: string, room: string)
    requires Valid(s)
    requires InRoom(s.users, id, room)
    ensures AddUser(RemoveUserFromRoom(s, id, room).0, id, username, room) == s
  {
    var t := AddUser(RemoveUserFromRoom(s, id, room).0, id, username, room);
    assert t.users[id] == s.users[id];
    assert t.users == s.users;
  }

  /** A join adds one entry for a new id and none for a known one. */
  lemma {:induction false} JoinCount(s: Roster, id: ClientId, username: string, room: string)
    requires Valid(s)
    ensures Count(AddUser(s, id, username, room)) == Count(s) + (if id in s.users then 0 else 1)
  {
    var t := AddUser(s, id, username, room);
    if id !in s.users {
      assert t.users == s.users[id := ActiveUser(username, {room})];
    } else {
      assert t.users.Keys == s.users.Keys;
    }
  }

  /** A connection id reused after a disconnect starts a fresh entry at the end of the key order. */
  lemma {:induction false} RejoinAfterDisconnectIsFresh(s: Roster, id: ClientId, username: string, room: string)
    requires Valid(s)
    ensures AddUser(RemoveUser(s, id), id, username, room).users[id] == ActiveUser(username, {room})
    ensures AddUser(RemoveUser(s, id), id, username, room).order == Without(s.order, id) + [id]
  {
  }

  /** `getAllActiveUsers` also equals the number of keys the Map iterates over. */
  lemma {:induction false} CountIsKeyOrderLength(s: Roster)
    requires Valid(s)
    ensures Count(s) == |s.order|
  {
    DistinctCard(s.order);
    assert (set x | x in s.order) == s.users.Keys;
  }

  /** The events of a disconnect cover every joined room, and no other. */
  lemma {:induction false} DisconnectEventsCoverRooms(user: ActiveUser, events: seq<UserEvent>)
    requires DisconnectEvents(user, events)
    ensures (set i | 0 <= i < |events| :: events[i].room) == user.rooms
  {
    var rooms := set i | 0 <= i < |events| :: events[i].room;
    var covered := seq(|events|, i requires 0 <= i < |events| => events[i].room);
    DistinctPairwise(covered);
    DistinctCard(covered);
    forall r | r in rooms ensures r in covered {
      var i :| 0 <= i < |events| && events[i].room == r;
      assert covered[i] == r;
    }
    assert (set r | r in covered) == rooms;
    SubsetOfEqualSize(rooms, user.rooms);
  }

  /** A subset as large as its superset is the superset. */
  lemma {:induction false} SubsetOfEqualSize<T>(a: set<T>, b: set<T>)
    requires a <= b && |a| == |b|
    ensures a == b
  {
    var d := b - a;
    assert b == a + d;
    assert a * d == {};
    assert |d| == 0;
  }

  /** Entries that agree on membership of `room` give the same scan. */
  lemma {:induction false} MembersAgree(keys: seq<ClientId>, u1: map<ClientId, ActiveUser>, u2: map<ClientId, ActiveUser>, room: string)
    requires forall k :: k in keys ==> InRoom(u1, k, room) == InRoom(u2, k, room)
    ensures Members(keys, u1, room) == Members(keys, u2, room)
  {
    if keys != [] {
      var init, last := keys[..|keys| - 1], keys[|keys| - 1];
      assert keys == init + [last];
      MembersAgree(init, u1, u2, room);
    }
  }

  /** Deleting a key from the Map deletes it from the scan and changes nothing else in it. */
  lemma {:induction false} MembersWithout(keys: seq<ClientId>, users: map<ClientId, ActiveUser>, room: string, id: ClientId)
    ensures Members(Without(keys, id), users, room) == Without(Members(keys, users, room), id)
  {
    if keys != [] {
      var init, last := keys[..|keys| - 1], keys[|keys| - 1];
      assert keys == init + [last];
      MembersWithout(init, users, room, id);
      MembersSnoc(init, last, users, room);
      WithoutSnoc(init, last, id);
      if last == id {
        MembersWithoutLast(init, users, room, id);
      } else {
        MembersWithoutOther(init, users, room, id, last);
      }
    }
  }

  lemma {:induction false} MembersWithoutLast(init: seq<ClientId>, users: map<ClientId, ActiveUser>, room: string, id: ClientId)
    requires Members(Without(init, id), users, room) == Without(Members(init, users, room), id)
    ensures Members(Without(init + [id], id), users, room) == Without(Members(init + [id], users, room), id)
  {
    var a := Members(init, users, room);
    WithoutSnoc(init, id, id);
    assert Without(init + [id], id) == Without(init, id);
    MembersSnoc(init, id, users, room);
    WithoutSnoc(a, id, id);
    assert Without(a + [id], id) == Without(a, id);
  }

  lemma {:induction false} MembersWithoutOther(init: seq<ClientId>, users: map<ClientId, ActiveUser>, room: string, id: ClientId, last: ClientId)
    requires last != id
    requires Members(Without(init, id), users, room) == Without(Members(init, users, room), id)
    ensures Members(Without(init + [last], id), users, room) == Without(Members(init + [last], users, room), id)
  {
    var a := Members(init, users, room);
    var w := Without(init, id);
    WithoutSnoc(init, last, id);
    assert Without(init + [last], id) == w + [last];
    MembersSnoc(w, last, users, room);
    MembersSnoc(init, last, users, room);
    if InRoom(users, last, room) {
      WithoutSnoc(a, last, id);
    }
  }

  /** The scan lists members in the Map's key order. */
  lemma {:induction false} MembersOrdered(keys: seq<ClientId>, users: map<ClientId, ActiveUser>, room: string)
    ensures forall i, j :: 0 <= i < j < |Members(keys, users, room)| ==>
      Before(keys, Members(keys, users, room)[i], Members(keys, users, room)[j])
  {
    var ids := Members(keys, users, room);
    if keys != [] {
      var init, last := keys[..|keys| - 1], keys[|keys| - 1];
      assert keys == init + [last];
      var ids0 := Members(init, users, room);
      MembersOrdered(init, users, room);
      MembersSnoc(init, last, users, room);
      forall i, j | 0 <= i < j < |ids| ensures Before(keys, ids[i], ids[j]) {
        if j < |ids0| {
          assert Before(init, ids0[i], ids0[j]);
          var p, q :| 0 <= p < q < |init| && init[p] == ids0[i] && init[q] == ids0[j];
          assert keys[p] == ids[i] && keys[q] == ids[j];
        } else {
          assert ids0[i] in init;
          var p :| 0 <= p < |init| && init[p] == ids0[i];
          assert keys[p] == ids[i] && keys[|keys| - 1] == ids[j];
        }
      }
    }
  }

  /**
   * `getUsersInRoom(room)` returns one username per entry whose rooms contain
   * `room`, in key order: its length is the number of such entries (so two
   * connections with one username give that name twice).
   */
  lemma {:induction false} UsersInRoomIsRoomScan(s: Roster, room: string)
    requires Valid(s)
    ensures var ids := RoomMembers(s, room);
      && (forall id :: id in ids <==> id in s.users && room in s.users[id].rooms)
      && Distinct(ids)
      && (forall i, j :: 0 <= i < j < |ids| ==> Before(s.order, ids[i], ids[j]))
      && |UsersInRoom(s, room)| == |ids| == |set id | id in s.users && room in s.users[id].rooms|
      && (forall k :: 0 <= k < |ids| ==> UsersInRoom(s, room)[k] == s.users[ids[k]].username)
  {
    var ids := RoomMembers(s, room);
    MembersOrdered(s.order, s.users, room);
    DistinctCard(ids);
    assert (set x | x in ids) == (set id | id in s.users && room in s.users[id].rooms);
  }

  /** After a join the joiner is listed in the room, under its stored username. */
  lemma {:induction false} JoinListsJoiner(s: Roster, id: ClientId, username: string, room: string)
    requires Valid(s)
    ensures id in RoomMembers(AddUser(s, id, username, room), room)
    ensures AddUser(s, id, username, room).users[id].username in UsersInRoom(AddUser(s, id, username, room), room)
  {
    var t := AddUser(s, id, username, room);
    var ids := RoomMembers(t, room);
    assert id in t.order && InRoom(t.users, id, room);
    assert id in ids;
    var k :| 0 <= k < |ids| && ids[k] == id;
    assert UsersInRoom(t, room)[k] == t.users[id].username;
  }

  /** A new connection's join appends it to that room's listing and changes no other room's listing. */
  lemma {:induction false} JoinAppendsNewcomer(s: Roster, id: ClientId, username: string, room: string, other: string)
    requires Valid(s)
    requires id !in s.users
    ensures RoomMembers(AddUser(s, id, username, room), other) == if other == room then RoomMembers(s, other) + [id] else RoomMembers(s, other)
  {
    var t := AddUser(s, id, username, room);
    NewcomerFrame(s, t, id);
    MembersAgree(s.order, s.users, t.users, other);
    MembersSnoc(s.order, id, t.users, other);
    var before := Members(s.order, t.users, other);
    assert RoomMembers(t, other) == Members(s.order + [id], t.users, other);
    if other == room {
      assert InRoom(t.users, id, other);
      assert RoomMembers(t, other) == before + [id];
    } else {
      assert !InRoom(t.users, id, other);
      assert RoomMembers(t, other) == before;
    }
  }

  /** ... and so appends its username to that room's username list. */
  lemma {:induction false} JoinAppendsNewcomerName(s: Roster, id: ClientId, username: string, room: string, other: string)
    requires Valid(s)
    requires id !in s.users
    ensures UsersInRoom(AddUser(s, id, username, room), other) == if other == room then UsersInRoom(s, other) + [username] else UsersInRoom(s, other)
  {
    var t := AddUser(s, id, username, room);
    var before := RoomMembers(s, other);
    JoinAppendsNewcomer(s, id, username, room, other);
    NewcomerFrame(s, t, id);
    NamesAgree(s.users, t.users, before);
    if other == room {
      NamesSnoc(t.users, before, id);
    }
  }

  lemma {:induction false} NewcomerFrame(s: Roster, t: Roster, id: ClientId)
    requires Valid(s) && id !in s.users
    requires t.users.Keys == s.users.Keys + {id}
    requires forall other :: other in s.users && other != id ==> t.users[other] == s.users[other]
    ensures forall k :: k in s.order ==> k in s.users && k in t.users && k != id && t.users[k] == s.users[k]
  {
  }

  /** A join changes no other room's listing. */
  lemma {:induction false} JoinKeepsOtherRooms(s: Roster, id: ClientId, username: string, room: string, other: string)
    requires Valid(s)
    requires other != room
    ensures RoomMembers(AddUser(s, id, username, room), other) == RoomMembers(s, other)
  {
    var t := AddUser(s, id, username, room);
    if id !in s.users {
      JoinAppendsNewcomer(s, id, username, room, other);
    } else {
      assert t.order == s.order;
      forall k | k in s.order ensures InRoom(s.users, k, other) == InRoom(t.users, k, other) {
        if k == id {
          assert t.users[id].rooms == s.users[id].rooms + {room};
        }
      }
      MembersAgree(s.order, s.users, t.users, other);
    }
  }

  /** Usernames of ids whose entries are the same in both maps. */
  lemma {:induction false} NamesAgree(u1: map<ClientId, ActiveUser>, u2: map<ClientId, ActiveUser>, ids: seq<ClientId>)
    requires forall id :: id in ids ==> id in u1 && id in u2 && u1[id] == u2[id]
    ensures Names(u1, ids) == Names(u2, ids)
  {
    if ids != [] {
      NamesAgree(u1, u2, ids[..|ids| - 1]);
    }
  }

  /**
   * After a leave the connection is no longer listed in that room and every
   * other room's listing is unchanged (also when the room was never joined).
   */
  lemma {:induction false} LeaveUpdatesOnlyThatRoom(s: Roster, id: ClientId, room: string, other: string)
    requires Valid(s)
    ensures var t := RemoveUserFromRoom(s, id, room).0;
      RoomMembers(t, other) == if other == room then Without(RoomMembers(s, room), id) else RoomMembers(s, other)
  {
    var t := RemoveUserFromRoom(s, id, room).0;
    if other == room {
      var w := Without(s.order, id);
      MembersWithout(s.order, t.users, room, id);
      assert id !in RoomMembers(t, room);
      assert Members(w, t.users, room) == RoomMembers(t, room);
      MembersAgree(w, s.users, t.users, room);
      MembersWithout(s.order, s.users, room, id);
    } else {
      MembersAgree(s.order, s.users, t.users, other);
    }
  }

  /**
   * After a disconnect the connection is listed in no room, every room's
   * listing is otherwise unchanged, and a room it had joined lists one
   * username fewer.
   */
  lemma {:induction false} DisconnectLeavesEveryRoom(s: Roster, id: ClientId, room: string)
    requires Valid(s)
    ensures var t := RemoveUser(s, id);
      && RoomMembers(t, room) == Without(RoomMembers(s, room), id)
      && id !in RoomMembers(t, room)
      && |UsersInRoom(t, room)| == |UsersInRoom(s, room)| - (if InRoom(s.users, id, room) then 1 else 0)
  {
    var t := RemoveUser(s, id);
    MembersAgree(t.order, s.users, t.users, room);
    MembersWithout(s.order, s.users, room, id);
  }

  /** In a room nobody is in, a new connection `a` joining as `alice` makes the room list [alice]. */
  lemma {:induction false} JoinEmptyRoom(s: Roster, a: ClientId, alice: string, room: string)
    requires Valid(s) && RoomMembers(s, room) == [] && a !in s.users
    ensures RoomMembers(AddUser(s, a, alice, room), room) == [a]
    ensures UsersInRoom(AddUser(s, a, alice, room), room) == [alice]
  {
    assert UsersInRoom(s, room) == [];
    JoinAppendsNewcomer(s, a, alice, room, room);
    JoinAppendsNewcomerName(s, a, alice, room, room);
  }

  /**
   * ... then another new connection `b` joining as `bob` makes it list
   * [alice, bob] (both appear even when the two names are equal).
   */
  lemma {:induction false} JoinSecond(s: Roster, a: ClientId, b: ClientId, alice: string, bob: string, room: string)
    requires Valid(s) && RoomMembers(s, room) == [a] && UsersInRoom(s, room) == [alice] && b !in s.users
    ensures RoomMembers(AddUser(s, b, bob, room), room) == [a, b]
    ensures UsersInRoom(AddUser(s, b, bob, room), room) == [alice, bob]
  {
    var t := AddUser(s, b, bob, room);
    JoinAppendsNewcomer(s, b, bob, room, room);
    JoinAppendsNewcomerName(s, b, bob, room, room);
    assert RoomMembers(t, room) == RoomMembers(s, room) + [b] == [a, b];
    assert UsersInRoom(t, room) == UsersInRoom(s, room) + [bob] == [alice, bob];
  }

  /** ... then `a` disconnecting makes it list [bob]. */
  lemma {:induction false} DisconnectFirstOfTwo(s: Roster, a: ClientId, b: ClientId, bob: string, room: string)
    requires Valid(s) && RoomMembers(s, room) == [a, b] && s.users[b].username == bob
    ensures UsersInRoom(RemoveUser(s, a), room) == [bob]
  {
    var t := RemoveUser(s, a);
    DisconnectLeavesEveryRoom(s, a, room);
    var pair := RoomMembers(s, room);
    assert pair[..1] == [a] && [a][..0] == [];
    assert RoomMembers(t, room) == [b];
    assert UsersInRoom(t, room)[0] == bob;
  }
}
