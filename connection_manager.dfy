/**
 * The server's in-memory registry of live websocket connections.
 *
 * Three tables are kept: room -> sockets, socket -> user session, and
 * room -> member ids. `Registry` is their value; its member functions give
 * the effect of each operation, and the lemmas below state what the
 * operations preserve. `ConnectionManager` holds the tables as fields and
 * updates them in place, each method proved equal to its function.
 */
module Connections {
  import opened Wrappers
  import opened Models

  /** A websocket is an opaque identity. */
  type Socket = nat
  type RoomId = string
  type UserId = string

  /** Python truthiness of an `Optional[str]`: neither None nor the empty string. */
  predicate Truthy(room: Option<RoomId>) {
    room.Some? && room.value != ""
  }

  datatype Registry = Registry(
    active: map<RoomId, set<Socket>>,
    sessions: map<Socket, User>,
    members: map<RoomId, set<UserId>>)
  {
    /**
     * The invariant every operation keeps: both room-keyed tables have the
     * same rooms, no room is left without sockets, and every session names a
     * room whose socket set holds its socket.
     */
    ghost predicate Valid() {
      && active.Keys == members.Keys
      && (forall room :: room in active ==> active[room] != {})
      && (forall ws :: ws in sessions ==>
            && sessions[ws].currentRoom.Some?
            && sessions[ws].currentRoom.value in active
            && ws in active[sessions[ws].currentRoom.value])
    }

    /** The user ids of the sessions of `socks`. */
    function IdsOf(socks: set<Socket>): set<UserId> {
      Ids(sessions, socks)
    }

    /**
     * The stronger invariant of the server as it uses the registry (one fresh
     * socket and one fresh user id per connection, non-empty room ids): the
     * sockets of the rooms are exactly the sockets with a session in that
     * room, and a room's members are exactly its sockets' user ids.
     */
    ghost predicate Consistent() {
      Valid() && NamedRooms() && Bound() && MembersMatch() && UniqueIds()
    }

    /** No registered room has the empty id. */
    ghost predicate NamedRooms() {
      forall room :: room in active ==> room != ""
    }

    /** Every socket of a room has a session naming that room. */
    ghost predicate Bound() {
      forall room, ws :: room in active && ws in active[room] ==>
        ws in sessions && sessions[ws].currentRoom == Some(room)
    }

    /** A room's members are the user ids of its sockets. */
    ghost predicate MembersMatch() {
      forall room :: room in active ==> room in members && members[room] == IdsOf(active[room])
    }

    /** No two sessions share a user id. */
    ghost predicate UniqueIds() {
      forall w1, w2 :: w1 in sessions && w2 in sessions && w1 != w2 ==>
        sessions[w1].id != sessions[w2].id
    }

    /**
     * Register `ws` for `user` in `room`, creating the room's entries if absent.
     * Total on every table: where the two room maps disagree on `room` (a
     * state `Valid` excludes, in which the source would reset or miss a key)
     * the missing set is taken as empty.
     */
    function Connect(ws: Socket, user: User, room: RoomId): (r: Registry)
      ensures room in r.active && ws in r.active[room]
      ensures room in r.members && user.id in r.members[room]
      ensures ws in r.sessions && r.sessions[ws] == user.(currentRoom := Some(room))
    {
      var conns := if room in active then active[room] else {};
      var ids := if room in members then members[room] else {};
      Registry(
        active[room := conns + {ws}],
        sessions[ws := user.(currentRoom := Some(room))],
        members[room := ids + {user.id}])
    }

    /**
     * Remove the session of `ws`; when its room is truthy and registered,
     * also drop `ws` and the user id from that room and delete the room
     * from both tables once it has no sockets left. As with `Connect`, a
     * room missing from `members` only (excluded by `Valid`) counts as empty.
     */
    function Disconnect(ws: Socket): (r: Registry)
      ensures ws !in sessions ==> r == this
      ensures r.sessions == sessions - {ws}
    {
      if ws !in sessions then this
      else
        var user := sessions[ws];
        var rest := sessions - {ws};
        if Truthy(user.currentRoom) && user.currentRoom.value in active then
          var room := user.currentRoom.value;
          var conns := active[room] - {ws};
          var ids := (if room in members then members[room] else {}) - {user.id};
          if conns == {} then Registry(active - {room}, rest, members - {room})
          else Registry(active[room := conns], rest, members[room := ids])
        else
          Registry(active, rest, members)
    }

    /** The sockets of `gone` whose sessions a disconnect removes from `room`. */
    function Leaving(gone: set<Socket>, room: RoomId): set<Socket> {
      set ws | ws in gone && ws in sessions && sessions[ws].currentRoom == Some(room) && room != ""
    }

    /** The sockets of a registered room that remain once `gone` are disconnected. */
    function Remaining(gone: set<Socket>, room: RoomId): set<Socket>
      requires room in active
    {
      active[room] - Leaving(gone, room)
    }

    /**
     * The registry after every socket of `gone` has been disconnected, in
     * any order (see DisconnectAllStep): each loses its session, each
     * leaves its session's room, and rooms left empty are deleted.
     */
    function DisconnectAll(gone: set<Socket>): (r: Registry)
      ensures r.active.Keys <= active.Keys
      ensures r.sessions == sessions - gone
    {
      Registry(
        map room | room in active && Remaining(gone, room) != {} :: Remaining(gone, room),
        sessions - gone,
        map room | room in active && room in members && Remaining(gone, room) != {} ::
          members[room] - IdsOf(Leaving(gone, room)))
    }

    /**
     * Broadcasting to `room` when the sends to `failing` raise: nothing
     * happens for an unknown room; otherwise every socket of the room whose
     * send failed is disconnected.
     */
    function Broadcast(room: RoomId, failing: set<Socket>): (r: Registry)
      ensures room !in active ==> r == this
      ensures r.active.Keys <= active.Keys
      ensures room in active ==> r.sessions == sessions - (active[room] * failing)
    {
      if room !in active then this else DisconnectAll(active[room] * failing)
    }

    /** The number of distinct member ids of `room`, 0 for a room that is not registered. */
    function MemberCount(room: RoomId): (n: nat)
      ensures room in members ==> n == |members[room]|
      ensures room !in members ==> n == 0
    {
      if room in members then |members[room]| else 0
    }

    /** Every registered room with its member count. */
    function AllRooms(): (counts: map<RoomId, nat>)
      ensures counts.Keys == members.Keys
      ensures forall room :: room in counts ==> counts[room] == MemberCount(room)
    {
      map room | room in members :: |members[room]|
    }

    /** The session of `ws`, if it has one. */
    function UserInfo(ws: Socket): (u: Option<User>)
      ensures u.Some? <==> ws in sessions
      ensures u.Some? ==> u.value == sessions[ws]
    {
      if ws in sessions then Some(sessions[ws]) else None
    }
  }

  /** The user ids that `sessions` gives the sockets of `socks`. */
  function Ids(sessions: map<Socket, User>, socks: set<Socket>): set<UserId> {
    set ws | ws in socks && ws in sessions :: sessions[ws].id
  }

  /** The tables a fresh manager starts with. */
  const NoConnections := Registry(map[], map[], map[])

  lemma NoConnectionsConsistent()
    ensures NoConnections.Consistent()
  {
  }

  // ---------------------------------------------------------------------
  // connect

  /** Connecting keeps the invariant, and touches no other room or socket. */
  lemma ConnectPreservesValid(reg: Registry, ws: Socket, user: User, room: RoomId)
    requires reg.Valid()
    ensures reg.Connect(ws, user, room).Valid()
    ensures forall q :: q != room ==> (q in reg.Connect(ws, user, room).active <==> q in reg.active)
    ensures forall q :: q != room && q in reg.active ==>
              reg.Connect(ws, user, room).active[q] == reg.active[q] &&
              reg.Connect(ws, user, room).members[q] == reg.members[q]
    ensures forall w :: w != ws && w in reg.sessions ==> reg.Connect(ws, user, room).sessions[w] == reg.sessions[w]
  {
  }

  /** A socket without a session is in no room of a consistent registry. */
  lemma NewSocketInNoRoom(reg: Registry, ws: Socket, q: RoomId)
    requires reg.Bound()
    requires ws !in reg.sessions
    requires q in reg.active
    ensures ws !in reg.active[q]
  {
  }

  /** A socket of a bound registry is in no room but the one its session names. */
  lemma OnlyInOwnRoom(reg: Registry, ws: Socket, q: RoomId)
    requires reg.Bound()
    requires q in reg.active
    requires ws in reg.sessions && reg.sessions[ws].currentRoom != Some(q)
    ensures ws !in reg.active[q]
  {
  }

  /** After a fresh connection, a room's members are still the ids of its sockets. */
  lemma ConnectKeepsMembers(reg: Registry, ws: Socket, user: User, room: RoomId, q: RoomId)
    requires reg.Valid() && reg.Bound() && reg.MembersMatch()
    requires ws !in reg.sessions
    requires q in reg.Connect(ws, user, room).active
    ensures reg.Connect(ws, user, room).members[q] == reg.Connect(ws, user, room).IdsOf(reg.Connect(ws, user, room).active[q])
  {
  }

  /** After a fresh connection, every socket of a room still has a session naming that room. */
  lemma ConnectKeepsBindings(reg: Registry, ws: Socket, user: User, room: RoomId, q: RoomId, w: Socket)
    requires reg.Bound()
    requires ws !in reg.sessions
    requires q in reg.Connect(ws, user, room).active && w in reg.Connect(ws, user, room).active[q]
    ensures w in reg.Connect(ws, user, room).sessions
    ensures reg.Connect(ws, user, room).sessions[w].currentRoom == Some(q)
  {
  }

  /**
   * A connection with a new socket, an unused user id and a non-empty room
   * keeps the registry consistent.
   */
  lemma ConnectPreservesConsistent(reg: Registry, ws: Socket, user: User, room: RoomId)
    requires reg.Consistent()
    requires ws !in reg.sessions
    requires forall w :: w in reg.sessions ==> reg.sessions[w].id != user.id
    requires room != ""
    ensures reg.Connect(ws, user, room).Consistent()
  {
    var r := reg.Connect(ws, user, room);
    ConnectPreservesValid(reg, ws, user, room);
    forall q | q in r.active
      ensures r.members[q] == r.IdsOf(r.active[q])
    {
      ConnectKeepsMembers(reg, ws, user, room, q);
    }
    forall q, w | q in r.active && w in r.active[q]
      ensures w in r.sessions && r.sessions[w].currentRoom == Some(q)
    {
      ConnectKeepsBindings(reg, ws, user, room, q, w);
    }
  }

  /** An id no session has is not among the ids of any sockets. */
  lemma IdsAbsent(sessions: map<Socket, User>, socks: set<Socket>, id: UserId)
    requires forall w :: w in sessions ==> sessions[w].id != id
    ensures id !in Ids(sessions, socks)
  {
  }

  /**
   * Opening and then closing a connection that is new in every respect
   * leaves the registry as it was.
   */
  lemma ConnectThenDisconnect(reg: Registry, ws: Socket, user: User, room: RoomId)
    requires reg.Consistent()
    requires ws !in reg.sessions
    requires forall w :: w in reg.sessions ==> reg.sessions[w].id != user.id
    requires room != ""
    ensures reg.Connect(ws, user, room).Disconnect(ws) == reg
  {
    var c := reg.Connect(ws, user, room);
    var r := c.Disconnect(ws);
    assert c.sessions - {ws} == reg.sessions;
    if room in reg.active {
      NewSocketInNoRoom(reg, ws, room);
      IdsAbsent(reg.sessions, reg.active[room], user.id);
      assert reg.active[room] + {ws} - {ws} == reg.active[room];
      assert reg.members[room] + {user.id} - {user.id} == reg.members[room];
      assert r.active == reg.active;
      assert r.members == reg.members;
    } else {
      assert r.active == reg.active;
      assert r.members == reg.members;
    }
  }

  // ---------------------------------------------------------------------
  // disconnect

  /** Disconnecting keeps the invariant. */
  lemma DisconnectPreservesValid(reg: Registry, ws: Socket)
    requires reg.Valid()
    ensures reg.Disconnect(ws).Valid()
  {
  }

  /**
   * What a disconnect does: the socket loses its session; when its room is
   * truthy the socket leaves the room and the user id leaves its members,
   * and the room is deleted from both tables exactly when the socket was
   * its last one; no other room changes.
   */
  lemma DisconnectEffect(reg: Registry, ws: Socket)
    requires reg.Valid()
    ensures ws !in reg.Disconnect(ws).sessions
    ensures ws in reg.sessions && Truthy(reg.sessions[ws].currentRoom) ==>
              var room := reg.sessions[ws].currentRoom.value;
              (room in reg.Disconnect(ws).active ==>
                 reg.Disconnect(ws).active[room] == reg.active[room] - {ws} &&
                 reg.Disconnect(ws).members[room] == reg.members[room] - {reg.sessions[ws].id}) &&
              (room !in reg.Disconnect(ws).active <==> reg.active[room] == {ws}) &&
              (room !in reg.Disconnect(ws).members <==> reg.active[room] == {ws})
    ensures forall q :: q in reg.Disconnect(ws).active ==> q in reg.active
    ensures forall q ::
              (q in reg.active && (ws !in reg.sessions || !Truthy(reg.sessions[ws].currentRoom) || reg.sessions[ws].currentRoom != Some(q))) ==>
              q in reg.Disconnect(ws).active &&
              reg.Disconnect(ws).active[q] == reg.active[q] &&
              reg.Disconnect(ws).members[q] == reg.members[q]
  {
  }

  /** Removing the session of `ws` removes exactly its id from the ids of a set of sockets with distinct ids. */
  lemma IdsWithout(sessions: map<Socket, User>, socks: set<Socket>, ws: Socket)
    requires ws in sessions
    requires forall w :: w in socks && w in sessions && w != ws ==> sessions[w].id != sessions[ws].id
    ensures Ids(sessions - {ws}, socks) == Ids(sessions, socks) - {sessions[ws].id}
  {
  }

  /** Removing the session of a socket outside `socks` leaves their ids alone. */
  lemma IdsWithoutOther(sessions: map<Socket, User>, socks: set<Socket>, ws: Socket)
    requires ws !in socks
    ensures Ids(sessions - {ws}, socks) == Ids(sessions, socks)
  {
  }

  /** After a disconnect, a room's members are still the ids of its sockets. */
  lemma DisconnectKeepsMembers(reg: Registry, ws: Socket, q: RoomId)
    requires reg.Valid() && reg.NamedRooms() && reg.Bound() && reg.MembersMatch() && reg.UniqueIds()
    requires q in reg.Disconnect(ws).active
    ensures reg.Disconnect(ws).members[q] == reg.Disconnect(ws).IdsOf(reg.Disconnect(ws).active[q])
  {
    var r := reg.Disconnect(ws);
    DisconnectEffect(reg, ws);
    assert q in reg.active;
    if ws in reg.sessions {
      var user := reg.sessions[ws];
      var room := user.currentRoom.value;
      assert r.sessions == reg.sessions - {ws};
      if q == room {
        IdsWithout(reg.sessions, reg.active[q], ws);
        assert Ids(r.sessions, reg.active[q] - {ws}) == Ids(r.sessions, reg.active[q]) by {
          forall id | id in Ids(r.sessions, reg.active[q]) ensures id in Ids(r.sessions, reg.active[q] - {ws}) {
            var w :| w in reg.active[q] && w in r.sessions && r.sessions[w].id == id;
            assert w != ws;
          }
        }
        assert r.active[q] == reg.active[q] - {ws};
        assert r.members[q] == reg.members[q] - {user.id};
      } else {
        OnlyInOwnRoom(reg, ws, q);
        IdsWithoutOther(reg.sessions, reg.active[q], ws);
        assert r.active[q] == reg.active[q] && r.members[q] == reg.members[q];
      }
    }
  }

  /** Disconnecting keeps the registry consistent. */
  lemma DisconnectPreservesConsistent(reg: Registry, ws: Socket)
    requires reg.Consistent()
    ensures reg.Disconnect(ws).Consistent()
  {
    DisconnectPreservesValid(reg, ws);
    DisconnectKeepsNamed(reg, ws);
    DisconnectKeepsBound(reg, ws);
    DisconnectKeepsMatch(reg, ws);
  }

  /** Disconnecting registers no new room. */
  lemma DisconnectKeepsNamed(reg: Registry, ws: Socket)
    requires reg.Valid() && reg.NamedRooms()
    ensures reg.Disconnect(ws).NamedRooms()
  {
  }

  /** Disconnecting keeps every room's sockets bound to it. */
  lemma DisconnectKeepsBound(reg: Registry, ws: Socket)
    requires reg.Valid() && reg.NamedRooms() && reg.Bound()
    ensures reg.Disconnect(ws).Bound()
  {
  }

  /** Disconnecting keeps every room's members equal to its sockets' ids. */
  lemma DisconnectKeepsMatch(reg: Registry, ws: Socket)
    requires reg.Valid() && reg.NamedRooms() && reg.Bound() && reg.MembersMatch() && reg.UniqueIds()
    ensures reg.Disconnect(ws).MembersMatch()
  {
    var r := reg.Disconnect(ws);
    forall q | q in r.active
      ensures q in r.members && r.members[q] == r.IdsOf(r.active[q])
    {
      DisconnectKeepsMembers(reg, ws, q);
    }
  }

  /** A second disconnect of the same socket changes nothing. */
  lemma DisconnectIdempotent(reg: Registry, ws: Socket)
    ensures reg.Disconnect(ws).Disconnect(ws) == reg.Disconnect(ws)
  {
  }

  // ---------------------------------------------------------------------
  // broadcast

  /** Disconnecting nobody changes nothing. */
  lemma DisconnectNone(reg: Registry)
    requires reg.Valid()
    ensures reg.DisconnectAll({}) == reg
  {
    var r := reg.DisconnectAll({});
    forall q | q in reg.active
      ensures reg.Remaining({}, q) == reg.active[q] != {}
      ensures reg.IdsOf(reg.Leaving({}, q)) == {}
    {
      assert reg.Leaving({}, q) == {};
    }
    assert r.active.Keys == reg.active.Keys;
    assert r.active == reg.active;
    assert r.members.Keys == reg.members.Keys;
    forall q | q in r.members ensures r.members[q] == reg.members[q] {
      assert reg.IdsOf(reg.Leaving({}, q)) == {};
    }
    assert r.members == reg.members;
  }

  /** Disconnecting `ws` as well adds it to the leavers of its own room and of no other. */
  lemma LeavingStep(reg: Registry, gone: set<Socket>, ws: Socket, q: RoomId)
    ensures reg.Leaving(gone + {ws}, q) ==
              if ws in reg.sessions && reg.sessions[ws].currentRoom == Some(q) && q != ""
              then reg.Leaving(gone, q) + {ws} else reg.Leaving(gone, q)
  {
  }

  /**
   * Disconnecting one more socket after a set of them gives the closed form
   * for the larger set: the order in which sockets are disconnected does not
   * matter.
   */
  lemma DisconnectAllStep(reg: Registry, gone: set<Socket>, ws: Socket)
    requires reg.Valid()
    requires ws !in gone
    ensures reg.DisconnectAll(gone).Disconnect(ws) == reg.DisconnectAll(gone + {ws})
  {
    if ws in reg.sessions && Truthy(reg.sessions[ws].currentRoom) {
      DisconnectAllStepInRoom(reg, gone, ws);
    } else {
      DisconnectAllStepIdle(reg, gone, ws);
    }
  }

  /** DisconnectAllStep for a socket without a session or without a truthy room. */
  lemma DisconnectAllStepIdle(reg: Registry, gone: set<Socket>, ws: Socket)
    requires ws !in gone
    requires !(ws in reg.sessions && Truthy(reg.sessions[ws].currentRoom))
    ensures reg.DisconnectAll(gone).Disconnect(ws) == reg.DisconnectAll(gone + {ws})
  {
    var s := reg.DisconnectAll(gone);
    var t := reg.DisconnectAll(gone + {ws});
    forall q ensures reg.Leaving(gone + {ws}, q) == reg.Leaving(gone, q) {
      LeavingStep(reg, gone, ws, q);
    }
    assert t.active == s.active;
    assert t.members == s.members;
    assert t.sessions == s.sessions - {ws};
  }

  /** The disconnect of a socket whose session names a truthy, registered room, written out. */
  lemma DisconnectFromRoom(reg: Registry, ws: Socket, room: RoomId, conns: set<Socket>)
    requires ws in reg.sessions && reg.sessions[ws].currentRoom == Some(room) && room != ""
    requires room in reg.active && room in reg.members && conns == reg.active[room] - {ws}
    ensures reg.Disconnect(ws).active == if conns == {} then reg.active - {room} else reg.active[room := conns]
    ensures reg.Disconnect(ws).members ==
              if conns == {} then reg.members - {room}
              else reg.members[room := reg.members[room] - {reg.sessions[ws].id}]
  {
  }

  /** Two maps that agree at every key are equal. */
  lemma MapsAgree<K, V>(m1: map<K, V>, m2: map<K, V>)
    requires forall k :: k in m1 <==> k in m2
    requires forall k :: k in m1 ==> m1[k] == m2[k]
    ensures m1 == m2
  {
  }

  /** One more disconnected socket leaves its own room's remaining sockets and no other's. */
  lemma RemainingStep(reg: Registry, gone: set<Socket>, ws: Socket, q: RoomId)
    requires q in reg.active
    ensures reg.Remaining(gone + {ws}, q) ==
              if ws in reg.sessions && reg.sessions[ws].currentRoom == Some(q) && q != ""
              then reg.Remaining(gone, q) - {ws} else reg.Remaining(gone, q)
  {
  }

  /** The room table of DisconnectAll at one room. */
  lemma ActiveAt(reg: Registry, gone: set<Socket>, q: RoomId)
    ensures q in reg.DisconnectAll(gone).active <==> q in reg.active && reg.Remaining(gone, q) != {}
    ensures q in reg.DisconnectAll(gone).active ==> reg.DisconnectAll(gone).active[q] == reg.Remaining(gone, q)
  {
  }

  /** The member table of DisconnectAll at one room. */
  lemma MembersAt(reg: Registry, gone: set<Socket>, q: RoomId)
    ensures q in reg.DisconnectAll(gone).members <==>
              q in reg.active && q in reg.members && reg.Remaining(gone, q) != {}
    ensures q in reg.DisconnectAll(gone).members ==>
              reg.DisconnectAll(gone).members[q] == reg.members[q] - reg.IdsOf(reg.Leaving(gone, q))
  {
  }

  /** One more socket with a session adds exactly its user id. */
  lemma IdsWith(sessions: map<Socket, User>, socks: set<Socket>, ws: Socket)
    requires ws in sessions
    ensures Ids(sessions, socks + {ws}) == Ids(sessions, socks) + {sessions[ws].id}
  {
  }

  /** DisconnectAllStepInRoom at the room of `ws`. */
  lemma StepAtOwnRoom(reg: Registry, gone: set<Socket>, ws: Socket, room: RoomId)
    requires reg.Valid()
    requires ws !in gone
    requires ws in reg.sessions && reg.sessions[ws].currentRoom == Some(room) && room != ""
    ensures var r := reg.DisconnectAll(gone).Disconnect(ws); var t := reg.DisconnectAll(gone + {ws});
            && (room in t.active <==> room in r.active)
            && (room in t.active ==> t.active[room] == r.active[room])
            && (room in t.members <==> room in r.members)
            && (room in t.members ==> t.members[room] == r.members[room])
  {
    var s := reg.DisconnectAll(gone);
    var user := reg.sessions[ws];
    ActiveAt(reg, gone, room);
    MembersAt(reg, gone, room);
    ActiveAt(reg, gone + {ws}, room);
    MembersAt(reg, gone + {ws}, room);
    LeavingStep(reg, gone, ws, room);
    assert ws in reg.Remaining(gone, room);
    RemainingStep(reg, gone, ws, room);
    IdsWith(reg.sessions, reg.Leaving(gone, room), ws);
    DisconnectFromRoom(s, ws, room, reg.Remaining(gone + {ws}, room));
  }

  /** DisconnectAllStepInRoom at any room other than that of `ws`. */
  lemma StepAtOtherRoom(reg: Registry, gone: set<Socket>, ws: Socket, room: RoomId, q: RoomId)
    requires reg.Valid()
    requires ws !in gone
    requires ws in reg.sessions && reg.sessions[ws].currentRoom == Some(room) && room != ""
    requires q != room
    ensures var r := reg.DisconnectAll(gone).Disconnect(ws); var t := reg.DisconnectAll(gone + {ws});
            && (q in t.active <==> q in r.active)
            && (q in t.active ==> t.active[q] == r.active[q])
            && (q in t.members <==> q in r.members)
            && (q in t.members ==> t.members[q] == r.members[q])
  {
    var s := reg.DisconnectAll(gone);
    ActiveAt(reg, gone, room);
    MembersAt(reg, gone, room);
    LeavingStep(reg, gone, ws, room);
    assert ws in reg.Remaining(gone, room);
    DisconnectFromRoom(s, ws, room, reg.Remaining(gone + {ws}, room));
    ActiveAt(reg, gone, q);
    MembersAt(reg, gone, q);
    ActiveAt(reg, gone + {ws}, q);
    MembersAt(reg, gone + {ws}, q);
    LeavingStep(reg, gone, ws, q);
  }

  /** DisconnectAllStep for a socket whose session names a truthy room. */
  lemma DisconnectAllStepInRoom(reg: Registry, gone: set<Socket>, ws: Socket)
    requires reg.Valid()
    requires ws !in gone
    requires ws in reg.sessions && Truthy(reg.sessions[ws].currentRoom)
    ensures reg.DisconnectAll(gone).Disconnect(ws).active == reg.DisconnectAll(gone + {ws}).active
    ensures reg.DisconnectAll(gone).Disconnect(ws).members == reg.DisconnectAll(gone + {ws}).members
  {
    var r := reg.DisconnectAll(gone).Disconnect(ws);
    var t := reg.DisconnectAll(gone + {ws});
    forall q
      ensures q in t.active <==> q in r.active
      ensures q in t.active ==> t.active[q] == r.active[q]
    {
      StepAt(reg, gone, ws, q);
    }
    MapsAgree(t.active, r.active);
    forall q
      ensures q in t.members <==> q in r.members
      ensures q in t.members ==> t.members[q] == r.members[q]
    {
      StepAt(reg, gone, ws, q);
    }
    MapsAgree(t.members, r.members);
  }

  /** DisconnectAllStepInRoom at one room. */
  lemma StepAt(reg: Registry, gone: set<Socket>, ws: Socket, q: RoomId)
    requires reg.Valid()
    requires ws !in gone
    requires ws in reg.sessions && Truthy(reg.sessions[ws].currentRoom)
    ensures var r := reg.DisconnectAll(gone).Disconnect(ws); var t := reg.DisconnectAll(gone + {ws});
            && (q in t.active <==> q in r.active)
            && (q in t.active ==> t.active[q] == r.active[q])
            && (q in t.members <==> q in r.members)
            && (q in t.members ==> t.members[q] == r.members[q])
  {
    var room := reg.sessions[ws].currentRoom.value;
    if q == room {
      StepAtOwnRoom(reg, gone, ws, room);
    } else {
      StepAtOtherRoom(reg, gone, ws, room, q);
    }
  }

  /** Disconnecting any set of sockets keeps the invariant, and keeps consistency. */
  lemma {:induction false} DisconnectAllPreserves(reg: Registry, gone: set<Socket>)
    requires reg.Valid()
    ensures reg.DisconnectAll(gone).Valid()
    ensures reg.Consistent() ==> reg.DisconnectAll(gone).Consistent()
    decreases |gone|
  {
    if gone == {} {
      DisconnectNone(reg);
    } else {
      var ws :| ws in gone;
      var rest := gone - {ws};
      DisconnectAllPreserves(reg, rest);
      DisconnectAllStep(reg, rest, ws);
      assert rest + {ws} == gone;
      DisconnectPreservesValid(reg.DisconnectAll(rest), ws);
      if reg.Consistent() {
        DisconnectPreservesConsistent(reg.DisconnectAll(rest), ws);
      }
    }
  }

  /** Broadcasting keeps the invariant and consistency. */
  lemma BroadcastPreserves(reg: Registry, room: RoomId, failing: set<Socket>)
    requires reg.Valid()
    ensures reg.Broadcast(room, failing).Valid()
    ensures reg.Consistent() ==> reg.Broadcast(room, failing).Consistent()
  {
    if room in reg.active {
      DisconnectAllPreserves(reg, reg.active[room] * failing);
    }
  }

  /**
   * Every socket of the room whose send succeeded is still registered in
   * the room with its session unchanged, and other rooms whose sockets all
   * stay keep their sockets.
   */
  lemma BroadcastKeepsDelivered(reg: Registry, room: RoomId, failing: set<Socket>)
    requires reg.Valid()
    requires room in reg.active
    ensures forall ws :: ws in reg.active[room] && ws !in failing ==>
              room in reg.Broadcast(room, failing).active &&
              ws in reg.Broadcast(room, failing).active[room]
    ensures forall ws :: ws in reg.sessions && !(ws in reg.active[room] && ws in failing) ==>
              ws in reg.Broadcast(room, failing).sessions &&
              reg.Broadcast(room, failing).sessions[ws] == reg.sessions[ws]
  {
    var gone := reg.active[room] * failing;
    forall ws | ws in reg.active[room] && ws !in failing
      ensures room in reg.Broadcast(room, failing).active
      ensures ws in reg.Broadcast(room, failing).active[room]
    {
      assert ws !in reg.Leaving(gone, room);
      assert ws in reg.Remaining(gone, room);
    }
  }

  /**
   * In a consistent registry a broadcast removes exactly the failed
   * sockets: the room keeps the sockets whose send succeeded (and is
   * deleted if there are none), the failed sockets lose their sessions and
   * their users leave the room's members, and every other room is unchanged.
   */
  lemma BroadcastDropsFailed(reg: Registry, room: RoomId, failing: set<Socket>)
    requires reg.Valid() && reg.NamedRooms() && reg.Bound()
    requires room in reg.active
    ensures var r := reg.Broadcast(room, failing);
      && (reg.active[room] - failing == {} ==> room !in r.active && room !in r.members)
      && (reg.active[room] - failing != {} ==>
            room in r.active && r.active[room] == reg.active[room] - failing &&
            r.members[room] == reg.members[room] - reg.IdsOf(reg.active[room] * failing))
      && (forall q :: q != room && q in reg.active ==> q in r.active && r.active[q] == reg.active[q] && r.members[q] == reg.members[q])
      && (forall q, ws :: q in r.active && ws in r.active[q] ==> !(ws in reg.active[room] && ws in failing))
  {
  }

  // ---------------------------------------------------------------------
  // member counts

  /** Sockets with pairwise distinct user ids have as many ids as sockets. */
  lemma {:induction false} InjectiveIdsSize(reg: Registry, socks: set<Socket>)
    requires socks <= reg.sessions.Keys
    requires forall w1, w2 :: w1 in socks && w2 in socks && w1 != w2 ==> reg.sessions[w1].id != reg.sessions[w2].id
    ensures |reg.IdsOf(socks)| == |socks|
    decreases socks
  {
    if socks != {} {
      var w :| w in socks;
      var rest := socks - {w};
      InjectiveIdsSize(reg, rest);
      assert reg.IdsOf(socks) == reg.IdsOf(rest) + {reg.sessions[w].id};
      assert reg.sessions[w].id !in reg.IdsOf(rest);
    }
  }

  /** In a consistent registry a room's member count is its number of live sockets. */
  lemma MemberCountIsConnectionCount(reg: Registry, room: RoomId)
    requires reg.Valid() && reg.Bound() && reg.MembersMatch() && reg.UniqueIds()
    ensures reg.MemberCount(room) == if room in reg.active then |reg.active[room]| else 0
  {
    if room in reg.active {
      var socks := reg.active[room];
      forall w | w in socks ensures w in reg.sessions {
      }
      InjectiveIdsSize(reg, socks);
      assert reg.members[room] == reg.IdsOf(socks);
    }
  }

  // ---------------------------------------------------------------------

  /** The registry as the server holds it: three tables updated in place. */
  class ConnectionManager {
    /** room id -> sockets connected to it */
    var activeConnections: map<RoomId, set<Socket>>
    /** socket -> the user session it carries */
    var userSessions: map<Socket, User>
    /** room id -> ids of the users in it */
    var roomMembers: map<RoomId, set<UserId>>

    function Abs(): Registry
      reads this
    {
      Registry(activeConnections, userSessions, roomMembers)
    }

    ghost predicate Valid()
      reads this
    {
      Abs().Valid()
    }

    constructor ()
      ensures Valid() && Abs() == NoConnections
    {
      activeConnections := map[];
      userSessions := map[];
      roomMembers := map[];
    }

    /** Adds `websocket` to `roomId` for `user`, recording the room in the user's session. */
    method Connect(websocket: Socket, user: User, roomId: RoomId)
      requires Valid()
      modifies this
      ensures Valid()
      ensures Abs() == old(Abs()).Connect(websocket, user, roomId)
    {
      ghost var before := Abs();
      ghost var conns := if roomId in before.active then before.active[roomId] else {};
      ghost var ids := if roomId in before.members then before.members[roomId] else {};
      if roomId !in activeConnections {
        activeConnections := activeConnections[roomId := {}];
        roomMembers := roomMembers[roomId := {}];
      }
      assert activeConnections[roomId] == conns && roomMembers[roomId] == ids;
      activeConnections := activeConnections[roomId := activeConnections[roomId] + {websocket}];
      roomMembers := roomMembers[roomId := roomMembers[roomId] + {user.id}];
      userSessions := userSessions[websocket := user.(currentRoom := Some(roomId))];
      assert activeConnections == before.active[roomId := conns + {websocket}];
      assert roomMembers == before.members[roomId := ids + {user.id}];
      ConnectPreservesValid(before, websocket, user, roomId);
    }

    /** Removes `websocket` and its session, deleting its room once empty; nothing for an unknown socket. */
    method Disconnect(websocket: Socket)
      requires Valid()
      modifies this
      ensures Valid()
      ensures Abs() == old(Abs()).Disconnect(websocket)
    {
      DisconnectPreservesValid(Abs(), websocket);
      if websocket !in userSessions {
        return;
      }
      var user := userSessions[websocket];
      var roomId := user.currentRoom;
      if Truthy(roomId) && roomId.value in activeConnections {
        var room := roomId.value;
        activeConnections := activeConnections[room := activeConnections[room] - {websocket}];
        roomMembers := roomMembers[room := roomMembers[room] - {user.id}];
        if activeConnections[room] == {} {
          activeConnections := activeConnections - {room};
          roomMembers := roomMembers - {room};
        }
      }
      userSessions := userSessions - {websocket};
    }

    /**
     * Sends `message` to every socket of `roomId`; the sends to `failing`
     * raise. Returns the sockets the message was delivered to, and
     * disconnects the failed ones.
     */
    method BroadcastToRoom(roomId: RoomId, message: Message, failing: set<Socket>) returns (delivered: set<Socket>)
      requires Valid()
      modifies this
      ensures Valid()
      ensures Abs() == old(Abs()).Broadcast(roomId, failing)
      ensures delivered == if roomId in old(activeConnections) then old(activeConnections[roomId]) - failing else {}
    {
      delivered := {};
      if roomId !in activeConnections {
        return;
      }
      var disconnected: set<Socket> := {};
      var pending := activeConnections[roomId];
      ghost var conns := pending;
      while pending != {}
        invariant Abs() == old(Abs())
        invariant pending <= conns
        invariant disconnected == (conns - pending) * failing
        invariant delivered == (conns - pending) - failing
        decreases pending
      {
        var connection :| connection in pending;
        if connection in failing {
          disconnected := disconnected + {connection};
        } else {
          delivered := delivered + {connection};
        }
        pending := pending - {connection};
      }
      DisconnectNone(Abs());
      var rest := disconnected;
      ghost var done: set<Socket> := {};
      while rest != {}
        invariant Valid()
        invariant rest <= disconnected && done == disconnected - rest
        invariant Abs() == old(Abs()).DisconnectAll(done)
        decreases rest
      {
        var connection :| connection in rest;
        DisconnectAllStep(old(Abs()), done, connection);
        Disconnect(connection);
        rest := rest - {connection};
        done := done + {connection};
      }
      assert done == old(activeConnections)[roomId] * failing;
    }

    /** Number of distinct members of `roomId` (0 for an unknown room). */
    function GetRoomMemberCount(roomId: RoomId): (n: nat)
      reads this
      ensures roomId in roomMembers ==> n == |roomMembers[roomId]|
      ensures roomId !in roomMembers ==> n == 0
    {
      Abs().MemberCount(roomId)
    }

    /** The session of `websocket`, or None. */
    function GetUserInfo(websocket: Socket): (u: Option<User>)
      reads this
      ensures u.Some? <==> websocket in userSessions
      ensures u.Some? ==> u.value == userSessions[websocket]
    {
      Abs().UserInfo(websocket)
    }

    /** Every registered room with its member count. */
    function GetAllRooms(): (counts: map<RoomId, nat>)
      reads this
      ensures counts.Keys == roomMembers.Keys
      ensures forall room :: room in counts ==> counts[room] == |roomMembers[room]|
    {
      Abs().AllRooms()
    }
  }
}
