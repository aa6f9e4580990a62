/**
 * The chat server: the room table, startup seeding, the rooms listing, room
 * creation and the websocket endpoint, over the connection registry and the
 * pub/sub manager.
 *
 * The endpoint coroutine interleaves with others at every await, so it is
 * split into its phases: admission (room check, registration, join
 * announcement), one received text frame, and the end of the connection.
 */
module Server {
  import opened Wrappers
  import opened Models
  import opened Connections
  import opened RedisPubSub

  /** The websocket close code for a policy violation, sent for an unknown room. */
  const PolicyViolation: int := 1008
  const RoomNotFound: string := "Room not found"

  /** The username of a client that gives none. */
  const Anonymous: string := "Anonymous"

  const JoinedSuffix: string := " joined the room"
  const LeftSuffix: string := " left the room"

  /** The rooms every server starts with: (id, display name), in table order. */
  const DefaultRooms: seq<(string, string)> := [("general", "General"), ("random", "Random"), ("tech", "Tech Talk")]

  /** The Redis URL from the REDIS_HOST and REDIS_PORT settings, each with its default. */
  function RedisUrl(host: Option<string>, port: Option<string>): (url: string)
    ensures url == "redis://" + host.GetOr("localhost") + ":" + port.GetOr("6379")
    ensures host.None? && port.None? ==> url == DefaultRedisUrl
  {
    "redis://" + host.GetOr("localhost") + ":" + port.GetOr("6379")
  }

  /** The username query parameter, "Anonymous" when it is missing. */
  function UsernameOf(query: Option<string>): (name: string)
    ensures query.None? ==> name == Anonymous
    ensures query.Some? ==> name == query.value
  {
    query.GetOr(Anonymous)
  }

  // ---------------------------------------------------------------------
  // messages

  /** One admitted connection: its socket, the fresh user id, the username and the room. */
  datatype Session = Session(socket: Socket, userId: string, username: string, roomId: string)

  /** The join announcement: "<username> joined the room", typed Join. */
  function JoinMessage(s: Session, at: Timestamp): (m: Message)
    ensures m.userId == s.userId && m.username == s.username && m.roomId == s.roomId
    ensures m.content == s.username + " joined the room"
    ensures m.messageType == Join && m.timestamp == at
  {
    Message(s.userId, s.username, s.roomId, s.username + JoinedSuffix, Join, timestamp := at)
  }

  /** The leave announcement: "<username> left the room", typed Leave. */
  function LeaveMessage(s: Session, at: Timestamp): (m: Message)
    ensures m.userId == s.userId && m.username == s.username && m.roomId == s.roomId
    ensures m.content == s.username + " left the room"
    ensures m.messageType == Leave && m.timestamp == at
  {
    Message(s.userId, s.username, s.roomId, s.username + LeftSuffix, Leave, timestamp := at)
  }

  /** A received text frame, as a chat message carrying the frame unchanged. */
  function ChatMessage(s: Session, data: string, at: Timestamp): (m: Message)
    ensures m.userId == s.userId && m.username == s.username && m.roomId == s.roomId
    ensures m.content == data
    ensures m.messageType == Chat && m.timestamp == at
  {
    Message(s.userId, s.username, s.roomId, data, Chat, timestamp := at)
  }

  /**
   * The three messages of a session tell apart who sent them and what
   * happened: each names the session's user and room, their types differ,
   * and a join announcement never reads like a leave announcement, whatever
   * the two usernames.
   */
  lemma AnnouncementsDistinct(s: Session, t: Session, data: string, at: Timestamp, at2: Timestamp)
    ensures JoinMessage(s, at).content != LeaveMessage(t, at2).content
    ensures JoinMessage(s, at).messageType != LeaveMessage(t, at2).messageType
    ensures ChatMessage(s, data, at).messageType !in {JoinMessage(s, at).messageType, LeaveMessage(s, at).messageType}
    ensures forall m :: m in {JoinMessage(s, at), LeaveMessage(s, at), ChatMessage(s, data, at)} ==>
              m.userId == s.userId && m.username == s.username && m.roomId == s.roomId
  {
    var j := JoinMessage(s, at).content;
    var l := LeaveMessage(t, at2).content;
    // " joined the room" and " left the room" differ ten characters from the end: 'd' against 't'.
    assert j[|j| - 10] == JoinedSuffix[|JoinedSuffix| - 10] == 'd';
    assert l[|l| - 10] == LeftSuffix[|LeftSuffix| - 10] == 't';
  }

  /** The announcement's text determines the username it names. */
  lemma AnnouncementNamesUser(s: Session, t: Session, at: Timestamp, at2: Timestamp)
    ensures JoinMessage(s, at).content == JoinMessage(t, at2).content ==> s.username == t.username
    ensures LeaveMessage(s, at).content == LeaveMessage(t, at2).content ==> s.username == t.username
  {
    if JoinMessage(s, at).content == JoinMessage(t, at2).content {
      assert s.username == JoinMessage(s, at).content[..|s.username|];
    }
    if LeaveMessage(s, at).content == LeaveMessage(t, at2).content {
      assert s.username == LeaveMessage(s, at).content[..|s.username|];
    }
  }

  // ---------------------------------------------------------------------
  // the room table

  /**
   * A well-formed room table: `order` lists its keys without repetition
   * (the dict's insertion order), every room is stored under its own id
   * with a zero count, and no room has the empty id.
   */
  ghost predicate RoomTable(db: map<string, Room>, order: seq<string>) {
    && (forall i, j :: 0 <= i < j < |order| ==> order[i] != order[j])
    && (forall id :: id in db <==> id in order)
    && (forall id :: id in db ==> db[id].id == id && db[id].memberCount == 0)
    && "" !in db
  }

  /** The count `get_rooms` reports for a room: its entry in `counts`, or 0. */
  function CountOr0(counts: map<string, nat>, id: string): nat {
    if id in counts then counts[id] else 0
  }

  /** The rooms listing: each room of the table, in table order, with its live count. */
  function Listing(db: map<string, Room>, order: seq<string>, counts: map<string, nat>): (rooms: seq<Room>)
    requires forall i :: 0 <= i < |order| ==> order[i] in db
    ensures |rooms| == |order|
    ensures forall i :: 0 <= i < |order| ==>
              rooms[i] == db[order[i]].(memberCount := CountOr0(counts, order[i]))
  {
    if order == [] then []
    else
      var id := order[|order| - 1];
      Listing(db, order[..|order| - 1], counts) + [db[id].(memberCount := CountOr0(counts, id))]
  }

  /**
   * In a well-formed table the listing has one entry per room, stored under
   * its id with its name and creation time, and in a consistent registry
   * each entry's count is the number of sockets connected to that room.
   */
  lemma ListingCountsConnections(db: map<string, Room>, order: seq<string>, reg: Registry, i: int)
    requires RoomTable(db, order)
    requires reg.Valid() && reg.Bound() && reg.MembersMatch() && reg.UniqueIds()
    requires 0 <= i < |order|
    ensures |Listing(db, order, reg.AllRooms())| == |db|
    ensures Listing(db, order, reg.AllRooms())[i].id == order[i]
    ensures Listing(db, order, reg.AllRooms())[i].name == db[order[i]].name
    ensures Listing(db, order, reg.AllRooms())[i].createdAt == db[order[i]].createdAt
    ensures Listing(db, order, reg.AllRooms())[i].memberCount ==
              if order[i] in reg.active then |reg.active[order[i]]| else 0
  {
    DistinctSize(db, order);
    MemberCountIsConnectionCount(reg, order[i]);
  }

  /** The elements of a list of ids. */
  function Elems(order: seq<string>): set<string> {
    set i | 0 <= i < |order| :: order[i]
  }

  /** A repetition-free list of a table's keys is as long as the table. */
  lemma DistinctSize(db: map<string, Room>, order: seq<string>)
    requires forall i, j :: 0 <= i < j < |order| ==> order[i] != order[j]
    requires forall id :: id in db <==> id in order
    ensures |order| == |db|
  {
    assert Elems(order) == db.Keys;
    DistinctCard(order);
  }

  /** A sequence without repetition has as many distinct elements as it is long. */
  lemma {:induction false} DistinctCard(order: seq<string>)
    requires forall i, j :: 0 <= i < j < |order| ==> order[i] != order[j]
    ensures |Elems(order)| == |order|
    decreases |order|
  {
    if order != [] {
      var init := order[..|order| - 1];
      DistinctCard(init);
      var last := order[|order| - 1];
      forall x | x in Elems(order) ensures x in Elems(init) + {last} {
        var i :| 0 <= i < |order| && order[i] == x;
        if i < |init| {
          assert init[i] == x;
        }
      }
      forall x | x in Elems(init) + {last} ensures x in Elems(order) {
        if x != last {
          var i :| 0 <= i < |init| && init[i] == x;
          assert order[i] == x;
        }
      }
      assert Elems(order) == Elems(init) + {last};
      assert last !in Elems(init);
    }
  }

  /** The table after storing each of `defaults` in turn, every room created at `now`. */
  function Seeded(db: map<string, Room>, defaults: seq<(string, string)>, now: Timestamp): map<string, Room>
    decreases |defaults|
  {
    if defaults == [] then db
    else
      var (id, name) := defaults[|defaults| - 1];
      Seeded(db, defaults[..|defaults| - 1], now)[id := Room(id, name, createdAt := now)]
  }

  /** The key order after storing each of `defaults` in turn: new keys go to the end. */
  function SeededOrder(order: seq<string>, defaults: seq<(string, string)>): seq<string>
    decreases |defaults|
  {
    if defaults == [] then order
    else
      var id := defaults[|defaults| - 1].0;
      var before := SeededOrder(order, defaults[..|defaults| - 1]);
      if id in before then before else before + [id]
  }

  /**
   * Seeding the default rooms stores each of them as created at `now`,
   * adds exactly their ids, leaves every other room alone, and on an
   * empty table lists them in declaration order.
   */
  lemma SeedEffect(db: map<string, Room>, order: seq<string>, now: Timestamp)
    ensures forall k :: 0 <= k < |DefaultRooms| ==>
              DefaultRooms[k].0 in Seeded(db, DefaultRooms, now) &&
              Seeded(db, DefaultRooms, now)[DefaultRooms[k].0] == Room(DefaultRooms[k].0, DefaultRooms[k].1, createdAt := now)
    ensures Seeded(db, DefaultRooms, now).Keys == db.Keys + {"general", "random", "tech"}
    ensures forall id :: id in db && id !in {"general", "random", "tech"} ==>
              Seeded(db, DefaultRooms, now)[id] == db[id]
    ensures order == [] ==> SeededOrder(order, DefaultRooms) == ["general", "random", "tech"]
  {
    var g := Room("general", "General", createdAt := now);
    var r := Room("random", "Random", createdAt := now);
    var t := Room("tech", "Tech Talk", createdAt := now);
    var d1, d2 := DefaultRooms[..1], DefaultRooms[..2];
    assert d1[..0] == [] && d2[..1] == d1 && DefaultRooms[..2] == d2;
    assert Seeded(db, d1, now) == db["general" := g];
    assert Seeded(db, d2, now) == db["general" := g]["random" := r];
    assert Seeded(db, DefaultRooms, now) == db["general" := g]["random" := r]["tech" := t];
    if order == [] {
      assert SeededOrder(order, d1) == ["general"];
      assert SeededOrder(order, d2) == ["general", "random"];
    }
  }

  // ---------------------------------------------------------------------
  // the server

  /** Whether a connection was ended by the client or by an error. */
  datatype Ending = ClientLeft | Failed

  /** The outcome of opening a websocket to a room. */
  datatype Admission = Rejected(code: int, reason: string) | Admitted(session: Session)

  /** The server's module state: the room table with its order, the registry and the pub/sub manager. */
  class App {
    var roomsDb: map<string, Room>
    /** the keys of `roomsDb` in insertion order */
    var roomOrder: seq<string>
    const manager: ConnectionManager
    const redis: RedisManager

    /**
     * The table is well formed, the registry is consistent, and every room
     * with live connections is a room of the table.
     */
    ghost predicate Valid()
      reads this, manager, redis
    {
      && RoomTable(roomsDb, roomOrder)
      && manager.Abs().Consistent()
      && manager.activeConnections.Keys <= roomsDb.Keys
      && redis.Valid()
    }

    /** A server with an empty room table and registry, using the configured Redis URL. */
    constructor (redisHost: Option<string>, redisPort: Option<string>)
      ensures Valid()
      ensures roomsDb == map[] && roomOrder == []
      ensures manager.Abs() == NoConnections
      ensures fresh(manager) && fresh(redis)
      ensures redis.redisUrl == RedisUrl(redisHost, redisPort)
      ensures !redis.hasClient && !redis.hasPubSub && !redis.hasHandler && !redis.hasListenerTask
      ensures redis.published == [] && redis.subscriptions == {}
    {
      roomsDb := map[];
      roomOrder := [];
      manager := new ConnectionManager();
      redis := new RedisManager(RedisUrl(redisHost, redisPort));
      NoConnectionsConsistent();
    }

    /** `rooms_db[id] = room`, keeping the insertion order. */
    method PutRoom(id: string, room: Room)
      requires RoomTable(roomsDb, roomOrder)
      requires room.id == id && room.memberCount == 0 && id != ""
      modifies this`roomsDb, this`roomOrder
      ensures RoomTable(roomsDb, roomOrder)
      ensures roomsDb == old(roomsDb)[id := room]
      ensures roomOrder == if id in old(roomsDb) then old(roomOrder) else old(roomOrder) + [id]
    {
      if id !in roomsDb {
        roomOrder := roomOrder + [id];
      }
      roomsDb := roomsDb[id := room];
    }

    /**
     * Startup: connect to Redis (a failure aborts startup before anything
     * else happens), install the handler, start the listener and seed the
     * default rooms created at `now`. `previousTaskDone` tells whether the
     * listener task of an earlier startup, if any, has finished.
     */
    method Startup(redisReachable: bool, previousTaskDone: bool, now: Timestamp) returns (ok: bool)
      requires Valid()
      modifies this`roomsDb, this`roomOrder, redis
      ensures Valid()
      ensures ok == redisReachable
      ensures unchanged(redis`redisUrl, redis`published)
      ensures redis.subscriptions == if ok then {} else old(redis.subscriptions)
      ensures !ok ==> roomsDb == old(roomsDb) && roomOrder == old(roomOrder) && unchanged(redis)
      ensures ok ==> redis.hasClient && redis.hasPubSub && redis.hasHandler && redis.hasListenerTask
      ensures ok ==>
                redis.tasksCreated == old(redis.tasksCreated) + (if !old(redis.hasListenerTask) || previousTaskDone then 1 else 0)
      ensures ok ==> forall k :: 0 <= k < |DefaultRooms| ==>
                DefaultRooms[k].0 in roomsDb &&
                roomsDb[DefaultRooms[k].0] == Room(DefaultRooms[k].0, DefaultRooms[k].1, createdAt := now)
      ensures ok ==> roomsDb.Keys == old(roomsDb).Keys + {"general", "random", "tech"}
      ensures ok ==> forall id :: id in old(roomsDb) && id !in {"general", "random", "tech"} ==>
                roomsDb[id] == old(roomsDb)[id]
      ensures ok ==> roomOrder == SeededOrder(old(roomOrder), DefaultRooms)
      ensures ok && old(roomsDb) == map[] ==> roomOrder == ["general", "random", "tech"]
    {
      ok := StartPubSub(redisReachable, previousTaskDone);
      if !ok {
        return;
      }
      ghost var db0, order0 := roomsDb, roomOrder;
      if order0 != [] {
        assert order0[0] in db0;
      }
      SeedDefaultRooms(now);
      SeedEffect(db0, order0, now);
    }

    /** The Redis half of startup: connect, then install the handler and start the listener task. */
    method StartPubSub(redisReachable: bool, previousTaskDone: bool) returns (ok: bool)
      requires redis.Valid()
      modifies redis
      ensures redis.Valid()
      ensures ok == redisReachable
      ensures unchanged(redis`redisUrl, redis`published)
      ensures redis.subscriptions == if ok then {} else old(redis.subscriptions)
      ensures !ok ==> unchanged(redis)
      ensures ok ==> redis.hasClient && redis.hasPubSub && redis.hasHandler && redis.hasListenerTask
      ensures ok ==>
                redis.tasksCreated == old(redis.tasksCreated) + (if !old(redis.hasListenerTask) || previousTaskDone then 1 else 0)
    {
      ok := redis.Connect(redisReachable);
      if !ok {
        return;
      }
      redis.SetMessageHandler();
      var _ := redis.StartListenerTask(previousTaskDone);
    }

    /** The seeding loop of startup: every default room is (re)stored, created at `now`. */
    method SeedDefaultRooms(now: Timestamp)
      requires RoomTable(roomsDb, roomOrder)
      modifies this`roomsDb, this`roomOrder
      ensures RoomTable(roomsDb, roomOrder)
      ensures roomsDb == Seeded(old(roomsDb), DefaultRooms, now)
      ensures roomOrder == SeededOrder(old(roomOrder), DefaultRooms)
    {
      ghost var db0, order0 := roomsDb, roomOrder;
      var i := 0;
      while i < |DefaultRooms|
        invariant 0 <= i <= |DefaultRooms|
        invariant RoomTable(roomsDb, roomOrder)
        invariant roomsDb == Seeded(db0, DefaultRooms[..i], now)
        invariant roomOrder == SeededOrder(order0, DefaultRooms[..i])
      {
        var (id, name) := DefaultRooms[i];
        PutRoom(id, Room(id, name, createdAt := now));
        assert DefaultRooms[..i + 1][..i] == DefaultRooms[..i];
        i := i + 1;
      }
      assert DefaultRooms[..i] == DefaultRooms;
    }

    /** `get_rooms`: the listing of the table with the registry's counts; nothing changes. */
    method GetRooms() returns (rooms: seq<Room>)
      requires RoomTable(roomsDb, roomOrder)
      ensures rooms == Listing(roomsDb, roomOrder, manager.Abs().AllRooms())
    {
      var counts := manager.GetAllRooms();
      rooms := [];
      var i := 0;
      while i < |roomOrder|
        invariant 0 <= i <= |roomOrder|
        invariant rooms == Listing(roomsDb, roomOrder[..i], counts)
      {
        var id := roomOrder[i];
        var room := roomsDb[id];
        var count := if id in counts then counts[id] else 0;
        rooms := rooms + [room.(memberCount := count)];
        assert roomOrder[..i + 1][..i] == roomOrder[..i];
        i := i + 1;
      }
      assert roomOrder[..i] == roomOrder;
    }

    /**
     * `create_room`: stores a room named as requested under the fresh id
     * `freshId` (created at `now`) and returns it; every other room stays.
     */
    method CreateRoom(request: CreateRoomRequest, freshId: string, now: Timestamp) returns (room: Room)
      requires Valid()
      requires freshId !in roomsDb && freshId != ""
      modifies this`roomsDb, this`roomOrder
      ensures Valid()
      ensures room == Room(freshId, request.name, createdAt := now)
      ensures roomsDb == old(roomsDb)[freshId := room]
      ensures roomOrder == old(roomOrder) + [freshId]
    {
      room := Room(freshId, request.name, createdAt := now);
      PutRoom(freshId, room);
    }

    /**
     * The endpoint's admission phase for socket `ws` asking for `roomId`:
     * an unknown room is refused with close code 1008 and nothing is
     * registered; otherwise the socket is registered under a user with the
     * fresh id `freshUserId`, the server subscribes to the room's channel
     * and publishes the join announcement.
     */
    method AcceptConnection(ws: Socket, roomId: string, usernameQuery: Option<string>, freshUserId: string, now: Timestamp)
      returns (outcome: Admission)
      requires Valid()
      requires ws !in manager.userSessions
      requires forall w :: w in manager.userSessions ==> manager.userSessions[w].id != freshUserId
      modifies manager, redis`subscriptions, redis`published
      ensures Valid()
      ensures roomId !in roomsDb ==>
                && outcome == Rejected(PolicyViolation, RoomNotFound)
                && manager.Abs() == old(manager.Abs())
                && redis.subscriptions == old(redis.subscriptions)
                && redis.published == old(redis.published)
      ensures roomId in roomsDb ==>
                var session := Session(ws, freshUserId, UsernameOf(usernameQuery), roomId);
                && outcome == Admitted(session)
                && manager.Abs() == old(manager.Abs()).Connect(ws, User(freshUserId, session.username, Some(roomId)), roomId)
                && redis.subscriptions == (if redis.hasPubSub then old(redis.subscriptions) + {ChannelFor(roomId)} else old(redis.subscriptions))
                && redis.published == (if redis.hasClient then old(redis.published) + [(ChannelFor(roomId), JoinMessage(session, now))] else old(redis.published))
    {
      var username := UsernameOf(usernameQuery);
      var user := User(freshUserId, username, Some(roomId));
      if roomId !in roomsDb {
        return Rejected(PolicyViolation, RoomNotFound);
      }
      ConnectPreservesConsistent(manager.Abs(), ws, user, roomId);
      manager.Connect(ws, user, roomId);
      redis.SubscribeToRoom(roomId);
      var session := Session(ws, freshUserId, username, roomId);
      redis.PublishMessage(roomId, JoinMessage(session, now));
      outcome := Admitted(session);
    }

    /** One text frame `data` from an admitted connection: published as a chat message. */
    method ReceiveFrame(session: Session, data: string, now: Timestamp)
      requires Valid()
      modifies redis`published
      ensures Valid()
      ensures redis.published ==
                if redis.hasClient then old(redis.published) + [(ChannelFor(session.roomId), ChatMessage(session, data, now))]
                else old(redis.published)
    {
      redis.PublishMessage(session.roomId, ChatMessage(session, data, now));
    }

    /**
     * The end of a connection: the socket is disconnected, and only when
     * the client went away (not on an error) the leave announcement is
     * published.
     */
    method EndConnection(session: Session, ending: Ending, now: Timestamp)
      requires Valid()
      modifies manager, redis`published
      ensures Valid()
      ensures manager.Abs() == old(manager.Abs()).Disconnect(session.socket)
      ensures redis.published ==
                if ending == ClientLeft && redis.hasClient
                then old(redis.published) + [(ChannelFor(session.roomId), LeaveMessage(session, now))]
                else old(redis.published)
    {
      DisconnectPreservesConsistent(manager.Abs(), session.socket);
      DisconnectEffect(manager.Abs(), session.socket);
      manager.Disconnect(session.socket);
      if ending == ClientLeft {
        redis.PublishMessage(session.roomId, LeaveMessage(session, now));
      }
    }

    /**
     * The pub/sub handler: a message for `roomId` read from Redis is
     * broadcast to the room's local sockets, the sends to `failing` raising.
     */
    method HandleRedisMessage(roomId: string, message: Message, failing: set<Socket>) returns (delivered: set<Socket>)
      requires Valid()
      modifies manager
      ensures Valid()
      ensures manager.Abs() == old(manager.Abs()).Broadcast(roomId, failing)
      ensures delivered == if roomId in old(manager.activeConnections) then old(manager.activeConnections[roomId]) - failing else {}
    {
      BroadcastPreserves(manager.Abs(), roomId, failing);
      delivered := manager.BroadcastToRoom(roomId, message, failing);
    }
  }
}
