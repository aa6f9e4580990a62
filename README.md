# Chat backend: connection registry, pub/sub bridge and room endpoints

A Dafny model of the server side of a multi-room websocket chat. It covers:

- the in-memory **connection registry** (`ConnectionManager`). It keeps three tables: room → sockets, socket → user session, and room → member ids. It offers connect, disconnect with clean-up of emptied rooms, a broadcast that drops every socket whose send failed, and the count queries;
- the **wire records** (`MessageType`, `Message`, `Room`, `User` and the request bodies) with their defaults;
- the **Redis pub/sub bridge** (`RedisManager`):
  - channel naming `room:<id>` and parsing back after the first `:`;
  - the listener's filtering of entries;
  - the guards that make publish and subscribe do nothing without a client;
  - the listener-task guard;
- the **server module**:
  - the room table in insertion order;
  - the seeding of the default rooms at startup;
  - `get_rooms`, which merges the live counts into copies;
  - `create_room`;
  - the websocket endpoint: the room check with close code 1008, registration, subscription, and the join, chat and leave messages.

Files:

| file | module | contents |
|---|---|---|
| `wrappers.dfy` | `Wrappers` | `Option` |
| `models.dfy` | `Models` | the records and the message-type wire names |
| `connection_manager.dfy` | `Connections` | `Registry`, a value form of the three tables, with its operations and invariants; class `ConnectionManager`, whose methods update the three map fields in place and are proved equal to the `Registry` operations |
| `redis_manager.dfy` | `RedisPubSub` | channel functions, the listener as a fold over received entries, and class `RedisManager` |
| `main.dfy` | `Server` | message construction, the room table, and class `App` with startup and the endpoints |

Modelling choices:

- **Sockets** are opaque identities (`nat`).
- **Send failures** during a broadcast are given as the set `failing` of sockets whose `send_text` raises.
- **Environment values** are parameters:
  - fresh ids (uuid4) and the current time are passed in, and fresh ids carry a freshness precondition;
  - reachability of Redis is a boolean;
  - the entries the pub/sub listener receives are a sequence;
  - whether the previous listener task is done is a boolean.
- **Redis's effects** are recorded in two fields of `RedisManager`: `published`, the sequence of (channel, message) pairs handed to PUBLISH, and `subscriptions`, the set of subscribed channels.
- **The endpoint coroutine** runs interleaved with others at every `await`, so `App` models it in phases. `AcceptConnection` covers the room check, registration, subscription and the join announcement. `ReceiveFrame` covers one text frame. `EndConnection` covers the two exception handlers.
- **The registry's invariants.** `Registry.Valid` states the invariants of the tables alone, and every operation keeps it for any arguments:
  - both room maps have the same keys;
  - no room has an empty socket set;
  - every session's socket is in its session's room.

  `Registry.Consistent` adds:
  - the sockets of a room are exactly the sockets whose session names it;
  - a room's members are exactly those sessions' user ids;
  - user ids are unique;
  - room ids are non-empty.

  These hold because the server connects each fresh socket under a freshly generated user id. Under `Consistent`, disconnect removes exactly one member, and a room's member count equals its number of connections.
- **Disconnect reads the session's room with Python truthiness.** A session whose `current_room` is `None` or `""` removes no socket (`Connections.Truthy`).

## Model

| member | source | states |
|---|---|---|
| Models.WireName | backend/models.py:7-13 | every message type's wire string is one of the five enum values `chat`, `join`, `leave`, `typing` and `system` |
| Models.ParseMessageType | backend/models.py:7-13 | a wire string is accepted exactly when some message type has that wire name, and then it is that type |
| Models.WireNameRoundTrip | backend/models.py:7-13 | parsing the wire name of each of the five message types gives that type back |
| Models.WireNameInjective | backend/models.py:9-13 | the five wire strings are pairwise distinct |
| Models.RecordDefaults | backend/models.py:28-73 | a message built without a type is a chat message; a room built without a count has count 0; a user built without a room has no current room |
| Connections.Registry.Connect | backend/connection_manager.py:43-53 | after connect, the socket is in the room's socket set, the user id is in the room's members, and the socket's session is the user with its current room set to the room |
| Connections.Registry.Disconnect | backend/connection_manager.py:57-81 | disconnecting a socket without a session changes nothing; otherwise exactly that session is deleted |
| Connections.Registry.DisconnectAll | backend/connection_manager.py:109-111 | disconnecting a set of sockets deletes exactly their sessions and never adds a room |
| Connections.Registry.Broadcast | backend/connection_manager.py:93-111 | a broadcast to an unregistered room changes nothing; otherwise exactly the sessions of the room's failing sockets are deleted |
| Connections.Registry.MemberCount | backend/connection_manager.py:123 | the size of the room's member set, 0 for an unknown room |
| Connections.Registry.AllRooms | backend/connection_manager.py:144-147 | one entry per member-table room, holding that room's member count |
| Connections.Registry.UserInfo | backend/connection_manager.py:135 | the session of the socket exactly when it has one |
| Connections.NoConnectionsConsistent | backend/connection_manager.py:21-29 | the empty tables satisfy both invariants |
| Connections.ConnectPreservesValid | backend/connection_manager.py:43-53 | connect keeps the table invariants and leaves every other room's sets and every other socket's session unchanged |
| Connections.ConnectPreservesConsistent | backend/connection_manager.py:43-53 | connecting a fresh socket under a fresh user id to a named room keeps the full consistency invariant |
| Connections.ConnectThenDisconnect | backend/connection_manager.py:43-81 | disconnecting a freshly connected socket restores the tables exactly, including deleting a room that the connect created |
| Connections.DisconnectPreservesValid | backend/connection_manager.py:64-81 | disconnect keeps the table invariants for any socket: the two room maps keep equal keys, and an emptied room is deleted from both |
| Connections.DisconnectEffect | backend/connection_manager.py:67-81 | disconnect removes the socket from its room's set and its user id from the room's members; the room is deleted from both maps exactly when the socket was its last one; every other room, including every room when the session's room is `None` or `""`, is unchanged |
| Connections.DisconnectPreservesConsistent | backend/connection_manager.py:67-81 | disconnect keeps the full consistency invariant |
| Connections.DisconnectIdempotent | backend/connection_manager.py:64-65 | disconnecting twice is the same as disconnecting once |
| Connections.DisconnectNone | backend/connection_manager.py:109-111 | a clean-up with nothing to disconnect changes nothing |
| Connections.DisconnectAllStep | backend/connection_manager.py:110-111 | disconnecting one more socket after a set of others gives the result of disconnecting them all together, so the clean-up loop's order does not matter |
| Connections.DisconnectAllPreserves | backend/connection_manager.py:109-111 | disconnecting any set of sockets keeps both invariants |
| Connections.BroadcastPreserves | backend/connection_manager.py:85-111 | a broadcast keeps both invariants |
| Connections.BroadcastKeepsDelivered | backend/connection_manager.py:101-111 | every socket of the room whose send succeeded is still in the room, and every session outside the failed sends is untouched |
| Connections.BroadcastDropsFailed | backend/connection_manager.py:101-111 | the room keeps exactly its non-failing sockets and loses exactly the failed sockets' user ids; it is deleted when all sends failed; other rooms are unchanged; no failed socket remains in any room |
| Connections.MemberCountIsConnectionCount | backend/connection_manager.py:113-123 | in a consistent registry a room's member count is its number of live connections |
| Connections.ConnectionManager.constructor | backend/connection_manager.py:21-29 | the three tables start empty |
| Connections.ConnectionManager.Connect | backend/connection_manager.py:31-55 | the fields become the registry after `Connect`, and the table invariants are kept |
| Connections.ConnectionManager.Disconnect | backend/connection_manager.py:57-83 | the fields become the registry after `Disconnect`, and the table invariants are kept |
| Connections.ConnectionManager.BroadcastToRoom | backend/connection_manager.py:85-111 | the fields become the registry after `Broadcast`; the sockets reached are the room's sockets outside `failing` (none for an unknown room) |
| Connections.ConnectionManager.GetRoomMemberCount | backend/connection_manager.py:113-123 | the size of the room's member set, 0 when absent |
| Connections.ConnectionManager.GetUserInfo | backend/connection_manager.py:125-135 | the socket's session, or None exactly when it has none |
| Connections.ConnectionManager.GetAllRooms | backend/connection_manager.py:137-147 | maps every member-table room to the size of its member set |
| RedisPubSub.ChannelFor | backend/redis_manager.py:76 | the channel is `room:` followed by the room id |
| RedisPubSub.SplitOnce | backend/redis_manager.py:144 | one part (the whole string) when there is no colon; otherwise two parts split at the first colon, the first part colon-free |
| RedisPubSub.RoomOfChannel | backend/redis_manager.py:143-144 | a channel without a colon has no room, because taking the second part of the split raises |
| RedisPubSub.FirstColonUnique | backend/redis_manager.py:144 | a split at a first colon is unique |
| RedisPubSub.ChannelRoundTrip | backend/redis_manager.py:143-144 | parsing the channel of any room id gives the id back, even when the id contains colons |
| RedisPubSub.ChannelForInjective | backend/redis_manager.py:76 | distinct rooms get distinct channels |
| RedisPubSub.Handle | backend/redis_manager.py:140-152 | an entry reaches the handler exactly when its type is `message`, its channel has a colon and its payload decodes; the handler then gets the parsed room and the message |
| RedisPubSub.Deliveries | backend/redis_manager.py:139-155 | the listener makes at most one handler call per entry |
| RedisPubSub.DeliveriesAppend | backend/redis_manager.py:139-155 | entries are handled one at a time, independently of one another |
| RedisPubSub.PublishedEntryDelivered | backend/redis_manager.py:140-152 | a message published on a room's channel is delivered to the handler for that room |
| RedisPubSub.DeliveriesExact | backend/redis_manager.py:139-155 | every handler call comes from a received entry, and every acceptable entry produces its call; a bad entry is skipped and the loop continues |
| RedisPubSub.OnlyMessagesDelivered | backend/redis_manager.py:140 | entries whose type is not `message` never reach the handler |
| RedisPubSub.RedisManager.constructor | backend/redis_manager.py:19-30 | the URL is stored (with the default URL); there is no client, pubsub, task or handler |
| RedisPubSub.RedisManager.Connect | backend/redis_manager.py:32-44 | a reachable server yields both the client and a new pubsub object subscribed to no channel; otherwise the failure is reported and no field of the manager changes |
| RedisPubSub.RedisManager.PublishMessage | backend/redis_manager.py:63-81 | with a client, the message is published on the room's channel; without one, nothing happens |
| RedisPubSub.RedisManager.SubscribeToRoom | backend/redis_manager.py:83-99 | with a pubsub object, the room's channel is added to the subscriptions; without one, nothing happens |
| RedisPubSub.RedisManager.UnsubscribeFromRoom | backend/redis_manager.py:101-116 | with a pubsub object, the room's channel is removed from the subscriptions; without one, nothing happens |
| RedisPubSub.RedisManager.SetMessageHandler | backend/redis_manager.py:118-125 | a handler is installed |
| RedisPubSub.RedisManager.StartListening | backend/redis_manager.py:127-159 | the handler calls are exactly the deliveries of the received entries; there are none without a pubsub object or without a handler |
| RedisPubSub.RedisManager.StartListenerTask | backend/redis_manager.py:161-164 | a task is created exactly when there was none or the previous one is done; afterwards a task exists |
| Server.RedisUrl | backend/main.py:28-31 | the URL is `redis://<host>:<port>`, with host `localhost` and port `6379` when a setting is missing, so with neither setting it is the manager's default URL |
| Server.UsernameOf | backend/main.py:159 | the username is the query parameter, or `Anonymous` when it is missing |
| Server.JoinMessage | backend/main.py:180-186 | the join message carries the session's user id, username and room, reads `<username> joined the room` and has type Join |
| Server.ChatMessage | backend/main.py:195-201 | a frame becomes a Chat message with the session's user id, username and room, whose content is the frame text unchanged |
| Server.LeaveMessage | backend/main.py:211-217 | the leave message carries the session's user id, username and room, reads `<username> left the room` and has type Leave |
| Server.AnnouncementsDistinct | backend/main.py:180-217 | join, leave and chat messages carry the session's user id, username and room and have distinct types; no join text equals any leave text |
| Server.AnnouncementNamesUser | backend/main.py:184-215 | a join text or a leave text determines the username it names |
| Server.Listing | backend/main.py:114-122 | one entry per id of the table, in table order: the stored room with its count replaced by the live count, or 0 |
| Server.ListingCountsConnections | backend/main.py:114-122 | in a well-formed table the listing has as many entries as the table has rooms; each entry keeps the id, name and creation time, and its count is the room's number of live connections |
| Server.SeedEffect | backend/main.py:56-66 | seeding stores `general`, `random` and `tech` with their display names, adds exactly those ids, leaves every other room alone, and lists them in that order in an empty table |
| Server.App.constructor | backend/main.py:27-34 | a new registry and a new pub/sub manager, both empty; the room table starts empty; the manager uses the configured Redis URL and has no client, pubsub, handler or task, and nothing is published or subscribed |
| Server.App.PutRoom | backend/main.py:143 | `rooms_db[id] = room`: the entry is replaced, and a new key goes to the end of the table order |
| Server.App.Startup | backend/main.py:43-66 | a Redis connection failure aborts startup before anything else: no room is seeded, no handler or task is installed, and the manager is unchanged. Otherwise client, pubsub, handler and listener task exist; a task is created only when none existed or the earlier one is done; the new pubsub object has no subscriptions; and the default rooms are seeded, all other rooms kept, with new default ids appended to the table order. Startup never publishes or changes the URL |
| Server.App.StartPubSub | backend/main.py:45-53 | the Redis half of startup: a failed connect leaves the manager unchanged; otherwise client, pubsub, handler and listener task exist, with a task created only when none existed or the earlier one is done, and the new pubsub object has no subscriptions; nothing is published |
| Server.App.SeedDefaultRooms | backend/main.py:62-66 | the table becomes the table with the three default rooms stored in order |
| Server.App.GetRooms | backend/main.py:106-122 | the result is the listing of the table with the registry's counts; the stored rooms are not modified |
| Server.App.CreateRoom | backend/main.py:125-146 | exactly one room with the requested name is added under the fresh id; every existing room is unchanged |
| Server.App.AcceptConnection | backend/main.py:158-187 | an unknown room is refused with code 1008 and nothing is registered, subscribed or published; otherwise the socket is connected with its user, the room's channel is subscribed and the join message is published |
| Server.App.ReceiveFrame | backend/main.py:192-204 | a frame is published as a chat message with the session's ids, username and room, and the frame text unchanged |
| Server.App.EndConnection | backend/main.py:206-224 | the socket is disconnected either way; the leave message is published only when the client left |
| Server.App.HandleRedisMessage | backend/main.py:48-50 | a message from Redis is broadcast to the room's local sockets, and the failed ones are dropped |

## Left out

- Async socket I/O (`accept`, `send_text`, `receive_text`, `close`). The `accept` inside `connect` is not modelled, so a failing accept does not appear. Send failures are the `failing` set. A frame loop is one `ReceiveFrame` per received frame.
- Interleaving of coroutines. The endpoint is split into phases. A broadcast iterating over a room's socket set while another coroutine changes that set is not modelled.
- JSON encoding and decoding of messages (pydantic). A received entry carries an already decoded `Option<Message>`, and `None` stands for a payload that fails to decode.
- The Redis client itself: `RedisManager.disconnect`, the network calls, task creation and cancellation, and exceptions raised by `publish`, `subscribe` and `unsubscribe`. Those exceptions are logged and swallowed by the source, so their effect is "nothing recorded"; the model does not show them.
- `Server.App.AcceptConnection`: the source assigns `current_room` on the same `User` object that it stores; this aliasing is not modelled, and the session holds a copy with the room set.
- `Server.App.Startup`: all three default rooms get the same creation time `now`. The source calls the clock once per room.
- `Server.App.CreateRoom`: any name is accepted, including an empty one, exactly as in the code. The non-empty-name rule for room names is a client-side check, which is not part of this model.
- The shutdown half of `lifespan`, the health-check route, CORS, dotenv, logging and the uvicorn entry point: framework glue with no state of the core.
- The client side of the application (its reconnecting socket and room view) is not part of this model.
- Cross-instance fan-out through Redis: the ordering among server instances is decided by Redis, not by this code.
