/**
 * Redis pub/sub fan-out between server instances.
 *
 * A room id is published under the channel "room:" + id; the listener
 * recovers the room id as the text after the channel's first ':'. The
 * network side (the client, the subscription and the listen stream) is
 * replaced by state fields and by the sequence of entries the stream
 * yields, so the listener becomes a loop over that sequence.
 */
module RedisPubSub {
  import opened Wrappers
  import opened Models

  /** The URL used when none is configured. */
  const DefaultRedisUrl: string := "redis://localhost:6379"

  /** The pub/sub entry type that carries a published payload. */
  const MessageKind: string := "message"

  // ---------------------------------------------------------------------
  // channel names

  /** The channel of a room. */
  function ChannelFor(roomId: string): (c: string)
    ensures |c| == |roomId| + 5
    ensures c[..5] == "room:" && c[5..] == roomId
  {
    "room:" + roomId
  }

  /**
   * `s.split(":", 1)`: the whole string when it has no ':', otherwise the
   * text before the first ':' and the text after it.
   */
  function SplitOnce(s: string): (parts: seq<string>)
    ensures |parts| == 1 || |parts| == 2
    ensures |parts| == 1 <==> ':' !in s
    ensures |parts| == 1 ==> parts[0] == s
    ensures |parts| == 2 ==> ':' !in parts[0] && s == parts[0] + ":" + parts[1]
  {
    if |s| == 0 then [s]
    else if s[0] == ':' then
      assert s == [] + ":" + s[1..];
      ["", s[1..]]
    else
      var rest := SplitOnce(s[1..]);
      assert s == [s[0]] + s[1..];
      if |rest| == 1 then [s]
      else
        assert s == ([s[0]] + rest[0]) + ":" + rest[1];
        [[s[0]] + rest[0], rest[1]]
  }

  /**
   * The room id of a channel, `channel.split(":", 1)[1]`; None where that
   * index raises because the channel has no ':'.
   */
  function RoomOfChannel(channel: string): (r: Option<string>)
    ensures r.None? <==> ':' !in channel
  {
    var parts := SplitOnce(channel);
    if |parts| < 2 then None else Some(parts[1])
  }

  /** In `a + ":" + b` with no ':' in `a`, the first ':' sits right after `a`. */
  lemma FirstColonAt(a: string, b: string)
    requires ':' !in a
    ensures (a + ":" + b)[|a|] == ':'
    ensures forall k :: 0 <= k < |a| ==> (a + ":" + b)[k] != ':'
  {
  }

  /** A string splits at its first ':' in only one way. */
  lemma FirstColonUnique(a: string, b: string, c: string, d: string)
    requires ':' !in a && ':' !in c
    requires a + ":" + b == c + ":" + d
    ensures a == c && b == d
  {
    var s := a + ":" + b;
    FirstColonAt(a, b);
    FirstColonAt(c, d);
    assert |a| == |c|;
    assert a == s[..|a|] == c;
    assert b == s[|a| + 1..] == d;
  }

  /** Parsing a room's channel gives back the room id, even when the id contains ':'. */
  lemma ChannelRoundTrip(roomId: string)
    ensures RoomOfChannel(ChannelFor(roomId)) == Some(roomId)
  {
    var parts := SplitOnce(ChannelFor(roomId));
    assert ChannelFor(roomId) == "room" + ":" + roomId;
    assert |parts| == 2;
    FirstColonUnique(parts[0], parts[1], "room", roomId);
  }

  /** Distinct rooms have distinct channels. */
  lemma ChannelForInjective(r1: string, r2: string)
    requires ChannelFor(r1) == ChannelFor(r2)
    ensures r1 == r2
  {
  }

  // ---------------------------------------------------------------------
  // the listener

  /**
   * One entry of the pub/sub stream: its type, its channel and its data;
   * `payload` is None when the data does not decode to a Message.
   */
  datatype Entry = Entry(kind: string, channel: string, payload: Option<Message>)

  /** A call of the message handler: the room id and the decoded message. */
  type Call = (string, Message)

  /**
   * The handler call an entry leads to: none for an entry that is not a
   * published message, whose channel has no room id or whose data does
   * not decode.
   */
  function Handle(e: Entry): (r: Option<Call>)
    ensures r.Some? <==> e.kind == MessageKind && ':' in e.channel && e.payload.Some?
    ensures r.Some? ==> RoomOfChannel(e.channel) == Some(r.value.0) && r.value.1 == e.payload.value
  {
    if e.kind != MessageKind then None
    else
      match RoomOfChannel(e.channel)
      case None => None
      case Some(room) =>
        match e.payload
        case None => None
        case Some(msg) => Some((room, msg))
  }

  /** The handler calls a stream of entries leads to, in stream order. */
  function Deliveries(entries: seq<Entry>): (calls: seq<Call>)
    ensures |calls| <= |entries|
  {
    if entries == [] then []
    else
      var last := entries[|entries| - 1];
      Deliveries(entries[..|entries| - 1]) + (if Handle(last).Some? then [Handle(last).value] else [])
  }

  /** The calls of two stretches of the stream are the calls of each, in order. */
  lemma {:induction false} DeliveriesAppend(a: seq<Entry>, b: seq<Entry>)
    ensures Deliveries(a + b) == Deliveries(a) + Deliveries(b)
    decreases |b|
  {
    if b == [] {
      assert a + b == a;
    } else {
      var init := b[..|b| - 1];
      var last := b[|b| - 1];
      assert (a + b)[..|a + b| - 1] == a + init;
      DeliveriesAppend(a, init);
    }
  }

  /** A message published to a room and read back from its channel reaches the handler unchanged. */
  lemma PublishedEntryDelivered(roomId: string, msg: Message)
    ensures Handle(Entry(MessageKind, ChannelFor(roomId), Some(msg))) == Some((roomId, msg))
  {
    ChannelRoundTrip(roomId);
  }

  /**
   * Every handler call comes from a published-message entry of the stream
   * with a decodable payload, and every such entry leads to a call.
   */
  lemma {:induction false} DeliveriesExact(entries: seq<Entry>)
    ensures forall c :: c in Deliveries(entries) ==>
              exists i :: 0 <= i < |entries| && Handle(entries[i]) == Some(c)
    ensures forall i :: 0 <= i < |entries| && Handle(entries[i]).Some? ==>
              Handle(entries[i]).value in Deliveries(entries)
    decreases |entries|
  {
    if entries != [] {
      var init := entries[..|entries| - 1];
      DeliveriesExact(init);
      forall c | c in Deliveries(entries)
        ensures exists i :: 0 <= i < |entries| && Handle(entries[i]) == Some(c)
      {
        if c in Deliveries(init) {
          var i :| 0 <= i < |init| && Handle(init[i]) == Some(c);
          assert entries[i] == init[i];
        } else {
          assert Handle(entries[|entries| - 1]) == Some(c);
        }
      }
      forall i | 0 <= i < |entries| && Handle(entries[i]).Some?
        ensures Handle(entries[i]).value in Deliveries(entries)
      {
        if i < |init| {
          assert entries[i] == init[i];
        }
      }
    }
  }

  /** A stream without published-message entries calls the handler never. */
  lemma {:induction false} OnlyMessagesDelivered(entries: seq<Entry>)
    requires forall i :: 0 <= i < |entries| ==> entries[i].kind != MessageKind
    ensures Deliveries(entries) == []
    decreases |entries|
  {
    if entries != [] {
      OnlyMessagesDelivered(entries[..|entries| - 1]);
    }
  }

  // ---------------------------------------------------------------------
  // the manager

  /**
   * The pub/sub manager: whether a client and a pubsub object exist,
   * whether a handler and a listener task are set, and what it has
   * published and subscribed to.
   */
  class RedisManager {
    var redisUrl: string
    /** `redis_client` is not None */
    var hasClient: bool
    /** `pubsub` is not None */
    var hasPubSub: bool
    /** `message_handler` is not None */
    var hasHandler: bool
    /** `listener_task` is not None */
    var hasListenerTask: bool
    /** the number of listener tasks created so far */
    var tasksCreated: nat
    /** the (channel, message) pairs handed to PUBLISH, oldest first */
    var published: seq<(string, Message)>
    /** the channels the pubsub object is subscribed to */
    var subscriptions: set<string>

    /** The client and the pubsub object come and go together; nothing is published or subscribed without them. */
    ghost predicate Valid()
      reads this
    {
      && hasPubSub == hasClient
      && (published != [] ==> hasClient)
      && (subscriptions != {} ==> hasPubSub)
      && (hasListenerTask <==> tasksCreated > 0)
    }

    /** A manager for `url` with no client, pubsub, task or handler yet. */
    constructor (url: string := DefaultRedisUrl)
      ensures Valid()
      ensures redisUrl == url
      ensures !hasClient && !hasPubSub && !hasHandler && !hasListenerTask
      ensures tasksCreated == 0 && published == [] && subscriptions == {}
    {
      redisUrl := url;
      hasClient := false;
      hasPubSub := false;
      hasHandler := false;
      hasListenerTask := false;
      tasksCreated := 0;
      published := [];
      subscriptions := {};
    }

    /**
     * Creates the client and a new pubsub object, subscribed to nothing, when
     * the server is `reachable`; otherwise the error propagates (`ok` false) and nothing
     * changes.
     */
    method Connect(reachable: bool) returns (ok: bool)
      requires Valid()
      modifies this
      ensures Valid()
      ensures ok == reachable
      ensures hasClient == (old(hasClient) || reachable) && hasPubSub == hasClient
      ensures unchanged(this`redisUrl, this`hasHandler, this`hasListenerTask, this`tasksCreated)
      ensures unchanged(this`published)
      ensures reachable ==> subscriptions == {}
      ensures !reachable ==> unchanged(this)
    {
      if !reachable {
        return false;
      }
      hasClient := true;
      // a new pubsub object, subscribed to no channel yet
      hasPubSub := true;
      subscriptions := {};
      return true;
    }

    /** Publishes `message` on the room's channel; does nothing without a client. */
    method PublishMessage(roomId: string, message: Message)
      requires Valid()
      modifies this`published
      ensures Valid()
      ensures published == if hasClient then old(published) + [(ChannelFor(roomId), message)] else old(published)
    {
      if !hasClient {
        return;
      }
      var channel := ChannelFor(roomId);
      published := published + [(channel, message)];
    }

    /** Subscribes to the room's channel; does nothing without a pubsub object. */
    method SubscribeToRoom(roomId: string)
      requires Valid()
      modifies this`subscriptions
      ensures Valid()
      ensures subscriptions == if hasPubSub then old(subscriptions) + {ChannelFor(roomId)} else old(subscriptions)
    {
      if !hasPubSub {
        return;
      }
      var channel := ChannelFor(roomId);
      subscriptions := subscriptions + {channel};
    }

    /** Unsubscribes from the room's channel; does nothing without a pubsub object. */
    method UnsubscribeFromRoom(roomId: string)
      requires Valid()
      modifies this`subscriptions
      ensures Valid()
      ensures subscriptions == if hasPubSub then old(subscriptions) - {ChannelFor(roomId)} else old(subscriptions)
    {
      if !hasPubSub {
        return;
      }
      var channel := ChannelFor(roomId);
      subscriptions := subscriptions - {channel};
    }

    /** Installs the message handler. */
    method SetMessageHandler()
      requires Valid()
      modifies this`hasHandler
      ensures Valid()
      ensures hasHandler
    {
      hasHandler := true;
    }

    /**
     * Runs the listener over the stream `entries` and returns the handler
     * calls made: none without a pubsub object or a handler, otherwise one
     * per published-message entry with a room id and a decodable payload,
     * in stream order.
     */
    method StartListening(entries: seq<Entry>) returns (calls: seq<Call>)
      ensures calls == if hasPubSub && hasHandler then Deliveries(entries) else []
    {
      calls := [];
      if !hasPubSub {
        return;
      }
      var i := 0;
      while i < |entries|
        invariant 0 <= i <= |entries|
        invariant calls == if hasHandler then Deliveries(entries[..i]) else []
      {
        var entry := entries[i];
        if entry.kind == MessageKind {
          var roomId := RoomOfChannel(entry.channel);
          if roomId.Some? && entry.payload.Some? {
            if hasHandler {
              calls := calls + [(roomId.value, entry.payload.value)];
            }
          }
        }
        assert entries[..i + 1][..i] == entries[..i];
        i := i + 1;
      }
      assert entries[..i] == entries;
    }

    /**
     * Creates a listener task unless one exists that is still running;
     * `previousDone` says whether the existing task has finished.
     */
    method StartListenerTask(previousDone: bool) returns (started: bool)
      requires Valid()
      modifies this`hasListenerTask, this`tasksCreated
      ensures Valid()
      ensures started <==> !old(hasListenerTask) || previousDone
      ensures hasListenerTask
      ensures tasksCreated == old(tasksCreated) + (if started then 1 else 0)
    {
      started := !hasListenerTask || previousDone;
      if started {
        hasListenerTask := true;
        tasksCreated := tasksCreated + 1;
      }
    }
  }
}
