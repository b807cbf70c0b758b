/**
 * The presence registry of the Socket.IO server: `userSocketMap` (user id to socket id),
 * the live sockets with the `userId` each one's handshake carried (the value the
 * disconnect handler closes over), and the events the server emits.
 */
module Socket {
  import opened Common
  import opened Models

  /** A Socket.IO connection id; the transport never hands out an empty one. */
  type SocketId = string

  /** The payloads the server emits. */
  datatype Event =
    | GetOnlineUsers(online: set<UserId>)
    | NewMessage(message: Message)

  /** `io.emit(...)` reaches every live socket, `io.to(id).emit(...)` one socket. */
  datatype Emission =
    | Broadcast(event: Event)
    | ToSocket(socket: SocketId, event: Event)

  /** What the registry knows between two handler runs. */
  datatype Presence = Presence(userSocketMap: map<UserId, SocketId>, sockets: map<SocketId, Option<UserId>>)

  /**
   * Every socket id is non-empty, and every entry of the map names a live socket whose
   * handshake carried that very user: the map never points at a closed socket.
   */
  predicate Consistent(p: Presence) {
    && (forall s | s in p.sockets :: s != "")
    && (forall u | u in p.userSocketMap ::
          p.userSocketMap[u] in p.sockets && p.sockets[p.userSocketMap[u]] == Some(u))
  }

  /** The online list, `Object.keys(userSocketMap)`: each user at most once. */
  function Online(p: Presence): set<UserId> {
    p.userSocketMap.Keys
  }

  /** The entry of `u` is the same in `p` and `q`. */
  predicate Untouched(p: Presence, q: Presence, u: UserId) {
    && (u in p.userSocketMap <==> u in q.userSocketMap)
    && (u in p.userSocketMap ==> p.userSocketMap[u] == q.userSocketMap[u])
  }

  /** Socket.IO opens a connection only under a fresh, non-empty id. */
  predicate CanConnect(p: Presence, socketId: SocketId) {
    socketId != "" && socketId !in p.sockets
  }

  /**
   * The `connection` handler's update: with a defined `userId` the user's entry becomes the
   * new socket (last connection wins); without one the map stays as it is.
   */
  function Connected(p: Presence, socketId: SocketId, userId: Option<UserId>): (r: Presence)
    requires CanConnect(p, socketId)
    ensures r.sockets == p.sockets[socketId := userId]
    ensures userId.Some? ==> userId.value in r.userSocketMap && r.userSocketMap[userId.value] == socketId
    ensures userId.Some? ==> Online(r) == Online(p) + {userId.value}
    ensures userId.None? ==> r.userSocketMap == p.userSocketMap
    ensures forall u: UserId | Some(u) != userId :: Untouched(p, r, u)
    ensures Consistent(p) ==> Consistent(r)
  {
    var m := if userId.Some? then p.userSocketMap[userId.value := socketId] else p.userSocketMap;
    Presence(m, p.sockets[socketId := userId])
  }

  /**
   * The `disconnect` handler's update: the entry of the user the closing socket's handshake
   * named is deleted, whichever socket it holds by now; without a user nothing is deleted.
   */
  function Disconnected(p: Presence, socketId: SocketId): (r: Presence)
    requires socketId in p.sockets
    ensures r.sockets == p.sockets - {socketId}
    ensures p.sockets[socketId].Some? ==> Online(r) == Online(p) - {p.sockets[socketId].value}
    ensures p.sockets[socketId].None? ==> r.userSocketMap == p.userSocketMap
    ensures forall u: UserId | Some(u) != p.sockets[socketId] :: Untouched(p, r, u)
    ensures Consistent(p) ==> Consistent(r)
  {
    var userId := p.sockets[socketId];
    var m := if userId.Some? then p.userSocketMap - {userId.value} else p.userSocketMap;
    Presence(m, p.sockets - {socketId})
  }

  /** What the transport delivers to the server: a new connection or the close of a live one. */
  datatype SocketEvent =
    | Connection(socketId: SocketId, userId: Option<UserId>)
    | Disconnection(socketId: SocketId)

  predicate Admissible(p: Presence, e: SocketEvent) {
    match e
    case Connection(s, _) => CanConnect(p, s)
    case Disconnection(s) => s in p.sockets
  }

  function Handle(p: Presence, e: SocketEvent): Presence
    requires Admissible(p, e)
  {
    match e
    case Connection(s, u) => Connected(p, s, u)
    case Disconnection(s) => Disconnected(p, s)
  }

  /**
   * Node runs one handler at a time: the registry after a sequence of events and the
   * broadcasts emitted along the way, or None if the transport would never deliver it.
   */
  function Run(p: Presence, trace: seq<SocketEvent>): (r: Option<(Presence, seq<Emission>)>)
    ensures r.Some? ==> |r.value.1| == |trace|
    decreases |trace|
  {
    if |trace| == 0 then Some((p, []))
    else if !Admissible(p, trace[0]) then None
    else
      var q := Handle(p, trace[0]);
      match Run(q, trace[1..])
      case None => None
      case Some(res) => Some((res.0, [Broadcast(GetOnlineUsers(Online(q)))] + res.1))
  }

  /** No sequence of connects and disconnects leads the map to a closed socket. */
  lemma {:induction false} RunKeepsConsistent(p: Presence, trace: seq<SocketEvent>)
    requires Consistent(p)
    requires Run(p, trace).Some?
    ensures Consistent(Run(p, trace).value.0)
    decreases |trace|
  {
    if |trace| > 0 {
      RunKeepsConsistent(Handle(p, trace[0]), trace[1..]);
    }
  }

  /**
   * Every event emits exactly one `getOnlineUsers` broadcast, and the i-th carries the
   * online list as it stands right after the i-th event.
   */
  lemma {:induction false} RunBroadcastsOncePerEvent(p: Presence, trace: seq<SocketEvent>)
    requires Run(p, trace).Some?
    ensures |Run(p, trace).value.1| == |trace|
    ensures forall i | 0 <= i < |trace| :: BroadcastCarriesOnlineAfter(p, trace, i)
  {
    forall i | 0 <= i < |trace|
      ensures BroadcastCarriesOnlineAfter(p, trace, i)
    {
      BroadcastAfter(p, trace, i);
    }
  }

  /** The i-th emission of the run is the broadcast of the online list right after the i-th event. */
  predicate BroadcastCarriesOnlineAfter(p: Presence, trace: seq<SocketEvent>, i: nat)
    requires Run(p, trace).Some? && i < |trace|
  {
    && |Run(p, trace).value.1| == |trace|
    && Run(p, trace[..i + 1]).Some?
    && Run(p, trace).value.1[i] == Broadcast(GetOnlineUsers(Online(Run(p, trace[..i + 1]).value.0)))
  }

  /** The i-th broadcast of a run is the one the run of the first i + 1 events ends with. */
  lemma {:induction false} BroadcastAfter(p: Presence, trace: seq<SocketEvent>, i: nat)
    requires Run(p, trace).Some? && i < |trace|
    ensures |Run(p, trace).value.1| == |trace|
    ensures Run(p, trace[..i + 1]).Some?
    ensures Run(p, trace).value.1[i] == Broadcast(GetOnlineUsers(Online(Run(p, trace[..i + 1]).value.0)))
    decreases i
  {
    var q := Handle(p, trace[0]);
    var prefix := trace[..i + 1];
    assert prefix[0] == trace[0];
    var rest := Run(q, trace[1..]).value;
    if i == 0 {
      assert prefix[1..] == [];
    } else {
      assert prefix[1..] == trace[1..][..(i - 1) + 1];
      BroadcastAfter(q, trace[1..], i - 1);
    }
  }

  /**
   * A user who connects twice and then loses the older socket is offline, although the newer
   * socket is still open: the disconnect deletes the entry without looking at its value.
   */
  lemma {:induction false} StaleDisconnectTakesUserOffline(p: Presence, older: SocketId, newer: SocketId, u: UserId)
    requires CanConnect(p, older) && CanConnect(p, newer) && older != newer
    ensures var q := Connected(Connected(p, older, Some(u)), newer, Some(u));
            var r := Disconnected(q, older);
            && q.userSocketMap[u] == newer
            && u !in Online(r)
            && newer in r.sockets && r.sockets[newer] == Some(u)
  {
  }

  /** The registry with the Socket.IO server's outbox of emitted events. */
  class SocketServer {
    var userSocketMap: map<UserId, SocketId>
    var sockets: map<SocketId, Option<UserId>>
    var outbox: seq<Emission>

    function State(): Presence
      reads this`userSocketMap, this`sockets
    {
      Presence(userSocketMap, sockets)
    }

    ghost predicate Valid()
      reads this`userSocketMap, this`sockets
    {
      Consistent(State())
    }

    constructor ()
      ensures Valid()
      ensures State() == Presence(map[], map[]) && outbox == []
    {
      userSocketMap, sockets, outbox := map[], map[], [];
    }

    /** `getReceiverSocketId(receiver)`: the receiver's socket id if online; reads only. */
    function GetReceiverSocketId(receiver: UserId): (r: Option<SocketId>)
      reads this`userSocketMap, this`sockets
      ensures r.Some? <==> receiver in Online(State())
      ensures r.Some? ==> r.value == userSocketMap[receiver]
      ensures Valid() && r.Some? ==> r.value != "" && r.value in sockets && sockets[r.value] == Some(receiver)
    {
      if receiver in userSocketMap then Some(userSocketMap[receiver]) else None
    }

    /** The `connection` handler: record the handshake's user, then broadcast the online list. */
    method HandleConnection(socketId: SocketId, userId: Option<UserId>)
      requires Valid() && CanConnect(State(), socketId)
      modifies this
      ensures Valid()
      ensures State() == Connected(old(State()), socketId, userId)
      ensures outbox == old(outbox) + [Broadcast(GetOnlineUsers(Online(State())))]
    {
      sockets := sockets[socketId := userId];
      if userId.Some? {
        userSocketMap := userSocketMap[userId.value := socketId];
      }
      outbox := outbox + [Broadcast(GetOnlineUsers(userSocketMap.Keys))];
    }

    /** The `disconnect` handler: delete the handshake user's entry, then broadcast the online list. */
    method HandleDisconnect(socketId: SocketId)
      requires Valid() && socketId in sockets
      modifies this
      ensures Valid()
      ensures State() == Disconnected(old(State()), socketId)
      ensures outbox == old(outbox) + [Broadcast(GetOnlineUsers(Online(State())))]
    {
      var userId := sockets[socketId];
      sockets := sockets - {socketId};
      if userId.Some? {
        userSocketMap := userSocketMap - {userId.value};
      }
      outbox := outbox + [Broadcast(GetOnlineUsers(userSocketMap.Keys))];
    }

    /** `io.to(socketId).emit(...)`: one event to one socket; the registry is untouched. */
    method EmitTo(socketId: SocketId, event: Event)
      modifies this`outbox
      ensures outbox == old(outbox) + [ToSocket(socketId, event)]
    {
      outbox := outbox + [ToSocket(socketId, event)];
    }
  }
}
