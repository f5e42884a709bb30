/** The WebSocket relay (frontend/server.ts): a registry of rooms, each with
    the connections that joined it and the game state last stored for it,
    and the handlers that run, one at a time, for each event of each
    connection. A connection is an abstract id with an open flag; what the
    server sends is appended to an outbox. */
module Server {
  import opened Wrappers
  import opened Types
  import opened JsBuiltins

  type ConnId = nat

  /** The messages of the protocol, both ways. Stroke data is passed through
      without being read, so it stays an uninterpreted text. */
  datatype Message =
    | JoinRoom(roomId: string, playerId: string)
    | Draw(drawerId: string, stroke: string)
    | Clear(drawerId: string)
    | GameStateUpdate(game: GameState, message: string)
    | StartNewTurn(roomId: string)
    | SubmitGuess(roomId: string, playerId: string, guess: string)
    | Unknown(kind: string)

  /** One call of `send` on a connection. */
  datatype Send = Send(to: ConnId, msg: Message)

  datatype Room = Room(id: string, players: seq<ConnId>, gameState: GameState)

  /** A connection's transport state and its handler's closure variables
      `currentRoomId` and `currentPlayerId` (`None` for null). */
  datatype Connection = Connection(open: bool, currentRoomId: Option<string>, currentPlayerId: Option<string>)

  /** JavaScript truthiness of a `string | null`: neither null nor empty. */
  predicate Truthy(v: Option<string>) {
    v.Some? && v.value != ""
  }

  const JoinedMessage: string := "Você entrou na sala."

  /** The state a room starts with. */
  const InitialGameState: GameState := GameState(
    None,
    Drawer("player1", ""),
    Drawer("player2", ""),
    [],
    0,
    [])

  predicate IsRelayed(msg: Message) {
    msg.Draw? || msg.Clear? || msg.GameStateUpdate?
  }

  predicate IsOpen(conns: map<ConnId, Connection>, c: ConnId) {
    c in conns && conns[c].open
  }

  /** The players of a list whose transport is open, in list order. */
  function OpenPlayers(players: seq<ConnId>, conns: map<ConnId, Connection>): seq<ConnId> {
    Filter(players, p => IsOpen(conns, p))
  }

  /** One send of `msg` to each of `targets`, in order. */
  function SendAll(targets: seq<ConnId>, msg: Message): (r: seq<Send>)
    ensures |r| == |targets|
    ensures forall i :: 0 <= i < |r| ==> r[i] == Send(targets[i], msg)
  {
    seq(|targets|, i requires 0 <= i < |targets| => Send(targets[i], msg))
  }

  /** Scanning one more player of the list adds at most the send to that
      player. */
  lemma BroadcastStep(players: seq<ConnId>, conns: map<ConnId, Connection>, msg: Message, i: nat)
    requires i < |players|
    ensures SendAll(OpenPlayers(players[..i + 1], conns), msg)
         == SendAll(OpenPlayers(players[..i], conns), msg)
          + (if IsOpen(conns, players[i]) then [Send(players[i], msg)] else [])
  {
    assert players[..i + 1] == players[..i] + [players[i]];
    FilterAppend(players[..i], [players[i]], p => IsOpen(conns, p));
  }

  /** What `broadcastToRoom(roomId, msg)` sends. */
  function Broadcast(rooms: map<string, Room>, conns: map<ConnId, Connection>, roomId: string, msg: Message): seq<Send> {
    if roomId in rooms then SendAll(OpenPlayers(rooms[roomId].players, conns), msg) else []
  }

  /** The number of sends in `out` addressed to `c`. */
  function SendsTo(out: seq<Send>, c: ConnId): nat {
    if out == [] then 0 else (if out[0].to == c then 1 else 0) + SendsTo(out[1..], c)
  }

  /** Sending to each of `targets` reaches each connection as often as it
      occurs among them. */
  lemma {:induction false} SendAllCounts(targets: seq<ConnId>, msg: Message, c: ConnId)
    ensures SendsTo(SendAll(targets, msg), c) == multiset(targets)[c]
  {
    if targets != [] {
      var r := SendAll(targets, msg);
      assert r[1..] == SendAll(targets[1..], msg);
      assert targets == [targets[0]] + targets[1..];
      SendAllCounts(targets[1..], msg, c);
    }
  }

  /** `broadcastToRoom` sends the message unchanged, only to open players of
      the room, and to each of them once for every time it occurs in the
      player list; a missing room gets nothing. */
  lemma BroadcastReachesOpenPlayers(rooms: map<string, Room>, conns: map<ConnId, Connection>, roomId: string, msg: Message)
    ensures roomId !in rooms ==> Broadcast(rooms, conns, roomId, msg) == []
    ensures forall i :: 0 <= i < |Broadcast(rooms, conns, roomId, msg)| ==>
      var s := Broadcast(rooms, conns, roomId, msg)[i];
      s.msg == msg && roomId in rooms && s.to in rooms[roomId].players && IsOpen(conns, s.to)
    ensures forall c ::
      SendsTo(Broadcast(rooms, conns, roomId, msg), c)
      == if roomId in rooms && IsOpen(conns, c) then multiset(rooms[roomId].players)[c] else 0
  {
    if roomId in rooms {
      var players := rooms[roomId].players;
      var open := OpenPlayers(players, conns);
      FilterCount(players, p => IsOpen(conns, p));
      FilterMembers(players, p => IsOpen(conns, p));
      forall i | 0 <= i < |open| ensures open[i] in players && IsOpen(conns, open[i]) {
        assert open[i] in open;
      }
      forall c ensures SendsTo(Broadcast(rooms, conns, roomId, msg), c) ==
        if IsOpen(conns, c) then multiset(players)[c] else 0
      {
        SendAllCounts(open, msg, c);
      }
    }
  }

  /** `room.players.filter(player => player !== ws)`. */
  function Without(players: seq<ConnId>, c: ConnId): seq<ConnId> {
    Filter(players, p => p != c)
  }

  /** Leaving removes every occurrence of the connection, keeps every other
      player as often as before, and keeps their order; the list becomes
      empty exactly when it held nothing but the connection. */
  lemma WithoutRemovesEveryOccurrence(players: seq<ConnId>, c: ConnId)
    ensures c !in Without(players, c)
    ensures forall p :: p != c ==> multiset(Without(players, c))[p] == multiset(players)[p]
    ensures Without(players, c) == [] <==> forall i :: 0 <= i < |players| ==> players[i] == c
    ensures forall a: seq<ConnId>, b: seq<ConnId> :: players == a + b ==> Without(players, c) == Without(a, c) + Without(b, c)
  {
    var left := Without(players, c);
    FilterCount(players, p => p != c);
    FilterMembers(players, p => p != c);
    forall a: seq<ConnId>, b: seq<ConnId> | players == a + b ensures left == Without(a, c) + Without(b, c) {
      FilterAppend(a, b, p => p != c);
    }
    if left == [] {
      forall i | 0 <= i < |players| ensures players[i] == c {
        assert players[i] in players;
      }
    } else {
      assert left[0] in left;
    }
  }

  class RoomServer {
    var rooms: map<string, Room>
    var conns: map<ConnId, Connection>
    var outbox: seq<Send>

    /** Every room is stored under its own id and has at least one player;
        every player is a known connection; an open connection is in the
        player list of the room it last joined. */
    ghost predicate Valid()
      reads this
    {
      && (forall id :: id in rooms ==> rooms[id].id == id && rooms[id].players != [])
      && (forall id, p :: id in rooms && p in rooms[id].players ==> p in conns)
      && (forall c :: IsOpen(conns, c) && conns[c].currentRoomId.Some? ==>
            conns[c].currentRoomId.value in rooms && c in rooms[conns[c].currentRoomId.value].players)
    }

    /** The server at start-up: no rooms, no connections. */
    constructor ()
      ensures Valid()
      ensures rooms == map[] && conns == map[] && outbox == []
    {
      rooms := map[];
      conns := map[];
      outbox := [];
    }

    /** The `connection` event: a new open connection with no room and no
        player yet. */
    method Connect(c: ConnId)
      requires Valid() && c !in conns
      modifies this
      ensures Valid()
      ensures conns == old(conns)[c := Connection(true, None, None)]
      ensures rooms == old(rooms) && outbox == old(outbox)
    {
      conns := conns[c := Connection(true, None, None)];
    }

    /** `broadcastToRoom`: sends `msg` once to each open player of the room,
        in list order; a missing room sends nothing. */
    method BroadcastToRoom(roomId: string, msg: Message)
      modifies this`outbox
      ensures outbox == old(outbox) + Broadcast(rooms, conns, roomId, msg)
    {
      if roomId in rooms {
        SendToOpen(rooms[roomId].players, msg);
      }
    }

    /** The `forEach` of `broadcastToRoom`: one send to each open player. */
    method SendToOpen(players: seq<ConnId>, msg: Message)
      modifies this`outbox
      ensures outbox == old(outbox) + SendAll(OpenPlayers(players, conns), msg)
    {
      var i := 0;
      while i < |players|
        invariant 0 <= i <= |players|
        invariant outbox == old(outbox) + SendAll(OpenPlayers(players[..i], conns), msg)
      {
        BroadcastStep(players, conns, msg, i);
        if IsOpen(conns, players[i]) {
          outbox := outbox + [Send(players[i], msg)];
        }
        i := i + 1;
      }
      assert players[..i] == players;
      assert OpenPlayers(players[..i], conns) == OpenPlayers(players, conns);
    }

    /** The `message` event of connection `c`. */
    method HandleMessage(c: ConnId, msg: Message)
      requires Valid() && IsOpen(conns, c)
      modifies this
      ensures Valid()
      ensures msg.JoinRoom? ==> Joined(c, msg.roomId, msg.playerId)
      ensures IsRelayed(msg) ==> Relayed(c, msg)
      ensures !msg.JoinRoom? && !IsRelayed(msg) ==>
        rooms == old(rooms) && conns == old(conns) && outbox == old(outbox)
    {
      match msg
      case JoinRoom(roomId, playerId) => Join(c, roomId, playerId);
      case Draw(_, _) => Relay(c, msg);
      case Clear(_) => Relay(c, msg);
      case GameStateUpdate(_, _) => Relay(c, msg);
      case _ =>
    }

    /** The state after connection `c` joined `roomId` as `playerId`: the
        connection records both, the room exists (created with the initial
        state if it was missing), `c` is appended to its players, and `c`
        alone is sent the room's game state. */
    twostate predicate Joined(c: ConnId, roomId: string, playerId: string)
      requires c in old(conns)
      reads this
    {
      var room := if roomId in old(rooms) then old(rooms)[roomId] else Room(roomId, [], InitialGameState);
      && conns == old(conns)[c := Connection(old(conns)[c].open, Some(roomId), Some(playerId))]
      && rooms == old(rooms)[roomId := room.(players := room.players + [c])]
      && outbox == old(outbox) + [Send(c, GameStateUpdate(room.gameState, JoinedMessage))]
    }

    /** The state after connection `c` sent a DRAW, CLEAR or GAME_STATE_UPDATE:
        nothing happens unless its current room id is truthy; then a
        GAME_STATE_UPDATE replaces the room's game state, and the message
        goes unchanged to every open player of the room, the sender
        included. */
    twostate predicate Relayed(c: ConnId, msg: Message)
      requires c in old(conns)
      reads this
    {
      var roomId := old(conns)[c].currentRoomId;
      if !Truthy(roomId) then
        rooms == old(rooms) && conns == old(conns) && outbox == old(outbox)
      else
        && conns == old(conns)
        && rooms == (if msg.GameStateUpdate? && roomId.value in old(rooms)
                     then old(rooms)[roomId.value := old(rooms)[roomId.value].(gameState := msg.game)]
                     else old(rooms))
        && outbox == old(outbox) + Broadcast(rooms, conns, roomId.value, msg)
    }

    method Join(c: ConnId, roomId: string, playerId: string)
      requires Valid() && IsOpen(conns, c)
      modifies this
      ensures Valid()
      ensures Joined(c, roomId, playerId)
    {
      conns := conns[c := conns[c].(currentRoomId := Some(roomId), currentPlayerId := Some(playerId))];
      var room;
      if roomId in rooms {
        room := rooms[roomId];
      } else {
        room := Room(roomId, [], InitialGameState);
      }
      room := room.(players := room.players + [c]);
      rooms := rooms[roomId := room];
      outbox := outbox + [Send(c, GameStateUpdate(room.gameState, JoinedMessage))];
    }

    method Relay(c: ConnId, msg: Message)
      requires Valid() && IsOpen(conns, c) && IsRelayed(msg)
      modifies this
      ensures Valid()
      ensures Relayed(c, msg)
      // The lookup of the room by a truthy current room id never misses.
      ensures Truthy(old(conns)[c].currentRoomId) ==> old(conns)[c].currentRoomId.value in old(rooms)
    {
      var roomId := conns[c].currentRoomId;
      if Truthy(roomId) {
        if roomId.value in rooms && msg.GameStateUpdate? {
          rooms := rooms[roomId.value := rooms[roomId.value].(gameState := msg.game)];
        }
        BroadcastToRoom(roomId.value, msg);
      }
    }

    /** The `close` event of connection `c`: the transport is no longer
        open; if the connection's room id and player id are both truthy and
        the room exists, every occurrence of `c` leaves its player list, and
        a room left without players is deleted. */
    method Close(c: ConnId)
      requires Valid() && IsOpen(conns, c)
      modifies this
      ensures Valid()
      ensures conns == old(conns)[c := old(conns)[c].(open := false)]
      ensures outbox == old(outbox)
      ensures var roomId := old(conns)[c].currentRoomId;
        if Truthy(roomId) && Truthy(old(conns)[c].currentPlayerId) && roomId.value in old(rooms) then
          var left := Without(old(rooms)[roomId.value].players, c);
          rooms == if left == [] then old(rooms) - {roomId.value}
                   else old(rooms)[roomId.value := old(rooms)[roomId.value].(players := left)]
        else rooms == old(rooms)
    {
      var conn := conns[c];
      conns := conns[c := conn.(open := false)];
      if Truthy(conn.currentRoomId) && Truthy(conn.currentPlayerId) {
        var roomId := conn.currentRoomId.value;
        if roomId in rooms {
          var room := rooms[roomId];
          var left := Without(room.players, c);
          FilterMembers(room.players, p => p != c);
          if left == [] {
            rooms := rooms - {roomId};
          } else {
            rooms := rooms[roomId := room.(players := left)];
          }
        }
      }
    }
  }

  /** The same connection joining a room twice is in its player list twice
      and is sent the room's state twice. */
  method DuplicateJoinScenario() returns (players: seq<ConnId>, replies: nat)
    ensures players == [1, 1]
    ensures replies == 2
  {
    var server := new RoomServer();
    server.Connect(1);
    server.HandleMessage(1, JoinRoom("R1", "player3"));
    server.HandleMessage(1, JoinRoom("R1", "player3"));
    players := server.rooms["R1"].players;
    var reply := Send(1, GameStateUpdate(InitialGameState, JoinedMessage));
    assert server.outbox == [reply, reply];
    assert server.outbox[1..] == [reply];
    assert SendsTo([reply], 1) == 1 + SendsTo([], 1);
    replies := SendsTo(server.outbox, 1);
  }

  /** A stroke from a connection that has not joined a room is dropped. */
  method DrawBeforeJoinScenario() returns (sent: seq<Send>, roomCount: nat)
    ensures sent == [] && roomCount == 0
  {
    var server := new RoomServer();
    server.Connect(1);
    server.HandleMessage(1, Draw("DRAWER_1", "{}"));
    sent := server.outbox;
    roomCount := |server.rooms|;
  }

  /** The last player leaving deletes the room, with the state stored in it;
      joining the same id again starts from the initial state. */
  method RejoinScenario(game: GameState) returns (stored: GameState, deleted: bool, restarted: GameState)
    ensures stored == game
    ensures deleted
    ensures restarted == InitialGameState
  {
    var server := new RoomServer();
    server.Connect(1);
    server.HandleMessage(1, JoinRoom("R1", "player1"));
    server.HandleMessage(1, GameStateUpdate(game, ""));
    stored := server.rooms["R1"].gameState;
    server.Close(1);
    deleted := "R1" !in server.rooms;
    server.Connect(2);
    server.HandleMessage(2, JoinRoom("R1", "player2"));
    restarted := server.outbox[|server.outbox| - 1].msg.game;
  }
}
