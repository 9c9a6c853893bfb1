/**
 * The Socket.IO side of the backend (backend/controllers/socketManager.js):
 * the three broadcast helpers and the handlers of the socket events, each a
 * method on the store that returns the messages it emits, in order. A socket
 * is named by its id; `SocketJoined`/`SocketLeft` stand for `socket.join` and
 * `socket.leave`. Timers are not run here: `Disconnect` says whether it
 * started the grace timer, and `GraceExpired` is what the timer does when it
 * fires.
 */
module SocketManager {
  import opened Util
  import opened RoomPlayers
  import opened StoreModel
  import opened StateManager

  /** The `updateRoomState` payload. */
  datatype RoomState = RoomState(
    isPlaying: bool,
    gameStartTime: Option<int>,
    time: int,
    gameMode: string,
    eliminatedPlayers: seq<string>)

  /** Why `join-room` failed: missing data, or the store's `{ error }`. */
  datatype JoinFailure = MissingJoinData | Refused(error: StoreError)

  /** A message sent to clients, or a change of a socket's rooms. */
  datatype Event =
    | PlayerList(roomId: RoomId, players: seq<RoomPlayer>)  // 'updatePlayerList' to the room
    | RoomStateUpdate(roomId: RoomId, state: RoomState)     // 'updateRoomState' to the room
    | PublicRoomList(rooms: set<Room>)                      // 'updatePublicRoomList' to everybody
    | JoinRoomError(socketId: string, failure: JoinFailure) // 'join-room-error' to the socket
    | JoinRoomSuccess(socketId: string, room: Room)         // 'join-room-success' to the socket
    | SocketJoined(socketId: string, roomId: RoomId)        // socket.join(roomId)
    | SocketLeft(socketId: string, roomId: RoomId)          // socket.leave(roomId)
    | PlayerRemoved(socketId: string)                       // 'player-removed' to the socket

  /** The `roomId` of a registry entry is truthy. */
  predicate InRoom(p: RegisteredPlayer) {
    p.roomId.Some? && p.roomId.value != ""
  }

  function RoomStateOf(room: Room): RoomState {
    RoomState(room.isPlaying, room.gameStartTime, room.time, room.gameMode,
              if room.eliminatedPlayers.Some? then room.eliminatedPlayers.value else [])
  }

  /** `broadcastPlayerList`: nothing when the room does not exist. */
  function PlayerListEvents(rooms: map<RoomId, Room>, roomId: RoomId): seq<Event> {
    if roomId in rooms then [PlayerList(roomId, rooms[roomId].players)] else []
  }

  /** `broadcastRoomState`: nothing when the room does not exist. */
  function RoomStateEvents(rooms: map<RoomId, Room>, roomId: RoomId): seq<Event> {
    if roomId in rooms then [RoomStateUpdate(roomId, RoomStateOf(rooms[roomId]))] else []
  }

  /** `broadcastPublicRoomList`. */
  function PublicRoomListEvent(rooms: map<RoomId, Room>): Event {
    PublicRoomList(PublicRooms(rooms))
  }

  /**
   * What the handlers emit after removing a player: the public list when the
   * room was deleted, the player list when the room remains, nothing on error.
   */
  function RemovalEvents(rooms: map<RoomId, Room>, roomId: RoomId, res: StoreResult): seq<Event> {
    match res
    case RoomDeleted => [PublicRoomListEvent(rooms)]
    case Updated(_) => PlayerListEvents(rooms, roomId)
    case Failed(_) => []
  }

  /** Every player of the room is marked disconnected (`every`). */
  predicate AllDisconnected(rooms: map<RoomId, Room>, roomId: RoomId) {
    roomId in rooms && forall k :: 0 <= k < |rooms[roomId].players| ==> rooms[roomId].players[k].disconnected
  }

  /** The grace timer of `token`, reading `roomId` when it fires, removes the player. */
  predicate GraceTimerFires(rooms: map<RoomId, Room>, roomId: Option<RoomId>, token: Token) {
    && roomId.Some? && roomId.value in rooms
    && var ps := rooms[roomId.value].players;
       var k := TokenIndex(ps, token);
       k >= 0 && ps[k].disconnected
  }

  /** The settings `startMuerteSubitaGame` applies: an empty eliminated list. */
  const ClearEliminated := Settings("", None, "", 0, Some([]))

  /**
   * `startMuerteSubitaGame`: for an existing room the eliminated list becomes
   * empty and the room state is broadcast; nothing else changes.
   */
  method StartMuerteSubitaGame(store: Store, roomId: RoomId) returns (events: seq<Event>)
    requires store.Valid()
    modifies store
    ensures store.Valid()
    ensures roomId !in old(store.rooms) ==> store.Snapshot() == old(store.Snapshot()) && events == []
    ensures roomId in old(store.rooms) ==>
      && store.Snapshot() == StoreModel.UpdateRoom(old(store.Snapshot()), roomId, ClearEliminated).next
      && roomId in store.rooms
      && store.rooms[roomId] == old(store.rooms)[roomId].(eliminatedPlayers := Some([]))
      && events == [RoomStateUpdate(roomId, RoomStateOf(store.rooms[roomId]))]
      && RoomStateOf(store.rooms[roomId]).eliminatedPlayers == []
  {
    events := [];
    var room := store.GetRoom(roomId);
    if room.Some? {
      var res := store.UpdateRoom(roomId, ClearEliminated);
      events := RoomStateEvents(store.rooms, roomId);
    }
  }

  /** A new connection whose handshake carries a known token moves that entry to the socket. */
  method OnConnection(store: Store, socketId: string, token: Token)
    requires store.Valid()
    modifies store
    ensures store.Valid()
    ensures store.rooms == old(store.rooms)
    ensures store.registeredPlayers ==
      if token != "" && token in old(store.registeredPlayers)
      then old(store.registeredPlayers)[token := old(store.registeredPlayers)[token].(socketId := socketId)]
      else old(store.registeredPlayers)
  {
    if token != "" {
      var player := store.FindRegisteredPlayerByToken(token);
      if player.Some? {
        var updated := store.UpdateRegisteredPlayerSocketId(token, socketId);
      }
    }
  }

  /**
   * `join-room`: missing data or a refusal of the store is reported to the
   * socket alone; otherwise the socket joins the room, receives the room, and
   * the room receives its new player list, which holds the joining token.
   */
  method JoinRoom(store: Store, socketId: string, roomId: RoomId, player: Option<PlayerInfo>)
    returns (events: seq<Event>)
    requires store.Valid()
    modifies store
    ensures store.Valid()
    ensures roomId == "" || player.None? ==>
      events == [JoinRoomError(socketId, MissingJoinData)] && store.Snapshot() == old(store.Snapshot())
    ensures roomId != "" && player.Some? ==>
      var o := StoreModel.AddPlayerToRoom(old(store.Snapshot()), roomId, player.value);
      && store.Snapshot() == o.next
      && events == if o.res.Failed? then [JoinRoomError(socketId, Refused(o.res.error))]
                   else [SocketJoined(socketId, roomId), JoinRoomSuccess(socketId, o.res.room)] +
                        PlayerListEvents(store.rooms, roomId)
    ensures |events| > 0 && (events[0].JoinRoomError? <==>
      roomId == "" || player.None? || roomId !in old(store.rooms) ||
      (old(store.rooms)[roomId].isPlaying && player.value.token !in TokenSet(old(store.rooms)[roomId].players)))
    ensures |events| > 0 && !events[0].JoinRoomError? ==>
      roomId in store.rooms && player.Some? &&
      player.value.token in TokenSet(store.rooms[roomId].players) &&
      events == [SocketJoined(socketId, roomId), JoinRoomSuccess(socketId, store.rooms[roomId]),
                 PlayerList(roomId, store.rooms[roomId].players)]
  {
    if roomId == "" || player.None? {
      return [JoinRoomError(socketId, MissingJoinData)];
    }
    ghost var o := StoreModel.AddPlayerToRoom(store.Snapshot(), roomId, player.value);
    AddPlayerToRoomProperties(store.Snapshot(), roomId, player.value, o);
    var res := store.AddPlayerToRoom(roomId, player.value);
    if res.Failed? {
      return [JoinRoomError(socketId, Refused(res.error))];
    }
    events := [SocketJoined(socketId, roomId), JoinRoomSuccess(socketId, res.room)];
    events := events + PlayerListEvents(store.rooms, roomId);
  }

  /**
   * `leave-room`: the socket leaves the room, then the first player with its
   * socket id is removed from the store.
   */
  method LeaveRoom(store: Store, socketId: string, roomId: RoomId) returns (events: seq<Event>)
    requires store.Valid()
    modifies store
    ensures store.Valid()
    ensures var o := StoreModel.RemovePlayerFromRoom(old(store.Snapshot()), roomId, socketId);
      store.Snapshot() == o.next &&
      events == [SocketLeft(socketId, roomId)] + RemovalEvents(store.rooms, roomId, o.res)
  {
    events := [SocketLeft(socketId, roomId)];
    var res := store.RemovePlayerFromRoom(roomId, socketId);
    if res.RoomDeleted? {
      events := events + [PublicRoomListEvent(store.rooms)];
    } else if res.Updated? {
      events := events + PlayerListEvents(store.rooms, roomId);
    }
  }

  /**
   * `set-ready`: the flag is set, then the player list and the room state are
   * broadcast (neither when the room does not exist).
   */
  method SetReady(store: Store, socketId: string, roomId: RoomId, isReady: bool) returns (events: seq<Event>)
    requires store.Valid()
    modifies store
    ensures store.Valid()
    ensures store.Snapshot() ==
      StoreModel.SetPlayerReadyStatusInRoom(old(store.Snapshot()), roomId, socketId, isReady).next
    ensures events == PlayerListEvents(store.rooms, roomId) + RoomStateEvents(store.rooms, roomId)
    ensures events == [] <==> roomId !in old(store.rooms)
  {
    var res := store.SetPlayerReadyStatusInRoom(roomId, socketId, isReady);
    events := PlayerListEvents(store.rooms, roomId);
    events := events + RoomStateEvents(store.rooms, roomId);
  }

  /**
   * `player-eliminated`: for a player of the room, the name is added to the
   * eliminated list and the room state, holding it, is broadcast. `crashed` is
   * the `TypeError` of a room whose list was never set; nothing is sent then.
   */
  method PlayerEliminated(store: Store, roomId: RoomId, playerName: string)
    returns (events: seq<Event>, crashed: bool)
    requires store.Valid()
    modifies store
    ensures store.Valid()
    ensures old(store.FindPlayerInRoomByName(roomId, playerName)).None? ==>
      !crashed && events == [] && store.Snapshot() == old(store.Snapshot())
    ensures old(store.FindPlayerInRoomByName(roomId, playerName)).Some? ==>
      (crashed, store.Snapshot()) == StoreModel.EliminatePlayerInRoom(old(store.Snapshot()), roomId, playerName) &&
      events == if crashed then [] else RoomStateEvents(store.rooms, roomId)
    ensures old(store.FindPlayerInRoomByName(roomId, playerName)).Some? && !crashed ==>
      roomId in store.rooms && |events| == 1 && events[0].RoomStateUpdate? &&
      playerName in events[0].state.eliminatedPlayers
  {
    EliminatePlayerInRoomProperties(store.Snapshot(), roomId, playerName);
    events := [];
    crashed := false;
    var player := store.FindPlayerInRoomByName(roomId, playerName);
    if player.Some? {
      crashed := store.EliminatePlayerInRoom(roomId, playerName);
      if !crashed {
        events := RoomStateEvents(store.rooms, roomId);
      }
    }
  }

  /**
   * `disconnect`: the registry entry with this socket id is found (`found`,
   * one of them if several). A player in a room is marked disconnected, the
   * room is deleted if now nobody in it is connected, and the grace timer is
   * started; a player in no room is dropped from the registry at once.
   */
  method Disconnect(store: Store, socketId: string)
    returns (events: seq<Event>, found: Option<Token>, timerStarted: bool)
    requires store.Valid()
    modifies store
    ensures store.Valid()
    ensures found.None? ==>
      && store.Snapshot() == old(store.Snapshot()) && events == [] && !timerStarted
      && ((forall t :: t in old(store.registeredPlayers) && t != "" ==>
             old(store.registeredPlayers)[t].socketId != socketId) ||
          ("" in old(store.registeredPlayers) && old(store.registeredPlayers)[""].socketId == socketId))
    ensures found.Some? ==>
      found.value != "" && found.value in old(store.registeredPlayers) &&
      old(store.registeredPlayers)[found.value].socketId == socketId
    ensures found.Some? && !InRoom(old(store.registeredPlayers)[found.value]) ==>
      && !timerStarted && events == []
      && store.rooms == old(store.rooms)
      && store.registeredPlayers == old(store.registeredPlayers) - {found.value}
    ensures found.Some? && InRoom(old(store.registeredPlayers)[found.value]) ==>
      var t := found.value;
      var r := old(store.registeredPlayers)[t].roomId.value;
      var s1 := StoreModel.SetPlayerDisconnected(old(store.Snapshot()), r, t, true).next;
      && timerStarted
      && store.Snapshot() == (if AllDisconnected(s1.rooms, r) then StoreModel.DeleteRoom(s1, r).next else s1)
      && events == PlayerListEvents(s1.rooms, r) +
                   (if AllDisconnected(s1.rooms, r) then [PublicRoomListEvent(store.rooms)] else [])
      && (r !in store.rooms || !AllDisconnected(store.rooms, r))
  {
    events := [];
    found := None;
    timerStarted := false;
    if t :| t in store.registeredPlayers && store.registeredPlayers[t].socketId == socketId {
      if t != "" {
        var player := store.FindRegisteredPlayerByToken(t);
        if player.Some? {
          found := Some(t);
          if InRoom(player.value) {
            var r := player.value.roomId.value;
            var res := store.SetPlayerDisconnected(r, t, true);
            events := PlayerListEvents(store.rooms, r);
            var room := store.GetRoom(r);
            if room.Some? && All(room.value.players, (p: RoomPlayer) => p.disconnected) {
              var deleted := store.DeleteRoom(r);
              events := events + [PublicRoomListEvent(store.rooms)];
            }
            timerStarted := true;
          } else {
            var removed := store.RemoveRegisteredPlayer(t);
          }
        }
      }
    }
  }

  /**
   * The grace timer of `disconnect` firing for `token`; `roomId` is the room
   * the entry captured at the disconnect names at that moment. A player who is
   * still in that room and still disconnected is removed from the room and
   * from the registry; otherwise nothing happens.
   */
  method GraceExpired(store: Store, token: Token, roomId: Option<RoomId>) returns (events: seq<Event>)
    requires store.Valid()
    modifies store
    ensures store.Valid()
    ensures !GraceTimerFires(old(store.rooms), roomId, token) ==>
      store.Snapshot() == old(store.Snapshot()) && events == []
    ensures GraceTimerFires(old(store.rooms), roomId, token) ==>
      var o := StoreModel.RemovePlayerFromRoomByToken(old(store.Snapshot()), roomId.value, token);
      && store.rooms == o.next.rooms
      && store.registeredPlayers == old(store.registeredPlayers) - {token}
      && events == RemovalEvents(store.rooms, roomId.value, o.res)
      && (roomId.value in store.rooms ==> token !in TokenSet(store.rooms[roomId.value].players))
  {
    events := [];
    if roomId.None? {
      return;
    }
    var room := store.GetRoom(roomId.value);
    if room.Some? {
      var k := TokenIndex(room.value.players, token);
      if k >= 0 && room.value.players[k].disconnected {
        RemovePlayerFromRoomByTokenProperties(store.Snapshot(), roomId.value, token,
          StoreModel.RemovePlayerFromRoomByToken(store.Snapshot(), roomId.value, token));
        var res := store.RemovePlayerFromRoomByToken(roomId.value, token);
        var removed := store.RemoveRegisteredPlayer(token);
        if res.RoomDeleted? {
          events := [PublicRoomListEvent(store.rooms)];
        } else if res.Updated? {
          events := PlayerListEvents(store.rooms, roomId.value);
        }
      }
    }
  }

  /**
   * `explicit-logout`: a player registered in a room is removed from it by
   * token, and the token's registry entry is dropped in every case.
   */
  method ExplicitLogout(store: Store, token: Token) returns (events: seq<Event>)
    requires store.Valid()
    modifies store
    ensures store.Valid()
    ensures token !in store.registeredPlayers
    ensures store.registeredPlayers == old(store.registeredPlayers) - {token}
    ensures !(token in old(store.registeredPlayers) && InRoom(old(store.registeredPlayers)[token])) ==>
      store.rooms == old(store.rooms) && events == []
    ensures token in old(store.registeredPlayers) && InRoom(old(store.registeredPlayers)[token]) ==>
      var r := old(store.registeredPlayers)[token].roomId.value;
      var o := StoreModel.RemovePlayerFromRoomByToken(old(store.Snapshot()), r, token);
      && store.rooms == o.next.rooms
      && events == RemovalEvents(store.rooms, r, o.res)
      && (r in store.rooms ==> token !in TokenSet(store.rooms[r].players))
  {
    events := [];
    var player := store.FindRegisteredPlayerByToken(token);
    if player.Some? && InRoom(player.value) {
      var r := player.value.roomId.value;
      RemovePlayerFromRoomByTokenProperties(store.Snapshot(), r, token,
        StoreModel.RemovePlayerFromRoomByToken(store.Snapshot(), r, token));
      var res := store.RemovePlayerFromRoomByToken(r, token);
      if res.RoomDeleted? {
        events := [PublicRoomListEvent(store.rooms)];
      } else if res.Updated? {
        events := PlayerListEvents(store.rooms, r);
      }
    }
    var removed := store.RemoveRegisteredPlayer(token);
  }
}
