/**
 * The REST room handlers (backend/controllers/roomsController.js): each runs
 * on the store, returns the HTTP status it answers with, and the broadcasts it
 * triggers, in order. A JSON body echoing a room is returned as `room`.
 */
module RoomsController {
  import opened Util
  import opened RoomPlayers
  import opened StoreModel
  import opened StateManager
  import opened SocketManager
  import opened Auth

  /**
   * `createRoom`: 400 without a host or a name; otherwise a room under a fresh
   * id drawn from `attempts` (the random source), a rebroadcast of the public
   * list, which holds the room exactly when it is public, and 201.
   */
  method CreateRoomRequest(store: Store, hostPlayer: Option<PlayerInfo>, name: string, isPublic: Option<bool>,
                           gameMode: string, time: int, attempts: seq<seq<CharIndex>>)
    returns (status: int, room: Option<Room>, events: seq<Event>)
    requires store.Valid()
    requires forall a :: a in attempts ==> |a| == RoomIdLength
    requires exists k :: 0 <= k < |attempts| && CandidateId(attempts[k]) !in store.rooms
    modifies store
    ensures store.Valid()
    ensures hostPlayer.None? || name == "" ==>
      status == 400 && room.None? && events == [] && store.Snapshot() == old(store.Snapshot())
    ensures hostPlayer.Some? && name != "" ==>
      && status == 201 && room.Some?
      && IsRoomId(room.value.id) && room.value.id !in old(store.rooms)
      && Outcome(Updated(room.value), store.Snapshot()) ==
           StoreModel.CreateRoom(old(store.Snapshot()), room.value.id, hostPlayer.value, name, isPublic, gameMode, time)
      && events == [PublicRoomListEvent(store.rooms)]
      && (room.value in events[0].rooms <==> isPublic == Some(true))
  {
    if hostPlayer.None? || name == "" {
      return 400, None, [];
    }
    var r := store.CreateRoom(hostPlayer.value, name, isPublic, gameMode, time, attempts);
    assert store.rooms[r.id] == r;
    assert r in store.rooms.Values;
    events := [PublicRoomListEvent(store.rooms)];
    status, room := 201, Some(r);
  }

  /**
   * `updateRoom`: 404 for a missing room; otherwise the settings are applied,
   * the room state and the player list are broadcast, and the public list is
   * rebroadcast exactly when the visibility changed, which is when the
   * settings carry a visibility other than the room's.
   */
  method UpdateRoomRequest(store: Store, roomId: RoomId, settings: Settings)
    returns (status: int, room: Option<Room>, events: seq<Event>)
    requires store.Valid()
    modifies store
    ensures store.Valid()
    ensures roomId !in old(store.rooms) ==>
      status == 404 && room.None? && events == [] && store.Snapshot() == old(store.Snapshot())
    ensures roomId in old(store.rooms) ==>
      && status == 200 && room.Some?
      && Outcome(Updated(room.value), store.Snapshot()) ==
           StoreModel.UpdateRoom(old(store.Snapshot()), roomId, settings)
      && events == RoomStateEvents(store.rooms, roomId) + PlayerListEvents(store.rooms, roomId) +
                   (if old(store.rooms)[roomId].isPublic != room.value.isPublic
                    then [PublicRoomListEvent(store.rooms)] else [])
    ensures (exists e :: e in events && e.PublicRoomList?) <==>
      (roomId in old(store.rooms) && settings.isPublic.Some? && settings.isPublic != old(store.rooms)[roomId].isPublic)
  {
    var oldRoom := store.GetRoom(roomId);
    var res := store.UpdateRoom(roomId, settings);
    if res.Failed? {
      return 404, None, [];
    }
    events := RoomStateEvents(store.rooms, roomId);
    events := events + PlayerListEvents(store.rooms, roomId);
    assert forall e :: e in events ==> !e.PublicRoomList?;
    if oldRoom.Some? && oldRoom.value.isPublic != res.room.isPublic {
      events := events + [PublicRoomListEvent(store.rooms)];
      assert events[|events| - 1].PublicRoomList?;
    }
    status, room := 200, Some(res.room);
  }

  /**
   * `startGame` at time `now`: 403, changing nothing, unless the room exists
   * and all its players are ready and connected; otherwise the game starts,
   * the room state and the player list are broadcast, and 200.
   */
  method StartGameRequest(store: Store, roomId: RoomId, now: int)
    returns (status: int, room: Option<Room>, events: seq<Event>)
    requires store.Valid()
    modifies store
    ensures store.Valid()
    ensures !old(store.AreAllPlayersReady(roomId)) ==>
      status == 403 && room.None? && events == [] && store.Snapshot() == old(store.Snapshot())
    ensures old(store.AreAllPlayersReady(roomId)) ==>
      && status == 200 && room.Some?
      && Outcome(Updated(room.value), store.Snapshot()) == StoreModel.StartGame(old(store.Snapshot()), roomId, now)
      && events == RoomStateEvents(store.rooms, roomId) + PlayerListEvents(store.rooms, roomId)
    ensures status == 200 <==>
      roomId in old(store.rooms) &&
      forall k :: 0 <= k < |old(store.rooms)[roomId].players| ==>
        old(store.rooms)[roomId].players[k].isReady && !old(store.rooms)[roomId].players[k].disconnected
    ensures status == 200 ==>
      roomId in store.rooms && store.rooms[roomId].isPlaying && store.rooms[roomId].gameStartTime == Some(now)
  {
    if !store.AreAllPlayersReady(roomId) {
      return 403, None, [];
    }
    var res := store.StartGame(roomId, now);
    if res.Failed? {
      // the 404 answer: the gate above already found the room
      assert false;
    }
    events := RoomStateEvents(store.rooms, roomId);
    events := events + PlayerListEvents(store.rooms, roomId);
    status, room := 200, Some(res.room);
  }

  /**
   * `removePlayer`: 404, changing nothing, when the removal fails; otherwise
   * the public list (the room was deleted) or the player list is broadcast,
   * the kicked socket is told, and a registry entry with its socket id, if
   * any, is dropped (`dropped`).
   */
  method RemovePlayerRequest(store: Store, roomId: RoomId, socketId: string)
    returns (status: int, events: seq<Event>, dropped: Option<RegisteredPlayer>)
    requires store.Valid()
    modifies store
    ensures store.Valid()
    ensures var o := StoreModel.RemovePlayerFromRoom(old(store.Snapshot()), roomId, socketId);
      && (o.res.Failed? ==>
            status == 404 && events == [] && dropped.None? && store.Snapshot() == old(store.Snapshot()))
      && (!o.res.Failed? ==>
            && status == 200
            && store.rooms == o.next.rooms
            && events == RemovalEvents(store.rooms, roomId, o.res) + [PlayerRemoved(socketId)]
            && (dropped.Some? <==>
                  socketId != "" &&
                  exists t :: t in o.next.registry && t != "" && o.next.registry[t].socketId == socketId)
            && (dropped.None? ==> store.registeredPlayers == o.next.registry)
            && (dropped.Some? ==>
                  dropped.value.token != "" && dropped.value.token in o.next.registry && o.next.registry[dropped.value.token] == dropped.value &&
                  dropped.value.socketId == socketId &&
                  store.registeredPlayers == o.next.registry - {dropped.value.token}))
    ensures status == 404 <==>
      roomId !in old(store.rooms) ||
      forall k :: 0 <= k < |old(store.rooms)[roomId].players| ==> old(store.rooms)[roomId].players[k].socketId != socketId
  {
    RemovePlayerFromRoomProperties(store.Snapshot(), roomId, socketId,
      StoreModel.RemovePlayerFromRoom(store.Snapshot(), roomId, socketId));
    var res := store.RemovePlayerFromRoom(roomId, socketId);
    if res.Failed? {
      return 404, [], None;
    }
    if res.RoomDeleted? {
      events := [PublicRoomListEvent(store.rooms)];
    } else {
      events := PlayerListEvents(store.rooms, roomId);
    }
    events := events + [PlayerRemoved(socketId)];
    dropped := store.RemoveRegisteredPlayerBySocketId(socketId);
    status := 200;
  }

  /**
   * `makeHost`: 404 for a missing room; otherwise the caller is the first
   * player carrying the request's token (present, as `verifyHost` let the
   * request through) and the role moves from the caller's socket to the
   * target's: 400 when the store refuses, else the player list is broadcast
   * with the target as admin, and 200.
   */
  method MakeHostRequest(store: Store, roomId: RoomId, token: Token, targetSocketId: string)
    returns (status: int, events: seq<Event>)
    requires store.Valid()
    requires roomId in store.rooms ==> token in TokenSet(store.rooms[roomId].players)
    modifies store
    ensures store.Valid()
    ensures roomId !in old(store.rooms) ==>
      status == 404 && events == [] && store.Snapshot() == old(store.Snapshot())
    ensures roomId in old(store.rooms) ==>
      var ps := old(store.rooms)[roomId].players;
      var c := TokenIndex(ps, token);
      && 0 <= c < |ps|
      && var o := StoreModel.MakeHostInRoom(old(store.Snapshot()), roomId, ps[c].socketId, targetSocketId);
         && store.Snapshot() == o.next
         && (status == 400 <==> o.res.Failed?)
         && (status == 400 ==> events == [])
         && (status != 400 ==> status == 200 && events == [PlayerList(roomId, store.rooms[roomId].players)])
    ensures status == 200 ==>
      roomId in old(store.rooms) && roomId in store.rooms &&
      var t := SocketIndex(old(store.rooms)[roomId].players, targetSocketId);
      0 <= t < |store.rooms[roomId].players| &&
      store.rooms[roomId].players[t].socketId == targetSocketId && store.rooms[roomId].players[t].role == Admin
  {
    var room := store.GetRoom(roomId);
    if room.None? {
      return 404, [];
    }
    var ps := room.value.players;
    TokenIndexIff(ps, token);
    var currentHost := ps[TokenIndex(ps, token)];
    MakeHostInRoomProperties(store.Snapshot(), roomId, currentHost.socketId, targetSocketId,
      StoreModel.MakeHostInRoom(store.Snapshot(), roomId, currentHost.socketId, targetSocketId));
    var res := store.MakeHostInRoom(roomId, currentHost.socketId, targetSocketId);
    if res.Failed? {
      return 400, [];
    }
    events := PlayerListEvents(store.rooms, roomId);
    status := 200;
  }

  /**
   * `resetReadyStatus`: 404, changing nothing, for a missing room; otherwise
   * the room leaves play with exactly its admin ready, the player list is
   * broadcast, and 200.
   */
  method ResetReadyStatusRequest(store: Store, roomId: RoomId) returns (status: int, events: seq<Event>)
    requires store.Valid()
    modifies store
    ensures store.Valid()
    ensures roomId !in old(store.rooms) ==>
      status == 404 && events == [] && store.Snapshot() == old(store.Snapshot())
    ensures roomId in old(store.rooms) ==>
      && status == 200
      && store.Snapshot() == StoreModel.ResetReadyStatusInRoom(old(store.Snapshot()), roomId).next
      && roomId in store.rooms
      && events == [PlayerList(roomId, store.rooms[roomId].players)]
      && !store.rooms[roomId].isPlaying
      && forall k :: 0 <= k < |store.rooms[roomId].players| ==>
           (store.rooms[roomId].players[k].isReady <==> store.rooms[roomId].players[k].role == Admin)
  {
    ResetReadyStatusInRoomProperties(store.Snapshot(), roomId,
      StoreModel.ResetReadyStatusInRoom(store.Snapshot(), roomId));
    var res := store.ResetReadyStatusInRoom(roomId);
    if res.Failed? {
      return 404, [];
    }
    events := PlayerListEvents(store.rooms, roomId);
    status := 200;
  }

  /**
   * Behind `verifyHost`, `makeHost` succeeds exactly when the target's
   * socket id is in the room, provided no other player shares the caller's
   * socket id.
   */
  lemma MakeHostSucceedsForPresentTarget(s: State, roomId: RoomId, token: Token, targetSocketId: string)
    requires ValidState(s) && VerifyHost(s.rooms, roomId, token) == Next
    requires var ps := s.rooms[roomId].players;
      SocketIndex(ps, ps[TokenIndex(ps, token)].socketId) == TokenIndex(ps, token)
    ensures var ps := s.rooms[roomId].players;
      var o := StoreModel.MakeHostInRoom(s, roomId, ps[TokenIndex(ps, token)].socketId, targetSocketId);
      o.res.Updated? <==> exists k :: 0 <= k < |ps| && ps[k].socketId == targetSocketId
  {
    var ps := s.rooms[roomId].players;
    var c := TokenIndex(ps, token);
    var o := StoreModel.MakeHostInRoom(s, roomId, ps[c].socketId, targetSocketId);
    MakeHostInRoomProperties(s, roomId, ps[c].socketId, targetSocketId, o);
    if k :| 0 <= k < |ps| && ps[k].socketId == targetSocketId {
      var p := (q: RoomPlayer) => q.socketId == targetSocketId;
      assert p(ps[k]);
    }
  }
}
