/**
 * The in-memory store of the backend (backend/state/stateManager.js): the
 * process-wide `rooms` and `registeredPlayers` dictionaries as the two map
 * fields of one `Store` object, and every operation on them, each performing
 * in place the transition of the same name in module StoreModel.
 */
module StateManager {
  import opened Util
  import opened RoomPlayers
  import opened StoreModel

  class Store {
    var rooms: map<RoomId, Room>
    var registeredPlayers: map<Token, RegisteredPlayer>

    /** Both dictionaries as one value. */
    function Snapshot(): State
      reads this
    {
      State(rooms, registeredPlayers)
    }

    ghost predicate Valid()
      reads this
    {
      ValidState(Snapshot())
    }

    /** The two dictionaries as the module creates them: empty. */
    constructor ()
      ensures Valid() && rooms == map[] && registeredPlayers == map[]
    {
      rooms := map[];
      registeredPlayers := map[];
    }

    // -------------------------------------------------------------------
    // Rooms

    /**
     * `generateRoomId`: each attempt draws five characters; an attempt whose id
     * is already a room is discarded and the next one is tried. The random
     * draws are a parameter; the caller vouches that some attempt is fresh.
     */
    method GenerateRoomId(attempts: seq<seq<CharIndex>>) returns (id: RoomId)
      requires forall a :: a in attempts ==> |a| == RoomIdLength
      requires exists k :: 0 <= k < |attempts| && CandidateId(attempts[k]) !in rooms
      ensures IsRoomId(id) && id !in rooms
      ensures FirstFreshCandidate(attempts, rooms.Keys, id)
    {
      var n := 0;
      while n < |attempts|
        invariant 0 <= n <= |attempts|
        invariant forall j :: 0 <= j < n ==> CandidateId(attempts[j]) in rooms
      {
        var draws := attempts[n];
        var result := "";
        var i := 0;
        while i < RoomIdLength
          invariant 0 <= i <= RoomIdLength
          invariant result == CandidateId(draws[..i])
        {
          result := result + [Alphabet[draws[i]]];
          i := i + 1;
        }
        assert draws[..RoomIdLength] == draws;
        if result !in rooms {
          return result;
        }
        n := n + 1;
      }
      assert false;
    }

    /** `createRoom`: a fresh id, then the room holding its host. */
    method CreateRoom(host: PlayerInfo, name: string, isPublic: Option<bool>, gameMode: string,
                      time: int, attempts: seq<seq<CharIndex>>) returns (room: Room)
      requires Valid()
      requires forall a :: a in attempts ==> |a| == RoomIdLength
      requires exists k :: 0 <= k < |attempts| && CandidateId(attempts[k]) !in rooms
      modifies this
      ensures Valid()
      ensures IsRoomId(room.id) && room.id !in old(rooms)
      ensures FirstFreshCandidate(attempts, old(rooms).Keys, room.id)
      ensures Outcome(Updated(room), Snapshot()) ==
        StoreModel.CreateRoom(old(Snapshot()), room.id, host, name, isPublic, gameMode, time)
    {
      var roomId := GenerateRoomId(attempts);
      ghost var o := StoreModel.CreateRoom(Snapshot(), roomId, host, name, isPublic, gameMode, time);
      CreateRoomProperties(Snapshot(), roomId, host, name, isPublic, gameMode, time, o);
      room := Room(roomId, name, isPublic, gameMode, time, [], false, None, None);
      // addPlayerToRoom(roomId, hostPlayer, true) on the fresh, empty room
      registeredPlayers := SetRoomId(registeredPlayers, host.token, roomId);
      room := room.(players := room.players + [HostEntry(host.name, host.socketId, host.token)]);
      assert room == o.res.room;
      rooms := rooms[roomId := room];
    }

    /** `getRoom`: a room is found exactly under its own id. */
    function GetRoom(roomId: RoomId): (r: Option<Room>)
      reads this
      ensures r.None? <==> roomId !in rooms
      ensures r.Some? ==> roomId in rooms && r.value == rooms[roomId]
      ensures Valid() && r.Some? ==> r.value.id == roomId && WellFormed(r.value.players)
    {
      if roomId in rooms then Some(rooms[roomId]) else None
    }

    /** `updateRoom`: the settings are applied field by field. */
    method UpdateRoom(roomId: RoomId, settings: Settings) returns (res: StoreResult)
      requires Valid()
      modifies this
      ensures Valid()
      ensures Outcome(res, Snapshot()) == StoreModel.UpdateRoom(old(Snapshot()), roomId, settings)
    {
      UpdateRoomProperties(Snapshot(), roomId, settings, StoreModel.UpdateRoom(Snapshot(), roomId, settings));
      if roomId !in rooms {
        return Failed(RoomNotFound);
      }
      var room := rooms[roomId];
      if settings.name != "" {
        room := room.(name := settings.name);
      }
      if settings.isPublic.Some? {
        room := room.(isPublic := settings.isPublic);
      }
      if settings.gameMode != "" {
        room := room.(gameMode := settings.gameMode);
      }
      if settings.time != 0 {
        room := room.(time := settings.time);
      }
      if settings.eliminatedPlayers.Some? {
        room := room.(eliminatedPlayers := settings.eliminatedPlayers);
      }
      rooms := rooms[roomId := room];
      return Updated(room);
    }

    // -------------------------------------------------------------------
    // Registered players

    /** `addRegisteredPlayer`: the entry of `token` is (re)written, with no room. */
    method AddRegisteredPlayer(name: string, socketId: string, token: Token, currentPage: string, isGuest: bool)
      returns (entry: RegisteredPlayer)
      requires Valid()
      modifies this
      ensures Valid()
      ensures entry == RegisteredPlayer(name, socketId, token, currentPage, isGuest, None)
      ensures registeredPlayers == old(registeredPlayers)[token := entry]
      ensures rooms == old(rooms)
    {
      entry := RegisteredPlayer(name, socketId, token, currentPage, isGuest, None);
      registeredPlayers := registeredPlayers[token := entry];
    }

    /** `findRegisteredPlayerByToken`. */
    function FindRegisteredPlayerByToken(token: Token): (r: Option<RegisteredPlayer>)
      reads this
      ensures r.None? <==> token !in registeredPlayers
      ensures r.Some? ==> token in registeredPlayers && r.value == registeredPlayers[token]
      ensures Valid() && r.Some? ==> r.value.token == token
    {
      if token in registeredPlayers then Some(registeredPlayers[token]) else None
    }

    /** `updateRegisteredPlayerSocketId`: only that entry's `socketId` changes. */
    method UpdateRegisteredPlayerSocketId(token: Token, socketId: string) returns (r: Option<RegisteredPlayer>)
      requires Valid()
      modifies this
      ensures Valid()
      ensures rooms == old(rooms)
      ensures token !in old(registeredPlayers) ==> r == None && registeredPlayers == old(registeredPlayers)
      ensures token in old(registeredPlayers) ==>
        r == Some(old(registeredPlayers)[token].(socketId := socketId)) &&
        registeredPlayers == old(registeredPlayers)[token := r.value]
    {
      if token in registeredPlayers {
        var entry := registeredPlayers[token].(socketId := socketId);
        registeredPlayers := registeredPlayers[token := entry];
        r := Some(entry);
      } else {
        r := None;
      }
    }

    /** `removeRegisteredPlayer`: the entry of `token` is gone and returned. */
    method RemoveRegisteredPlayer(token: Token) returns (r: Option<RegisteredPlayer>)
      requires Valid()
      modifies this
      ensures Valid()
      ensures rooms == old(rooms)
      ensures registeredPlayers == old(registeredPlayers) - {token}
      ensures r == old(FindRegisteredPlayerByToken(token))
    {
      r := FindRegisteredPlayerByToken(token);
      registeredPlayers := registeredPlayers - {token};
    }

    /**
     * `removeRegisteredPlayerBySocketId`: nothing for a falsy socket id;
     * otherwise an entry with that socket id, if there is one under a truthy
     * token, is removed and returned. An entry stored under the key "" is never
     * removed, as the `if (token)` test skips it.
     */
    method RemoveRegisteredPlayerBySocketId(socketId: string) returns (r: Option<RegisteredPlayer>)
      requires Valid()
      modifies this
      ensures Valid()
      ensures rooms == old(rooms)
      ensures r.Some? <==>
        socketId != "" &&
        exists t :: t in old(registeredPlayers) && t != "" && old(registeredPlayers)[t].socketId == socketId
      ensures r.None? ==> registeredPlayers == old(registeredPlayers)
      ensures r.Some? ==>
        r.value.token != "" && r.value.token in old(registeredPlayers) && old(registeredPlayers)[r.value.token] == r.value &&
        r.value.socketId == socketId && registeredPlayers == old(registeredPlayers) - {r.value.token}
    {
      if socketId == "" {
        return None;
      }
      if t :| t in registeredPlayers && t != "" && registeredPlayers[t].socketId == socketId {
        r := RemoveRegisteredPlayer(t);
      } else {
        r := None;
      }
    }

    // -------------------------------------------------------------------
    // Players in rooms

    /** `addPlayerToRoom` for a joining player (never the host). */
    method AddPlayerToRoom(roomId: RoomId, info: PlayerInfo) returns (res: StoreResult)
      requires Valid()
      modifies this
      ensures Valid()
      ensures Outcome(res, Snapshot()) == StoreModel.AddPlayerToRoom(old(Snapshot()), roomId, info)
    {
      AddPlayerToRoomProperties(Snapshot(), roomId, info, StoreModel.AddPlayerToRoom(Snapshot(), roomId, info));
      if roomId !in rooms {
        return Failed(RoomNotFound);
      }
      var room := rooms[roomId];
      var k := TokenIndex(room.players, info.token);
      if k >= 0 {
        room := room.(players := room.players[k := room.players[k].(socketId := info.socketId)]);
        room := room.(players := room.players[k := room.players[k].(disconnected := false)]);
        assert room.players == Reattached(old(rooms)[roomId].players, k, info.socketId);
        rooms := rooms[roomId := room];
        return Updated(room);
      }
      if room.isPlaying {
        return Failed(GameInProgress);
      }
      registeredPlayers := SetRoomId(registeredPlayers, info.token, roomId);
      room := room.(players := room.players + [NewcomerEntry(info.name, info.socketId, info.token)]);
      rooms := rooms[roomId := room];
      return Updated(room);
    }

    /**
     * `areAllPlayersReady`: false for a missing room; otherwise every player
     * is ready and none is disconnected (true for an empty list).
     */
    function AreAllPlayersReady(roomId: RoomId): (r: bool)
      reads this
      ensures r <==> (roomId in rooms &&
        forall i :: 0 <= i < |rooms[roomId].players| ==>
          rooms[roomId].players[i].isReady && !rooms[roomId].players[i].disconnected)
    {
      roomId in rooms && All(rooms[roomId].players, (p: RoomPlayer) => p.isReady && !p.disconnected)
    }

    /** `startGame` at time `now`: the `forEach` over the players is a loop. */
    method StartGame(roomId: RoomId, now: int) returns (res: StoreResult)
      requires Valid()
      modifies this
      ensures Valid()
      ensures Outcome(res, Snapshot()) == StoreModel.StartGame(old(Snapshot()), roomId, now)
    {
      StartGameProperties(Snapshot(), roomId, now, StoreModel.StartGame(Snapshot(), roomId, now));
      if roomId !in rooms {
        return Failed(RoomNotFound);
      }
      var room := rooms[roomId];
      room := room.(isPlaying := true, gameStartTime := Some(now));
      var ps := room.players;
      var i := 0;
      while i < |ps|
        invariant 0 <= i <= |ps| && |ps| == |room.players|
        invariant forall k :: 0 <= k < i ==> ps[k] == StartOne(room.players[k])
        invariant forall k :: i <= k < |ps| ==> ps[k] == room.players[k]
      {
        ps := ps[i := ps[i].(score := 0)];
        ps := ps[i := ps[i].(gameData := Some(GameData(10, 0, false)))];
        i := i + 1;
      }
      assert ps == StartAll(room.players);
      room := room.(players := ps);
      rooms := rooms[roomId := room];
      return Updated(room);
    }

    /** `removePlayerFromRoom`: the first player with that socket id leaves. */
    method RemovePlayerFromRoom(roomId: RoomId, socketId: string) returns (res: StoreResult)
      requires Valid()
      modifies this
      ensures Valid()
      ensures Outcome(res, Snapshot()) == StoreModel.RemovePlayerFromRoom(old(Snapshot()), roomId, socketId)
    {
      RemovePlayerFromRoomProperties(Snapshot(), roomId, socketId,
                                     StoreModel.RemovePlayerFromRoom(Snapshot(), roomId, socketId));
      if roomId !in rooms {
        return Failed(RoomNotFound);
      }
      var room := rooms[roomId];
      var i := SocketIndex(room.players, socketId);
      if i == -1 {
        return Failed(PlayerNotFound);
      }
      var removed := room.players[i];
      room := room.(players := RemoveAt(room.players, i));
      registeredPlayers := ClearRoomId(registeredPlayers, removed.token);
      if |room.players| == 0 {
        rooms := rooms - {roomId};
        return RoomDeleted;
      }
      if removed.role == Admin {
        room := room.(players := room.players[0 := room.players[0].(role := Admin, isReady := true)]);
      }
      rooms := rooms[roomId := room];
      return Updated(room);
    }

    /** `removePlayerFromRoomByToken`: the player with that token leaves. */
    method RemovePlayerFromRoomByToken(roomId: RoomId, token: Token) returns (res: StoreResult)
      requires Valid()
      modifies this
      ensures Valid()
      ensures Outcome(res, Snapshot()) == StoreModel.RemovePlayerFromRoomByToken(old(Snapshot()), roomId, token)
    {
      RemovePlayerFromRoomByTokenProperties(Snapshot(), roomId, token,
                                            StoreModel.RemovePlayerFromRoomByToken(Snapshot(), roomId, token));
      if roomId !in rooms {
        return Failed(RoomNotFound);
      }
      var room := rooms[roomId];
      var i := TokenIndex(room.players, token);
      if i == -1 {
        return Failed(PlayerNotFound);
      }
      var removed := room.players[i];
      room := room.(players := RemoveAt(room.players, i));
      if |room.players| == 0 {
        rooms := rooms - {roomId};
        return RoomDeleted;
      }
      if removed.role == Admin && |room.players| > 0 {
        room := room.(players := room.players[0 := room.players[0].(role := Admin, isReady := true)]);
      }
      rooms := rooms[roomId := room];
      return Updated(room);
    }

    /** `makeHostInRoom`: both players are looked up by socket id. */
    method MakeHostInRoom(roomId: RoomId, currentHostSocketId: string, targetSocketId: string)
      returns (res: StoreResult)
      requires Valid()
      modifies this
      ensures Valid()
      ensures Outcome(res, Snapshot()) ==
        StoreModel.MakeHostInRoom(old(Snapshot()), roomId, currentHostSocketId, targetSocketId)
    {
      MakeHostInRoomProperties(Snapshot(), roomId, currentHostSocketId, targetSocketId,
                               StoreModel.MakeHostInRoom(Snapshot(), roomId, currentHostSocketId, targetSocketId));
      if roomId !in rooms {
        return Failed(RoomNotFound);
      }
      var room := rooms[roomId];
      var c := SocketIndex(room.players, currentHostSocketId);
      var t := SocketIndex(room.players, targetSocketId);
      if c == -1 || room.players[c].role != Admin {
        return Failed(NotHost);
      }
      if t == -1 {
        return Failed(TargetNotFound);
      }
      room := room.(players := room.players[c := room.players[c].(role := Player, isReady := false)]);
      room := room.(players := room.players[t := room.players[t].(role := Admin, isReady := true)]);
      rooms := rooms[roomId := room];
      return Updated(room);
    }

    /**
     * `deleteRoom`: `success` is whether the room existed; the `forEach` that
     * clears the members' registry entries is a loop.
     */
    method DeleteRoom(roomId: RoomId) returns (success: bool)
      requires Valid()
      modifies this
      ensures Valid()
      ensures success <==> roomId in old(rooms)
      ensures Snapshot() == StoreModel.DeleteRoom(old(Snapshot()), roomId).next
    {
      DeleteRoomProperties(Snapshot(), roomId, StoreModel.DeleteRoom(Snapshot(), roomId));
      if roomId !in rooms {
        return false;
      }
      var ps := rooms[roomId].players;
      ghost var reg0 := registeredPlayers;
      var i := 0;
      while i < |ps|
        invariant 0 <= i <= |ps|
        invariant rooms == old(rooms)
        invariant registeredPlayers == ClearedFor(reg0, ps[..i])
      {
        var p := ps[i];
        ClearedForStep(reg0, ps[..i], p);
        if p.token != "" && p.token in registeredPlayers {
          registeredPlayers := registeredPlayers[p.token := registeredPlayers[p.token].(roomId := None)];
        }
        assert ps[..i + 1] == ps[..i] + [p];
        i := i + 1;
      }
      assert ps[..|ps|] == ps;
      rooms := rooms - {roomId};
      return true;
    }

    /** `setPlayerReadyStatusInRoom`: the player found by socket id, unless admin. */
    method SetPlayerReadyStatusInRoom(roomId: RoomId, socketId: string, isReady: bool) returns (res: StoreResult)
      requires Valid()
      modifies this
      ensures Valid()
      ensures Outcome(res, Snapshot()) ==
        StoreModel.SetPlayerReadyStatusInRoom(old(Snapshot()), roomId, socketId, isReady)
    {
      SetPlayerReadyStatusInRoomProperties(Snapshot(), roomId, socketId, isReady,
                                           StoreModel.SetPlayerReadyStatusInRoom(Snapshot(), roomId, socketId, isReady));
      if roomId !in rooms {
        return Failed(RoomNotFound);
      }
      var room := rooms[roomId];
      var k := SocketIndex(room.players, socketId);
      if k == -1 {
        return Failed(PlayerNotFound);
      }
      if room.players[k].role != Admin {
        room := room.(players := room.players[k := room.players[k].(isReady := isReady)]);
        rooms := rooms[roomId := room];
      }
      return Updated(room);
    }

    /** `setPlayerDisconnected`: the player with that token takes the flag. */
    method SetPlayerDisconnected(roomId: RoomId, token: Token, isDisconnected: bool) returns (res: StoreResult)
      requires Valid()
      modifies this
      ensures Valid()
      ensures Outcome(res, Snapshot()) ==
        StoreModel.SetPlayerDisconnected(old(Snapshot()), roomId, token, isDisconnected)
    {
      SetPlayerDisconnectedProperties(Snapshot(), roomId, token, isDisconnected,
                                      StoreModel.SetPlayerDisconnected(Snapshot(), roomId, token, isDisconnected));
      if roomId !in rooms {
        return Failed(RoomNotFound);
      }
      var room := rooms[roomId];
      var k := TokenIndex(room.players, token);
      if k == -1 {
        return Failed(PlayerNotFound);
      }
      room := room.(players := room.players[k := room.players[k].(disconnected := isDisconnected)]);
      rooms := rooms[roomId := room];
      return Updated(room);
    }

    /** `resetReadyStatusInRoom`: the `forEach` over the players is a loop. */
    method ResetReadyStatusInRoom(roomId: RoomId) returns (res: StoreResult)
      requires Valid()
      modifies this
      ensures Valid()
      ensures Outcome(res, Snapshot()) == StoreModel.ResetReadyStatusInRoom(old(Snapshot()), roomId)
    {
      ResetReadyStatusInRoomProperties(Snapshot(), roomId, StoreModel.ResetReadyStatusInRoom(Snapshot(), roomId));
      if roomId !in rooms {
        return Failed(RoomNotFound);
      }
      var room := rooms[roomId];
      room := room.(isPlaying := false, gameStartTime := None);
      var ps := room.players;
      var i := 0;
      while i < |ps|
        invariant 0 <= i <= |ps| && |ps| == |room.players|
        invariant forall k :: 0 <= k < i ==> ps[k] == ResetOne(room.players[k])
        invariant forall k :: i <= k < |ps| ==> ps[k] == room.players[k]
      {
        if ps[i].role != Admin {
          ps := ps[i := ps[i].(isReady := false)];
        } else {
          ps := ps[i := ps[i].(isReady := true)];
        }
        i := i + 1;
      }
      assert ps == ResetAll(room.players);
      room := room.(players := ps);
      rooms := rooms[roomId := room];
      return Updated(room);
    }

    /** `updatePlayerScore`: the first player with that name takes the score. */
    method UpdatePlayerScore(roomId: RoomId, playerName: string, newScore: int) returns (r: Option<RoomPlayer>)
      requires Valid()
      modifies this
      ensures Valid()
      ensures (r, Snapshot()) == StoreModel.UpdatePlayerScore(old(Snapshot()), roomId, playerName, newScore)
    {
      UpdatePlayerScoreProperties(Snapshot(), roomId, playerName, newScore);
      if roomId !in rooms {
        return None;
      }
      var room := rooms[roomId];
      var k := NameIndex(room.players, playerName);
      if k == -1 {
        return None;
      }
      room := room.(players := room.players[k := room.players[k].(score := newScore)]);
      rooms := rooms[roomId := room];
      return Some(room.players[k]);
    }

    /** `findPlayerInRoomByName`: the first player of the room with that name. */
    function FindPlayerInRoomByName(roomId: RoomId, playerName: string): (r: Option<RoomPlayer>)
      reads this
      ensures r.Some? <==> (roomId in rooms &&
        exists k :: 0 <= k < |rooms[roomId].players| && rooms[roomId].players[k].name == playerName)
      ensures r.Some? ==> r.value.name == playerName && (exists k ::
        0 <= k < |rooms[roomId].players| && rooms[roomId].players[k] == r.value &&
        forall i :: 0 <= i < k ==> rooms[roomId].players[i].name != playerName)
    {
      if roomId !in rooms then None
      else
        var k := NameIndex(rooms[roomId].players, playerName);
        if k == -1 then None else Some(rooms[roomId].players[k])
    }

    /** `eliminatePlayerInRoom`: `crashed` is the `TypeError` of a room with no list. */
    method EliminatePlayerInRoom(roomId: RoomId, playerName: string) returns (crashed: bool)
      requires Valid()
      modifies this
      ensures Valid()
      ensures (crashed, Snapshot()) == StoreModel.EliminatePlayerInRoom(old(Snapshot()), roomId, playerName)
    {
      EliminatePlayerInRoomProperties(Snapshot(), roomId, playerName);
      if roomId !in rooms {
        return false;
      }
      var room := rooms[roomId];
      if room.eliminatedPlayers.None? {
        return true;
      }
      if playerName !in room.eliminatedPlayers.value {
        room := room.(eliminatedPlayers := Some(room.eliminatedPlayers.value + [playerName]));
        rooms := rooms[roomId := room];
      } else {
        assert rooms[roomId := room] == rooms;
      }
      return false;
    }
  }
}
