/**
 * The data of the in-memory store of the backend (backend/state/stateManager.js)
 * as values: rooms, registry entries, the two dictionaries as one `State`, and
 * one transition function per store operation giving the result it returns and
 * the state it leaves. The `Store` class of module StateManager performs these
 * transitions in place; the lemmas here state what each one promises.
 *
 * The invariant `ValidState` is what every operation keeps: each room is stored
 * under its own 5-character id, is never empty, has exactly one 'admin', whose
 * `isReady` is true, and holds at most one player per token; each registry
 * entry is stored under its own token.
 */
module StoreModel {
  import opened Util
  import opened RoomPlayers

  type RoomId = string
  type Token = string

  /** The characters `generateRoomId` draws from. */
  const Alphabet := "ABCDEFGHIJKLMNOPQRSTUVWXYZ0123456789"
  const RoomIdLength := 5

  /** The page a registry entry starts on (default of `addRegisteredPlayer`). */
  const DefaultPage := "room-selection"

  /** `Math.floor(Math.random() * chars.length)`: an index into `Alphabet`. */
  type CharIndex = i: nat | i < 36

  predicate IsRoomId(s: string) {
    |s| == RoomIdLength && forall i :: 0 <= i < |s| ==> s[i] in Alphabet
  }

  /** The id spelled by one attempt of five random draws. */
  function CandidateId(draws: seq<CharIndex>): (id: string)
    ensures |id| == |draws| && forall i :: 0 <= i < |id| ==> id[i] in Alphabet
  {
    seq(|draws|, i requires 0 <= i < |draws| => Alphabet[draws[i]])
  }

  /** `id` is the first attempt whose id is not taken. */
  predicate FirstFreshCandidate(attempts: seq<seq<CharIndex>>, taken: set<RoomId>, id: RoomId) {
    exists k :: 0 <= k < |attempts| && id == CandidateId(attempts[k]) && id !in taken &&
      forall j :: 0 <= j < k ==> CandidateId(attempts[j]) in taken
  }

  /** A room object. `isPublic` may be left undefined by `createRoom`. */
  datatype Room = Room(
    id: RoomId,
    name: string,
    isPublic: Option<bool>,
    gameMode: string,
    time: int,
    players: seq<RoomPlayer>,
    isPlaying: bool,
    gameStartTime: Option<int>,
    eliminatedPlayers: Option<seq<string>>)

  /** An entry of `registeredPlayers`; `roomId` is deleted as well as set. */
  datatype RegisteredPlayer = RegisteredPlayer(
    name: string,
    socketId: string,
    token: Token,
    currentPage: string,
    isGuest: bool,
    roomId: Option<RoomId>)

  /** The `{ name, socketId, token }` object clients send for a player. */
  datatype PlayerInfo = PlayerInfo(name: string, socketId: string, token: Token)

  /**
   * The settings object of `updateRoom`. A falsy `name`, `gameMode` or `time`
   * ("" or 0) is not applied; `isPublic` and `eliminatedPlayers` are applied
   * whenever they are defined.
   */
  datatype Settings = Settings(
    name: string,
    isPublic: Option<bool>,
    gameMode: string,
    time: int,
    eliminatedPlayers: Option<seq<string>>)

  /** The `{ error }` messages of the store. */
  datatype StoreError =
    | RoomNotFound     // 'La sala no existe.'
    | GameInProgress   // 'La partida ya ha comenzado.'
    | PlayerNotFound   // 'Jugador no encontrado en la sala.'
    | NotHost          // 'Solo el host actual puede transferir el rol de host.'
    | TargetNotFound   // 'Jugador objetivo no encontrado.'
    | NoSuchRoom       // 'Sala no encontrada.' (deleteRoom)

  /** `{ error }`, `{ room }` (also `{ player, room }`) or `{ roomDeleted: true }`. */
  datatype StoreResult = Failed(error: StoreError) | Updated(room: Room) | RoomDeleted

  predicate ValidRoom(id: RoomId, r: Room) {
    r.id == id && IsRoomId(id) && WellFormed(r.players)
  }

  predicate ValidRooms(rooms: map<RoomId, Room>) {
    forall id :: id in rooms ==> ValidRoom(id, rooms[id])
  }

  predicate ValidRegistry(reg: map<Token, RegisteredPlayer>) {
    forall t :: t in reg ==> reg[t].token == t
  }

  /** The entry of `t` (if any) now names room `id`. */
  function SetRoomId(reg: map<Token, RegisteredPlayer>, t: Token, id: RoomId): map<Token, RegisteredPlayer> {
    if t in reg then reg[t := reg[t].(roomId := Some(id))] else reg
  }

  /** `delete registeredPlayer.roomId` on the entry of `t`, if any. */
  function ClearRoomId(reg: map<Token, RegisteredPlayer>, t: Token): map<Token, RegisteredPlayer> {
    if t in reg then reg[t := reg[t].(roomId := None)] else reg
  }

  /** The registry after `deleteRoom` cleared the `roomId` of every member of a room. */
  function ClearedFor(reg: map<Token, RegisteredPlayer>, ps: seq<RoomPlayer>): (r: map<Token, RegisteredPlayer>)
    ensures r.Keys == reg.Keys
    ensures forall t :: t in reg ==>
      r[t] == if t != "" && t in TokenSet(ps) then reg[t].(roomId := None) else reg[t]
  {
    map t | t in reg :: if t != "" && t in TokenSet(ps) then reg[t].(roomId := None) else reg[t]
  }

  lemma InsertKeepsValidRooms(rooms: map<RoomId, Room>, id: RoomId, r: Room)
    requires ValidRooms(rooms) && ValidRoom(id, r)
    ensures ValidRooms(rooms[id := r])
  {
  }

  /** Clearing the members one at a time, as the `forEach` of `deleteRoom` does. */
  lemma ClearedForStep(reg: map<Token, RegisteredPlayer>, ps: seq<RoomPlayer>, p: RoomPlayer)
    ensures ClearedFor(reg, ps + [p]) ==
      var prev := ClearedFor(reg, ps);
      if p.token != "" && p.token in prev then prev[p.token := prev[p.token].(roomId := None)] else prev
  {
    var prev := ClearedFor(reg, ps);
    var next := if p.token != "" && p.token in prev then prev[p.token := prev[p.token].(roomId := None)] else prev;
    assert TokenSet(ps + [p]) == TokenSet(ps) + {p.token} by {
      var q := ps + [p];
      forall t | t in TokenSet(q) ensures t in TokenSet(ps) + {p.token} {
        var i :| 0 <= i < |q| && q[i].token == t;
        if i < |ps| { assert q[i] == ps[i]; }
      }
      forall t | t in TokenSet(ps) ensures t in TokenSet(q) {
        var i :| 0 <= i < |ps| && ps[i].token == t;
        assert q[i] == ps[i];
      }
      assert q[|ps|] == p;
    }
    assert ClearedFor(reg, ps + [p]).Keys == next.Keys;
    forall t | t in next ensures ClearedFor(reg, ps + [p])[t] == next[t] {
    }
  }

  /** `getPublicRooms`: the rooms whose `isPublic` is true. */
  function PublicRooms(rooms: map<RoomId, Room>): (r: set<Room>)
    ensures forall room :: room in r <==> room in rooms.Values && room.isPublic == Some(true)
  {
    set id | id in rooms && rooms[id].isPublic == Some(true) :: rooms[id]
  }

  /** A name clash as `handleLogin` tests it: some entry already has this name. */
  predicate NameTaken(reg: map<Token, RegisteredPlayer>, name: string) {
    exists t :: t in reg && reg[t].name == name
  }

  /** No two registry entries share a name. */
  predicate UniqueNames(reg: map<Token, RegisteredPlayer>) {
    forall t1, t2 :: t1 in reg && t2 in reg && t1 != t2 ==> reg[t1].name != reg[t2].name
  }

  // ---------------------------------------------------------------------
  // The store as one value

  /** `rooms` and `registeredPlayers` together. */
  datatype State = State(rooms: map<RoomId, Room>, registry: map<Token, RegisteredPlayer>)

  /** What a store operation returns, and the state it leaves behind. */
  datatype Outcome = Outcome(res: StoreResult, next: State)

  predicate ValidState(s: State) {
    ValidRooms(s.rooms) && ValidRegistry(s.registry)
  }

  /** An operation that returns `{ error }` changes nothing. */
  function Refused(s: State, e: StoreError): Outcome {
    Outcome(Failed(e), s)
  }

  function Put(s: State, roomId: RoomId, room: Room): State {
    s.(rooms := s.rooms[roomId := room])
  }

  // ---------------------------------------------------------------------
  // createRoom and updateRoom

  /** `createRoom` once `generateRoomId` has produced `id`. */
  function CreateRoom(s: State, id: RoomId, host: PlayerInfo, name: string, isPublic: Option<bool>,
                      gameMode: string, time: int): Outcome
  {
    var room := Room(id, name, isPublic, gameMode, time,
                     [HostEntry(host.name, host.socketId, host.token)], false, None, None);
    Outcome(Updated(room), State(s.rooms[id := room], SetRoomId(s.registry, host.token, id)))
  }

  /**
   * A new room under a fresh id holds the host alone, as its ready admin with
   * score 0, is not playing, and is the only room added; the host's registry
   * entry, and no other, now names it.
   */
  lemma CreateRoomProperties(s: State, id: RoomId, host: PlayerInfo, name: string, isPublic: Option<bool>,
                             gameMode: string, time: int, o: Outcome)
    requires ValidState(s) && IsRoomId(id) && id !in s.rooms
    requires o == CreateRoom(s, id, host, name, isPublic, gameMode, time)
    ensures ValidState(o.next)
    ensures o.res.Updated? && o.res.room.id == id && o.next.rooms == s.rooms[id := o.res.room]
    ensures |o.res.room.players| == 1
    ensures var h := o.res.room.players[0];
      h.name == host.name && h.socketId == host.socketId && h.token == host.token &&
      h.role == Admin && h.isReady && h.score == 0 && !h.disconnected
    ensures !o.res.room.isPlaying && o.res.room.gameStartTime == None
    ensures o.res.room.name == name && o.res.room.isPublic == isPublic
    ensures o.res.room.gameMode == gameMode && o.res.room.time == time
    ensures o.res.room.eliminatedPlayers == None && o.res.room.players[0].gameData == None
    ensures o.next.registry.Keys == s.registry.Keys
    ensures host.token in s.registry ==> o.next.registry[host.token] == s.registry[host.token].(roomId := Some(id))
    ensures forall t :: t in s.registry && t != host.token ==> o.next.registry[t] == s.registry[t]
  {
    HostOnlyWellFormed(host.name, host.socketId, host.token);
    InsertKeepsValidRooms(s.rooms, id, o.res.room);
  }

  /**
   * `updateRoom`: a truthy name, game mode and time and a defined visibility
   * and eliminated list are applied.
   */
  function UpdateRoom(s: State, roomId: RoomId, settings: Settings): Outcome {
    if roomId !in s.rooms then Refused(s, RoomNotFound)
    else
      var was := s.rooms[roomId];
      var room := was.(
        name := if settings.name != "" then settings.name else was.name,
        isPublic := if settings.isPublic.Some? then settings.isPublic else was.isPublic,
        gameMode := if settings.gameMode != "" then settings.gameMode else was.gameMode,
        time := if settings.time != 0 then settings.time else was.time,
        eliminatedPlayers :=
          if settings.eliminatedPlayers.Some? then settings.eliminatedPlayers else was.eliminatedPlayers);
      Outcome(Updated(room), Put(s, roomId, room))
  }

  /**
   * An update fails exactly for a missing room. Otherwise a truthy name, game
   * mode or time replaces the room's, a defined visibility or eliminated list
   * replaces the room's, and the players, the game state, the id and the
   * registry are never touched.
   */
  lemma UpdateRoomProperties(s: State, roomId: RoomId, settings: Settings, o: Outcome)
    requires ValidState(s) && o == UpdateRoom(s, roomId, settings)
    ensures ValidState(o.next)
    ensures o.res.Failed? || o.res.Updated?
    ensures o.res.Failed? <==> roomId !in s.rooms
    ensures o.res.Failed? ==> o.res.error == RoomNotFound && o.next == s
    ensures o.res.Updated? ==>
      roomId in s.rooms && o.next == Put(s, roomId, o.res.room) &&
      var was := s.rooms[roomId];
      o.res.room.id == was.id && o.res.room.players == was.players &&
      o.res.room.isPlaying == was.isPlaying && o.res.room.gameStartTime == was.gameStartTime
    ensures o.res.Updated? ==>
      var was := s.rooms[roomId];
      var r := o.res.room;
      && r == was.(name := r.name, isPublic := r.isPublic, gameMode := r.gameMode, time := r.time,
                   eliminatedPlayers := r.eliminatedPlayers)
      && (settings.name != "" ==> r.name == settings.name)
      && (settings.name == "" ==> r.name == was.name)
      && (settings.isPublic.Some? ==> r.isPublic == settings.isPublic)
      && (settings.isPublic.None? ==> r.isPublic == was.isPublic)
      && (settings.gameMode != "" ==> r.gameMode == settings.gameMode)
      && (settings.gameMode == "" ==> r.gameMode == was.gameMode)
      && (settings.time != 0 ==> r.time == settings.time)
      && (settings.time == 0 ==> r.time == was.time)
      && (settings.eliminatedPlayers.Some? ==> r.eliminatedPlayers == settings.eliminatedPlayers)
      && (settings.eliminatedPlayers.None? ==> r.eliminatedPlayers == was.eliminatedPlayers)
  {
  }

  /** Applying the same settings twice is applying them once. */
  lemma UpdateRoomIdempotent(s: State, roomId: RoomId, settings: Settings)
    ensures UpdateRoom(UpdateRoom(s, roomId, settings).next, roomId, settings) == UpdateRoom(s, roomId, settings)
  {
  }

  // ---------------------------------------------------------------------
  // addPlayerToRoom

  /**
   * `addPlayerToRoom` for a joining player (never the host): a token already
   * in the room only reattaches that entry, even during a game; otherwise a
   * room that is playing refuses, and a newcomer is appended and their
   * registry entry names the room.
   */
  function AddPlayerToRoom(s: State, roomId: RoomId, info: PlayerInfo): Outcome {
    if roomId !in s.rooms then Refused(s, RoomNotFound)
    else
      var was := s.rooms[roomId];
      var k := TokenIndex(was.players, info.token);
      if k >= 0 then
        var room := was.(players := Reattached(was.players, k, info.socketId));
        Outcome(Updated(room), Put(s, roomId, room))
      else if was.isPlaying then Refused(s, GameInProgress)
      else
        var room := was.(players := was.players + [NewcomerEntry(info.name, info.socketId, info.token)]);
        Outcome(Updated(room), State(s.rooms[roomId := room], SetRoomId(s.registry, info.token, roomId)))
  }

  /**
   * A join fails only for a missing room, or a room that is playing and has
   * never seen the token; otherwise it succeeds, and the player with that
   * token is in the room, connected, under the new socket id. A returning
   * token changes only its own entry's socket id and disconnected flag, and
   * leaves the registry alone; a new one is appended as a plain player, not
   * ready, score 0, and their registry entry names the room.
   */
  lemma AddPlayerToRoomProperties(s: State, roomId: RoomId, info: PlayerInfo, o: Outcome)
    requires ValidState(s) && o == AddPlayerToRoom(s, roomId, info)
    ensures ValidState(o.next)
    ensures o.res.Failed? || o.res.Updated?
    ensures o.res.Failed? ==> o.next == s
    ensures o.res.Failed? ==> o.res.error == RoomNotFound || o.res.error == GameInProgress
    ensures o.res == Failed(RoomNotFound) <==> roomId !in s.rooms
    ensures o.res == Failed(GameInProgress) <==>
      roomId in s.rooms && s.rooms[roomId].isPlaying && info.token !in TokenSet(s.rooms[roomId].players)
    ensures o.res.Updated? ==>
      roomId in s.rooms &&
      var ps := s.rooms[roomId].players;
      var now := o.res.room.players;
      && o.next.rooms == s.rooms[roomId := o.res.room]
      && o.res.room == s.rooms[roomId].(players := now)
      && TokenSet(now) == TokenSet(ps) + {info.token}
      && (exists k :: 0 <= k < |now| && now[k].token == info.token &&
            now[k].socketId == info.socketId && !now[k].disconnected)
      && (info.token in TokenSet(ps) ==>
            var k := TokenIndex(ps, info.token);
            && 0 <= k < |ps| && ps[k].token == info.token
            && now == ps[k := ps[k].(socketId := info.socketId, disconnected := false)]
            && o.next.registry == s.registry)
      && (info.token !in TokenSet(ps) ==>
            now == ps + [NewcomerEntry(info.name, info.socketId, info.token)] &&
            o.next.registry == SetRoomId(s.registry, info.token, roomId))
  {
    if roomId in s.rooms {
      var was := s.rooms[roomId];
      var k := TokenIndex(was.players, info.token);
      TokenIndexIff(was.players, info.token);
      if k >= 0 {
        ReattachedWellFormed(was.players, k, info.socketId);
        assert o.res.room.players[k].token == info.token;
      } else if !was.isPlaying {
        AppendNewcomerWellFormed(was.players, info.name, info.socketId, info.token);
        assert o.res.room.players[|was.players|].token == info.token;
      }
    }
  }

  // ---------------------------------------------------------------------
  // startGame and resetReadyStatusInRoom

  /** `startGame` at time `now` (`Date.now()`). */
  function StartGame(s: State, roomId: RoomId, now: int): Outcome {
    if roomId !in s.rooms then Refused(s, RoomNotFound)
    else
      var was := s.rooms[roomId];
      var room := was.(isPlaying := true, gameStartTime := Some(now), players := StartAll(was.players));
      Outcome(Updated(room), Put(s, roomId, room))
  }

  /**
   * A start fails exactly for a missing room. A started room is playing since
   * `now` and keeps its other settings; every player keeps name, token, role
   * and readiness, and has score 0 and fresh game data.
   */
  lemma StartGameProperties(s: State, roomId: RoomId, now: int, o: Outcome)
    requires ValidState(s) && o == StartGame(s, roomId, now)
    ensures ValidState(o.next)
    ensures o.res.Failed? || o.res.Updated?
    ensures o.res.Failed? <==> roomId !in s.rooms
    ensures o.res.Failed? ==> o.res.error == RoomNotFound && o.next == s
    ensures o.res.Updated? ==>
      roomId in s.rooms && o.next == Put(s, roomId, o.res.room) &&
      var ps := s.rooms[roomId].players;
      var now' := o.res.room.players;
      && o.res.room == s.rooms[roomId].(isPlaying := true, gameStartTime := Some(now), players := now')
      && |now'| == |ps|
      && forall k :: 0 <= k < |ps| ==>
           now'[k] == ps[k].(score := 0, gameData := Some(InitialGameData))
  {
    if roomId in s.rooms {
      StartAllProperties(s.rooms[roomId].players);
    }
  }

  /** `resetReadyStatusInRoom`: the room is back in the lobby. */
  function ResetReadyStatusInRoom(s: State, roomId: RoomId): Outcome {
    if roomId !in s.rooms then Refused(s, RoomNotFound)
    else
      var was := s.rooms[roomId];
      var room := was.(isPlaying := false, gameStartTime := None, players := ResetAll(was.players));
      Outcome(Updated(room), Put(s, roomId, room))
  }

  /**
   * A reset fails exactly for a missing room. Afterwards the room is not
   * playing and keeps its other settings, and exactly its admin is ready.
   */
  lemma ResetReadyStatusInRoomProperties(s: State, roomId: RoomId, o: Outcome)
    requires ValidState(s) && o == ResetReadyStatusInRoom(s, roomId)
    ensures ValidState(o.next)
    ensures o.res.Failed? || o.res.Updated?
    ensures o.res.Failed? <==> roomId !in s.rooms
    ensures o.res.Failed? ==> o.res.error == RoomNotFound && o.next == s
    ensures o.res.Updated? ==>
      roomId in s.rooms && o.next == Put(s, roomId, o.res.room) &&
      var ps := s.rooms[roomId].players;
      var now := o.res.room.players;
      && o.res.room == s.rooms[roomId].(isPlaying := false, gameStartTime := None, players := now)
      && |now| == |ps|
      && forall k :: 0 <= k < |ps| ==>
           now[k] == ps[k].(isReady := now[k].isReady) && (now[k].isReady <==> ps[k].role == Admin)
  {
    if roomId in s.rooms {
      ResetAllProperties(s.rooms[roomId].players);
    }
  }

  // ---------------------------------------------------------------------
  // Removing players

  /**
   * Player `i` of room `roomId` leaves: the room is deleted when they were its
   * last player, and otherwise a departing admin is replaced by the new first
   * player. Shared by both remove functions.
   */
  function LeaveAt(s: State, roomId: RoomId, i: nat): Outcome
    requires roomId in s.rooms && i < |s.rooms[roomId].players|
  {
    var was := s.rooms[roomId];
    if |was.players| == 1 then Outcome(RoomDeleted, s.(rooms := s.rooms - {roomId}))
    else
      var room := was.(players := AfterRemoval(was.players, i));
      Outcome(Updated(room), Put(s, roomId, room))
  }

  /** What `o` says about room `roomId` after its player `i` left. */
  predicate Departed(s: State, roomId: RoomId, i: int, o: Outcome) {
    && roomId in s.rooms && 0 <= i < |s.rooms[roomId].players|
    && var ps := s.rooms[roomId].players;
    && (o.res == RoomDeleted <==> |ps| == 1)
    && (o.res == RoomDeleted ==> o.next.rooms == s.rooms - {roomId})
    && (|ps| > 1 ==>
          && o.res.Updated?
          && o.next.rooms == s.rooms[roomId := o.res.room]
          && o.res.room == s.rooms[roomId].(players := o.res.room.players)
          && |o.res.room.players| == |ps| - 1
          && TokenSet(o.res.room.players) == TokenSet(ps) - {ps[i].token}
          && (ps[i].role == Admin ==>
                && o.res.room.players[0] == RemoveAt(ps, i)[0].(role := Admin, isReady := true)
                && forall k :: 0 < k < |ps| - 1 ==> o.res.room.players[k] == RemoveAt(ps, i)[k])
          && (ps[i].role != Admin ==> o.res.room.players == RemoveAt(ps, i)))
  }

  lemma LeaveAtProperties(s: State, roomId: RoomId, i: nat)
    requires ValidState(s) && roomId in s.rooms && i < |s.rooms[roomId].players|
    ensures ValidRooms(LeaveAt(s, roomId, i).next.rooms)
    ensures LeaveAt(s, roomId, i).next.registry == s.registry
    ensures Departed(s, roomId, i, LeaveAt(s, roomId, i))
  {
    var ps := s.rooms[roomId].players;
    if |ps| > 1 {
      AfterRemovalProperties(ps, i);
    }
  }

  /** `removePlayerFromRoom`: the first player with that socket id leaves. */
  function RemovePlayerFromRoom(s: State, roomId: RoomId, socketId: string): Outcome {
    if roomId !in s.rooms then Refused(s, RoomNotFound)
    else
      var ps := s.rooms[roomId].players;
      var i := SocketIndex(ps, socketId);
      if i < 0 then Refused(s, PlayerNotFound)
      else
        var o := LeaveAt(s, roomId, i);
        Outcome(o.res, o.next.(registry := ClearRoomId(s.registry, ps[i].token)))
  }

  /**
   * Removal by socket id fails exactly when the room or the socket id is
   * missing, and otherwise removes the first player with that socket id and
   * clears the room from that player's registry entry.
   */
  lemma RemovePlayerFromRoomProperties(s: State, roomId: RoomId, socketId: string, o: Outcome)
    requires ValidState(s) && o == RemovePlayerFromRoom(s, roomId, socketId)
    ensures ValidState(o.next)
    ensures o.res.Failed? ==> o.next == s
    ensures o.res.Failed? ==> o.res.error == RoomNotFound || o.res.error == PlayerNotFound
    ensures o.res == Failed(RoomNotFound) <==> roomId !in s.rooms
    ensures o.res == Failed(PlayerNotFound) <==>
      roomId in s.rooms && forall k :: 0 <= k < |s.rooms[roomId].players| ==> s.rooms[roomId].players[k].socketId != socketId
    ensures !o.res.Failed? ==>
      roomId in s.rooms &&
      var ps := s.rooms[roomId].players;
      var i := SocketIndex(ps, socketId);
      && Departed(s, roomId, i, o)
      && ps[i].socketId == socketId
      && o.next.registry == ClearRoomId(s.registry, ps[i].token)
  {
    if roomId in s.rooms {
      var i := SocketIndex(s.rooms[roomId].players, socketId);
      if i >= 0 {
        LeaveAtProperties(s, roomId, i);
      }
    }
  }

  /** `removePlayerFromRoomByToken`: as by socket id, but the registry is left alone. */
  function RemovePlayerFromRoomByToken(s: State, roomId: RoomId, token: Token): Outcome {
    if roomId !in s.rooms then Refused(s, RoomNotFound)
    else
      var i := TokenIndex(s.rooms[roomId].players, token);
      if i < 0 then Refused(s, PlayerNotFound) else LeaveAt(s, roomId, i)
  }

  /**
   * Removal by token fails exactly when the room is missing or the token is
   * not in it; otherwise exactly that token leaves the room, and the registry
   * is unchanged.
   */
  lemma RemovePlayerFromRoomByTokenProperties(s: State, roomId: RoomId, token: Token, o: Outcome)
    requires ValidState(s) && o == RemovePlayerFromRoomByToken(s, roomId, token)
    ensures ValidState(o.next)
    ensures o.next.registry == s.registry
    ensures o.res.Failed? ==> o.next == s
    ensures o.res.Failed? ==> o.res.error == RoomNotFound || o.res.error == PlayerNotFound
    ensures o.res == Failed(RoomNotFound) <==> roomId !in s.rooms
    ensures o.res == Failed(PlayerNotFound) <==> roomId in s.rooms && token !in TokenSet(s.rooms[roomId].players)
    ensures !o.res.Failed? ==>
      roomId in s.rooms &&
      var i := TokenIndex(s.rooms[roomId].players, token);
      Departed(s, roomId, i, o) && s.rooms[roomId].players[i].token == token
  {
    if roomId in s.rooms {
      TokenIndexIff(s.rooms[roomId].players, token);
      var i := TokenIndex(s.rooms[roomId].players, token);
      if i >= 0 {
        LeaveAtProperties(s, roomId, i);
      }
    }
  }

  /**
   * A newcomer who joins a room in the lobby and is then removed by token
   * leaves every room exactly as it was.
   */
  lemma JoinThenLeaveRestoresRooms(s: State, roomId: RoomId, info: PlayerInfo)
    requires ValidState(s) && roomId in s.rooms && !s.rooms[roomId].isPlaying
    requires info.token !in TokenSet(s.rooms[roomId].players)
    ensures var joined := AddPlayerToRoom(s, roomId, info);
      RemovePlayerFromRoomByToken(joined.next, roomId, info.token) ==
        Outcome(Updated(s.rooms[roomId]), State(s.rooms, joined.next.registry))
  {
    var ps := s.rooms[roomId].players;
    var n := NewcomerEntry(info.name, info.socketId, info.token);
    var joined := AddPlayerToRoom(s, roomId, info);
    AddPlayerToRoomProperties(s, roomId, info, joined);
    TokenIndexIff(ps, info.token);
    var qs := ps + [n];
    assert joined.next.rooms[roomId].players == qs;
    assert TokenIndex(qs, info.token) == |ps| by {
      assert forall j :: 0 <= j < |ps| ==> qs[j].token != info.token;
      assert qs[|ps|].token == info.token;
    }
    assert RemoveAt(qs, |ps|) == ps;
    assert s.rooms[roomId := s.rooms[roomId]] == s.rooms;
  }

  // ---------------------------------------------------------------------
  // makeHostInRoom

  /**
   * `makeHostInRoom`: refused unless the first player with the caller's socket
   * id is the admin, then unless some player has the target's socket id.
   */
  function MakeHostInRoom(s: State, roomId: RoomId, currentHostSocketId: string, targetSocketId: string): Outcome {
    if roomId !in s.rooms then Refused(s, RoomNotFound)
    else
      var was := s.rooms[roomId];
      var c := SocketIndex(was.players, currentHostSocketId);
      var t := SocketIndex(was.players, targetSocketId);
      if c < 0 || was.players[c].role != Admin then Refused(s, NotHost)
      else if t < 0 then Refused(s, TargetNotFound)
      else
        var room := was.(players := Transferred(was.players, c, t));
        Outcome(Updated(room), Put(s, roomId, room))
  }

  /**
   * A transfer is refused for a missing room, then when the first player
   * with the caller's socket id is missing or not the admin, then when no
   * player has the target's socket id; otherwise it succeeds. It ends with the
   * target as the one ready admin and the former host a plain player and not
   * ready; nobody else changes, and the room keeps its members.
   */
  lemma MakeHostInRoomProperties(s: State, roomId: RoomId, currentHostSocketId: string, targetSocketId: string, o: Outcome)
    requires ValidState(s) && o == MakeHostInRoom(s, roomId, currentHostSocketId, targetSocketId)
    ensures ValidState(o.next)
    ensures o.next.registry == s.registry
    ensures o.res.Failed? || o.res.Updated?
    ensures o.res.Failed? ==> o.next == s
    ensures o.res.Failed? ==>
      o.res.error == RoomNotFound || o.res.error == NotHost || o.res.error == TargetNotFound
    ensures o.res == Failed(RoomNotFound) <==> roomId !in s.rooms
    ensures o.res == Failed(NotHost) <==>
      roomId in s.rooms &&
      var c := SocketIndex(s.rooms[roomId].players, currentHostSocketId);
      c < 0 || s.rooms[roomId].players[c].role != Admin
    ensures o.res == Failed(TargetNotFound) <==>
      roomId in s.rooms &&
      var c := SocketIndex(s.rooms[roomId].players, currentHostSocketId);
      && 0 <= c && s.rooms[roomId].players[c].role == Admin
      && forall k :: 0 <= k < |s.rooms[roomId].players| ==> s.rooms[roomId].players[k].socketId != targetSocketId
    ensures o.res.Updated? ==>
      roomId in s.rooms && o.next.rooms == s.rooms[roomId := o.res.room] &&
      var ps := s.rooms[roomId].players;
      var now := o.res.room.players;
      var c := SocketIndex(ps, currentHostSocketId);
      var t := SocketIndex(ps, targetSocketId);
      && 0 <= c < |ps| && 0 <= t < |ps| && ps[c].role == Admin
      && ps[c].socketId == currentHostSocketId && ps[t].socketId == targetSocketId
      && o.res.room == s.rooms[roomId].(players := now)
      && |now| == |ps| && TokenSet(now) == TokenSet(ps)
      && now[t] == ps[t].(role := Admin, isReady := true)
      && (c != t ==> now[c] == ps[c].(role := Player, isReady := false))
      && (forall k :: 0 <= k < |ps| && k != t ==> now[k].role == Player)
      && (forall k :: 0 <= k < |ps| && k != c && k != t ==> now[k] == ps[k])
  {
    if roomId in s.rooms {
      var ps := s.rooms[roomId].players;
      var c := SocketIndex(ps, currentHostSocketId);
      var t := SocketIndex(ps, targetSocketId);
      if c >= 0 && ps[c].role == Admin && t >= 0 {
        var now := Transferred(ps, c, t);
        TransferredProperties(ps, c, t);
        AdminUnique(now, t);
        assert forall k :: 0 <= k < |ps| ==> now[k].token == ps[k].token;
        assert TokenSet(now) == TokenSet(ps) by {
          forall x | x in TokenSet(ps) ensures x in TokenSet(now) {
            var k :| 0 <= k < |ps| && ps[k].token == x;
            assert now[k].token == x;
          }
        }
      }
    }
  }

  /** Two transfers in a row, the second handing the role back, as one room update. */
  lemma MakeHostTwice(s: State, roomId: RoomId, hostSocketId: string, targetSocketId: string)
    requires ValidState(s) && hostSocketId != targetSocketId
    requires MakeHostInRoom(s, roomId, hostSocketId, targetSocketId).res.Updated?
    ensures roomId in s.rooms
    ensures var ps := s.rooms[roomId].players;
      var c := SocketIndex(ps, hostSocketId);
      var t := SocketIndex(ps, targetSocketId);
      && 0 <= c < |ps| && 0 <= t < |ps| && c != t && ps[c].role == Admin
      && var r2 := s.rooms[roomId].(players := Transferred(Transferred(ps, c, t), t, c));
         MakeHostInRoom(MakeHostInRoom(s, roomId, hostSocketId, targetSocketId).next, roomId, targetSocketId, hostSocketId)
           == Outcome(Updated(r2), Put(s, roomId, r2))
  {
    var was := s.rooms[roomId];
    var ps := was.players;
    var c := SocketIndex(ps, hostSocketId);
    var t := SocketIndex(ps, targetSocketId);
    var now := Transferred(ps, c, t);
    var r1 := was.(players := now);
    var once := MakeHostInRoom(s, roomId, hostSocketId, targetSocketId);
    assert once == Outcome(Updated(r1), Put(s, roomId, r1));
    assert now[t].role == Admin;
    TransferredKeepsSocketIndex(ps, c, t, hostSocketId);
    TransferredKeepsSocketIndex(ps, c, t, targetSocketId);
    var r2 := was.(players := Transferred(now, t, c));
    assert once.next.rooms[roomId] == r1;
    assert Put(once.next, roomId, r2) == Put(s, roomId, r2);
  }

  /**
   * Handing the host role straight back restores the room, and the whole
   * state, exactly when the target was not ready before the first transfer.
   */
  lemma MakeHostRoundTrip(s: State, roomId: RoomId, hostSocketId: string, targetSocketId: string)
    requires ValidState(s) && hostSocketId != targetSocketId
    requires MakeHostInRoom(s, roomId, hostSocketId, targetSocketId).res.Updated?
    ensures roomId in s.rooms && 0 <= SocketIndex(s.rooms[roomId].players, targetSocketId)
    ensures var once := MakeHostInRoom(s, roomId, hostSocketId, targetSocketId);
      var t := SocketIndex(s.rooms[roomId].players, targetSocketId);
      (MakeHostInRoom(once.next, roomId, targetSocketId, hostSocketId) == Outcome(Updated(s.rooms[roomId]), s)) <==>
      !s.rooms[roomId].players[t].isReady
  {
    MakeHostTwice(s, roomId, hostSocketId, targetSocketId);
    var was := s.rooms[roomId];
    var ps := was.players;
    var c := SocketIndex(ps, hostSocketId);
    var t := SocketIndex(ps, targetSocketId);
    TransferredBack(ps, c, t);
    var back := Transferred(Transferred(ps, c, t), t, c);
    if back == ps {
      assert was.(players := back) == was;
      assert s.rooms[roomId := was] == s.rooms;
    }
  }

  // ---------------------------------------------------------------------
  // deleteRoom

  /** `deleteRoom`: the room goes, and every member's registry entry loses its `roomId`. */
  function DeleteRoom(s: State, roomId: RoomId): Outcome {
    if roomId !in s.rooms then Refused(s, NoSuchRoom)
    else Outcome(RoomDeleted, State(s.rooms - {roomId}, ClearedFor(s.registry, s.rooms[roomId].players)))
  }

  /**
   * Deleting a room removes that room only; afterwards no registry entry of one
   * of its members names a room, and every other entry is unchanged.
   */
  lemma DeleteRoomProperties(s: State, roomId: RoomId, o: Outcome)
    requires ValidState(s) && o == DeleteRoom(s, roomId)
    ensures ValidState(o.next)
    ensures o.res.Failed? <==> roomId !in s.rooms
    ensures o.res.Failed? ==> o.next == s
    ensures !o.res.Failed? ==>
      && roomId in s.rooms
      && o.next.rooms == s.rooms - {roomId}
      && o.next.registry.Keys == s.registry.Keys
      && (forall t :: t in s.registry && t != "" && t in TokenSet(s.rooms[roomId].players) ==>
            o.next.registry[t] == s.registry[t].(roomId := None))
      && (forall t :: t in s.registry && (t == "" || t !in TokenSet(s.rooms[roomId].players)) ==>
            o.next.registry[t] == s.registry[t])
  {
  }

  // ---------------------------------------------------------------------
  // Flags and scores of one player

  /** `setPlayerReadyStatusInRoom`: the first player with that socket id. */
  function SetPlayerReadyStatusInRoom(s: State, roomId: RoomId, socketId: string, isReady: bool): Outcome {
    if roomId !in s.rooms then Refused(s, RoomNotFound)
    else
      var was := s.rooms[roomId];
      var k := SocketIndex(was.players, socketId);
      if k < 0 then Refused(s, PlayerNotFound)
      else
        var room := was.(players := ReadySet(was.players, k, isReady));
        Outcome(Updated(room), Put(s, roomId, room))
  }

  /**
   * Setting the flag fails exactly when the room or the socket id is missing;
   * otherwise the player found by socket id takes the flag unless they are the
   * admin, who stays ready, and nobody else changes.
   */
  lemma SetPlayerReadyStatusInRoomProperties(s: State, roomId: RoomId, socketId: string, isReady: bool, o: Outcome)
    requires ValidState(s) && o == SetPlayerReadyStatusInRoom(s, roomId, socketId, isReady)
    ensures ValidState(o.next)
    ensures o.res.Failed? || o.res.Updated?
    ensures o.res.Failed? ==> o.next == s
    ensures o.res.Failed? ==> o.res.error == RoomNotFound || o.res.error == PlayerNotFound
    ensures o.res == Failed(RoomNotFound) <==> roomId !in s.rooms
    ensures o.res == Failed(PlayerNotFound) <==>
      roomId in s.rooms && forall k :: 0 <= k < |s.rooms[roomId].players| ==> s.rooms[roomId].players[k].socketId != socketId
    ensures o.res.Updated? ==>
      roomId in s.rooms && o.next == Put(s, roomId, o.res.room) &&
      var ps := s.rooms[roomId].players;
      var now := o.res.room.players;
      var k := SocketIndex(ps, socketId);
      && 0 <= k < |ps| && ps[k].socketId == socketId
      && o.res.room == s.rooms[roomId].(players := now)
      && |now| == |ps|
      && now[k] == ps[k].(isReady := ps[k].role == Admin || isReady)
      && forall j :: 0 <= j < |ps| && j != k ==> now[j] == ps[j]
  {
    if roomId in s.rooms {
      var k := SocketIndex(s.rooms[roomId].players, socketId);
      if k >= 0 {
        ReadySetWellFormed(s.rooms[roomId].players, k, isReady);
      }
    }
  }

  /** `setPlayerDisconnected`: the player with that token. */
  function SetPlayerDisconnected(s: State, roomId: RoomId, token: Token, isDisconnected: bool): Outcome {
    if roomId !in s.rooms then Refused(s, RoomNotFound)
    else
      var was := s.rooms[roomId];
      var k := TokenIndex(was.players, token);
      if k < 0 then Refused(s, PlayerNotFound)
      else
        var room := was.(players := DisconnectedSet(was.players, k, isDisconnected));
        Outcome(Updated(room), Put(s, roomId, room))
  }

  /**
   * Setting the flag fails exactly when the room or the token is missing;
   * otherwise exactly the player with that token takes the flag.
   */
  lemma SetPlayerDisconnectedProperties(s: State, roomId: RoomId, token: Token, isDisconnected: bool, o: Outcome)
    requires ValidState(s) && o == SetPlayerDisconnected(s, roomId, token, isDisconnected)
    ensures ValidState(o.next)
    ensures o.res.Failed? || o.res.Updated?
    ensures o.res.Failed? ==> o.next == s
    ensures o.res.Failed? ==> o.res.error == RoomNotFound || o.res.error == PlayerNotFound
    ensures o.res == Failed(RoomNotFound) <==> roomId !in s.rooms
    ensures o.res == Failed(PlayerNotFound) <==> roomId in s.rooms && token !in TokenSet(s.rooms[roomId].players)
    ensures o.res.Updated? ==>
      roomId in s.rooms && o.next == Put(s, roomId, o.res.room) &&
      var ps := s.rooms[roomId].players;
      var now := o.res.room.players;
      && o.res.room == s.rooms[roomId].(players := now)
      && |now| == |ps|
      && forall j :: 0 <= j < |ps| ==>
           now[j] == (if ps[j].token == token then ps[j].(disconnected := isDisconnected) else ps[j])
  {
    if roomId in s.rooms {
      var ps := s.rooms[roomId].players;
      TokenIndexIff(ps, token);
      var k := TokenIndex(ps, token);
      if k >= 0 {
        DisconnectedSetWellFormed(ps, k, isDisconnected);
        assert forall j :: 0 <= j < |ps| && j != k ==> ps[j].token != token;
      }
    }
  }

  /** `updatePlayerScore`: the player found and the state left behind. */
  function UpdatePlayerScore(s: State, roomId: RoomId, playerName: string, newScore: int): (Option<RoomPlayer>, State) {
    if roomId !in s.rooms then (None, s)
    else
      var was := s.rooms[roomId];
      var k := NameIndex(was.players, playerName);
      if k < 0 then (None, s)
      else
        var ps := ScoreSet(was.players, k, newScore);
        (Some(ps[k]), Put(s, roomId, was.(players := ps)))
  }

  /**
   * A score update finds the first player with that name, or no one and
   * changes nothing; only that player's score changes.
   */
  lemma UpdatePlayerScoreProperties(s: State, roomId: RoomId, playerName: string, newScore: int)
    requires ValidState(s)
    ensures var (r, next) := UpdatePlayerScore(s, roomId, playerName, newScore);
      && ValidState(next)
      && (r.None? <==> (roomId !in s.rooms ||
            forall j :: 0 <= j < |s.rooms[roomId].players| ==> s.rooms[roomId].players[j].name != playerName))
      && (r.None? ==> next == s)
      && (r.Some? ==>
            roomId in s.rooms &&
            var ps := s.rooms[roomId].players;
            var k := NameIndex(ps, playerName);
            && 0 <= k < |ps| && ps[k].name == playerName
            && r.value == ps[k].(score := newScore)
            && next == Put(s, roomId, s.rooms[roomId].(players := ps[k := r.value])))
  {
    if roomId in s.rooms {
      var k := NameIndex(s.rooms[roomId].players, playerName);
      if k >= 0 {
        ScoreSetWellFormed(s.rooms[roomId].players, k, newScore);
      }
    }
  }

  // ---------------------------------------------------------------------
  // eliminatePlayerInRoom

  /** The eliminated list after `eliminatePlayerInRoom(roomId, name)`. */
  function WithName(names: seq<string>, name: string): (r: seq<string>)
    ensures name in r && forall n :: n in names ==> n in r
    ensures forall n :: n in r ==> n in names || n == name
    ensures name in names ==> r == names
  {
    if name in names then names else names + [name]
  }

  /**
   * `eliminatePlayerInRoom`: the first component says whether it throws, which
   * it does for a room whose eliminated list was never set (`includes` of
   * undefined); a missing room is ignored.
   */
  function EliminatePlayerInRoom(s: State, roomId: RoomId, playerName: string): (bool, State) {
    if roomId !in s.rooms then (false, s)
    else
      var was := s.rooms[roomId];
      match was.eliminatedPlayers
      case None => (true, s)
      case Some(names) =>
        (false, Put(s, roomId, was.(eliminatedPlayers := Some(WithName(names, playerName)))))
  }

  /**
   * Elimination throws exactly for a room whose list was never set, and then
   * changes nothing; otherwise it adds the name to the list once, and nothing
   * else in the room or the store changes.
   */
  lemma EliminatePlayerInRoomProperties(s: State, roomId: RoomId, playerName: string)
    requires ValidState(s)
    ensures var (crashed, next) := EliminatePlayerInRoom(s, roomId, playerName);
      && ValidState(next)
      && (crashed <==> roomId in s.rooms && s.rooms[roomId].eliminatedPlayers.None?)
      && (roomId !in s.rooms || crashed ==> next == s)
      && (roomId in s.rooms && !crashed ==>
            var was := s.rooms[roomId];
            var names := next.rooms[roomId].eliminatedPlayers;
            && next.registry == s.registry
            && next.rooms == s.rooms[roomId := next.rooms[roomId]]
            && next.rooms[roomId] == was.(eliminatedPlayers := names)
            && names.Some? && playerName in names.value
            && (forall n :: n in was.eliminatedPlayers.value ==> n in names.value)
            && (forall n :: n in names.value ==> n in was.eliminatedPlayers.value || n == playerName))
  {
  }

  /** Eliminating the same player twice is eliminating them once. */
  lemma EliminateTwiceIsOnce(s: State, roomId: RoomId, playerName: string)
    ensures var (crashed, next) := EliminatePlayerInRoom(s, roomId, playerName);
      !crashed ==> EliminatePlayerInRoom(next, roomId, playerName) == (false, next)
  {
    if roomId in s.rooms && s.rooms[roomId].eliminatedPlayers.Some? {
      var next := EliminatePlayerInRoom(s, roomId, playerName).1;
      var names := WithName(s.rooms[roomId].eliminatedPlayers.value, playerName);
      assert WithName(names, playerName) == names;
      assert next.rooms[roomId := next.rooms[roomId]] == next.rooms;
    }
  }
}
