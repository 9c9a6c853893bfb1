# Word-game lobby server: rooms, players and presence

This project models the in-memory core of a multiplayer word-game server and
proves properties of it. The pieces modelled are:

- the state store (`backend/state/stateManager.js`), which holds the `rooms`
  dictionary and the `registeredPlayers` registry. Each room has a `players`
  list with one admin (the host).
- the login handler, which registers players and reconnects them by token.
- the `verifyHost` guard of the host-only REST routes.
- the Socket.IO handlers for joining, leaving, readiness, elimination,
  disconnect with a 30-second grace period, and logout.
- the REST room handlers.
- the frontend's notification queue.

The model has these modules:

- `Util`: `Option` and the first-match search behind `find` and
  `findIndex`.
- `RoomPlayers`: a room's player list as a value, and its invariant
  `WellFormed`:
  - the list is never empty;
  - exactly one player is the admin;
  - the admin is ready;
  - no two players share a token.

  Every list transformation the store performs comes with a lemma that it
  keeps the invariant.
- `StoreModel`: the store as a value (`State`) and one transition function
  per store operation. Each returns the JavaScript result (`{ error }`,
  `{ room }` or `{ roomDeleted: true }`) and the next state. Each has a
  `…Properties` lemma. It states that the invariant `ValidState` is kept,
  which results the operation can return, exactly when each error occurs,
  that it succeeds otherwise, and what the room looks like afterwards.
  Round-trip lemmas relate several operations.
- `StateManager`: the class `Store`, whose fields are the two dictionaries.
  Each operation is a method that updates them in place, with the source's
  loops. Each method is proved to leave exactly the state its `StoreModel`
  function names.
- `LoginController`: `handleLogin`, first as a function on the registry,
  then as a method on the store.
- `Auth`: `verifyHost` as a function on the rooms.
- `SocketManager`: each socket event handler is a method on the store. It
  returns the messages it emits, in order: broadcasts, replies to the
  socket, and `socket.join`/`leave`.
- `RoomsController`: each REST handler is a method on the store. It returns
  the HTTP status and the broadcasts it triggers.
- `Notifications`: the Pinia notification store as a class, with its list
  and its id counter.

JavaScript's falsy "no value" conventions are modelled as follows:

- an absent string is `""` and an absent number is `0`, wherever the source
  only tests truthiness;
- `isPublic`, `gameStartTime`, `eliminatedPlayers` and a registry entry's
  `roomId` are `Option`s, because the source tells `undefined` apart from
  a present value there.

## Model

| member | source | states |
|---|---|---|
| StoreModel.CandidateId | backend/state/stateManager.js:9-13 | an id built from five draws has five characters, all from the 36-character alphabet |
| StateManager.Store.GenerateRoomId | backend/state/stateManager.js:8-19 | the id returned is a well-formed, unused room id: the first attempt whose id is not already a room |
| StoreModel.CreateRoomProperties | backend/state/stateManager.js:21-38 | a new room under a fresh id keeps the given name, visibility, game mode and time and has no eliminated list; it holds only the host, who is its ready admin with score 0 and no game data; the room is not playing; it is the only room added; the host's registry entry, and no other, now names the room; the invariant holds |
| StateManager.Store.CreateRoom | backend/state/stateManager.js:21-38 | the room gets a fresh, well-formed id from `GenerateRoomId`, and the store becomes exactly `StoreModel.CreateRoom`'s next state |
| StateManager.Store.GetRoom | backend/state/stateManager.js:40 | none exactly when no room has that id; otherwise the room stored under it, which carries the id and a well-formed player list |
| StoreModel.PublicRooms | backend/state/stateManager.js:42-44 | a room is listed exactly when it is in the store and its `isPublic` is true |
| StoreModel.UpdateRoomProperties | backend/state/stateManager.js:50-73 | fails exactly for a missing room, and then changes nothing; otherwise succeeds; a truthy name, game mode or time replaces the room's, a defined `isPublic` or eliminated list replaces the room's, each field is otherwise kept; the id, the players, the game state and the registry are never touched |
| StoreModel.UpdateRoomIdempotent | backend/state/stateManager.js:50-73 | applying the same settings twice leaves the same state as applying them once |
| StateManager.Store.UpdateRoom | backend/state/stateManager.js:50-73 | result and new state are those of `StoreModel.UpdateRoom` |
| StateManager.Store.AddRegisteredPlayer | backend/state/stateManager.js:77-87 | the token's entry is written with the given fields and no room; other entries and the rooms are unchanged |
| StateManager.Store.FindRegisteredPlayerByToken | backend/state/stateManager.js:89-91 | none exactly for an unknown token; otherwise the entry stored under it, which carries that token |
| StateManager.Store.UpdateRegisteredPlayerSocketId | backend/state/stateManager.js:93-99 | a known token's entry changes its socket id and nothing else; an unknown token changes nothing |
| StateManager.Store.RemoveRegisteredPlayer | backend/state/stateManager.js:101-107 | the token's entry is gone and is returned; nothing else changes |
| StateManager.Store.RemoveRegisteredPlayerBySocketId | backend/state/stateManager.js:109-121 | an entry is removed and returned exactly when the socket id is truthy and some entry under a truthy token has it; it is that entry, and only it is removed; an entry under the key "" is never removed |
| RoomPlayers.TokenIndexIff | backend/state/stateManager.js:132 | a search for a token finds a player exactly when the token is in the list |
| RoomPlayers.ReattachedWellFormed | backend/state/stateManager.js:132-137 | reattaching a returning token keeps the invariant, the list's length and its tokens |
| RoomPlayers.AppendNewcomerWellFormed | backend/state/stateManager.js:149-159 | appending a newcomer whose token is absent keeps the invariant and adds exactly that token |
| RoomPlayers.HostOnlyWellFormed | backend/state/stateManager.js:21-38 | a room holding only its host satisfies the invariant |
| StoreModel.AddPlayerToRoomProperties | backend/state/stateManager.js:124-161 | the only errors are a missing room and a playing room that has never seen the token, each exactly in that case and changing nothing; otherwise the join succeeds and the token's player is in the room, connected, under the new socket id; a returning token changes only that entry's socket id and disconnected flag, and the registry is kept; a newcomer is appended as a plain, unready player with score 0, and their entry names the room; the room's other fields are kept |
| StateManager.Store.AddPlayerToRoom | backend/state/stateManager.js:124-161 | result and new state are those of `StoreModel.AddPlayerToRoom`; the invariant holds |
| StateManager.Store.AreAllPlayersReady | backend/state/stateManager.js:163-169 | true exactly when the room exists and every player is ready and not disconnected |
| RoomPlayers.StartAllProperties | backend/state/stateManager.js:179-187 | a start zeroes every score and gives fresh game data, keeping roles, readiness and the invariant |
| StoreModel.StartGameProperties | backend/state/stateManager.js:171-190 | fails exactly for a missing room, changing nothing, and otherwise succeeds; the started room is playing since `now` and keeps every other setting; every player keeps name, token, role and readiness, and has score 0 and fresh game data |
| StateManager.Store.StartGame | backend/state/stateManager.js:171-190 | the per-player loop leaves exactly `StoreModel.StartGame`'s result and state |
| RoomPlayers.AfterRemovalProperties | backend/state/stateManager.js:203-221 | removing one player of several keeps the invariant and removes exactly that player's token; the others stay in order and unchanged, except that when the admin left the new first player becomes admin and ready |
| StoreModel.LeaveAtProperties | backend/state/stateManager.js:203-223 | the room is deleted exactly when the leaving player was its last; otherwise it loses exactly that entry, the others stay in order and unchanged, and a departing admin is replaced by the new first player, made admin and ready; the room's other fields and the registry are untouched and the invariant holds |
| StoreModel.RemovePlayerFromRoomProperties | backend/state/stateManager.js:192-224 | the only errors are a missing room and an absent socket id, each exactly in that case and changing nothing; otherwise the first player with that socket id leaves as `LeaveAtProperties` describes, and their registry entry loses its room |
| StateManager.Store.RemovePlayerFromRoom | backend/state/stateManager.js:192-224 | result and new state are those of `StoreModel.RemovePlayerFromRoom` |
| StoreModel.RemovePlayerFromRoomByTokenProperties | backend/state/stateManager.js:226-251 | the only errors are a missing room and an absent token, each exactly in that case and changing nothing; otherwise exactly that token leaves the room as `LeaveAtProperties` describes, and the registry is untouched |
| StateManager.Store.RemovePlayerFromRoomByToken | backend/state/stateManager.js:226-251 | result and new state are those of `StoreModel.RemovePlayerFromRoomByToken` |
| StoreModel.JoinThenLeaveRestoresRooms | backend/state/stateManager.js:124-161 | a newcomer who joins a lobby room and is then removed by token leaves every room exactly as it was |
| RoomPlayers.TransferredProperties | backend/state/stateManager.js:269-272 | a transfer keeps the invariant; the target becomes the ready admin; the former host becomes a plain, unready player; nobody else changes |
| RoomPlayers.TransferredBack | backend/state/stateManager.js:269-272 | handing the role straight back restores the list exactly when the target was not ready before |
| RoomPlayers.TransferredKeepsSocketIndex | backend/state/stateManager.js:259-260 | a transfer does not change which player a socket-id search finds |
| StoreModel.MakeHostInRoomProperties | backend/state/stateManager.js:253-275 | fails exactly for a missing room; else exactly when the first player with the caller's socket id is missing or not the admin; else exactly when no player has the target's socket id; refusals change nothing; otherwise it succeeds: the target is the one ready admin, the caller a plain unready player, nobody else changes, the room keeps its members, and the registry is unchanged |
| StoreModel.MakeHostTwice | backend/state/stateManager.js:253-275 | two transfers, the second handing the role back, are one update of the room |
| StoreModel.MakeHostRoundTrip | backend/state/stateManager.js:253-275 | handing the host role straight back restores the whole state exactly when the target was not ready before |
| StateManager.Store.MakeHostInRoom | backend/state/stateManager.js:253-275 | result and new state are those of `StoreModel.MakeHostInRoom` |
| StoreModel.ClearedFor | backend/state/stateManager.js:281-289 | every registry key is kept; exactly the entries of the room's members with a truthy token lose their room, the rest are unchanged |
| StoreModel.DeleteRoomProperties | backend/state/stateManager.js:277-295 | deletion removes exactly that room; afterwards no member's entry names a room; every other entry is unchanged; a missing room is reported and changes nothing |
| StateManager.Store.DeleteRoom | backend/state/stateManager.js:277-295 | true exactly when the room existed; the loop over the members leaves exactly `StoreModel.DeleteRoom`'s state |
| RoomPlayers.ReadySetWellFormed | backend/state/stateManager.js:303-310 | setting one player's flag, with admins left ready, keeps the invariant |
| StoreModel.SetPlayerReadyStatusInRoomProperties | backend/state/stateManager.js:297-313 | the only errors are a missing room and an absent socket id, each exactly in that case and changing nothing; otherwise the first player with the socket id takes the flag, unless they are the admin, who stays ready; nobody else and nothing else in the room changes |
| StateManager.Store.SetPlayerReadyStatusInRoom | backend/state/stateManager.js:297-313 | result and new state are those of `StoreModel.SetPlayerReadyStatusInRoom` |
| RoomPlayers.DisconnectedSetWellFormed | backend/state/stateManager.js:321-326 | marking one player (dis)connected keeps the invariant |
| StoreModel.SetPlayerDisconnectedProperties | backend/state/stateManager.js:315-329 | the only errors are a missing room and an absent token, each exactly in that case and changing nothing; otherwise exactly the player with that token takes the flag and nothing else in the room changes |
| StateManager.Store.SetPlayerDisconnected | backend/state/stateManager.js:315-329 | result and new state are those of `StoreModel.SetPlayerDisconnected` |
| RoomPlayers.ResetAllProperties | backend/state/stateManager.js:340-346 | after a reset, admins are ready and nobody else is; roles and the invariant are kept |
| RoomPlayers.ResetAllReadyIff | backend/state/stateManager.js:331-349 | after a reset, everybody is ready exactly when the admin is alone in the room |
| StoreModel.ResetReadyStatusInRoomProperties | backend/state/stateManager.js:331-349 | fails exactly for a missing room, changing nothing, and otherwise succeeds; the room is back in the lobby, not playing, keeps every other setting, with exactly its admin ready and every player otherwise unchanged |
| StateManager.Store.ResetReadyStatusInRoom | backend/state/stateManager.js:331-349 | the loop leaves exactly `StoreModel.ResetReadyStatusInRoom`'s result and state |
| RoomPlayers.ScoreSetWellFormed | backend/state/stateManager.js:358-363 | changing one score keeps the invariant |
| StoreModel.UpdatePlayerScoreProperties | backend/state/stateManager.js:352-365 | returns the first player with that name, with the new score, and changes only that score; no such player means none returned and no change |
| StateManager.Store.UpdatePlayerScore | backend/state/stateManager.js:352-365 | result and new state are those of `StoreModel.UpdatePlayerScore` |
| StateManager.Store.FindPlayerInRoomByName | backend/state/stateManager.js:367-373 | the first player of the room with the name, or none exactly when the room is missing or has no such player |
| StoreModel.WithName | backend/state/stateManager.js:377-379 | the list afterwards holds the name and every old name, and nothing else; a name already there leaves the list unchanged |
| StoreModel.EliminatePlayerInRoomProperties | backend/state/stateManager.js:375-380 | throws exactly for an existing room whose eliminated list was never set, and then changes nothing; a missing room is ignored; otherwise the list holds the name and the old names and nothing else, and every other field of the room, the other rooms and the registry are unchanged |
| StoreModel.EliminateTwiceIsOnce | backend/state/stateManager.js:375-380 | eliminating the same player twice is eliminating them once |
| StateManager.Store.EliminatePlayerInRoom | backend/state/stateManager.js:375-380 | the throw and the new state are those of `StoreModel.EliminatePlayerInRoom` |
| StateManager.Store.constructor | backend/state/stateManager.js:3-4 | the store starts with no rooms and no registered players |
| LoginController.LoginProperties | backend/controllers/loginController.js:22-70 | 400 exactly for a missing name or socket id; a known token reconnects under any name, only moving its entry to the new socket; otherwise 409 exactly when the name is taken; otherwise an unknown token that was sent is registered again under that token (200), exactly when it is truthy, unknown and the name is free; a login without a token gets a new entry under the fresh token (201), exactly when the name is free; either entry is on the lobby page with no room; refusals change nothing; names stay unique |
| LoginController.LoginThenReconnect | backend/controllers/loginController.js:31-69 | whoever logs in successfully is reconnected when they come back with the token they were given |
| LoginController.HandleLogin | backend/controllers/loginController.js:22-70 | the response and the registry are those of `Login`, with the random token as a fresh parameter; the rooms are untouched |
| Auth.VerifyHost | backend/middleware/auth.js:3-26 | 401 exactly for a missing token; 404 exactly for a missing room; 404 exactly when no player of the room has the token; otherwise the call proceeds exactly when the first such player is the admin |
| Auth.VerifyHostAdmitsExactlyTheAdmin | backend/middleware/auth.js:3-26 | in a valid store the guard lets through exactly a token held by the room's admin, and that player is ready |
| SocketManager.StartMuerteSubitaGame | backend/controllers/socketManager.js:99-107 | for an existing room the eliminated list becomes empty, nothing else changes, and the room state is broadcast; a missing room is ignored |
| SocketManager.OnConnection | backend/controllers/socketManager.js:116-123 | a truthy, known handshake token moves its entry to the new socket; otherwise nothing changes |
| SocketManager.JoinRoom | backend/controllers/socketManager.js:125-146 | missing data or a store refusal sends only `join-room-error` and changes nothing; the refusal happens exactly for a missing room, or a playing room that has never seen the token; on success the socket joins, is sent the room, and the room is sent its player list, which holds the joining token |
| SocketManager.LeaveRoom | backend/controllers/socketManager.js:149-161 | the socket leaves, the player is removed by socket id, and the public list is broadcast exactly when the room was deleted, the player list exactly when it remains |
| SocketManager.SetReady | backend/controllers/socketManager.js:164-169 | the flag is set as `setPlayerReadyStatusInRoom` says; the player list and room state are broadcast, and nothing is sent exactly when the room is missing |
| SocketManager.PlayerEliminated | backend/controllers/socketManager.js:186-196 | acts only when the named player is in the room; then the name is added and the broadcast room state lists it, unless the list was never set (a throw: nothing sent) |
| SocketManager.Disconnect | backend/controllers/socketManager.js:199-251 | no truthy registry entry for the socket means no change; an entry outside a room is dropped at once; in a room, exactly that player is marked disconnected; if all players are then disconnected the room is deleted and the public list broadcast; afterwards the room is gone or someone in it is connected; the grace timer then starts |
| SocketManager.GraceExpired | backend/controllers/socketManager.js:224-242 | no change unless the room named at firing time exists and still holds the token as a disconnected player; then the player is removed from it and from the registry, with the same broadcasts as leaving |
| SocketManager.ExplicitLogout | backend/controllers/socketManager.js:255-267 | a player in a room is removed from it by token, with the same broadcasts as leaving; their registry entry is dropped in every case |
| RoomsController.CreateRoomRequest | backend/controllers/roomsController.js:34-48 | 400, changing nothing, without a host or a name; otherwise 201, the store's new room under a fresh id, and a public-list broadcast that shows the room exactly when it is public |
| RoomsController.UpdateRoomRequest | backend/controllers/roomsController.js:76-105 | 404, changing nothing, for a missing room; otherwise 200 with the store's update, room-state and player-list broadcasts, and a public-list broadcast exactly when the settings change the room's visibility |
| RoomsController.StartGameRequest | backend/controllers/roomsController.js:116-138 | 200 exactly when the room exists and all its players are ready and connected; the room is then playing since `now`, and the state and list are broadcast; otherwise 403 and no change |
| RoomsController.RemovePlayerRequest | backend/controllers/roomsController.js:149-177 | 404, changing nothing, exactly when the room or the socket id is missing; otherwise 200, the removal's broadcasts, `player-removed` to the kicked socket, and removal of a registry entry under a truthy token with that socket id, exactly when there is one |
| RoomsController.MakeHostRequest | backend/controllers/roomsController.js:187-212 | 404 for a missing room; otherwise the caller is the first player with the request's token, and the outcome is the store's transfer from that player's socket id: 400 exactly when the store refuses, else 200 with the target as admin and the player list broadcast |
| RoomsController.MakeHostSucceedsForPresentTarget | backend/controllers/roomsController.js:191-205 | behind `verifyHost`, and with the caller's socket id unshared, the transfer succeeds exactly when the target's socket id is in the room |
| RoomsController.ResetReadyStatusRequest | backend/controllers/roomsController.js:222-237 | 404, changing nothing, for a missing room; otherwise 200, the room out of play with exactly its admin ready, and the player list broadcast |
| Notifications.WithoutMembers | frontend/vue-project/src/stores/notification.js:17-20 | removing an id keeps exactly the entries with other ids |
| Notifications.WithoutAbsent | frontend/vue-project/src/stores/notification.js:17-20 | removing an absent id changes nothing |
| Notifications.WithoutAscending | frontend/vue-project/src/stores/notification.js:17-20 | removing an id keeps the ids increasing along the list |
| Notifications.RemoveAtIsWithout | frontend/vue-project/src/stores/notification.js:18-19 | in a list of increasing ids, splicing out the first entry with an id removes exactly the entries with that id |
| Notifications.PushThenRemove | frontend/vue-project/src/stores/notification.js:8-20 | a pushed entry removed by its id, before anything else happens, leaves the list as it was |
| Notifications.NotificationStore.constructor | frontend/vue-project/src/stores/notification.js:5-6 | the list starts empty and the counter at 1 |
| Notifications.NotificationStore.PushNotification | frontend/vue-project/src/stores/notification.js:8-15 | the entry gets the counter's id, larger than every id in the list, and is appended with defaults 'info' and ''; earlier entries are unchanged; the counter moves on by one; the auto-remove delay is returned exactly for a positive timeout (default 5000) |
| Notifications.NotificationStore.RemoveNotification | frontend/vue-project/src/stores/notification.js:17-20 | the entry with the id is removed, the others keep their order, and an absent id changes nothing |
| Notifications.NotificationStore.Clear | frontend/vue-project/src/stores/notification.js:22-24 | the list is empty; the counter is not reset, so later ids stay larger than earlier ones |

## Left out

- Randomness:
  - `generateRoomId` draws random characters. The draws are a parameter (`attempts`), and the caller supplies at least one fresh attempt.
  - The source retries by recursion until an id is fresh. The model loops over the supplied attempts instead.
  - `handleLogin`'s `crypto.randomBytes` token is a parameter (`freshToken`). It must be 32 hex digits and not yet registered.
- The clock: `Date.now()` in `startGame` is the parameter `now`.
- Timers are not run:
  - The 30-second grace timer of `disconnect` is the separate method `SocketManager.GraceExpired`. It runs on whatever state exists when it fires.
  - A notification's auto-remove timeout is returned as a delay. Firing it is a call of `RemoveNotification`.
  - Handlers that `await` a broadcast are modelled as running to completion, with nothing in between. Interleaving during the `await` is not modelled.
- Socket.IO and Express are replaced by returned values:
  - Emits, joins and leaves are the returned `Event` list; `res.status(...)` is the returned status.
  - Response bodies are returned only where they carry a room.
  - The log lines are omitted.
- The database enrichment in `broadcastPlayerList` is not modelled: the event carries the store's player list.
- `RoomsController.UpdateRoomRequest`, `RoomsController.RemovePlayerRequest`: the player-list event is placed where `broadcastPlayerList` is called. That function is async, and these handlers do not await it, so in the source its emit reaches sockets after the handler's later synchronous emits: after the public list in `updateRoom` and after `player-removed` in `removePlayer`. The model does not capture that reordering.
- The `powerUp` relay (backend/controllers/socketManager.js:171-182) is left out. It only forwards a message and touches no state.
- `SocketManager.Disconnect`, `StateManager.Store.RemoveRegisteredPlayerBySocketId`, `RoomsController.RemovePlayerRequest`: they pick some registry entry with the socket id under a truthy token. The source picks the first key in insertion order, which the model does not track. So when an entry under the key "" with that socket id comes first, the source finds nothing, while the model may still pick another matching entry.
- `StoreModel.PublicRooms`: a set, not an array in insertion order.
- `SocketManager.GraceExpired`: the timer's callback reads `player.roomId` from the entry object captured at the disconnect. The model takes that value, as it stands at firing time, as the `roomId` parameter.
- `RoomsController.StartGameRequest`: a missing room answers 403, not 404. `areAllPlayersReady` is false for a missing room, so the 404 branch after `startGame` cannot be reached.
- `RoomsController.MakeHostRequest`: requires that the request's token is in the room, when the room exists. `verifyHost` guarantees this on the route (backend/routes/roomsRoutes.js:26). Without it the source dereferences an undefined `currentHost`.
- `Auth.VerifyHost`: the token is read from the `Authorization` header, and `roomId` from the route parameters. These are plain parameters here.
- JavaScript values: `time`, scores, timeouts and ids are unbounded integers, not IEEE doubles. A client-sent `isReady` or `isPublic` is a `bool`, while the source stores whatever truthy or falsy value arrives. The `updateRoom` settings from the request body are assumed to have their intended types: `name` and `gameMode` strings, `time` a number, `eliminatedPlayers` an array when defined. So `{ eliminatedPlayers: null }`, after which the source's `eliminatePlayerInRoom` throws, is not modelled.
- Other parts of the repository are not part of this model:
  - the other controllers: accounts, stats, words, scores and the player routes;
  - the routes wiring and server setup;
  - the database layer;
  - every frontend module except the notification store.

  They are thin wrappers over the store or persistence code.
